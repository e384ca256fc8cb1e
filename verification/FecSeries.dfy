/** When the receiver of the FEC filter runs out of columns: it makes room for a far column group by dismissing its oldest
    series of columns, which fails when that is the only one. */
module FecSeries {
  import opened Options
  import opened Arithmetic
  import opened FecClip
  import opened FecGeometry
  import opened FecPeeling

  /** Looking up the column of x needs more room than there is: the oldest series would have to go, but there is only one,
      or there is no whole matrix of rows and cells to go with it. */
  predicate RunsOut(cfg: Config, v: View, x: int)
    requires ValidConfig(cfg)
  {
    var ix := ColIx(cfg, v.base, x);
    ix >= |v.colq| && ix > 2 * cfg.cols && !(|v.colq| > cfg.cols && |v.rowq| > cfg.rows && |v.cells| >= Matrix(cfg))
  }

  /** With one series of columns there is no place for a packet beyond the first group of the third. */
  predicate CannotPlace(cfg: Config, v: View, x: int)
    requires ValidConfig(cfg)
  {
    |v.colq| == cfg.cols && ColIx(cfg, v.base, x) > 2 * cfg.cols
  }

  /** Once x is folded into row i, that row has its control packet and lacks only t. */
  ghost predicate ThenLacks(cfg: Config, v: View, i: int, x: int, t: int)
    requires ValidConfig(cfg)
  {
    0 <= i < |v.rowq| && v.rowq[i].fec && v.rowq[i].collected == cfg.cols - 2
    && t in MembersOf(cfg, Horiz, v.base, i) && t != x && !Marked(v, t)
  }

  /** Folding x into row i makes it rebuild a packet for whose column there is no place. */
  ghost predicate RowRunsOut(cfg: Config, v: View, i: int, x: int)
    requires ValidConfig(cfg)
  {
    exists t :: ThenLacks(cfg, v, i, x, t) && CannotPlace(cfg, v, t)
  }

  lemma FarIsDeep(cfg: Config, base: int, x: int)
    requires ValidConfig(cfg) && ColIx(cfg, base, x) > 2 * cfg.cols
    ensures x - base >= 2 * Matrix(cfg) && RowIx(cfg, base, x) >= 2 * cfg.rows
  {
    FarIsInDeepRow(cfg, base, x);
    RowDistance(cfg, base, x, 2 * cfg.rows);
    MulAssociates(2, cfg.rows, cfg.cols);
  }

  lemma FarIsInDeepRow(cfg: Config, base: int, x: int)
    requires ValidConfig(cfg) && ColIx(cfg, base, x) > 2 * cfg.cols
    ensures x >= base && RowIx(cfg, base, x) >= 2 * cfg.rows
  {
    ColumnCoordinates(cfg, base, x);
    var r, c := (x - base) / cfg.cols, (x - base) % cfg.cols;
    ThirdSeries(c, (r - StairRow(cfg, c)) / cfg.rows, cfg.cols);
    DeepRow(r - StairRow(cfg, c), cfg.rows);
  }

  lemma RowDistance(cfg: Config, base: int, x: int, r: nat)
    requires ValidConfig(cfg) && x >= base && RowIx(cfg, base, x) >= r
    ensures x - base >= r * cfg.cols
  {
    if x - base < r * cfg.cols {
      DivBound(x - base, cfg.cols, r);
    }
  }

  lemma ThirdSeries(c: int, s: int, cols: nat)
    requires c < cols && c + s * cols > 2 * cols
    ensures s >= 2
  {
    if s <= 1 {
      MulMonotone(s, 1, cols);
    }
  }

  lemma DeepRow(r: int, rows: nat)
    requires rows > 0 && r / rows >= 2
    ensures r >= 2 * rows
  {
    DivBound(r, rows, 2);
  }

  lemma LowRowLowColumn(cfg: Config, base: int, x: int)
    requires ValidConfig(cfg) && RowIx(cfg, base, x) < 2 * cfg.rows
    ensures ColIx(cfg, base, x) <= 2 * cfg.cols
  {
    if ColIx(cfg, base, x) > 2 * cfg.cols {
      FarIsDeep(cfg, base, x);
    }
  }

  lemma FirstSeriesLow(cfg: Config, base: int, x: int)
    requires ValidConfig(cfg) && ColIx(cfg, base, x) < cfg.cols
    ensures RowIx(cfg, base, x) <= 2 * cfg.rows - 2
  {
    if x >= base {
      var i := ColIx(cfg, base, x);
      RowOfMember(cfg, base, x, i);
      if i >= 0 {
        StairRowBelow(cfg, i % cfg.cols);
        DivModUnique(i, cfg.cols, 0, i);
      }
    }
  }

  /** All of a row that is low, or has a member in the first series of columns, can be placed. */
  lemma RowmateCanBePlaced(cfg: Config, v: View, i: nat, y: int, t: int)
    requires ValidConfig(cfg) && RowIx(cfg, v.base, y) == i && RowIx(cfg, v.base, t) == i
    requires |v.colq| == cfg.cols ==> ColIx(cfg, v.base, y) < cfg.cols
    ensures !CannotPlace(cfg, v, t)
  {
    if |v.colq| == cfg.cols {
      FirstSeriesLow(cfg, v.base, y);
      LowRowLowColumn(cfg, v.base, t);
    }
  }

  /** A marked packet whose row exists has rows and cells of a whole matrix before it, if it lies that far. */
  lemma MarkedRunsOut(e: Env, v: View, x: int)
    requires Shape(e, v) && Marked(v, x) && RowIx(e.cfg, v.base, x) < |v.rowq|
    ensures RunsOut(e.cfg, v, x) <==> CannotPlace(e.cfg, v, x)
  {
    if ColIx(e.cfg, v.base, x) > 2 * e.cfg.cols {
      FarIsDeep(e.cfg, v.base, x);
      MatrixPositive(e.cfg);
    }
    ShapeHasSeries(e, v);
  }

  lemma ShapeHasSeries(e: Env, v: View)
    requires Shape(e, v)
    ensures |v.colq| != e.cfg.cols ==> |v.colq| >= 2 * e.cfg.cols
  {
    var n := |v.colq| / e.cfg.cols;
    assert |v.colq| == n * e.cfg.cols;
    if n <= 1 {
      MulMonotone(n, 1, e.cfg.cols);
    } else {
      MulMonotone(2, n, e.cfg.cols);
    }
  }

  /** Folding x into row i completes it up to one packet. */
  ghost predicate RowCompletes(cfg: Config, v: View, i: int, x: int)
    requires ValidConfig(cfg)
  {
    exists t :: ThenLacks(cfg, v, i, x, t)
  }

  /** The packet that a row is found to lack, seen from before x was folded into it. */
  lemma LackAfterFold(e: Env, v: View, u: View, w: View, i: nat, x: int, lost: Option<int>)
    requires Inv(e, v) && Marked(v, x) && i < |v.rowq| == |v.rowGot| && u == Folded(e, v, Horiz, i, x)
    requires Inv(e, w) && w == u.(cells := w.cells) && Grown(u.cells, w.cells)
    requires lost.None? ==> Done(e, w, Horiz, i)
    requires lost.Some? ==> Lacks(e, w, Horiz, i, lost.value)
    ensures RowCompletes(e.cfg, v, i, x) <==> lost.Some?
    ensures RowRunsOut(e.cfg, v, i, x) <==> lost.Some? && CannotPlace(e.cfg, w, lost.value)
  {
    assert forall y :: Marked(w, y) <==> Marked(v, y);
    if lost.Some? {
      RebuiltIsGenuine(e, w, Horiz, i, lost.value);
      assert ThenLacks(e.cfg, v, i, x, lost.value);
      forall t | ThenLacks(e.cfg, v, i, x, t) ensures t == lost.value {
        assert !Marked(w, t);
      }
    } else {
      forall t ensures !ThenLacks(e.cfg, v, i, x, t) {
        assert Marked(w, t) <==> Marked(v, t);
      }
    }
  }

  /** While there is one series of columns, a packet in it only ever completes rows whose packets can all be placed. */
  lemma MemberCanBePlaced(cfg: Config, v: View, i: nat, y: int)
    requires ValidConfig(cfg) && RowIx(cfg, v.base, y) == i && (|v.colq| == cfg.cols ==> ColIx(cfg, v.base, y) < cfg.cols)
    ensures !RowRunsOut(cfg, v, i, y)
  {
    forall t | ThenLacks(cfg, v, i, y, t) ensures !CannotPlace(cfg, v, t) {
      Partition(cfg, Horiz, v.base, t, i);
      RowmateCanBePlaced(cfg, v, i, y, t);
    }
  }

  /** A packet that arrived in a row with its control packet is in the first series, as long as there is only one; so what
      such a row lacks can be placed. */
  lemma HungRowCanBePlaced(e: Env, v: View, i: nat, t: int)
    requires Inv(e, v) && Covered(e, v, Vert, {}) && i < |v.rowq| && Lacks(e, v, Horiz, i, t)
    ensures !CannotPlace(e.cfg, v, t)
  {
    assert Pick(Horiz, i) && GroupOK(e, v, Horiz, i);
    var y := SomeElement(v.rowGot[i]);
    Partition(e.cfg, Horiz, v.base, y, i);
    Partition(e.cfg, Horiz, v.base, t, i);
    Partition(e.cfg, Vert, v.base, y, 0);
    assert Marked(v, y) && Hangs(e, v, Vert, y);
    RowmateCanBePlaced(e.cfg, v, i, y, t);
  }

  /** The row in which x arrives is there, or can be appended. */
  predicate RowFits(cfg: Config, v: View, x: int)
    requires ValidConfig(cfg)
  {
    RowIx(cfg, v.base, x) < |v.rowq| || RowIx(cfg, v.base, x) <= 3 * cfg.cols
  }

  /** Appending rows changes nothing of what a row lacks. */
  lemma SameRowLacks(cfg: Config, v: View, w: View, i: int, x: int)
    requires ValidConfig(cfg) && w == v.(rowq := w.rowq, rowGot := w.rowGot)
    requires 0 <= i < |w.rowq| && (if i < |v.rowq| then w.rowq[i] == v.rowq[i] else !w.rowq[i].fec)
    ensures RowCompletes(cfg, w, i, x) <==> RowCompletes(cfg, v, i, x)
    ensures RowRunsOut(cfg, w, i, x) <==> RowRunsOut(cfg, v, i, x)
  {
    forall t ensures ThenLacks(cfg, w, i, x, t) <==> ThenLacks(cfg, v, i, x, t) {
      assert Marked(w, t) <==> Marked(v, t);
    }
    forall t ensures CannotPlace(cfg, w, t) <==> CannotPlace(cfg, v, t) {
    }
  }

  /** The packet that the row of a data packet then lacks cannot be placed. */
  ghost predicate RowAsksTooMuch(cfg: Config, v: View, x: int)
    requires ValidConfig(cfg)
  {
    RowFits(cfg, v, x) && RowRunsOut(cfg, v, RowIx(cfg, v.base, x), x)
  }

  /** What folding a data packet into its row leaves: columns and base are the same if the row can rebuild nothing; and
      if there is still one series of columns the window has not moved, and a row that can rebuild a packet is a low one. */
  ghost predicate RowTaken(cfg: Config, v: View, v': View, x: int)
    requires ValidConfig(cfg)
  {
    RowFits(cfg, v, x) && (|v'.colq| == cfg.cols ==> v'.base == v.base && |v.colq| == cfg.cols)
    && (|v'.colq| == cfg.cols && RowCompletes(cfg, v, RowIx(cfg, v.base, x), x) ==> RowIx(cfg, v.base, x) <= 2 * cfg.rows - 2)
    && (!RowCompletes(cfg, v, RowIx(cfg, v.base, x), x) ==> v'.colq == v.colq && v'.base == v.base && v'.known == v.known)
  }

  /** Then the packet's own column can be had, unless it is the first that is asked for. */
  lemma ThenOwnColumn(cfg: Config, v: View, v': View, x: int)
    requires ValidConfig(cfg) && RowTaken(cfg, v, v', x) && !RowAsksTooMuch(cfg, v, x)
    ensures CannotPlace(cfg, v', x) <==> DataRunsOut(cfg, v, x)
  {
    if CannotPlace(cfg, v', x) {
      FarIsDeep(cfg, v.base, x);
    }
  }

  /** The first column that a data packet asks for cannot be had: that of the packet its row then lacks, or else its own. */
  ghost predicate DataRunsOut(cfg: Config, v: View, x: int)
    requires ValidConfig(cfg)
  {
    RowFits(cfg, v, x) && if RowCompletes(cfg, v, RowIx(cfg, v.base, x), x) then RowRunsOut(cfg, v, RowIx(cfg, v.base, x), x)
                          else CannotPlace(cfg, v, x)
  }

  /** Marking the packet itself changes nothing of that. */
  lemma MarkLacks(cfg: Config, v: View, w: View, x: int)
    requires ValidConfig(cfg) && x >= v.base && w == Mark(v, x).(received := w.received)
    ensures RowAsksTooMuch(cfg, w, x) <==> RowAsksTooMuch(cfg, v, x)
    ensures DataRunsOut(cfg, w, x) <==> DataRunsOut(cfg, v, x)
  {
    var i := RowIx(cfg, v.base, x);
    forall t ensures ThenLacks(cfg, w, i, x, t) <==> ThenLacks(cfg, v, i, x, t) {
      MarkMarks(v, x, t);
    }
    forall t ensures CannotPlace(cfg, w, t) <==> CannotPlace(cfg, v, t) {
    }
  }

  /** A window of one row and one series, none of whose groups has a control packet, has room for a near packet. */
  lemma FreshHasRoom(cfg: Config, v: View, x: int)
    requires ValidConfig(cfg) && |v.rowq| == 1 && !v.rowq[0].fec && ColIx(cfg, v.base, x) < 2 * cfg.cols
    ensures !RowAsksTooMuch(cfg, v, x) && !DataRunsOut(cfg, v, x) && !RunsOut(cfg, v, x)
  {
  }

  // ---------- packets that make nothing rebuilt ----------

  /** Folding one more packet into the group does not leave it with exactly one missing and its control packet there. */
  predicate QuietGroup(q: seq<Group>, i: int, size: nat) {
    0 <= i < |q| ==> !(q[i].fec && q[i].collected == size - 2)
  }

  predicate QuietColumnData(cfg: Config, v: View, x: int)
    requires ValidConfig(cfg)
  {
    ColIx(cfg, v.base, x) <= 2 * cfg.cols && QuietGroup(v.colq, ColIx(cfg, v.base, x), cfg.rows)
  }

  /** A new data packet that makes neither its row nor its column rebuild anything, within reach of the columns. */
  predicate QuietData(cfg: Config, v: View, x: int)
    requires ValidConfig(cfg)
  {
    x >= v.base && !Marked(v, x) && QuietInRow(cfg, v, x)
  }

  predicate QuietInRow(cfg: Config, v: View, x: int)
    requires ValidConfig(cfg)
  {
    RowFits(cfg, v, x) && QuietGroup(v.rowq, RowIx(cfg, v.base, x), cfg.cols) && QuietColumnData(cfg, v, x)
  }

  /** The control packet of a row that lacks none or more than one packet. */
  predicate QuietRow(cfg: Config, v: View, x: int)
    requires ValidConfig(cfg)
  {
    var i := RowIx(cfg, v.base, x);
    0 <= i && RowFits(cfg, v, x) && (i < |v.rowq| ==> v.rowq[i].collected != cfg.cols - 1)
  }

  /** The control packet of such a column, within reach of the columns. */
  predicate QuietColumn(cfg: Config, v: View, x: int)
    requires ValidConfig(cfg)
  {
    var i := ColIx(cfg, v.base, x);
    0 <= i <= 2 * cfg.cols && (i < |v.colq| ==> v.colq[i].collected != cfg.rows - 1)
  }

  /** The windows are equally large and stand at the same place. */
  predicate SameExtent(v: View, w: View) {
    |w.rowq| == |v.rowq| && |w.colq| == |v.colq| && w.cells == v.cells && w.base == v.base
  }
}
