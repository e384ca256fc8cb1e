/** The receiving side of the FEC filter: the groups and cells of a sliding window, and the two-dimensional
    peeling decoder over them. */
module FecReceiver {
  import opened Options
  import opened Arithmetic
  import opened FecClip
  import opened FecGeometry
  import opened FecSender
  import opened FecPeeling
  import opened FecSeries
  import LossRanges

  /** What arrives: a data packet, or a control packet whose index byte is -1 for a row. */
  datatype Wire = Data(seqno: int, packet: Packet) | Ctl(seqno: int, index: int, clip: Clip)

  datatype Rebuilt = Rebuilt(seqno: int, packet: Packet)

  /** Running, or one of the three places where the code goes on with a window that no longer fits together:
      ExtendRows shrinks the rows without the columns, ExtendColumns shrinks the only series of columns away, or
      RcvCheckDismissColumn dismisses rows and cells that were never created. */
  datatype Status = Running | RowsShrunk | NoSeriesLeft | DismissOverrun

  ghost predicate GenuineWire(e: Env, w: Wire)
    requires ValidEnv(e)
  {
    match w
    case Data(seqno, p) => p == e.src(seqno)
    case Ctl(seqno, index, clip) => GenuineControl(e.cfg, e.isn, e.src, Control(seqno, index, clip))
  }

  class Receiver {
    const cfg: Config
    ghost const isn: int
    ghost const src: int -> Packet
    var rowq: seq<Group>
    var colq: seq<Group>
    var cells: seq<bool>
    var cellBase: int
    var rebuilt: seq<Rebuilt>
    var status: Status
    ghost var rowGot: seq<set<int>>
    ghost var colGot: seq<set<int>>
    ghost var turn: nat
    ghost var known: set<int>
    ghost var received: set<int>
    ghost var ctl: set<set<int>>
    ghost var span: set<int>
    ghost var reported: set<int>
    ghost var missed: set<int>

    ghost function TheEnv(): Env {
      Env(cfg, isn, src)
    }

    ghost function TheView(): View
      reads this
    {
      View(rowq, colq, cells, cellBase, rowGot, colGot, turn, known, received, ctl, span, reported, missed)
    }

    /** Everything that was ever rebuilt is what the sender sent under that number. */
    ghost predicate AllGenuine()
      reads this
    {
      forall i :: 0 <= i < |rebuilt| ==> rebuilt[i].packet == src(rebuilt[i].seqno)
    }

    /** Between two calls nothing is pending and nothing is left to rebuild. */
    ghost predicate Valid()
      reads this
    {
      SmallConfig(cfg) && AllGenuine() && ValidEnv(TheEnv()) && (status.Running? ==> Steady(TheEnv(), TheView(), {}, {}))
    }

    constructor (cfg: Config, isn: int, ghost src: int -> Packet)
      requires ValidConfig(cfg) && SmallConfig(cfg) && forall x :: Fits(src(x), cfg.payloadSize)
      ensures Valid() && status.Running? && rebuilt == [] && received == {} && ctl == {} && known == {} && reported == {} && missed == {}
      ensures |rowq| == 1 && rowq[0].collected == 0 && |colq| == cfg.cols && cellBase == isn
      ensures forall i :: 0 <= i < |colq| ==> !colq[i].dismissed
      ensures cells == seq<bool>(Matrix(cfg), _ => false)
      ensures this.cfg == cfg && this.isn == isn && this.src == src
    {
      this.cfg := cfg;
      this.isn := isn;
      this.src := src;
      rowq := [FreshGroup(cfg, isn, 1, cfg.cols)];
      rowGot := [{}];
      var none: seq<Group> := [];
      var groups := ConfigureColumns(cfg, none, isn);
      colq := groups;
      colGot := seq<set<int>>(cfg.cols, _ => {});
      cells, cellBase, turn := seq<bool>(Matrix(cfg), _ => false), isn, 0;
      known, received, ctl, span, reported, missed := {}, {}, {}, {}, {}, {};
      rebuilt, status := [], Running;
      new;
      FirstSeries(cfg, isn, colq, |none|);
      assert |colq| % cfg.cols == 0 by { DivModUnique(cfg.cols, cfg.cols, 1, 0); }
      FreshStart(TheEnv(), TheView());
      assert Bounded(TheEnv(), TheView());
    }

    // ---------- cells ----------

    method MarkCellReceived(x: int)
      requires x >= cellBase
      modifies this`cells
      ensures cells == MarkedCells(old(cells), x - cellBase)
    {
      var offset := x - cellBase;
      if offset >= |cells| {
        cells := cells + seq(offset - |cells|, _ => false) + [true];
      } else {
        cells := cells[offset := true];
      }
    }

    /** Whether cell i is marked; cells up to it are created when there are not that many. */
    method CellAt(i: nat) returns (r: bool)
      modifies this`cells
      ensures Grown(old(cells), cells) && |cells| == (if i < |old(cells)| then |old(cells)| else i + 1)
      ensures r == (i < |old(cells)| && old(cells)[i])
    {
      if i >= |cells| {
        cells := cells + seq(i + 1 - |cells|, _ => false);
        return false;
      }
      r := cells[i];
    }

    /** The first unmarked member of a row, or none when the row is complete. */
    method RcvGetLossSeqHoriz(i: nat) returns (lost: Option<int>)
      requires ValidConfig(cfg) && i < |rowq| && rowq[i].base == RowBase(cfg, cellBase, i)
      modifies this`cells
      ensures Grown(old(cells), cells)
      ensures lost.None? ==> AllMarked(TheEnv(), old(TheView()), Horiz, i)
      ensures lost.Some? ==> lost.value in MembersOf(cfg, Horiz, cellBase, i) && !Marked(old(TheView()), lost.value)
      ensures lost.Some? ==> forall x :: x in MembersOf(cfg, Horiz, cellBase, i) && x < lost.value ==> Marked(old(TheView()), x)
    {
      ghost var v := TheView();
      var baseoff := rowq[i].base - cellBase;
      MulMonotone(0, i, cfg.cols);
      for n := 0 to cfg.cols
        invariant Grown(v.cells, cells)
        invariant forall k {:trigger At(rowq[i].base, 1, k)} :: 0 <= k < n ==> Marked(v, At(rowq[i].base, 1, k))
      {
        var cix := baseoff + n;
        assert cellBase + cix == At(rowq[i].base, 1, n);
        var marked := CellAt(cix);
        if !marked {
          MembersAre(rowq[i].base, 1, cfg.cols, cellBase + cix);
          forall x | x in MembersOf(cfg, Horiz, cellBase, i) && x < cellBase + cix ensures Marked(v, x) {
            MembersAre(rowq[i].base, 1, cfg.cols, x);
            EarlierMember(rowq[i].base, 1, cfg.cols, x, n);
          }
          return Some(cellBase + cix);
        }
      }
      forall x | x in MembersOf(cfg, Horiz, cellBase, i) ensures Marked(v, x) {
        MembersAre(rowq[i].base, 1, cfg.cols, x);
      }
      lost := None;
    }

    method RcvGetLossSeqVert(i: nat) returns (lost: Option<int>)
      requires ValidConfig(cfg) && i < |colq| && colq[i].base == ColBase(cfg, cellBase, i)
      modifies this`cells
      ensures Grown(old(cells), cells)
      ensures lost.None? ==> AllMarked(TheEnv(), old(TheView()), Vert, i)
      ensures lost.Some? ==> lost.value in MembersOf(cfg, Vert, cellBase, i) && !Marked(old(TheView()), lost.value)
      ensures lost.Some? ==> forall x :: x in MembersOf(cfg, Vert, cellBase, i) && x < lost.value ==> Marked(old(TheView()), x)
    {
      ghost var v := TheView();
      var baseoff := colq[i].base - cellBase;
      ColBaseAhead(cfg, cellBase, i);
      for n := 0 to cfg.rows
        invariant Grown(v.cells, cells)
        invariant forall k {:trigger At(colq[i].base, cfg.cols, k)} :: 0 <= k < n ==> Marked(v, At(colq[i].base, cfg.cols, k))
      {
        var cix := baseoff + n * cfg.cols;
        MulMonotone(0, n, cfg.cols);
        assert cellBase + cix == At(colq[i].base, cfg.cols, n);
        var marked := CellAt(cix);
        if !marked {
          MembersAre(colq[i].base, cfg.cols, cfg.rows, cellBase + cix);
          forall x | x in MembersOf(cfg, Vert, cellBase, i) && x < cellBase + cix ensures Marked(v, x) {
            MembersAre(colq[i].base, cfg.cols, cfg.rows, x);
            EarlierMember(colq[i].base, cfg.cols, cfg.rows, x, n);
          }
          return Some(cellBase + cix);
        }
      }
      forall x | x in MembersOf(cfg, Vert, cellBase, i) ensures Marked(v, x) {
        MembersAre(colq[i].base, cfg.cols, cfg.rows, x);
      }
      lost := None;
    }

    // ---------- the groups' containers ----------

    /** Appends row groups up to index rowx. The container is shrunk instead when rowx exceeds three times the row
        length, which leaves rows and columns out of step; this cannot happen unless 4 * rows - 2 > 3 * cols. */
    method ExtendRows(rowx: nat, ghost hp: set<int>, ghost vp: set<int>)
      requires status.Running? && Steady(TheEnv(), TheView(), hp, vp)
      requires |rowq| <= rowx <= 4 * cfg.rows - 2
      modifies this`rowq, this`rowGot, this`status
      ensures status == if rowx > 3 * cfg.cols then RowsShrunk else Running
      ensures status.Running? ==> Steady(TheEnv(), TheView(), hp, vp) && |rowq| == rowx + 1 && old(rowq) <= rowq
      ensures status.Running? ==> !rowq[rowx].fec && rowq[rowx].collected == 0
    {
      if rowx > 3 * cfg.cols {
        status := RowsShrunk;
        return;
      }
      ghost var v := TheView();
      assert Pick(Horiz, 0) && 0 * cfg.cols == 0;
      var q := rowq;
      ghost var got := rowGot;
      for i := |rowq| to rowx + 1
        invariant |q| == |got| == i && v.rowq <= q && v.rowGot <= got && q[0].base == cellBase
        invariant FreshFrom(cfg, Horiz, cellBase, q, got, |v.rowq|)
      {
        q := q + [FreshGroup(cfg, q[0].base + i * cfg.cols, 1, cfg.cols)];
        got := got + [{}];
      }
      rowq, rowGot := q, got;
      AppendKeeps(TheEnv(), v, TheView(), Horiz, hp, vp);
    }

    /** Appends whole series of column groups until the series `last` exists. */
    method AppendSeries(last: nat, ghost hp: set<int>, ghost vp: set<int>)
      requires status.Running? && Steady(TheEnv(), TheView(), hp, vp) && |colq| / cfg.cols <= last + 1
      modifies this`colq, this`colGot
      ensures Steady(TheEnv(), TheView(), hp, vp) && |colq| == (last + 1) * cfg.cols
      ensures old(colq) <= colq && forall i :: old(|colq|) <= i < |colq| ==> colq[i].collected == 0 && !colq[i].fec
    {
      ghost var v := TheView();
      assert Pick(Vert, 0) && colq[0].base == cellBase by { FirstColumnBase(cfg, cellBase); }
      var q := SeriesUpTo(cfg, colq, last, colGot);
      colq, colGot := q, colGot + seq<set<int>>(|q| - |colq|, _ => {});
      MultipleOf(|colq|, last + 1, cfg.cols);
      AppendKeeps(TheEnv(), v, TheView(), Vert, hp, vp);
    }

    /** Appends column groups up to index colgx. Beyond two series the oldest matrix is dismissed first, and the index
        moves with it; the code relies on that matrix having rows, cells and a further series behind it. */
    method ExtendColumns(colgx: nat, ghost hp: set<int>, ghost vp: set<int>) returns (ix: nat)
      requires status.Running? && Steady(TheEnv(), TheView(), hp, vp) && |colq| <= colgx
      modifies this`rowq, this`rowGot, this`colq, this`colGot, this`cells, this`cellBase, this`turn, this`status
      ensures status == if colgx <= 2 * cfg.cols || old(|colq| > cfg.cols && |rowq| > cfg.rows && |cells| >= Matrix(cfg))
                        then Running else NoSeriesLeft
      ensures status.Running? ==> Steady(TheEnv(), TheView(), hp, vp) && ix < |colq|
      ensures status.Running? ==> WindowMoved(cfg, old(TheView()), TheView(), colgx > 2 * cfg.cols)
      ensures status.Running? ==> ix == (if colgx > 2 * cfg.cols then colgx - cfg.cols else colgx) && |colq| > cfg.cols
      ensures colgx <= 2 * cfg.cols ==> unchanged(`rowq) && unchanged(`cells) && unchanged(`cellBase)
      ensures colgx <= 2 * cfg.cols ==> old(colq) <= colq && colq[ix].collected == 0 && !colq[ix].fec
    {
      ix := colgx;
      ghost var v := TheView();
      if colgx > 2 * cfg.cols {
        if |colq| <= cfg.cols || |rowq| <= cfg.rows || |cells| < Matrix(cfg) {
          status := NoSeriesLeft;
          return;
        }
        DismissMatrix(hp, vp);
        ix := colgx - cfg.cols;
        DropWindow(cfg, v);
      }
      DivBound(|colq|, cfg.cols, ix / cfg.cols + 2);
      SeriesOfIndex(ix, |colq|, cfg.cols);
      DivBound(ix, cfg.cols, 1);
      MulMonotone(2, ix / cfg.cols + 1, cfg.cols);
      AppendSeries(ix / cfg.cols, hp, vp);
    }

    /** Removes one matrix of rows, one series of columns and one matrix of cells. The bases agree afterwards, so the
        branches that repair a discrepancy between them are never taken. */
    method DismissMatrix(ghost hp: set<int>, ghost vp: set<int>)
      requires status.Running? && Steady(TheEnv(), TheView(), hp, vp)
      requires |colq| > cfg.cols && |rowq| > cfg.rows && |cells| >= Matrix(cfg)
      modifies this`rowq, this`rowGot, this`colq, this`colGot, this`cells, this`cellBase, this`turn
      ensures TheView() == DropMatrix(cfg, old(TheView())) && Steady(TheEnv(), TheView(), hp, vp)
    {
      ghost var v := TheView();
      DismissIsSteady(TheEnv(), v, hp, vp);
      var newbase, newbaseRow := colq[cfg.cols].base, rowq[cfg.rows].base;
      assert newbase == newbaseRow == cellBase + Matrix(cfg);
      colq, colGot := colq[cfg.cols..], colGot[cfg.cols..];
      rowq, rowGot := rowq[cfg.rows..], rowGot[cfg.rows..];
      cells := cells[Matrix(cfg)..];
      cellBase := newbase;
      turn := turn + 1;
      assert TheView() == DropMatrix(cfg, v);
    }

    method RcvGetRowGroupIndex(x: int, ghost hp: set<int>, ghost vp: set<int>) returns (ix: int)
      requires status.Running? && Steady(TheEnv(), TheView(), hp, vp) && RowIx(cfg, cellBase, x) <= 4 * cfg.rows - 2
      modifies this`rowq, this`rowGot, this`status
      ensures status == if old(RowFits(cfg, TheView(), x)) then Running else RowsShrunk
      ensures status.RowsShrunk? ==> 3 * cfg.cols < 4 * cfg.rows - 2
      ensures status.Running? ==> Steady(TheEnv(), TheView(), hp, vp) && ix == RowIx(cfg, cellBase, x) < |rowq|
      ensures status.Running? && ix >= 0 ==>
        if ix < old(|rowq|) then rowq == old(rowq) else |rowq| == ix + 1 && !rowq[ix].fec && rowq[ix].collected == 0
    {
      assert Pick(Horiz, 0) && 0 * cfg.cols == 0;
      var offset := x - rowq[0].base;
      if offset < 0 {
        return -1;
      }
      DivBound(offset, cfg.cols, 0);
      ix := offset / cfg.cols;
      if ix >= |rowq| {
        ExtendRows(ix, hp, vp);
      }
    }

    method RcvGetColumnGroupIndex(x: int, ghost hp: set<int>, ghost vp: set<int>) returns (ix: int)
      requires status.Running? && Steady(TheEnv(), TheView(), hp, vp)
      requires SmallConfig(cfg) && RowIx(cfg, cellBase, x) <= 4 * cfg.rows - 2
      modifies this`rowq, this`rowGot, this`colq, this`colGot, this`cells, this`cellBase, this`turn, this`status
      ensures status == if old(RunsOut(cfg, TheView(), x)) then NoSeriesLeft else Running
      ensures status.Running? ==> Steady(TheEnv(), TheView(), hp, vp) && ix == ColIx(cfg, cellBase, x) < |colq|
      ensures status.Running? ==> WindowMoved(cfg, old(TheView()), TheView(), cellBase > old(cellBase))
      ensures status.Running? && ix == -1 ==> cellBase == old(cellBase)
      ensures old(ColIx(cfg, cellBase, x)) <= 2 * cfg.cols ==> unchanged(`rowq) && unchanged(`cells) && unchanged(`cellBase)
      ensures old(ColIx(cfg, cellBase, x)) <= 2 * cfg.cols ==> if ix < old(|colq|) then unchanged(`colq)
        else old(colq) <= colq && colq[ix].collected == 0 && !colq[ix].fec
      ensures status.Running? && |colq| == cfg.cols ==>
        cellBase == old(cellBase) && old(|colq|) == cfg.cols && ColIx(cfg, cellBase, x) < cfg.cols
    {
      FirstSeriesBases(TheEnv(), TheView());
      ColumnOfRow(cfg, cellBase, x);
      if x >= cellBase {
        DistanceOfRow(cfg, cellBase, x);
      }
      ix := LookupColumn(cfg, colq, x, cellBase);
      if ix >= |colq| {
        ShiftedIndex(cfg, Vert, cellBase, x);
        ix := ExtendColumns(ix, hp, vp);
      }
    }

    // ---------- folding and rebuilding ----------

    /** Folds a data packet, received or rebuilt, into row or column group i. */
    method FoldInto(k: Kind, i: nat, x: int, p: Packet)
      requires ValidEnv(TheEnv()) && p == src(x) && i < |Queue(TheView(), k)| && i < |GotOf(TheView(), k)|
      requires |Queue(TheView(), k)[i].clip.payload| == cfg.payloadSize
      modifies this`rowq, this`rowGot, this`colq, this`colGot
      ensures TheView() == Folded(TheEnv(), old(TheView()), k, i, x)
    {
      if k.Horiz? {
        var clip := ClipPacket(rowq[i].clip, p);
        rowq := rowq[i := rowq[i].(collected := rowq[i].collected + 1, clip := clip)];
        rowGot := rowGot[i := rowGot[i] + {x}];
      } else {
        var clip := ClipPacket(colq[i].clip, p);
        colq := colq[i := colq[i].(collected := colq[i].collected + 1, clip := clip)];
        colGot := colGot[i := colGot[i] + {x}];
      }
    }

    /** Takes the missing packet out of the clip of a group. The length that comes out never exceeds the payload size. */
    method Declip(k: Kind, i: nat, t: int) returns (p: Packet)
      requires status.Running? && Inv(TheEnv(), TheView()) && i < |Queue(TheView(), k)| && Lacks(TheEnv(), TheView(), k, i, t)
      ensures p == src(t)
    {
      var g := if k.Horiz? then rowq[i] else colq[i];
      RebuiltIsGenuine(TheEnv(), TheView(), k, i, t);
      UnclipReturnsPacket(src(t), cfg.payloadSize);
      var length := Swap(g.clip.length);
      p := Packet(length, g.clip.flags & 3, g.clip.timestamp, g.clip.payload[..length as nat]);
    }

    /** Folds a packet that is marked and pending into group i of kind k, and rebuilds what that group then lacks. */
    method FoldAndRebuild(k: Kind, i: nat, x: int, p: Packet, ghost vp: set<int>)
      requires status.Running? && SmallConfig(cfg) && AllGenuine() && p == src(x) && Marked(TheView(), x)
      requires PendingIsMarked(TheView(), vp) && x !in vp
      requires Steady(TheEnv(), TheView(), if k.Horiz? then {x} else {}, if k.Vert? then vp + {x} else vp)
      requires IxOf(cfg, k, cellBase, x) == i < |Queue(TheView(), k)|
      modifies this`rowq, this`rowGot, this`colq, this`colGot, this`cells, this`cellBase, this`turn, this`status,
               this`known, this`rebuilt
      ensures AllGenuine() && old(rebuilt) <= rebuilt && old(known) <= known
      ensures status.Running? ==> Steady(TheEnv(), TheView(), {}, vp) && PendingIsMarked(TheView(), vp)
      ensures status.RowsShrunk? ==> 3 * cfg.cols < 4 * cfg.rows - 2
      ensures !status.DismissOverrun? && (status.Running? ==> old(cellBase) <= cellBase)
      ensures status.NoSeriesLeft? <==> k.Horiz? && old(RowRunsOut(cfg, TheView(), i, x))
      ensures status.Running? && |colq| == cfg.cols ==> cellBase == old(cellBase) && old(|colq|) == cfg.cols
      ensures status.Running? && |colq| == cfg.cols && k.Horiz? && old(RowCompletes(cfg, TheView(), i, x)) ==> i <= 2 * cfg.rows - 2
      ensures k.Vert? && old(QuietGroup(colq, i, cfg.rows)) ==> status.Running? && unchanged(`known) && SameColumns(old(TheView()), TheView())
      decreases |span - known|, 2
    {
      var lost := FoldAndLook(k, i, x, p, vp);
      RcvRebuild(k, i, lost, vp);
      if k.Horiz? && lost.Some? && status.Running? && |colq| == cfg.cols {
        FirstSeriesLow(cfg, cellBase, lost.value);
        Partition(cfg, Horiz, cellBase, lost.value, i);
      }
    }

    /** Folds a packet that is marked and pending into group i of kind k, and looks for what that group then lacks. */
    method FoldAndLook(k: Kind, i: nat, x: int, p: Packet, ghost vp: set<int>) returns (lost: Option<int>)
      requires status.Running? && p == src(x) && Marked(TheView(), x) && PendingIsMarked(TheView(), vp) && (k.Vert? ==> x !in vp)
      requires Steady(TheEnv(), TheView(), if k.Horiz? then {x} else {}, if k.Vert? then vp + {x} else vp)
      requires IxOf(cfg, k, cellBase, x) == i < |Queue(TheView(), k)|
      modifies this`rowq, this`rowGot, this`colq, this`colGot, this`cells
      ensures Active(TheEnv(), TheView(), k, i, {}, vp) && PendingIsMarked(TheView(), vp)
      ensures lost.None? ==> Done(TheEnv(), TheView(), k, i)
      ensures lost.Some? ==> Lacks(TheEnv(), TheView(), k, i, lost.value)
      ensures k.Horiz? ==> unchanged(`colq) && (lost.Some? <==> old(RowCompletes(cfg, TheView(), i, x)))
      ensures k.Horiz? ==> (old(RowRunsOut(cfg, TheView(), i, x)) <==> lost.Some? && CannotPlace(cfg, TheView(), lost.value))
      ensures k.Vert? ==> unchanged(`rowq) && SameColumns(old(TheView()), TheView())
      ensures k.Vert? && old(QuietGroup(colq, i, cfg.rows)) ==> lost.None?
    {
      ghost var v := TheView();
      PendingFindsRoom(TheEnv(), v, k, i, x, if k.Horiz? then {x} else vp + {x});
      FoldIsActive(TheEnv(), v, k, i, x, if k.Horiz? then {x} else {}, if k.Vert? then vp + {x} else vp);
      ClipSize(TheEnv(), v, k, i);
      assert {x} - {x} == {} && (k.Vert? ==> vp + {x} - {x} == vp);
      FoldInto(k, i, x, p);
      ghost var u := TheView();
      lost := LackOf(k, i, vp);
      if k.Horiz? {
        LackAfterFold(TheEnv(), v, u, TheView(), i, x, lost);
      }
    }

    /** The packet to rebuild in group i: when it has its control packet and one packet less than its size, the first
        member that is not marked. Looking for it may create cells, all of them unmarked. */
    method LackOf(k: Kind, i: nat, ghost vp: set<int>) returns (lost: Option<int>)
      requires status.Running? && Active(TheEnv(), TheView(), k, i, {}, vp) && PendingIsMarked(TheView(), vp)
      modifies this`cells
      ensures Active(TheEnv(), TheView(), k, i, {}, vp) && PendingIsMarked(TheView(), vp)
      ensures lost.None? ==> Done(TheEnv(), TheView(), k, i)
      ensures lost.Some? ==> Lacks(TheEnv(), TheView(), k, i, lost.value)
      ensures Grown(old(cells), cells)
      ensures Queue(TheView(), k)[i].collected != SizeOf(cfg, k) - 1 || !Queue(TheView(), k)[i].fec ==> lost.None? && unchanged(`cells)
    {
      ghost var v := TheView();
      assert Pick(k, i) && GroupOK(TheEnv(), v, k, i);
      lost := None;
      if k.Horiz? {
        if rowq[i].fec && rowq[i].collected == cfg.cols - 1 {
          lost := RcvGetLossSeqHoriz(i);
        }
      } else {
        if colq[i].fec && colq[i].collected == cfg.rows - 1 {
          lost := RcvGetLossSeqVert(i);
        }
      }
      GrownKeeps(TheEnv(), v, TheView(), k, i, {}, vp);
    }

    /** Rebuilds the packet that group i of kind k lacks, marks it, folds it into its other group, and goes on there if
        that group now lacks exactly one packet. Rows and columns call each other in turn; every call makes one more
        member of a group with a control packet known, and there are only finitely many. */
    method RcvRebuild(k: Kind, i: nat, lost: Option<int>, ghost vp: set<int>)
      requires status.Running? && SmallConfig(cfg) && AllGenuine() && PendingIsMarked(TheView(), vp)
      requires Active(TheEnv(), TheView(), k, i, {}, vp)
      requires lost.None? ==> Done(TheEnv(), TheView(), k, i)
      requires lost.Some? ==> Lacks(TheEnv(), TheView(), k, i, lost.value)
      modifies this`rowq, this`rowGot, this`colq, this`colGot, this`cells, this`cellBase, this`turn, this`status,
               this`known, this`rebuilt
      ensures AllGenuine() && old(rebuilt) <= rebuilt && old(known) <= known
      ensures status.Running? ==> Steady(TheEnv(), TheView(), {}, vp) && PendingIsMarked(TheView(), vp)
      ensures status.RowsShrunk? ==> 3 * cfg.cols < 4 * cfg.rows - 2
      ensures !status.DismissOverrun? && (status.Running? ==> old(cellBase) <= cellBase)
      ensures status.NoSeriesLeft? <==> k.Horiz? && lost.Some? && old(CannotPlace(cfg, TheView(), lost.value))
      ensures status.Running? && |colq| == cfg.cols ==> cellBase == old(cellBase) && old(|colq|) == cfg.cols
      ensures status.Running? && |colq| == cfg.cols && k.Horiz? && lost.Some? ==> ColIx(cfg, cellBase, lost.value) < cfg.cols
      ensures lost.Some? ==> lost.value in known && |rebuilt| > |old(rebuilt)|
      ensures lost.None? ==> status.Running? && unchanged(`rowq) && unchanged(`colq) && unchanged(`cells) && unchanged(`cellBase)
      ensures lost.None? ==> unchanged(`known)
      decreases |span - known|, 1
    {
      if lost.None? {
        ActiveIsSteady(TheEnv(), TheView(), k, i, {}, vp);
        return;
      }
      RebuildLost(k, i, lost.value, vp);
    }

    method RebuildLost(k: Kind, i: nat, t: int, ghost vp: set<int>)
      requires status.Running? && SmallConfig(cfg) && AllGenuine() && PendingIsMarked(TheView(), vp)
      requires Active(TheEnv(), TheView(), k, i, {}, vp) && Lacks(TheEnv(), TheView(), k, i, t)
      modifies this`rowq, this`rowGot, this`colq, this`colGot, this`cells, this`cellBase, this`turn, this`status,
               this`known, this`rebuilt
      ensures AllGenuine() && old(rebuilt) < rebuilt && old(known) + {t} <= known
      ensures status.Running? ==> Steady(TheEnv(), TheView(), {}, vp) && PendingIsMarked(TheView(), vp)
      ensures status.RowsShrunk? ==> 3 * cfg.cols < 4 * cfg.rows - 2
      ensures !status.DismissOverrun? && (status.Running? ==> old(cellBase) <= cellBase)
      ensures status.NoSeriesLeft? <==> k.Horiz? && old(CannotPlace(cfg, TheView(), t))
      ensures status.Running? && |colq| == cfg.cols ==> cellBase == old(cellBase) && old(|colq|) == cfg.cols
      ensures status.Running? && |colq| == cfg.cols && k.Horiz? ==> ColIx(cfg, cellBase, t) < cfg.cols
      decreases |span - known|, 0
    {
      var p := TakeRebuilt(k, i, t, vp);
      var j := CrossIndex(k, t, vp);
      if !status.Running? || j == -1 {
        return;
      }
      if k.Vert? {
        MemberCanBePlaced(cfg, TheView(), j, t);
      }
      FoldAndRebuild(Cross(k), j, t, p, vp);
    }

    /** Delivers the missing packet of group i and marks its cell: only its other group has still to take it. */
    method TakeRebuilt(k: Kind, i: nat, t: int, ghost vp: set<int>) returns (p: Packet)
      requires status.Running? && AllGenuine() && PendingIsMarked(TheView(), vp)
      requires Active(TheEnv(), TheView(), k, i, {}, vp) && Lacks(TheEnv(), TheView(), k, i, t)
      modifies this`cells, this`known, this`rebuilt
      ensures AllGenuine() && rebuilt == old(rebuilt) + [Rebuilt(t, p)] && p == src(t) && t !in vp
      ensures known == old(known) + {t} && |span - known| < old(|span - known|)
      ensures Steady(TheEnv(), TheView(), if k.Vert? then {t} else {}, if k.Horiz? then vp + {t} else vp)
      ensures PendingIsMarked(TheView(), vp + {t}) && Marked(TheView(), t)
      ensures RowIx(cfg, cellBase, t) <= 4 * cfg.rows - 2 && t >= cellBase && IxOf(cfg, k, cellBase, t) == i
    {
      p := Declip(k, i, t);
      rebuilt := rebuilt + [Rebuilt(t, p)];
      ghost var v := TheView();
      RebuiltIsGenuine(TheEnv(), v, k, i, t);
      RebuiltIsActive(TheEnv(), v, k, i, t, vp);
      MarkCellReceived(t);
      known := known + {t};
      assert TheView() == Mark(v, t);
      RebuiltIsSteady(TheEnv(), TheView(), k, i, t, vp);
      MarkKeepsPending(v, t, vp);
      SpanShrinks(v.span, v.known, t);
      ReachOfRebuilt(TheEnv(), TheView(), k, i, t);
    }

    /** The index of the group of the other kind that a rebuilt packet belongs to; -1 when its column has not begun. */
    method CrossIndex(k: Kind, t: int, ghost vp: set<int>) returns (j: int)
      requires status.Running? && SmallConfig(cfg) && Marked(TheView(), t) && t !in vp && PendingIsMarked(TheView(), vp + {t})
      requires Steady(TheEnv(), TheView(), if k.Vert? then {t} else {}, if k.Horiz? then vp + {t} else vp)
      requires RowIx(cfg, cellBase, t) <= 4 * cfg.rows - 2
      modifies this`rowq, this`rowGot, this`colq, this`colGot, this`cells, this`cellBase, this`turn, this`status
      ensures status.Running? ==> PendingIsMarked(TheView(), vp) && old(cellBase) <= cellBase
      ensures status.Running? && j != -1 ==> IxOf(cfg, Cross(k), cellBase, t) == j && 0 <= j < |Queue(TheView(), Cross(k))|
      ensures status.Running? && j != -1 ==>
        Steady(TheEnv(), TheView(), if k.Vert? then {t} else {}, if k.Horiz? then vp + {t} else vp) && Marked(TheView(), t)
      ensures status.Running? && j == -1 ==> Steady(TheEnv(), TheView(), {}, vp)
      ensures status.RowsShrunk? ==> 3 * cfg.cols < 4 * cfg.rows - 2
      ensures !status.DismissOverrun? && (status.NoSeriesLeft? <==> k.Horiz? && old(CannotPlace(cfg, TheView(), t)))
      ensures status.Running? && |colq| == cfg.cols ==>
        cellBase == old(cellBase) && old(|colq|) == cfg.cols && (k.Horiz? ==> ColIx(cfg, cellBase, t) < cfg.cols)
    {
      Partition(cfg, Cross(k), cellBase, t, 0);
      if k.Vert? {
        j := RcvGetRowGroupIndex(t, {t}, vp);
      } else {
        assert Hangs(TheEnv(), TheView(), Horiz, t);
        MarkedRunsOut(TheEnv(), TheView(), t);
        j := RcvGetColumnGroupIndex(t, {}, vp + {t});
        if status.Running? {
          Partition(cfg, Vert, cellBase, t, 0);
          if j == -1 {
            NoGroupHangs(TheEnv(), TheView(), Vert, t, vp + {t});
            assert vp + {t} - {t} == vp;
          } else {
            Partition(cfg, Vert, cellBase, t, j);
            MemberAtOrAfterBase(cfg, Vert, cellBase, j, t);
          }
        }
      }
    }

    // ---------- hanging a packet in its row and column ----------

    /** Folds the control packet of group i in, unless one has already come. */
    method TakeControl(k: Kind, i: nat, w: Wire)
      requires status.Running? && Steady(TheEnv(), TheView(), {}, {}) && w.Ctl? && GenuineWire(TheEnv(), w)
      requires k == (if w.index == -1 then Horiz else Vert) && IxOf(cfg, k, cellBase, w.seqno) == i < |Queue(TheView(), k)|
      modifies this`rowq, this`colq, this`ctl, this`span
      ensures TheView() == if old(Queue(TheView(), k)[i].fec) then old(TheView()) else WithControl(TheEnv(), old(TheView()), k, i)
    {
      ghost var v := TheView();
      assert Pick(k, i) && GroupOK(TheEnv(), v, k, i);
      var g := if k.Horiz? then rowq[i] else colq[i];
      if g.fec {
        return;
      }
      ControlFitsGroup(TheEnv(), v, k, i, w);
      var clip := Xor(g.clip, w.clip);
      if k.Horiz? {
        rowq := rowq[i := g.(fec := true, clip := clip)];
      } else {
        colq := colq[i := g.(fec := true, clip := clip)];
      }
      ctl := ctl + {MembersOf(cfg, k, cellBase, i)};
      span := span + MembersOf(cfg, k, cellBase, i);
      assert Queue(WithControl(TheEnv(), v, k, i), k) == Queue(TheView(), k);
      assert GotOf(v, k)[i := GotOf(v, k)[i]] == GotOf(v, k);
      assert TheView() == WithControl(TheEnv(), v, k, i);
    }

    /** Folds a control packet in, and rebuilds what its group then lacks, and what that makes possible. */
    method HangControl(k: Kind, i: nat, w: Wire)
      requires status.Running? && SmallConfig(cfg) && AllGenuine() && Steady(TheEnv(), TheView(), {}, {})
      requires w.Ctl? && GenuineWire(TheEnv(), w)
      requires k == (if w.index == -1 then Horiz else Vert) && IxOf(cfg, k, cellBase, w.seqno) == i < |Queue(TheView(), k)|
      requires k.Vert? ==> LastRow(cfg, i) <= 4 * cfg.rows - 2
      modifies this`rowq, this`rowGot, this`colq, this`colGot, this`cells, this`cellBase, this`turn, this`status,
               this`known, this`rebuilt, this`ctl, this`span
      ensures AllGenuine() && old(rebuilt) <= rebuilt && old(known) <= known && old(ctl) <= ctl
      ensures status.Running? ==> Steady(TheEnv(), TheView(), {}, {})
      ensures status.RowsShrunk? ==> 3 * cfg.cols < 4 * cfg.rows - 2
      ensures old(Queue(TheView(), k)[i].collected) != SizeOf(cfg, k) - 1 ==> status.Running? && SameExtent(old(TheView()), TheView())
      ensures old(Queue(TheView(), k)[i].collected) != SizeOf(cfg, k) - 1 ==> SameColumns(old(TheView()), TheView()) && unchanged(`known)
      ensures !status.DismissOverrun? && !status.NoSeriesLeft? && (status.Running? ==> old(cellBase) <= cellBase)
    {
      ghost var v := TheView();
      TakeControl(k, i, w);
      ControlTaken(TheEnv(), v, TheView(), k, i);
      var lost := LackOf(k, i, {});
      if k.Horiz? && lost.Some? {
        HungRowCanBePlaced(TheEnv(), TheView(), i, lost.value);
      }
      RcvRebuild(k, i, lost, {});
    }

    /** Puts a packet into its row: a data packet is folded in, a control packet completes the row's information;
        then whatever the row lacks is rebuilt, and what that makes possible. */
    method HangHorizontal(w: Wire) returns (ok: bool)
      requires status.Running? && SmallConfig(cfg) && AllGenuine() && ValidEnv(TheEnv()) && GenuineWire(TheEnv(), w)
      requires RowIx(cfg, cellBase, w.seqno) <= 4 * cfg.rows - 2
      requires w.Ctl? ==> w.index == -1 && Steady(TheEnv(), TheView(), {}, {})
      requires w.Data? ==> Steady(TheEnv(), TheView(), {w.seqno}, {w.seqno}) && Marked(TheView(), w.seqno)
      modifies this`rowq, this`rowGot, this`colq, this`colGot, this`cells, this`cellBase, this`turn, this`status,
               this`known, this`rebuilt, this`ctl, this`span
      ensures AllGenuine() && old(rebuilt) <= rebuilt && old(known) <= known && old(ctl) <= ctl
      ensures status.Running? ==> Steady(TheEnv(), TheView(), {}, if w.Data? then {w.seqno} else {})
      ensures status.Running? && w.Data? ==> PendingIsMarked(TheView(), {w.seqno}) && old(cellBase) <= cellBase
      ensures status.RowsShrunk? ==> 3 * cfg.cols < 4 * cfg.rows - 2
      ensures !status.DismissOverrun? && (status.NoSeriesLeft? <==> w.Data? && old(RowAsksTooMuch(cfg, TheView(), w.seqno)))
      ensures w.Ctl? && old(QuietRow(cfg, TheView(), w.seqno)) ==> status.Running? && unchanged(`cellBase) && unchanged(`cells)
      ensures w.Ctl? && old(QuietRow(cfg, TheView(), w.seqno)) ==> |rowq| == old(RowsFor(cfg, TheView(), w.seqno)) && |colq| == old(|colq|)
      ensures w.Data? && !old(RowFits(cfg, TheView(), w.seqno)) ==> status.RowsShrunk?
      ensures w.Data? && old(RowFits(cfg, TheView(), w.seqno) && !RowCompletes(cfg, TheView(), RowIx(cfg, cellBase, w.seqno), w.seqno)) ==>
        status.Running?
      ensures w.Data? ==> unchanged(`ctl)
      ensures w.Data? && status.Running? ==> RowTaken(cfg, old(TheView()), TheView(), w.seqno)
      ensures w.Data? && status.RowsShrunk? ==> !old(DataRunsOut(cfg, TheView(), w.seqno))
    {
      if w.Ctl? {
        ok := HangRowControl(w);
      } else {
        ok := HangRowData(w.seqno, w.packet);
      }
    }

    method HangRowControl(w: Wire) returns (ok: bool)
      requires status.Running? && SmallConfig(cfg) && AllGenuine() && ValidEnv(TheEnv()) && GenuineWire(TheEnv(), w)
      requires RowIx(cfg, cellBase, w.seqno) <= 4 * cfg.rows - 2
      requires w.Ctl? && w.index == -1 && Steady(TheEnv(), TheView(), {}, {})
      modifies this`rowq, this`rowGot, this`colq, this`colGot, this`cells, this`cellBase, this`turn, this`status,
               this`known, this`rebuilt, this`ctl, this`span
      ensures AllGenuine() && old(rebuilt) <= rebuilt && old(known) <= known && old(ctl) <= ctl
      ensures status.Running? ==> Steady(TheEnv(), TheView(), {}, {})
      ensures status.RowsShrunk? ==> 3 * cfg.cols < 4 * cfg.rows - 2
      ensures !status.DismissOverrun? && !status.NoSeriesLeft?
      ensures old(QuietRow(cfg, TheView(), w.seqno)) ==> status.Running? && unchanged(`cellBase) && unchanged(`cells)
      ensures old(QuietRow(cfg, TheView(), w.seqno)) ==> |rowq| == old(RowsFor(cfg, TheView(), w.seqno)) && |colq| == old(|colq|)
    {
      Partition(cfg, Horiz, cellBase, w.seqno, 0);
      RowPartition(cfg, cellBase, w.seqno, 0);
      var rowx := RcvGetRowGroupIndex(w.seqno, {}, {});
      if !status.Running? || rowx == -1 {
        return false;
      }
      HangControl(Horiz, rowx, w);
      ok := true;
    }

    method HangRowData(x: int, p: Packet) returns (ok: bool)
      requires status.Running? && SmallConfig(cfg) && AllGenuine() && ValidEnv(TheEnv()) && p == src(x)
      requires RowIx(cfg, cellBase, x) <= 4 * cfg.rows - 2 && Steady(TheEnv(), TheView(), {x}, {x}) && Marked(TheView(), x)
      modifies this`rowq, this`rowGot, this`colq, this`colGot, this`cells, this`cellBase, this`turn, this`status,
               this`known, this`rebuilt
      ensures AllGenuine() && old(rebuilt) <= rebuilt && old(known) <= known
      ensures status.Running? ==> Steady(TheEnv(), TheView(), {}, {x}) && PendingIsMarked(TheView(), {x}) && old(cellBase) <= cellBase
      ensures status.RowsShrunk? ==> 3 * cfg.cols < 4 * cfg.rows - 2
      ensures !status.DismissOverrun? && (status.NoSeriesLeft? <==> old(RowAsksTooMuch(cfg, TheView(), x)))
      ensures !old(RowFits(cfg, TheView(), x)) ==> status.RowsShrunk?
      ensures old(RowFits(cfg, TheView(), x) && !RowCompletes(cfg, TheView(), RowIx(cfg, cellBase, x), x)) ==> status.Running?
      ensures status.Running? ==> RowTaken(cfg, old(TheView()), TheView(), x)
      ensures status.RowsShrunk? ==> !old(DataRunsOut(cfg, TheView(), x))
    {
      ghost var v := TheView();
      Partition(cfg, Horiz, cellBase, x, 0);
      RowPartition(cfg, cellBase, x, 0);
      var rowx := RcvGetRowGroupIndex(x, {x}, {x});
      if !status.Running? {
        return false;
      }
      SameRowLacks(cfg, v, TheView(), rowx, x);
      FoldRow(rowx, x, p);
      ok := true;
    }

    /** Folds a data packet that just arrived into its row; its column has still to take it. */
    method FoldRow(i: nat, x: int, p: Packet)
      requires status.Running? && SmallConfig(cfg) && AllGenuine() && p == src(x) && Marked(TheView(), x)
      requires Steady(TheEnv(), TheView(), {x}, {x}) && RowIx(cfg, cellBase, x) == i < |rowq|
      modifies this`rowq, this`rowGot, this`colq, this`colGot, this`cells, this`cellBase, this`turn, this`status,
               this`known, this`rebuilt
      ensures AllGenuine() && old(rebuilt) <= rebuilt && old(known) <= known
      ensures status.Running? ==> Steady(TheEnv(), TheView(), {}, {x}) && PendingIsMarked(TheView(), {x}) && old(cellBase) <= cellBase
      ensures status.RowsShrunk? ==> 3 * cfg.cols < 4 * cfg.rows - 2
      ensures !status.DismissOverrun? && (status.NoSeriesLeft? <==> old(RowRunsOut(cfg, TheView(), i, x)))
      ensures status.Running? && |colq| == cfg.cols ==> cellBase == old(cellBase) && old(|colq|) == cfg.cols
      ensures !old(RowCompletes(cfg, TheView(), i, x)) ==>
        status.Running? && unchanged(`colq) && unchanged(`cellBase) && unchanged(`known)
      ensures status.Running? && |colq| == cfg.cols && old(RowCompletes(cfg, TheView(), i, x)) ==> i <= 2 * cfg.rows - 2
    {
      var lost := FoldAndLook(Horiz, i, x, p, {x});
      RcvRebuild(Horiz, i, lost, {x});
      if lost.Some? && status.Running? && |colq| == cfg.cols {
        FirstSeriesLow(cfg, cellBase, lost.value);
        Partition(cfg, Horiz, cellBase, lost.value, i);
      }
    }

    /** The members of a column group that are within the cells and not marked. */
    method LossOfColumn(i: nat) returns (loss: set<int>)
      requires ValidConfig(cfg) && i < |colq| && colq[i].base == ColBase(cfg, cellBase, i) && colq[i].step == cfg.cols
      ensures loss == UnmarkedMembers(cfg, TheView(), i)
    {
      ColBaseAhead(cfg, cellBase, i);
      loss := {};
      for n := 0 to cfg.rows
        invariant loss == set x | x in Members(colq[i].base, cfg.cols, n) && Missing(TheView(), x)
      {
        var lseq := colq[i].base + n * colq[i].step;
        MulMonotone(0, n, cfg.cols);
        if !IsLost(lseq) {
          loss := loss + {lseq};
        }
      }
    }

    /** True for a packet that is marked - and, despite its name, for one outside the cells. */
    predicate IsLost(x: int)
      reads this`cells, this`cellBase
    {
      var offset := x - cellBase;
      offset < 0 || offset >= |cells| || cells[offset]
    }

    /** Marks the columns of the first series that end at or before seq as dismissed, and collects what they lack. */
    method CollectPastColumns(seq_: int) returns (loss: set<int>)
      requires status.Running? && Steady(TheEnv(), TheView(), {}, {})
      modifies this`colq, this`reported, this`missed
      ensures Steady(TheEnv(), TheView(), {}, {}) && FlagsOnly(cfg, old(TheView()), TheView(), cfg.cols, seq_)
      ensures forall x :: x in loss <==> LostInColumns(cfg, old(TheView()), cfg.cols, seq_, x)
    {
      loss := {};
      ghost var v := TheView();
      SteadyInPlace(TheEnv(), v);
      for i := 0 to cfg.cols
        invariant FlagsOnly(cfg, v, TheView(), i, seq_)
        invariant forall x :: x in loss <==> LostInColumns(cfg, v, i, seq_, x)
      {
        var more := LookAtColumn(i, seq_, v);
        loss := loss + more;
      }
      FlaggedIsSteady(TheEnv(), v, TheView(), seq_);
    }

    /** One column of the first series: if it is over and not yet dismissed, it is flagged and what it lacks collected. */
    method LookAtColumn(i: nat, seq_: int, ghost v: View) returns (more: set<int>)
      requires ValidConfig(cfg) && i < cfg.cols <= |v.colq| && FlagsOnly(cfg, v, TheView(), i, seq_) && GroupsInPlace(cfg, v)
      modifies this`colq, this`reported, this`missed
      ensures FlagsOnly(cfg, v, TheView(), i + 1, seq_)
      ensures forall x :: LostInColumns(cfg, v, i + 1, seq_, x) <==> LostInColumns(cfg, v, i, seq_, x) || x in more
    {
      more := {};
      ghost var w := TheView();
      var lastOffset := seq_ - colq[i].base - (cfg.rows - 1) * cfg.cols;
      if !colq[i].dismissed && lastOffset >= 0 {
        more := LossOfColumn(i);
        assert more == UnmarkedMembers(cfg, v, i);
        colq := colq[i := colq[i].(dismissed := true)];
        reported, missed := reported + more, missed + BeyondCells(cfg, v, i);
      }
      ColumnLookedAt(cfg, v, w, TheView(), i, seq_);
    }

    /** Dismisses the oldest matrix once the packet is far enough past it. For a data packet the rows, columns and cells
        to dismiss always exist. A column control packet may come when they do not: the code checks for fewer than
        `rows` rows but then reads row number `rows`, so it runs past the end of the container exactly when no more than
        `rows` rows, one series of columns or less than one matrix of cells exist. */
    method DismissIfPast(seq_: int, isData: bool)
      requires status.Running? && Steady(TheEnv(), TheView(), {}, {})
      requires isData ==> Marked(TheView(), seq_) || seq_ < cellBase
      modifies this`rowq, this`rowGot, this`colq, this`colGot, this`cells, this`cellBase, this`turn, this`status
      ensures status.Running? ==> Steady(TheEnv(), TheView(), {}, {})
      ensures status == if old(RunsPast(cfg, TheView(), seq_)) then DismissOverrun else Running
      ensures isData ==> status.Running?
      ensures status.Running? ==> DismissedOne(cfg, old(TheView()), TheView(), seq_)
    {
      FirstSeriesBases(TheEnv(), TheView());
      FirstColumnBase(cfg, cellBase);
      var off := seq_ - colq[0].base;
      var mindist := if cfg.staircase then cfg.cols * cfg.rows * 2 else cfg.cols * cfg.rows;
      assert off == seq_ - cellBase;
      if isData {
        FarPacketHasMatrix(TheEnv(), TheView(), seq_);
      }
      if off < mindist || |rowq| < cfg.rows {
        return;
      }
      if |rowq| == cfg.rows || |colq| == cfg.cols || |cells| < Matrix(cfg) {
        status := DismissOverrun;
        return;
      }
      DismissMatrix({}, {});
    }

    /** Collects the losses of the columns that are over and then dismisses the oldest matrix, if the packet's column
        group is not one of the first series. Nothing that is known is ever reported as lost. */
    method RcvCheckDismissColumn(seq_: int, colgx: nat, isData: bool) returns (irrecover: seq<LossRanges.Range>)
      requires status.Running? && Steady(TheEnv(), TheView(), {}, {})
      requires isData ==> Marked(TheView(), seq_) || seq_ < cellBase
      modifies this`rowq, this`rowGot, this`colq, this`colGot, this`cells, this`cellBase, this`turn, this`status,
               this`reported, this`missed
      ensures isData ==> status.Running? && missed == old(missed)
      ensures Checked(TheEnv(), old(TheView()), TheView(), status, seq_, colgx, irrecover) && NoneKnown(irrecover, known)
      ensures ReportsMore(old(reported), reported, irrecover)
    {
      var series := SeriesOf(colgx);
      if series == 0 {
        return [];
      }
      irrecover := DismissPast(seq_, isData);
    }

    method SeriesOf(colgx: nat) returns (series: nat)
      requires cfg.cols > 0
      ensures series == 0 <==> colgx < cfg.cols
    {
      DivBound(colgx, cfg.cols, 1);
      series := colgx / cfg.cols;
    }

    method DismissPast(seq_: int, isData: bool) returns (irrecover: seq<LossRanges.Range>)
      requires status.Running? && Steady(TheEnv(), TheView(), {}, {})
      requires isData ==> Marked(TheView(), seq_) || seq_ < cellBase
      modifies this`rowq, this`rowGot, this`colq, this`colGot, this`cells, this`cellBase, this`turn, this`status,
               this`reported, this`missed
      ensures isData ==> status.Running? && missed == old(missed)
      ensures Reviewed(TheEnv(), old(TheView()), TheView(), status, seq_, irrecover) && NoneKnown(irrecover, known)
      ensures ReportsMore(old(reported), reported, irrecover)
    {
      ghost var v := TheView();
      irrecover := ReportPastColumns(seq_);
      ghost var w := TheView();
      if isData {
        NothingMissed(TheEnv(), v, w, seq_);
      }
      DismissIfPast(seq_, isData);
      assert status.Running? ==> FlagsOnly(cfg, v, w, cfg.cols, seq_) && DismissedOne(cfg, w, TheView(), seq_);
    }

    /** The losses of the columns that are over, as ranges. */
    method ReportPastColumns(seq_: int) returns (irrecover: seq<LossRanges.Range>)
      requires status.Running? && Steady(TheEnv(), TheView(), {}, {})
      modifies this`colq, this`reported, this`missed
      ensures Steady(TheEnv(), TheView(), {}, {}) && FlagsOnly(cfg, old(TheView()), TheView(), cfg.cols, seq_)
      ensures NoneKnown(irrecover, known) && ReportsMore(old(reported), reported, irrecover)
      ensures forall x :: LossRanges.Covers(irrecover, x) <==> LostInColumns(cfg, old(TheView()), cfg.cols, seq_, x)
    {
      ghost var v := TheView();
      var loss := CollectPastColumns(seq_);
      irrecover := LossRanges.TranslateLossRecords(loss);
      LossIsUnknown(TheEnv(), v, loss);
      LossIsNew(TheEnv(), v, seq_);
    }

    /** Puts a packet into its column, as HangHorizontal does for rows, and then, with the window as it is in `mid`, looks
        for columns to dismiss. */
    method HangVertical(w: Wire) returns (irrecover: seq<LossRanges.Range>, colgx: int, ghost mid: View)
      requires status.Running? && SmallConfig(cfg) && AllGenuine() && ValidEnv(TheEnv()) && GenuineWire(TheEnv(), w)
      requires w.Ctl? ==> w.index != -1 && Near(cfg, cellBase, w.seqno) && Steady(TheEnv(), TheView(), {}, {})
      requires w.Data? ==> Steady(TheEnv(), TheView(), {}, {w.seqno}) && PendingIsMarked(TheView(), {w.seqno})
      modifies this`rowq, this`rowGot, this`colq, this`colGot, this`cells, this`cellBase, this`turn, this`status,
               this`known, this`rebuilt, this`ctl, this`span, this`reported, this`missed
      ensures AllGenuine() && old(rebuilt) <= rebuilt && old(known) <= known && old(ctl) <= ctl
      ensures status.Running? ==> Steady(TheEnv(), TheView(), {}, {})
      ensures status.RowsShrunk? ==> 3 * cfg.cols < 4 * cfg.rows - 2
      ensures status.DismissOverrun? ==> w.Ctl?
      ensures status.NoSeriesLeft? <==> old(ColumnRunsOut(cfg, TheView(), w))
      ensures status.Running? || status.DismissOverrun? ==> Steady(TheEnv(), mid, {}, {}) && old(cellBase) <= mid.base && mid.known == known
      ensures (status.Running? || status.DismissOverrun?) && mid.base == old(cellBase) ==> colgx == ColIx(cfg, mid.base, w.seqno)
      ensures status.Running? || status.DismissOverrun? ==> Checked(TheEnv(), mid, TheView(), status, w.seqno, colgx, irrecover)
      ensures NoneKnown(irrecover, known) && ReportsMore(old(reported), reported, irrecover)
      ensures mid.missed == old(missed) && (w.Data? ==> unchanged(`missed) && unchanged(`ctl))
      ensures old(QuietInColumn(cfg, TheView(), w)) ==>
        (status.Running? || (w.Ctl? && status.DismissOverrun?)) && LeftAlone(old(TheView()), mid, w)
      ensures w.Ctl? && old(QuietColumn(cfg, TheView(), w.seqno)) ==> |mid.rowq| == old(|rowq|) && colgx < |mid.colq|
    {
      irrecover := [];
      colgx := HangColumn(w);
      mid := TheView();
      if !status.Running? {
        return;
      }
      irrecover := DismissBehind(w.seqno, colgx, w.Data?);
    }

    /** The end of HangVertical: nothing for a packet that belongs to no column. */
    method DismissBehind(seq_: int, colgx: int, isData: bool) returns (irrecover: seq<LossRanges.Range>)
      requires status.Running? && Steady(TheEnv(), TheView(), {}, {}) && colgx >= -1
      requires isData ==> Marked(TheView(), seq_) || seq_ < cellBase
      modifies this`rowq, this`rowGot, this`colq, this`colGot, this`cells, this`cellBase, this`turn, this`status,
               this`reported, this`missed
      ensures isData ==> status.Running? && missed == old(missed)
      ensures Checked(TheEnv(), old(TheView()), TheView(), status, seq_, colgx, irrecover) && NoneKnown(irrecover, known)
      ensures ReportsMore(old(reported), reported, irrecover) && (status.Running? || status.DismissOverrun?)
      ensures status.Running? ==> Steady(TheEnv(), TheView(), {}, {})
    {
      irrecover := [];
      if colgx != -1 {
        irrecover := RcvCheckDismissColumn(seq_, colgx, isData);
      }
    }

    method HangColumn(w: Wire) returns (colgx: int)
      requires status.Running? && SmallConfig(cfg) && AllGenuine() && ValidEnv(TheEnv()) && GenuineWire(TheEnv(), w)
      requires w.Ctl? ==> w.index != -1 && Near(cfg, cellBase, w.seqno) && Steady(TheEnv(), TheView(), {}, {})
      requires w.Data? ==> Steady(TheEnv(), TheView(), {}, {w.seqno}) && PendingIsMarked(TheView(), {w.seqno})
      modifies this`rowq, this`rowGot, this`colq, this`colGot, this`cells, this`cellBase, this`turn, this`status,
               this`known, this`rebuilt, this`ctl, this`span
      ensures AllGenuine() && old(rebuilt) <= rebuilt && old(known) <= known && old(ctl) <= ctl
      ensures status.Running? ==> Steady(TheEnv(), TheView(), {}, {}) && colgx >= -1 && old(cellBase) <= cellBase
      ensures status.Running? && w.Data? ==> Marked(TheView(), w.seqno) || w.seqno < cellBase
      ensures status.Running? && cellBase == old(cellBase) ==> colgx == ColIx(cfg, cellBase, w.seqno)
      ensures w.Data? ==> unchanged(`ctl)
      ensures old(QuietInColumn(cfg, TheView(), w)) ==> status.Running? && LeftAlone(old(TheView()), TheView(), w)
      ensures status.RowsShrunk? ==> 3 * cfg.cols < 4 * cfg.rows - 2
      ensures w.Ctl? && old(QuietColumn(cfg, TheView(), w.seqno)) ==> |rowq| == old(|rowq|) && colgx < |colq|
      ensures !status.DismissOverrun? && (status.NoSeriesLeft? <==> old(ColumnRunsOut(cfg, TheView(), w)))
    {
      if w.Ctl? {
        colgx := HangColumnControl(w);
      } else {
        colgx := HangColumnData(w.seqno, w.packet);
      }
    }

    method HangColumnControl(w: Wire) returns (colgx: int)
      requires status.Running? && SmallConfig(cfg) && AllGenuine() && ValidEnv(TheEnv()) && GenuineWire(TheEnv(), w)
      requires w.Ctl? && w.index != -1 && Near(cfg, cellBase, w.seqno) && Steady(TheEnv(), TheView(), {}, {})
      modifies this`rowq, this`rowGot, this`colq, this`colGot, this`cells, this`cellBase, this`turn, this`status,
               this`known, this`rebuilt, this`ctl, this`span
      ensures AllGenuine() && old(rebuilt) <= rebuilt && old(known) <= known && old(ctl) <= ctl
      ensures status.Running? ==> Steady(TheEnv(), TheView(), {}, {}) && colgx >= -1 && old(cellBase) <= cellBase
      ensures status.RowsShrunk? ==> 3 * cfg.cols < 4 * cfg.rows - 2
      ensures old(QuietColumn(cfg, TheView(), w.seqno)) ==> status.Running? && LeftAlone(old(TheView()), TheView(), w)
      ensures old(QuietColumn(cfg, TheView(), w.seqno)) ==> |rowq| == old(|rowq|) && colgx < |colq|
      ensures status.Running? && cellBase == old(cellBase) ==> colgx == ColIx(cfg, cellBase, w.seqno)
      ensures !status.DismissOverrun? && (status.NoSeriesLeft? <==> old(RunsOut(cfg, TheView(), w.seqno)))
    {
      ShiftedIndex(cfg, Vert, cellBase, w.seqno);
      colgx := RcvGetColumnGroupIndex(w.seqno, {}, {});
      if !status.Running? || colgx == -1 {
        return;
      }
      Partition(cfg, Vert, cellBase, w.seqno, 0);
      SeriesBound(cfg, colgx);
      HangControl(Vert, colgx, w);
    }

    method HangColumnData(x: int, p: Packet) returns (colgx: int)
      requires status.Running? && SmallConfig(cfg) && AllGenuine() && ValidEnv(TheEnv()) && p == src(x)
      requires Steady(TheEnv(), TheView(), {}, {x}) && PendingIsMarked(TheView(), {x})
      modifies this`rowq, this`rowGot, this`colq, this`colGot, this`cells, this`cellBase, this`turn, this`status,
               this`known, this`rebuilt
      ensures AllGenuine() && old(rebuilt) <= rebuilt && old(known) <= known
      ensures status.Running? ==> Steady(TheEnv(), TheView(), {}, {}) && colgx >= -1 && old(cellBase) <= cellBase
      ensures status.Running? && cellBase == old(cellBase) ==> colgx == ColIx(cfg, cellBase, x)
      ensures status.Running? ==> Marked(TheView(), x) || x < cellBase
      ensures status.RowsShrunk? ==> 3 * cfg.cols < 4 * cfg.rows - 2
      ensures !status.DismissOverrun? && (status.NoSeriesLeft? <==> old(CannotPlace(cfg, TheView(), x)))
      ensures old(QuietColumnData(cfg, TheView(), x)) ==> status.Running? && LeftAlone(old(TheView()), TheView(), Data(x, p))
    {
      ghost var v := TheView();
      ReachOfHung(TheEnv(), TheView(), x);
      PendingRunsOut(TheEnv(), TheView(), x);
      colgx := RcvGetColumnGroupIndex(x, {}, {x});
      if !status.Running? {
        return;
      }
      Partition(cfg, Vert, cellBase, x, 0);
      if colgx == -1 {
        NothingPends(TheEnv(), TheView(), x, {x});
        return;
      }
      ghost var u := TheView();
      FoldColumn(colgx, x, p);
      if QuietColumnData(cfg, v, x) {
        StillTheSame(v, u, TheView());
      }
    }

    /** Folds a data packet that just arrived into its column. */
    method FoldColumn(i: nat, x: int, p: Packet)
      requires status.Running? && SmallConfig(cfg) && AllGenuine() && p == src(x) && PendingIsMarked(TheView(), {x})
      requires Steady(TheEnv(), TheView(), {}, {x}) && ColIx(cfg, cellBase, x) == i < |colq|
      modifies this`rowq, this`rowGot, this`colq, this`colGot, this`cells, this`cellBase, this`turn, this`status,
               this`known, this`rebuilt
      ensures AllGenuine() && old(rebuilt) <= rebuilt && old(known) <= known
      ensures status.Running? ==> Steady(TheEnv(), TheView(), {}, {}) && old(cellBase) <= cellBase
      ensures status.Running? ==> Marked(TheView(), x) || x < cellBase
      ensures status.RowsShrunk? ==> 3 * cfg.cols < 4 * cfg.rows - 2
      ensures !status.DismissOverrun? && !status.NoSeriesLeft?
      ensures old(QuietGroup(colq, i, cfg.rows)) ==> status.Running? && LeftAlone(old(TheView()), TheView(), Data(x, p))
    {
      MemberOfIndex(cfg, Vert, cellBase, i, x);
      assert {} + {x} == {x};
      FoldAndRebuild(Vert, i, x, p, {});
      if status.Running? {
        KnownMarks(TheEnv(), TheView(), x);
      }
    }

    // ---------- one packet ----------

    /** A packet more than two series ahead of the first series of its column starts the window over, one series before
        its own. The column and row bases agree, so the reset for a disagreement between them never happens. */
    method CheckLargeDrop(seqno: int)
      requires Valid() && status.Running?
      modifies this`rowq, this`rowGot, this`colq, this`colGot, this`cells, this`cellBase, this`turn, this`known
      ensures Valid() && Near(cfg, cellBase, seqno)
      ensures if SeriesAhead(cfg, old(cellBase), seqno) > 2 then StartedFor(cfg, old(TheView()), TheView(), seqno)
              else TheView() == old(TheView())
    {
      FirstSeriesBases(TheEnv(), TheView());
      assert Pick(Horiz, 0) && 0 * cfg.cols == 0;
      var series := SeriesOfPacket(seqno);
      if series > 2 {
        FirstColumnBase(cfg, cellBase);
        var newbase := colq[0].base + (series - 1) * Matrix(cfg);
        StartOver(newbase, series - 1);
      }
    }

    /** The series of columns that the packet is in, going by the base of its column in the first series; -1 for a packet
        before that base. */
    method SeriesOfPacket(seqno: int) returns (series: int)
      requires ValidConfig(cfg) && |colq| >= cfg.cols && forall c :: 0 <= c < cfg.cols ==> colq[c].base == cellBase + ColOffset(cfg, c)
      requires |rowq| > 0 && rowq[0].base == cellBase
      ensures series <= 2 <==> SeriesAhead(cfg, cellBase, seqno) <= 2
      ensures series <= 2 ==> Near(cfg, cellBase, seqno)
      ensures series > 2 ==> series == SeriesAhead(cfg, cellBase, seqno) && var newbase := cellBase + (series - 1) * Matrix(cfg);
        newbase > cellBase && Near(cfg, newbase, seqno) && cfg.cols <= ColIx(cfg, newbase, seqno) < 2 * cfg.cols
    {
      FirstColumnBase(cfg, cellBase);
      var offset := seqno - rowq[0].base;
      SeriesAheadSign(cfg, cellBase, seqno);
      if offset < 0 {
        BehindIsNear(cfg, cellBase, seqno);
        return -1;
      }
      var colx := offset % cfg.cols;
      var coloff := seqno - colq[colx].base;
      MatrixPositive(cfg);
      if coloff < 0 {
        NearWhenInSeries2(cfg, cellBase, seqno);
        return -1;
      }
      series := coloff / Matrix(cfg);
      if series > 2 {
        NewBaseIsNear(cfg, cellBase, seqno, series);
      } else {
        NearWhenInSeries2(cfg, cellBase, seqno);
      }
    }

    /** Empties the window and sets it up again `turns` matrices later. */
    method StartOver(newbase: int, ghost turns: nat)
      requires Valid() && status.Running? && turns > 0 && newbase == cellBase + turns * Matrix(cfg)
      modifies this`rowq, this`rowGot, this`colq, this`colGot, this`cells, this`cellBase, this`turn, this`known
      ensures Valid() && cellBase == newbase && cells == [] && known == set x | x in old(known) && x < newbase
      ensures |rowq| == 1 && !rowq[0].fec
    {
      ghost var v := TheView();
      var none: seq<Group> := [];
      var groups := ConfigureColumns(cfg, none, newbase);
      var row := FreshGroup(cfg, newbase, 1, cfg.cols);
      FirstSeries(cfg, newbase, groups, |none|);
      ghost var v' := StartedOver(cfg, v, newbase, turns, row, groups);
      StartOverIsSteady(TheEnv(), v, turns, row, groups);
      rowq, rowGot := [row], [{}];
      colq, colGot := groups, seq<set<int>>(cfg.cols, _ => {});
      cells, cellBase, turn := [], newbase, turn + turns;
      known := v'.known;
      assert TheView() == v';
    }

    /** Receives one packet: data or control, in any order, any number of times, with any others lost.
        Everything rebuilt is what the sender sent; whatever can be rebuilt from the groups in the window has been; and
        what is reported as irrecoverable is not known, was never reported before, and is exactly what the columns lack
        that the packet is past. `mid` is the window when the packet has been taken and before columns are dismissed. The
        result `want` says whether the packet goes on to the receiver. */
    method Receive(w: Wire) returns (want: bool, lossSeqs: seq<LossRanges.Range>, ghost mid: View, ghost colgx: int)
      requires Valid() && status.Running? && GenuineWire(TheEnv(), w)
      modifies this
      ensures Valid() && old(rebuilt) <= rebuilt && want == w.Data?
      ensures status.RowsShrunk? ==> 3 * cfg.cols < 4 * cfg.rows - 2
      ensures old(RowsTooFew(cfg, TheView(), w)) ==> status.RowsShrunk?
      ensures w.Ctl? && w.index == -1 && old(SeriesAhead(cfg, cellBase, w.seqno) <= 2 && QuietRow(cfg, TheView(), w.seqno)) ==>
        status.Running? && unchanged(`cellBase) && |rowq| == old(RowsFor(cfg, TheView(), w.seqno)) && |colq| == old(|colq|)
      ensures w.Ctl? && w.index != -1 && old(SeriesAhead(cfg, cellBase, w.seqno) <= 2 && QuietColumn(cfg, TheView(), w.seqno)) ==>
        status == if old(ControlRunsPast(cfg, TheView(), w.seqno)) then DismissOverrun else Running
      ensures 4 * cfg.rows - 2 <= 3 * cfg.cols && (w.Data? || w.index == -1) ==> (status.Running? <==> !old(OutOfSeries(cfg, TheView(), w)))
      ensures status.NoSeriesLeft? <==> old(OutOfSeries(cfg, TheView(), w))
      ensures status.DismissOverrun? ==> w.Ctl? && w.index != -1
      ensures status.Running? && w.Data? ==> w.seqno in known || w.seqno < cellBase
      ensures old(received) <= received <= old(received) + (if w.Data? then {w.seqno} else {})
      ensures NoneKnown(lossSeqs, known) && ReportsMore(old(reported), reported, lossSeqs)
      ensures w.Data? ==> unchanged(`missed) && unchanged(`ctl)
      ensures !old(IsNews(cfg, TheView(), w)) ==> lossSeqs == [] && unchanged(`missed)
      ensures status.Running? && old(IsNews(cfg, TheView(), w)) ==>
        TakenThrough(TheEnv(), old(BaseFor(cfg, cellBase, w.seqno)), mid, TheView(), w.seqno, colgx, lossSeqs)
      ensures w.Data? && old(SeriesAhead(cfg, cellBase, w.seqno) <= 2 && QuietData(cfg, TheView(), w.seqno)) ==>
        status.Running? && SameColumns(old(TheView()), mid) && mid.known == old(known) + {w.seqno}
        && forall x :: LossRanges.Covers(lossSeqs, x) <==> old(DataLeavesLost(cfg, TheView(), w.seqno, x))
      ensures w.Ctl? && w.index != -1 && old(SeriesAhead(cfg, cellBase, w.seqno) <= 2 && QuietColumn(cfg, TheView(), w.seqno)) ==>
        SameColumns(old(TheView()), mid) && mid.known == old(known)
        && (forall x :: LossRanges.Covers(lossSeqs, x) <==> old(ControlLeavesLost(cfg, TheView(), w.seqno, x)))
        && forall x :: x in missed <==> x in old(missed) || old(ControlMisses(cfg, TheView(), w.seqno, x))
    {
      lossSeqs, mid, colgx := [], TheView(), -1;
      want := w.Data?;
      ghost var v := TheView();
      CheckLargeDrop(w.seqno);
      ghost var u := TheView();
      RoomAfterDrop(cfg, v, u, w);
      NewsAfterDrop(cfg, v, u, w);
      if w.Data? {
        var past, exists_ := IsKnown(w.seqno);
        if past || exists_ {
          KnownIsKnown(TheView(), w.seqno);
          return;
        }
        lossSeqs, mid, colgx := TakeNewData(w.seqno, w.packet);
      } else {
        lossSeqs, mid, colgx := TakeControlPacket(w);
      }
    }

    /** A data packet that is neither past nor known already is marked, and folded into its row and then its column. */
    method TakeNewData(x: int, p: Packet) returns (lossSeqs: seq<LossRanges.Range>, ghost mid: View, ghost colgx: int)
      requires Valid() && status.Running? && p == src(x) && x >= cellBase && !Marked(TheView(), x) && Near(cfg, cellBase, x)
      modifies this
      ensures Valid() && old(rebuilt) <= rebuilt && x in known
      ensures status.RowsShrunk? ==> 3 * cfg.cols < 4 * cfg.rows - 2
      ensures status.NoSeriesLeft? <==> old(DataRunsOut(cfg, TheView(), x))
      ensures !status.DismissOverrun? && (!old(RowFits(cfg, TheView(), x)) ==> status.RowsShrunk?)
      ensures received == old(received) + {x} && NoneKnown(lossSeqs, known)
      ensures unchanged(`missed) && unchanged(`ctl) && ReportsMore(old(reported), reported, lossSeqs)
      ensures status.Running? ==> TakenThrough(TheEnv(), old(cellBase), mid, TheView(), x, colgx, lossSeqs)
      ensures old(QuietData(cfg, TheView(), x)) ==>
        status.Running? && SameColumns(old(TheView()), mid) && mid.known == old(known) + {x}
        && forall y :: LossRanges.Covers(lossSeqs, y) <==> old(DataLeavesLost(cfg, TheView(), x, y))
    {
      ghost var v := TheView();
      MarkNew(x);
      MarkLacks(cfg, v, TheView(), x);
      lossSeqs, mid, colgx := HangNewData(x, p);
      if QuietData(cfg, v, x) {
        QuietDataLosses(TheEnv(), v, mid, x);
      }
    }

    method HangNewData(x: int, p: Packet) returns (lossSeqs: seq<LossRanges.Range>, ghost mid: View, ghost colgx: int)
      requires status.Running? && SmallConfig(cfg) && AllGenuine() && ValidEnv(TheEnv()) && p == src(x) && Near(cfg, cellBase, x)
      requires Steady(TheEnv(), TheView(), {x}, {x}) && Marked(TheView(), x) && x in known
      modifies this`rowq, this`rowGot, this`colq, this`colGot, this`cells, this`cellBase, this`turn, this`status,
               this`known, this`rebuilt, this`ctl, this`span, this`reported, this`missed
      ensures AllGenuine() && old(rebuilt) <= rebuilt && old(known) <= known
      ensures status.Running? ==> Steady(TheEnv(), TheView(), {}, {})
      ensures status.RowsShrunk? ==> 3 * cfg.cols < 4 * cfg.rows - 2
      ensures status.NoSeriesLeft? <==> old(DataRunsOut(cfg, TheView(), x))
      ensures !old(RowFits(cfg, TheView(), x)) ==> status.RowsShrunk?
      ensures !status.DismissOverrun? && NoneKnown(lossSeqs, known)
      ensures unchanged(`missed) && unchanged(`ctl) && ReportsMore(old(reported), reported, lossSeqs)
      ensures status.Running? ==> Steady(TheEnv(), mid, {}, {}) && old(cellBase) <= mid.base && mid.known == known
      ensures status.Running? && mid.base == old(cellBase) ==> colgx == ColIx(cfg, mid.base, x)
      ensures status.Running? ==> Checked(TheEnv(), mid, TheView(), status, x, colgx, lossSeqs)
      ensures old(QuietInRow(cfg, TheView(), x)) ==> status.Running? && LeftAlone(old(TheView()), mid, Data(x, p))
    {
      lossSeqs, colgx := [], -1;
      ghost var u := TheView();
      var ok := HangHorizontal(Data(x, p));
      mid := TheView();
      if status.Running? {
        ghost var v := TheView();
        ThenOwnColumn(cfg, u, v, x);
        var ix;
        lossSeqs, ix, mid := HangVertical(Data(x, p));
        colgx := ix;
        if QuietInRow(cfg, u, x) {
          assert LeftAlone(u, v, Data(x, p));
        }
      }
    }

    method TakeControlPacket(w: Wire) returns (lossSeqs: seq<LossRanges.Range>, ghost mid: View, ghost colgx: int)
      requires Valid() && status.Running? && w.Ctl? && GenuineWire(TheEnv(), w) && Near(cfg, cellBase, w.seqno)
      modifies this
      ensures Valid() && old(rebuilt) <= rebuilt && received == old(received) && NoneKnown(lossSeqs, known)
      ensures status.RowsShrunk? ==> 3 * cfg.cols < 4 * cfg.rows - 2
      ensures status.DismissOverrun? ==> w.index != -1
      ensures w.index == -1 && old(QuietRow(cfg, TheView(), w.seqno)) ==> status.Running? && unchanged(`cellBase) && unchanged(`cells)
      ensures w.index == -1 && old(QuietRow(cfg, TheView(), w.seqno)) ==> |rowq| == old(RowsFor(cfg, TheView(), w.seqno)) && |colq| == old(|colq|)
      ensures w.index != -1 && old(QuietColumn(cfg, TheView(), w.seqno)) ==>
        status == if old(ControlRunsPast(cfg, TheView(), w.seqno)) then DismissOverrun else Running
      ensures status.NoSeriesLeft? <==> w.index != -1 && old(RunsOut(cfg, TheView(), w.seqno))
      ensures ReportsMore(old(reported), reported, lossSeqs) && (w.index == -1 ==> lossSeqs == [] && unchanged(`missed))
      ensures w.index != -1 && status.Running? ==>
        TakenThrough(TheEnv(), old(cellBase), mid, TheView(), w.seqno, colgx, lossSeqs)
      ensures w.index != -1 && old(QuietColumn(cfg, TheView(), w.seqno)) ==>
        SameColumns(old(TheView()), mid) && mid.known == old(known)
        && (forall x :: LossRanges.Covers(lossSeqs, x) <==> old(ControlLeavesLost(cfg, TheView(), w.seqno, x)))
        && forall x :: x in missed <==> x in old(missed) || old(ControlMisses(cfg, TheView(), w.seqno, x))
    {
      if w.index == -1 {
        lossSeqs, mid, colgx := [], TheView(), -1;
        var ok := HangHorizontal(w);
      } else {
        lossSeqs, mid, colgx := TakeColumnControl(w);
      }
    }

    method TakeColumnControl(w: Wire) returns (lossSeqs: seq<LossRanges.Range>, ghost mid: View, ghost colgx: int)
      requires Valid() && status.Running? && w.Ctl? && GenuineWire(TheEnv(), w) && Near(cfg, cellBase, w.seqno) && w.index != -1
      modifies this
      ensures Valid() && old(rebuilt) <= rebuilt && received == old(received) && NoneKnown(lossSeqs, known)
      ensures status.RowsShrunk? ==> 3 * cfg.cols < 4 * cfg.rows - 2
      ensures status.NoSeriesLeft? <==> old(RunsOut(cfg, TheView(), w.seqno))
      ensures ReportsMore(old(reported), reported, lossSeqs)
      ensures status.Running? ==> TakenThrough(TheEnv(), old(cellBase), mid, TheView(), w.seqno, colgx, lossSeqs)
      ensures old(QuietColumn(cfg, TheView(), w.seqno)) ==>
        status == (if old(ControlRunsPast(cfg, TheView(), w.seqno)) then DismissOverrun else Running)
        && SameColumns(old(TheView()), mid) && mid.known == old(known)
        && (forall x :: LossRanges.Covers(lossSeqs, x) <==> old(ControlLeavesLost(cfg, TheView(), w.seqno, x)))
        && forall x :: x in missed <==> x in old(missed) || old(ControlMisses(cfg, TheView(), w.seqno, x))
    {
      ghost var v := TheView();
      var ix;
      lossSeqs, ix, mid := HangVertical(w);
      colgx := ix;
      if QuietColumn(cfg, v, w.seqno) {
        PastAsBefore(cfg, v, mid, w.seqno);
        QuietControlLosses(cfg, v, mid, w.seqno);
      }
    }

    method IsKnown(x: int) returns (past: bool, exists_: bool)
      ensures past <==> x < cellBase
      ensures past || exists_ <==> x < cellBase || Marked(TheView(), x)
    {
      var off := x - cellBase;
      past := off < 0;
      exists_ := off < |cells| && !past && cells[off];
    }

    /** A new data packet: its cell is marked, and it waits to be folded into its row and column. */
    method MarkNew(x: int)
      requires Valid() && status.Running? && x >= cellBase && !Marked(TheView(), x)
      modifies this`cells, this`known, this`received
      ensures Steady(TheEnv(), TheView(), {x}, {x}) && Marked(TheView(), x)
      ensures received == old(received) + {x} && known == old(known) + {x}
      ensures TheView() == Mark(old(TheView()), x).(received := received)
    {
      ghost var v := TheView();
      MarkCellReceived(x);
      received, known := received + {x}, known + {x};
      ReceivedIsJustified(v, TheView(), x);
      assert {} + {x} == {x};
      MarkKeeps(TheEnv(), v, x, TheView(), {}, {}, Horiz, -1);
      MarkMarks(v, x, x);
      assert Bounded(TheEnv(), TheView());
    }
  }

  /** The column of the packet cannot be had. */
  predicate ColumnRunsOut(cfg: Config, v: View, w: Wire)
    requires ValidConfig(cfg)
  {
    if w.Data? then CannotPlace(cfg, v, w.seqno) else RunsOut(cfg, v, w.seqno)
  }

  lemma PendingRunsOut(e: Env, v: View, x: int)
    requires Steady(e, v, {}, {x}) && PendingIsMarked(v, {x})
    ensures RunsOut(e.cfg, v, x) <==> CannotPlace(e.cfg, v, x)
  {
    if Marked(v, x) {
      assert Hangs(e, v, Horiz, x);
      Partition(e.cfg, Horiz, v.base, x, 0);
      MarkedRunsOut(e, v, x);
    }
  }

  /** A member that comes before member n has a smaller place. */
  lemma EarlierMember(base: int, step: nat, size: nat, x: int, n: nat)
    requires step > 0 && x < At(base, step, n) && exists k :: 0 <= k < size && x == At(base, step, k)
    ensures exists k :: 0 <= k < n && x == At(base, step, k)
  {
    var k :| 0 <= k < size && x == At(base, step, k);
    if k >= n {
      MulMonotone(n, k, step);
    }
  }

  /** The window has been emptied and moved so that the packet, which was more than two series ahead, is in the second. */
  ghost predicate StartedFor(cfg: Config, v: View, v': View, seqno: int)
    requires ValidConfig(cfg)
  {
    v'.base == v.base + (SeriesAhead(cfg, v.base, seqno) - 1) * Matrix(cfg) && v'.cells == []
    && v'.known == (set x | x in v.known && x < v'.base)
    && |v'.rowq| == 1 && !v'.rowq[0].fec && cfg.cols <= ColIx(cfg, v'.base, seqno) < 2 * cfg.cols
  }

  /** The row of a new data packet is so far that the rows are shrunk. */
  predicate RowsTooFew(cfg: Config, v: View, w: Wire)
    requires ValidConfig(cfg)
  {
    w.Data? && SeriesAhead(cfg, v.base, w.seqno) <= 2 && !Marked(v, w.seqno) && !RowFits(cfg, v, w.seqno)
  }

  /** The receiver runs out of columns on this packet. */
  ghost predicate OutOfSeries(cfg: Config, v: View, w: Wire)
    requires ValidConfig(cfg)
  {
    SeriesAhead(cfg, v.base, w.seqno) <= 2
    && match w
       case Data(x, _) => !Marked(v, x) && DataRunsOut(cfg, v, x)
       case Ctl(x, index, _) => index != -1 && RunsOut(cfg, v, x)
  }

  /** After the window has been checked for a large drop, it runs out of columns exactly if it did before; not when it has
      started over. */
  lemma RoomAfterDrop(cfg: Config, v: View, u: View, w: Wire)
    requires ValidConfig(cfg) && (SeriesAhead(cfg, v.base, w.seqno) <= 2 ==> u == v)
    requires SeriesAhead(cfg, v.base, w.seqno) > 2 ==> |u.rowq| == 1 && !u.rowq[0].fec && ColIx(cfg, u.base, w.seqno) < 2 * cfg.cols
    ensures OutOfSeries(cfg, v, w) <==> match w
      case Data(x, _) => SeriesAhead(cfg, v.base, x) <= 2 && !Marked(u, x) && DataRunsOut(cfg, u, x)
      case Ctl(x, index, _) => index != -1 && RunsOut(cfg, u, x)
    ensures SeriesAhead(cfg, v.base, w.seqno) > 2 ==> !DataRunsOut(cfg, u, w.seqno)
    ensures w.seqno < u.base ==> !DataRunsOut(cfg, u, w.seqno)
  {
    if SeriesAhead(cfg, v.base, w.seqno) > 2 {
      FreshHasRoom(cfg, u, w.seqno);
    }
  }

  // ---------- inputs at which the window falls apart ----------

  const FIVE_BY_FIVE := Config(5, 5, true, false, 1456)
  const TWO_BY_THREE := Config(2, 3, false, false, 1456)
  const TWO_BY_TWO := Config(2, 2, false, false, 1456)
  const TWO_BY_TWO_STAIRS := Config(2, 2, true, false, 1456)

  /** Five by five with a staircase, and the first packet that arrives at all is number isn + 56: its column is in the third
      series, which does not count as a large drop, and to make room for it the only series there is goes. */
  method FirstPacketRunsOut(isn: int, ghost src: int -> Packet, p: Packet) returns (d: Receiver)
    requires (forall x :: Fits(src(x), 1456)) && p == src(isn + 56)
    ensures d.status.NoSeriesLeft?
  {
    d := new Receiver(FIVE_BY_FIVE, isn, src);
    ghost var v := d.TheView();
    var w := Data(isn + 56, p);
    assert ColOffset(d.cfg, 1) == 6 && (w.seqno - isn) % 5 == 1 && 50 / Matrix(d.cfg) == 2;
    assert ColIx(d.cfg, isn, w.seqno) == 11 && RowIx(d.cfg, isn, w.seqno) == 11;
    assert OutOfSeries(d.cfg, v, w);
    var want, loss, mid, ix := d.Receive(w);
  }

  /** Two by three, where 4 * rows - 2 exceeds 3 * cols: the packet of row 7, when it comes first, makes the rows shrink. */
  method FirstPacketShrinksRows(isn: int, ghost src: int -> Packet, p: Packet) returns (d: Receiver)
    requires (forall x :: Fits(src(x), 1456)) && p == src(isn + 14)
    ensures 3 * d.cfg.cols < 4 * d.cfg.rows - 2 && d.status.RowsShrunk?
  {
    d := new Receiver(TWO_BY_THREE, isn, src);
    ghost var v := d.TheView();
    var w := Data(isn + 14, p);
    assert ColOffset(d.cfg, 0) == 0 && (w.seqno - isn) % 2 == 0 && 14 / Matrix(d.cfg) == 2;
    assert RowsTooFew(d.cfg, v, w);
    var want, loss, mid, ix := d.Receive(w);
  }

  /** Two by two: the control packet of the second row, then that of the third column group. There are as many rows as a
      matrix has, which the check lets through; the row behind them is read all the same. */
  method ColumnControlRunsPast(isn: int, ghost src: int -> Packet, row: Clip, col: Clip) returns (d: Receiver)
    requires forall x :: Fits(src(x), 1456)
    requires row == FoldAll(src, 1456, isn + 2, 1, 2) && col == FoldAll(src, 1456, isn + 4, 2, 2)
    ensures d.status.DismissOverrun?
  {
    d := new Receiver(TWO_BY_TWO, isn, src);
    ghost var v := d.TheView();
    assert ColOffset(d.cfg, 0) == 0 && ColOffset(d.cfg, 1) == 1 && Matrix(d.cfg) == 4;
    assert IsRowControl(d.cfg, isn, src, isn + 3, row, 1);
    assert RowIx(d.cfg, isn, isn + 3) == 1 && QuietRow(d.cfg, v, isn + 3);
    var want, loss, mid, ix := d.Receive(Ctl(isn + 3, -1, row));
    ghost var w := d.TheView();
    assert ColBase(d.cfg, isn, 2) == isn + 4 && IsColumnControl(d.cfg, isn, src, isn + 6, col, 2);
    assert ColIx(d.cfg, isn, isn + 6) == 2 && |w.rowq| == 2 && |w.colq| == 2;
    assert QuietColumn(d.cfg, w, isn + 6) && ControlRunsPast(d.cfg, w, isn + 6);
    want, loss, mid, ix := d.Receive(Ctl(isn + 6, 0, col));
  }

  // ---------- inputs at which losses are reported, and one at which they are not ----------

  /** Two by two, nothing dismissed, no control packet yet, and the window where it started. */
  ghost predicate Untouched(d: Receiver)
    reads d
  {
    d.cfg == TWO_BY_TWO && d.Valid() && d.status.Running? && d.ctl == {} && d.cellBase == d.isn && d.reported == {}
    && |d.colq| >= 2 && forall i :: 0 <= i < 2 ==> !d.colq[i].dismissed
  }

  lemma NoControlNoFec(e: Env, v: View)
    requires Inv(e, v) && v.ctl == {}
    ensures (forall i :: 0 <= i < |v.rowq| ==> !v.rowq[i].fec) && forall i :: 0 <= i < |v.colq| ==> !v.colq[i].fec
  {
    forall i | 0 <= i < |v.rowq| ensures !v.rowq[i].fec {
      assert Pick(Horiz, i) && GroupOK(e, v, Horiz, i);
    }
    forall i | 0 <= i < |v.colq| ensures !v.colq[i].fec {
      assert Pick(Vert, i) && GroupOK(e, v, Vert, i);
    }
  }

  lemma TwoByTwo(base: int, x: int)
    requires base <= x <= base + 4
    ensures ColIx(TWO_BY_TWO, base, x) == (if x < base + 4 then (x - base) % 2 else 2) && RowIx(TWO_BY_TWO, base, x) <= 2
    ensures SeriesAhead(TWO_BY_TWO, base, x) <= 2
  {
    assert ColOffset(TWO_BY_TWO, 0) == 0 && ColOffset(TWO_BY_TWO, 1) == 1 && Matrix(TWO_BY_TWO) == 4;
  }

  /** A packet of the first two rows. */
  method FeedFirst(d: Receiver, x: int, p: Packet)
    requires Untouched(d) && d.isn <= x < d.isn + 4 && x !in d.known && p == d.src(x)
    modifies d
    ensures Untouched(d) && d.known == old(d.known) + {x}
  {
    ghost var v := d.TheView();
    NoControlNoFec(d.TheEnv(), v);
    TwoByTwo(d.isn, x);
    var want, loss, mid, ix := d.Receive(Data(x, p));
    assert forall y :: !DataLeavesLost(d.cfg, v, x, y);
    assert ix < d.cfg.cols && d.TheView() == mid;
    assert forall y :: y !in d.reported;
  }

  method AllButFirst(isn: int, ghost src: int -> Packet, p1: Packet, p2: Packet, p3: Packet) returns (d: Receiver)
    requires (forall x :: Fits(src(x), 1456)) && p1 == src(isn + 1) && p2 == src(isn + 2) && p3 == src(isn + 3)
    ensures fresh(d) && Untouched(d) && d.isn == isn && d.src == src && d.known == {isn + 1, isn + 2, isn + 3}
  {
    d := new Receiver(TWO_BY_TWO, isn, src);
    FeedFirst(d, isn + 1, p1);
    FeedFirst(d, isn + 2, p2);
    FeedFirst(d, isn + 3, p3);
  }

  /** Two by two: the packets 1 to 4 arrive and the first one, 0, does not. Packet 4 is past the first two columns, and
      number 0 is reported. */
  method LossIsReported(isn: int, ghost src: int -> Packet, p1: Packet, p2: Packet, p3: Packet, p4: Packet)
    returns (d: Receiver, loss: seq<LossRanges.Range>)
    requires forall x :: Fits(src(x), 1456)
    requires p1 == src(isn + 1) && p2 == src(isn + 2) && p3 == src(isn + 3) && p4 == src(isn + 4)
    ensures forall x :: LossRanges.Covers(loss, x) <==> x == isn
    ensures d.reported == {isn} && d.status.Running?
  {
    d := AllButFirst(isn, src, p1, p2, p3);
    ghost var v := d.TheView();
    NoControlNoFec(d.TheEnv(), v);
    TwoByTwo(isn, isn + 4);
    FirstIsLost(d.TheEnv(), v, isn + 4);
    var want;
    ghost var mid, ix;
    want, loss, mid, ix := d.Receive(Data(isn + 4, p4));
    assert forall y :: y in d.reported <==> y == isn;
  }

  lemma FirstIsLost(e: Env, v: View, x: int)
    requires Inv(e, v) && x == e.isn + 4 && e.cfg == TWO_BY_TWO && v.base == e.isn && v.known == {e.isn + 1, e.isn + 2, e.isn + 3}
    requires !v.colq[0].dismissed && !v.colq[1].dismissed
    ensures forall y :: DataLeavesLost(e.cfg, v, x, y) <==> y == e.isn
  {
    var b := v.base;
    SteadyInPlace(e, v);
    TwoByTwo(b, b + 4);
    FirstColumns(b);
    assert IsOver(e.cfg, v.colq[0], b + 4) && IsOver(e.cfg, v.colq[1], b + 4);
  }

  lemma FirstColumns(base: int)
    ensures ColBase(TWO_BY_TWO, base, 0) == base && ColBase(TWO_BY_TWO, base, 1) == base + 1
    ensures ColMembers(TWO_BY_TWO, base, 0) == {base, base + 2} && ColMembers(TWO_BY_TWO, base, 1) == {base + 1, base + 3}
  {
    SeriesBase(TWO_BY_TWO, base, 0, 0);
    SeriesBase(TWO_BY_TWO, base, 0, 1);
    assert ColOffset(TWO_BY_TWO, 0) == 0 && ColOffset(TWO_BY_TWO, 1) == 1;
    forall x ensures x in ColMembers(TWO_BY_TWO, base, 0) <==> x in {base, base + 2} {
      MembersAre(base, 2, 2, x);
    }
    forall x ensures x in ColMembers(TWO_BY_TWO, base, 1) <==> x in {base + 1, base + 3} {
      MembersAre(base + 1, 2, 2, x);
    }
  }

  /** Two by two with a staircase, and the first packet that arrives at all is the control packet of the third column group.
      The first two are over by then, but number 5 lies beyond the cells there are: its column is dismissed, yet it is
      neither known nor reported, and its losses will not be collected again. */
  method ControlPassesOver(isn: int, ghost src: int -> Packet, col: Clip) returns (d: Receiver, loss: seq<LossRanges.Range>)
    requires (forall x :: Fits(src(x), 1456)) && col == FoldAll(src, 1456, isn + 4, 2, 2)
    ensures forall x :: LossRanges.Covers(loss, x) <==> x in {isn, isn + 2, isn + 3}
    ensures d.status.Running? && d.missed == {isn + 5} && isn + 5 !in d.known && isn + 5 !in d.reported
  {
    d := new Receiver(TWO_BY_TWO_STAIRS, isn, src);
    ghost var v := d.TheView();
    var x := isn + 6;
    StairColumns(isn);
    assert IsColumnControl(d.cfg, isn, src, x, col, 2);
    assert ColIx(d.cfg, isn, x) == 2 && QuietColumn(d.cfg, v, x) && !ControlRunsPast(d.cfg, v, x);
    StairLosses(d.TheEnv(), v, x);
    var want;
    ghost var mid, ix;
    want, loss, mid, ix := d.Receive(Ctl(x, 0, col));
    assert forall y :: y in d.missed <==> y == isn + 5;
  }

  lemma StairColumns(base: int)
    ensures Matrix(TWO_BY_TWO_STAIRS) == 4 && ColOffset(TWO_BY_TWO_STAIRS, 0) == 0 && ColOffset(TWO_BY_TWO_STAIRS, 1) == 3
    ensures ColBase(TWO_BY_TWO_STAIRS, base, 0) == base && ColBase(TWO_BY_TWO_STAIRS, base, 1) == base + 3
    ensures ColBase(TWO_BY_TWO_STAIRS, base, 2) == base + 4
    ensures ColMembers(TWO_BY_TWO_STAIRS, base, 0) == {base, base + 2} && ColMembers(TWO_BY_TWO_STAIRS, base, 1) == {base + 3, base + 5}
  {
    SeriesBase(TWO_BY_TWO_STAIRS, base, 0, 0);
    SeriesBase(TWO_BY_TWO_STAIRS, base, 0, 1);
    SeriesBase(TWO_BY_TWO_STAIRS, base, 1, 0);
    assert 1 % 2 == 1 && StairRow(TWO_BY_TWO_STAIRS, 1) == 1;
    forall x ensures x in ColMembers(TWO_BY_TWO_STAIRS, base, 0) <==> x in {base, base + 2} {
      MembersAre(base, 2, 2, x);
    }
    forall x ensures x in ColMembers(TWO_BY_TWO_STAIRS, base, 1) <==> x in {base + 3, base + 5} {
      MembersAre(base + 3, 2, 2, x);
    }
  }

  lemma StairLosses(e: Env, v: View, x: int)
    requires Inv(e, v) && e.cfg == TWO_BY_TWO_STAIRS && v.base == e.isn && v.cells == seq<bool>(4, _ => false) && x == e.isn + 6
    requires !v.colq[0].dismissed && !v.colq[1].dismissed && ColIx(e.cfg, v.base, x) == 2
    ensures forall y :: ControlLeavesLost(e.cfg, v, x, y) <==> y in {e.isn, e.isn + 2, e.isn + 3}
    ensures forall y :: ControlMisses(e.cfg, v, x, y) <==> y in {e.isn + 5}
  {
    SteadyInPlace(e, v);
    StairColumns(v.base);
    assert IsOver(e.cfg, v.colq[0], x) && IsOver(e.cfg, v.colq[1], x);
    assert forall y :: y in UnmarkedMembers(e.cfg, v, 0) <==> y in {v.base, v.base + 2};
    assert forall y :: y in UnmarkedMembers(e.cfg, v, 1) <==> y in {v.base + 3};
    assert forall y :: y in BeyondCells(e.cfg, v, 0) <==> y in {};
    assert forall y :: y in BeyondCells(e.cfg, v, 1) <==> y in {v.base + 5};
  }

  /** How many series of columns the packet is ahead of the first, going by its column. */
  function SeriesAhead(cfg: Config, base: int, x: int): int
    requires ValidConfig(cfg)
  {
    MatrixPositive(cfg);
    (x - base - ColOffset(cfg, (x - base) % cfg.cols)) / Matrix(cfg)
  }

  lemma SeriesAheadSign(cfg: Config, base: int, x: int)
    requires ValidConfig(cfg)
    ensures x < base || x - base < ColOffset(cfg, (x - base) % cfg.cols) ==> SeriesAhead(cfg, base, x) < 0
  {
    MatrixPositive(cfg);
  }

  lemma KnownIsKnown(v: View, x: int)
    requires KnownIsMarked(v) && (x < v.base || Marked(v, x))
    ensures x in v.known || x < v.base
  {
  }

  lemma BehindIsNear(cfg: Config, base: int, x: int)
    requires ValidConfig(cfg) && x < base
    ensures Near(cfg, base, x)
  {
  }

  /** Seen from the new base of CheckLargeDrop, the packet is in series 1. */
  lemma NewBaseIsNear(cfg: Config, base: int, x: int, series: nat)
    requires ValidConfig(cfg) && x >= base && series > 2
    requires var off := x - (base + ColOffset(cfg, (x - base) % cfg.cols)); Matrix(cfg) > 0 && off >= 0 && off / Matrix(cfg) == series
    ensures Near(cfg, base + (series - 1) * Matrix(cfg), x) && base + (series - 1) * Matrix(cfg) > base
    ensures cfg.cols <= ColIx(cfg, base + (series - 1) * Matrix(cfg), x) < 2 * cfg.cols
  {
    var c, d, m := (x - base) % cfg.cols, Matrix(cfg), series - 1;
    var off := x - (base + ColOffset(cfg, c));
    var newbase := base + m * d;
    LeaveMatrices(off, d, m);
    SameColumn(cfg, x - base, m);
    ColOffsetPositive(cfg, c);
    InSeries1(cfg, newbase, x, c, off - m * d);
  }

  lemma ColOffsetPositive(cfg: Config, c: nat)
    requires ValidConfig(cfg)
    ensures ColOffset(cfg, c) >= 0
  {
    MulMonotone(0, StairRow(cfg, c), cfg.cols);
  }

  lemma InSeries1(cfg: Config, base: int, x: int, c: nat, off: int)
    requires ValidConfig(cfg) && Matrix(cfg) > 0 && x >= base
    requires (x - base) % cfg.cols == c && off == x - (base + ColOffset(cfg, c)) && off >= 0 && off / Matrix(cfg) == 1
    ensures Near(cfg, base, x) && cfg.cols <= ColIx(cfg, base, x) < 2 * cfg.cols
  {
    NearWhenInSeries2(cfg, base, x);
  }

  /** Taking all matrices but the last away. */
  lemma LeaveMatrices(off: int, d: int, m: int)
    requires d > 0 && m >= 0 && off / d == m + 1
    ensures off - m * d >= d && (off - m * d) / d == 1 && m * d >= 0 && (m >= 1 ==> m * d >= d)
  {
    MulMonotone(0, m, d);
    if m >= 1 { MulMonotone(1, m, d); }
    DivModShift(off, d, -m);
    assert off == (m + 1) * d + off % d && (m + 1) * d == m * d + d;
    assert (-m) * d == -(m * d);
  }

  lemma SameColumn(cfg: Config, x: int, m: int)
    requires ValidConfig(cfg)
    ensures (x - m * Matrix(cfg)) % cfg.cols == x % cfg.cols
  {
    MulAssociates(m, cfg.rows, cfg.cols);
    DivModShift(x, cfg.cols, -(m * cfg.rows));
    assert (-(m * cfg.rows)) * cfg.cols == -(m * cfg.rows * cfg.cols);
  }

  /** The window emptied and set up again `turns` matrices later, with its first row and series of columns. */
  ghost function StartedOver(cfg: Config, v: View, newbase: int, turns: nat, row: Group, groups: seq<Group>): View {
    View([row], groups, [], newbase, [{}], seq<set<int>>(cfg.cols, _ => {}), v.turn + turns,
         (set x | x in v.known && x < newbase), v.received, v.ctl, v.span, v.reported, v.missed)
  }

  lemma StartOverIsSteady(e: Env, v: View, turns: nat, row: Group, groups: seq<Group>)
    requires Inv(e, v) && turns > 0 && |groups| == e.cfg.cols && row == FreshGroup(e.cfg, v.base + turns * Matrix(e.cfg), 1, e.cfg.cols)
    requires forall i :: 0 <= i < |groups| ==>
        groups[i] == FreshGroup(e.cfg, BaseOf(e.cfg, Vert, v.base + turns * Matrix(e.cfg), i), StepOf(e.cfg, Vert), DropOf(e.cfg, Vert))
    ensures Steady(e, StartedOver(e.cfg, v, v.base + turns * Matrix(e.cfg), turns, row, groups), {}, {})
  {
    var v' := StartedOver(e.cfg, v, v.base + turns * Matrix(e.cfg), turns, row, groups);
    assert v'.turn == v.turn + turns && |v'.rowq| == |v'.rowGot| == 1 && |v'.colq| == |v'.colGot| == e.cfg.cols;
    StartOverShape(e, v, v', turns);
    StartOverReported(e, v, v', turns);
    assert 0 * e.cfg.cols == 0;
    FreshStart(e, v');
    assert Bounded(e, v') by {
      assert v'.colq == groups;
    }
  }

  /** What was reported belongs to no column after that. */
  lemma StartOverReported(e: Env, v: View, v': View, turns: nat)
    requires Inv(e, v) && turns > 0 && v'.base == v.base + turns * Matrix(e.cfg) && v'.reported == v.reported && |v'.colq| >= e.cfg.cols
    ensures ReportedIsOver(e.cfg, v')
  {
    forall x | x in v'.reported ensures IsPastColumn(e.cfg, v', x) {
      assert IsPastColumn(e.cfg, v, x);
      ColumnIsGone(e.cfg, v.base, x, turns);
    }
  }

  lemma {:induction false} ColumnIsGone(cfg: Config, base: int, x: int, turns: nat)
    requires ValidConfig(cfg) && turns > 0 && ColIx(cfg, base, x) < cfg.cols
    ensures ColIx(cfg, base + turns * Matrix(cfg), x) == -1
  {
    ShiftedIndex(cfg, Vert, base + (turns - 1) * Matrix(cfg), x);
    assert base + turns * Matrix(cfg) == base + (turns - 1) * Matrix(cfg) + Matrix(cfg);
    if turns == 1 {
      assert 0 * Matrix(cfg) == 0;
    } else {
      ColumnIsGone(cfg, base, x, turns - 1);
    }
  }

  lemma StartOverShape(e: Env, v: View, v': View, turns: nat)
    requires Inv(e, v) && |v'.rowq| == |v'.rowGot| == 1 && |v'.colq| == |v'.colGot| == e.cfg.cols
    requires v'.base == v.base + turns * Matrix(e.cfg) && v'.turn == v.turn + turns
    requires v'.ctl == v.ctl && v'.span == v.span && v'.received == v.received && v'.known <= v.known
    ensures Shape(e, v') && Justified(v') && (forall g :: g in v'.ctl ==> g <= v'.span)
  {
    DivModUnique(e.cfg.cols, e.cfg.cols, 1, 0);
    assert (v.turn + turns) * Matrix(e.cfg) == v.turn * Matrix(e.cfg) + turns * Matrix(e.cfg);
    forall s: set<int> {:trigger Closed(s, v'.ctl)} | v'.received <= s && Closed(s, v'.ctl) ensures v'.known <= s {
      assert Closed(s, v.ctl);
    }
  }

  lemma MemberOfIndex(cfg: Config, k: Kind, base: int, i: nat, x: int)
    requires ValidConfig(cfg) && IxOf(cfg, k, base, x) == i
    ensures x in MembersOf(cfg, k, base, i) && x >= base
  {
    Partition(cfg, k, base, x, i);
    MemberAtOrAfterBase(cfg, k, base, i, x);
  }

  lemma KnownMarks(e: Env, v: View, x: int)
    requires Inv(e, v) && x in v.known
    ensures Marked(v, x) || x < v.base
  {
  }

  predicate Missing(v: View, x: int) {
    v.base <= x < v.base + |v.cells| && !v.cells[x - v.base]
  }

  ghost function UnmarkedMembers(cfg: Config, v: View, i: nat): set<int>
    requires ValidConfig(cfg)
  {
    set x | x in ColMembers(cfg, v.base, i) && Missing(v, x)
  }

  ghost predicate IsOver(cfg: Config, g: Group, seqno: int) {
    g.base + (cfg.rows - 1) * cfg.cols <= seqno
  }

  /** The number is an unmarked member of one of the first n columns, one that is over by now and not yet dismissed. */
  ghost predicate LostInColumns(cfg: Config, v: View, n: nat, seqno: int, x: int)
    requires ValidConfig(cfg) && |v.colq| >= n
  {
    exists i :: 0 <= i < n && !v.colq[i].dismissed && IsOver(cfg, v.colq[i], seqno) && x in UnmarkedMembers(cfg, v, i)
  }

  /** The same, of a member that lies beyond the cells. */
  ghost predicate MissedInColumns(cfg: Config, v: View, n: nat, seqno: int, x: int)
    requires ValidConfig(cfg) && |v.colq| >= n
  {
    exists i :: 0 <= i < n && !v.colq[i].dismissed && IsOver(cfg, v.colq[i], seqno) && x in BeyondCells(cfg, v, i)
  }

  ghost function BeyondCells(cfg: Config, v: View, i: nat): set<int>
    requires ValidConfig(cfg)
  {
    set x | x in ColMembers(cfg, v.base, i) && x >= v.base + |v.cells|
  }

  /** Of all the window only the flags of those columns are different; and what they lack now counts as reported, or as
      missed if it lies beyond the cells. */
  ghost predicate FlagsOnly(cfg: Config, v: View, w: View, n: nat, seqno: int)
    requires ValidConfig(cfg)
  {
    w == v.(colq := w.colq, reported := w.reported, missed := w.missed) && SameButDismissed(v.colq, w.colq) && n <= |v.colq|
    && (forall i :: 0 <= i < |v.colq| ==>
        (w.colq[i].dismissed <==> v.colq[i].dismissed || (i < n && IsOver(cfg, v.colq[i], seqno))))
    && (forall x :: x in w.reported <==> x in v.reported || LostInColumns(cfg, v, n, seqno, x))
    && (forall x :: x in w.missed <==> x in v.missed || MissedInColumns(cfg, v, n, seqno, x))
  }

  /** Exactly the covered numbers have been reported in addition, and none of them for the second time. */
  ghost predicate ReportsMore(before: set<int>, after: set<int>, rs: seq<LossRanges.Range>) {
    (forall x :: x in after <==> x in before || LossRanges.Covers(rs, x)) && forall x :: LossRanges.Covers(rs, x) ==> x !in before
  }

  /** The columns stand where they stood, none dismissed and none gone, and perhaps more have been appended. */
  ghost predicate SameColumns(v: View, w: View) {
    w.base == v.base && |v.colq| <= |w.colq|
    && forall i :: 0 <= i < |v.colq| ==> w.colq[i].base == v.colq[i].base && w.colq[i].dismissed == v.colq[i].dismissed
  }

  lemma StillTheSame(u: View, v: View, w: View)
    requires SameColumns(u, v) && SameColumns(v, w)
    ensures SameColumns(u, w)
  {
  }

  /** The packet makes its column rebuild nothing. */
  predicate QuietInColumn(cfg: Config, v: View, w: Wire)
    requires ValidConfig(cfg)
  {
    if w.Data? then QuietColumnData(cfg, v, w.seqno) else QuietColumn(cfg, v, w.seqno)
  }

  /** Nothing more is known and the columns are the same; a control packet leaves the cells alone too. */
  ghost predicate LeftAlone(v: View, mid: View, w: Wire) {
    mid.known == v.known && SameColumns(v, mid) && (w.Ctl? ==> mid.cells == v.cells)
  }

  // ---------- every number of a column is accounted for ----------

  /** A column that has been dismissed has no member that is not known, reported or passed over. */
  lemma DismissedIsAccounted(e: Env, v: View, i: nat, x: int)
    requires Inv(e, v) && i < |v.colq| && v.colq[i].dismissed && x in ColMembers(e.cfg, v.base, i)
    ensures x in v.known || x in v.reported || x in v.missed
  {
    assert Pick(Vert, i) && GroupOK(e, v, Vert, i);
  }

  /** After a packet whose column is of a later series, all columns of the first series that the packet is past are
      accounted for, whether they are still there or not. */
  lemma PastIsAccounted(e: Env, base: int, mid: View, v': View, x: int, colgx: int, lossSeqs: seq<LossRanges.Range>, i: nat)
    requires ValidEnv(e) && TakenThrough(e, base, mid, v', x, colgx, lossSeqs) && colgx >= e.cfg.cols
    requires i < e.cfg.cols && IsOver(e.cfg, mid.colq[i], x)
    ensures Accounted(v', ColMembers(e.cfg, mid.base, i))
  {
    var w: View :| FlagsOnly(e.cfg, mid, w, e.cfg.cols, x) && DismissedOne(e.cfg, w, v', x);
    FlaggedIsSteady(e, mid, w, x);
    assert Pick(Vert, i) && GroupOK(e, w, Vert, i);
  }

  /** When the oldest matrix is dismissed because the packet is past it, all its columns are accounted for. */
  lemma DismissedMatrixIsAccounted(e: Env, base: int, mid: View, v': View, x: int, colgx: int, lossSeqs: seq<LossRanges.Range>, i: nat)
    requires ValidEnv(e) && TakenThrough(e, base, mid, v', x, colgx, lossSeqs) && v'.base != mid.base && i < e.cfg.cols
    ensures Accounted(v', ColMembers(e.cfg, mid.base, i))
  {
    SteadyInPlace(e, mid);
    PastIsOver(e.cfg, mid.base, x, i);
    PastIsAccounted(e, base, mid, v', x, colgx, lossSeqs, i);
  }

  lemma PastIsOver(cfg: Config, base: int, x: int, i: nat)
    requires ValidConfig(cfg) && Past(cfg, base, x) && i < cfg.cols
    ensures ColBase(cfg, base, i) + (cfg.rows - 1) * cfg.cols <= x
  {
    SeriesBase(cfg, base, 0, i);
    StairRowBelow(cfg, i);
    MulMonotone(StairRow(cfg, i), cfg.rows - 1, cfg.cols);
    assert 0 * Matrix(cfg) == 0 && 0 * cfg.cols == 0;
    assert (cfg.rows - 1) * cfg.cols == Matrix(cfg) - cfg.cols;
  }

  /** With the control packet of a group taken in, only that group may have something to rebuild. */
  lemma ControlTaken(e: Env, v: View, v': View, k: Kind, i: nat)
    requires Steady(e, v, {}, {}) && i < |Queue(v, k)| && (k.Vert? ==> LastRow(e.cfg, i) <= 4 * e.cfg.rows - 2)
    requires v' == if Queue(v, k)[i].fec then v else WithControl(e, v, k, i)
    ensures Active(e, v', k, i, {}, {}) && Queue(v', k)[i].fec && Queue(v', k)[i].collected == Queue(v, k)[i].collected
    ensures SameExtent(v, v') && SameColumns(v, v') && v'.known == v.known && v.ctl <= v'.ctl
  {
    if Queue(v, k)[i].fec {
      SteadyIsActive(e, v, k, i, {}, {});
    } else {
      ControlIsActive(e, v, k, i);
    }
  }

  // ---------- what a packet makes reported ----------

  /** The packet is not known yet, or is the control packet of a column. */
  predicate IsNews(cfg: Config, v: View, w: Wire)
    requires ValidConfig(cfg)
  {
    if w.Ctl? then w.index != -1
    else SeriesAhead(cfg, v.base, w.seqno) > 2 || (w.seqno >= v.base && !Marked(v, w.seqno))
  }

  lemma NewsAfterDrop(cfg: Config, v: View, u: View, w: Wire)
    requires ValidConfig(cfg)
    requires if SeriesAhead(cfg, v.base, w.seqno) > 2 then StartedFor(cfg, v, u, w.seqno) else u == v
    ensures w.Data? ==> (IsNews(cfg, v, w) <==> w.seqno >= u.base && !Marked(u, w.seqno))
    ensures u.base == BaseFor(cfg, v.base, w.seqno)
  {
  }

  /** Where the window stands once a large drop has been dealt with. */
  function BaseFor(cfg: Config, base: int, x: int): int
    requires ValidConfig(cfg)
  {
    if SeriesAhead(cfg, base, x) > 2 then base + (SeriesAhead(cfg, base, x) - 1) * Matrix(cfg) else base
  }

  /** The packet has been taken and rebuilding is over; then the columns have been looked at with the index that its group
      had when it was found. The window may have moved to make room, but if not, that index is still right. */
  ghost predicate TakenThrough(e: Env, base: int, mid: View, v': View, x: int, colgx: int, lossSeqs: seq<LossRanges.Range>)
    requires ValidConfig(e.cfg)
  {
    Steady(e, mid, {}, {}) && mid.known == v'.known && base <= mid.base
    && (mid.base == base ==> colgx == ColIx(e.cfg, mid.base, x))
    && Checked(e, mid, v', Running, x, colgx, lossSeqs)
  }

  /** A data packet x that makes nothing rebuilt leaves y lost: y is an unmarked member of a column of the first series
      that is not dismissed yet and of which x is past the end, and x itself is in a later series. */
  ghost predicate DataLeavesLost(cfg: Config, v: View, x: int, y: int)
    requires ValidConfig(cfg) && |v.colq| >= cfg.cols
  {
    ColIx(cfg, v.base, x) >= cfg.cols && !Marked(v, y) && y != x
    && exists i :: 0 <= i < cfg.cols && !v.colq[i].dismissed && IsOver(cfg, v.colq[i], x) && y in ColMembers(cfg, v.base, i)
  }

  ghost predicate ControlLeavesLost(cfg: Config, v: View, seqno: int, y: int)
    requires ValidConfig(cfg) && |v.colq| >= cfg.cols
  {
    ColIx(cfg, v.base, seqno) >= cfg.cols && LostInColumns(cfg, v, cfg.cols, seqno, y)
  }

  ghost predicate ControlMisses(cfg: Config, v: View, seqno: int, y: int)
    requires ValidConfig(cfg) && |v.colq| >= cfg.cols
  {
    ColIx(cfg, v.base, seqno) >= cfg.cols && MissedInColumns(cfg, v, cfg.cols, seqno, y)
  }

  lemma QuietDataLosses(e: Env, v: View, mid: View, x: int)
    requires Inv(e, v) && Inv(e, mid) && SameColumns(v, mid) && mid.known == v.known + {x} && x >= v.base
    ensures forall y :: LostInColumns(e.cfg, mid, e.cfg.cols, x, y) && ColIx(e.cfg, v.base, x) >= e.cfg.cols <==>
                        DataLeavesLost(e.cfg, v, x, y)
  {
    assert Marked(mid, x);
    NothingBeyond(e, mid, x);
    forall i, y | 0 <= i < e.cfg.cols && !v.colq[i].dismissed && IsOver(e.cfg, v.colq[i], x) && y in ColMembers(e.cfg, v.base, i)
      ensures y in UnmarkedMembers(e.cfg, mid, i) <==> !Marked(v, y) && y != x
    {
      MemberAtOrAfterBase(e.cfg, Vert, v.base, i, y);
      assert !MissedInColumns(e.cfg, mid, e.cfg.cols, x, y);
      assert y !in BeyondCells(e.cfg, mid, i);
      assert Marked(mid, y) <==> Marked(v, y) || y == x;
    }
  }

  lemma QuietControlLosses(cfg: Config, v: View, mid: View, seqno: int)
    requires ValidConfig(cfg) && |v.colq| >= cfg.cols && SameColumns(v, mid) && mid.cells == v.cells
    ensures forall y :: LostInColumns(cfg, mid, cfg.cols, seqno, y) <==> LostInColumns(cfg, v, cfg.cols, seqno, y)
    ensures forall y :: MissedInColumns(cfg, mid, cfg.cols, seqno, y) <==> MissedInColumns(cfg, v, cfg.cols, seqno, y)
  {
    assert forall i :: UnmarkedMembers(cfg, mid, i) == UnmarkedMembers(cfg, v, i) && BeyondCells(cfg, mid, i) == BeyondCells(cfg, v, i);
  }

  ghost predicate GroupsInPlace(cfg: Config, v: View)
    requires ValidConfig(cfg)
  {
    forall i :: 0 <= i < |v.colq| ==> v.colq[i].base == ColBase(cfg, v.base, i) && v.colq[i].step == cfg.cols
  }

  lemma SteadyInPlace(e: Env, v: View)
    requires Inv(e, v)
    ensures GroupsInPlace(e.cfg, v)
  {
    forall i | 0 <= i < |v.colq| ensures v.colq[i].base == ColBase(e.cfg, v.base, i) && v.colq[i].step == e.cfg.cols {
      assert Pick(Vert, i) && GroupOK(e, v, Vert, i);
    }
  }

  /** Flagging the columns that are over, and taking note of what they lack. */
  lemma FlaggedIsSteady(e: Env, v: View, w: View, seqno: int)
    requires Steady(e, v, {}, {}) && FlagsOnly(e.cfg, v, w, e.cfg.cols, seqno)
    ensures Steady(e, w, {}, {})
  {
    forall i | 0 <= i < |w.colq| && w.colq[i].dismissed && !v.colq[i].dismissed
      ensures Accounted(w, MembersOf(e.cfg, Vert, v.base, i))
    {
      forall x | x in MembersOf(e.cfg, Vert, v.base, i) ensures x in w.known + w.reported + w.missed {
        MemberAtOrAfterBase(e.cfg, Vert, v.base, i, x);
        assert Marked(v, x) || x in UnmarkedMembers(e.cfg, v, i) || x in BeyondCells(e.cfg, v, i);
      }
    }
    assert v.reported <= w.reported && v.missed <= w.missed by {
      forall x ensures (x in v.reported ==> x in w.reported) && (x in v.missed ==> x in w.missed) {
      }
    }
    forall x | x in w.reported ensures IsPastColumn(e.cfg, w, x) {
      if x in v.reported {
        assert IsPastColumn(e.cfg, v, x);
      } else {
        var i :| 0 <= i < e.cfg.cols && !v.colq[i].dismissed && IsOver(e.cfg, v.colq[i], seqno) && x in UnmarkedMembers(e.cfg, v, i);
        Partition(e.cfg, Vert, v.base, x, i);
      }
    }
    DismissedFlagsKeep(e, v, w, {}, {});
  }

  /** What a column that is not yet dismissed lacks was never reported before. */
  lemma LossIsNew(e: Env, v: View, seqno: int)
    requires Inv(e, v)
    ensures forall x :: LostInColumns(e.cfg, v, e.cfg.cols, seqno, x) ==> x !in v.reported
  {
    forall x | LostInColumns(e.cfg, v, e.cfg.cols, seqno, x) ensures x !in v.reported {
      var i :| 0 <= i < e.cfg.cols && !v.colq[i].dismissed && IsOver(e.cfg, v.colq[i], seqno) && x in UnmarkedMembers(e.cfg, v, i);
      Partition(e.cfg, Vert, v.base, x, i);
      assert !IsPastColumn(e.cfg, v, x);
    }
  }

  /** A data packet is marked, so that all of a column that it is past lies within the cells. */
  lemma NothingBeyond(e: Env, v: View, x: int)
    requires Inv(e, v) && (Marked(v, x) || x < v.base)
    ensures forall y :: !MissedInColumns(e.cfg, v, e.cfg.cols, x, y)
  {
    SteadyInPlace(e, v);
    forall i | 0 <= i < e.cfg.cols && IsOver(e.cfg, v.colq[i], x) ensures BeyondCells(e.cfg, v, i) == {} {
      ColBaseAhead(e.cfg, v.base, i);
      MulMonotone(0, e.cfg.rows - 1, e.cfg.cols);
      forall y | y in ColMembers(e.cfg, v.base, i) ensures y < v.base + |v.cells| {
        MemberNotAfterLast(ColBase(e.cfg, v.base, i), e.cfg.cols, e.cfg.rows, y);
      }
    }
  }

  lemma NothingMissed(e: Env, v: View, w: View, x: int)
    requires Inv(e, v) && (Marked(v, x) || x < v.base) && FlagsOnly(e.cfg, v, w, e.cfg.cols, x)
    ensures w.missed == v.missed
  {
    NothingBeyond(e, v, x);
    forall y ensures y in w.missed <==> y in v.missed {
      assert !MissedInColumns(e.cfg, v, e.cfg.cols, x, y);
    }
  }

  lemma MemberNotAfterLast(base: int, step: nat, size: nat, y: int)
    requires y in Members(base, step, size)
    ensures y <= base + (size - 1) * step
  {
    MembersAre(base, step, size, y);
    var k :| 0 <= k < size && y == At(base, step, k);
    MulMonotone(k, size - 1, step);
  }

  /** Dismissing the oldest matrix would run past the end of the rows, columns or cells. */
  predicate RunsPast(cfg: Config, v: View, seqno: int) {
    Past(cfg, v.base, seqno) && |v.rowq| >= cfg.rows
    && (|v.rowq| == cfg.rows || |v.colq| == cfg.cols || |v.cells| < Matrix(cfg))
  }

  /** The same, for a column control packet that makes nothing rebuilt, seen from before it came. */
  predicate ControlRunsPast(cfg: Config, v: View, seqno: int)
    requires ValidConfig(cfg)
  {
    ColIx(cfg, v.base, seqno) >= cfg.cols && Past(cfg, v.base, seqno) && |v.rowq| >= cfg.rows
    && (|v.rowq| == cfg.rows || |v.cells| < Matrix(cfg))
  }

  lemma PastAsBefore(cfg: Config, v: View, mid: View, seqno: int)
    requires ValidConfig(cfg) && mid.base == v.base && mid.cells == v.cells && |mid.rowq| == |v.rowq|
    requires ColIx(cfg, v.base, seqno) < |mid.colq|
    ensures ColIx(cfg, v.base, seqno) >= cfg.cols && RunsPast(cfg, mid, seqno) <==> ControlRunsPast(cfg, v, seqno)
  {
  }

  /** How many rows there are once the row of x is there. */
  function RowsFor(cfg: Config, v: View, x: int): int
    requires ValidConfig(cfg)
  {
    if RowIx(cfg, v.base, x) < |v.rowq| then |v.rowq| else RowIx(cfg, v.base, x) + 1
  }

  /** The oldest matrix is gone if the packet is far enough past it and its rows are there. */
  ghost predicate DismissedOne(cfg: Config, v: View, v': View, seqno: int) {
    if Past(cfg, v.base, seqno) && |v.rowq| >= cfg.rows then HasMatrix(cfg, v) && v' == DropMatrix(cfg, v) else v' == v
  }

  /** What a packet leaves of the window: the columns of the first series that are over are flagged, and the oldest matrix
      goes once the packet is far enough past it and its rows are there. */
  ghost predicate LeavesBehind(cfg: Config, v: View, v': View, seqno: int)
    requires ValidConfig(cfg)
  {
    exists w: View :: FlagsOnly(cfg, v, w, cfg.cols, seqno) && DismissedOne(cfg, w, v', seqno)
  }

  /** What comes of looking for columns to dismiss: exactly the losses of the columns that are over are reported, and
      what is left of the window is steady - unless it was dismissed past the end of a container. */
  ghost predicate Reviewed(e: Env, v: View, v': View, status: Status, seqno: int, irrecover: seq<LossRanges.Range>)
    requires ValidConfig(e.cfg) && |v.colq| >= e.cfg.cols
  {
    (forall x :: LossRanges.Covers(irrecover, x) <==> LostInColumns(e.cfg, v, e.cfg.cols, seqno, x))
    && (forall x :: x in v'.missed <==> x in v.missed || MissedInColumns(e.cfg, v, e.cfg.cols, seqno, x))
    && status == (if RunsPast(e.cfg, v, seqno) then DismissOverrun else Running)
    && (status.Running? ==> Steady(e, v', {}, {}) && LeavesBehind(e.cfg, v, v', seqno))
  }

  /** The same, if the packet's column group is not one of the first series; otherwise nothing happens. */
  ghost predicate Checked(e: Env, v: View, v': View, status: Status, seqno: int, colgx: int, irrecover: seq<LossRanges.Range>)
    requires ValidConfig(e.cfg) && |v.colq| >= e.cfg.cols
  {
    if colgx < e.cfg.cols then v' == v && status.Running? && irrecover == []
    else Reviewed(e, v, v', status, seqno, irrecover)
  }

  /** Sorted ranges of numbers that are not known. */
  ghost predicate NoneKnown(rs: seq<LossRanges.Range>, known: set<int>) {
    LossRanges.Canonical(rs) && forall x :: LossRanges.Covers(rs, x) ==> x !in known
  }

  lemma ColumnLookedAt(cfg: Config, v: View, w: View, w': View, i: nat, seqno: int)
    requires ValidConfig(cfg) && i < |v.colq| && FlagsOnly(cfg, v, w, i, seqno)
    requires w' == if !v.colq[i].dismissed && IsOver(cfg, v.colq[i], seqno)
                   then w.(colq := w.colq[i := w.colq[i].(dismissed := true)], reported := w.reported + UnmarkedMembers(cfg, v, i),
                           missed := w.missed + BeyondCells(cfg, v, i)) else w
    ensures FlagsOnly(cfg, v, w', i + 1, seqno)
    ensures forall x :: LostInColumns(cfg, v, i + 1, seqno, x) <==>
        LostInColumns(cfg, v, i, seqno, x) || (!v.colq[i].dismissed && IsOver(cfg, v.colq[i], seqno) && x in UnmarkedMembers(cfg, v, i))
  {
  }

  lemma LossIsUnknown(e: Env, v: View, loss: set<int>)
    requires Inv(e, v) && forall x :: x in loss ==> Missing(v, x)
    ensures forall x :: x in loss ==> x !in v.known
  {
    forall x | x in loss ensures x !in v.known {
      assert !Marked(v, x);
    }
  }

  /** Far enough past the base for the oldest matrix to be dismissed. */
  predicate Past(cfg: Config, base: int, x: int) {
    x - base >= if cfg.staircase then 2 * Matrix(cfg) else Matrix(cfg)
  }

  /** A marked packet that far past the base has rows, columns and cells of a whole matrix before it. */
  lemma FarPacketHasMatrix(e: Env, v: View, x: int)
    requires Steady(e, v, {}, {}) && (Marked(v, x) || x < v.base)
    ensures Past(e.cfg, v.base, x) ==> |v.rowq| > e.cfg.rows && |v.colq| > e.cfg.cols && |v.cells| >= Matrix(e.cfg)
  {
    MatrixPositive(e.cfg);
    if Past(e.cfg, v.base, x) {
      assert Marked(v, x) && Hangs(e, v, Horiz, x) && Hangs(e, v, Vert, x);
      FarPacketRow(e.cfg, v.base, x);
      Partition(e.cfg, Vert, v.base, x, 0);
    }
  }

  lemma FarPacketRow(cfg: Config, base: int, x: int)
    requires ValidConfig(cfg) && Past(cfg, base, x)
    ensures x >= base && RowIx(cfg, base, x) >= cfg.rows && ColIx(cfg, base, x) >= cfg.cols
  {
    MatrixPositive(cfg);
    DivBound(x - base, cfg.cols, cfg.rows);
    DivBound(x - base, cfg.cols, 2 * cfg.rows);
    MulAssociates(2, cfg.rows, cfg.cols);
    ColumnCoordinates(cfg, base, x);
    var r, c := (x - base) / cfg.cols, (x - base) % cfg.cols;
    StairRowBelow(cfg, c);
    DivBound(r - StairRow(cfg, c), cfg.rows, 1);
    MulMonotone(1, (r - StairRow(cfg, c)) / cfg.rows, cfg.cols);
  }

  /** A packet that hangs in its row lies within the rows there are. */
  lemma ReachOfHung(e: Env, v: View, x: int)
    requires Steady(e, v, {}, {x}) && PendingIsMarked(v, {x})
    ensures RowIx(e.cfg, v.base, x) <= 4 * e.cfg.rows - 2
  {
    if Marked(v, x) {
      assert Hangs(e, v, Horiz, x);
    }
  }

  lemma NothingPends(e: Env, v: View, x: int, p: set<int>)
    requires Steady(e, v, {}, p) && (p == {x} || p == {}) && ColIx(e.cfg, v.base, x) == -1
    ensures Steady(e, v, {}, {})
  {
    NoGroupHangs(e, v, Vert, x, p);
    assert p - {x} == {};
  }

  lemma SeriesBound(cfg: Config, i: nat)
    requires ValidConfig(cfg) && i < 3 * cfg.cols
    ensures LastRow(cfg, i) <= 4 * cfg.rows - 2
  {
    DivBound(i, cfg.cols, 3);
    StairRowBelow(cfg, i % cfg.cols);
    MulMonotone(i / cfg.cols, 2, cfg.rows);
  }

  /** A genuine control packet carries exactly the fold of the group in which the receiver finds it. */
  lemma ControlFitsGroup(e: Env, v: View, k: Kind, i: nat, w: Wire)
    requires Shape(e, v) && w.Ctl? && GenuineWire(e, w) && k == (if w.index == -1 then Horiz else Vert)
    requires IxOf(e.cfg, k, v.base, w.seqno) == i
    ensures w.clip == FoldAll(e.src, e.cfg.payloadSize, BaseOf(e.cfg, k, v.base, i), StepOf(e.cfg, k), SizeOf(e.cfg, k))
  {
    var c := Control(w.seqno, w.index, w.clip);
    if k.Horiz? {
      var r: nat :| IsRowControl(e.cfg, e.isn, e.src, c.seqno, c.clip, r);
      MembersAre(RowBase(e.cfg, e.isn, r), 1, e.cfg.cols, w.seqno);
      assert w.seqno == At(RowBase(e.cfg, e.isn, r), 1, e.cfg.cols - 1);
      SameGroupAsSender(e, v, k, w.seqno, i, r);
    } else {
      var ix: nat :| IsColumnControl(e.cfg, e.isn, e.src, c.seqno, c.clip, ix);
      MembersAre(ColBase(e.cfg, e.isn, ix), e.cfg.cols, e.cfg.rows, w.seqno);
      SameGroupAsSender(e, v, k, w.seqno, i, ix);
    }
  }

  lemma MarkKeepsPending(v: View, t: int, vp: set<int>)
    requires t >= v.base && PendingIsMarked(v, vp)
    ensures PendingIsMarked(Mark(v, t), vp)
  {
    forall x | x in vp ensures Marked(Mark(v, t), x) || x < v.base {
      MarkMarks(v, t, x);
    }
  }

  lemma ClipSize(e: Env, v: View, k: Kind, i: nat)
    requires Inv(e, v) && i < |Queue(v, k)|
    ensures |Queue(v, k)[i].clip.payload| == e.cfg.payloadSize
  {
    assert Pick(k, i) && GroupOK(e, v, k, i);
  }

  lemma SpanShrinks(span: set<int>, known: set<int>, t: int)
    requires t in span && t !in known
    ensures |span - (known + {t})| < |span - known|
  {
    assert span - known == (span - (known + {t})) + {t};
  }

  /** A rebuilt packet lies no further than the groups that could rebuild it. */
  lemma ReachOfRebuilt(e: Env, v: View, k: Kind, i: nat, t: int)
    requires Shape(e, v) && Bounded(e, v) && i < |Queue(v, k)| && Queue(v, k)[i].fec
    requires t >= v.base && IxOf(e.cfg, k, v.base, t) == i
    ensures RowIx(e.cfg, v.base, t) <= 4 * e.cfg.rows - 2
  {
    if k.Vert? {
      assert Pick(Vert, i);
      RowOfMember(e.cfg, v.base, t, i);
    }
  }

  /** The index arithmetic of RcvGetColumnGroupIndex, from the bases of the first series of columns. The two tests for
      absurd distances fail for every packet that CheckLargeDrop lets through. */
  method LookupColumn(cfg: Config, colq: seq<Group>, x: int, ghost base: int) returns (ix: int)
    requires ValidConfig(cfg) && |colq| >= cfg.cols
    requires forall c :: 0 <= c < cfg.cols ==> colq[c].base == base + ColOffset(cfg, c)
    requires x - base <= SEQ_QUARTER && ColIx(cfg, base, x) <= cfg.rows * cfg.cols * 2
    ensures ix == ColIx(cfg, base, x)
  {
    MatrixPositive(cfg);
    assert colq[0].base == base by { assert StairRow(cfg, 0) * cfg.cols == 0 * cfg.cols; }
    var offset := x - colq[0].base;
    if offset < 0 {
      return -1;
    }
    if offset > SEQ_QUARTER {
      return -1;
    }
    var colx := offset % cfg.cols;
    var coloff := x - colq[colx].base;
    if coloff < 0 {
      return -1;
    }
    var series := coloff / (cfg.cols * cfg.rows);
    ix := colx + series * cfg.cols;
    if ix > cfg.rows * cfg.cols * 2 {
      return -1;
    }
  }

  /** The loop of ExtendColumns: one call of ConfigureColumns for every series that does not exist yet. */
  method SeriesUpTo(cfg: Config, colq: seq<Group>, last: nat, ghost got: seq<set<int>>) returns (q: seq<Group>)
    requires ValidConfig(cfg) && cfg.cols <= |colq| == |got| && |colq| % cfg.cols == 0 && |colq| / cfg.cols <= last + 1
    ensures colq <= q && |q| == (last + 1) * cfg.cols
    ensures FreshFrom(cfg, Vert, colq[0].base, q, got + seq<set<int>>(|q| - |colq|, _ => {}), |colq|)
  {
    q := colq;
    var first := |colq| / cfg.cols;
    assert |colq| == first * cfg.cols;
    for s := first to last + 1
      invariant |q| == s * cfg.cols && colq <= q
      invariant FreshColumns(cfg, colq[0].base, q, |colq|)
    {
      ghost var before := q;
      q := ConfigureColumns(cfg, q, colq[0].base + Matrix(cfg) * s);
      SeriesIsFresh(cfg, colq[0].base, s, before, q, |colq|);
    }
  }

  ghost predicate FreshColumns(cfg: Config, base: int, q: seq<Group>, n: nat)
    requires ValidConfig(cfg)
  {
    forall i :: n <= i < |q| ==> q[i] == FreshGroup(cfg, BaseOf(cfg, Vert, base, i), StepOf(cfg, Vert), DropOf(cfg, Vert))
  }

  lemma FirstSeriesBases(e: Env, v: View)
    requires Inv(e, v)
    ensures forall c :: 0 <= c < e.cfg.cols ==> v.colq[c].base == v.base + ColOffset(e.cfg, c)
  {
    forall c | 0 <= c < e.cfg.cols ensures v.colq[c].base == v.base + ColOffset(e.cfg, c) {
      assert Pick(Vert, c) && GroupOK(e, v, Vert, c);
      SeriesBase(e.cfg, v.base, 0, c);
      assert 0 * Matrix(e.cfg) == 0 && 0 * e.cfg.cols == 0;
    }
  }

  lemma DismissIsSteady(e: Env, v: View, hp: set<int>, vp: set<int>)
    requires Steady(e, v, hp, vp) && |v.colq| > e.cfg.cols && |v.rowq| > e.cfg.rows && |v.cells| >= Matrix(e.cfg)
    ensures v.colq[e.cfg.cols].base == v.rowq[e.cfg.rows].base == v.base + Matrix(e.cfg)
    ensures Steady(e, DropMatrix(e.cfg, v), hp, vp)
  {
    assert Pick(Vert, e.cfg.cols) && GroupOK(e, v, Vert, e.cfg.cols);
    assert Pick(Horiz, e.cfg.rows) && GroupOK(e, v, Horiz, e.cfg.rows);
    SecondMatrixBase(e.cfg, v.base);
    DropKeeps(e, v, hp, vp);
    DropKeepsBounds(e, v);
  }

  /** Between two moments the window either stayed or moved by one matrix, and no mark above its base changed. */
  ghost predicate WindowMoved(cfg: Config, v: View, v': View, moved: bool) {
    v'.base == (if moved then v.base + Matrix(cfg) else v.base)
    && forall x {:trigger Marked(v', x)} :: Marked(v', x) <==> Marked(v, x) && x >= v'.base
  }

  lemma DropWindow(cfg: Config, v: View)
    requires ValidConfig(cfg)
    requires |v.rowq| == |v.rowGot| >= cfg.rows && |v.colq| == |v.colGot| >= cfg.cols && |v.cells| >= Matrix(cfg)
    ensures WindowMoved(cfg, v, DropMatrix(cfg, v), true)
  {
    MatrixPositive(cfg);
    forall x {:trigger Marked(DropMatrix(cfg, v), x)}
      ensures Marked(DropMatrix(cfg, v), x) <==> Marked(v, x) && x >= v.base + Matrix(cfg)
    {
      DropMarks(cfg, v, x);
    }
  }

  lemma FirstColumnBase(cfg: Config, base: int)
    requires ValidConfig(cfg)
    ensures ColBase(cfg, base, 0) == base
  {
    SeriesBase(cfg, base, 0, 0);
    assert 0 * Matrix(cfg) == 0 && 0 * cfg.cols == 0;
  }

  lemma SecondMatrixBase(cfg: Config, base: int)
    requires ValidConfig(cfg)
    ensures ColBase(cfg, base, cfg.cols) == RowBase(cfg, base, cfg.rows) == base + Matrix(cfg)
  {
    FirstColumnBase(cfg, base + Matrix(cfg));
    Shifted(cfg, Vert, base, 0);
  }

  lemma MultipleOf(n: nat, q: nat, d: nat)
    requires d > 0 && n == q * d
    ensures n % d == 0 && n / d == q
  {
    DivModUnique(n, d, q, 0);
  }

  lemma SeriesOfIndex(ix: nat, n: nat, d: nat)
    requires d > 0 && n <= ix
    ensures n / d <= ix / d + 1 && ix < (ix / d + 1) * d
  {
    DivBound(n, d, ix / d + 2);
    assert ix == (ix / d) * d + ix % d;
    assert (ix / d + 1) * d == (ix / d) * d + d;
    assert (ix / d + 2) * d == (ix / d) * d + d + d;
  }

  lemma SeriesIsFresh(cfg: Config, base: int, s: nat, q: seq<Group>, q': seq<Group>, n: nat)
    requires ValidConfig(cfg) && FreshColumns(cfg, base, q, n)
    requires |q| == s * cfg.cols && |q'| == |q| + cfg.cols && q <= q'
    requires forall c :: 0 <= c < cfg.cols ==>
        q'[|q| + c] == FreshGroup(cfg, base + Matrix(cfg) * s + ColOffset(cfg, c), cfg.cols, Matrix(cfg))
    ensures FreshColumns(cfg, base, q', n) && |q'| == (s + 1) * cfg.cols
  {
    MulStep(s, cfg.cols);
    forall i | n <= i < |q'|
      ensures q'[i] == FreshGroup(cfg, BaseOf(cfg, Vert, base, i), StepOf(cfg, Vert), DropOf(cfg, Vert))
    {
      if i >= |q| {
        NextSeriesBase(cfg, base, s, |q|, i - |q|);
        assert q'[|q| + (i - |q|)] == q'[i];
      } else {
        assert q'[i] == q[i];
      }
    }
  }

  lemma NextSeriesBase(cfg: Config, base: int, s: nat, n: nat, c: nat)
    requires ValidConfig(cfg) && n == s * cfg.cols && c < cfg.cols
    ensures BaseOf(cfg, Vert, base, n + c) == base + Matrix(cfg) * s + ColOffset(cfg, c)
  {
    SeriesBase(cfg, base, s, c);
  }

  lemma ColBaseAhead(cfg: Config, base: int, i: nat)
    requires ValidConfig(cfg)
    ensures ColBase(cfg, base, i) >= base
  {
    DivBound(i, cfg.cols, 0);
    MulMonotone(0, StairRow(cfg, i % cfg.cols), cfg.cols);
    MatrixPositive(cfg);
    MulMonotone(0, i / cfg.cols, Matrix(cfg));
  }

  lemma FirstSeries(cfg: Config, base: int, q: seq<Group>, n: nat)
    requires ValidConfig(cfg) && n == 0 && |q| == cfg.cols
    requires forall c :: 0 <= c < cfg.cols ==> q[n + c] == FreshGroup(cfg, base + ColOffset(cfg, c), cfg.cols, Matrix(cfg))
    ensures forall i :: 0 <= i < |q| ==> q[i] == FreshGroup(cfg, BaseOf(cfg, Vert, base, i), StepOf(cfg, Vert), DropOf(cfg, Vert))
  {
    forall i | 0 <= i < |q| ensures q[i] == FreshGroup(cfg, BaseOf(cfg, Vert, base, i), StepOf(cfg, Vert), DropOf(cfg, Vert)) {
      SeriesBase(cfg, base, 0, i);
      assert q[n + i] == q[i] && 0 * Matrix(cfg) == 0;
    }
  }
}
