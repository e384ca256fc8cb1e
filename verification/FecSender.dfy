/** The sending side of the FEC filter: one open row group and one open group per column. */
module FecSender {
  import opened Arithmetic
  import opened FecClip
  import opened FecGeometry

  datatype Control = NoControl | Control(seqno: int, index: int, clip: Clip)

  // ---------- what a control packet should say ----------

  /** The control packet of row group i: the sequence number of its last packet, and the XOR of the whole row. */
  ghost predicate IsRowControl(cfg: Config, isn: int, src: int -> Packet, seqno: int, clip: Clip, i: nat) {
    seqno == RowBase(cfg, isn, i) + cfg.cols - 1
    && clip == FoldAll(src, cfg.payloadSize, RowBase(cfg, isn, i), 1, cfg.cols)
  }

  ghost predicate IsColumnControl(cfg: Config, isn: int, src: int -> Packet, seqno: int, clip: Clip, ix: nat)
    requires ValidConfig(cfg)
  {
    seqno == At(ColBase(cfg, isn, ix), cfg.cols, cfg.rows - 1)
    && clip == FoldAll(src, cfg.payloadSize, ColBase(cfg, isn, ix), cfg.cols, cfg.rows)
  }

  ghost predicate GenuineControl(cfg: Config, isn: int, src: int -> Packet, c: Control)
    requires ValidConfig(cfg) && c.Control?
  {
    if c.index == -1 then exists i: nat :: IsRowControl(cfg, isn, src, c.seqno, c.clip, i)
    else exists ix: nat :: IsColumnControl(cfg, isn, src, c.seqno, c.clip, ix)
  }

  function ResetGroup(g: Group): Group {
    Group(g.base + g.drop, g.step, g.drop, 0, Zero(|g.clip.payload|), g.fec, g.dismissed)
  }

  // ---------- the state of one column, in numbers ----------

  /** Column c after n packets: its open group is group `ix`, and the sequence number it waits for
      is the first of the column from isn + n on, or its base if that is still ahead. */
  ghost predicate ColumnAt(cfg: Config, isn: int, src: int -> Packet, n: nat, g: Group, c: nat, ix: nat)
    requires ValidConfig(cfg)
  {
    var awaited := At(g.base, cfg.cols, g.collected);
    ix % cfg.cols == c && g.base == ColBase(cfg, isn, ix) && g.step == cfg.cols && g.drop == Matrix(cfg)
    && g.collected <= cfg.rows
    && awaited >= isn + n && (g.collected > 0 ==> awaited < isn + n + cfg.cols)
    && g.clip == FoldAll(src, cfg.payloadSize, g.base, cfg.cols, g.collected)
  }

  lemma AwaitedColumn(cfg: Config, isn: int, ix: nat, k: nat)
    requires ValidConfig(cfg)
    ensures (At(ColBase(cfg, isn, ix), cfg.cols, k) - isn) % cfg.cols == ix % cfg.cols
  {
    ColumnMemberCoordinates(cfg, isn, ix, 0);
    DivModShift(ColBase(cfg, isn, ix) - isn, cfg.cols, k);
  }

  /** Two numbers of the same column that are less than a row apart are equal. */
  lemma SameColumnSameNumber(x: int, y: int, cols: nat)
    requires cols > 0 && x % cols == y % cols && x <= y < x + cols
    ensures x == y
  {
    var qx, qy := x / cols, y / cols;
    assert x == qx * cols + x % cols && y == qy * cols + y % cols;
    if qx < qy {
      MulStrict(qx, qy, cols);
    } else if qy < qx {
      MulStrict(qy, qx, cols);
    }
  }

  /** Packet n falls into column c: the open group takes it exactly when its base is not ahead, and then as its
      next member. */
  lemma FeedColumn(cfg: Config, isn: int, src: int -> Packet, n: nat, g: Group, c: nat, ix: nat)
    requires ValidConfig(cfg) && ColumnAt(cfg, isn, src, n, g, c, ix) && g.collected < cfg.rows
    requires n % cfg.cols == c
    ensures isn + n < g.base ==> ColumnAt(cfg, isn, src, n + 1, g, c, ix)
    ensures isn + n >= g.base ==>
      At(g.base, cfg.cols, g.collected) == isn + n
      && (isn + n - g.base) % cfg.cols == 0 && (isn + n - g.base) / cfg.cols == g.collected
      && ColumnAt(cfg, isn, src, n + 1,
                  g.(collected := g.collected + 1, clip := Xor(g.clip, ClipOf(src(isn + n), cfg.payloadSize))), c, ix)
  {
    var awaited := At(g.base, cfg.cols, g.collected);
    AwaitedColumn(cfg, isn, ix, g.collected);
    if isn + n >= g.base {
      SameColumnSameNumber(n, awaited - isn, cfg.cols);
      DivModUnique(isn + n - g.base, cfg.cols, g.collected, 0);
      assert At(g.base, cfg.cols, g.collected + 1) == awaited + cfg.cols by { MulStep(g.collected, cfg.cols); }
    } else {
      assert g.collected == 0 by {
        if g.collected > 0 {
          SameColumnSameNumber(n, awaited - isn, cfg.cols);
          MulMonotone(1, g.collected, cfg.cols);
        }
      }
    }
  }

  lemma MulStep(k: int, cols: int)
    ensures (k + 1) * cols == k * cols + cols
  {
  }

  /** Packet n does not fall into column c. */
  lemma SkipColumn(cfg: Config, isn: int, src: int -> Packet, n: nat, g: Group, c: nat, ix: nat)
    requires ValidConfig(cfg) && ColumnAt(cfg, isn, src, n, g, c, ix)
    requires n % cfg.cols != c
    ensures ColumnAt(cfg, isn, src, n + 1, g, c, ix)
  {
    AwaitedColumn(cfg, isn, ix, g.collected);
  }

  /** Moving a full column group by its drop distance gives the next group of the same column. */
  lemma ResetColumn(cfg: Config, isn: int, src: int -> Packet, n: nat, g: Group, c: nat, ix: nat)
    requires ValidConfig(cfg) && ColumnAt(cfg, isn, src, n, g, c, ix) && g.collected == cfg.rows
    ensures ColumnAt(cfg, isn, src, n, ResetGroup(g), c, ix + cfg.cols)
  {
    DivModShift(ix, cfg.cols, 1);
    assert ColBase(cfg, isn, ix + cfg.cols) == ColBase(cfg, isn, ix) + Matrix(cfg) by {
      ShiftByMatrices(cfg, isn, 1, ix);
      ColBaseAdditive(cfg, isn, Matrix(cfg), ix);
    }
    assert At(g.base, cfg.cols, cfg.rows) == g.base + Matrix(cfg);
  }

  /** When the last packet fell into a column whose group is full, that packet is the group's last member,
      so its number announces the group. */
  lemma FullColumnIsAnnounced(cfg: Config, isn: int, src: int -> Packet, n: nat, g: Group, c: nat, ix: nat)
    requires ValidConfig(cfg) && ColumnAt(cfg, isn, src, n, g, c, ix) && g.collected == cfg.rows
    requires n > 0 && (n - 1) % cfg.cols == c
    ensures IsColumnControl(cfg, isn, src, isn + n - 1, g.clip, ix)
  {
    AwaitedColumn(cfg, isn, ix, cfg.rows);
    NextInColumn(At(g.base, cfg.cols, cfg.rows) - isn, n, cfg.cols);
    MulStep(cfg.rows - 1, cfg.cols);
  }

  lemma NextInColumn(y: int, n: nat, cols: nat)
    requires cols > 0 && n > 0 && y % cols == (n - 1) % cols && n <= y < n + cols
    ensures y == n - 1 + cols
  {
    DivModShift(n - 1, cols, 1);
    SameColumnSameNumber(y, n - 1 + cols, cols);
  }

  lemma ColBaseAdditive(cfg: Config, base: int, d: int, ix: nat)
    requires ValidConfig(cfg)
    ensures ColBase(cfg, base + d, ix) == ColBase(cfg, base, ix) + d
  {
  }

  // ---------- the open row ----------

  ghost predicate RowAt(cfg: Config, isn: int, src: int -> Packet, n: nat, row: Group, rowIx: nat) {
    row.base == RowBase(cfg, isn, rowIx) && row.drop == cfg.cols
    && row.collected <= cfg.cols && isn + n == row.base + row.collected
    && row.clip == FoldAll(src, cfg.payloadSize, row.base, 1, row.collected)
  }

  function FeedRow(cfg: Config, row: Group, x: int, p: Packet): Group {
    var h := if x - row.base >= cfg.cols then ResetGroup(row) else row;
    h.(collected := h.collected + 1, clip := Xor(h.clip, ClipOf(p, cfg.payloadSize)))
  }

  lemma RowFed(cfg: Config, isn: int, src: int -> Packet, n: nat, row: Group, rowIx: nat) returns (rowIx': nat)
    requires ValidConfig(cfg) && RowAt(cfg, isn, src, n, row, rowIx)
    ensures RowAt(cfg, isn, src, n + 1, FeedRow(cfg, row, isn + n, src(isn + n)), rowIx')
    ensures isn + n - row.base >= 0 && n % cfg.cols == (isn + n - row.base) % cfg.cols
    ensures |row.clip.payload| == cfg.payloadSize
  {
    DivModShift(row.collected, cfg.cols, rowIx);
    RowReset(cfg, isn, src, n, row, rowIx);
    rowIx' := if row.collected == cfg.cols then rowIx + 1 else rowIx;
  }

  lemma RowReset(cfg: Config, isn: int, src: int -> Packet, n: nat, row: Group, rowIx: nat)
    requires ValidConfig(cfg) && RowAt(cfg, isn, src, n, row, rowIx)
    ensures row.collected == cfg.cols ==> RowAt(cfg, isn, src, n, ResetGroup(row), rowIx + 1)
    ensures row.collected == cfg.cols ==> IsRowControl(cfg, isn, src, isn + n - 1, row.clip, rowIx)
    ensures row.collected > 0 ==> n > 0 && (n - 1) % cfg.cols == row.collected - 1
  {
    MulStep(rowIx, cfg.cols);
    MulMonotone(0, rowIx, cfg.cols);
    if row.collected > 0 {
      DivModUnique(n - 1, cfg.cols, rowIx, row.collected - 1);
    }
  }

  // ---------- all columns ----------

  /** Only a name by which proofs pick out one column. */
  ghost predicate Column(c: int) {
    true
  }

  /** All columns after n packets. */
  ghost predicate ColumnsAt(cfg: Config, isn: int, src: int -> Packet, n: nat, groups: seq<Group>, ixs: seq<nat>)
    requires ValidConfig(cfg)
  {
    |groups| == |ixs| == cfg.cols
    && (forall c {:trigger Column(c)} :: 0 <= c < cfg.cols && Column(c) ==> ColumnAt(cfg, isn, src, n, groups[c], c, ixs[c]))
  }

  lemma ColumnsStart(cfg: Config, isn: int, src: int -> Packet, groups: seq<Group>, ixs: seq<nat>)
    requires ValidConfig(cfg) && |groups| == |ixs| == cfg.cols
    requires forall c :: 0 <= c < cfg.cols ==> ixs[c] == c
    requires forall c :: 0 <= c < cfg.cols ==>
        groups[c] == FreshGroup(cfg, isn + ColOffset(cfg, c), cfg.cols, Matrix(cfg))
    ensures ColumnsAt(cfg, isn, src, 0, groups, ixs)
  {
    forall c {:trigger Column(c)} | 0 <= c < cfg.cols && Column(c) ensures ColumnAt(cfg, isn, src, 0, groups[c], c, ixs[c]) {
      ColumnStart(cfg, isn, src, groups[c], c);
    }
  }

  lemma ColumnStart(cfg: Config, isn: int, src: int -> Packet, g: Group, c: nat)
    requires ValidConfig(cfg) && c < cfg.cols
    requires g == FreshGroup(cfg, isn + ColOffset(cfg, c), cfg.cols, Matrix(cfg))
    ensures ColumnAt(cfg, isn, src, 0, g, c, c)
  {
    DivModUnique(c, cfg.cols, 0, c);
    MulMonotone(0, StairRow(cfg, c), cfg.cols);
  }

  /** What feedSource does to the group of the packet's own column: nothing while the base is ahead; otherwise
      the packet is folded in, after a full group has been closed. */
  function FeedGroup(cfg: Config, g: Group, x: int, p: Packet): Group
    requires ValidConfig(cfg)
  {
    var off := x - g.base;
    if off < 0 then g
    else
      var h := if off / cfg.cols >= cfg.rows then ResetGroup(g) else g;
      h.(collected := h.collected + 1, clip := Xor(h.clip, ClipOf(p, cfg.payloadSize)))
  }

  lemma FeedOwnColumn(cfg: Config, isn: int, src: int -> Packet, n: nat, g: Group, j: nat, ix: nat) returns (ix': nat)
    requires ValidConfig(cfg) && ColumnAt(cfg, isn, src, n, g, j, ix) && n % cfg.cols == j
    ensures isn + n >= g.base ==> (isn + n - g.base) % cfg.cols == 0
    ensures ColumnAt(cfg, isn, src, n + 1, FeedGroup(cfg, g, isn + n, src(isn + n)), j, ix')
  {
    if g.collected == cfg.rows {
      FullColumnIsMet(cfg, isn, src, n, g, j, ix);
      ResetColumn(cfg, isn, src, n, g, j, ix);
      ix' := ix + cfg.cols;
      FeedColumn(cfg, isn, src, n, ResetGroup(g), j, ix');
    } else {
      ix' := ix;
      FeedColumn(cfg, isn, src, n, g, j, ix);
    }
  }

  /** Feeding packet n to the group of its column keeps all columns right. */
  lemma ColumnsFed(cfg: Config, isn: int, src: int -> Packet, n: nat, groups: seq<Group>, ixs: seq<nat>, j: nat)
    returns (ixs': seq<nat>)
    requires ValidConfig(cfg) && ColumnsAt(cfg, isn, src, n, groups, ixs)
    requires j < cfg.cols && n % cfg.cols == j
    ensures isn + n >= groups[j].base ==> (isn + n - groups[j].base) % cfg.cols == 0
    ensures |groups[j].clip.payload| == cfg.payloadSize
    ensures ColumnsAt(cfg, isn, src, n + 1, groups[j := FeedGroup(cfg, groups[j], isn + n, src(isn + n))], ixs')
  {
    assert Column(j);
    var ix := FeedOwnColumn(cfg, isn, src, n, groups[j], j, ixs[j]);
    ixs' := ixs[j := ix];
    forall c {:trigger Column(c)} | 0 <= c < cfg.cols && Column(c) && c != j
      ensures ColumnAt(cfg, isn, src, n + 1, groups[c], c, ixs[c])
    {
      SkipColumn(cfg, isn, src, n, groups[c], c, ixs[c]);
    }
  }

  lemma FullColumnIsMet(cfg: Config, isn: int, src: int -> Packet, n: nat, g: Group, j: nat, ix: nat)
    requires ValidConfig(cfg) && ColumnAt(cfg, isn, src, n, g, j, ix) && g.collected == cfg.rows && n % cfg.cols == j
    ensures isn + n == At(g.base, cfg.cols, cfg.rows) == g.base + g.drop
    ensures isn + n >= g.base && (isn + n - g.base) % cfg.cols == 0 && (isn + n - g.base) / cfg.cols == cfg.rows
  {
    AwaitedColumn(cfg, isn, ix, cfg.rows);
    SameColumnSameNumber(n, At(g.base, cfg.cols, cfg.rows) - isn, cfg.cols);
    DivModUnique(isn + n - g.base, cfg.cols, cfg.rows, 0);
  }

  lemma ColumnsReset(cfg: Config, isn: int, src: int -> Packet, n: nat, groups: seq<Group>, ixs: seq<nat>, j: nat)
    requires ValidConfig(cfg) && ColumnsAt(cfg, isn, src, n, groups, ixs)
    requires j < cfg.cols && groups[j].collected >= cfg.rows && n > 0 && (n - 1) % cfg.cols == j
    ensures IsColumnControl(cfg, isn, src, isn + n - 1, groups[j].clip, ixs[j])
    ensures ColumnsAt(cfg, isn, src, n, groups[j := ResetGroup(groups[j])], ixs[j := ixs[j] + cfg.cols])
  {
    assert Column(j);
    ResetColumn(cfg, isn, src, n, groups[j], j, ixs[j]);
    FullColumnIsAnnounced(cfg, isn, src, n, groups[j], j, ixs[j]);
  }

  lemma PacketFed(cfg: Config, isn: int, src: int -> Packet, n: nat, row: Group, rowIx: nat, groups: seq<Group>, ixs: seq<nat>)
    returns (row': Group, rowIx': nat, groups': seq<Group>, ixs': seq<nat>)
    requires ValidConfig(cfg) && RowAt(cfg, isn, src, n, row, rowIx) && ColumnsAt(cfg, isn, src, n, groups, ixs)
    ensures var j := (isn + n - row.base) % cfg.cols;
      0 <= j < cfg.cols && |row.clip.payload| == |groups[j].clip.payload| == cfg.payloadSize
      && (isn + n >= groups[j].base ==> (isn + n - groups[j].base) % cfg.cols == 0)
      && groups' == groups[j := FeedGroup(cfg, groups[j], isn + n, src(isn + n))]
      && row' == FeedRow(cfg, row, isn + n, src(isn + n))
    ensures RowAt(cfg, isn, src, n + 1, row', rowIx') && ColumnsAt(cfg, isn, src, n + 1, groups', ixs')
  {
    var j := (isn + n - row.base) % cfg.cols;
    rowIx' := RowFed(cfg, isn, src, n, row, rowIx);
    row' := FeedRow(cfg, row, isn + n, src(isn + n));
    groups' := groups[j := FeedGroup(cfg, groups[j], isn + n, src(isn + n))];
    ixs' := ColumnsFed(cfg, isn, src, n, groups, ixs, j);
  }

  method ClipIntoRow(cfg: Config, row: Group, seqno: int, p: Packet) returns (r: Group)
    requires Fits(p, cfg.payloadSize) && |row.clip.payload| == cfg.payloadSize
    ensures r == FeedRow(cfg, row, seqno, p)
  {
    var h := row;
    if seqno - row.base >= cfg.cols {
      h := ResetGroup(row);
    }
    var clip := ClipPacket(h.clip, p);
    r := h.(collected := h.collected + 1, clip := clip);
  }

  /** The base of a column group may be ahead of the packet: then the packet belongs to no column. */
  method ClipIntoColumn(cfg: Config, g: Group, seqno: int, p: Packet) returns (r: Group)
    requires ValidConfig(cfg) && Fits(p, cfg.payloadSize) && |g.clip.payload| == cfg.payloadSize
    requires seqno >= g.base ==> (seqno - g.base) % cfg.cols == 0
    ensures r == FeedGroup(cfg, g, seqno, p)
  {
    var off := seqno - g.base;
    r := g;
    if off >= 0 {
      if off / cfg.cols >= cfg.rows {
        r := ResetGroup(r);
      }
      var clip := ClipPacket(r.clip, p);
      r := r.(collected := r.collected + 1, clip := clip);
    }
  }

  /** Packet n goes into the open row and into the open group of its column. */
  method FeedBoth(cfg: Config, ghost isn: int, ghost src: int -> Packet, ghost n: nat, row: Group, ghost rowIx: nat,
                  cols: seq<Group>, ghost ixs: seq<nat>, seqno: int, p: Packet)
    returns (r: Group, q: seq<Group>, ghost rowIx': nat, ghost ixs': seq<nat>)
    requires ValidConfig(cfg) && (forall x :: Fits(src(x), cfg.payloadSize)) && seqno == isn + n && p == src(seqno)
    requires RowAt(cfg, isn, src, n, row, rowIx) && ColumnsAt(cfg, isn, src, n, cols, ixs)
    ensures RowAt(cfg, isn, src, n + 1, r, rowIx') && ColumnsAt(cfg, isn, src, n + 1, q, ixs')
  {
    ghost var row', cols';
    row', rowIx', cols', ixs' := PacketFed(cfg, isn, src, n, row, rowIx, cols, ixs);
    var j := (seqno - row.base) % cfg.cols;
    r := ClipIntoRow(cfg, row, seqno, p);
    var g := ClipIntoColumn(cfg, cols[j], seqno, p);
    q := cols[j := g];
    assert r == row' && q == cols';
  }

  class Sender {
    const cfg: Config
    ghost const isn: int
    ghost const src: int -> Packet
    var row: Group
    var cols: seq<Group>
    ghost var n: nat              // packets fed so far
    ghost var rowIx: nat          // which row group is open
    ghost var colIx: seq<nat>     // which group is open in each column

    ghost predicate Valid()
      reads this
    {
      ValidConfig(cfg) && (forall x :: Fits(src(x), cfg.payloadSize))
      && RowAt(cfg, isn, src, n, row, rowIx) && ColumnsAt(cfg, isn, src, n, cols, colIx)
    }

    /** The column that the last packet fell into has a full group. */
    ghost predicate ColumnDue()
      reads this
      requires Valid()
    {
      row.collected > 0 && cols[row.collected - 1].collected >= cfg.rows
    }

    constructor (cfg: Config, isn: int, ghost src: int -> Packet)
      requires ValidConfig(cfg) && forall x :: Fits(src(x), cfg.payloadSize)
      ensures Valid() && n == 0 && row.collected == 0
      ensures this.cfg == cfg && this.isn == isn && this.src == src
    {
      this.cfg := cfg;
      this.isn := isn;
      this.src := src;
      row := FreshGroup(cfg, isn, 1, cfg.cols);
      n := 0;
      rowIx := 0;
      var none: seq<Group> := [];
      var groups := ConfigureColumns(cfg, none, isn);
      ghost var ixs := seq<nat>(cfg.cols, i => i);
      assert forall c :: 0 <= c < cfg.cols ==> groups[|none| + c] == groups[c];
      ColumnsStart(cfg, isn, src, groups, ixs);
      cols := groups;
      colIx := ixs;
    }

    /** Folds the next data packet into the open row and into the open group of its column. A group that is full
        because nobody asked for its control packet is closed and the next one begun. */
    method FeedSource(p: Packet, seqno: int)
      requires Valid() && seqno == isn + n && p == src(seqno)
      modifies this
      ensures Valid() && n == old(n) + 1
    {
      var r, q;
      ghost var rowIx', colIx';
      r, q, rowIx', colIx' := FeedBoth(cfg, isn, src, n, row, rowIx, cols, colIx, seqno, p);
      row, cols := r, q;
      n, rowIx, colIx := n + 1, rowIx', colIx';
    }

    /** Packs the control packet of a finished group, columns before rows, and reopens the group.
        Whatever it returns is the genuine control packet of a group, and it returns one exactly when one is due
        (except that a columns-only sender packs none for rows); when it returns none, none is due any more. */
    method PackControlPacket(seqno: int) returns (c: Control)
      requires Valid() && seqno == isn + n - 1
      modifies this
      ensures Valid() && n == old(n)
      ensures c.Control? ==> c.seqno == seqno && GenuineControl(cfg, isn, src, c)
      ensures c.Control? <==> old(ColumnDue()) || (!cfg.columnsOnly && old(row).collected >= cfg.cols)
      ensures c.NoControl? ==> row.collected < cfg.cols && !ColumnDue()
    {
      RowReset(cfg, isn, src, n, row, rowIx);
      var offset := seqno - row.base;
      var gx := (offset + cfg.cols) % cfg.cols;
      if offset >= 0 {
        assert gx == offset by { DivModUnique(offset + cfg.cols, cfg.cols, 1, offset); }
        if cols[gx].collected >= cfg.rows {
          c := Control(seqno, IndexByte(gx), cols[gx].clip);
          IndexByteIsColumn(gx);
          ColumnsReset(cfg, isn, src, n, cols, colIx, gx);
          cols := cols[gx := ResetGroup(cols[gx])];
          colIx := colIx[gx := colIx[gx] + cfg.cols];
          return;
        }
      }
      c := NoControl;
      if row.collected >= cfg.cols {
        if !cfg.columnsOnly {
          c := Control(seqno, -1, row.clip);
        }
        row := ResetGroup(row);
        rowIx := rowIx + 1;
      }
    }
  }
}
