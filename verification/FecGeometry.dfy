/** How the FEC filter lays packets out: rows of `cols` consecutive packets, and columns of `rows` packets
    that are `cols` apart and whose first packets form a staircase. Column groups are kept in one flat
    container: the group of column c in series s has index c + s * cols. */
module FecGeometry {
  import opened Arithmetic
  import opened FecClip

  datatype Config = Config(cols: nat, rows: nat, staircase: bool, columnsOnly: bool, payloadSize: nat)

  /** The two-dimensional and columns-only configurations. Column numbers travel as one signed byte of which
      the value -1 means "row", so there can be at most 255 columns. */
  predicate ValidConfig(cfg: Config) {
    2 <= cfg.cols <= 255 && cfg.rows >= 2
  }

  /** Half of the largest distance that sequence number arithmetic can tell forward from backward. */
  const SEQ_QUARTER := 0x1FFF_FFFF

  /** Four matrices stay within that distance. */
  predicate SmallConfig(cfg: Config) {
    4 * Matrix(cfg) <= SEQ_QUARTER
  }

  /** The signed byte that the column number c becomes in a control packet. */
  function IndexByte(c: nat): int {
    if c % 256 < 128 then c % 256 else c % 256 - 256
  }

  /** Column numbers below 255 are never taken for the row marker -1, and column number 255 always is. */
  lemma IndexByteIsColumn(c: nat)
    ensures c < 255 ==> IndexByte(c) != -1
    ensures c == 255 ==> IndexByte(c) == -1
  {
  }

  function Matrix(cfg: Config): nat {
    cfg.cols * cfg.rows
  }

  /** The row of the first matrix in which column c starts. */
  function StairRow(cfg: Config, c: nat): nat
    requires ValidConfig(cfg)
  {
    if cfg.staircase then c % cfg.rows else 0
  }

  function ColOffset(cfg: Config, c: nat): nat
    requires ValidConfig(cfg)
  {
    c + StairRow(cfg, c) * cfg.cols
  }

  function RowBase(cfg: Config, base: int, i: nat): int {
    base + i * cfg.cols
  }

  function ColBase(cfg: Config, base: int, ix: nat): int
    requires ValidConfig(cfg)
  {
    base + ColOffset(cfg, ix % cfg.cols) + (ix / cfg.cols) * Matrix(cfg)
  }

  ghost function RowMembers(cfg: Config, base: int, i: nat): set<int> {
    Members(RowBase(cfg, base, i), 1, cfg.cols)
  }

  ghost function ColMembers(cfg: Config, base: int, ix: nat): set<int>
    requires ValidConfig(cfg)
  {
    Members(ColBase(cfg, base, ix), cfg.cols, cfg.rows)
  }

  function RowIx(cfg: Config, base: int, x: int): int
    requires ValidConfig(cfg)
  {
    if x < base then -1 else (x - base) / cfg.cols
  }

  /** The index of the column group of x, or -1 when x lies before the first group of its column. */
  function ColIx(cfg: Config, base: int, x: int): int
    requires ValidConfig(cfg)
  {
    if x < base then -1
    else
      var c := (x - base) % cfg.cols;
      var off := x - (base + ColOffset(cfg, c));
      MatrixPositive(cfg);
      if off < 0 then -1 else c + (off / Matrix(cfg)) * cfg.cols
  }

  lemma MatrixPositive(cfg: Config)
    requires ValidConfig(cfg)
    ensures Matrix(cfg) >= 2 * cfg.cols
  {
    MulMonotone(2, cfg.rows, cfg.cols);
  }

  // ---------- rows ----------

  /** Rows partition everything from the base on: x is in row i exactly when i is its index. */
  lemma RowPartition(cfg: Config, base: int, x: int, i: nat)
    requires ValidConfig(cfg)
    ensures x in RowMembers(cfg, base, i) <==> RowIx(cfg, base, x) == i
    ensures RowIx(cfg, base, x) == -1 <==> x < base
  {
    var b := RowBase(cfg, base, i);
    MembersAre(b, 1, cfg.cols, x);
    QuotientIs(x - base, cfg.cols, i);
    if b <= x < b + cfg.cols {
      assert At(b, 1, x - b) == x;
    }
  }

  /** An offset lies in block i of length d exactly when its quotient is i. */
  lemma QuotientIs(x: int, d: nat, i: nat)
    requires d > 0
    ensures 0 <= x - i * d < d <==> x >= 0 && x / d == i
    ensures x >= 0 ==> x / d >= 0
  {
    MulMonotone(0, i, d);
    if 0 <= x - i * d < d {
      DivModUnique(x, d, i, x - i * d);
    }
    if x / d == i {
      assert x == i * d + x % d;
    }
    if x >= 0 {
      DivBound(x, d, 0);
    }
  }

  // ---------- columns ----------

  /** In row and column coordinates, a column group is the rows
      StairRow + series * rows .. StairRow + series * rows + rows - 1 of its column. */
  lemma ColumnCoordinates(cfg: Config, base: int, x: int)
    requires ValidConfig(cfg) && x >= base
    ensures var r, c := (x - base) / cfg.cols, (x - base) % cfg.cols;
      var d := StairRow(cfg, c);
      ColIx(cfg, base, x) == if r < d then -1 else c + ((r - d) / cfg.rows) * cfg.cols
  {
    var r, c := (x - base) / cfg.cols, (x - base) % cfg.cols;
    var d := StairRow(cfg, c);
    var off := x - (base + ColOffset(cfg, c));
    assert off == (r - d) * cfg.cols by {
      assert x - base == r * cfg.cols + c;
      Distribute(r, d, cfg.cols);
    }
    SeriesQuotient(r - d, cfg.cols, cfg.rows);
  }

  lemma Distribute(r: int, d: int, cols: int)
    ensures (r - d) * cols == r * cols - d * cols
  {
  }

  /** Dividing e whole rows by the matrix size is dividing e by the number of rows. */
  lemma SeriesQuotient(e: int, cols: nat, rows: nat)
    requires cols > 0 && rows > 0 && cols * rows > 0
    ensures e < 0 ==> e * cols < 0
    ensures e >= 0 ==> e * cols >= 0 && (e * cols) / (cols * rows) == e / rows
  {
    if e < 0 {
      MulStrict(e, 0, cols);
    } else {
      var s, k := e / rows, e % rows;
      calc {
        e * cols;
        (s * rows + k) * cols;
        (s * rows) * cols + k * cols;
        { MulAssociates(s, rows, cols); }
        s * (cols * rows) + k * cols;
      }
      MulStrict(k, rows, cols);
      MulMonotone(0, k, cols);
      assert rows * cols == cols * rows;
      DivModUnique(e * cols, cols * rows, s, k * cols);
    }
  }

  lemma MulAssociates(s: int, rows: int, cols: int)
    ensures (s * rows) * cols == s * (cols * rows)
  {
  }

  lemma RowOfOffsets(d: int, s: int, k: int, rows: int, cols: int)
    ensures d * cols + s * (cols * rows) + k * cols == (d + s * rows + k) * cols
  {
    MulAssociates(s, rows, cols);
  }

  /** A member of column group ix, in row and column coordinates. */
  lemma ColumnMemberCoordinates(cfg: Config, base: int, ix: nat, k: nat)
    requires ValidConfig(cfg) && k < cfg.rows
    ensures var x := At(ColBase(cfg, base, ix), cfg.cols, k);
      var c, s := ix % cfg.cols, ix / cfg.cols;
      x >= base && (x - base) % cfg.cols == c
      && (x - base) / cfg.cols == StairRow(cfg, c) + s * cfg.rows + k
  {
    var x := At(ColBase(cfg, base, ix), cfg.cols, k);
    var c, s := ix % cfg.cols, ix / cfg.cols;
    var d := StairRow(cfg, c);
    RowOfOffsets(d, s, k, cfg.rows, cfg.cols);
    assert x - base == (d + s * cfg.rows + k) * cfg.cols + c;
    DivBound(ix, cfg.cols, 0);
    MulMonotone(0, s, cfg.rows);
    MulMonotone(0, d + s * cfg.rows + k, cfg.cols);
    DivModUnique(x - base, cfg.cols, d + s * cfg.rows + k, c);
  }

  /** Column groups over all series are pairwise disjoint and cover every packet at or after the base of its column:
      x is in group ix exactly when ix is the index the filter computes for x. */
  lemma ColumnPartition(cfg: Config, base: int, x: int, ix: nat)
    requires ValidConfig(cfg)
    ensures x in ColMembers(cfg, base, ix) <==> ColIx(cfg, base, x) == ix
    ensures ColIx(cfg, base, x) == -1 <==> x < base || x < base + ColOffset(cfg, (x - base) % cfg.cols)
  {
    if x in ColMembers(cfg, base, ix) {
      MemberHasIndex(cfg, base, x, ix);
    }
    if ColIx(cfg, base, x) == ix {
      IndexedIsMember(cfg, base, x, ix);
    }
    if x >= base {
      NoColumnYet(cfg, base, x);
    }
  }

  lemma NoColumnYet(cfg: Config, base: int, x: int)
    requires ValidConfig(cfg) && x >= base
    ensures ColIx(cfg, base, x) == -1 <==> x < base + ColOffset(cfg, (x - base) % cfg.cols)
  {
    ColumnCoordinates(cfg, base, x);
    var r, c := (x - base) / cfg.cols, (x - base) % cfg.cols;
    var d := StairRow(cfg, c);
    assert x - base == r * cfg.cols + c;
    Distribute(r, d, cfg.cols);
    if r >= d {
      MulMonotone(d, r, cfg.cols);
      DivBound(r - d, cfg.rows, 0);
      MulMonotone(0, (r - d) / cfg.rows, cfg.cols);
    } else {
      MulStrict(r, d, cfg.cols);
    }
  }

  lemma MemberHasIndex(cfg: Config, base: int, x: int, ix: nat)
    requires ValidConfig(cfg) && x in ColMembers(cfg, base, ix)
    ensures ColIx(cfg, base, x) == ix
  {
    var b := ColBase(cfg, base, ix);
    MembersAre(b, cfg.cols, cfg.rows, x);
    var k :| 0 <= k < cfg.rows && x == At(b, cfg.cols, k);
    ColumnMemberCoordinates(cfg, base, ix, k);
    ColumnCoordinates(cfg, base, x);
    SeriesOf(ix, cfg.cols, StairRow(cfg, ix % cfg.cols), cfg.rows, k);
  }

  /** Row d + s * rows + k of a column that starts in row d is in series s. */
  lemma SeriesOf(ix: nat, cols: nat, d: nat, rows: nat, k: nat)
    requires cols > 0 && k < rows
    ensures var r := d + (ix / cols) * rows + k; r >= d && ix % cols + ((r - d) / rows) * cols == ix
  {
    var s := ix / cols;
    DivBound(ix, cols, 0);
    MulMonotone(0, s, rows);
    DivModUnique(s * rows + k, rows, s, k);
    assert ix == s * cols + ix % cols;
  }

  lemma IndexedIsMember(cfg: Config, base: int, x: int, ix: nat)
    requires ValidConfig(cfg) && ColIx(cfg, base, x) == ix
    ensures x in ColMembers(cfg, base, ix)
  {
    ColumnCoordinates(cfg, base, x);
    var r, c := (x - base) / cfg.cols, (x - base) % cfg.cols;
    var d := StairRow(cfg, c);
    var s, k := (r - d) / cfg.rows, (r - d) % cfg.rows;
    DivBound(r - d, cfg.rows, 0);
    DivModUnique(ix, cfg.cols, s, c);
    ColumnMemberCoordinates(cfg, base, ix, k);
    var b := ColBase(cfg, base, ix);
    var y := At(b, cfg.cols, k);
    assert r - d == s * cfg.rows + k;
    DivModInjective(x - base, y - base, cfg.cols);
    MembersAre(b, cfg.cols, cfg.rows, x);
  }

  /** Moving the base by m whole matrices renumbers rows by m * rows and column groups by m * cols;
      the groups themselves stay what they were. */
  lemma ShiftByMatrices(cfg: Config, base: int, m: nat, i: nat)
    requires ValidConfig(cfg)
    ensures RowBase(cfg, base + m * Matrix(cfg), i) == RowBase(cfg, base, i + m * cfg.rows)
    ensures ColBase(cfg, base + m * Matrix(cfg), i) == ColBase(cfg, base, i + m * cfg.cols)
  {
    MulAssociates(m, cfg.rows, cfg.cols);
    assert (i + m * cfg.rows) * cfg.cols == i * cfg.cols + (m * cfg.rows) * cfg.cols;
    DivModShift(i, cfg.cols, m);
    assert (i / cfg.cols + m) * Matrix(cfg) == (i / cfg.cols) * Matrix(cfg) + m * Matrix(cfg);
  }

  // ---------- groups and their configuration ----------

  datatype Group = Group(base: int, step: nat, drop: nat, collected: nat, clip: Clip, fec: bool, dismissed: bool)

  function FreshGroup(cfg: Config, base: int, step: nat, drop: nat): Group {
    Group(base, step, drop, 0, Zero(cfg.payloadSize), false, false)
  }

  /** Appends one series of column groups that starts at `isn`. The running offset of the loop is the staircase:
      one column and one row further each time, back to the first row after `rows` columns. */
  method ConfigureColumns(cfg: Config, which: seq<Group>, isn: int) returns (r: seq<Group>)
    requires ValidConfig(cfg)
    ensures |r| == |which| + cfg.cols && which <= r
    ensures forall c :: 0 <= c < cfg.cols ==>
        r[|which| + c] == FreshGroup(cfg, isn + ColOffset(cfg, c), cfg.cols, Matrix(cfg))
  {
    r := which;
    if !cfg.staircase {
      var seqno := isn;
      for col := 0 to cfg.cols
        invariant seqno == isn + col && |r| == |which| + col && which <= r
        invariant forall c :: 0 <= c < col ==>
            r[|which| + c] == FreshGroup(cfg, isn + ColOffset(cfg, c), cfg.cols, Matrix(cfg))
      {
        r := r + [FreshGroup(cfg, seqno, cfg.cols, cfg.rows * cfg.cols)];
        seqno := seqno + 1;
      }
      return;
    }
    var offset := 0;
    for col := 0 to cfg.cols
      invariant offset == ColOffset(cfg, col) && |r| == |which| + col && which <= r
      invariant forall c :: 0 <= c < col ==>
          r[|which| + c] == FreshGroup(cfg, isn + ColOffset(cfg, c), cfg.cols, Matrix(cfg))
    {
      r := r + [FreshGroup(cfg, isn + offset, cfg.cols, cfg.rows * cfg.cols)];
      NextStair(cfg, col);
      if col % cfg.rows == cfg.rows - 1 {
        offset := col + 1;
      } else {
        offset := offset + 1 + cfg.cols;
      }
    }
  }

  /** The base of the group of column c in series s. */
  lemma SeriesBase(cfg: Config, base: int, s: nat, c: nat)
    requires ValidConfig(cfg) && c < cfg.cols
    ensures s * cfg.cols >= 0
    ensures ColBase(cfg, base, s * cfg.cols + c) == base + s * Matrix(cfg) + ColOffset(cfg, c)
  {
    MulMonotone(0, s, cfg.cols);
    DivModUnique(s * cfg.cols + c, cfg.cols, s, c);
  }

  lemma NextStair(cfg: Config, c: nat)
    requires ValidConfig(cfg)
    ensures c % cfg.rows == cfg.rows - 1 ==> (c + 1) % cfg.rows == 0
    ensures c % cfg.rows != cfg.rows - 1 ==> (c + 1) % cfg.rows == c % cfg.rows + 1
    ensures (c % cfg.rows + 1) * cfg.cols == (c % cfg.rows) * cfg.cols + cfg.cols
  {
    var q, r := c / cfg.rows, c % cfg.rows;
    assert c == q * cfg.rows + r;
    if r == cfg.rows - 1 {
      assert (q + 1) * cfg.rows == q * cfg.rows + cfg.rows;
      DivModUnique(c + 1, cfg.rows, q + 1, 0);
    } else {
      DivModUnique(c + 1, cfg.rows, q, r + 1);
    }
  }
}
