/** Losses that are not reported at once: each range waits for a number of further packets, in case it was only overtaken. */
module FreshLoss {
  import opened LossRanges

  datatype Fresh = Fresh(lo: int, hi: int, ttl: int)

  predicate Within(f: Fresh, x: int) {
    f.lo <= x <= f.hi
  }

  /** No record is empty. */
  ghost predicate Sound(q: seq<Fresh>) {
    forall f :: f in q ==> f.lo <= f.hi
  }

  /** In how many records the number waits. */
  function Times(q: seq<Fresh>, x: int): nat {
    if q == [] then 0 else (if Within(q[0], x) then 1 else 0) + Times(q[1..], x)
  }

  function TimesIn(rs: seq<Range>, x: int): nat {
    if rs == [] then 0 else (if InRange(rs[0], x) then 1 else 0) + TimesIn(rs[1..], x)
  }

  /** No number waits twice. */
  ghost predicate Once(q: seq<Fresh>) {
    forall x :: Times(q, x) <= 1
  }

  // ---------- a packet leaves numbers out ----------

  function Records(gaps: seq<Range>, ttl: int): seq<Fresh> {
    seq(|gaps|, i requires 0 <= i < |gaps| => Fresh(gaps[i].lo, gaps[i].hi, ttl))
  }

  /** What one arrival appends: at every gap all those found so far. */
  function Appended(gaps: seq<Range>, ttl: int): seq<Fresh> {
    if gaps == [] then [] else Appended(gaps[..|gaps| - 1], ttl) + Records(gaps, ttl)
  }

  // ---------- a late packet arrives ----------

  /** What taking x out of one record makes of it. */
  datatype Revoked = NotThere | Stripped(f: Fresh) | Deleted | Split

  function Revoke(f: Fresh, x: int): Revoked {
    if x < f.lo || x > f.hi then NotThere
    else if x == f.lo then (if x == f.hi then Deleted else Stripped(f.(lo := f.lo + 1)))
    else if x == f.hi then Stripped(f.(hi := f.hi - 1))
    else Split
  }

  /** The record without the number. */
  function LeftOf(f: Fresh, x: int): seq<Fresh> {
    (if f.lo < x then [f.(hi := x - 1)] else []) + (if x < f.hi then [f.(lo := x + 1)] else [])
  }

  /** The number is taken out of the first record that has it. */
  function Without(q: seq<Fresh>, x: int): seq<Fresh> {
    if q == [] then [] else if Within(q[0], x) then LeftOf(q[0], x) + q[1..] else [q[0]] + Without(q[1..], x)
  }

  // ---------- one more packet has arrived ----------

  /** How many records at the front have waited long enough. */
  function Due(q: seq<Fresh>): (n: nat)
    ensures n <= |q| && (forall i :: 0 <= i < n ==> q[i].ttl <= 0) && (n < |q| ==> q[n].ttl > 0)
  {
    if q == [] || q[0].ttl > 0 then 0 else 1 + Due(q[1..])
  }

  function Ranges(q: seq<Fresh>): seq<Range> {
    seq(|q|, i requires 0 <= i < |q| => Range(q[i].lo, q[i].hi))
  }

  function Aged(q: seq<Fresh>): seq<Fresh> {
    seq(|q|, i requires 0 <= i < |q| => q[i].(ttl := q[i].ttl - 1))
  }

  class FreshList {
    var records: seq<Fresh>

    constructor ()
      ensures records == []
    {
      records := [];
    }

    /** A packet left numbers out; `lossSeqs` are the gaps found before in the same arrival. With a tolerance all the gaps
        found so far are recorded, not only the new one. */
    method Skip(lossSeqs: seq<Range>, gap: Range, ttl: nat) returns (more: seq<Range>)
      modifies this
      ensures more == lossSeqs + [gap] && records == old(records) + if ttl > 0 then Records(more, ttl) else []
    {
      more := lossSeqs + [gap];
      if ttl > 0 {
        for i := 0 to |more|
          invariant records == old(records) + Records(more, ttl)[..i]
        {
          records := records + [Fresh(more[i].lo, more[i].hi, ttl)];
        }
      }
    }

    /** All the gaps of one arrival. */
    method Arrive(gaps: seq<Range>, ttl: nat)
      modifies this
      ensures records == old(records) + if ttl > 0 then Appended(gaps, ttl) else []
    {
      var lossSeqs: seq<Range> := [];
      for i := 0 to |gaps|
        invariant lossSeqs == gaps[..i] && records == old(records) + if ttl > 0 then Appended(gaps[..i], ttl) else []
      {
        assert gaps[..i + 1][..i] == gaps[..i] && gaps[..i + 1] == gaps[..i] + [gaps[i]];
        lossSeqs := Skip(lossSeqs, gaps[i], ttl);
      }
      assert gaps[..|gaps|] == gaps;
    }

    /** A late packet arrives. Without a tolerance nothing happens, and what waits goes on waiting. */
    method Unlose(x: int, tolerance: nat) returns (hadTtl: int)
      requires Sound(records)
      modifies this
      ensures records == if tolerance == 0 then old(records) else Without(old(records), x)
      ensures tolerance > 0 ==> hadTtl == TtlOf(old(records), x, 0)
    {
      hadTtl := 0;
      if tolerance > 0 {
        hadTtl := TakeOut(x);
      }
    }

    /** Takes the number out of the first record that has it. */
    method TakeOut(x: int) returns (hadTtl: int)
      requires Sound(records)
      modifies this
      ensures records == Without(old(records), x) && hadTtl == TtlOf(old(records), x, 0)
    {
      hadTtl := 0;
      ghost var was := records;
      var i := 0;
      while i < |records|
        invariant 0 <= i <= |records| && records == was
        invariant Without(was, x) == was[..i] + Without(was[i..], x) && TtlOf(was, x, 0) == TtlOf(was[i..], x, hadTtl)
      {
        WithoutStep(was, i, x);
        RevokeLeaves(was[i], x);
        hadTtl := records[i].ttl;
        match Revoke(records[i], x) {
          case NotThere =>
          case Stripped(f) =>
            records := records[..i] + ([f] + records[i + 1..]);
            return;
          case Deleted =>
            records := records[..i] + ([] + records[i + 1..]);
            return;
          case Split =>
            records := records[..i] + ([records[i].(hi := x - 1), records[i].(lo := x + 1)] + records[i + 1..]);
            return;
        }
        i := i + 1;
      }
    }

    /** One more packet has arrived: what has waited long enough at the front is reported; the rest waits one less. Without
        a tolerance nothing is even looked at. */
    method Review(tolerance: nat) returns (report: seq<Range>)
      modifies this
      ensures tolerance == 0 ==> report == [] && records == old(records)
      ensures tolerance > 0 ==> var n := Due(old(records)); report == Ranges(old(records)[..n]) && records == Aged(old(records)[n..])
    {
      report := [];
      if tolerance == 0 {
        return;
      }
      ghost var was := records;
      var i := 0;
      while i < |records| && records[i].ttl <= 0
        invariant 0 <= i <= |records| && records == was && |report| == i
        invariant forall j :: 0 <= j < i ==> was[j].ttl <= 0 && report[j] == Range(was[j].lo, was[j].hi)
      {
        report := report + [Range(records[i].lo, records[i].hi)];
        i := i + 1;
      }
      DueIs(was, i);
      assert report == Ranges(was[..i]);
      records := records[i..];
      Age();
    }

    method Age()
      modifies this
      ensures records == Aged(old(records))
    {
      ghost var was := records;
      for k := 0 to |records|
        invariant |records| == |was|
        invariant forall j :: 0 <= j < |was| ==> records[j] == if j < k then was[j].(ttl := was[j].ttl - 1) else was[j]
      {
        records := records[k := records[k].(ttl := records[k].ttl - 1)];
      }
    }
  }

  /** How long the number had still to wait, or if it did not wait the last record; none is there at first. */
  function TtlOf(q: seq<Fresh>, x: int, before: int): int {
    if q == [] then before else if Within(q[0], x) then q[0].ttl else TtlOf(q[1..], x, q[0].ttl)
  }

  /** A number that waits is given the time of the first record that has it. */
  lemma {:induction false} TtlIsOfFirst(q: seq<Fresh>, x: int, before: int)
    requires Times(q, x) > 0
    ensures exists i :: 0 <= i < |q| && TtlOf(q, x, before) == q[i].ttl && Within(q[i], x) && forall j :: 0 <= j < i ==> !Within(q[j], x)
  {
    if !Within(q[0], x) {
      TtlIsOfFirst(q[1..], x, q[0].ttl);
      var i :| 0 <= i < |q[1..]| && TtlOf(q[1..], x, q[0].ttl) == q[1..][i].ttl && Within(q[1..][i], x)
        && forall j :: 0 <= j < i ==> !Within(q[1..][j], x);
      forall j | 0 <= j < i + 1 ensures !Within(q[j], x) {
        assert j > 0 ==> q[j] == q[1..][j - 1];
      }
      assert Within(q[i + 1], x);
    }
  }

  lemma {:induction false} DueIs(q: seq<Fresh>, n: nat)
    requires n <= |q| && (forall i :: 0 <= i < n ==> q[i].ttl <= 0) && (n < |q| ==> q[n].ttl > 0)
    ensures Due(q) == n
  {
    if n > 0 {
      DueIs(q[1..], n - 1);
    }
  }

  lemma RevokeLeaves(f: Fresh, x: int)
    requires f.lo <= f.hi
    ensures Revoke(f, x).NotThere? <==> !Within(f, x)
    ensures match Revoke(f, x)
      case NotThere => true
      case Stripped(g) => LeftOf(f, x) == [g]
      case Deleted => LeftOf(f, x) == []
      case Split => LeftOf(f, x) == [f.(hi := x - 1), f.(lo := x + 1)]
  {
  }

  lemma WithoutStep(q: seq<Fresh>, i: nat, x: int)
    requires i < |q|
    ensures q[i..][1..] == q[i + 1..] && q[i..][0] == q[i]
    ensures !Within(q[i], x) ==> q[..i] + Without(q[i..], x) == q[..i + 1] + Without(q[i + 1..], x)
    ensures Within(q[i], x) ==> Without(q[i..], x) == LeftOf(q[i], x) + q[i + 1..]
  {
    assert q[..i + 1] == q[..i] + [q[i]];
  }

  // ---------- what waits how often ----------

  lemma {:induction false} TimesOfTwo(a: seq<Fresh>, b: seq<Fresh>, x: int)
    ensures Times(a + b, x) == Times(a, x) + Times(b, x)
  {
    if a == [] {
      assert a + b == b;
    } else {
      assert (a + b)[1..] == a[1..] + b;
      TimesOfTwo(a[1..], b, x);
    }
  }

  /** A late packet's number waits in one record less, and every other number as often as before. */
  lemma {:induction false} UnloseTakesOne(q: seq<Fresh>, x: int, y: int)
    requires Sound(q)
    ensures Sound(Without(q, x))
    ensures Times(Without(q, x), y) == if y == x && Times(q, x) > 0 then Times(q, x) - 1 else Times(q, y)
  {
    if q != [] {
      assert q[0] in q && Sound(q[1..]);
      if Within(q[0], x) {
        LeftOfIs(q[0], x, y);
        TimesOfTwo(LeftOf(q[0], x), q[1..], y);
      } else {
        UnloseTakesOne(q[1..], x, y);
        TimesOfTwo([q[0]], Without(q[1..], x), y);
      }
    }
  }

  lemma LeftOfIs(f: Fresh, x: int, y: int)
    requires Within(f, x)
    ensures Sound(LeftOf(f, x)) && Times(LeftOf(f, x), y) == if Within(f, y) && y != x then 1 else 0
  {
    var low, high := if f.lo < x then [f.(hi := x - 1)] else [], if x < f.hi then [f.(lo := x + 1)] else [];
    TimesOfTwo(low, high, y);
  }

  /** What is reported waits no more, and nothing else stops waiting: each record is reported or goes on waiting. */
  lemma ReviewReportsOrKeeps(q: seq<Fresh>, x: int)
    ensures Times(q, x) == TimesIn(Ranges(q[..Due(q)]), x) + Times(Aged(q[Due(q)..]), x)
  {
    TimesOfTwo(q[..Due(q)], q[Due(q)..], x);
    assert q[..Due(q)] + q[Due(q)..] == q;
    RangesCount(q[..Due(q)], x);
    AgedCount(q[Due(q)..], x);
  }

  lemma {:induction false} RangesCount(q: seq<Fresh>, x: int)
    ensures TimesIn(Ranges(q), x) == Times(q, x)
  {
    if q != [] {
      assert Ranges(q)[1..] == Ranges(q[1..]);
      RangesCount(q[1..], x);
    }
  }

  lemma {:induction false} AgedCount(q: seq<Fresh>, x: int)
    ensures Times(Aged(q), x) == Times(q, x)
  {
    if q != [] {
      assert Aged(q)[1..] == Aged(q[1..]);
      AgedCount(q[1..], x);
    }
  }

  // ---------- how long a record waits ----------

  /** The list after one review with a tolerance. */
  function Reviewed(q: seq<Fresh>): seq<Fresh> {
    Aged(q[Due(q)..])
  }

  /** The record at i is one of those that the n-th review from now reports - the next one for n == 0 - as this range. */
  ghost predicate ReportedAt(q: seq<Fresh>, i: nat, n: nat, r: Range)
    requires i < |q|
    decreases n
  {
    if n == 0 then i < Due(q) && Ranges(q)[i] == r
    else i >= Due(q) && ReportedAt(Reviewed(q), i - Due(q), n - 1, r)
  }

  /** The longest time that the record, or one before it, has still to wait. */
  function Longest(q: seq<Fresh>, i: nat): nat
    requires i < |q|
  {
    var here := if q[i].ttl > 0 then q[i].ttl else 0;
    if i == 0 || Longest(q, i - 1) < here then here else Longest(q, i - 1)
  }

  lemma {:induction false} LongestIsMost(q: seq<Fresh>, i: nat)
    requires i < |q|
    ensures forall j :: 0 <= j <= i ==> q[j].ttl <= Longest(q, i)
    ensures Longest(q, i) > 0 ==> exists j :: 0 <= j <= i && q[j].ttl == Longest(q, i)
    decreases i
  {
    if i > 0 {
      LongestIsMost(q, i - 1);
    }
  }

  /** A record is reported, in one piece, after exactly as many reviews as the longest wait of its own and of those before
      it says: also one whose time is up stays behind one whose time is not. */
  lemma {:induction false} ReportedInTime(q: seq<Fresh>, i: nat)
    requires i < |q|
    ensures ReportedAt(q, i, Longest(q, i), Range(q[i].lo, q[i].hi))
    decreases Longest(q, i)
  {
    LongestIsMost(q, i);
    var n := Due(q);
    if Longest(q, i) > 0 {
      var j :| 0 <= j <= i && q[j].ttl == Longest(q, i);
      assert n <= j;
      OneLess(q, i, j);
      ReportedInTime(Reviewed(q), i - n);
    } else {
      assert i < n;
    }
  }

  lemma OneLess(q: seq<Fresh>, i: nat, j: nat)
    requires Due(q) <= j <= i < |q| && q[j].ttl == Longest(q, i) > 0
    ensures Longest(Reviewed(q), i - Due(q)) == Longest(q, i) - 1
    ensures Reviewed(q)[i - Due(q)] == q[i].(ttl := q[i].ttl - 1)
  {
    var t, m := Reviewed(q), i - Due(q);
    LongestIsMost(q, i);
    LongestIsMost(t, m);
    assert t[j - Due(q)].ttl == q[j].ttl - 1;
    if Longest(t, m) > 0 {
      var k :| 0 <= k <= m && t[k].ttl == Longest(t, m);
      assert t[k].ttl == q[k + Due(q)].ttl - 1;
    }
  }

  /** While the tolerance does not go down, every record waits exactly as many reviews as it was given. */
  lemma {:induction false} WaitsAsGiven(q: seq<Fresh>, i: nat)
    requires i < |q| && q[i].ttl >= 0 && forall j, k :: 0 <= j <= k < |q| ==> q[j].ttl <= q[k].ttl
    ensures ReportedAt(q, i, q[i].ttl, Range(q[i].lo, q[i].hi))
  {
    LongestIsMost(q, i);
    if Longest(q, i) > 0 {
      var j :| 0 <= j <= i && q[j].ttl == Longest(q, i);
    }
    ReportedInTime(q, i);
  }

  // ---------- when numbers wait twice ----------

  /** The gaps of one arrival: none is empty, and each lies above the one before. */
  ghost predicate Ascending(gaps: seq<Range>) {
    (forall i :: 0 <= i < |gaps| ==> gaps[i].lo <= gaps[i].hi) && forall i, j :: 0 <= i < j < |gaps| ==> gaps[i].hi < gaps[j].lo
  }

  lemma {:induction false} RecordsCount(gaps: seq<Range>, ttl: int, x: int)
    ensures Times(Records(gaps, ttl), x) == TimesIn(gaps, x)
  {
    if gaps != [] {
      assert Records(gaps, ttl)[1..] == Records(gaps[1..], ttl);
      RecordsCount(gaps[1..], ttl, x);
    }
  }

  lemma {:induction false} GapsCount(gaps: seq<Range>, x: int)
    requires Ascending(gaps)
    ensures TimesIn(gaps, x) == if Covers(gaps, x) then 1 else 0
  {
    if gaps != [] {
      assert Ascending(gaps[1..]);
      GapsCount(gaps[1..], x);
      CoversFirst(gaps, x);
      if InRange(gaps[0], x) {
        forall i | 0 <= i < |gaps[1..]| ensures !InRange(gaps[1..][i], x) {
          assert gaps[0].hi < gaps[i + 1].lo;
        }
      }
    }
  }

  lemma CoversFirst(gaps: seq<Range>, x: int)
    requires gaps != []
    ensures Covers(gaps, x) <==> InRange(gaps[0], x) || Covers(gaps[1..], x)
  {
    if i :| 0 <= i < |gaps[1..]| && InRange(gaps[1..][i], x) {
      assert InRange(gaps[i + 1], x);
    }
    if i :| 0 < i < |gaps| && InRange(gaps[i], x) {
      assert InRange(gaps[1..][i - 1], x);
    }
  }

  /** A number of gap k of n is recorded n - k times, and a number of no gap not at all. */
  lemma {:induction false} AppendedCount(gaps: seq<Range>, ttl: int, x: int)
    requires Ascending(gaps)
    ensures forall k :: 0 <= k < |gaps| && InRange(gaps[k], x) ==> Times(Appended(gaps, ttl), x) == |gaps| - k
    ensures !Covers(gaps, x) ==> Times(Appended(gaps, ttl), x) == 0
    decreases |gaps|
  {
    if gaps != [] {
      var n := |gaps| - 1;
      var before := gaps[..n];
      assert Ascending(before);
      AppendedCount(before, ttl, x);
      TimesOfTwo(Appended(before, ttl), Records(gaps, ttl), x);
      RecordsCount(gaps, ttl, x);
      GapsCount(gaps, x);
      if i :| 0 <= i < n && InRange(before[i], x) {
        assert InRange(gaps[i], x);
      }
      if InRange(gaps[n], x) {
        forall i | 0 <= i < n ensures !InRange(before[i], x) {
          assert gaps[i].hi < gaps[n].lo;
        }
      }
      forall k | 0 <= k < |gaps| && InRange(gaps[k], x) ensures Times(Appended(gaps, ttl), x) == |gaps| - k {
        assert k < n ==> InRange(before[k], x);
      }
    }
  }

  /** Numbers wait once exactly as long as no arrival leaves more than one gap. */
  lemma OnceIffOneGap(q: seq<Fresh>, gaps: seq<Range>, ttl: int)
    requires Once(q) && Ascending(gaps) && forall x :: Covers(gaps, x) ==> Times(q, x) == 0
    ensures Once(q + Appended(gaps, ttl)) <==> |gaps| <= 1
  {
    forall x ensures Times(q + Appended(gaps, ttl), x) == Times(q, x) + Times(Appended(gaps, ttl), x) {
      TimesOfTwo(q, Appended(gaps, ttl), x);
    }
    if |gaps| > 1 {
      AppendedCount(gaps, ttl, gaps[0].lo);
      assert InRange(gaps[0], gaps[0].lo);
      assert Times(q + Appended(gaps, ttl), gaps[0].lo) >= 2;
    } else {
      forall x ensures Times(q + Appended(gaps, ttl), x) <= 1 {
        AppendedCount(gaps, ttl, x);
        if Covers(gaps, x) {
          var k :| 0 <= k < |gaps| && InRange(gaps[k], x);
        }
      }
    }
  }

  /** Up to 4 everything has come; then the filter gives out 7 and 10. The gap before 7 is recorded twice, so that 5, when
      it comes after all, goes on waiting, and is reported as lost once its time is up. */
  lemma ArrivedAndStillReported(ttl: nat)
    ensures var q := Appended([Range(5, 6), Range(8, 9)], ttl);
      q == [Fresh(5, 6, ttl), Fresh(5, 6, ttl), Fresh(8, 9, ttl)] && !Once(q)
      && Without(q, 5) == [Fresh(6, 6, ttl), Fresh(5, 6, ttl), Fresh(8, 9, ttl)] && Times(Without(q, 5), 5) == 1
  {
    var gaps := [Range(5, 6), Range(8, 9)];
    assert gaps[..1] == [Range(5, 6)] && gaps[..1][..0] == [];
    assert Appended(gaps[..1], ttl) == [Fresh(5, 6, ttl)];
    var q := [Fresh(5, 6, ttl), Fresh(5, 6, ttl), Fresh(8, 9, ttl)];
    assert Appended(gaps, ttl) == q;
    var two, last := [Fresh(5, 6, ttl), Fresh(8, 9, ttl)], [Fresh(8, 9, ttl)];
    assert q[1..] == two && two[1..] == last && last[1..] == [] && Times([], 5) == 0;
    assert Times(last, 5) == Times(last[1..], 5);
    assert Times(two, 5) == 1 + Times(two[1..], 5);
    assert Times(q, 5) == 1 + Times(q[1..], 5) == 2;
    var t := [Fresh(6, 6, ttl), Fresh(5, 6, ttl), Fresh(8, 9, ttl)];
    assert Without(q, 5) == t;
    assert t[1..] == q[1..] && Times(t, 5) == 1;
  }
}
