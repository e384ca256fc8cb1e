/** Loss records: a set of sequence numbers written as ranges, and the wire form of such ranges in a loss report. */
module LossRanges {
  import opened Arithmetic

  /** The range of sequence numbers from lo to hi, both included. */
  datatype Range = Range(lo: int, hi: int)

  predicate InRange(r: Range, x: int) {
    r.lo <= x <= r.hi
  }

  /** All the numbers from lo to hi. */
  function Numbers(lo: int, hi: int): (s: set<int>)
    ensures forall x :: x in s <==> lo <= x <= hi
  {
    set x | lo <= x <= hi && InRange(Range(lo, hi), x)
  }

  ghost predicate Covers(rs: seq<Range>, x: int) {
    exists i :: 0 <= i < |rs| && InRange(rs[i], x)
  }

  /** Sorted, disjoint, and with at least one number missing between any two ranges. */
  ghost predicate Canonical(rs: seq<Range>) {
    (forall i :: 0 <= i < |rs| ==> rs[i].lo <= rs[i].hi)
    && (forall i, j :: 0 <= i < j < |rs| ==> rs[i].hi + 1 < rs[j].lo)
  }

  ghost predicate IsSmallest(s: set<int>, x: int) {
    x in s && forall y :: y in s ==> x <= y
  }

  lemma {:induction false} HasSmallest(s: set<int>) returns (x: int)
    requires s != {}
    ensures IsSmallest(s, x)
  {
    var z := SomeElement(s);
    x := z;
    if s != {z} {
      x := HasSmallest(s - {z});
      if z < x {
        x := z;
      }
      forall y | y in s ensures x <= y {
        if y != z {
          assert y in s - {z};
        }
      }
    }
  }

  /** The next element in the order in which a sorted set is walked. */
  method Smallest(s: set<int>) returns (x: int)
    requires s != {}
    ensures IsSmallest(s, x)
  {
    ghost var m := HasSmallest(s);
    x :| x in s && forall y :: y in s ==> x <= y;
  }

  /** One pass in ascending order; a range ends where the next number is not its successor. */
  method TranslateLossRecords(loss: set<int>) returns (irrecover: seq<Range>)
    ensures Canonical(irrecover)
    ensures forall x :: x in loss <==> Covers(irrecover, x)
  {
    irrecover := [];
    if loss == {} {
      return;
    }
    var start := Smallest(loss);
    var end := start;
    var rest := loss - {start};
    forall x ensures x in loss - rest <==> Covers(irrecover + [Range(start, end)], x) {
      CoversAppend(irrecover, Range(start, end), x);
    }
    while rest != {}
      invariant rest <= loss && start <= end && (forall y :: y in rest ==> end < y)
      invariant Canonical(irrecover + [Range(start, end)])
      invariant forall x :: x in loss - rest <==> Covers(irrecover + [Range(start, end)], x)
    {
      var next := Smallest(rest);
      ghost var before, doneBefore := irrecover + [Range(start, end)], loss - rest;
      rest := rest - {next};
      if next - end == 1 {
        end := end + 1;
        ExtendLast(irrecover, start, end - 1);
      } else {
        irrecover := irrecover + [Range(start, end)];
        start, end := next, next;
        assert irrecover == before;
      }
      forall x ensures x in loss - rest <==> Covers(irrecover + [Range(start, end)], x) {
        CoversAppend(irrecover, Range(start, end), x);
        CoversAppend(before[..|before| - 1], before[|before| - 1], x);
        assert before == before[..|before| - 1] + [before[|before| - 1]];
        assert x in loss - rest <==> x in doneBefore || x == next;
        if irrecover != before {
          assert before[..|before| - 1] == irrecover;
        }
      }
    }
    irrecover := irrecover + [Range(start, end)];
  }

  lemma CoversAppend(rs: seq<Range>, r: Range, x: int)
    ensures Covers(rs + [r], x) <==> Covers(rs, x) || InRange(r, x)
  {
    var all := rs + [r];
    if Covers(rs, x) {
      var i :| 0 <= i < |rs| && InRange(rs[i], x);
      assert all[i] == rs[i];
    }
    if InRange(r, x) {
      assert all[|rs|] == r;
    }
  }

  lemma ExtendLast(rs: seq<Range>, start: int, end: int)
    requires Canonical(rs + [Range(start, end)])
    ensures Canonical(rs + [Range(start, end + 1)])
  {
    var a, b := rs + [Range(start, end)], rs + [Range(start, end + 1)];
    forall i, j | 0 <= i < j < |b| ensures b[i].hi + 1 < b[j].lo {
      assert a[i].hi + 1 < a[j].lo;
    }
    forall i | 0 <= i < |b| ensures b[i].lo <= b[i].hi {
      assert a[i].lo <= a[i].hi;
    }
  }
}
