/** Messages that may be delivered before what comes ahead of them: each is found as soon as it is complete, and none is
    ever delivered twice. Places are counted from the beginning of the stream, so that they stay when the buffer moves on. */
module OutOfOrder {
  import opened Options
  import opened Arithmetic
  import opened SendBuffer
  import opened ReceiveBuffer
  import opened Messages

  // ---------- what the scan finds ----------

  /** A complete good message in the slots a to e: it begins with the only first chunk and ends with the only last one. */
  ghost predicate Complete(units: seq<Option<Unit>>, a: nat, e: nat) {
    a <= e < |units| && OneRun(units, a, e + 1) && units[e].value.chunk.last
    && forall k :: a <= k < e ==> !units[k].value.chunk.last
  }

  /** It may be delivered: it is acknowledged as a whole, or may come out of order. */
  ghost predicate MayCome(units: seq<Option<Unit>>, acked: nat, a: nat, e: nat) {
    Complete(units, a, e) && (e < acked || !units[e].value.chunk.inorder)
  }

  /** When there is a message that may be delivered, one is found, and none that ends later. */
  lemma {:induction false} FindsOne(units: seq<Option<Unit>>, acked: nat, n: nat, p: int, q: nat, a: nat, e: nat)
    requires MayCome(units, acked, a, e) && e < n <= |units| && (q <= a || (q <= e && p == a))
    ensures var r := Find(units, acked, n, p, q); r.found && r.q <= e && (r.q == e ==> r.p == a)
    decreases n - q
  {
    var good := IsGood(units[q]);
    var p' := if !good then -1 else if units[q].value.chunk.first then q else p;
    if !(good && units[q].value.chunk.last && p' != -1 && (q < acked || !units[q].value.chunk.inorder)) {
      FindsOne(units, acked, n, p', q + 1, a, e);
    }
  }

  lemma {:induction false} MessageRuns(b: Slots, a: nat, e: nat, i: nat)
    requires Complete(b.units, a, e) && b.acked <= |b.units| && a <= i <= e
    ensures Runs(b.units, i, b.acked)
    decreases e - i
  {
    if i < b.acked && i < e {
      MessageRuns(b, a, e, i + 1);
    }
  }

  /** What is skipped at the front never reaches into a complete message, acknowledged or not. */
  lemma {:induction false} NeverSkipped(b: Slots, a: nat, e: nat)
    requires Complete(b.units, a, e) && b.acked <= |b.units|
    ensures b.acked - Skip(b).acked <= a
    decreases b.acked
  {
    if b.acked > 0 && !StartsWell(b) {
      if a == 0 {
        MessageRuns(b, 0, e, 0);
        assert false;
      }
      var d := Popped(b, 1, b.notch);
      assert forall k :: 0 <= k < |b.units| - 1 ==> d.units[k] == b.units[k + 1];
      NeverSkipped(d, a - 1, e - 1);
    }
  }

  lemma {:induction false} SkipIs(b: Slots)
    requires b.acked <= |b.units|
    ensures Skip(b) == Popped(b, b.acked - Skip(b).acked, b.notch)
    decreases b.acked
  {
    if b.acked == 0 || StartsWell(b) {
      assert Popped(b, 0, b.notch) == b;
    } else {
      var d := Popped(b, 1, b.notch);
      SkipIs(d);
      PoppedTwice(b, d.acked - Skip(d).acked);
    }
  }

  // ---------- reading, with places counted from the beginning ----------

  /** One message delivered: the places of its first and last chunk, and what was returned. */
  datatype Delivery = Delivery(lo: int, hi: int, data: Bytes)

  /** The buffer, the place of its first slot, and the messages delivered so far. */
  datatype Shelf = Shelf(b: Slots, base: int, got: seq<Delivery>)

  function At(v: Shelf, x: int): Option<Unit> {
    if 0 <= x - v.base < |v.b.units| then v.b.units[x - v.base] else None
  }

  /** What is skipped at the front. */
  function Skipped(v: Shelf): (c: Shelf)
    requires Bounded(v.b)
    ensures Bounded(c.b)
  {
    SkipBounded(v.b);
    Shelf(Skip(v.b), v.base + v.b.acked - Skip(v.b).acked, v.got)
  }

  /** Where a message is found then. */
  function Found(c: Shelf): (s: Scan)
    requires Bounded(c.b)
    ensures s.found ==> 0 <= s.p <= s.q < c.b.acked + c.b.maxPos
  {
    NeverAcrossAHole(c.b.units, c.b.acked, c.b.acked + c.b.maxPos, -1, 0);
    Find(c.b.units, c.b.acked, c.b.acked + c.b.maxPos, -1, 0)
  }

  function TakeFound(c: Shelf, s: Scan, len: nat): Shelf
    requires Bounded(c.b) && 0 <= s.p <= s.q < c.b.acked + c.b.maxPos
  {
    var (data, d) := ReadFound(c.b, s, len);
    Shelf(d, c.base + c.b.acked - d.acked, c.got + [Delivery(c.base + s.p, c.base + s.q, data)])
  }

  /** A read is a skip and then, if a message is found, taking that. */
  function Read(v: Shelf, len: nat): Shelf
    requires Bounded(v.b)
  {
    var c := Skipped(v);
    var s := Found(c);
    if s.found then TakeFound(c, s, len) else c
  }

  /** What the buffer returns, and what is left of it. */
  lemma ReadIsReadMsg(v: Shelf, len: nat)
    requires Bounded(v.b)
    ensures Read(v, len).b == ReadMsg(v.b, len).1
    ensures Found(Skipped(v)).found ==> |Read(v, len).got| == |v.got| + 1 && Read(v, len).got[|v.got|].data == ReadMsg(v.b, len).0
    ensures !Found(Skipped(v)).found ==> ReadMsg(v.b, len).0 == []
  {
    SkipBounded(v.b);
    if v.b.acked == 0 && v.b.maxPos == 0 {
      assert Skipped(v) == v && !Find(v.b.units, 0, 0, -1, 0).found;
    } else {
      assert ReadMsg(v.b, len) == ReadFrom(Skip(v.b), len);
    }
  }

  /** Between the two no place has changed, and some at the front are gone. */
  ghost predicate MovedOn(v: Shelf, w: Shelf) {
    v.base <= w.base && |w.b.units| == |v.b.units| && w.base + w.b.acked == v.base + v.b.acked && w.b.maxPos == v.b.maxPos
    && Bounded(v.b) && Bounded(w.b)
  }

  ghost predicate SamePlaces(v: Shelf, w: Shelf) {
    forall x :: w.base <= x < v.base + |v.b.units| ==> At(w, x) == At(v, x)
  }

  /** The message was good, is returned as far as there is room, and its chunks are gone or marked. All other places
      behind the new front are as they were. */
  ghost predicate Takes(v: Shelf, w: Shelf, d: Delivery, len: nat) {
    v.base <= d.lo <= d.hi < v.base + |v.b.units| && (forall x :: d.lo <= x <= d.hi ==> IsGood(At(v, x)))
    && d.data == Taken(Spelled(v.b.units[d.lo - v.base..d.hi + 1 - v.base]), len)
    && forall x :: w.base <= x < v.base + |v.b.units| ==> At(w, x) == if d.lo <= x <= d.hi then Passed(At(v, x)) else At(v, x)
  }

  lemma SkipMovesOn(v: Shelf)
    requires Bounded(v.b)
    ensures MovedOn(v, Skipped(v)) && SamePlaces(v, Skipped(v)) && Skipped(v).got == v.got
  {
    SkipBounded(v.b);
    SkipIs(v.b);
    var c := Skipped(v);
    var k := c.base - v.base;
    assert c.b.units == v.b.units[k..] + Empty(k);
    forall x | c.base <= x < v.base + |v.b.units| ensures At(c, x) == At(v, x) {
      assert c.b.units[x - c.base] == v.b.units[k + (x - c.base)];
    }
  }

  lemma FoundIsGood(c: Shelf)
    requires Bounded(c.b)
    ensures var s := Found(c); s.found ==> OneRun(c.b.units, s.p, s.q + 1) && c.b.units[s.q].value.chunk.last
  {
    NeverAcrossAHole(c.b.units, c.b.acked, c.b.acked + c.b.maxPos, -1, 0);
  }

  lemma TakeFoundIs(c: Shelf, s: Scan, len: nat)
    requires Bounded(c.b) && 0 <= s.p <= s.q < c.b.acked + c.b.maxPos && OneRun(c.b.units, s.p, s.q + 1)
    ensures MovedOn(c, TakeFound(c, s, len)) && Takes(c, TakeFound(c, s, len), Last(TakeFound(c, s, len)), len)
    ensures Last(TakeFound(c, s, len)).lo == c.base + s.p && Last(TakeFound(c, s, len)).hi == c.base + s.q
  {
    var w := TakeFound(c, s, len);
    TakeFoundPlaces(c, s, len);
    assert Last(w) == Delivery(c.base + s.p, c.base + s.q, Taken(Spelled(c.b.units[s.p..s.q + 1]), len));
    assert c.b.units[s.p..s.q + 1] == c.b.units[Last(w).lo - c.base..Last(w).hi + 1 - c.base];
    forall x | c.base + s.p <= x <= c.base + s.q ensures IsGood(At(c, x)) {
      assert IsGood(c.b.units[x - c.base]);
    }
  }

  lemma TakeFoundPlaces(c: Shelf, s: Scan, len: nat)
    requires Bounded(c.b) && 0 <= s.p <= s.q < c.b.acked + c.b.maxPos
    ensures var w := TakeFound(c, s, len);
      MovedOn(c, w) && forall x :: w.base <= x < c.base + |c.b.units| ==>
        At(w, x) == if c.base + s.p <= x <= c.base + s.q then Passed(At(c, x)) else At(c, x)
  {
    ReadFoundIs(c.b, s, len);
    var w := TakeFound(c, s, len);
    var gone := c.b.acked - w.b.acked;
    forall x | w.base <= x < c.base + |c.b.units|
      ensures At(w, x) == if c.base + s.p <= x <= c.base + s.q then Passed(At(c, x)) else At(c, x)
    {
      var i := x - w.base;
      assert w.b.units[i] == if s.p <= i + gone <= s.q then Passed(c.b.units[i + gone]) else c.b.units[i + gone];
    }
  }

  /** The message delivered last. */
  function Last(w: Shelf): Delivery
    requires w.got != []
  {
    w.got[|w.got| - 1]
  }

  lemma TakesAfterSkip(v: Shelf, c: Shelf, w: Shelf, d: Delivery, len: nat)
    requires MovedOn(v, c) && SamePlaces(v, c) && MovedOn(c, w) && Takes(c, w, d, len) && d.hi < c.base + c.b.acked + c.b.maxPos
    ensures MovedOn(v, w) && Takes(v, w, d, len)
  {
    assert SameBetween(v, c, d.lo, d.hi) by {
      SameStretch(v, c, d.lo, d.hi);
    }
  }

  /** The places from lo to hi are what they were. */
  ghost predicate SameBetween(v: Shelf, w: Shelf, lo: int, hi: int) {
    v.base <= lo <= hi < v.base + |v.b.units| && w.base <= lo && hi < w.base + |w.b.units|
    && w.b.units[lo - w.base..hi + 1 - w.base] == v.b.units[lo - v.base..hi + 1 - v.base]
  }

  lemma SameStretch(v: Shelf, w: Shelf, lo: int, hi: int)
    requires v.base <= lo <= hi < v.base + |v.b.units| && w.base <= lo && hi < w.base + |w.b.units|
    requires forall x :: lo <= x <= hi ==> At(w, x) == At(v, x)
    ensures SameBetween(v, w, lo, hi)
  {
    var a, b := w.b.units[lo - w.base..hi + 1 - w.base], v.b.units[lo - v.base..hi + 1 - v.base];
    forall i | 0 <= i < |a| ensures a[i] == b[i] {
      assert At(w, lo + i) == At(v, lo + i);
    }
  }

  /** What a read does, place by place. */
  lemma ReadIs(v: Shelf, len: nat)
    requires Bounded(v.b)
    ensures var w := Read(v, len);
      MovedOn(v, w) && if Found(Skipped(v)).found then w.got == v.got + [Last(w)] && Takes(v, w, Last(w), len)
                       else w.got == v.got && SamePlaces(v, w)
  {
    var c := Skipped(v);
    var s := Found(c);
    SkipMovesOn(v);
    if s.found {
      FoundIsGood(c);
      TakeFoundIs(c, s, len);
      TakesAfterSkip(v, c, Read(v, len), Last(Read(v, len)), len);
    }
  }

  /** The same for the message found, seen from the first slot. */
  lemma ReadFoundIs(c: Slots, s: Scan, len: nat)
    requires Bounded(c) && 0 <= s.p <= s.q < c.acked + c.maxPos
    ensures var d := ReadFound(c, s, len).1;
      var gone := c.acked - d.acked;
      |d.units| == |c.units| && 0 <= gone && (s.q < c.acked ==> gone == s.q + 1) && (s.q >= c.acked ==> gone == 0)
      && forall i :: 0 <= i < |c.units| - gone ==> d.units[i] == if s.p <= i + gone <= s.q then Passed(c.units[i + gone]) else c.units[i + gone]
  {
  }

  // ---------- never twice ----------

  /** Arrivals, acknowledgements and reads, in any order. */
  ghost predicate Step(v: Shelf, w: Shelf) {
    (exists u, offset :: Arrives(v, w, u, offset)) || (exists n :: Acknowledges(v, w, n)) || exists len :: Reads(v, w, len)
  }

  ghost predicate Arrives(v: Shelf, w: Shelf, u: Unit, offset: nat) {
    Bounded(v.b) && w == v.(b := AddData(v.b, u, offset).0)
  }

  ghost predicate Acknowledges(v: Shelf, w: Shelf, n: nat) {
    v.b.acked + n < |v.b.units| && w == v.(b := AckData(v.b, n))
  }

  ghost predicate Reads(v: Shelf, w: Shelf, len: nat) {
    Bounded(v.b) && w == Read(v, len)
  }

  ghost predicate IsRun(run: seq<Shelf>) {
    run != [] && run[0].got == [] && |run[0].b.units| > 0 && run[0].b == Slots(Empty(|run[0].b.units|), 0, 0, 0)
    && forall i :: 0 <= i < |run| - 1 ==> Step(run[i], run[i + 1])
  }

  /** A chunk that was delivered is behind the front, or still there but no longer good. */
  ghost predicate Used(v: Shelf, x: int) {
    x < v.base || (x < v.base + |v.b.units| && At(v, x).Some? && !IsGood(At(v, x)))
  }

  ghost predicate AllUsed(v: Shelf, d: Delivery) {
    forall x :: d.lo <= x <= d.hi ==> Used(v, x)
  }

  ghost predicate Apart(d: Delivery, e: Delivery) {
    d.hi < e.lo || e.hi < d.lo
  }

  ghost predicate Once(v: Shelf) {
    Bounded(v.b) && (forall i :: 0 <= i < |v.got| ==> v.got[i].lo <= v.got[i].hi && AllUsed(v, v.got[i]))
    && forall i, j :: 0 <= i < j < |v.got| ==> Apart(v.got[i], v.got[j])
  }

  lemma StepKeeps(v: Shelf, w: Shelf)
    requires Once(v) && Step(v, w)
    ensures Once(w)
  {
    if u, offset :| Arrives(v, w, u, offset) {
      ArriveKeeps(v, w, u, offset);
    } else if n :| Acknowledges(v, w, n) {
      SmallMod(v.b.acked + n, |v.b.units|);
      assert forall x :: Used(v, x) ==> Used(w, x);
    } else {
      var len :| Reads(v, w, len);
      ReadKeeps(v, w, len);
    }
  }

  lemma ArriveKeeps(v: Shelf, w: Shelf, u: Unit, offset: nat)
    requires Once(v) && Arrives(v, w, u, offset)
    ensures Once(w)
  {
    StaysBounded(v.b, u, offset, 0);
    forall x | Used(v, x) ensures Used(w, x) {
    }
  }

  lemma ReadKeeps(v: Shelf, w: Shelf, len: nat)
    requires Once(v) && Reads(v, w, len)
    ensures Once(w)
  {
    ReadIs(v, len);
    forall x | Used(v, x) ensures Used(w, x) {
    }
    if Found(Skipped(v)).found {
      var d := Last(w);
      forall x | d.lo <= x <= d.hi ensures Used(w, x) && !Used(v, x) {
        assert IsGood(At(v, x));
      }
      forall i | 0 <= i < |v.got| ensures Apart(v.got[i], d) {
        UsedApart(v, v.got[i], d);
      }
    }
  }

  lemma UsedApart(v: Shelf, d: Delivery, e: Delivery)
    requires d.lo <= d.hi && e.lo <= e.hi && AllUsed(v, d) && forall x :: e.lo <= x <= e.hi ==> !Used(v, x)
    ensures Apart(d, e)
  {
    if !Apart(d, e) {
      var x := if d.lo < e.lo then e.lo else d.lo;
      assert Used(v, x);
    }
  }

  /** In every run, whatever arrives again and whatever is read when, no chunk is delivered twice. */
  lemma {:induction false} NeverTwice(run: seq<Shelf>)
    requires IsRun(run)
    ensures Once(run[|run| - 1])
  {
    if |run| > 1 {
      NeverTwice(run[..|run| - 1]);
      StepKeeps(run[|run| - 2], run[|run| - 1]);
    }
  }

  // ---------- but once ----------

  /** How far the scan looks. */
  function Reach(v: Shelf): int {
    v.base + v.b.acked + v.b.maxPos
  }

  /** A chunk that is taken in is within reach, and no step makes the reach shorter. */
  lemma StaysInReach(v: Shelf, w: Shelf)
    requires Step(v, w)
    ensures Reach(v) <= Reach(w)
    ensures forall u, offset :: Arrives(v, w, u, offset) && AddData(v.b, u, offset).1 ==> v.base + v.b.acked + offset < Reach(w)
  {
    if n :| Acknowledges(v, w, n) {
      SmallMod(v.b.acked + n, |v.b.units|);
    } else if len :| Reads(v, w, len) {
      ReadIs(v, len);
    }
  }

  /** The chunks from place lo to hi are a complete message that may be delivered now. */
  ghost predicate Ready(v: Shelf, lo: int, hi: int) {
    Bounded(v.b) && v.base <= lo <= hi < v.base + v.b.acked + v.b.maxPos && MayCome(v.b.units, v.b.acked, lo - v.base, hi - v.base)
  }

  /** A read delivers that message, or one that ends before it; then it is still ready. */
  lemma ReadyOrRead(v: Shelf, lo: int, hi: int, len: nat)
    requires Ready(v, lo, hi)
    ensures var w := Read(v, len); MovedOn(v, w) && w.got != [] && w.got == v.got + [Last(w)] && Takes(v, w, Last(w), len)
    ensures var w := Read(v, len); var d := Last(w);
      if d.hi == hi then d.lo == lo else d.hi < lo && Ready(w, lo, hi) && SameBetween(v, w, lo, hi)
  {
    FindsReady(v, lo, hi);
    ReadIs(v, len);
    FoundIsGood(Skipped(v));
    TakeFoundIs(Skipped(v), Found(Skipped(v)), len);
    var w := Read(v, len);
    if Last(w).hi != hi {
      FrontBehind(v, w, lo, hi, len);
      ReadyThere(v, w, lo, hi);
    }
  }

  /** The front after a read is not beyond what was read. */
  lemma FrontBehind(v: Shelf, w: Shelf, lo: int, hi: int, len: nat)
    requires Bounded(v.b) && w == Read(v, len) && Found(Skipped(v)).found && Skipped(v).base + Found(Skipped(v)).q < lo && Skipped(v).base <= lo
    ensures w.base <= lo
  {
    FoundIsGood(Skipped(v));
    ReadFoundIs(Skipped(v).b, Found(Skipped(v)), len);
  }

  lemma FindsReady(v: Shelf, lo: int, hi: int)
    requires Ready(v, lo, hi)
    ensures var c := Skipped(v); var s := Found(c);
      c.base <= lo && s.found && if c.base + s.q == hi then c.base + s.p == lo else c.base + s.q < lo
  {
    var c := Skipped(v);
    SkipMovesOn(v);
    NeverSkipped(v.b, lo - v.base, hi - v.base);
    ReadyThere(v, c, lo, hi);
    FindsFirst(c, lo, hi);
  }

  lemma FindsFirst(c: Shelf, lo: int, hi: int)
    requires Ready(c, lo, hi)
    ensures var s := Found(c); s.found && if c.base + s.q == hi then c.base + s.p == lo else c.base + s.q < lo
  {
    FindsOne(c.b.units, c.b.acked, c.b.acked + c.b.maxPos, -1, 0, lo - c.base, hi - c.base);
    FoundIsGood(c);
    if c.base + Found(c).q != hi {
      EndsBefore(c.b.units, Found(c), lo - c.base, hi - c.base);
    }
  }

  lemma EndsBefore(units: seq<Option<Unit>>, s: Scan, a: nat, e: nat)
    requires Complete(units, a, e) && s.q < e && s.q < |units| && units[s.q].Some? && units[s.q].value.chunk.last
    ensures s.q < a
  {
  }

  lemma ReadyThere(v: Shelf, w: Shelf, lo: int, hi: int)
    requires Ready(v, lo, hi) && MovedOn(v, w) && w.base <= lo && forall x :: lo <= x <= hi ==> At(w, x) == At(v, x)
    ensures Ready(w, lo, hi) && SameBetween(v, w, lo, hi)
  {
    SameStretch(v, w, lo, hi);
    CompleteThere(v.b.units, lo - v.base, hi - v.base, w.b.units, lo - w.base, hi - w.base);
  }

  lemma CompleteThere(units: seq<Option<Unit>>, a: nat, e: nat, units': seq<Option<Unit>>, a': nat, e': nat)
    requires Complete(units, a, e) && e' < |units'| && a' <= e' && units'[a'..e' + 1] == units[a..e + 1]
    ensures Complete(units', a', e') && units'[e'] == units[e]
  {
    forall k | a' <= k <= e' ensures units'[k] == units[k - a' + a] {
      assert units'[k] == units'[a'..e' + 1][k - a'];
    }
  }

  // ---------- reading on ----------

  ghost function ReadOn(v: Shelf, len: nat, calls: nat): Shelf
    decreases calls
  {
    if calls == 0 || !Bounded(v.b) then v else ReadOn(Read(v, len), len, calls - 1)
  }

  /** The places before the message that can still hold a good chunk. */
  ghost function GoodBefore(v: Shelf, lo: int): set<int> {
    set x | v.base <= x < lo && IsGood(At(v, x))
  }

  /** Whatever else is there to be read first, the message is delivered after at most as many reads as there are good chunks
      before it, and one more; and it is returned as it stands, as far as there is room. */
  lemma {:induction false} IsDelivered(v: Shelf, lo: int, hi: int, len: nat)
    requires Ready(v, lo, hi)
    ensures exists n: nat :: n <= |GoodBefore(v, lo)| && DeliversAt(v, len, n, DeliveryOf(v, lo, hi, len))
    decreases |GoodBefore(v, lo)|
  {
    ReadyOrRead(v, lo, hi, len);
    var w := Read(v, len);
    var d := Last(w);
    if d.hi == hi {
      DeliversNow(v, len, DeliveryOf(v, lo, hi, len));
    } else {
      FewerBefore(v, w, d, lo, len);
      IsDelivered(w, lo, hi, len);
      var n: nat :| n <= |GoodBefore(w, lo)| && DeliversAt(w, len, n, DeliveryOf(w, lo, hi, len));
      DeliversLater(v, len, n, DeliveryOf(v, lo, hi, len));
    }
  }

  /** Read number n returns that message. */
  ghost predicate DeliversAt(v: Shelf, len: nat, n: nat, d: Delivery) {
    ReadOn(v, len, n + 1).got == ReadOn(v, len, n).got + [d]
  }

  lemma DeliversNow(v: Shelf, len: nat, d: Delivery)
    requires Bounded(v.b) && Read(v, len).got == v.got + [d]
    ensures DeliversAt(v, len, 0, d)
  {
    assert ReadOn(v, len, 1) == ReadOn(Read(v, len), len, 0);
  }

  lemma DeliversLater(v: Shelf, len: nat, n: nat, d: Delivery)
    requires Bounded(v.b) && DeliversAt(Read(v, len), len, n, d)
    ensures DeliversAt(v, len, n + 1, d)
  {
    assert ReadOn(v, len, n + 1) == ReadOn(Read(v, len), len, n);
    assert ReadOn(v, len, n + 1 + 1) == ReadOn(Read(v, len), len, n + 1);
  }

  ghost function DeliveryOf(v: Shelf, lo: int, hi: int, len: nat): Delivery
    requires v.base <= lo <= hi < v.base + |v.b.units|
  {
    Delivery(lo, hi, Taken(Spelled(v.b.units[lo - v.base..hi + 1 - v.base]), len))
  }

  lemma FewerBefore(v: Shelf, w: Shelf, d: Delivery, lo: int, len: nat)
    requires MovedOn(v, w) && Takes(v, w, d, len) && d.hi < lo <= v.base + |v.b.units|
    ensures |GoodBefore(w, lo)| < |GoodBefore(v, lo)|
  {
    assert d.lo in GoodBefore(v, lo);
    forall x | x in GoodBefore(w, lo) ensures x in GoodBefore(v, lo) - {d.lo} {
      assert At(w, x) == if d.lo <= x <= d.hi then Passed(At(v, x)) else At(v, x);
    }
    SubsetSize(GoodBefore(w, lo), GoodBefore(v, lo) - {d.lo});
  }
}
