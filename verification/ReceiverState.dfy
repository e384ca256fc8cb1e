/** The receiver's side of reliable delivery as a value: the receive buffer, the acknowledged and the latest received
    sequence numbers, and the loss list; and what each step of the receiver keeps. */
module ReceiverState {
  import opened Options
  import opened SendBuffer
  import opened ReceiveBuffer
  import opened LossRanges

  /** `ack` is the sequence number that the first slot after the acknowledged ones stands for, and the number last
      acknowledged; `curr` the highest number received; `ackAck` the acknowledgement that the sender last confirmed. */
  datatype Rcv = Rcv(buf: Slots, ack: int, curr: int, loss: set<int>, ackAck: int)

  /** The sequence number that slot k stands for. */
  function NumberAt(r: Rcv, k: int): int {
    r.ack - r.buf.acked + k
  }

  ghost predicate Holds(r: Rcv, k: int) {
    0 <= k < |r.buf.units| ==>
      var x := NumberAt(r, k);
      if k < r.buf.acked || (x <= r.curr && x !in r.loss)
      then r.buf.units[k].Some? && r.buf.units[k].value.seqno == x && r.buf.units[k].value.flag == Good
      else r.buf.units[k].None?
  }

  /** Every number up to the highest received is either stored or in the loss list, and never both; slots and numbers
      correspond; nothing is stored beyond the highest, which is as far as the buffer reckons; and one slot is always
      free. */
  ghost predicate Covered(r: Rcv) {
    Readable(r.buf) && r.buf.acked + r.buf.maxPos < |r.buf.units|
    && r.ack <= r.curr + 1 && r.buf.maxPos == r.curr + 1 - r.ack
    && (forall k {:trigger Holds(r, k)} :: Holds(r, k))
    && (forall x :: x in r.loss ==> r.ack <= x < r.curr)
  }

  predicate Stored(r: Rcv, x: int) {
    var k := r.buf.acked + x - r.ack;
    0 <= k < |r.buf.units| && r.buf.units[k].Some? && r.buf.units[k].value.seqno == x
  }

  /** Coverage, number by number. */
  lemma StoredOrLost(r: Rcv, x: int)
    requires Covered(r) && r.ack - r.buf.acked <= x <= r.curr
    ensures Stored(r, x) <==> x !in r.loss
  {
    assert Holds(r, r.buf.acked + x - r.ack);
  }

  // ---------- data arrives ----------

  /** Where in the buffer the unit belongs is given, and fits. */
  predicate Fits(r: Rcv, u: Unit) {
    0 <= u.seqno - r.ack < Avail(r.buf)
  }

  /** One unit of those the packet filter gave out, or the only one without a filter. The numbers it skips go to the loss
      list later. */
  function TakeUnit(r: Rcv, u: Unit): Rcv
    requires Fits(r, u) && r.buf.acked < |r.buf.units|
  {
    var t := r.(buf := AddData(r.buf, u, u.seqno - r.ack).0);
    if u.seqno > r.curr then t.(curr := u.seqno) else t.(loss := r.loss - {u.seqno})
  }

  /** The same state with the numbers in `skipped` in the loss list. */
  function WithLost(r: Rcv, skipped: set<int>): Rcv {
    r.(loss := r.loss + skipped)
  }

  function SkippedBy(r: Rcv, u: Unit): set<int> {
    Numbers(r.curr + 1, u.seqno - 1)
  }

  /** A new unit is stored unless its number was stored before. */
  lemma NewIsAdded(r: Rcv, u: Unit)
    requires Covered(r) && Fits(r, u)
    ensures AddData(r.buf, u, u.seqno - r.ack).1 <==> u.seqno > r.curr || u.seqno in r.loss
  {
    assert Holds(r, r.buf.acked + u.seqno - r.ack);
  }

  /** A unit that fits keeps everything covered, once the numbers it skipped are in the loss list. What was skipped
      before in the same call comes before it. */
  lemma TakeUnitKeeps(r: Rcv, skipped: set<int>, u: Unit)
    requires Covered(WithLost(r, skipped)) && Fits(r, u) && u.seqno !in skipped
    ensures Covered(WithLost(TakeUnit(r, u), skipped + SkippedBy(r, u)))
  {
    var s, t := WithLost(r, skipped), WithLost(TakeUnit(r, u), skipped + SkippedBy(r, u));
    NewIsAdded(s, u);
    var at := r.buf.acked + u.seqno - r.ack;
    assert Holds(s, at);
    forall k ensures Holds(t, k) {
      assert Holds(s, k);
    }
    forall k | 0 <= k < t.buf.acked ensures t.buf.units[k].Some? {
      assert Holds(t, k);
    }
    assert t.buf.acked == 0 || t.buf.units[0] == s.buf.units[0];
  }

  /** How one arrival went: the state after the units that were taken, the numbers they skipped, whether none of them was
      new, and whether one of them lay beyond the buffer, at which point the call returns. */
  datatype Batch = Batch(r: Rcv, skipped: set<int>, excessive: bool, overflow: bool)

  function TakeUnits(r: Rcv, skipped: set<int>, excessive: bool, us: seq<Unit>): (b: Batch)
    requires r.buf.acked < |r.buf.units|
    ensures b.r.buf.acked < |b.r.buf.units|
    decreases |us|
  {
    if us == [] then Batch(r, skipped, excessive, false)
    else if us[0].seqno < r.ack then TakeUnits(r, skipped, excessive, us[1..])
    else if us[0].seqno - r.ack >= Avail(r.buf) then Batch(r, skipped, excessive, true)
    else
      var added := AddData(r.buf, us[0], us[0].seqno - r.ack).1;
      TakeUnits(TakeUnit(r, us[0]), skipped + SkippedBy(r, us[0]), excessive && !added, us[1..])
  }

  /** Receiving the packet that arrived, or what the filter made of it. The numbers skipped enter the loss list at the
      end - unless the call returned early. */
  function Arrival(r: Rcv, us: seq<Unit>): Rcv
    requires r.buf.acked < |r.buf.units|
  {
    var b := TakeUnits(r, {}, true, us);
    if b.overflow || b.excessive then b.r else WithLost(b.r, b.skipped)
  }

  ghost predicate Sorted(us: seq<Unit>) {
    forall i, j :: 0 <= i < j < |us| ==> us[i].seqno <= us[j].seqno
  }

  lemma {:induction false} TakeUnitsKeeps(r: Rcv, skipped: set<int>, excessive: bool, us: seq<Unit>)
    requires Covered(WithLost(r, skipped)) && Sorted(us) && (excessive ==> skipped == {})
    requires us != [] ==> forall x :: x in skipped ==> x < us[0].seqno
    ensures var b := TakeUnits(r, skipped, excessive, us);
      Covered(WithLost(b.r, b.skipped)) && (b.excessive ==> b.skipped == {})
    decreases |us|
  {
    if us != [] {
      var u, rest := us[0], us[1..];
      assert Sorted(rest) && (rest != [] ==> u.seqno <= rest[0].seqno);
      if u.seqno < r.ack {
        TakeUnitsKeeps(r, skipped, excessive, rest);
      } else if u.seqno - r.ack < Avail(r.buf) {
        NewIsAdded(WithLost(r, skipped), u);
        TakeUnitKeeps(r, skipped, u);
        TakeUnitsKeeps(TakeUnit(r, u), skipped + SkippedBy(r, u), excessive && !AddData(r.buf, u, u.seqno - r.ack).1, rest);
      }
    }
  }

  /** What taking units never touches, and how the highest number and the loss list may move. */
  lemma {:induction false} TakeUnitsShape(r: Rcv, skipped: set<int>, excessive: bool, us: seq<Unit>)
    requires r.buf.acked < |r.buf.units|
    ensures var t := TakeUnits(r, skipped, excessive, us).r;
      t.loss <= r.loss && t.ack == r.ack && r.curr <= t.curr && |t.buf.units| == |r.buf.units| && t.buf.acked == r.buf.acked
    decreases |us|
  {
    if us != [] {
      var u, rest := us[0], us[1..];
      if u.seqno < r.ack {
        TakeUnitsShape(r, skipped, excessive, rest);
      } else if u.seqno - r.ack < Avail(r.buf) {
        TakeUnitsShape(TakeUnit(r, u), skipped + SkippedBy(r, u), excessive && !AddData(r.buf, u, u.seqno - r.ack).1, rest);
      }
    }
  }

  /** Some unit lies beyond the buffer. */
  ghost predicate Overflows(r: Rcv, us: seq<Unit>) {
    exists i :: 0 <= i < |us| && us[i].seqno - r.ack >= Avail(r.buf)
  }

  ghost predicate AmongThem(us: seq<Unit>, x: int) {
    exists i :: 0 <= i < |us| && us[i].seqno == x
  }

  ghost predicate Jumped(r: Rcv, u: Unit, x: int) {
    Fits(r, u) && r.curr < x < u.seqno
  }

  /** x is new, some unit that fits comes after it, and no unit is x itself. */
  ghost predicate LeftOut(r: Rcv, us: seq<Unit>, x: int) {
    !AmongThem(us, x) && exists i :: 0 <= i < |us| && Jumped(r, us[i], x)
  }

  lemma {:induction false} SkippedAreLeftOut(r: Rcv, skipped: set<int>, excessive: bool, us: seq<Unit>)
    requires r.buf.acked < |r.buf.units| && Sorted(us) && r.ack <= r.curr + 1
    requires us != [] ==> forall x :: x in skipped ==> x < us[0].seqno
    ensures TakeUnits(r, skipped, excessive, us).overflow <==> Overflows(r, us)
    ensures forall x :: x in TakeUnits(r, skipped, excessive, us).skipped <==> x in skipped || LeftOut(r, us, x)
    decreases |us|
  {
    if us != [] {
      var u, rest := us[0], us[1..];
      assert forall i :: 0 <= i < |rest| ==> rest[i] == us[i + 1];
      assert Sorted(rest);
      if u.seqno < r.ack {
        SkippedAreLeftOut(r, skipped, excessive, rest);
        forall x ensures LeftOut(r, us, x) <==> LeftOut(r, rest, x) { LeftOutTail(r, r, us, x); }
        OverflowsTail(r, r, us);
      } else if u.seqno - r.ack >= Avail(r.buf) {
        forall x ensures !LeftOut(r, us, x) { }
      } else {
        var t := TakeUnit(r, u);
        SkippedAreLeftOut(t, skipped + SkippedBy(r, u), excessive && !AddData(r.buf, u, u.seqno - r.ack).1, rest);
        forall x ensures LeftOut(r, us, x) <==> x in SkippedBy(r, u) || LeftOut(t, rest, x) { LeftOutTail(r, t, us, x); }
        OverflowsTail(r, t, us);
      }
    }
  }

  predicate IsNew(r: Rcv, x: int) {
    x > r.curr || x in r.loss
  }

  /** No packet of an arrival brings anything that was not stored before. */
  ghost predicate NothingNew(r: Rcv, us: seq<Unit>) {
    forall i :: 0 <= i < |us| && us[i].seqno >= r.ack ==> !IsNew(r, us[i].seqno)
  }

  lemma {:induction false} StaysNotExcessive(r: Rcv, skipped: set<int>, us: seq<Unit>)
    requires r.buf.acked < |r.buf.units|
    ensures !TakeUnits(r, skipped, false, us).excessive
    decreases |us|
  {
    if us != [] && us[0].seqno < r.ack {
      StaysNotExcessive(r, skipped, us[1..]);
    } else if us != [] && us[0].seqno - r.ack < Avail(r.buf) {
      StaysNotExcessive(TakeUnit(r, us[0]), skipped + SkippedBy(r, us[0]), us[1..]);
    }
  }

  /** An arrival counts as excessive exactly when it brings nothing new. */
  lemma {:induction false} ExcessiveIsNothingNew(r: Rcv, skipped: set<int>, us: seq<Unit>)
    requires Covered(WithLost(r, skipped)) && !Overflows(r, us)
    ensures TakeUnits(r, skipped, true, us).excessive <==> NothingNew(WithLost(r, skipped), us)
    decreases |us|
  {
    if us != [] {
      var u, rest, s := us[0], us[1..], WithLost(r, skipped);
      assert us == [u] + rest;
      if u.seqno < r.ack {
        ExcessiveIsNothingNew(r, skipped, rest);
      } else {
        var t := TakeUnit(r, u);
        NewIsAdded(s, u);
        if IsNew(s, u.seqno) {
          StaysNotExcessive(t, skipped + SkippedBy(r, u), rest);
        } else {
          TakeUnitKeeps(r, skipped, u);
          OverflowsTail(r, t, us);
          assert WithLost(t, skipped + SkippedBy(r, u)).loss == s.loss && t.curr == r.curr;
          ExcessiveIsNothingNew(t, skipped + SkippedBy(r, u), rest);
        }
      }
    }
  }

  lemma OverflowsTail(r: Rcv, t: Rcv, us: seq<Unit>)
    requires us != [] && us[0].seqno - r.ack < Avail(r.buf) && t.ack == r.ack && Avail(t.buf) == Avail(r.buf)
    ensures Overflows(r, us) <==> Overflows(t, us[1..])
  {
    if Overflows(r, us) {
      var i :| 0 <= i < |us| && us[i].seqno - r.ack >= Avail(r.buf);
      assert us[1..][i - 1] == us[i];
    }
    if Overflows(t, us[1..]) {
      var i :| 0 <= i < |us[1..]| && us[1..][i].seqno - r.ack >= Avail(r.buf);
      assert us[i + 1] == us[1..][i];
    }
  }

  lemma LeftOutTail(r: Rcv, t: Rcv, us: seq<Unit>, x: int)
    requires us != [] && Sorted(us) && us[0].seqno - r.ack < Avail(r.buf) && r.ack <= r.curr + 1
    requires t.ack == r.ack && Avail(t.buf) == Avail(r.buf)
    requires t.curr == if us[0].seqno > r.curr then us[0].seqno else r.curr
    ensures LeftOut(r, us, x) <==> (Fits(r, us[0]) && x in SkippedBy(r, us[0])) || LeftOut(t, us[1..], x)
  {
    var rest := us[1..];
    assert AmongThem(us, x) <==> us[0].seqno == x || AmongThem(rest, x) by {
      if AmongThem(us, x) && us[0].seqno != x {
        var i :| 0 <= i < |us| && us[i].seqno == x;
        assert rest[i - 1] == us[i];
      }
      if AmongThem(rest, x) {
        var i :| 0 <= i < |rest| && rest[i].seqno == x;
        assert us[i + 1] == rest[i];
      }
    }
    if LeftOut(r, us, x) {
      var i :| 0 <= i < |us| && Jumped(r, us[i], x);
      if x > t.curr {
        assert Jumped(t, rest[i - 1], x);
      }
    }
    if LeftOut(t, rest, x) {
      var i :| 0 <= i < |rest| && Jumped(t, rest[i], x);
      assert Jumped(r, us[i + 1], x);
    }
    if Fits(r, us[0]) && x in SkippedBy(r, us[0]) {
      assert Jumped(r, us[0], x);
    }
  }

  /** Coverage survives an arrival exactly when the call does not return early with numbers still to be put into the loss
      list: that is, unless some unit lies beyond the buffer and the units before it leave numbers out. */
  lemma ArrivalKeepsIff(r: Rcv, us: seq<Unit>)
    requires Covered(r) && Sorted(us)
    ensures Covered(Arrival(r, us)) <==> !(Overflows(r, us) && exists x :: LeftOut(r, us, x))
    ensures Arrival(r, us).ack == r.ack && r.curr <= Arrival(r, us).curr
  {
    assert WithLost(r, {}) == r;
    TakeUnitsKeeps(r, {}, true, us);
    TakeUnitsShape(r, {}, true, us);
    SkippedAreLeftOut(r, {}, true, us);
    var b := TakeUnits(r, {}, true, us);
    if b.overflow && exists x :: LeftOut(r, us, x) {
      var x :| LeftOut(r, us, x);
      SkippedIsNeither(r, b, x);
    } else if b.overflow || b.excessive {
      if b.overflow {
        forall x ensures x !in b.skipped {
          assert x in b.skipped ==> LeftOut(r, us, x);
        }
      }
      assert b.skipped == {};
      assert WithLost(b.r, {}) == b.r;
    }
  }

  lemma SkippedIsNeither(r: Rcv, b: Batch, x: int)
    requires Covered(r) && Covered(WithLost(b.r, b.skipped)) && b.r.loss <= r.loss && x in b.skipped && x > r.curr
    ensures !Covered(b.r)
  {
    assert x !in b.r.loss;
    var k := b.r.buf.acked + x - b.r.ack;
    assert Holds(WithLost(b.r, b.skipped), k);
    assert !Holds(b.r, k);
  }

  /** Without a filter one packet arrives at a time, and coverage always survives. */
  lemma SingleArrivalKeeps(r: Rcv, u: Unit)
    requires Covered(r)
    ensures Covered(Arrival(r, [u]))
  {
    ArrivalKeepsIff(r, [u]);
    if Overflows(r, [u]) {
      forall x ensures !LeftOut(r, [u], x) { }
    }
  }

  /** What the filter may do: a packet that leaves numbers out, and with it one that lies beyond the buffer. */
  function GapAndOverflow(c: Chunk): seq<Unit> {
    [Unit(12, c, Good), Unit(20, c, Good)]
  }

  /** Then the numbers left out are forgotten: they are neither stored nor in the loss list, and the next acknowledgement
      covers them. */
  lemma LossForgotten(c: Chunk)
    ensures var r := Rcv(Slots(Empty(5), 0, 0, 0), 10, 9, {}, 10);
      var t := Arrival(r, GapAndOverflow(c));
      Covered(r) && !Covered(t) && LeftOut(r, GapAndOverflow(c), 10)
      && 10 !in t.loss && !Stored(t, 10) && IsNextAck(t, 13)
  {
    var r, us := Rcv(Slots(Empty(5), 0, 0, 0), 10, 9, {}, 10), GapAndOverflow(c);
    var t := TakeUnit(r, us[0]);
    assert us[1..] == [us[1]];
    assert TakeUnits(t, {} + SkippedBy(r, us[0]), false, us[1..]) == Batch(t, {} + SkippedBy(r, us[0]), false, true);
    assert TakeUnits(r, {}, true, us) == Batch(t, {} + SkippedBy(r, us[0]), false, true);
    assert Jumped(r, us[0], 10);
    assert us[1].seqno - r.ack >= Avail(r.buf);
    assert LeftOut(r, us, 10);
    ArrivalKeepsIff(r, us);
  }

  // ---------- acknowledgements ----------

  ghost predicate IsNextAck(r: Rcv, ack: int) {
    if r.loss == {} then ack == r.curr + 1 else IsSmallest(r.loss, ack)
  }

  function AckTo(r: Rcv, ack: int): Rcv
    requires |r.buf.units| > 0 && ack >= r.ack
  {
    r.(ack := ack, buf := if ack > r.ack then AckData(r.buf, ack - r.ack) else r.buf)
  }

  /** The next number to acknowledge never goes back - so the branch for that is never taken - and everything before it
      has been received. */
  lemma AckIsSafe(r: Rcv, ack: int)
    requires Covered(r) && IsNextAck(r, ack)
    ensures r.ack <= ack <= r.curr + 1
    ensures forall x :: r.ack <= x < ack ==> Stored(r, x)
  {
    forall x | r.ack <= x < ack ensures Stored(r, x) {
      assert Holds(r, r.buf.acked + x - r.ack);
    }
  }

  lemma AckToKeeps(r: Rcv, ack: int)
    requires Covered(r) && IsNextAck(r, ack)
    ensures r.ack <= ack && Covered(AckTo(r, ack))
    ensures AckTo(r, ack).buf.units == r.buf.units && NumberAt(AckTo(r, ack), 0) == NumberAt(r, 0)
    ensures AckTo(r, ack).buf.acked == r.buf.acked + (ack - r.ack) && AckTo(r, ack).buf.notch == r.buf.notch
  {
    AckIsSafe(r, ack);
    var t := AckTo(r, ack);
    AckedSum(r.buf.acked, ack - r.ack, |r.buf.units|);
    assert t.buf.acked == r.buf.acked + (ack - r.ack);
    forall k ensures Holds(t, k) {
      assert Holds(r, k);
    }
    forall k | 0 <= k < t.buf.acked ensures t.buf.units[k].Some? {
      assert Holds(t, k);
    }
  }

  lemma AckedSum(a: nat, n: nat, size: nat)
    requires a + n < size
    ensures (a + n) % size == a + n
  {
  }

  // ---------- the application reads ----------

  lemma ReadKeeps(r: Rcv, c: Slots, data: Bytes)
    requires Covered(r) && HasRead(r.buf, c, data)
    ensures Covered(r.(buf := c))
    ensures NumberAt(r.(buf := c), 0) == NumberAt(r, 0) + (r.buf.acked - c.acked)
  {
    var t := r.(buf := c);
    var n := r.buf.acked - c.acked;
    assert |c.units| == |r.buf.units|;
    forall k ensures Holds(t, k) {
      assert Holds(r, k + n);
    }
  }
}
