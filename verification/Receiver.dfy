/** The receiver: the receive buffer together with the sequence numbers and the loss list of a connection. Every method
    is one step of ReceiverState. */
module Receiver {
  import opened Options
  import opened SendBuffer
  import opened ReceiveBuffer
  import opened LossRanges
  import opened ReceiverState

  class Receiver {
    const buf: ReceiveBuffer
    var lastAck: int
    var lastSkipAck: int
    var currSeq: int
    var loss: set<int>
    var lastAckAck: int

    ghost predicate Wellformed()
      reads this, buf, buf.units
    {
      buf.Valid() && lastSkipAck == lastAck && buf.TheSlots().acked < buf.units.Length
    }

    ghost function State(): Rcv
      requires buf.Valid()
      reads this, buf, buf.units
    {
      Rcv(buf.TheSlots(), lastAck, currSeq, loss, lastAckAck)
    }

    ghost predicate Valid()
      reads this, buf, buf.units
    {
      Wellformed() && Covered(State())
    }

    constructor (isn: int, size: nat)
      requires size > 0
      ensures Valid() && fresh(buf) && fresh(buf.units)
      ensures State() == Rcv(Slots(Empty(size), 0, 0, 0), isn, isn - 1, {}, isn)
    {
      buf := new ReceiveBuffer(size);
      lastAck, lastSkipAck, currSeq, loss, lastAckAck := isn, isn, isn - 1, {}, isn;
    }

    /** Takes the packets of one arrival - one packet, or what the filter gave out, in the order of their numbers - and
        returns the ranges of numbers found missing. -1 says that nothing new came, or that a packet lay beyond the
        buffer; in the latter case what was found missing before is forgotten. */
    method ProcessData(incoming: seq<Unit>) returns (rc: int, lossSeqs: seq<Range>)
      requires Valid() && Sorted(incoming)
      modifies this`currSeq, this`loss, buf`maxPos, buf.units
      ensures Wellformed() && State() == Arrival(old(State()), incoming)
      ensures Valid() <==> !(Overflows(old(State()), incoming) && exists x :: LeftOut(old(State()), incoming, x))
      ensures rc == if old(NothingNew(State(), incoming) || Overflows(State(), incoming)) then -1 else 0
      ensures rc == 0 ==> forall x :: Covers(lossSeqs, x) <==> LeftOut(old(State()), incoming, x)
      ensures NoneUpsideDown(lossSeqs)
    {
      ghost var r := State();
      ArrivalKeepsIff(r, incoming);
      SkippedAreLeftOut(r, {}, true, incoming);
      if !Overflows(r, incoming) {
        assert WithLost(r, {}) == r;
        ExcessiveIsNothingNew(r, {}, incoming);
      }
      var overflow, excessive;
      ghost var skipped;
      overflow, excessive, lossSeqs, skipped := TakeAll(incoming);
      if overflow || excessive {
        return -1, lossSeqs;
      }
      InsertLosses(lossSeqs, skipped);
      rc := 0;
    }

    method TakeAll(incoming: seq<Unit>)
      returns (overflow: bool, excessive: bool, lossSeqs: seq<Range>, ghost skipped: set<int>)
      requires Valid() && Sorted(incoming)
      modifies this`currSeq, this`loss, buf`maxPos, buf.units
      ensures Wellformed() && TakeUnits(old(State()), {}, true, incoming) == Batch(State(), skipped, excessive, overflow)
      ensures Lists(lossSeqs, skipped)
    {
      lossSeqs, skipped, excessive, overflow := [], {}, true, false;
      assert WithLost(State(), {}) == State();
      ghost var rest, b := incoming, TakeUnits(State(), {}, true, incoming);
      for i := 0 to |incoming|
        invariant Wellformed() && rest == incoming[i..] && Midway(b, State(), skipped, excessive, rest)
        invariant Lists(lossSeqs, skipped)
      {
        var u := incoming[i];
        assert rest[0] == u && rest[1..] == incoming[i + 1..];
        MidwayStep(b, State(), skipped, excessive, rest);
        var offset := u.seqno - lastSkipAck;
        if offset >= buf.AvailSize() {
          overflow := true;
          return;
        }
        if offset >= 0 {
          excessive, lossSeqs, skipped := TakeOne(u, excessive, lossSeqs, skipped, b, rest);
        }
        rest := rest[1..];
      }
    }

    /** Takes one unit that fits, and notes the numbers it skips. */
    method TakeOne(u: Unit, excessive: bool, ranges: seq<Range>, ghost skipped: set<int>, ghost b: Batch, ghost rest: seq<Unit>)
      returns (excessive': bool, lossSeqs: seq<Range>, ghost skipped': set<int>)
      requires Wellformed() && Lists(ranges, skipped) && Midway(b, State(), skipped, excessive, rest)
      requires rest != [] && rest[0] == u && Fits(State(), u)
      modifies this`currSeq, this`loss, buf`maxPos, buf.units
      ensures Wellformed() && Lists(lossSeqs, skipped') && Midway(b, State(), skipped', excessive', rest[1..])
      ensures lastSkipAck == old(lastSkipAck) && buf.AvailSize() == old(buf.AvailSize())
    {
      MidwayStep(b, State(), skipped, excessive, rest);
      skipped' := skipped + SkippedBy(State(), u);
      var first := currSeq + 1;
      var added := StoreOne(u, skipped);
      lossSeqs := NoteSkipped(ranges, added, first, u.seqno - 1, skipped);
      excessive' := excessive && !added;
    }

    /** Stores one unit that fits, and moves the highest number or the loss list. */
    method StoreOne(u: Unit, ghost skipped: set<int>) returns (added: bool)
      requires Wellformed() && Covered(WithLost(State(), skipped)) && Fits(State(), u) && u.seqno !in skipped
      modifies this`currSeq, this`loss, buf`maxPos, buf.units
      ensures Wellformed() && State() == TakeUnit(old(State()), u)
      ensures added == AddData(old(buf.TheSlots()), u, u.seqno - old(lastAck)).1 && (u.seqno > old(currSeq) ==> added)
    {
      NewIsAdded(WithLost(State(), skipped), u);
      added := buf.AddUnit(u, u.seqno - lastSkipAck);
      if u.seqno > currSeq {
        currSeq := u.seqno;
      } else {
        loss := loss - {u.seqno};
      }
    }

    method NoteSkipped(ranges: seq<Range>, added: bool, first: int, last: int, ghost skipped: set<int>) returns (lossSeqs: seq<Range>)
      requires Lists(ranges, skipped) && (last >= first ==> added)
      ensures Lists(lossSeqs, skipped + Numbers(first, last))
    {
      lossSeqs := ranges;
      ListsMore(ranges, skipped, first, last);
      if added && last >= first {
        lossSeqs := lossSeqs + [Range(first, last)];
      }
    }

    method InsertLosses(lossSeqs: seq<Range>, ghost skipped: set<int>)
      requires Lists(lossSeqs, skipped)
      modifies this`loss
      ensures loss == old(loss) + skipped
    {
      for i := 0 to |lossSeqs|
        invariant forall x :: x in loss <==> x in old(loss) || Covers(lossSeqs[..i], x)
      {
        assert lossSeqs[..i + 1] == lossSeqs[..i] + [lossSeqs[i]];
        forall x ensures Covers(lossSeqs[..i + 1], x) <==> Covers(lossSeqs[..i], x) || InRange(lossSeqs[i], x) {
          CoversAppend(lossSeqs[..i], lossSeqs[i], x);
        }
        loss := loss + Numbers(lossSeqs[i].lo, lossSeqs[i].hi);
      }
      assert lossSeqs[..|lossSeqs|] == lossSeqs;
      forall x ensures x in loss <==> x in old(loss) + skipped {
        assert Covers(lossSeqs, x) == Covers(lossSeqs[..|lossSeqs|], x);
      }
    }

    /** Sends an acknowledgement, or decides not to. A full one releases what it covers to the application. What is sent
        never goes back, and everything before it has been received. */
    method SendAck(lite: bool, recent: bool) returns (sent: Option<int>)
      requires Valid()
      modifies this`lastAck, this`lastSkipAck, buf`lastAckPos, buf`maxPos
      ensures Valid() && old(lastAck) <= lastAck
      ensures exists ack :: IsNextAck(old(State()), ack) && Acknowledged(old(State()), ack, lite, recent, State(), sent)
      ensures sent.Some? ==> lastAck <= sent.value <= currSeq + 1 && old(lastAck) <= sent.value
      ensures sent.Some? ==> forall x :: NumberAt(State(), 0) <= x < sent.value ==> Stored(State(), x)
      ensures sent.None? && !lite && !recent ==> lastAck <= lastAckAck
    {
      ghost var r := State();
      var ack := currSeq + 1;
      if loss != {} {
        ack := Smallest(loss);
      }
      AckIsSafe(r, ack);
      AckToKeeps(r, ack);
      AllStoredBelow(r, ack);
      assert IsNextAck(r, ack);
      if lastAckAck == ack {
        return None;
      }
      if lite {
        return Some(ack);
      }
      if ack > lastAck {
        var acksize := ack - lastSkipAck;
        lastAck, lastSkipAck := ack, ack;
        if acksize > 0 {
          buf.Ack(acksize);
        }
        assert State() == AckTo(r, ack);
      } else if ack == lastAck {
        if recent {
          return None;
        }
      } else {
        assert false;
      }
      AllStoredBelow(State(), ack);
      sent := if lastAck > lastAckAck then Some(lastAck) else None;
    }

    /** The sender has confirmed an acknowledgement. */
    method ProcessAckAck(ack: int)
      requires Valid()
      modifies this`lastAckAck
      ensures Valid() && State() == old(State()).(ackAck := if ack > old(lastAckAck) then ack else old(lastAckAck))
    {
      ghost var r := State();
      if ack > lastAckAck {
        lastAckAck := ack;
      }
      SameCovered(r, State());
    }

    /** The application reads: what it gets is what was acknowledged and not yet read, in order and without a hole. */
    method Recv(len: nat, due: Unit -> bool) returns (data: Bytes)
      requires Valid()
      modifies buf`startPos, buf`notch, buf.units
      ensures Valid() && HasRead(old(State()).buf, State().buf, data) && |data| <= len
      ensures State() == old(State()).(buf := State().buf)
      ensures OnlyDue(old(State()).buf, State().buf, due)
      ensures |data| == len || |data| == |old(Waiting(State().buf))| || !due(State().buf.units[0].value)
    {
      ghost var r := State();
      data := buf.ReadBuffer(len, due);
      ReadKeeps(r, buf.TheSlots(), data);
    }
  }

  predicate NoneUpsideDown(rs: seq<Range>) {
    forall i :: 0 <= i < |rs| ==> rs[i].lo <= rs[i].hi
  }

  /** The ranges list exactly the numbers of the set. */
  ghost predicate Lists(rs: seq<Range>, s: set<int>) {
    NoneUpsideDown(rs) && forall x :: x in s <==> Covers(rs, x)
  }

  lemma ListsMore(rs: seq<Range>, s: set<int>, lo: int, hi: int)
    requires Lists(rs, s)
    ensures Lists(if lo <= hi then rs + [Range(lo, hi)] else rs, s + Numbers(lo, hi))
  {
    forall x ensures Covers(rs + [Range(lo, hi)], x) <==> Covers(rs, x) || lo <= x <= hi {
      CoversAppend(rs, Range(lo, hi), x);
    }
  }

  /** What becomes of the state, and what is sent, when the next acknowledgement is `ack`: nothing if the sender has
      confirmed that one, a lite one leaves the state alone, and a full one is not repeated too soon. */
  ghost predicate Acknowledged(r: Rcv, ack: int, lite: bool, recent: bool, t: Rcv, sent: Option<int>)
    requires |r.buf.units| > 0
  {
    if r.ackAck == ack then t == r && sent == None
    else if lite then t == r && sent == Some(ack)
    else if ack > r.ack then t == AckTo(r, ack) && sent == if ack > r.ackAck then Some(ack) else None
    else t == r && sent == if !recent && r.ack > r.ackAck then Some(r.ack) else None
  }

  /** After some units of an arrival, with `rest` still to come. */
  ghost predicate Midway(b: Batch, r: Rcv, skipped: set<int>, excessive: bool, rest: seq<Unit>) {
    Covered(WithLost(r, skipped)) && Sorted(rest) && TakeUnits(r, skipped, excessive, rest) == b
    && (rest != [] ==> forall x :: x in skipped ==> x < rest[0].seqno)
  }

  lemma MidwayStep(b: Batch, r: Rcv, skipped: set<int>, excessive: bool, rest: seq<Unit>)
    requires Midway(b, r, skipped, excessive, rest) && rest != []
    ensures rest[0].seqno !in skipped
    ensures rest[0].seqno - r.ack >= Avail(r.buf) ==> b == Batch(r, skipped, excessive, true)
    ensures rest[0].seqno < r.ack ==> Midway(b, r, skipped, excessive, rest[1..])
    ensures Fits(r, rest[0]) ==>
        Midway(b, TakeUnit(r, rest[0]), skipped + SkippedBy(r, rest[0]),
               excessive && !AddData(r.buf, rest[0], rest[0].seqno - r.ack).1, rest[1..])
  {
    assert rest[1..] != [] ==> rest[0].seqno <= rest[1..][0].seqno;
    if Fits(r, rest[0]) {
      TakeUnitKeeps(r, skipped, rest[0]);
    }
  }

  lemma SameCovered(r: Rcv, t: Rcv)
    requires Covered(r) && t == r.(ackAck := t.ackAck)
    ensures Covered(t)
  {
    forall k ensures Holds(t, k) {
      assert Holds(r, k);
    }
  }

  lemma AllStoredBelow(r: Rcv, ack: int)
    requires Covered(r) && ack <= r.curr + 1 && forall x :: x in r.loss ==> x >= ack
    ensures forall x :: NumberAt(r, 0) <= x < ack ==> Stored(r, x)
  {
    forall x | NumberAt(r, 0) <= x < ack ensures Stored(r, x) {
      StoredOrLost(r, x);
    }
  }
}
