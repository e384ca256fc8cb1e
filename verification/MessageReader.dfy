/** The loops over the circular array that scan for a message and read it. */
module MessageReader {
  import opened Options
  import opened SendBuffer
  import RB = ReceiveBuffer
  import opened Messages

  /** Looks ahead from the reading position for a good message, up to its last chunk or the acknowledged end. */
  method LookAhead(buf: RB.ReceiveBuffer) returns (good: bool)
    requires buf.Valid()
    ensures good == Runs(buf.TheSlots().units, 0, buf.TheSlots().acked)
  {
    ghost var c := buf.TheSlots();
    var i: nat := buf.startPos;
    ghost var j: nat := 0;
    good := true;
    while i != buf.lastAckPos
      invariant i < buf.units.Length && j <= c.acked && i == RB.Step(buf.units.Length, buf.startPos, j)
      invariant RB.Gap(buf.units.Length, i, buf.lastAckPos) == c.acked - j
      invariant Runs(c.units, 0, c.acked) == Runs(c.units, j, c.acked)
      decreases c.acked - j
    {
      RB.TurnAt(buf.units[..], buf.startPos, j);
      assert c.units[j] == buf.units[i];
      if buf.units[i].None? || buf.units[i].value.flag != RB.Good {
        return false;
      }
      if buf.units[i].value.chunk.last {
        return true;
      }
      i := i + 1;
      if i == buf.units.Length {
        i := 0;
      }
      j := j + 1;
    }
  }

  /** Empties slots until a message starts well, or nothing acknowledged is left. */
  method SkipBad(buf: RB.ReceiveBuffer)
    requires buf.Valid()
    modifies buf`startPos, buf.units
    ensures buf.Valid() && buf.TheSlots() == Skip(old(buf.TheSlots()))
  {
    ghost var b := buf.TheSlots();
    while buf.startPos != buf.lastAckPos
      invariant buf.Valid() && Skip(buf.TheSlots()) == Skip(b)
      decreases buf.TheSlots().acked
    {
      ghost var c := buf.TheSlots();
      RB.TurnAt(buf.units[..], buf.startPos, 0);
      assert c.units[0] == buf.units[buf.startPos];
      if buf.units[buf.startPos].Some? && buf.units[buf.startPos].value.flag == RB.Good
         && buf.units[buf.startPos].value.chunk.first
      {
        var good := LookAhead(buf);
        if good {
          break;
        }
      }
      assert !StartsWell(c);
      EmptyFirst(buf);
    }
  }

  method EmptyFirst(buf: RB.ReceiveBuffer)
    requires buf.Valid() && buf.startPos != buf.lastAckPos
    modifies buf`startPos, buf.units
    ensures buf.Valid() && buf.TheSlots() == RB.Popped(old(buf.TheSlots()), 1, buf.notch)
  {
    ghost var was := buf.units[..];
    RB.TurnNext(was, buf.startPos, None);
    buf.units[buf.startPos] := None;
    assert buf.units[..] == was[buf.startPos := None];
    assert RB.Empty(1) == [None];
    buf.startPos := if buf.startPos + 1 == buf.units.Length then 0 else buf.startPos + 1;
  }

  /** Where a place in the scan lies in the array. */
  ghost predicate Lies(buf: RB.ReceiveBuffer, pos: int, place: int)
    reads buf
  {
    buf.Valid() && if place < 0 then pos == -1
                   else place < buf.units.Length && pos == RB.Step(buf.units.Length, buf.startPos, place)
  }

  /** Walks the slots for the first message that may be delivered. Also reports, as found, a message that fills the
      buffer; but then its first position is the one behind its last. */
  method FindMessage(buf: RB.ReceiveBuffer, ghost s: Scan) returns (p: int, q: nat, passack: bool, found: bool)
    requires buf.Valid() && Bounded(buf.TheSlots())
    requires s == Find(buf.TheSlots().units, buf.TheSlots().acked, buf.TheSlots().acked + buf.maxPos, -1, 0)
    ensures s.found ==> found && Lies(buf, p, s.p) && Lies(buf, q, s.q) && passack == (s.q >= buf.TheSlots().acked)
    ensures !s.found ==> (found <==> p != -1 && (q + 1) % buf.units.Length == p)
    ensures found && !s.found ==> q < buf.units.Length && p == (q + 1) % buf.units.Length && passack && s.p >= 0 && Lies(buf, p, s.p)
  {
    ghost var c := buf.TheSlots();
    p, q, found := -1, buf.startPos, false;
    passack := buf.startPos == buf.lastAckPos;
    ghost var pp: int, k: nat := -1, 0;
    var n := buf.maxPos + buf.DataSize();
    for i := 0 to n
      invariant k == i && -1 <= pp < k && Lies(buf, p, pp) && Lies(buf, q, k) && passack == (k >= c.acked)
      invariant s == Find(c.units, c.acked, n, pp, k) && !found
    {
      ghost var before := pp;
      p, pp, found := Inspect(buf, p, q, pp, k);
      FindStep(c.units, c.acked, n, before, k);
      if found {
        if !passack || !buf.units[q].value.chunk.inorder {
          return;
        }
        found := false;
      }
      q := NextPosition(buf, q, k);
      k := k + 1;
      if q == buf.lastAckPos {
        passack := true;
      }
    }
    found := p != -1 && (q + 1) % buf.units.Length == p;
  }

  /** The latest first chunk once slot k has been looked at. */
  function Latest(units: seq<Option<RB.Unit>>, p: int, k: nat): int
    requires k < |units|
  {
    if !IsGood(units[k]) then -1 else if units[k].value.chunk.first then k else p
  }

  predicate Ends(units: seq<Option<RB.Unit>>, p: int, k: nat)
    requires k < |units|
  {
    IsGood(units[k]) && units[k].value.chunk.last && Latest(units, p, k) != -1
  }

  lemma FindStep(units: seq<Option<RB.Unit>>, acked: nat, n: nat, p: int, k: nat)
    requires k < n <= |units|
    ensures Find(units, acked, n, p, k) ==
            if Ends(units, p, k) && (k < acked || !units[k].value.chunk.inorder) then Scan(Latest(units, p, k), k, true)
            else Find(units, acked, n, Latest(units, p, k), k + 1)
  {
  }

  /** Looks at one slot: does it begin a message, does it end one, or is it a hole? */
  method Inspect(buf: RB.ReceiveBuffer, p: int, q: nat, ghost pp: int, ghost k: nat)
    returns (p': int, ghost pp': int, found: bool)
    requires Lies(buf, p, pp) && Lies(buf, q, k) && -1 <= pp
    ensures k < |buf.TheSlots().units| && buf.TheSlots().units[k] == buf.units[q]
    ensures pp' == Latest(buf.TheSlots().units, pp, k) && Lies(buf, p', pp') && found == Ends(buf.TheSlots().units, pp, k)
    ensures -1 <= pp' && (pp' == pp || pp' <= k)
  {
    RB.TurnAt(buf.units[..], buf.startPos, k);
    p', pp', found := p, pp, false;
    if buf.units[q].Some? && buf.units[q].value.flag == RB.Good {
      var u := buf.units[q].value.chunk;
      if u.first && u.last {
        p', pp', found := q, k, true;
      } else if u.first {
        p', pp' := q, k;
      } else if u.last && p != -1 {
        found := true;
      }
    } else {
      p', pp' := -1, -1;
    }
  }

  method NextPosition(buf: RB.ReceiveBuffer, q: nat, ghost k: nat) returns (next: nat)
    requires Lies(buf, q, k) && k + 1 < buf.units.Length
    ensures Lies(buf, next, k + 1) && (next == buf.lastAckPos <==> k + 1 == buf.TheSlots().acked)
  {
    AckReached(buf.units.Length, buf.startPos, buf.lastAckPos, k);
    next := q + 1;
    if next == buf.units.Length {
      next := 0;
    }
  }

  /** Walking on from the reading position, the acknowledged end is met exactly after the acknowledged slots. */
  lemma AckReached(size: nat, start: nat, ack: nat, k: nat)
    requires start < size && ack < size && k + 1 < size
    ensures RB.Step(size, start, k + 1) == ack <==> k + 1 == RB.Gap(size, start, ack)
  {
  }

  // ---------- copying and freeing ----------

  lemma {:induction false} SpelledMore(units: seq<Option<RB.Unit>>, u: Option<RB.Unit>)
    requires u.Some?
    ensures Spelled(units + [u]) == Spelled(units) + u.value.chunk.payload
  {
    var one := [u];
    if units == [] {
      assert units + one == one && one[1..] == [] && Spelled(one[1..]) == [];
    } else {
      assert (units + one)[0] == units[0] && (units + one)[1..] == units[1..] + one;
      SpelledMore(units[1..], u);
    }
  }

  lemma TakenMore(s: Bytes, w: Bytes, len: nat)
    ensures Taken(s + w, len) == Taken(s, len) + Taken(w, len - |Taken(s, len)|)
  {
  }

  /** What has been copied when the slots p to k - 1 are done. */
  function SoFar(units: seq<Option<RB.Unit>>, p: nat, k: nat, len: nat): Bytes
    requires p <= k <= |units|
  {
    Taken(Spelled(units[p..k]), len)
  }

  lemma OneMore(units: seq<Option<RB.Unit>>, p: nat, k: nat, len: nat)
    requires p <= k < |units| && units[k].Some?
    ensures var data := SoFar(units, p, k, len);
      SoFar(units, p, k + 1, len) == data + Taken(units[k].value.chunk.payload, len - |data|)
  {
    assert units[p..k + 1] == units[p..k] + [units[k]];
    SpelledMore(units[p..k], units[k]);
    TakenMore(Spelled(units[p..k]), units[k].value.chunk.payload, len);
  }

  /** Copies one unit, as much of it as there is room for, and frees or marks its slot. */
  method CopyUnit(buf: RB.ReceiveBuffer, p: nat, rs: nat, passack: bool, ghost c: RB.Slots, ghost from: nat, ghost k: nat)
    returns (piece: Bytes)
    requires Lies(buf, p, k) && from <= k < |c.units| == buf.units.Length && IsGood(c.units[k])
    requires RB.Turn(buf.units[..], buf.startPos) == Delivered(c.units, from, k, passack)
    modifies buf.units
    ensures RB.Turn(buf.units[..], buf.startPos) == Delivered(c.units, from, k + 1, passack)
    ensures piece == Taken(c.units[k].value.chunk.payload, rs)
  {
    RB.TurnAt(buf.units[..], buf.startPos, k);
    assert buf.units[p] == c.units[k];
    var u := buf.units[p].value;
    var pktlen := |u.chunk.payload|;
    var unitsize := if pktlen > rs then rs else pktlen;
    piece := u.chunk.payload[..unitsize];
    ghost var was := buf.units[..];
    var left := if passack then Some(u.(flag := RB.PassAck)) else None;
    RB.TurnPut(was, buf.startPos, k, left);
    buf.units[p] := left;
    assert buf.units[..] == was[p := left];
  }

  /** Copies the units from p to q, which lie in the slots from `first` up to `end`. When p is the position behind q
      there is nothing to copy. */
  method CopyMessage(buf: RB.ReceiveBuffer, p: nat, q: nat, len: nat, passack: bool,
                     ghost c: RB.Slots, ghost first: nat, ghost end: nat) returns (data: Bytes)
    requires Lies(buf, p, first) && c == buf.TheSlots() && first <= end < buf.units.Length && OneRun(c.units, first, end)
    requires (q + 1) % buf.units.Length == RB.Step(buf.units.Length, buf.startPos, end)
    modifies buf.units
    ensures RB.Turn(buf.units[..], buf.startPos) == Delivered(c.units, first, end, passack)
    ensures data == Taken(Spelled(c.units[first..end]), len)
  {
    data := [];
    var stop := (q + 1) % buf.units.Length;
    var pos, rs := p, len;
    ghost var k: nat := first;
    assert Delivered(c.units, first, first, passack) == c.units;
    while pos != stop
      invariant first <= k <= end && Lies(buf, pos, k) && rs == len - |data| && data == SoFar(c.units, first, k, len)
      invariant RB.Turn(buf.units[..], buf.startPos) == Delivered(c.units, first, k, passack)
      decreases end - k
    {
      assert k < end && IsGood(c.units[k]);
      var piece := CopyUnit(buf, pos, rs, passack, c, first, k);
      OneMore(c.units, first, k, len);
      data, rs := data + piece, rs - |piece|;
      pos := NextPosition(buf, pos, k);
      k := k + 1;
    }
    SamePlace(buf.units.Length, buf.startPos, k, end);
  }

  lemma SamePlace(size: nat, start: nat, j: nat, k: nat)
    requires start < size && j < size && k < size && RB.Step(size, start, j) == RB.Step(size, start, k)
    ensures j == k
  {
  }

  lemma EndOf(size: nat, start: nat, q: nat)
    requires start < size && q + 1 < size
    ensures (RB.Step(size, start, q) + 1) % size == RB.Step(size, start, q + 1)
  {
    RB.ModOnce(RB.Step(size, start, q) + 1, size);
  }

  /** Entering the circle q + 1 places later. */
  lemma TurnOn<T>(a: seq<T>, start: nat, q: nat)
    requires start < |a| && q + 1 < |a|
    ensures RB.Turn(a, RB.Step(|a|, start, q + 1)) == RB.Turn(RB.Turn(a, start), q + 1)
  {
  }

  lemma GapOn(size: nat, start: nat, ack: nat, q: nat)
    requires start < size && ack < size && q < RB.Gap(size, start, ack)
    ensures q + 1 < size && RB.Gap(size, RB.Step(size, start, q + 1), ack) == RB.Gap(size, start, ack) - (q + 1)
  {
  }

  /** Reads the first message that may be delivered, cut off at len bytes; the whole message is gone afterwards. */
  method ReadMessage(buf: RB.ReceiveBuffer, len: nat) returns (data: Bytes)
    requires buf.Valid() && Bounded(buf.TheSlots())
    modifies buf`startPos, buf.units
    ensures buf.Valid() && (data, buf.TheSlots()) == ReadMsg(old(buf.TheSlots()), len) && |data| <= len
  {
    if buf.startPos == buf.lastAckPos && buf.maxPos <= 0 {
      return [];
    }
    SkipBounded(buf.TheSlots());
    SkipBad(buf);
    data := ReadSkipped(buf, len);
  }

  method ReadSkipped(buf: RB.ReceiveBuffer, len: nat) returns (data: Bytes)
    requires buf.Valid() && Bounded(buf.TheSlots())
    modifies buf`startPos, buf.units
    ensures buf.Valid() && (data, buf.TheSlots()) == ReadFrom(old(buf.TheSlots()), len) && |data| <= len
  {
    ghost var c := buf.TheSlots();
    ghost var s := Find(c.units, c.acked, c.acked + c.maxPos, -1, 0);
    ReadFromIs(c, s, len);
    var p, q, passack, found := FindMessage(buf, s);
    if !found {
      return [];
    }
    ghost var end: nat := if s.found then s.q + 1 else s.p;
    if s.found {
      EndOf(buf.units.Length, buf.startPos, s.q);
    }
    data := CopyMessage(buf, p, q, len, passack, c, s.p, end);
    if !passack {
      MoveOn(buf, q, c, s);
    } else if end == s.p {
      assert Delivered(c.units, s.p, end, passack) == c.units;
    }
  }

  lemma ReadFromIs(c: RB.Slots, s: Scan, len: nat)
    requires Bounded(c) && s == Find(c.units, c.acked, c.acked + c.maxPos, -1, 0)
    ensures s.found ==> OneRun(c.units, s.p, s.q + 1) && s.p <= s.q < c.acked + c.maxPos
    ensures ReadFrom(c, len) == if !s.found then ([], c) else ReadFound(c, s, len)
  {
    NeverAcrossAHole(c.units, c.acked, c.acked + c.maxPos, -1, 0);
  }

  /** Reading goes on behind the message. */
  method MoveOn(buf: RB.ReceiveBuffer, q: nat, ghost c: RB.Slots, ghost s: Scan)
    requires buf.Valid() && |c.units| == buf.units.Length && q < buf.units.Length
    requires c.acked == RB.Gap(buf.units.Length, buf.startPos, buf.lastAckPos) && c.maxPos == buf.maxPos && c.notch == buf.notch
    requires 0 <= s.p <= s.q < c.acked && Lies(buf, q, s.q)
    requires RB.Turn(buf.units[..], buf.startPos) == Delivered(c.units, s.p, s.q + 1, false)
    modifies buf`startPos
    ensures buf.Valid() && buf.TheSlots() == Consumed(c, s.p, s.q)
  {
    TurnOn(buf.units[..], buf.startPos, s.q);
    EndOf(buf.units.Length, buf.startPos, s.q);
    GapOn(buf.units.Length, buf.startPos, buf.lastAckPos, s.q);
    assert RB.Turn(buf.units[..], RB.Step(buf.units.Length, buf.startPos, s.q + 1)) == Consumed(c, s.p, s.q).units;
    buf.startPos := (q + 1) % buf.units.Length;
  }
}
