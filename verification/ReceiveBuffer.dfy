/** The receive buffer: a circular array of units with one position where reading starts and one up to which everything
    is acknowledged. Seen from the reading position it is a plain sequence of slots. */
module ReceiveBuffer {
  import opened Options
  import opened SendBuffer

  datatype Flag = Good | PassAck | Dropped

  datatype Unit = Unit(seqno: int, chunk: Chunk, flag: Flag)

  /** The slots from the reading position on, all around the array; the first `acked` of them are acknowledged, nothing
      lies more than `maxPos` slots further, and `notch` bytes of the first have been read. */
  datatype Slots = Slots(units: seq<Option<Unit>>, acked: nat, maxPos: nat, notch: nat)

  /** One slot always stays free, to tell a full buffer from an empty one. */
  function Avail(b: Slots): int {
    |b.units| - b.acked - 1
  }

  function Max(a: int, b: int): int {
    if a < b then b else a
  }

  // ---------- the circular array ----------

  function Turn<T>(a: seq<T>, p: nat): seq<T>
    requires p <= |a|
  {
    a[p..] + a[..p]
  }

  /** The position k steps after p. */
  function Step(size: nat, p: nat, k: nat): (r: nat)
    requires p < size && k < size
    ensures r < size
  {
    if p + k < size then p + k else p + k - size
  }

  /** How many steps it is from p to q. */
  function Gap(size: nat, p: nat, q: nat): (r: nat)
    requires p < size && q < size
    ensures r < size && Step(size, p, r) == q
  {
    if q >= p then q - p else size + q - p
  }

  lemma TurnAt<T>(a: seq<T>, p: nat, k: nat)
    requires p < |a| && k < |a|
    ensures Turn(a, p)[k] == a[Step(|a|, p, k)] && |Turn(a, p)| == |a|
  {
  }

  lemma TurnPut<T>(a: seq<T>, p: nat, k: nat, x: T)
    requires p < |a| && k < |a|
    ensures Turn(a[Step(|a|, p, k) := x], p) == Turn(a, p)[k := x]
  {
  }

  /** Emptying the slot at p and stepping on. */
  lemma TurnNext<T>(a: seq<T>, p: nat, x: T)
    requires p < |a|
    ensures Turn(a[p := x], if p + 1 == |a| then 0 else p + 1) == Turn(a, p)[1..] + [x]
  {
    var b := a[p := x];
    assert p + 1 == |a| ==> b[0..] + b[..0] == b;
  }

  // ---------- the operations on slots ----------

  /** A unit goes into the slot `offset` places after the acknowledged ones, if there is room and the slot is free. */
  function AddData(b: Slots, u: Unit, offset: nat): (r: (Slots, bool))
    requires b.acked < |b.units|
  {
    if offset >= Avail(b) then (b, false)
    else
      var c := b.(maxPos := Max(b.maxPos, offset + 1));
      if b.units[b.acked + offset].Some? then (c, false)
      else (c.(units := b.units[b.acked + offset := Some(u.(flag := Good))]), true)
  }

  function AckData(b: Slots, len: nat): Slots
    requires |b.units| > 0
  {
    b.(acked := (b.acked + len) % |b.units|, maxPos := Max(b.maxPos - len, 0))
  }

  function Empty(n: nat): seq<Option<Unit>> {
    seq(n, _ => None)
  }

  /** The first k slots have been emptied and lie at the far end now. */
  function Popped(b: Slots, k: nat, notch: nat): Slots
    requires k <= b.acked && k <= |b.units|
  {
    b.(units := b.units[k..] + Empty(k), acked := b.acked - k, notch := notch)
  }

  /** No hole. */
  predicate Full(units: seq<Option<Unit>>) {
    forall i :: 0 <= i < |units| ==> units[i].Some?
  }

  /** The bytes that wait to be read: the acknowledged payloads, less what was already read of the first. */
  function Payload(units: seq<Option<Unit>>): Bytes
    requires Full(units)
  {
    if units == [] then [] else units[0].value.chunk.payload + Payload(units[1..])
  }

  ghost predicate Readable(b: Slots) {
    b.acked < |b.units| && (forall i :: 0 <= i < b.acked ==> b.units[i].Some?)
    && (if b.acked == 0 then b.notch == 0 else b.notch <= |b.units[0].value.chunk.payload|)
  }

  function Waiting(b: Slots): Bytes
    requires Readable(b)
  {
    if b.acked == 0 then [] else Payload(b.units[..b.acked])[b.notch..]
  }

  lemma TakenInTwo(units: seq<Option<Unit>>)
    requires units != [] && Full(units)
    ensures Payload(units) == units[0].value.chunk.payload + Payload(units[1..])
  {
  }

  /** Reading a whole unit, or the rest of one. */
  lemma PopFirst(b: Slots)
    requires Readable(b) && b.acked > 0
    ensures Readable(Popped(b, 1, 0))
    ensures Waiting(b) == b.units[0].value.chunk.payload[b.notch..] + Waiting(Popped(b, 1, 0))
  {
    var c := Popped(b, 1, 0);
    assert c.units[..c.acked] == b.units[..b.acked][1..];
    if c.acked > 0 {
      assert c.units[0] == b.units[1];
    }
  }

  /** Reading some of the first unit. */
  lemma NotchFirst(b: Slots, n: nat)
    requires Readable(b) && b.acked > 0 && b.notch + n <= |b.units[0].value.chunk.payload|
    ensures Readable(b.(notch := b.notch + n))
    ensures Waiting(b) == b.units[0].value.chunk.payload[b.notch..b.notch + n] + Waiting(b.(notch := b.notch + n))
  {
  }

  lemma PoppedMore(b: Slots, k: nat, notch: nat)
    requires k < b.acked <= |b.units|
    ensures Popped(Popped(b, k, notch), 1, 0) == Popped(b, k + 1, 0)
    ensures forall n: nat :: Popped(b, k, notch).(notch := n) == Popped(b, k, n)
  {
  }

  /** c is what is left of b after `data` has been read. */
  ghost predicate HasRead(b: Slots, c: Slots, data: Bytes) {
    Readable(b) && Readable(c) && c.acked <= b.acked && c == Popped(b, b.acked - c.acked, c.notch)
    && Waiting(b) == data + Waiting(c)
  }

  lemma ReadMore(b: Slots, c: Slots, data: Bytes, piece: Bytes, d: Slots)
    requires HasRead(b, c, data) && Readable(d) && Waiting(c) == piece + Waiting(d) && c.acked > 0
    requires d == Popped(c, 1, 0) || d == c.(notch := d.notch)
    ensures HasRead(b, d, data + piece)
  {
    PoppedMore(b, b.acked - c.acked, c.notch);
  }

  /** Only units that are due have been read, or begun to be read, since b. */
  ghost predicate OnlyDue(b: Slots, c: Slots, due: Unit -> bool)
    requires Readable(b) && Readable(c) && c.acked <= b.acked
  {
    var gone := b.acked - c.acked;
    (forall i :: 0 <= i < gone ==> due(b.units[i].value))
    && (c.acked > 0 && c.notch != (if gone == 0 then b.notch else 0) ==> due(b.units[gone].value))
  }

  lemma StillOnlyDue(b: Slots, d: Slots, c: Slots, due: Unit -> bool)
    requires Readable(b) && Readable(c) && d.acked > 0 && d.acked <= b.acked && Readable(d)
    requires d == Popped(b, b.acked - d.acked, d.notch) && (c == Popped(d, 1, 0) || c == d.(notch := c.notch))
    requires OnlyDue(b, d, due) && due(d.units[0].value)
    ensures OnlyDue(b, c, due)
  {
    assert d.units[0] == b.units[b.acked - d.acked];
  }

  class ReceiveBuffer {
    const units: array<Option<Unit>>
    var startPos: nat
    var lastAckPos: nat
    var maxPos: nat
    var notch: nat

    ghost predicate Valid()
      reads this
    {
      startPos < units.Length && lastAckPos < units.Length
    }

    ghost function TheSlots(): Slots
      requires Valid()
      reads this, units
    {
      Slots(Turn(units[..], startPos), Gap(units.Length, startPos, lastAckPos), maxPos, notch)
    }

    constructor (size: nat)
      requires size > 0
      ensures Valid() && fresh(units) && TheSlots() == Slots(Empty(size), 0, 0, 0)
    {
      units := new Option<Unit>[size](_ => None);
      startPos, lastAckPos, maxPos, notch := 0, 0, 0, 0;
      new;
      assert Turn(units[..], 0) == units[..];
    }

    function DataSize(): int
      reads this
    {
      if lastAckPos >= startPos then lastAckPos - startPos else units.Length + lastAckPos - startPos
    }

    function AvailSize(): int
      reads this
    {
      units.Length - DataSize() - 1
    }

    method AddUnit(u: Unit, offset: nat) returns (added: bool)
      requires Valid()
      modifies this`maxPos, units
      ensures Valid() && (TheSlots(), added) == AddData(old(TheSlots()), u, offset)
    {
      if offset >= AvailSize() {
        return false;
      }
      var pos := (lastAckPos + offset) % units.Length;
      ghost var k := DataSize() + offset;
      TurnAt(units[..], startPos, k);
      SlotPosition(units.Length, startPos, lastAckPos, offset);
      if offset >= maxPos {
        maxPos := offset + 1;
      }
      if units[pos].Some? {
        return false;
      }
      TurnPut(units[..], startPos, k, Some(u.(flag := Good)));
      ghost var was := units[..];
      units[pos] := Some(u.(flag := Good));
      assert units[..] == was[pos := Some(u.(flag := Good))];
      added := true;
    }

    /** Acknowledges len more slots. */
    method Ack(len: nat)
      requires Valid() && 0 < len < units.Length
      modifies this`lastAckPos, this`maxPos
      ensures Valid() && TheSlots() == AckData(old(TheSlots()), len)
    {
      AckPosition(units.Length, startPos, lastAckPos, len);
      lastAckPos := (lastAckPos + len) % units.Length;
      maxPos := if maxPos < len then 0 else maxPos - len;
    }

    /** Reads bytes in stream order, as many as asked for and there are, up to the first unit that is not yet due. */
    method ReadBuffer(len: nat, due: Unit -> bool) returns (data: Bytes)
      requires Valid() && Readable(TheSlots())
      modifies this`startPos, this`notch, units
      ensures Valid() && |data| <= len && HasRead(old(TheSlots()), TheSlots(), data)
      ensures |data| == len || TheSlots().acked == 0 || !due(TheSlots().units[0].value)
      ensures OnlyDue(old(TheSlots()), TheSlots(), due)
    {
      ghost var b, c := TheSlots(), TheSlots();
      var p: nat := startPos;
      var rs: nat := len;
      data := [];
      assert Popped(b, 0, b.notch) == b;
      while p != lastAckPos && rs > 0
        invariant unchanged(`startPos) && Shows(c, p) && HasRead(b, c, data) && rs == len - |data| && OnlyDue(b, c, due)
        decreases rs, c.acked
      {
        FirstUnit(c, p);
        if !due(units[p].value) {
          break;
        }
        var piece;
        ghost var d := c;
        piece, p, c := ReadUnit(p, rs, c);
        ReadMore(b, d, data, piece, c);
        StillOnlyDue(b, d, c, due);
        data, rs := data + piece, rs - |piece|;
      }
      startPos := p;
      assert TheSlots() == c;
    }

    /** Seen from p, the slots are those of c. */
    ghost predicate Shows(c: Slots, p: nat)
      reads this, units
    {
      Valid() && p < units.Length && c == Slots(Turn(units[..], p), Gap(units.Length, p, lastAckPos), maxPos, notch)
    }

    lemma FirstUnit(c: Slots, p: nat)
      requires Shows(c, p) && p != lastAckPos && Readable(c)
      ensures 0 < c.acked && units[p].Some? && units[p] == c.units[0] && notch <= |units[p].value.chunk.payload|
    {
      TurnAt(units[..], p, 0);
    }

    /** Reads at most rs bytes of the unit at p, and frees it when that was the rest of it. */
    method ReadUnit(p: nat, rs: nat, ghost c: Slots) returns (piece: Bytes, next: nat, ghost c': Slots)
      requires Shows(c, p) && p != lastAckPos && rs > 0 && Readable(c)
      modifies this`notch, units
      ensures Shows(c', next) && Readable(c') && |piece| <= rs && Waiting(c) == piece + Waiting(c')
      ensures c.acked > 0 && (c' == Popped(c, 1, 0) || (c' == c.(notch := c'.notch) && |piece| == rs))
    {
      FirstUnit(c, p);
      var payload := units[p].value.chunk.payload;
      var unitsize := |payload| - notch;
      if unitsize > rs {
        unitsize := rs;
      }
      piece := payload[notch..notch + unitsize];
      if rs > unitsize || rs == |payload| - notch {
        assert payload[notch..] == piece;
        PopFirst(c);
        next := PopAt(p, c);
        c' := Popped(c, 1, 0);
      } else {
        NotchFirst(c, rs);
        notch := notch + rs;
        next, c' := p, c.(notch := notch);
      }
    }

    /** Empties the slot at p and steps on. */
    method PopAt(p: nat, ghost c: Slots) returns (next: nat)
      requires Shows(c, p) && p != lastAckPos && c.acked > 0
      modifies this`notch, units
      ensures Shows(Popped(c, 1, 0), next)
    {
      TurnNext(units[..], p, None);
      ghost var was := units[..];
      units[p] := None;
      assert units[..] == was[p := None];
      assert Empty(1) == [None];
      next := p + 1;
      if next == units.Length {
        next := 0;
      }
      notch := 0;
    }
  }

  lemma ModOnce(x: nat, n: nat)
    requires x < 2 * n
    ensures x % n == if x < n then x else x - n
  {
  }

  lemma SlotPosition(size: nat, start: nat, ack: nat, offset: nat)
    requires start < size && ack < size && Gap(size, start, ack) + offset < size
    ensures Step(size, start, Gap(size, start, ack) + offset) == (ack + offset) % size
  {
    ModOnce(ack + offset, size);
  }

  lemma AckPosition(size: nat, start: nat, ack: nat, len: nat)
    requires start < size && ack < size && len < size
    ensures 0 <= (ack + len) % size < size
    ensures Gap(size, start, (ack + len) % size) == (Gap(size, start, ack) + len) % size
  {
    ModOnce(ack + len, size);
    ModOnce(Gap(size, start, ack) + len, size);
  }
}
