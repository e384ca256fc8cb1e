/** Reading whole messages from the receive buffer: what is skipped, which message is found, and that messages cut into
    chunks come out as they went in. */
module Messages {
  import opened Options
  import opened SendBuffer
  import opened ReceiveBuffer

  // ---------- what a scan does, on slots ----------

  predicate IsGood(u: Option<Unit>) {
    u.Some? && u.value.flag == Good
  }

  /** From slot i on, the acknowledged slots are good up to a last chunk, or all the way. */
  predicate Runs(units: seq<Option<Unit>>, i: nat, acked: nat)
    requires acked <= |units|
    decreases acked - i
  {
    i >= acked || (IsGood(units[i]) && (units[i].value.chunk.last || Runs(units, i + 1, acked)))
  }

  predicate StartsWell(b: Slots)
    requires b.acked <= |b.units|
  {
    b.acked > 0 && IsGood(b.units[0]) && b.units[0].value.chunk.first && Runs(b.units, 0, b.acked)
  }

  /** Slots at the front are emptied until a message starts well, or nothing acknowledged is left. */
  function Skip(b: Slots): (r: Slots)
    requires b.acked <= |b.units|
    ensures |r.units| == |b.units| && r.acked <= b.acked
    decreases b.acked
  {
    if b.acked == 0 || StartsWell(b) then b else Skip(Popped(b, 1, b.notch))
  }

  /** p is the latest first chunk with no hole since, or -1. */
  datatype Scan = Scan(p: int, q: nat, found: bool)

  /** The search for a message among n slots. Beyond the acknowledged ones only messages that may come out of order count. */
  function Find(units: seq<Option<Unit>>, acked: nat, n: nat, p: int, q: nat): (r: Scan)
    requires q <= n <= |units|
    ensures q <= r.q <= n && (r.found ==> r.q < n)
    decreases n - q
  {
    if q == n then Scan(p, q, false)
    else
      var good := IsGood(units[q]);
      var p' := if !good then -1 else if units[q].value.chunk.first then q else p;
      if good && units[q].value.chunk.last && p' != -1 && (q < acked || !units[q].value.chunk.inorder)
      then Scan(p', q, true)
      else Find(units, acked, n, p', q + 1)
  }

  /** The slots from p up to q belong to one run of good chunks that starts with a first one and holds no other. */
  ghost predicate OneRun(units: seq<Option<Unit>>, p: int, q: int) {
    0 <= p <= q <= |units| && (p < q ==> IsGood(units[p]) && units[p].value.chunk.first)
    && forall k :: p < k < q ==> IsGood(units[k]) && !units[k].value.chunk.first
  }

  /** A message is never found across a hole: all its slots are good, it starts with a first chunk and ends with a last
      one, and has no other first chunk; and if it was not acknowledged as a whole it may come out of order. */
  lemma {:induction false} NeverAcrossAHole(units: seq<Option<Unit>>, acked: nat, n: nat, p: int, q: nat)
    requires q <= n <= |units| && (p == -1 || (p < q && OneRun(units, p, q)))
    ensures var r := Find(units, acked, n, p, q);
      (r.found ==> OneRun(units, r.p, r.q + 1) && r.p <= r.q && units[r.q].value.chunk.last
                   && (r.q < acked || !units[r.q].value.chunk.inorder))
      && (!r.found ==> r.q == n && (r.p == -1 || (r.p < n && OneRun(units, r.p, n))))
    decreases n - q
  {
    if q < n {
      var good := IsGood(units[q]);
      var p' := if !good then -1 else if units[q].value.chunk.first then q else p;
      if !(good && units[q].value.chunk.last && p' != -1 && (q < acked || !units[q].value.chunk.inorder)) {
        NeverAcrossAHole(units, acked, n, p', q + 1);
      }
    }
  }

  /** A complete good acknowledged message in the slots a to c. */
  ghost predicate Whole(b: Slots, a: nat, c: nat) {
    a <= c < b.acked <= |b.units| && OneRun(b.units, a, c + 1) && b.units[c].value.chunk.last
    && forall k :: a <= k < c ==> !b.units[k].value.chunk.last
  }

  lemma {:induction false} WholeRuns(b: Slots, a: nat, c: nat, i: nat)
    requires Whole(b, a, c) && a <= i <= c
    ensures Runs(b.units, i, b.acked)
    decreases c - i
  {
    if i < c {
      WholeRuns(b, a, c, i + 1);
    }
  }

  /** What is skipped never reaches into a complete good acknowledged message. */
  lemma {:induction false} NeverDiscardsAMessage(b: Slots, a: nat, c: nat)
    requires Whole(b, a, c)
    ensures var k := b.acked - Skip(b).acked; k <= a && Skip(b) == Popped(b, k, b.notch)
    decreases b.acked
  {
    if StartsWell(b) {
      assert Popped(b, 0, b.notch) == b;
    } else {
      if a == 0 {
        WholeRuns(b, 0, c, 0);
        assert false;
      }
      var d := Popped(b, 1, b.notch);
      WholeShifts(b, a, c);
      NeverDiscardsAMessage(d, a - 1, c - 1);
      var k := d.acked - Skip(d).acked;
      PoppedTwice(b, k);
    }
  }

  lemma WholeShifts(b: Slots, a: nat, c: nat)
    requires Whole(b, a, c) && a > 0
    ensures Whole(Popped(b, 1, b.notch), a - 1, c - 1)
  {
    var d := Popped(b, 1, b.notch);
    assert forall k :: 0 <= k < |b.units| - 1 ==> d.units[k] == b.units[k + 1];
  }

  lemma PoppedTwice(b: Slots, k: nat)
    requires k + 1 <= b.acked <= |b.units|
    ensures Popped(Popped(b, 1, b.notch), k, b.notch) == Popped(b, k + 1, b.notch)
  {
    assert b.units[1..][k..] == b.units[k + 1..];
    var u := Popped(b, 1, b.notch).units;
    assert u[k..] == b.units[k + 1..] + Empty(1);
  }

  // ---------- what a read does ----------

  ghost predicate Bounded(b: Slots) {
    b.acked + b.maxPos < |b.units|
  }

  /** The payloads one after the other. */
  function Spelled(units: seq<Option<Unit>>): Bytes {
    if units == [] then [] else (if units[0].Some? then units[0].value.chunk.payload else []) + Spelled(units[1..])
  }

  function Taken(data: Bytes, len: nat): Bytes {
    if |data| <= len then data else data[..len]
  }

  function Passed(u: Option<Unit>): Option<Unit> {
    if u.Some? then Some(u.value.(flag := PassAck)) else u
  }

  /** The slots p to k - 1 have been delivered: freed, or kept and marked if they lie beyond the acknowledged ones. */
  function Delivered(units: seq<Option<Unit>>, p: nat, k: nat, passack: bool): seq<Option<Unit>> {
    seq(|units|, i requires 0 <= i < |units| => if p <= i < k then (if passack then Passed(units[i]) else None) else units[i])
  }

  /** The slots p to q emptied, and reading goes on behind q. */
  function Consumed(b: Slots, p: nat, q: nat): Slots
    requires p <= q < b.acked <= |b.units|
  {
    b.(units := Turn(Delivered(b.units, p, q + 1, false), q + 1), acked := b.acked - (q + 1))
  }

  /** The first message that may be delivered, and the slots without it. */
  function ReadFound(c: Slots, s: Scan, len: nat): (r: (Bytes, Slots))
    requires 0 <= s.p <= s.q < |c.units| && (s.q < c.acked ==> c.acked <= |c.units|)
  {
    (Taken(Spelled(c.units[s.p..s.q + 1]), len),
     if s.q < c.acked then Consumed(c, s.p, s.q) else c.(units := Delivered(c.units, s.p, s.q + 1, true)))
  }

  /** Reading once the slots that start no message have been skipped. When no message is found nothing is read: also not
      a part of one that fills the buffer, for which the copying loop runs from a position to itself. */
  function ReadFrom(c: Slots, len: nat): (r: (Bytes, Slots))
    requires Bounded(c)
  {
    var s := Find(c.units, c.acked, c.acked + c.maxPos, -1, 0);
    NeverAcrossAHole(c.units, c.acked, c.acked + c.maxPos, -1, 0);
    if s.found then ReadFound(c, s, len) else ([], c)
  }

  /** One call of readMsg. */
  function ReadMsg(b: Slots, len: nat): (r: (Bytes, Slots))
    requires Bounded(b)
  {
    SkipBounded(b);
    if b.acked == 0 && b.maxPos == 0 then ([], b) else ReadFrom(Skip(b), len)
  }

  lemma {:induction false} SkipBounded(b: Slots)
    requires Bounded(b)
    ensures Bounded(Skip(b)) && Skip(b).maxPos == b.maxPos
    decreases b.acked
  {
    if b.acked != 0 && !StartsWell(b) {
      SkipBounded(Popped(b, 1, b.notch));
    }
  }

  /** No operation of the buffer ever fills the slot that must stay free. */
  lemma StaysBounded(b: Slots, u: Unit, offset: nat, len: nat)
    requires Bounded(b)
    ensures Bounded(AddData(b, u, offset).0)
    ensures b.acked + len < |b.units| ==> Bounded(AckData(b, len))
    ensures Bounded(ReadMsg(b, len).1)
  {
    if b.acked + len < |b.units| {
      SmallMod(b.acked + len, |b.units|);
    }
    ReadStaysBounded(b, len);
  }

  lemma SmallMod(x: nat, n: nat)
    requires x < n
    ensures x % n == x
  {
  }

  lemma ReadStaysBounded(b: Slots, len: nat)
    requires Bounded(b)
    ensures Bounded(ReadMsg(b, len).1)
  {
    SkipBounded(b);
    var c := Skip(b);
    var s := Find(c.units, c.acked, c.acked + c.maxPos, -1, 0);
    NeverAcrossAHole(c.units, c.acked, c.acked + c.maxPos, -1, 0);
    assert ReadFrom(c, len).1 == if s.found then ReadFound(c, s, len).1 else c;
  }

  // ---------- messages come out as they went in ----------

  /** The messages cut into chunks, one after the other, all to be delivered in order. */
  function Chunks(ms: seq<Bytes>, mss: nat): seq<Chunk>
    requires mss > 0
  {
    if ms == [] then [] else Cut(ms[0], mss, 1, true, 0, 0) + Chunks(ms[1..], mss)
  }

  /** The slot holds the chunk, as far as payload and place in the message go. */
  predicate Carries(u: Option<Unit>, c: Chunk) {
    IsGood(u) && u.value.chunk.payload == c.payload && u.value.chunk.first == c.first && u.value.chunk.last == c.last
    && u.value.chunk.inorder == c.inorder
  }

  /** The acknowledged slots hold these chunks, and everything else that has arrived is to be delivered in order too. */
  ghost predicate HoldsChunks(b: Slots, all: seq<Chunk>) {
    Bounded(b) && b.acked == |all|
    && (forall i {:trigger b.units[i]} :: 0 <= i < |all| ==> Carries(b.units[i], all[i]))
    && (forall i {:trigger b.units[i]} :: 0 <= i < |b.units| && b.units[i].Some? ==> b.units[i].value.chunk.inorder)
  }

  /** The first n chunks of a message, not all of them. */
  function Part(next: Bytes, mss: nat, n: nat): seq<Chunk>
    requires mss > 0 && (n == 0 || n < ChunkCount(|next|, mss))
  {
    if n == 0 then [] else Cut(next, mss, 1, true, 0, 0)[..n]
  }

  /** The slots from q on that hold the rest of a message: the scan finds its last chunk. */
  lemma {:induction false} FindsTheLast(units: seq<Option<Unit>>, acked: nat, n: nat, q: nat, m: Bytes, mss: nat)
    requires mss > 0 && q < ChunkCount(|m|, mss) <= acked <= n <= |units|
    requires forall i :: 0 <= i < ChunkCount(|m|, mss) ==> Carries(units[i], Cut(m, mss, 1, true, 0, 0)[i])
    ensures Find(units, acked, n, if q == 0 then -1 else 0, q) == Scan(0, ChunkCount(|m|, mss) - 1, true)
    ensures Runs(units, q, acked)
    decreases ChunkCount(|m|, mss) - q
  {
    assert Carries(units[q], Cut(m, mss, 1, true, 0, 0)[q]);
    if q < ChunkCount(|m|, mss) - 1 {
      FindsTheLast(units, acked, n, q + 1, m, mss);
    }
  }

  lemma {:induction false} SpelledIs(units: seq<Option<Unit>>, chunks: seq<Chunk>)
    requires |units| == |chunks| && forall i :: 0 <= i < |units| ==> units[i].Some? && units[i].value.chunk.payload == chunks[i].payload
    ensures Spelled(units) == Payloads(chunks)
  {
    if units != [] {
      SpelledIs(units[1..], chunks[1..]);
    }
  }

  /** Round trip: reading returns the first message, whole if there is room for it, and leaves exactly the rest. */
  lemma ReadsFirstMessage(b: Slots, m: Bytes, rest: seq<Chunk>, mss: nat, len: nat)
    requires mss > 0 && m != [] && HoldsChunks(b, Cut(m, mss, 1, true, 0, 0) + rest)
    ensures ReadMsg(b, len).0 == Taken(m, len) && HoldsChunks(ReadMsg(b, len).1, rest)
    ensures 0 < ChunkCount(|m|, mss) <= b.acked && ReadMsg(b, len).1 == Consumed(b, 0, ChunkCount(|m|, mss) - 1)
  {
    var first, k := Cut(m, mss, 1, true, 0, 0), ChunkCount(|m|, mss);
    SomeChunks(m, mss);
    forall i | 0 <= i < k ensures Carries(b.units[i], first[i]) {
      assert (first + rest)[i] == first[i];
    }
    FindsTheLast(b.units, b.acked, b.acked + b.maxPos, 0, m, mss);
    assert Carries(b.units[0], first[0]) && StartsWell(b) && Skip(b) == b;
    FirstIsSpelled(b, m, mss);
    ConsumedHolds(b, first, rest);
  }

  lemma FirstIsSpelled(b: Slots, m: Bytes, mss: nat)
    requires mss > 0 && 0 < ChunkCount(|m|, mss) <= |b.units|
    requires forall i :: 0 <= i < ChunkCount(|m|, mss) ==> Carries(b.units[i], Cut(m, mss, 1, true, 0, 0)[i])
    ensures Spelled(b.units[0..ChunkCount(|m|, mss) - 1 + 1]) == m
  {
    SpelledIs(b.units[0..ChunkCount(|m|, mss) - 1 + 1], Cut(m, mss, 1, true, 0, 0));
    CutIsWhole(m, mss, 1, true, 0, 0);
  }

  lemma ConsumedHolds(b: Slots, first: seq<Chunk>, rest: seq<Chunk>)
    requires HoldsChunks(b, first + rest) && first != []
    ensures HoldsChunks(Consumed(b, 0, |first| - 1), rest)
  {
    var k, c := |first|, Consumed(b, 0, |first| - 1);
    ConsumedShifts(b, k);
    forall i {:trigger c.units[i]} | 0 <= i < |rest| ensures Carries(c.units[i], rest[i]) {
      assert c.units[i] == b.units[k + i] && (first + rest)[k + i] == rest[i];
    }
    forall i {:trigger c.units[i]} | 0 <= i < |c.units| && c.units[i].Some? ensures c.units[i].value.chunk.inorder {
      assert i < |b.units| - k && c.units[i] == b.units[k + i];
    }
  }

  lemma SomeChunks(m: Bytes, mss: nat)
    requires mss > 0 && m != []
    ensures ChunkCount(|m|, mss) > 0
  {
    assert |m| == (|m| / mss) * mss + |m| % mss;
  }

  lemma ConsumedShifts(b: Slots, k: nat)
    requires 0 < k <= b.acked <= |b.units|
    ensures var c := Consumed(b, 0, k - 1);
      |c.units| == |b.units| && c.acked == b.acked - k
      && (forall i :: 0 <= i < |b.units| - k ==> c.units[i] == b.units[k + i])
      && forall i :: |b.units| - k <= i < |b.units| ==> c.units[i] == None
  {
    var units := Delivered(b.units, 0, k, false);
    assert units[k..] == b.units[k..] && units[..k] == Empty(k);
  }

  /** With no whole message acknowledged, nothing is read and nothing is lost. */
  lemma ReadsNothing(b: Slots, next: Bytes, mss: nat, n: nat, len: nat)
    requires mss > 0 && (n == 0 || n < ChunkCount(|next|, mss)) && HoldsChunks(b, Part(next, mss, n))
    ensures ReadMsg(b, len) == ([], b)
  {
    PartRuns(b, Part(next, mss, n), 0);
    if b.acked > 0 {
      assert Carries(b.units[0], Part(next, mss, n)[0]);
    }
    assert Skip(b) == b;
    FindsNone(b.units, b.acked, b.acked + b.maxPos, -1, 0);
  }

  lemma {:induction false} PartRuns(b: Slots, all: seq<Chunk>, i: nat)
    requires i <= |all| == b.acked <= |b.units|
    requires forall j {:trigger b.units[j]} :: 0 <= j < |all| ==> Carries(b.units[j], all[j])
    ensures Runs(b.units, i, b.acked)
    decreases b.acked - i
  {
    if i < b.acked {
      PartRuns(b, all, i + 1);
    }
  }

  /** No last chunk among the acknowledged slots, and nothing out of order beyond them. */
  lemma {:induction false} FindsNone(units: seq<Option<Unit>>, acked: nat, n: nat, p: int, q: nat)
    requires q <= n <= |units| && acked <= n
    requires forall i :: 0 <= i < acked && units[i].Some? ==> !units[i].value.chunk.last
    requires forall i :: 0 <= i < n && units[i].Some? ==> units[i].value.chunk.inorder
    ensures !Find(units, acked, n, p, q).found
    decreases n - q
  {
    if q < n {
      var good := IsGood(units[q]);
      FindsNone(units, acked, n, if !good then -1 else if units[q].value.chunk.first then q else p, q + 1);
    }
  }

  /** A message as large as the buffer: the branch that is meant to return part of it finds its slots, but reads nothing. */
  lemma PartialMessageReadsNothing(b: Slots, c: Slots, s: Scan, len: nat)
    requires Bounded(b) && c == Skip(b) && Bounded(c) && c.acked + c.maxPos > 0
    requires s == Find(c.units, c.acked, c.acked + c.maxPos, -1, 0)
    requires !s.found && s.p != -1 && s.p == if s.q + 1 == |b.units| then 0 else s.q + 1
    ensures s.p == 0 && s.q == |b.units| - 1 && ReadMsg(b, len) == ([], c)
  {
    NeverAcrossAHole(c.units, c.acked, c.acked + c.maxPos, -1, 0);
    SkipBounded(b);
  }

  function ReadMany(b: Slots, len: nat, calls: nat): (seq<Bytes>, Slots)
    decreases calls
  {
    if calls == 0 || b.acked + b.maxPos >= |b.units| then ([], b)
    else
      var (data, c) := ReadMsg(b, len);
      var (more, d) := ReadMany(c, len, calls - 1);
      ([data] + more, d)
  }

  /** All the messages that are acknowledged as a whole are read, one by one and in order. */
  lemma {:induction false} ReadsAllMessages(b: Slots, ms: seq<Bytes>, rest: seq<Chunk>, mss: nat, len: nat)
    requires mss > 0 && HoldsChunks(b, Chunks(ms, mss) + rest) && forall i :: 0 <= i < |ms| ==> 0 < |ms[i]| <= len
    ensures ReadMany(b, len, |ms|).0 == ms && HoldsChunks(ReadMany(b, len, |ms|).1, rest)
    decreases |ms|
  {
    if ms == [] {
      assert Chunks(ms, mss) + rest == rest;
    } else {
      var m, first, others := ms[0], Cut(ms[0], mss, 1, true, 0, 0), Chunks(ms[1..], mss) + rest;
      assert Chunks(ms, mss) + rest == first + others;
      ReadsFirstMessage(b, m, others, mss, len);
      ReadsAllMessages(ReadMsg(b, len).1, ms[1..], rest, mss, len);
      ReadManyStep(b, len, |ms|);
    }
  }

  lemma ReadManyStep(b: Slots, len: nat, calls: nat)
    requires Bounded(b) && calls > 0
    ensures var c := ReadMsg(b, len).1;
      ReadMany(b, len, calls) == ([ReadMsg(b, len).0] + ReadMany(c, len, calls - 1).0, ReadMany(c, len, calls - 1).1)
  {
  }

  /** And when they have been read, the beginning of the next one stays where it is. */
  lemma ThenNothingMore(b: Slots, ms: seq<Bytes>, next: Bytes, mss: nat, n: nat, len: nat)
    requires mss > 0 && (n == 0 || n < ChunkCount(|next|, mss)) && HoldsChunks(b, Chunks(ms, mss) + Part(next, mss, n))
    requires forall i :: 0 <= i < |ms| ==> 0 < |ms[i]| <= len
    ensures var c := ReadMany(b, len, |ms|).1; ReadMany(b, len, |ms|).0 == ms && Bounded(c) && ReadMsg(c, len) == ([], c)
  {
    ReadsAllMessages(b, ms, Part(next, mss, n), mss, len);
    ReadsNothing(ReadMany(b, len, |ms|).1, next, mss, n, len);
  }
}
