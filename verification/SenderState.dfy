/** The sender's side of reliable delivery as a value: the send queue, the acknowledged and the last sent sequence
    numbers, and the loss list; and what each step of the sender keeps. */
module SenderState {
  import opened SendBuffer
  import opened LossRanges
  import opened LossReport

  /** `dataAck` is the sequence number of the oldest stored chunk, `curr` that of the last packet sent; `loss` holds
      the packets to send again. `ack` follows `dataAck` when an acknowledgement is processed. */
  datatype Snd = Snd(q: Queue, dataAck: int, ack: int, fullAck: int, curr: int, loss: set<int>, window: int, broken: bool)

  /** All chunks ever accepted from the application, the first of them numbered isn; and every packet as it was sent the
      first time. */
  datatype History = History(isn: int, accepted: seq<Chunk>, sent: map<int, Chunk>)

  /** The same chunk, whatever key it was sent with. */
  predicate SameData(c: Chunk, d: Chunk) {
    c == d.(key := c.key)
  }

  ghost predicate Holds(h: History, s: Snd, i: int)
    requires 0 <= i < |s.q.chunks|
  {
    var at := s.dataAck - h.isn + i;
    0 <= at < |h.accepted| && SameData(s.q.chunks[i], h.accepted[at]) && |s.q.chunks[i].payload| > 0
    && (i < s.q.cursor ==> s.dataAck + i in h.sent && h.sent[s.dataAck + i] == s.q.chunks[i])
  }

  ghost predicate SentRight(h: History, s: Snd, x: int) {
    x in h.sent ==> h.isn <= x <= s.curr && x - h.isn < |h.accepted| && SameData(h.sent[x], h.accepted[x - h.isn])
  }

  /** Chunk i of the queue carries number dataAck + i, the next chunk to send carries curr + 1, and everything in the
      loss list has been sent and is still stored. */
  ghost predicate Corresponds(h: History, s: Snd) {
    s.q.cursor == s.curr + 1 - s.dataAck && s.q.cursor <= |s.q.chunks|
    && h.isn <= s.dataAck && |h.accepted| == s.dataAck - h.isn + |s.q.chunks|
    && (forall i {:trigger Holds(h, s, i)} :: 0 <= i < |s.q.chunks| ==> Holds(h, s, i))
    && (forall x {:trigger SentRight(h, s, x)} :: SentRight(h, s, x))
    && (forall x :: x in s.loss ==> s.dataAck <= x <= s.curr)
  }

  // ---------- the application submits data ----------

  function Submit(s: Snd, chunks: seq<Chunk>): Snd {
    s.(q := Append(s.q, chunks))
  }

  lemma SubmitKeeps(h: History, s: Snd, chunks: seq<Chunk>)
    requires Corresponds(h, s) && forall c :: c in chunks ==> |c.payload| > 0
    ensures Corresponds(h.(accepted := h.accepted + chunks), Submit(s, chunks))
  {
    var h', s' := h.(accepted := h.accepted + chunks), Submit(s, chunks);
    forall i | 0 <= i < |s'.q.chunks| ensures Holds(h', s', i) {
      if i < |s.q.chunks| {
        assert Holds(h, s, i);
      } else {
        assert s'.q.chunks[i] == chunks[i - |s.q.chunks|];
      }
    }
    forall x ensures SentRight(h', s', x) {
      assert SentRight(h, s, x);
    }
  }

  // ---------- acknowledgements ----------

  /** Everything before a is acknowledged: it leaves the loss list and the queue. */
  function ReleaseTo(s: Snd, a: int): Snd
    requires s.dataAck <= a <= s.dataAck + |s.q.chunks|
  {
    s.(dataAck := a, loss := (set x | x in s.loss && x >= a), q := DropFirst(s.q, a - s.dataAck))
  }

  /** The first part of processing an acknowledgement: the buffer and the loss list, without any check of the number. */
  function UpdateOnAck(s: Snd, a: int): Snd
    requires a <= s.dataAck + |s.q.chunks|
  {
    if a - s.dataAck <= 0 then s else ReleaseTo(s, a)
  }

  /** Exactly what an acknowledgement covers leaves the queue and the loss list. */
  lemma AckTakesWhatItCovers(s: Snd, a: int)
    requires a <= s.dataAck + |s.q.chunks|
    ensures var t := UpdateOnAck(s, a);
      t.dataAck == (if a > s.dataAck then a else s.dataAck) && t.q.chunks == s.q.chunks[t.dataAck - s.dataAck..]
      && forall x :: x in t.loss <==> x in s.loss && (x >= a || a <= s.dataAck)
  {
  }

  /** The second part: a lite acknowledgement moves `ack`, a full one is checked against the last packet sent first. */
  function FinishAck(s: Snd, a: int, lite: bool, bufferLeft: int): Snd {
    if lite then
      if a >= s.ack then s.(window := s.window - (a - s.ack), ack := a) else s
    else if a > s.curr + 1 then s.(broken := true)
    else
      var t := if a >= s.ack then s.(window := bufferLeft, ack := a) else s;
      if a - t.fullAck <= 0 then t else t.(fullAck := a)
  }

  lemma ReleaseKeeps(h: History, s: Snd, a: int)
    requires Corresponds(h, s) && s.dataAck <= a <= s.curr + 1
    ensures Corresponds(h, ReleaseTo(s, a))
  {
    var s' := ReleaseTo(s, a);
    forall i | 0 <= i < |s'.q.chunks| ensures Holds(h, s', i) {
      assert Holds(h, s, i + (a - s.dataAck));
    }
    forall x ensures SentRight(h, s', x) {
      assert SentRight(h, s, x);
    }
  }

  /** The buffer is updated before the number is checked. The correspondence survives exactly the acknowledgements of
      packets that were sent: also a lite one, which is never checked, must not go further. */
  lemma AckKeepsIffSent(h: History, s: Snd, a: int)
    requires Corresponds(h, s) && a <= s.dataAck + |s.q.chunks|
    ensures Corresponds(h, UpdateOnAck(s, a)) <==> a <= s.curr + 1
  {
    if s.dataAck < a <= s.curr + 1 {
      ReleaseKeeps(h, s, a);
    }
  }

  /** Nothing in the second part touches the correspondence; after both parts `ack` has caught up. */
  lemma FinishKeeps(h: History, s: Snd, a: int, lite: bool, bufferLeft: int)
    requires Corresponds(h, s) && a <= s.dataAck && (s.ack == s.dataAck || (s.ack < s.dataAck && a == s.dataAck))
    ensures Corresponds(h, FinishAck(s, a, lite, bufferLeft))
    ensures var t := FinishAck(s, a, lite, bufferLeft);
      t.ack == t.dataAck == s.dataAck && t.loss == s.loss && t.q == s.q && t.curr == s.curr && t.broken == s.broken
  {
    SameCorresponds(h, s, FinishAck(s, a, lite, bufferLeft));
  }

  lemma SameCorresponds(h: History, s: Snd, t: Snd)
    requires Corresponds(h, s) && t.q == s.q && t.dataAck == s.dataAck && t.curr == s.curr
    requires forall x :: x in t.loss ==> s.dataAck <= x <= s.curr
    ensures Corresponds(h, t)
  {
    forall i | 0 <= i < |t.q.chunks| ensures Holds(h, t, i) {
      assert Holds(h, s, i);
    }
    forall x ensures SentRight(h, t, x) {
      assert SentRight(h, s, x);
    }
  }

  // ---------- losses ----------

  function TakeLossReport(s: Snd, rs: seq<Range>): Snd {
    var d := TakeRanges(rs, s.ack, s.curr, s.loss);
    s.(loss := d.loss, broken := s.broken || !d.verdict.Secure?)
  }

  lemma LossReportKeeps(h: History, s: Snd, rs: seq<Range>)
    requires Corresponds(h, s) && s.ack == s.dataAck
    ensures Corresponds(h, TakeLossReport(s, rs))
  {
    TakenStaysInside(rs, s.ack, s.curr, s.loss);
    SameCorresponds(h, s, TakeLossReport(s, rs));
  }

  /** Everything sent and not acknowledged is to be sent again. */
  function RexmitAll(s: Snd): Snd {
    s.(loss := s.loss + Numbers(s.ack, s.curr))
  }

  lemma RexmitAllKeeps(h: History, s: Snd)
    requires Corresponds(h, s) && s.ack == s.dataAck
    ensures Corresponds(h, RexmitAll(s))
  {
    SameCorresponds(h, s, RexmitAll(s));
  }

  /** A packet of the loss list is read at a place that exists, and what is read there is the packet as it was sent the
      first time; so the branch for a negative offset and the one for an empty packet are never taken. */
  lemma LostIsStored(h: History, s: Snd, x: int)
    requires Corresponds(h, s) && x in s.loss
    ensures 0 <= x - s.dataAck < |s.q.chunks| && |s.q.chunks[x - s.dataAck].payload| > 0
    ensures x in h.sent && s.q.chunks[x - s.dataAck] == h.sent[x]
    ensures Corresponds(h, s.(loss := s.loss - {x}))
  {
    assert Holds(h, s, x - s.dataAck);
    SameCorresponds(h, s, s.(loss := s.loss - {x}));
  }

  // ---------- new data ----------

  function SendNext(s: Snd, key: bv2): Snd
    requires s.q.cursor < |s.q.chunks|
  {
    s.(q := Advance(s.q, key), curr := s.curr + 1)
  }

  function Sent(h: History, s: Snd, key: bv2): History
    requires s.q.cursor < |s.q.chunks|
  {
    h.(sent := h.sent[s.curr + 1 := Advance(s.q, key).chunks[s.q.cursor]])
  }

  /** A new packet takes the next number, was never sent before, and carries the chunk accepted under that number. */
  lemma SendNextKeeps(h: History, s: Snd, key: bv2)
    requires Corresponds(h, s) && s.q.cursor < |s.q.chunks|
    ensures s.curr + 1 !in h.sent && Corresponds(Sent(h, s, key), SendNext(s, key))
  {
    var h', s' := Sent(h, s, key), SendNext(s, key);
    assert SentRight(h, s, s.curr + 1);
    forall i | 0 <= i < |s'.q.chunks| ensures Holds(h', s', i) {
      assert Holds(h, s, i);
    }
    forall x ensures SentRight(h', s', x) {
      assert SentRight(h, s, x) && Holds(h, s, s.q.cursor);
    }
  }

  /** Reading a chunk that cannot be encrypted moves the cursor but no number: the correspondence is lost for good. */
  lemma NoKeyBreaks(h: History, s: Snd)
    requires Corresponds(h, s) && s.q.cursor < |s.q.chunks|
    ensures !Corresponds(h, s.(q := Advance(s.q, 0)))
  {
  }

  // ---------- dropping what is too late ----------

  /** Drops n chunks from the front, sent or not; the current number jumps over what was never sent. */
  function DropLate(s: Snd, n: nat): Snd
    requires n <= |s.q.chunks|
  {
    if n == 0 then s
    else
      var f := s.dataAck + n;
      s.(ack := f, dataAck := f, loss := (set x | x in s.loss && x >= f), curr := (if s.curr < f - 1 then f - 1 else s.curr),
        q := DropFirst(s.q, n))
  }

  lemma DropLateKeeps(h: History, s: Snd, n: nat)
    requires Corresponds(h, s) && n <= |s.q.chunks|
    ensures Corresponds(h, DropLate(s, n))
  {
    if n > 0 {
      var s' := DropLate(s, n);
      forall i | 0 <= i < |s'.q.chunks| ensures Holds(h, s', i) {
        assert Holds(h, s, i + n);
      }
      forall x ensures SentRight(h, s', x) {
        assert SentRight(h, s, x);
      }
    }
  }
}
