/** A sender, a receiver and a network between them that loses, duplicates and reorders everything: whatever happens, the
    application reads what the other application wrote. */
module EndToEnd {
  import opened Options
  import opened SendBuffer
  import opened ReceiveBuffer
  import opened LossRanges
  import opened LossReport
  import SenderState
  import ReceiverState

  datatype Message =
    | Data(seqno: int, chunk: Chunk)
    | Ack(ack: int, lite: bool, bufferLeft: int)
    | Report(ranges: seq<Range>)

  /** Processing an acknowledgement takes two locked sections; other threads may act between them. */
  datatype Phase = Idle | Between(ack: int, lite: bool, bufferLeft: int)

  /** `net` holds every message ever sent: any of them may arrive at any time, any number of times, or never. With a
      packet filter in use, what arrives may also have been rebuilt. */
  datatype World = World(h: SenderState.History, s: SenderState.Snd, phase: Phase, r: ReceiverState.Rcv,
                         net: set<Message>, filtered: bool, submitted: Bytes, delivered: Bytes)

  ghost predicate Init(w: World) {
    w.h == SenderState.History(w.h.isn, [], map[])
    && w.s == SenderState.Snd(Queue([], 0), w.h.isn, w.h.isn, w.h.isn, w.h.isn - 1, {}, w.s.window, false)
    && w.phase.Idle? && w.net == {} && w.submitted == [] && w.delivered == []
    && |w.r.buf.units| > 0
    && w.r == ReceiverState.Rcv(Slots(Empty(|w.r.buf.units|), 0, 0, 0), w.h.isn, w.h.isn - 1, {}, w.h.isn)
  }

  // ---------- the steps of the sending side ----------

  ghost predicate Submit(w: World, w': World, data: Bytes, chunks: seq<Chunk>) {
    (exists mss: nat, msgno, inorder, now, source :: mss > 0 && chunks == Cut(data, mss, msgno, inorder, now, source))
    && w' == w.(s := SenderState.Submit(w.s, chunks), h := w.h.(accepted := w.h.accepted + chunks), submitted := w.submitted + data)
  }

  ghost predicate SendNew(w: World, w': World, key: bv2) {
    w.s.q.cursor < |w.s.q.chunks|
    && var h := SenderState.Sent(w.h, w.s, key);
       w' == w.(h := h, s := SenderState.SendNext(w.s, key), net := w.net + {Data(w.s.curr + 1, h.sent[w.s.curr + 1])})
  }

  ghost predicate Resend(w: World, w': World, x: int) {
    IsSmallest(w.s.loss, x) && 0 <= x - w.s.dataAck < |w.s.q.chunks|
    && w' == w.(s := w.s.(loss := w.s.loss - {x}), net := w.net + {Data(x, w.s.q.chunks[x - w.s.dataAck])})
  }

  ghost predicate TimerFires(w: World, w': World) {
    w.phase.Idle? && w' == w.(s := SenderState.RexmitAll(w.s))
  }

  ghost predicate AckArrives(w: World, w': World, m: Message) {
    m in w.net && m.Ack? && w.phase.Idle? && m.ack <= w.s.dataAck + |w.s.q.chunks|
    && w' == w.(s := SenderState.UpdateOnAck(w.s, m.ack), phase := Between(m.ack, m.lite, m.bufferLeft))
  }

  ghost predicate AckFinishes(w: World, w': World) {
    w.phase.Between?
    && w' == w.(s := SenderState.FinishAck(w.s, w.phase.ack, w.phase.lite, w.phase.bufferLeft), phase := Idle)
  }

  ghost predicate ReportArrives(w: World, w': World, m: Message) {
    m in w.net && m.Report? && w.phase.Idle? && w' == w.(s := SenderState.TakeLossReport(w.s, m.ranges))
  }

  // ---------- the steps of the receiving side ----------

  /** The packet was sent as it is; or it was rebuilt, which restores its payload, but not the place in its message. */
  ghost predicate Genuine(w: World, u: Unit) {
    Data(u.seqno, u.chunk) in w.net
    || (w.filtered && exists c :: Data(u.seqno, c) in w.net && c.payload == u.chunk.payload)
  }

  /** One packet, or several that a packet filter gave out together, in order. */
  ghost predicate DataArrives(w: World, w': World, us: seq<Unit>) {
    (forall i :: 0 <= i < |us| ==> Genuine(w, us[i])) && ReceiverState.Sorted(us)
    && !(ReceiverState.Overflows(w.r, us) && exists x :: ReceiverState.LeftOut(w.r, us, x))
    && w.r.buf.acked < |w.r.buf.units| && w' == w.(r := ReceiverState.Arrival(w.r, us))
  }

  ghost predicate SendLite(w: World, w': World, ack: int) {
    ReceiverState.IsNextAck(w.r, ack) && w' == w.(net := w.net + {Ack(ack, true, 0)})
  }

  ghost predicate SendFull(w: World, w': World, ack: int, bufferLeft: int) {
    ReceiverState.IsNextAck(w.r, ack) && ack >= w.r.ack && |w.r.buf.units| > 0
    && w' == w.(r := ReceiverState.AckTo(w.r, ack), net := w.net + {Ack(ack, false, bufferLeft)})
  }

  ghost predicate AckConfirmed(w: World, w': World, ack: int) {
    w' == w.(r := w.r.(ackAck := ack))
  }

  /** A loss report, immediate, belated or periodic, speaks of numbers up to the highest received. */
  ghost predicate SendReport(w: World, w': World, rs: seq<Range>) {
    (forall i :: 0 <= i < |rs| ==> rs[i].lo <= rs[i].hi <= w.r.curr) && w' == w.(net := w.net + {Report(rs)})
  }

  ghost predicate Read(w: World, w': World, c: Slots, data: Bytes) {
    HasRead(w.r.buf, c, data) && w' == w.(r := w.r.(buf := c), delivered := w.delivered + data)
  }

  ghost predicate SenderStep(w: World, w': World) {
    (exists data, chunks :: Submit(w, w', data, chunks)) || SendingStep(w, w')
  }

  ghost predicate SendingStep(w: World, w': World) {
    (exists key :: SendNew(w, w', key))
    || (exists x :: Resend(w, w', x))
    || TimerFires(w, w')
    || (exists m :: AckArrives(w, w', m))
    || AckFinishes(w, w')
    || (exists m :: ReportArrives(w, w', m))
  }

  ghost predicate ReceiverStep(w: World, w': World) {
    (exists c, data :: Read(w, w', c, data)) || ReceivingStep(w, w')
  }

  ghost predicate ReceivingStep(w: World, w': World) {
    (exists us :: DataArrives(w, w', us))
    || (exists ack :: SendLite(w, w', ack))
    || (exists ack, left :: SendFull(w, w', ack, left))
    || (exists ack :: AckConfirmed(w, w', ack))
    || (exists rs :: SendReport(w, w', rs))
  }

  // ---------- what holds in every world ----------

  /** Everything before a has been received. */
  ghost predicate ReceivedBelow(r: ReceiverState.Rcv, a: int) {
    a <= r.curr + 1 && forall x :: x in r.loss ==> a <= x
  }

  ghost predicate MessageOK(w: World, m: Message) {
    match m
    case Data(x, c) => x in w.h.sent && w.h.sent[x] == c
    case Ack(a, _, _) => ReceivedBelow(w.r, a)
    case Report(rs) => forall i :: 0 <= i < |rs| ==> rs[i].lo <= rs[i].hi <= w.r.curr
  }

  /** What arrived is what was sent, as far as the filter lets it be. */
  predicate IsAs(w: World, sent: Chunk, c: Chunk) {
    c == sent || (w.filtered && c.payload == sent.payload)
  }

  ghost predicate UnitOK(w: World, k: int) {
    0 <= k < |w.r.buf.units| && w.r.buf.units[k].Some? ==>
      var u := w.r.buf.units[k].value;
      u.seqno in w.h.sent && IsAs(w, w.h.sent[u.seqno], u.chunk)
  }

  ghost predicate AckPhase(w: World) {
    w.s.ack == w.s.dataAck || (w.phase.Between? && w.phase.ack == w.s.dataAck && w.s.ack < w.s.dataAck)
  }

  ghost predicate SenderOK(w: World) {
    SenderState.Corresponds(w.h, w.s) && !w.s.broken && AckPhase(w) && w.submitted == Payloads(w.h.accepted)
    && (w.phase.Between? ==> w.phase.ack <= w.s.dataAck)
    && w.r.curr <= w.s.curr && ReceivedBelow(w.r, w.s.dataAck)
  }

  /** What was delivered and what waits to be read is exactly what was accepted under the acknowledged numbers. */
  ghost predicate StreamOK(w: World) {
    w.h.isn <= w.r.ack <= w.h.isn + |w.h.accepted| && Readable(w.r.buf)
    && w.delivered + Waiting(w.r.buf) == Payloads(w.h.accepted[..w.r.ack - w.h.isn])
  }

  ghost predicate ReceiverOK(w: World) {
    ReceiverState.Covered(w.r) && w.h.isn <= ReceiverState.NumberAt(w.r, 0)
    && (forall k {:trigger UnitOK(w, k)} :: UnitOK(w, k))
    && StreamOK(w)
  }

  ghost predicate Inv(w: World) {
    SenderOK(w) && ReceiverOK(w) && forall m {:trigger MessageOK(w, m)} :: m in w.net ==> MessageOK(w, m)
  }

  // ---------- every step keeps it ----------

  /** Steps that leave the receiver alone, forget nothing that was sent or accepted, and add only good messages. */
  lemma ReceiverUntouched(w: World, w': World)
    requires Inv(w) && w'.r == w.r && w'.filtered == w.filtered && w'.delivered == w.delivered && w.h.accepted <= w'.h.accepted && w'.h.isn == w.h.isn
    requires forall x :: x in w.h.sent ==> x in w'.h.sent && w'.h.sent[x] == w.h.sent[x]
    ensures ReceiverOK(w') && forall m {:trigger MessageOK(w', m)} :: m in w.net ==> MessageOK(w', m)
  {
    forall k ensures UnitOK(w', k) {
      assert UnitOK(w, k);
    }
    var n := w.r.ack - w.h.isn;
    assert w'.h.accepted[..n] == w.h.accepted[..n];
    forall m | m in w.net ensures MessageOK(w', m) {
      assert MessageOK(w, m);
    }
  }

  lemma SubmitKeeps(w: World, w': World, data: Bytes, chunks: seq<Chunk>)
    requires Inv(w) && Submit(w, w', data, chunks)
    ensures Inv(w')
  {
    var mss: nat, msgno, inorder, now, source :| mss > 0 && chunks == Cut(data, mss, msgno, inorder, now, source);
    CutIsWhole(data, mss, msgno, inorder, now, source);
    SenderState.SubmitKeeps(w.h, w.s, chunks);
    PayloadsAppend(w.h.accepted, chunks);
    ReceiverUntouched(w, w');
  }

  lemma SendNewKeeps(w: World, w': World, key: bv2)
    requires Inv(w) && SendNew(w, w', key)
    ensures Inv(w')
  {
    SenderState.SendNextKeeps(w.h, w.s, key);
    ReceiverUntouched(w, w');
  }

  lemma ResendKeeps(w: World, w': World, x: int)
    requires Inv(w) && Resend(w, w', x)
    ensures Inv(w')
  {
    SenderState.LostIsStored(w.h, w.s, x);
    ReceiverUntouched(w, w');
  }

  lemma TimerKeeps(w: World, w': World)
    requires Inv(w) && TimerFires(w, w')
    ensures Inv(w')
  {
    SenderState.RexmitAllKeeps(w.h, w.s);
    ReceiverUntouched(w, w');
  }

  lemma AckArrivesKeeps(w: World, w': World, m: Message)
    requires Inv(w) && AckArrives(w, w', m)
    ensures Inv(w')
  {
    assert MessageOK(w, m);
    SenderState.AckKeepsIffSent(w.h, w.s, m.ack);
    ReceiverUntouched(w, w');
  }

  lemma AckFinishesKeeps(w: World, w': World)
    requires Inv(w) && AckFinishes(w, w')
    ensures Inv(w')
  {
    SenderState.FinishKeeps(w.h, w.s, w.phase.ack, w.phase.lite, w.phase.bufferLeft);
    ReceiverUntouched(w, w');
  }

  lemma ReportKeeps(w: World, w': World, m: Message)
    requires Inv(w) && ReportArrives(w, w', m)
    ensures Inv(w')
  {
    assert MessageOK(w, m);
    SenderState.LossReportKeeps(w.h, w.s, m.ranges);
    SecureMeansSent(m.ranges, w.s.ack, w.s.curr, w.s.loss);
    ReceiverUntouched(w, w');
  }

  /** Steps that leave the sender alone: the receiver must stay good and nothing received be unreceived. */
  lemma SenderUntouched(w: World, w': World)
    requires Inv(w) && w'.s == w.s && w'.h == w.h && w'.phase == w.phase && w'.submitted == w.submitted
    requires w.r.curr <= w'.r.curr <= w.s.curr && forall a :: ReceivedBelow(w.r, a) ==> ReceivedBelow(w'.r, a)
    ensures SenderOK(w') && forall m {:trigger MessageOK(w', m)} :: m in w.net ==> MessageOK(w', m)
  {
    forall m | m in w.net ensures MessageOK(w', m) {
      assert MessageOK(w, m);
    }
  }

  lemma SendReportKeeps(w: World, w': World, rs: seq<Range>)
    requires Inv(w) && SendReport(w, w', rs)
    ensures Inv(w')
  {
    SenderUntouched(w, w');
    ReceiverSame(w, w');
  }

  lemma SendLiteKeeps(w: World, w': World, ack: int)
    requires Inv(w) && SendLite(w, w', ack)
    ensures Inv(w')
  {
    ReceiverState.AckIsSafe(w.r, ack);
    SenderUntouched(w, w');
    ReceiverSame(w, w');
  }

  lemma ReceiverSame(w: World, w': World)
    requires ReceiverOK(w) && w'.r == w.r && w'.h == w.h && w'.filtered == w.filtered && w'.delivered == w.delivered
    ensures ReceiverOK(w')
  {
    SameUnits(w, w');
  }

  lemma SameUnits(w: World, w': World)
    requires (forall k {:trigger UnitOK(w, k)} :: UnitOK(w, k)) && w'.r.buf.units == w.r.buf.units && w'.h == w.h && w'.filtered == w.filtered
    ensures forall k {:trigger UnitOK(w', k)} :: UnitOK(w', k)
  {
    forall k ensures UnitOK(w', k) {
      assert UnitOK(w, k);
    }
  }

  lemma AckConfirmedKeeps(w: World, w': World, ack: int)
    requires Inv(w) && AckConfirmed(w, w', ack)
    ensures Inv(w')
  {
    assert ReceiverState.Covered(w'.r) by {
      forall k ensures ReceiverState.Holds(w'.r, k) {
        assert ReceiverState.Holds(w.r, k);
      }
    }
    SenderUntouched(w, w');
    SameUnits(w, w');
  }

  /** What slot k holds is what was accepted under its number. */
  lemma SlotHoldsAccepted(w: World, k: nat)
    requires Inv(w) && k < |w.r.buf.units| && w.r.buf.units[k].Some?
    ensures var at := w.r.buf.units[k].value.seqno - w.h.isn;
      0 <= at < |w.h.accepted| && w.r.buf.units[k].value.chunk.payload == w.h.accepted[at].payload
  {
    assert UnitOK(w, k);
    assert SenderState.SentRight(w.h, w.s, w.r.buf.units[k].value.seqno);
  }

  /** The payloads of n slots that hold the chunks accepted from number `at` on. */
  lemma {:induction false} SlotsSpell(units: seq<Option<Unit>>, chunks: seq<Chunk>)
    requires |units| == |chunks| && Full(units)
    requires forall i :: 0 <= i < |units| ==> units[i].value.chunk.payload == chunks[i].payload
    ensures Payload(units) == Payloads(chunks)
  {
    if units != [] {
      SlotsSpell(units[1..], chunks[1..]);
    }
  }

  lemma {:induction false} PayloadSplit(a: seq<Option<Unit>>, b: seq<Option<Unit>>)
    requires Full(a) && Full(b)
    ensures Payload(a + b) == Payload(a) + Payload(b)
  {
    if a == [] {
      assert a + b == b;
    } else {
      assert (a + b)[1..] == a[1..] + b;
      PayloadSplit(a[1..], b);
    }
  }

  /** The slots that an acknowledgement releases spell the next accepted chunks. */
  lemma ReleasedSlotsSpell(w: World, ack: int)
    requires Inv(w) && ReceiverState.IsNextAck(w.r, ack)
    ensures w.r.ack <= ack && ack - w.h.isn <= |w.h.accepted| && w.r.buf.acked + (ack - w.r.ack) < |w.r.buf.units|
    ensures var released := w.r.buf.units[w.r.buf.acked..w.r.buf.acked + (ack - w.r.ack)];
      Full(released) && Payload(released) == Payloads(w.h.accepted[w.r.ack - w.h.isn..ack - w.h.isn])
  {
    ReceiverState.AckIsSafe(w.r, ack);
    var n := ack - w.r.ack;
    var released := w.r.buf.units[w.r.buf.acked..w.r.buf.acked + n];
    var more := w.h.accepted[w.r.ack - w.h.isn..ack - w.h.isn];
    forall i | 0 <= i < n ensures released[i].Some? && released[i].value.chunk.payload == more[i].payload {
      assert ReceiverState.Stored(w.r, w.r.ack + i);
      SlotHoldsAccepted(w, w.r.buf.acked + i);
    }
    SlotsSpell(released, more);
  }

  lemma AckToIs(w: World, ack: int)
    requires Inv(w) && ReceiverState.IsNextAck(w.r, ack)
    ensures w.r.ack <= ack && |w.r.buf.units| > 0
    ensures var b, t := w.r.buf, ReceiverState.AckTo(w.r, ack).buf;
      Readable(t) && t.units == b.units && t.acked == b.acked + (ack - w.r.ack) && t.notch == b.notch
  {
    ReceiverState.AckToKeeps(w.r, ack);
    ReceiverState.AckIsSafe(w.r, ack);
  }

  /** Acknowledging releases exactly the next accepted chunks to the stream. */
  lemma AckExtendsStream(w: World, ack: int)
    requires Inv(w) && ReceiverState.IsNextAck(w.r, ack)
    ensures w.r.ack <= ack && StreamOK(w.(r := ReceiverState.AckTo(w.r, ack)))
  {
    AckToIs(w, ack);
    ReleasedSlotsSpell(w, ack);
    StreamGrows(w.delivered, w.r.buf, ReceiverState.AckTo(w.r, ack).buf, w.h.accepted, w.r.ack - w.h.isn, ack - w.h.isn);
  }

  lemma StreamGrows(delivered: Bytes, b: Slots, t: Slots, accepted: seq<Chunk>, p: nat, q: nat)
    requires Readable(b) && Readable(t) && p <= q <= |accepted|
    requires t.units == b.units && t.acked == b.acked + (q - p) && t.notch == b.notch
    requires delivered + Waiting(b) == Payloads(accepted[..p])
    requires Full(b.units[b.acked..t.acked]) && Payload(b.units[b.acked..t.acked]) == Payloads(accepted[p..q])
    ensures delivered + Waiting(t) == Payloads(accepted[..q])
  {
    var more := Payloads(accepted[p..q]);
    PayloadUpTo(b.units, b.acked, t.acked);
    PayloadsUpTo(accepted, p, q);
    WaitingGrows(b, t, t.acked - b.acked, more);
    Glued(delivered, Waiting(b), Waiting(t), more, Payloads(accepted[..p]), Payloads(accepted[..q]));
  }

  lemma Glued(delivered: Bytes, waiting: Bytes, waiting': Bytes, more: Bytes, before: Bytes, after: Bytes)
    requires delivered + waiting == before && waiting' == waiting + more && after == before + more
    ensures delivered + waiting' == after
  {
    assert delivered + (waiting + more) == (delivered + waiting) + more;
  }

  lemma PayloadUpTo(units: seq<Option<Unit>>, a: nat, c: nat)
    requires a <= c <= |units| && Full(units[..a]) && Full(units[a..c])
    ensures Full(units[..c]) && Payload(units[..c]) == Payload(units[..a]) + Payload(units[a..c])
  {
    assert units[..c] == units[..a] + units[a..c];
    PayloadSplit(units[..a], units[a..c]);
  }

  lemma PayloadsUpTo(chunks: seq<Chunk>, p: nat, q: nat)
    requires p <= q <= |chunks|
    ensures Payloads(chunks[..q]) == Payloads(chunks[..p]) + Payloads(chunks[p..q])
  {
    assert chunks[..q] == chunks[..p] + chunks[p..q];
    PayloadsAppend(chunks[..p], chunks[p..q]);
  }

  lemma WaitingGrows(b: Slots, t: Slots, n: nat, more: Bytes)
    requires Readable(b) && Readable(t) && t.units == b.units && t.acked == b.acked + n && t.notch == b.notch
    requires Payload(t.units[..t.acked]) == Payload(b.units[..b.acked]) + more
    ensures Waiting(t) == Waiting(b) + more
  {
    if b.acked == 0 {
      assert t.notch == 0 && b.units[..0] == [];
    } else {
      TakenInTwo(b.units[..b.acked]);
    }
  }

  lemma SendFullKeeps(w: World, w': World, ack: int, bufferLeft: int)
    requires Inv(w) && SendFull(w, w', ack, bufferLeft)
    ensures Inv(w')
  {
    ReceiverState.AckToKeeps(w.r, ack);
    ReceiverState.AckIsSafe(w.r, ack);
    AckExtendsStream(w, ack);
    assert w'.r.loss == w.r.loss && w'.r.curr == w.r.curr;
    SenderUntouched(w, w');
    SameUnits(w, w');
  }

  lemma ReadKeeps(w: World, w': World, c: Slots, data: Bytes)
    requires Inv(w) && Read(w, w', c, data)
    ensures Inv(w')
  {
    ReceiverState.ReadKeeps(w.r, c, data);
    SenderUntouched(w, w');
    var n := w.r.buf.acked - c.acked;
    forall k ensures UnitOK(w', k) {
      assert UnitOK(w, k + n);
    }
    assert w.delivered + (data + Waiting(c)) == w'.delivered + Waiting(c);
  }

  /** What an arrival leaves in the slots was there before or has just arrived. */
  lemma {:induction false} UnitsComeFrom(r: ReceiverState.Rcv, skipped: set<int>, excessive: bool, us: seq<Unit>, k: nat)
    requires r.buf.acked < |r.buf.units| && k < |r.buf.units|
    ensures var t := ReceiverState.TakeUnits(r, skipped, excessive, us).r;
      t.ack == r.ack && t.buf.acked == r.buf.acked && t.buf.notch == r.buf.notch && |t.buf.units| == |r.buf.units|
      && (k < r.buf.acked ==> t.buf.units[k] == r.buf.units[k])
      && (t.buf.units[k] == r.buf.units[k]
          || (t.buf.units[k].Some? && exists i :: 0 <= i < |us| && t.buf.units[k].value == us[i].(flag := Good)))
    decreases |us|
  {
    if us != [] {
      var rest := us[1..];
      assert forall i :: 0 <= i < |rest| ==> rest[i] == us[i + 1];
      if us[0].seqno < r.ack {
        UnitsComeFrom(r, skipped, excessive, rest, k);
      } else if us[0].seqno - r.ack < Avail(r.buf) {
        var t := ReceiverState.TakeUnit(r, us[0]);
        var added := AddData(r.buf, us[0], us[0].seqno - r.ack).1;
        UnitsComeFrom(t, skipped + ReceiverState.SkippedBy(r, us[0]), excessive && !added, rest, k);
        assert t.buf.units[k] == r.buf.units[k] || t.buf.units[k] == Some(us[0].(flag := Good));
      }
    }
  }

  /** Only arrived numbers raise the highest number, and only they leave the loss list; what enters it is new. */
  lemma {:induction false} ArrivalNumbers(r: ReceiverState.Rcv, skipped: set<int>, excessive: bool, us: seq<Unit>, top: int)
    requires r.buf.acked < |r.buf.units| && r.curr <= top && forall i :: 0 <= i < |us| ==> us[i].seqno <= top
    ensures var b := ReceiverState.TakeUnits(r, skipped, excessive, us);
      r.curr <= b.r.curr <= top && b.r.loss <= r.loss && forall x :: x in b.skipped ==> x in skipped || r.curr < x
    decreases |us|
  {
    if us != [] {
      var rest := us[1..];
      assert forall i :: 0 <= i < |rest| ==> rest[i] == us[i + 1];
      if us[0].seqno < r.ack {
        ArrivalNumbers(r, skipped, excessive, rest, top);
      } else if us[0].seqno - r.ack < Avail(r.buf) {
        var added := AddData(r.buf, us[0], us[0].seqno - r.ack).1;
        ArrivalNumbers(ReceiverState.TakeUnit(r, us[0]), skipped + ReceiverState.SkippedBy(r, us[0]), excessive && !added, rest, top);
      }
    }
  }

  lemma GenuineWasSent(w: World, u: Unit)
    requires Inv(w) && Genuine(w, u)
    ensures u.seqno <= w.s.curr && u.seqno in w.h.sent && IsAs(w, w.h.sent[u.seqno], u.chunk)
  {
    var c: Chunk :| Data(u.seqno, c) in w.net && (c == u.chunk || (w.filtered && c.payload == u.chunk.payload));
    assert MessageOK(w, Data(u.seqno, c));
    assert SenderState.SentRight(w.h, w.s, u.seqno);
  }

  lemma DataArrivesKeeps(w: World, w': World, us: seq<Unit>)
    requires Inv(w) && DataArrives(w, w', us)
    ensures Inv(w')
  {
    forall i | 0 <= i < |us| ensures us[i].seqno <= w.s.curr && us[i].seqno in w.h.sent && IsAs(w, w.h.sent[us[i].seqno], us[i].chunk) {
      GenuineWasSent(w, us[i]);
    }
    ReceiverState.ArrivalKeepsIff(w.r, us);
    ArrivalNumbers(w.r, {}, true, us, w.s.curr);
    SenderUntouched(w, w');
    UnitsComeFrom(w.r, {}, true, us, 0);
    assert |w'.r.buf.units| == |w.r.buf.units|;
    forall k ensures UnitOK(w', k) {
      if 0 <= k < |w.r.buf.units| {
        UnitsComeFrom(w.r, {}, true, us, k);
        assert UnitOK(w, k);
        if w'.r.buf.units[k] != w.r.buf.units[k] {
          var i :| 0 <= i < |us| && w'.r.buf.units[k].value == us[i].(flag := Good);
          assert us[i].seqno in w.h.sent;
        }
      }
    }
    forall k | 0 <= k < w.r.buf.acked ensures w'.r.buf.units[k] == w.r.buf.units[k] {
      UnitsComeFrom(w.r, {}, true, us, k);
    }
    assert w'.r.buf.units[..w.r.buf.acked] == w.r.buf.units[..w.r.buf.acked];
    assert ReceiverState.NumberAt(w'.r, 0) == ReceiverState.NumberAt(w.r, 0);
  }

  // ---------- all runs ----------

  lemma InitHolds(w: World)
    requires Init(w)
    ensures Inv(w)
  {
    assert w.h.accepted[..0] == [];
  }

  lemma StepKeeps(w: World, w': World)
    requires Inv(w) && (SenderStep(w, w') || ReceiverStep(w, w'))
    ensures Inv(w')
  {
    if SenderStep(w, w') {
      SenderStepKeeps(w, w');
    } else {
      ReceiverStepKeeps(w, w');
    }
  }

  lemma SenderStepKeeps(w: World, w': World)
    requires Inv(w) && SenderStep(w, w')
    ensures Inv(w')
  {
    if data, chunks :| Submit(w, w', data, chunks) {
      SubmitKeeps(w, w', data, chunks);
    } else if key :| SendNew(w, w', key) {
      SendNewKeeps(w, w', key);
    } else if x :| Resend(w, w', x) {
      ResendKeeps(w, w', x);
    } else if TimerFires(w, w') {
      TimerKeeps(w, w');
    } else if m :| AckArrives(w, w', m) {
      AckArrivesKeeps(w, w', m);
    } else if AckFinishes(w, w') {
      AckFinishesKeeps(w, w');
    } else {
      var m :| ReportArrives(w, w', m);
      ReportKeeps(w, w', m);
    }
  }

  lemma ReceiverStepKeeps(w: World, w': World)
    requires Inv(w) && ReceiverStep(w, w')
    ensures Inv(w')
  {
    if c, data :| Read(w, w', c, data) {
      ReadKeeps(w, w', c, data);
    } else if us :| DataArrives(w, w', us) {
      DataArrivesKeeps(w, w', us);
    } else if ack :| SendLite(w, w', ack) {
      SendLiteKeeps(w, w', ack);
    } else if ack, left :| SendFull(w, w', ack, left) {
      SendFullKeeps(w, w', ack, left);
    } else if ack :| AckConfirmed(w, w', ack) {
      AckConfirmedKeeps(w, w', ack);
    } else {
      var rs :| SendReport(w, w', rs);
      SendReportKeeps(w, w', rs);
    }
  }

  /** Sending, and acknowledging, neither accept anything nor read anything. */
  lemma SendingStaysPut(w: World, w': World)
    requires SendingStep(w, w')
    ensures w'.r == w.r && w'.h.accepted == w.h.accepted && w'.h.isn == w.h.isn && w'.filtered == w.filtered
  {
  }

  lemma ReceivingStaysPut(w: World, w': World)
    requires ReceiverState.Covered(w.r) && ReceivingStep(w, w')
    ensures w'.h == w.h && w'.filtered == w.filtered && StaysPut(w.r, w'.r)
  {
    if us :| DataArrives(w, w', us) {
      ArrivalStaysPut(w.r, us);
    } else if ack, left :| SendFull(w, w', ack, left) {
      ReceiverState.AckToKeeps(w.r, ack);
    }
  }

  /** The first slot stands for the same number, and as much of it has been read. */
  ghost predicate StaysPut(r: ReceiverState.Rcv, t: ReceiverState.Rcv) {
    t.buf.notch == r.buf.notch && ReceiverState.NumberAt(t, 0) == ReceiverState.NumberAt(r, 0)
  }

  lemma ArrivalStaysPut(r: ReceiverState.Rcv, us: seq<Unit>)
    requires r.buf.acked < |r.buf.units|
    ensures StaysPut(r, ReceiverState.Arrival(r, us))
  {
    UnitsComeFrom(r, {}, true, us, 0);
  }

  /** A run: it starts fresh, and every world follows from the one before by a step of either side. */
  ghost predicate IsRun(run: seq<World>) {
    run != [] && Init(run[0])
    && forall i :: 0 <= i < |run| - 1 ==> SenderStep(run[i], run[i + 1]) || ReceiverStep(run[i], run[i + 1])
  }

  lemma {:induction false} RunKeeps(run: seq<World>)
    requires IsRun(run)
    ensures Inv(run[|run| - 1])
  {
    if |run| == 1 {
      InitHolds(run[0]);
    } else {
      var before := run[..|run| - 1];
      RunKeeps(before);
      assert before[|before| - 1] == run[|run| - 2];
      StepKeeps(run[|run| - 2], run[|run| - 1]);
    }
  }

  ghost predicate IsPrefix(a: Bytes, b: Bytes) {
    |a| <= |b| && b[..|a|] == a
  }

  /** Reliable delivery: in every run, what has been read is a prefix of what has been written, and no acknowledgement or
      loss report that the receiver sends ever looks like an attack to the sender. */
  lemma ReadIsPrefixOfWritten(run: seq<World>)
    requires IsRun(run)
    ensures var w := run[|run| - 1]; IsPrefix(w.delivered, w.submitted) && !w.s.broken
  {
    RunKeeps(run);
    var w := run[|run| - 1];
    var n := w.r.ack - w.h.isn;
    PayloadsUpTo(w.h.accepted, n, |w.h.accepted|);
    assert w.h.accepted[..|w.h.accepted|] == w.h.accepted;
    assert w.submitted == w.delivered + (Waiting(w.r.buf) + Payloads(w.h.accepted[n..]));
  }

  /** No step is held up by its own guard: an acknowledgement in the network never exceeds what was sent, so it can be
      processed; and whatever is in the loss list can be read from the buffer. */
  lemma GuardsHold(w: World)
    requires Inv(w)
    ensures forall m :: m in w.net && m.Ack? ==> m.ack <= w.s.curr + 1 <= w.s.dataAck + |w.s.q.chunks|
    ensures forall x :: x in w.s.loss ==> 0 <= x - w.s.dataAck < |w.s.q.chunks|
  {
    forall m | m in w.net && m.Ack? ensures m.ack <= w.s.curr + 1 {
      assert MessageOK(w, m);
    }
  }

  /** Nothing leaves the sender before it has arrived: whatever the receiver lacks of what was sent is still stored, as
      it was sent, and would be sent again if the timer ran out now. */
  lemma NothingReleasedEarly(w: World, x: int)
    requires Inv(w) && w.r.ack <= x <= w.s.curr && !ReceiverState.Stored(w.r, x)
    ensures w.s.dataAck <= x < w.s.dataAck + |w.s.q.chunks|
    ensures x in w.h.sent ==> w.s.q.chunks[x - w.s.dataAck] == w.h.sent[x]
    ensures w.phase.Idle? ==> x in SenderState.RexmitAll(w.s).loss
  {
    if x <= w.r.curr {
      ReceiverState.StoredOrLost(w.r, x);
    }
    assert SenderState.Holds(w.h, w.s, x - w.s.dataAck);
  }

  // ---------- what is to be sent again is sent again ----------

  /** In this step the number is sent again, or an acknowledgement beyond it is processed. */
  ghost predicate Settles(w: World, w': World, x: int) {
    Resend(w, w', x) || exists m :: AckArrives(w, w', m) && m.ack > x
  }

  lemma ReceiverLeavesSender(w: World, w': World)
    requires ReceiverStep(w, w')
    ensures w'.s == w.s
  {
  }

  /** A number that is to be sent again stays in the loss list until it is sent again or acknowledged, whatever step comes
      between. */
  lemma LossStays(w: World, w': World, x: int)
    requires Inv(w) && (SenderStep(w, w') || ReceiverStep(w, w')) && x in w.s.loss
    ensures x in w'.s.loss || Settles(w, w', x)
  {
    if ReceiverStep(w, w') {
      ReceiverLeavesSender(w, w');
    } else if data, chunks :| Submit(w, w', data, chunks) {
    } else if m :| AckArrives(w, w', m) {
      AckTakesOnlyPast(w, w', m, x);
    } else if m :| ReportArrives(w, w', m) {
      TakenStaysInside(m.ranges, w.s.ack, w.s.curr, w.s.loss);
    } else if y :| Resend(w, w', y) {
      assert x != y ==> x in w'.s.loss;
    }
  }

  lemma AckTakesOnlyPast(w: World, w': World, m: Message, x: int)
    requires AckArrives(w, w', m) && SenderState.Corresponds(w.h, w.s)
    ensures x in w'.s.loss <==> x in w.s.loss && x >= m.ack
  {
  }

  /** And a number gets there only because a report that has arrived lists it, or because the timer has run out; then it
      has been sent and is not acknowledged. */
  lemma LossHasCause(w: World, w': World, x: int)
    requires Inv(w) && (SenderStep(w, w') || ReceiverStep(w, w')) && x !in w.s.loss && x in w'.s.loss
    ensures w.s.ack <= x <= w.s.curr
    ensures TimerFires(w, w') || exists m :: ReportArrives(w, w', m) && Covers(m.ranges, x)
  {
    if ReceiverStep(w, w') {
      ReceiverLeavesSender(w, w');
    } else if TimerFires(w, w') {
    } else if m :| ReportArrives(w, w', m) {
      ReportAdds(w, w', m, x);
    } else {
      OthersAddNoLoss(w, w');
    }
  }

  lemma ReportAdds(w: World, w': World, m: Message, x: int)
    requires Inv(w) && ReportArrives(w, w', m) && x !in w.s.loss && x in w'.s.loss
    ensures Covers(m.ranges, x) && w.s.ack <= x <= w.s.curr
  {
    assert MessageOK(w, m);
    ReportComesThrough(m.ranges, w.s.ack, w.s.curr, w.s.loss);
    TakenStaysInside(m.ranges, w.s.ack, w.s.curr, w.s.loss);
  }

  lemma OthersAddNoLoss(w: World, w': World)
    requires SenderStep(w, w') && !TimerFires(w, w') && !exists m :: ReportArrives(w, w', m)
    ensures w'.s.loss <= w.s.loss
  {
    if data, chunks :| Submit(w, w', data, chunks) {
    } else if key :| SendNew(w, w', key) {
    } else if x :| Resend(w, w', x) {
    } else if m :| AckArrives(w, w', m) {
    } else {
      assert AckFinishes(w, w');
    }
  }

  /** In every run: what is to be sent again at one time is so at any later time, unless it has been sent again or
      acknowledged between the two. */
  lemma {:induction false} LossStaysInRun(run: seq<World>, i: nat, j: nat, x: int)
    requires IsRun(run) && i <= j < |run| && x in run[i].s.loss
    ensures x in run[j].s.loss || exists k :: i <= k < j && Settles(run[k], run[k + 1], x)
    decreases j - i
  {
    if i < j {
      RunKeepsAt(run, i);
      LossStays(run[i], run[i + 1], x);
      if x in run[i + 1].s.loss {
        LossStaysInRun(run, i + 1, j, x);
      }
    }
  }

  lemma RunKeepsAt(run: seq<World>, i: nat)
    requires IsRun(run) && i < |run|
    ensures Inv(run[i])
  {
    RunKeeps(run[..i + 1]);
  }

  /** When everything accepted has arrived and been acknowledged, reading on returns all that was written. */
  lemma AllArrivedIsAllRead(w: World)
    requires Inv(w) && w.r.ack == w.h.isn + |w.h.accepted|
    ensures w.delivered + Waiting(w.r.buf) == w.submitted
  {
    assert w.h.accepted[..|w.h.accepted|] == w.h.accepted;
  }

  /** And when no number is missing, the next acknowledgement covers everything sent. */
  lemma NothingMissingAcksAll(w: World, ack: int)
    requires Inv(w) && w.r.curr == w.s.curr && w.r.loss == {} && w.s.q.cursor == |w.s.q.chunks|
    requires ReceiverState.IsNextAck(w.r, ack)
    ensures ack == w.h.isn + |w.h.accepted|
  {
  }
}
