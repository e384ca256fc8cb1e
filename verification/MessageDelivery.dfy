/** Messages over the lossy network: whatever the order of arrival was, once everything sent has been acknowledged the
    receiving application reads the messages that were submitted. */
module MessageDelivery {
  import opened Options
  import opened SendBuffer
  import opened ReceiveBuffer
  import opened Messages
  import ReceiverState
  import SenderState
  import EndToEnd

  /** The chunks that stand for the messages, whatever their message numbers and times. */
  ghost predicate Spells(chunks: seq<Chunk>, ms: seq<Bytes>, mss: nat)
    requires mss > 0
  {
    |chunks| == |Chunks(ms, mss)|
    && forall i {:trigger chunks[i]} :: 0 <= i < |chunks| ==> Alike(chunks[i], Chunks(ms, mss)[i])
  }

  predicate Alike(c: Chunk, d: Chunk) {
    c.payload == d.payload && c.first == d.first && c.last == d.last && c.inorder == d.inorder
  }

  /** Every acknowledged slot carries the chunk accepted under its number, and so does every other one that is filled. */
  lemma SlotCarriesAccepted(w: EndToEnd.World, k: nat)
    requires EndToEnd.Inv(w) && !w.filtered && k < |w.r.buf.units|
    ensures w.r.buf.units[k].Some? ==>
      var at := ReceiverState.NumberAt(w.r, k) - w.h.isn;
      0 <= at < |w.h.accepted| && Carries(w.r.buf.units[k], w.h.accepted[at])
    ensures k < w.r.buf.acked ==> w.r.buf.units[k].Some?
  {
    assert ReceiverState.Holds(w.r, k);
    if w.r.buf.units[k].Some? {
      assert EndToEnd.UnitOK(w, k);
      assert SenderState.SentRight(w.h, w.s, w.r.buf.units[k].value.seqno);
    }
  }

  /** The acknowledged slots hold exactly the chunks accepted under their numbers. */
  lemma SlotsHoldAccepted(w: EndToEnd.World)
    requires EndToEnd.Inv(w) && !w.filtered && forall c :: c in w.h.accepted ==> c.inorder
    ensures var from, to := ReceiverState.NumberAt(w.r, 0) - w.h.isn, w.r.ack - w.h.isn;
      0 <= from <= to <= |w.h.accepted| && HoldsChunks(w.r.buf, w.h.accepted[from..to])
  {
    var from, to := ReceiverState.NumberAt(w.r, 0) - w.h.isn, w.r.ack - w.h.isn;
    var all := w.h.accepted[from..to];
    forall i {:trigger w.r.buf.units[i]} | 0 <= i < |all| ensures Carries(w.r.buf.units[i], all[i]) {
      SlotCarriesAccepted(w, i);
    }
    forall i {:trigger w.r.buf.units[i]} | 0 <= i < |w.r.buf.units| && w.r.buf.units[i].Some?
      ensures w.r.buf.units[i].value.chunk.inorder
    {
      SlotCarriesAccepted(w, i);
    }
  }

  // ---------- messages cut into chunks, one after the other ----------

  lemma {:induction false} ChunksAppend(a: seq<Bytes>, b: seq<Bytes>, mss: nat)
    requires mss > 0
    ensures Chunks(a + b, mss) == Chunks(a, mss) + Chunks(b, mss)
  {
    if a == [] {
      assert a + b == b;
    } else {
      assert (a + b)[1..] == a[1..] + b;
      ChunksAppend(a[1..], b, mss);
    }
  }

  lemma ChunksOfOne(m: Bytes, mss: nat)
    requires mss > 0
    ensures Chunks([m], mss) == Cut(m, mss, 1, true, 0, 0)
  {
    assert [m][1..] == [];
  }

  lemma {:induction false} ChunksInOrder(ms: seq<Bytes>, mss: nat)
    requires mss > 0
    ensures forall i :: 0 <= i < |Chunks(ms, mss)| ==> Chunks(ms, mss)[i].inorder
  {
    if ms != [] {
      ChunksInOrder(ms[1..], mss);
    }
  }

  // ---------- two applications that exchange messages ----------

  /** The world, the messages submitted to it, and the messages read so far, each with the room there was for it. */
  datatype Talk = Talk(w: EndToEnd.World, mss: nat, ms: seq<Bytes>, got: seq<(Bytes, nat)>)

  ghost predicate TalkInit(v: Talk) {
    EndToEnd.Init(v.w) && !v.w.filtered && v.mss > 0 && v.ms == [] && v.got == []
  }

  ghost predicate SubmitMessage(v: Talk, v': Talk, m: Bytes) {
    m != [] && v.mss > 0 && v' == v.(w := v'.w, ms := v.ms + [m])
    && exists msgno, now, source :: EndToEnd.Submit(v.w, v'.w, m, Cut(m, v.mss, msgno, true, now, source))
  }

  ghost predicate Proceed(v: Talk, v': Talk) {
    v' == v.(w := v'.w) && (EndToEnd.SendingStep(v.w, v'.w) || EndToEnd.ReceivingStep(v.w, v'.w))
  }

  /** The receiving application asks for a message. If that changed the buffer, a message has been read. */
  ghost predicate ReadMessage(v: Talk, v': Talk, len: nat) {
    var b := v.w.r.buf;
    Bounded(b) && b.acked <= |b.units| &&
    var (data, c) := ReadMsg(b, len);
    v' == v.(w := v.w.(r := v.w.r.(buf := c), delivered := v.w.delivered + Freed(b, c)),
             got := if c == b then v.got else v.got + [(data, len)])
  }

  /** The bytes of the slots that are no longer there. */
  function Freed(b: Slots, c: Slots): Bytes
    requires b.acked <= |b.units|
  {
    if c.acked <= b.acked then Spelled(b.units[..b.acked - c.acked]) else []
  }

  ghost predicate TalkStep(v: Talk, v': Talk) {
    (exists m :: SubmitMessage(v, v', m)) || Proceed(v, v') || (exists len :: ReadMessage(v, v', len))
  }

  ghost predicate IsTalk(run: seq<Talk>) {
    run != [] && TalkInit(run[0]) && forall k :: 0 <= k < |run| - 1 ==> TalkStep(run[k], run[k + 1])
  }

  /** The messages read are the first ones submitted, and reading stands at the beginning of the next one. */
  ghost predicate TalkInv(v: Talk) {
    EndToEnd.Inv(v.w) && Stands(v)
  }

  ghost predicate Stands(v: Talk) {
    !v.w.filtered && v.mss > 0 && (forall i :: 0 <= i < |v.ms| ==> v.ms[i] != [])
    && Spells(v.w.h.accepted, v.ms, v.mss) && GotFirst(v)
    && v.w.r.buf.notch == 0 && ReceiverState.NumberAt(v.w.r, 0) - v.w.h.isn == |Chunks(v.ms[..|v.got|], v.mss)|
  }

  ghost predicate GotFirst(v: Talk) {
    |v.got| <= |v.ms| && forall i :: 0 <= i < |v.got| ==> v.got[i].0 == Taken(v.ms[i], v.got[i].1)
  }

  lemma SubmitKeeps(v: Talk, v': Talk, m: Bytes)
    requires TalkInv(v) && SubmitMessage(v, v', m)
    ensures TalkInv(v')
  {
    var msgno, now, source :| EndToEnd.Submit(v.w, v'.w, m, Cut(m, v.mss, msgno, true, now, source));
    EndToEnd.SubmitKeeps(v.w, v'.w, m, Cut(m, v.mss, msgno, true, now, source));
    SpellsMore(v.w.h.accepted, v.ms, v.mss, m, msgno, now, source);
    assert v'.ms[..|v.got|] == v.ms[..|v.got|];
  }

  lemma SpellsMore(accepted: seq<Chunk>, ms: seq<Bytes>, mss: nat, m: Bytes, msgno: nat, now: nat, source: nat)
    requires mss > 0 && Spells(accepted, ms, mss)
    ensures Spells(accepted + Cut(m, mss, msgno, true, now, source), ms + [m], mss)
  {
    ChunksAppend(ms, [m], mss);
    ChunksOfOne(m, mss);
    var all, cut := accepted + Cut(m, mss, msgno, true, now, source), Cut(m, mss, 1, true, 0, 0);
    assert Chunks(ms + [m], mss) == Chunks(ms, mss) + cut;
    forall i {:trigger all[i]} | 0 <= i < |all| ensures Alike(all[i], Chunks(ms + [m], mss)[i]) {
      if i < |accepted| {
        assert Alike(accepted[i], Chunks(ms, mss)[i]);
      }
    }
  }

  lemma ProceedKeeps(v: Talk, v': Talk)
    requires TalkInv(v) && Proceed(v, v')
    ensures TalkInv(v')
  {
    if EndToEnd.SendingStep(v.w, v'.w) {
      EndToEnd.SenderStepKeeps(v.w, v'.w);
      EndToEnd.SendingStaysPut(v.w, v'.w);
    } else {
      EndToEnd.ReceiverStepKeeps(v.w, v'.w);
      EndToEnd.ReceivingStaysPut(v.w, v'.w);
    }
  }

  /** The acknowledged slots hold the beginning of the messages not yet read. */
  lemma HoldsTheRest(v: Talk)
    requires TalkInv(v)
    ensures var rest := Chunks(v.ms[|v.got|..], v.mss);
      v.w.r.buf.acked <= |rest| && HoldsChunks(v.w.r.buf, rest[..v.w.r.buf.acked])
      && (v.w.r.ack == v.w.h.isn + |v.w.h.accepted| ==> v.w.r.buf.acked == |rest|)
  {
    SpellsInOrder(v.w.h.accepted, v.ms, v.mss);
    SlotsHoldAccepted(v.w);
    var from, to := ReceiverState.NumberAt(v.w.r, 0) - v.w.h.isn, v.w.r.ack - v.w.h.isn;
    SpellsRest(v.w.h.accepted, v.ms, v.mss, |v.got|, to);
    HeldAlike(v.w.r.buf, v.w.h.accepted[from..to], Chunks(v.ms[|v.got|..], v.mss));
  }

  lemma SpellsInOrder(accepted: seq<Chunk>, ms: seq<Bytes>, mss: nat)
    requires mss > 0 && Spells(accepted, ms, mss)
    ensures forall c :: c in accepted ==> c.inorder
  {
    ChunksInOrder(ms, mss);
    forall i | 0 <= i < |accepted| ensures accepted[i].inorder {
      assert Alike(accepted[i], Chunks(ms, mss)[i]);
    }
  }

  /** What was accepted after the chunks of the first k messages spells the others. */
  lemma SpellsRest(accepted: seq<Chunk>, ms: seq<Bytes>, mss: nat, k: nat, to: nat)
    requires mss > 0 && Spells(accepted, ms, mss) && k <= |ms| && |Chunks(ms[..k], mss)| <= to <= |accepted|
    ensures var from, rest := |Chunks(ms[..k], mss)|, Chunks(ms[k..], mss);
      |accepted| == from + |rest| && forall i :: 0 <= i < to - from ==> Alike(accepted[from..to][i], rest[i])
  {
    ChunksAppend(ms[..k], ms[k..], mss);
    assert ms[..k] + ms[k..] == ms;
    var from, all := |Chunks(ms[..k], mss)|, Chunks(ms, mss);
    forall i | 0 <= i < to - from ensures Alike(accepted[from..to][i], Chunks(ms[k..], mss)[i]) {
      assert Alike(accepted[from + i], all[from + i]);
    }
  }

  lemma HeldAlike(b: Slots, held: seq<Chunk>, rest: seq<Chunk>)
    requires HoldsChunks(b, held) && |held| <= |rest| && forall i :: 0 <= i < |held| ==> Alike(held[i], rest[i])
    ensures HoldsChunks(b, rest[..|held|])
  {
    forall i {:trigger b.units[i]} | 0 <= i < |held| ensures Carries(b.units[i], rest[..|held|][i]) {
      assert Carries(b.units[i], held[i]) && Alike(held[i], rest[i]);
    }
  }

  /** What a read does: if the next message is acknowledged as a whole it returns it, and otherwise nothing happens. */
  lemma NextRead(v: Talk, len: nat)
    requires TalkInv(v)
    ensures Bounded(v.w.r.buf)
    ensures var b := v.w.r.buf;
      if |v.got| < |v.ms| && ChunkCount(|v.ms[|v.got|]|, v.mss) <= b.acked
      then var n := ChunkCount(|v.ms[|v.got|]|, v.mss);
        0 < n && ReadMsg(b, len) == (Taken(v.ms[|v.got|], len), Consumed(b, 0, n - 1)) && Spelled(b.units[..n]) == v.ms[|v.got|]
      else ReadMsg(b, len) == ([], b)
  {
    HoldsTheRest(v);
    var b, k := v.w.r.buf, |v.got|;
    if k == |v.ms| {
      ReadsNothing(b, [], v.mss, 0, len);
    } else {
      var m, cut := v.ms[k], Cut(v.ms[k], v.mss, 1, true, 0, 0);
      var rest, later := Chunks(v.ms[k..], v.mss), Chunks(v.ms[k + 1..], v.mss);
      assert v.ms[k..][1..] == v.ms[k + 1..] && rest == cut + later;
      if |cut| <= b.acked {
        assert rest[..b.acked] == cut + later[..b.acked - |cut|];
        ReadsFirstMessage(b, m, later[..b.acked - |cut|], v.mss, len);
        FirstHeld(b, m, cut, later[..b.acked - |cut|], v.mss);
      } else {
        assert rest[..b.acked] == cut[..b.acked];
        assert cut[..b.acked] == Part(m, v.mss, b.acked);
        ReadsNothing(b, m, v.mss, b.acked, len);
      }
    }
  }

  lemma FirstHeld(b: Slots, m: Bytes, cut: seq<Chunk>, more: seq<Chunk>, mss: nat)
    requires mss > 0 && cut == Cut(m, mss, 1, true, 0, 0) && |cut| > 0 && HoldsChunks(b, cut + more)
    ensures Spelled(b.units[..|cut|]) == m
  {
    forall i | 0 <= i < |cut| ensures Carries(b.units[i], cut[i]) {
      assert (cut + more)[i] == cut[i];
    }
    FirstIsSpelled(b, m, mss);
    assert b.units[0..|cut| - 1 + 1] == b.units[..|cut|];
  }

  /** Reading a whole message is reading its bytes from the stream. */
  lemma ConsumedIsRead(b: Slots, n: nat)
    requires 0 < n <= b.acked && Readable(b) && b.notch == 0
    ensures var c := Consumed(b, 0, n - 1); HasRead(b, c, Spelled(b.units[..n])) && c.notch == 0 && c.acked == b.acked - n
  {
    var c := Consumed(b, 0, n - 1);
    ConsumedShifts(b, n);
    assert c.units == b.units[n..] + Empty(n);
    EndToEnd.PayloadUpTo(b.units, n, b.acked);
    assert c.units[..c.acked] == b.units[n..b.acked];
    SpelledIsPayload(b.units[..n]);
  }

  lemma {:induction false} SpelledIsPayload(units: seq<Option<Unit>>)
    requires Full(units)
    ensures Spelled(units) == Payload(units)
  {
    if units != [] {
      SpelledIsPayload(units[1..]);
    }
  }

  /** A read changes nothing, or it takes the next message out of the stream. */
  lemma ReadIs(v: Talk, v': Talk, len: nat)
    requires TalkInv(v) && ReadMessage(v, v', len)
    ensures v' == v || (|v.got| < |v.ms| && TakesNext(v, v', len))
  {
    NextRead(v, len);
    var b := v.w.r.buf;
    var c := ReadMsg(b, len).1;
    if c == b {
      assert Spelled(b.units[..0]) == [];
    } else {
      ConsumedIsRead(b, ChunkCount(|v.ms[|v.got|]|, v.mss));
    }
  }

  ghost predicate TakesNext(v: Talk, v': Talk, len: nat)
    requires |v.got| < |v.ms| && v.mss > 0
  {
    var m := v.ms[|v.got|];
    v' == v.(w := v'.w, got := v.got + [(Taken(m, len), len)]) && EndToEnd.Read(v.w, v'.w, v'.w.r.buf, m)
    && v'.w.r.buf.notch == 0 && v.w.r.buf.acked - v'.w.r.buf.acked == ChunkCount(|m|, v.mss)
  }

  lemma ReadKeeps(v: Talk, v': Talk, len: nat)
    requires TalkInv(v) && ReadMessage(v, v', len)
    ensures TalkInv(v')
  {
    ReadIs(v, v', len);
    if v' != v {
      var k := |v.got|;
      EndToEnd.ReadKeeps(v.w, v'.w, v'.w.r.buf, v.ms[k]);
      ReceiverState.ReadKeeps(v.w.r, v'.w.r.buf, v.ms[k]);
      NextStands(v, v', len);
    }
  }

  lemma NextStands(v: Talk, v': Talk, len: nat)
    requires Stands(v) && |v.got| < |v.ms| && TakesNext(v, v', len)
    requires ReceiverState.NumberAt(v'.w.r, 0) - v'.w.h.isn ==
      ReceiverState.NumberAt(v.w.r, 0) - v.w.h.isn + (v.w.r.buf.acked - v'.w.r.buf.acked)
    ensures Stands(v')
  {
    OneMoreRead(v.ms, |v.got|, v.mss);
  }

  lemma OneMoreRead(ms: seq<Bytes>, k: nat, mss: nat)
    requires mss > 0 && k < |ms|
    ensures |Chunks(ms[..k + 1], mss)| == |Chunks(ms[..k], mss)| + ChunkCount(|ms[k]|, mss)
  {
    ChunksAppend(ms[..k], [ms[k]], mss);
    ChunksOfOne(ms[k], mss);
    assert ms[..k] + [ms[k]] == ms[..k + 1];
  }

  lemma {:induction false} TalkKeeps(run: seq<Talk>)
    requires IsTalk(run)
    ensures TalkInv(run[|run| - 1])
  {
    if |run| > 1 {
      TalkKeeps(run[..|run| - 1]);
      var v, v' := run[|run| - 2], run[|run| - 1];
      assert TalkStep(v, v');
      if m :| SubmitMessage(v, v', m) {
        SubmitKeeps(v, v', m);
      } else if Proceed(v, v') {
        ProceedKeeps(v, v');
      } else {
        var len :| ReadMessage(v, v', len);
        ReadKeeps(v, v', len);
      }
    } else {
      EndToEnd.InitHolds(run[0].w);
    }
  }

  /** In every run the messages read are the first messages submitted, in order, none twice and none left out, each whole
      unless there was less room for it. */
  lemma MessagesReadAreFirstSubmitted(run: seq<Talk>)
    requires IsTalk(run)
    ensures GotFirst(run[|run| - 1])
  {
    TalkKeeps(run);
  }

  /** And reading is never held up: once all that was accepted is acknowledged, reading on returns all other messages, in
      order and whole, and then nothing more. */
  lemma MessagesArrive(run: seq<Talk>, len: nat)
    requires IsTalk(run)
    requires var v := run[|run| - 1];
      v.w.r.ack == v.w.h.isn + |v.w.h.accepted| && forall i :: |v.got| <= i < |v.ms| ==> |v.ms[i]| <= len
    ensures var v := run[|run| - 1]; |v.got| <= |v.ms| && ReadMany(v.w.r.buf, len, |v.ms| - |v.got|).0 == v.ms[|v.got|..]
    ensures var v := run[|run| - 1]; var c := ReadMany(v.w.r.buf, len, |v.ms| - |v.got|).1; Bounded(c) && ReadMsg(c, len) == ([], c)
  {
    TalkKeeps(run);
    RestIsRead(run[|run| - 1], len);
  }

  lemma RestIsRead(v: Talk, len: nat)
    requires TalkInv(v) && v.w.r.ack == v.w.h.isn + |v.w.h.accepted| && forall i :: |v.got| <= i < |v.ms| ==> |v.ms[i]| <= len
    ensures ReadMany(v.w.r.buf, len, |v.ms| - |v.got|).0 == v.ms[|v.got|..]
    ensures var c := ReadMany(v.w.r.buf, len, |v.ms| - |v.got|).1; Bounded(c) && ReadMsg(c, len) == ([], c)
  {
    HoldsTheRest(v);
    var rest := Chunks(v.ms[|v.got|..], v.mss);
    assert rest[..|rest|] == rest == rest + Part([], v.mss, 0);
    ThenNothingMore(v.w.r.buf, v.ms[|v.got|..], [], v.mss, 0, len);
  }
}
