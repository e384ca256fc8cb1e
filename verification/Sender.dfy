/** The sender: the send buffer together with the sequence numbers and the loss list of a connection. Every method is
    one step of SenderState. */
module Sender {
  import opened SendBuffer
  import opened LossRanges
  import opened LossReport
  import opened SenderState

  /** What goes out: nothing, a control packet of the packet filter, or data sent again or for the first time. */
  datatype Packed = NoPacket | FilterControl | Retransmitted(seqno: int, chunk: Chunk) | NewData(seqno: int, chunk: Chunk)

  class Sender {
    const buf: SendBuffer
    var lastDataAck: int
    var lastAck: int
    var lastFullAck: int
    var currSeq: int
    var loss: set<int>
    var flowWindow: int
    var broken: bool
    /** Set when an acknowledgement goes beyond everything stored: the code then lets the count of chunks go below zero. */
    var overrun: bool
    ghost var history: History

    ghost function State(): Snd
      reads this, buf
    {
      Snd(buf.stored, lastDataAck, lastAck, lastFullAck, currSeq, loss, flowWindow, broken)
    }

    ghost predicate Wellformed()
      reads this, buf, buf.ring
    {
      buf.Valid() && !overrun
    }

    ghost predicate Valid()
      reads this, buf, buf.ring
    {
      Wellformed() && Corresponds(history, State()) && lastAck == lastDataAck
    }

    constructor (isn: int, bufSize: nat, mss: nat, flowWindow: int)
      requires bufSize > 0 && mss > 0
      ensures Valid() && fresh(buf) && fresh(buf.ring) && history == History(isn, [], map[])
      ensures State() == Snd(Queue([], 0), isn, isn, isn, isn - 1, {}, flowWindow, false)
    {
      buf := new SendBuffer(bufSize, mss);
      lastDataAck, lastAck, lastFullAck, currSeq := isn, isn, isn, isn - 1;
      loss, this.flowWindow, broken, overrun := {}, flowWindow, false, false;
      history := History(isn, [], map[]);
    }

    /** The application hands over a message. */
    method SendMessage(data: Bytes, inorder: bool, now: nat, source: nat) returns (msgno: nat)
      requires Valid()
      modifies this`history, buf, buf.ring
      ensures Valid() && forall b :: b in buf.ring ==> b in old(buf.ring) || fresh(b)
      ensures State() == Submit(old(State()), Cut(data, buf.mss, msgno, inorder, now, source))
      ensures history == old(history).(accepted := old(history.accepted) + Cut(data, buf.mss, msgno, inorder, now, source))
    {
      ghost var s := State();
      msgno := buf.AddBuffer(data, inorder, now, source);
      ghost var chunks := Cut(data, buf.mss, msgno, inorder, now, source);
      CutIsWhole(data, buf.mss, msgno, inorder, now, source);
      SubmitKeeps(history, s, chunks);
      history := history.(accepted := history.accepted + chunks);
    }

    /** Releases what an acknowledgement covers, before anything has been checked. Losses that it does not cover stay. */
    method UpdateSndLossListOnACK(ack: int)
      requires Wellformed()
      modifies this`lastDataAck, this`loss, this`overrun, buf
      ensures overrun <==> ack - old(lastDataAck) > old(|buf.stored.chunks|)
      ensures !overrun ==> Wellformed() && State() == UpdateOnAck(old(State()), ack)
      ensures !overrun ==> lastDataAck == (if ack > old(lastDataAck) then ack else old(lastDataAck))
      ensures !overrun ==> buf.stored.chunks == old(buf.stored.chunks)[lastDataAck - old(lastDataAck)..]
      ensures !overrun ==> forall x :: x in loss <==> x in old(loss) && (x >= ack || ack <= old(lastDataAck))
    {
      var offset := ack - lastDataAck;
      if offset > buf.count {
        overrun := true;
        return;
      }
      AckTakesWhatItCovers(State(), ack);
      if offset <= 0 {
        return;
      }
      lastDataAck := ack;
      loss := set x | x in loss && x >= ack;
      buf.AckData(offset);
    }

    /** Processes an acknowledgement. What it covers leaves the buffer and the loss list, and nothing else does. A lite one
        moves the acknowledged number; a full one also the flow window and the last full acknowledgement. The connection stays in order exactly when no packet beyond the last one sent is
        acknowledged; a full acknowledgement beyond it breaks the connection, a lite one goes unnoticed. */
    method ProcessCtrlAck(ack: int, lite: bool, bufferLeft: int)
      requires Valid()
      modifies this`lastDataAck, this`lastAck, this`lastFullAck, this`loss, this`flowWindow, this`broken, this`overrun, buf
      ensures overrun <==> ack - old(lastDataAck) > old(|buf.stored.chunks|)
      ensures !overrun ==> State() == FinishAck(UpdateOnAck(old(State()), ack), ack, lite, bufferLeft)
      ensures Valid() <==> ack <= old(currSeq) + 1
      ensures !overrun ==> forall x :: x in loss <==> x in old(loss) && x >= ack
      ensures !overrun ==> lastDataAck == (if ack > old(lastDataAck) then ack else old(lastDataAck))
      ensures !overrun ==> buf.stored.chunks == old(buf.stored.chunks)[lastDataAck - old(lastDataAck)..]
      ensures Valid() ==> lastAck == lastDataAck && broken == old(broken)
      ensures Valid() && lite ==> flowWindow == old(flowWindow) - (lastAck - old(lastAck)) && lastFullAck == old(lastFullAck)
      ensures Valid() && !lite ==> flowWindow == (if ack >= old(lastAck) then bufferLeft else old(flowWindow))
      ensures Valid() && !lite ==> lastFullAck == (if ack > old(lastFullAck) then ack else old(lastFullAck))
      ensures !lite && ack > old(currSeq) + 1 ==> broken
    {
      ghost var s := State();
      UpdateSndLossListOnACK(ack);
      if overrun {
        broken := broken || !lite;
        return;
      }
      ghost var t := State();
      AckKeepsIffSent(history, s, ack);
      FinishCtrlAck(ack, lite, bufferLeft);
      if ack <= s.curr + 1 {
        FinishKeeps(history, t, ack, lite, bufferLeft);
      }
    }

    /** The rest of processing an acknowledgement, under a lock of its own. */
    method FinishCtrlAck(ack: int, lite: bool, bufferLeft: int)
      requires Wellformed()
      modifies this`lastAck, this`lastFullAck, this`flowWindow, this`broken
      ensures Wellformed() && State() == FinishAck(old(State()), ack, lite, bufferLeft)
    {
      if lite {
        if ack >= lastAck {
          flowWindow := flowWindow - (ack - lastAck);
          lastAck := ack;
        }
        return;
      }
      if ack > currSeq + 1 {
        broken := true;
        return;
      }
      if ack >= lastAck {
        flowWindow := bufferLeft;
        lastAck := ack;
      }
      if ack - lastFullAck > 0 {
        lastFullAck := ack;
      }
    }

    /** Processes a loss report: a bad one breaks the connection, but what came before the bad entry stays. */
    method ProcessLossReport(rs: seq<Range>)
      requires Valid()
      modifies this`loss, this`broken
      ensures Valid() && State() == TakeLossReport(old(State()), rs)
      ensures broken <==> old(broken) || exists i :: 0 <= i < |rs| && (rs[i].lo > rs[i].hi || rs[i].hi > currSeq)
      ensures old(loss) <= loss
      ensures (forall i :: 0 <= i < |rs| ==> rs[i].lo <= rs[i].hi <= currSeq) ==>
        forall x :: x in loss <==> x in old(loss) || (Covers(rs, x) && x >= lastAck)
    {
      TakenStaysInside(rs, lastAck, currSeq, loss);
      if forall i :: 0 <= i < |rs| ==> rs[i].lo <= rs[i].hi <= currSeq {
        ReportComesThrough(rs, lastAck, currSeq, loss);
      }
      LossReportKeeps(history, State(), rs);
      SecureMeansSent(rs, lastAck, currSeq, loss);
      var d := TakeRanges(rs, lastAck, currSeq, loss);
      loss := d.loss;
      broken := broken || !d.verdict.Secure?;
    }

    /** Takes the first lost packet to send again. What is read is always the packet that was sent first under that
        number: neither branch that goes on to the next lost packet is ever taken. */
    method PackLostData() returns (p: Packed)
      requires Valid()
      modifies this`loss
      ensures Valid() && (old(loss) == {} ==> p == NoPacket && loss == {})
      ensures old(loss) != {} ==> p.Retransmitted? && IsSmallest(old(loss), p.seqno) && loss == old(loss) - {p.seqno}
      ensures p.Retransmitted? ==> p.seqno in history.sent && p.chunk == history.sent[p.seqno] && |p.chunk.payload| > 0
    {
      if loss == {} {
        return NoPacket;
      }
      var x := Smallest(loss);
      LostIsStored(history, State(), x);
      loss := loss - {x};
      var chunk, _ := buf.ReadAt(x - lastDataAck);
      p := Retransmitted(x, chunk);
    }

    /** Whether a call of PackData would read a new chunk from the buffer. */
    ghost predicate ReadsNew(cwnd: int, filterReady: bool)
      reads this, buf
    {
      loss == {} && !filterReady && cwnd >= currSeq + 2 - lastAck && buf.stored.cursor < |buf.stored.chunks|
    }

    /** Picks the next packet to send: a lost one, a control packet of the filter, or new data if the window allows it.
        Retransmissions repeat what was sent; new data takes the next number and carries the chunk accepted under it.
        The correspondence of chunks and numbers is lost exactly when a new chunk is read without an encryption key. */
    method PackData(cwnd: int, key: Key, filterReady: bool) returns (p: Packed)
      requires Valid()
      modifies this`loss, this`currSeq, this`history, buf, buf.ring
      ensures Wellformed() && (Valid() <==> !(old(ReadsNew(cwnd, filterReady)) && key.NoKey?))
      ensures p.Retransmitted? <==> old(loss) != {}
      ensures p.Retransmitted? ==> IsSmallest(old(loss), p.seqno) && p.seqno in history.sent && p.chunk == history.sent[p.seqno]
      ensures p.NewData? <==> old(ReadsNew(cwnd, filterReady)) && key.Key?
      ensures p.NewData? ==> p.seqno == old(currSeq) + 1 == currSeq && p.seqno !in old(history.sent)
      ensures p.NewData? ==> history == old(history).(sent := old(history.sent)[p.seqno := p.chunk])
      ensures p.NewData? ==> SentRight(history, State(), p.seqno)
      ensures p.NewData? ==> SentAs(old(buf.stored.chunks[buf.stored.cursor]), p.chunk, key.key)
      ensures !p.NewData? ==> history == old(history) && currSeq == old(currSeq)
      ensures p.FilterControl? <==> old(loss) == {} && filterReady
      ensures loss == old(loss) - (if p.Retransmitted? then {p.seqno} else {}) && buf.ring == old(buf.ring)
    {
      p := PackLostData();
      if p.Retransmitted? {
        return;
      }
      if filterReady {
        return FilterControl;
      }
      if cwnd < currSeq + 2 - lastAck {
        return;
      }
      p := PackNew(key);
    }

    method PackNew(key: Key) returns (p: Packed)
      requires Valid()
      modifies this`currSeq, this`history, buf, buf.ring
      ensures Wellformed() && (Valid() <==> !(old(buf.stored.cursor < |buf.stored.chunks|) && key.NoKey?))
      ensures p.NewData? <==> old(buf.stored.cursor < |buf.stored.chunks|) && key.Key?
      ensures p.NewData? ==> p.seqno == old(currSeq) + 1 == currSeq && p.seqno !in old(history.sent)
      ensures p.NewData? ==> history == old(history).(sent := old(history.sent)[p.seqno := p.chunk])
      ensures p.NewData? ==> SentRight(history, State(), p.seqno)
      ensures p.NewData? ==> SentAs(old(buf.stored.chunks[buf.stored.cursor]), p.chunk, key.key)
      ensures !p.NewData? ==> p.NoPacket? && history == old(history) && currSeq == old(currSeq)
      ensures buf.ring == old(buf.ring)
    {
      ghost var s, h := State(), history;
      var readlen, chunk, _ := buf.ReadNext(key);
      if s.q.cursor < |s.q.chunks| {
        NoKeyBreaks(h, s);
        AdvanceSends(s.q, if key.NoKey? then 0 else key.key);
        SendNextKeeps(h, s, if key.NoKey? then 0 else key.key);
        assert Holds(h, s, s.q.cursor);
      }
      if readlen == 0 {
        return NoPacket;
      }
      currSeq := currSeq + 1;
      history := Sent(h, s, key.key);
      p := NewData(currSeq, chunk);
    }

    /** The retransmission timer has run out. It acts only if something was sent that is not acknowledged. */
    method CheckRexmitTimer(lateRexmit: bool, fastRexmit: bool, peerNakReport: bool)
      requires Valid()
      modifies this`loss
      ensures Valid() && State() == if !(fastRexmit && peerNakReport) && (fastRexmit || (lateRexmit && old(loss) == {}))
                                    then RexmitAll(old(State())) else old(State())
      ensures lateRexmit && !fastRexmit && old(loss) == {} ==> forall x :: x in loss <==> lastAck <= x <= currSeq
    {
      RexmitAllKeeps(history, State());
      assert currSeq < lastAck ==> loss + Numbers(lastAck, currSeq) == loss;
      if buf.count <= 0 {
        return;
      }
      if fastRexmit && peerNakReport {
        return;
      }
      var retransmit := lateRexmit && currSeq + 1 != lastAck && loss == {};
      if fastRexmit && currSeq + 1 - lastAck > 0 {
        retransmit := true;
      }
      if retransmit {
        loss := loss + Numbers(lastAck, currSeq);
      }
    }

    /** Drops what is too late, sent or not: it leaves the buffer and the loss list, and the numbers follow. */
    method CheckNeedDrop(due: bool, latetime: nat)
      requires Valid()
      modifies this`lastDataAck, this`lastAck, this`currSeq, this`loss, buf
      ensures Valid() && State() == DropLate(old(State()), if due then LatePrefix(old(buf.stored.chunks), latetime) else 0)
      ensures old(lastDataAck) <= lastDataAck && buf.stored.chunks == old(buf.stored.chunks)[lastDataAck - old(lastDataAck)..]
      ensures forall x :: x in loss <==> x in old(loss) && x >= lastDataAck
      ensures currSeq == if old(currSeq) < lastDataAck - 1 then lastDataAck - 1 else old(currSeq)
    {
      if !due {
        return;
      }
      ghost var s := State();
      var dpkts, _ := buf.DropLateData(latetime);
      DropLateKeeps(history, s, dpkts);
      if dpkts == 0 {
        assert s.q.chunks[0..] == s.q.chunks;
        return;
      }
      PretendAck(lastDataAck + dpkts);
      assert State() == DropLate(s, dpkts);
    }

    /** Goes on as if everything before `fakeack` had been acknowledged, or sent if it was not. */
    method PretendAck(fakeack: int)
      modifies this`lastDataAck, this`lastAck, this`currSeq, this`loss
      ensures lastAck == lastDataAck == fakeack && loss == set x | x in old(loss) && x >= fakeack
      ensures currSeq == if old(currSeq) < fakeack - 1 then fakeack - 1 else old(currSeq)
    {
      lastAck, lastDataAck := fakeack, fakeack;
      var minlastack := lastDataAck - 1;
      loss := set x | x in loss && x > minlastack;
      if currSeq < minlastack {
        currSeq := minlastack;
      }
    }
  }
}
