/** The loss report on the wire: 32-bit words, in which a word with the top bit set opens a range that the next word
    closes, and any other word stands for itself. */
module LossReport {
  import opened LossRanges

  type Word = w: int | 0 <= w < 0x1_0000_0000

  const RANGE_FIRST := 0x8000_0000

  predicate Flagged(w: Word) {
    w >= RANGE_FIRST
  }

  /** Ranges of sequence numbers as the wire can carry them. */
  ghost predicate Encodable(rs: seq<Range>) {
    forall i :: 0 <= i < |rs| ==> 0 <= rs[i].lo <= rs[i].hi < RANGE_FIRST
  }

  function EncodeOne(r: Range): seq<Word>
    requires 0 <= r.lo <= r.hi < RANGE_FIRST
  {
    if r.lo == r.hi then [r.lo] else [r.lo + RANGE_FIRST, r.hi]
  }

  function Encode(rs: seq<Range>): seq<Word>
    requires Encodable(rs)
  {
    if rs == [] then [] else EncodeOne(rs[0]) + Encode(rs[1..])
  }

  /** The loop of sendLossReport. */
  method EncodeLossReport(rs: seq<Range>) returns (words: seq<Word>)
    requires Encodable(rs)
    ensures words == Encode(rs)
  {
    words := [];
    for i := 0 to |rs|
      invariant words == Encode(rs[..i])
    {
      EncodeOneMore(rs[..i], rs[i]);
      assert rs[..i] + [rs[i]] == rs[..i + 1];
      if rs[i].lo == rs[i].hi {
        words := words + [rs[i].lo];
      } else {
        words := words + [rs[i].lo + RANGE_FIRST] + [rs[i].hi];
      }
    }
    assert rs[..|rs|] == rs;
  }

  lemma {:induction false} EncodeOneMore(rs: seq<Range>, r: Range)
    requires Encodable(rs) && 0 <= r.lo <= r.hi < RANGE_FIRST
    ensures Encodable(rs + [r]) && Encode(rs + [r]) == Encode(rs) + EncodeOne(r)
  {
    if rs == [] {
      assert rs + [r] == [r] && [r][1..] == [];
    } else {
      assert (rs + [r])[0] == rs[0] && (rs + [r])[1..] == rs[1..] + [r];
      EncodeOneMore(rs[1..], r);
    }
  }

  /** How a report ended: all of it used; a number after the last packet sent, or a range upside down; or a range
      whose second word is missing or itself opens a range. */
  datatype Verdict = Secure | Insecure | Malformed

  datatype Decoded = Decoded(loss: set<int>, verdict: Verdict)

  /** What a report makes of the sender's loss list, given the acknowledged number and the last number sent. */
  function Decode(words: seq<Word>, ack: int, curr: int, loss: set<int>): Decoded {
    if words == [] then Decoded(loss, Secure)
    else if Flagged(words[0]) then
      if |words| == 1 || Flagged(words[1]) then Decoded(loss, Malformed)
      else
        var lo, hi := words[0] - RANGE_FIRST, words[1];
        if lo > hi || hi > curr then Decoded(loss, Insecure)
        else Decode(words[2..], ack, curr, Inserted(loss, ack, lo, hi))
    else if words[0] >= ack && words[0] > curr then Decoded(loss, Insecure)
    else Decode(words[1..], ack, curr, Inserted(loss, ack, words[0], words[0]))
  }

  /** The loss list with the part of lo..hi that is not yet acknowledged. */
  function Inserted(loss: set<int>, ack: int, lo: int, hi: int): set<int> {
    loss + Numbers(if lo < ack then ack else lo, hi)
  }

  /** The loop that reads a report. */
  method DecodeLossReport(words: seq<Word>, ack: int, curr: int, loss: set<int>) returns (r: Decoded)
    ensures r == Decode(words, ack, curr, loss)
  {
    var list := loss;
    var i := 0;
    while i < |words|
      invariant 0 <= i <= |words| && Decode(words, ack, curr, loss) == Decode(words[i..], ack, curr, list)
    {
      assert words[i..][0] == words[i] && words[i..][1..] == words[i + 1..];
      if Flagged(words[i]) {
        if i + 1 == |words| || Flagged(words[i + 1]) {
          return Decoded(list, Malformed);
        }
        assert words[i..][1] == words[i + 1] && words[i..][2..] == words[i + 2..];
        var lo, hi := words[i] - RANGE_FIRST, words[i + 1];
        i := i + 1;
        if lo > hi || hi > curr {
          return Decoded(list, Insecure);
        }
        if lo >= ack {
          list := list + Numbers(lo, hi);
        } else if hi >= ack {
          list := list + Numbers(ack, hi);
        } else {
          assert Inserted(list, ack, lo, hi) == list;
        }
      } else if words[i] >= ack {
        if words[i] > curr {
          return Decoded(list, Insecure);
        }
        assert Numbers(words[i], words[i]) == {words[i]};
        list := list + {words[i]};
      } else {
        assert Inserted(list, ack, words[i], words[i]) == list;
      }
      i := i + 1;
    }
    r := Decoded(list, Secure);
  }

  /** The same on a list of ranges, whose numbers need not fit the wire. */
  function TakeRanges(rs: seq<Range>, ack: int, curr: int, loss: set<int>): Decoded {
    if rs == [] then Decoded(loss, Secure)
    else
      var lo, hi := rs[0].lo, rs[0].hi;
      if lo > hi || (hi > curr && (lo < hi || lo >= ack)) then Decoded(loss, Insecure)
      else TakeRanges(rs[1..], ack, curr, Inserted(loss, ack, lo, hi))
  }

  /** Reading the words of a list of ranges is taking the ranges. */
  lemma {:induction false} WireAgrees(rs: seq<Range>, ack: int, curr: int, loss: set<int>)
    requires Encodable(rs)
    ensures Decode(Encode(rs), ack, curr, loss) == TakeRanges(rs, ack, curr, loss)
  {
    if rs != [] {
      var head, rest := EncodeOne(rs[0]), Encode(rs[1..]);
      assert (head + rest)[|head|..] == rest;
      WireAgrees(rs[1..], ack, curr, Inserted(loss, ack, rs[0].lo, rs[0].hi));
    }
  }

  lemma CoversFirst(rs: seq<Range>, x: int)
    requires rs != []
    ensures Covers(rs, x) <==> InRange(rs[0], x) || Covers(rs[1..], x)
  {
    if Covers(rs[1..], x) {
      var i :| 0 <= i < |rs[1..]| && InRange(rs[1..][i], x);
      assert InRange(rs[i + 1], x);
    }
    if Covers(rs, x) {
      var i :| 0 <= i < |rs| && InRange(rs[i], x);
      assert i > 0 ==> InRange(rs[1..][i - 1], x);
    }
  }

  /** Any list of ranges up to the last packet sent comes through: exactly its unacknowledged numbers are inserted. */
  lemma {:induction false} ReportComesThrough(rs: seq<Range>, ack: int, curr: int, loss: set<int>)
    requires forall i :: 0 <= i < |rs| ==> rs[i].lo <= rs[i].hi <= curr
    ensures TakeRanges(rs, ack, curr, loss).verdict == Secure
    ensures forall x :: x in TakeRanges(rs, ack, curr, loss).loss <==> x in loss || (Covers(rs, x) && x >= ack)
  {
    if rs != [] {
      ReportComesThrough(rs[1..], ack, curr, Inserted(loss, ack, rs[0].lo, rs[0].hi));
      forall x ensures Covers(rs, x) <==> InRange(rs[0], x) || Covers(rs[1..], x) {
        CoversFirst(rs, x);
      }
    }
  }

  /** A report is secure exactly when no range in it is upside down or ends after the last packet sent. */
  lemma {:induction false} SecureMeansSent(rs: seq<Range>, ack: int, curr: int, loss: set<int>)
    requires ack <= curr + 1
    ensures TakeRanges(rs, ack, curr, loss).verdict == Secure <==> forall i :: 0 <= i < |rs| ==> rs[i].lo <= rs[i].hi <= curr
    ensures TakeRanges(rs, ack, curr, loss).verdict != Malformed
  {
    if rs != [] {
      SecureMeansSent(rs[1..], ack, curr, Inserted(loss, ack, rs[0].lo, rs[0].hi));
      assert forall i :: 1 <= i < |rs| ==> rs[i] == rs[1..][i - 1];
    }
  }

  lemma {:induction false} TakenStaysInside(rs: seq<Range>, ack: int, curr: int, loss: set<int>)
    requires ack <= curr + 1
    ensures loss <= TakeRanges(rs, ack, curr, loss).loss
    ensures forall x :: x in TakeRanges(rs, ack, curr, loss).loss ==> x in loss || ack <= x <= curr
  {
    if rs != [] {
      TakenStaysInside(rs[1..], ack, curr, Inserted(loss, ack, rs[0].lo, rs[0].hi));
    }
  }

  /** Whatever the words, nothing acknowledged and nothing unsent gets into the loss list, and nothing leaves it. */
  lemma {:induction false} DecodeStaysInside(words: seq<Word>, ack: int, curr: int, loss: set<int>)
    ensures loss <= Decode(words, ack, curr, loss).loss
    ensures forall x :: x in Decode(words, ack, curr, loss).loss ==> x in loss || ack <= x <= curr
    decreases |words|
  {
    if words != [] {
      if Flagged(words[0]) {
        if |words| > 1 && !Flagged(words[1]) && words[0] - RANGE_FIRST <= words[1] <= curr {
          DecodeStaysInside(words[2..], ack, curr, Inserted(loss, ack, words[0] - RANGE_FIRST, words[1]));
        }
      } else if words[0] < ack || words[0] <= curr {
        DecodeStaysInside(words[1..], ack, curr, Inserted(loss, ack, words[0], words[0]));
      }
    }
  }
}
