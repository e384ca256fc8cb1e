/** The receiving side of a handshake: what it makes of the extension blocks in a packet, and when the strings that the
    sending side put there come back. */
module HandshakeReader {
  import opened Options
  import opened HandshakePacket

  // ---------- one block after the other ----------

  const MAX_SID_LENGTH := 512

  /** The strings the receiving side has taken over so far. */
  datatype Peer = Peer(sid: seq<Octet>, congctl: Option<seq<Octet>>, filter: Option<seq<Octet>>)

  const Nobody := Peer([], None, None)

  /** The handshake is accepted, or rejected; or a block has been copied past the end of the array for it. */
  datatype Outcome = Accepted(peer: Peer) | Rejected | Overrun

  /** What the receiving side does with one block, given what it thinks of a congestion control and of a filter. */
  function TakeString(b: Block, got: Peer, agree: seq<Octet> -> bool, usable: seq<Octet> -> bool): Outcome {
    var bytelen, text := 4 * |b.words|, CString(Octets(b.words));
    if b.cmd == CMD_SID then
      if bytelen == 0 || bytelen > MAX_SID_LENGTH then Rejected else Accepted(got.(sid := text))
    else if b.cmd == CMD_CONGESTION then
      if got.congctl.Some? || bytelen == 0 || bytelen > MAX_SID_LENGTH || !agree(text) then Rejected
      else Accepted(got.(congctl := Some(text)))
    else if b.cmd == CMD_FILTER then
      if got.filter.Some? then Rejected
      else if bytelen > MAX_SID_LENGTH + 1 then Overrun
      else if !usable(text) then Rejected else Accepted(got.(filter := Some(text)))
    else Accepted(got)
  }

  function Interpret(bs: seq<Block>, got: Peer, agree: seq<Octet> -> bool, usable: seq<Octet> -> bool): Outcome {
    if bs == [] then Accepted(got)
    else
      match TakeString(bs[0], got, agree, usable)
      case Accepted(more) => Interpret(bs[1..], more, agree, usable)
      case o => o
  }

  lemma {:induction false} InterpretFirst(b: Block, more: seq<Block>, got: Peer, agree: seq<Octet> -> bool, usable: seq<Octet> -> bool)
    ensures Interpret([b] + more, got, agree, usable) ==
      match TakeString(b, got, agree, usable) case Accepted(g) => Interpret(more, g, agree, usable) case o => o
  {
    assert ([b] + more)[1..] == more;
  }

  /** The first block, and those behind it. */
  method FirstBlock(p: array<Word>, begin: nat, length: nat) returns (f: Found, words: seq<Word>, ghost more: seq<Block>)
    requires begin + length <= p.Length
    ensures f.NoBlock? ==> Decode(p[begin..begin + length]) == []
    ensures f.Found? ==> Decode(p[begin..begin + length]) == [Block(f.cmd, words)] + more
    ensures f.Found? && f.next == -1 ==> more == []
    ensures f.Found? && f.next != -1 ==> begin < f.next <= begin + length && more == Decode(p[f.next..begin + length])
  {
    f, words := TakeBlock(p, begin, length, [], Decode(p[begin..begin + length]));
    more := if f.NoBlock? || f.next == -1 then [] else Decode(p[f.next..begin + length]);
  }

  /** What is to be made of the words, with what has been taken over before them, is o. */
  ghost predicate Leads(got: Peer, ws: seq<Word>, agree: seq<Octet> -> bool, usable: seq<Octet> -> bool, o: Outcome) {
    Interpret(Decode(ws), got, agree, usable) == o
  }

  /** One round of the loop: either it ends with what is made of all the words, or the words behind the first block, with
      what has been taken over by then, lead to the same. */
  method InterpretNext(p: array<Word>, begin: nat, length: nat, got: Peer, agree: seq<Octet> -> bool, usable: seq<Octet> -> bool,
                       ghost all: Outcome)
    returns (done: bool, o: Outcome, next: nat)
    requires begin + length <= p.Length && Leads(got, p[begin..begin + length], agree, usable, all)
    ensures done ==> o == all
    ensures !done ==> o.Accepted? && begin < next <= begin + length
    ensures !done ==> Leads(o.peer, p[next..begin + length], agree, usable, all)
  {
    var f, words;
    ghost var more;
    next := begin;
    f, words, more := FirstBlock(p, begin, length);
    if f.NoBlock? {
      return true, Accepted(got), next;
    }
    o := TakeString(Block(f.cmd, words), got, agree, usable);
    InterpretFirst(Block(f.cmd, words), more, got, agree, usable);
    done := !o.Accepted? || f.next == -1;
    next := if f.next == -1 then begin else f.next;
  }

  /** The loop over the blocks, on any words. */
  method InterpretExtensions(p: array<Word>, start: nat, total: nat, agree: seq<Octet> -> bool, usable: seq<Octet> -> bool)
    returns (o: Outcome)
    requires start + total <= p.Length
    ensures Leads(Nobody, p[start..start + total], agree, usable, o)
  {
    var got, begin: nat, length: nat, done := Nobody, start, total, false;
    ghost var all := Interpret(Decode(p[start..start + total]), Nobody, agree, usable);
    while true
      invariant begin + length == start + total && Leads(got, p[begin..begin + length], agree, usable, all)
      decreases length
    {
      var next;
      done, o, next := InterpretNext(p, begin, length, got, agree, usable, all);
      if done {
        return;
      }
      got := o.peer;
      length := length - (next - begin);
      begin := next;
    }
  }

  // ---------- what was written ----------

  lemma {:induction false} InterpretTwo(a: seq<Block>, b: seq<Block>, got: Peer, agree: seq<Octet> -> bool, usable: seq<Octet> -> bool)
    ensures Interpret(a + b, got, agree, usable) ==
      match Interpret(a, got, agree, usable) case Accepted(g) => Interpret(b, g, agree, usable) case o => o
  {
    if a == [] {
      assert a + b == b;
    } else {
      assert (a + b)[1..] == a[1..] + b;
      match TakeString(a[0], got, agree, usable)
      case Accepted(g) => InterpretTwo(a[1..], b, g, agree, usable);
      case _ =>
    }
  }

  lemma {:induction false} InterpretOne(b: Block, got: Peer, agree: seq<Octet> -> bool, usable: seq<Octet> -> bool)
    ensures Interpret([b], got, agree, usable) == TakeString(b, got, agree, usable)
  {
    assert [b][1..] == [];
  }

  lemma {:induction false} KeysPass(km: seq<Block>, got: Peer, agree: seq<Octet> -> bool, usable: seq<Octet> -> bool)
    requires forall i :: 0 <= i < |km| ==> km[i].cmd in {CMD_KMREQ, CMD_KMRSP}
    ensures Interpret(km, got, agree, usable) == Accepted(got)
  {
    if km != [] {
      KeysPass(km[1..], got, agree, usable);
    }
  }

  /** What a string that was written is read as. */
  function AsRead(s: seq<Octet>): seq<Octet> {
    CString(Octets(StringWords(s)))
  }

  /** What is made of three strings that were written, one after the other, each if there is one. */
  function OutcomeOf(sid: seq<Octet>, congctl: seq<Octet>, filter: seq<Octet>,
                     agree: seq<Octet> -> bool, usable: seq<Octet> -> bool): Outcome {
    if |sid| > MAX_SID_LENGTH || |congctl| > MAX_SID_LENGTH || (congctl != [] && !agree(AsRead(congctl))) then Rejected
    else if |filter| > MAX_SID_LENGTH then Overrun
    else if filter != [] && !usable(AsRead(filter)) then Rejected
    else Accepted(Peer(AsRead(sid), if congctl == [] then None else Some(AsRead(congctl)),
                       if filter == [] then None else Some(AsRead(filter))))
  }

  lemma {:induction false} StringsInTurn(sid: seq<Octet>, congctl: seq<Octet>, filter: seq<Octet>,
                                         agree: seq<Octet> -> bool, usable: seq<Octet> -> bool)
    ensures Interpret(StringBlock(CMD_SID, sid) + StringBlock(CMD_CONGESTION, congctl) + StringBlock(CMD_FILTER, filter),
                      Nobody, agree, usable) == OutcomeOf(sid, congctl, filter, agree, usable)
  {
    var s, c, f := StringBlock(CMD_SID, sid), StringBlock(CMD_CONGESTION, congctl), StringBlock(CMD_FILTER, filter);
    InterpretTwo(s + c, f, Nobody, agree, usable);
    InterpretTwo(s, c, Nobody, agree, usable);
    StringTaken(CMD_SID, sid, Nobody, agree, usable);
    var one := Nobody.(sid := AsRead(sid));
    StringTaken(CMD_CONGESTION, congctl, one, agree, usable);
    var two := one.(congctl := if congctl == [] then None else Some(AsRead(congctl)));
    StringTaken(CMD_FILTER, filter, two, agree, usable);
  }

  function Outcomes(x: Extensions, agree: seq<Octet> -> bool, usable: seq<Octet> -> bool): Outcome {
    OutcomeOf(if x.request then x.sid else [], x.congctl, x.filter, agree, usable)
  }

  lemma {:induction false} WrittenIsInterpreted(x: Extensions, agree: seq<Octet> -> bool, usable: seq<Octet> -> bool)
    requires forall i :: 0 <= i < |x.km| ==> x.km[i].cmd in {CMD_KMREQ, CMD_KMRSP}
    ensures Interpret(BlocksOf(x), Nobody, agree, usable) == Outcomes(x, agree, usable)
  {
    var hs, sid := Block(if x.request then CMD_HSREQ else CMD_HSRSP, x.hs), if x.request then x.sid else [];
    var strings := StringBlock(CMD_SID, sid) + StringBlock(CMD_CONGESTION, x.congctl) + StringBlock(CMD_FILTER, x.filter);
    assert BlocksOf(x) == [hs] + (strings + x.km);
    InterpretFirst(hs, strings + x.km, Nobody, agree, usable);
    StringsInTurn(sid, x.congctl, x.filter, agree, usable);
    InterpretTwo(strings, x.km, Nobody, agree, usable);
    match Interpret(strings, Nobody, agree, usable)
    case Accepted(g) => KeysPass(x.km, g, agree, usable);
    case _ =>
  }

  lemma WordsLimited(len: nat, words: nat)
    requires words == (len + 3) / 4
    ensures (words > 0 <==> len > 0) && (4 * words > MAX_SID_LENGTH <==> len > MAX_SID_LENGTH)
    ensures 4 * words > MAX_SID_LENGTH + 1 <==> len > MAX_SID_LENGTH
  {
  }

  /** A string's block, if it has one. */
  lemma {:induction false} StringTaken(cmd: int, s: seq<Octet>, got: Peer, agree: seq<Octet> -> bool, usable: seq<Octet> -> bool)
    ensures Interpret(StringBlock(cmd, s), got, agree, usable) ==
      if s == [] then Accepted(got) else TakeString(Block(cmd, StringWords(s)), got, agree, usable)
    ensures s != [] ==> |StringWords(s)| > 0
    ensures 4 * |StringWords(s)| > MAX_SID_LENGTH <==> |s| > MAX_SID_LENGTH
    ensures 4 * |StringWords(s)| > MAX_SID_LENGTH + 1 <==> |s| > MAX_SID_LENGTH
    ensures s == [] ==> AsRead(s) == []
  {
    WordsLimited(|s|, |StringWords(s)|);
    if s != [] {
      InterpretOne(Block(cmd, StringWords(s)), got, agree, usable);
    }
  }

  /** The strings as they were written. */
  function Written(x: Extensions): Peer {
    Peer(if x.request then x.sid else [], if x.congctl == [] then None else Some(x.congctl),
         if x.filter == [] then None else Some(x.filter))
  }

  ghost predicate Fitting(s: seq<Octet>) {
    |s| <= MAX_SID_LENGTH && NoZero(s)
  }

  lemma {:induction false} OutcomeIsWritten(x: Extensions, agree: seq<Octet> -> bool, usable: seq<Octet> -> bool)
    ensures Outcomes(x, agree, usable) == Accepted(Written(x)) <==>
      Fitting(if x.request then x.sid else []) && Fitting(x.congctl) && Fitting(x.filter)
      && (x.congctl != [] ==> agree(x.congctl)) && (x.filter != [] ==> usable(x.filter))
  {
    ZeroCutsShort(if x.request then x.sid else []);
    ZeroCutsShort(x.congctl);
    ZeroCutsShort(x.filter);
  }

  /** The strings of a handshake come back exactly if none is longer than 512 octets, none has a zero octet in it, and the
      receiving side agrees with the congestion control and can use the filter. */
  lemma {:induction false} StringsComeBackIff(h: Header, x: Extensions, words: seq<Word>,
                                              agree: seq<Octet> -> bool, usable: seq<Octet> -> bool)
    requires |h.peerIp| == 4 && Sound(BlocksOf(x)) && words == HeaderWords(h) + Encode(BlocksOf(x))
    requires forall i :: 0 <= i < |x.km| ==> x.km[i].cmd in {CMD_KMREQ, CMD_KMRSP}
    ensures Interpret(Decode(words[HEADER_WORDS..]), Nobody, agree, usable) == Accepted(Written(x)) <==>
      Fitting(if x.request then x.sid else []) && Fitting(x.congctl) && Fitting(x.filter)
      && (x.congctl != [] ==> agree(x.congctl)) && (x.filter != [] ==> usable(x.filter))
  {
    PacketComesBack(h, x, words);
    WrittenIsInterpreted(x, agree, usable);
    OutcomeIsWritten(x, agree, usable);
  }

  /** A filter of more than 512 octets, which nothing refuses, is copied past the end of the array for it. */
  lemma {:induction false} LongFilterOverruns(h: Header, filter: seq<Octet>, words: seq<Word>,
                                              agree: seq<Octet> -> bool, usable: seq<Octet> -> bool)
    requires |h.peerIp| == 4 && MAX_SID_LENGTH < |filter| < 0x2_0000
    requires words == HeaderWords(h) + Encode(BlocksOf(Extensions(true, [], [], [], filter, [])))
    ensures Interpret(Decode(words[HEADER_WORDS..]), Nobody, agree, usable) == Overrun
  {
    var x := Extensions(true, [], [], [], filter, []);
    assert Sound(BlocksOf(x));
    PacketComesBack(h, x, words);
    WrittenIsInterpreted(x, agree, usable);
  }
}
