/** Two rendezvous sides and the messages between them: in order, but lost, repeated and processed again at will. */
module RendezvousRun {
  import opened Rendezvous

  /** One side; everything it ever sent, and the place of the peer's message that it took last, -1 for none. */
  datatype Party = Party(at: At, sent: seq<Message>, got: int, rejected: bool)

  datatype World = World(i: Party, r: Party)

  /** Two started sides whose cookies make the first the initiator and the second the responder. */
  ghost predicate Start(w: World) {
    w.i == Party(At(Waving, false, Draw, w.i.at.cookie, 0), [WaveAHand], -1, false)
    && w.r == Party(At(Waving, false, Draw, w.r.at.cookie, 0), [WaveAHand], -1, false)
    && Contest(Draw, w.i.at.cookie, w.r.at.cookie) == Initiator && Contest(Draw, w.r.at.cookie, w.i.at.cookie) == Responder
  }

  /** p takes the peer's message number j: one not older than the last it took, and possibly that one again. */
  function Take(p: Party, q: Party, j: int): Party
    requires 0 <= j < |q.sent|
  {
    var req := q.sent[j];
    var shake := !req.Payload? && !p.at.state.Connected?;
    var a := if shake then p.at.(peerKnown := true, peerCookie := q.at.cookie) else p.at;
    var (state, reply) := Respond(a, req);
    Party(a.(state := state, side := if shake then Contest(a.side, a.cookie, a.peerCookie) else a.side),
          if reply.Send? then p.sent + [reply.message] else p.sent, j, p.rejected || reply.Failure? || reply.Untouched?)
  }

  ghost predicate TakeStep(p: Party, p': Party, q: Party) {
    exists j :: p.got <= j && 0 <= j < |q.sent| && p' == Take(p, q, j)
  }

  /** A side that is not connected repeats its request; a connected one sends data or keep-alives. */
  ghost predicate SpeakStep(p: Party, p': Party) {
    p.sent != [] && p' == p.(sent := p.sent + [if p.at.state.Connected? then Payload else p.sent[|p.sent| - 1]])
  }

  ghost predicate Step(w: World, w': World) {
    (w'.r == w.r && (TakeStep(w.i, w'.i, w.r) || SpeakStep(w.i, w'.i)))
    || (w'.i == w.i && (TakeStep(w.r, w'.r, w.i) || SpeakStep(w.r, w'.r)))
  }

  // ---------- the invariant ----------

  function Rank(m: Message): nat {
    match m
    case WaveAHand => 0
    case Conclusion(extension) => if extension == NoExtension then 1 else 2
    case Agreement => 3
    case Payload => 3
  }

  function Last(s: seq<Message>): nat
    requires s != []
  {
    Rank(s[|s| - 1])
  }

  ghost predicate Rising(s: seq<Message>) {
    s != [] && forall a, b :: 0 <= a < b < |s| ==> Rank(s[a]) <= Rank(s[b])
  }

  /** The rank of the message taken last. */
  function Got(p: Party, q: Party): int {
    if 0 <= p.got < |q.sent| then Rank(q.sent[p.got]) else -1
  }

  ghost predicate Settled(p: Party, q: Party, role: Role) {
    p.at.peerKnown == (p.got >= 0) && p.at.side == (if p.got >= 0 then role else Draw)
    && -1 <= p.got < |q.sent| && !p.rejected && Rising(p.sent) && Contest(Draw, p.at.cookie, q.at.cookie) == role
  }

  /** The conclusions that a side has sent carried only extensions of these kinds. */
  ghost predicate SendsOnly(p: Party, kinds: set<Extension>) {
    forall m :: m in p.sent && m.Conclusion? ==> m.extension in kinds
  }

  ghost predicate InitiatorOK(i: Party, r: Party) {
    Settled(i, r, Initiator) && SendsOnly(i, {HsReq})
    && match i.at.state
       case Waving => i.got == -1 && Last(i.sent) == 0
       case Attention => 0 <= Got(i, r) <= 1 && Last(i.sent) == 2
       case Fine => Got(i, r) == 1 && Last(i.sent) == 2
       case Connected => Got(i, r) >= 2 && Last(i.sent) == 3
       case _ => false
  }

  ghost predicate ResponderOK(r: Party, i: Party) {
    Settled(r, i, Responder) && SendsOnly(r, {NoExtension, HsRsp})
    && match r.at.state
       case Waving => r.got == -1 && Last(r.sent) == 0
       case Attention => Got(r, i) == 0 && Last(r.sent) == 1
       case Fine => Got(r, i) == 2 && Last(r.sent) == 2 && SendsOnly(r, {HsRsp})
       case Initiated => Got(r, i) == 2 && Last(r.sent) == 2
       case Connected => Got(r, i) == 3 && Last(r.sent) >= 2
       case _ => false
  }

  ghost predicate Inv(w: World) {
    InitiatorOK(w.i, w.r) && ResponderOK(w.r, w.i)
  }

  lemma StartHolds(w: World)
    requires Start(w)
    ensures Inv(w)
  {
  }

  lemma SpeakKeeps(w: World, w': World)
    requires Inv(w)
    requires (w'.r == w.r && SpeakStep(w.i, w'.i)) || (w'.i == w.i && SpeakStep(w.r, w'.r))
    ensures Inv(w')
  {
  }

  /** Which messages the initiator can be sent in each state. */
  lemma InitiatorMeets(w: World, j: int)
    requires Inv(w) && w.i.got <= j && 0 <= j < |w.r.sent|
    ensures Got(w.i, w.r) <= Rank(w.r.sent[j]) <= Last(w.r.sent)
    ensures w.i.at.state.Waving? ==> Rank(w.r.sent[j]) <= 1
    ensures w.i.at.state.Attention? || w.i.at.state.Fine? ==> Rank(w.r.sent[j]) <= 2
  {
    assert Rank(w.i.sent[if w.r.got >= 0 then w.r.got else 0]) <= Last(w.i.sent);
  }

  lemma ResponderMeets(w: World, j: int)
    requires Inv(w) && w.r.got <= j && 0 <= j < |w.i.sent|
    ensures Got(w.r, w.i) <= Rank(w.i.sent[j]) <= Last(w.i.sent) && w.i.sent[j] != Conclusion(NoExtension)
    ensures w.r.at.state.Waving? || w.r.at.state.Attention? ==> Rank(w.i.sent[j]) <= 2
  {
    assert Rank(w.r.sent[if w.i.got >= 0 then w.i.got else 0]) <= Last(w.r.sent);
    assert w.i.sent[j] in w.i.sent;
  }

  lemma RisingMore(s: seq<Message>, m: Message)
    requires Rising(s) && Rank(m) >= Last(s)
    ensures Rising(s + [m]) && Last(s + [m]) == Rank(m) && forall x :: x in s + [m] <==> x in s || x == m
  {
  }

  function Answered(sent: seq<Message>, reply: Reply): seq<Message> {
    if reply.Send? then sent + [reply.message] else sent
  }

  /** Taking a message, with the role known. */
  lemma TakeIs(p: Party, q: Party, role: Role, j: int)
    requires Settled(p, q, role) && !role.Draw? && p.got <= j && 0 <= j < |q.sent|
    ensures var t, m := Take(p, q, j), q.sent[j];
      t.got == j && t.at.cookie == p.at.cookie
      && (p.at.state.Connected? ==> t.at == p.at && !t.rejected)
      && (p.at.state.Connected? ==> t.sent == if Rank(m) == 3 then p.sent else p.sent + [Agreement])
      && (!p.at.state.Connected? && m.Payload? && p.got >= 0 ==> t.at == p.at.(state := Connected) && !t.rejected && t.sent == p.sent)
      && (!p.at.state.Connected? && !m.Payload? ==> t.at.side == role && t.at.peerKnown)
    ensures !p.at.state.Connected? && !q.sent[j].Payload? ==>
      var t, s := Take(p, q, j), SwitchTo(p.at.state, role, q.sent[j]);
      t.at.state == s.state && t.sent == Answered(p.sent, ReplyOf(s)) && t.rejected == (s.rsp.Reject? || s.rsp.NoRsp?)
  {
  }

  /** What a side relies on of its peer stays true when the peer sends more. */
  lemma PeerSpeaks(w: World, more: Party)
    requires more.at.cookie == w.r.at.cookie && w.r.sent <= more.sent
    ensures InitiatorOK(w.i, w.r) ==> InitiatorOK(w.i, more)
  {
  }

  lemma PeerSpeaksToResponder(w: World, more: Party)
    requires more.at.cookie == w.i.at.cookie && w.i.sent <= more.sent
    ensures ResponderOK(w.r, w.i) ==> ResponderOK(w.r, more)
  {
  }

  lemma InitiatorTakes(w: World, j: int)
    requires Inv(w) && w.i.got <= j && 0 <= j < |w.r.sent|
    ensures Inv(w.(i := Take(w.i, w.r, j)))
  {
    InitiatorMeets(w, j);
    InitiatorAnswers(w, j);
    PeerSpeaksToResponder(w, Take(w.i, w.r, j));
  }

  lemma InitiatorAnswers(w: World, j: int)
    requires InitiatorOK(w.i, w.r) && w.i.got <= j && 0 <= j < |w.r.sent| && Got(w.i, w.r) <= Rank(w.r.sent[j])
    requires w.i.at.state.Waving? ==> Rank(w.r.sent[j]) <= 1
    requires w.i.at.state.Attention? || w.i.at.state.Fine? ==> Rank(w.r.sent[j]) <= 2
    ensures InitiatorOK(Take(w.i, w.r, j), w.r) && w.i.sent <= Take(w.i, w.r, j).sent
    ensures Take(w.i, w.r, j).at.cookie == w.i.at.cookie
  {
    TakeIs(w.i, w.r, Initiator, j);
    forall m | Rank(m) >= Last(w.i.sent) ensures Rising(w.i.sent + [m]) { RisingMore(w.i.sent, m); }
  }

  lemma ResponderTakes(w: World, j: int)
    requires Inv(w) && w.r.got <= j && 0 <= j < |w.i.sent|
    ensures Inv(w.(r := Take(w.r, w.i, j)))
  {
    ResponderMeets(w, j);
    ResponderAnswers(w, j);
    PeerSpeaks(w, Take(w.r, w.i, j));
  }

  lemma ResponderAnswers(w: World, j: int)
    requires ResponderOK(w.r, w.i) && w.r.got <= j && 0 <= j < |w.i.sent|
    requires Got(w.r, w.i) <= Rank(w.i.sent[j]) && w.i.sent[j] != Conclusion(NoExtension)
    requires w.r.at.state.Waving? || w.r.at.state.Attention? ==> Rank(w.i.sent[j]) <= 2
    ensures ResponderOK(Take(w.r, w.i, j), w.i) && w.r.sent <= Take(w.r, w.i, j).sent
    ensures Take(w.r, w.i, j).at.cookie == w.r.at.cookie
  {
    TakeIs(w.r, w.i, Responder, j);
    forall m | Rank(m) >= Last(w.r.sent) ensures Rising(w.r.sent + [m]) { RisingMore(w.r.sent, m); }
  }

  lemma StepKeeps(w: World, w': World)
    requires Inv(w) && Step(w, w')
    ensures Inv(w')
  {
    if w'.r == w.r && TakeStep(w.i, w'.i, w.r) {
      var j :| w.i.got <= j && 0 <= j < |w.r.sent| && w'.i == Take(w.i, w.r, j);
      InitiatorTakes(w, j);
      assert w' == w.(i := Take(w.i, w.r, j));
    } else if w'.i == w.i && TakeStep(w.r, w'.r, w.i) {
      var j :| w.r.got <= j && 0 <= j < |w.i.sent| && w'.r == Take(w.r, w.i, j);
      ResponderTakes(w, j);
      assert w' == w.(r := Take(w.r, w.i, j));
    } else {
      SpeakKeeps(w, w');
    }
  }

  // ---------- all runs ----------

  ghost predicate StepIn(run: seq<World>, k: int)
    requires 0 <= k < |run| - 1
  {
    Step(run[k], run[k + 1])
  }

  ghost predicate IsRun(run: seq<World>) {
    run != [] && Start(run[0]) && forall k {:trigger StepIn(run, k)} :: 0 <= k < |run| - 1 ==> StepIn(run, k)
  }

  lemma {:induction false} RunKeeps(run: seq<World>)
    requires IsRun(run)
    ensures Inv(run[|run| - 1])
  {
    if |run| == 1 {
      StartHolds(run[0]);
    } else {
      var before := run[..|run| - 1];
      assert forall k :: 0 <= k < |before| - 1 ==> StepIn(run, k) == StepIn(before, k);
      RunKeeps(before);
      assert StepIn(run, |run| - 2);
      StepKeeps(run[|run| - 2], run[|run| - 1]);
    }
  }

  /** In no run does a side reject the handshake, and the two sides are never both FINE. */
  lemma NeverBothFine(run: seq<World>)
    requires IsRun(run)
    ensures var w := run[|run| - 1];
      !w.i.rejected && !w.r.rejected && !(w.i.at.state.Fine? && w.r.at.state.Fine?)
  {
    RunKeeps(run);
    var w := run[|run| - 1];
    if w.i.at.state.Fine? {
      assert w.r.sent[w.i.got] == Conclusion(NoExtension) && w.r.sent[w.i.got] in w.r.sent;
    }
  }

  /** A connected side is never alone: when the initiator is connected the responder is in one of three states, and when
      the responder is connected so is the initiator. */
  lemma ConnectedTogether(run: seq<World>)
    requires IsRun(run)
    ensures var w := run[|run| - 1];
      (w.i.at.state.Connected? ==> w.r.at.state.Fine? || w.r.at.state.Initiated? || w.r.at.state.Connected?)
      && (w.r.at.state.Connected? ==> w.i.at.state.Connected?)
  {
    RunKeeps(run);
    var w := run[|run| - 1];
    if w.i.at.state.Connected? {
      assert Rank(w.r.sent[w.i.got]) <= Last(w.r.sent);
    }
    if w.r.at.state.Connected? {
      assert Rank(w.i.sent[w.r.got]) <= Last(w.i.sent);
    }
  }

  /** The branches called impossible are impossible: a responder in ATTENTION is never sent a conclusion without an
      extension, nor an agreement; and no side is ever sent what its state has no transition for. */
  lemma ImpossibleBranches(run: seq<World>, j: int)
    requires IsRun(run)
    ensures var w := run[|run| - 1];
      (w.r.got <= j && 0 <= j < |w.i.sent| ==>
        (w.r.at.state.Attention? ==> w.i.sent[j] == WaveAHand || w.i.sent[j] == Conclusion(HsReq))
        && (w.r.at.state.Connected? || w.i.sent[j].Payload? || SwitchTo(w.r.at.state, Responder, w.i.sent[j]) != Rogue))
      && (w.i.got <= j && 0 <= j < |w.r.sent| ==>
        (w.i.at.state.Attention? ==> w.r.sent[j] == WaveAHand || w.r.sent[j].Conclusion?)
        && (w.i.at.state.Connected? || w.r.sent[j].Payload? || SwitchTo(w.i.at.state, Initiator, w.r.sent[j]) != Rogue))
  {
    RunKeeps(run);
    var w := run[|run| - 1];
    if w.r.got <= j && 0 <= j < |w.i.sent| {
      ResponderMeets(w, j);
    }
    if w.i.got <= j && 0 <= j < |w.r.sent| {
      InitiatorMeets(w, j);
    }
  }

  // ---------- the extensions ----------

  /** In every run the initiator sends conclusions only with a request, and the responder only without an extension or with
      a response. */
  lemma ExtensionsByRole(run: seq<World>)
    requires IsRun(run)
    ensures var w := run[|run| - 1]; SendsOnly(w.i, {HsReq}) && SendsOnly(w.r, {NoExtension, HsRsp})
  {
    RunKeeps(run);
  }

  /** Whenever the responder crafts a response, what it has just been sent is a conclusion with a request to respond to;
      and whenever the initiator sends an agreement, it is to a conclusion with a response. */
  lemma ResponseAnswersRequest(run: seq<World>, j: int)
    requires IsRun(run)
    ensures var w := run[|run| - 1];
      (w.r.got <= j && 0 <= j < |w.i.sent| && !w.r.at.state.Connected? && SwitchTo(w.r.at.state, Responder, w.i.sent[j]).needsHsrsp ==>
        w.i.sent[j] == Conclusion(HsReq))
      && (w.i.got <= j && 0 <= j < |w.r.sent| && !w.i.at.state.Connected? && SwitchTo(w.i.at.state, Initiator, w.r.sent[j]).rsp.Agree? ==>
        w.r.sent[j] == Conclusion(HsRsp))
  {
    RunKeeps(run);
    var w := run[|run| - 1];
    if w.r.got <= j && 0 <= j < |w.i.sent| {
      ResponderMeets(w, j);
      assert w.i.sent[j] in w.i.sent;
    }
    if w.i.got <= j && 0 <= j < |w.r.sent| {
      assert w.r.sent[j] in w.r.sent;
    }
  }

  /** No side connects before it has interpreted the other's extension: the initiator becomes connected only by taking a
      response, and the responder leaves WAVING and ATTENTION for good only by taking a request. */
  lemma NegotiatedFirst(w: World, w': World)
    requires Inv(w) && Step(w, w')
    ensures !w.i.at.state.Connected? && w'.i.at.state.Connected? ==> w'.r == w.r && TakesOne(w.i, w'.i, w.r, Conclusion(HsRsp))
    ensures Rung(w.r.at.state) <= 2 && Rung(w'.r.at.state) > 2 ==> w'.i == w.i && TakesOne(w.r, w'.r, w.i, Conclusion(HsReq))
  {
    if w'.r == w.r && TakeStep(w.i, w'.i, w.r) {
      var j :| w.i.got <= j && 0 <= j < |w.r.sent| && w'.i == Take(w.i, w.r, j);
      InitiatorMeets(w, j);
      TakeIs(w.i, w.r, Initiator, j);
      assert w.r.sent[j] in w.r.sent;
    } else if w'.i == w.i && TakeStep(w.r, w'.r, w.i) {
      var j :| w.r.got <= j && 0 <= j < |w.i.sent| && w'.r == Take(w.r, w.i, j);
      ResponderMeets(w, j);
      TakeIs(w.r, w.i, Responder, j);
      assert w.i.sent[j] in w.i.sent;
    }
  }

  ghost predicate TakesOne(p: Party, p': Party, q: Party, m: Message) {
    exists j :: p.got <= j && 0 <= j < |q.sent| && q.sent[j] == m && p' == Take(p, q, j)
  }

  // ---------- progress ----------

  function Rung(s: RdvState): nat {
    match s
    case Invalid => 0
    case Waving => 1
    case Attention => 2
    case Fine => 3
    case Initiated => 3
    case Connected => 4
  }

  /** No step ever takes a side back. */
  lemma NeverGoesBack(w: World, w': World)
    requires Inv(w) && Step(w, w')
    ensures Rung(w.i.at.state) <= Rung(w'.i.at.state) && Rung(w.r.at.state) <= Rung(w'.r.at.state)
  {
    StepKeeps(w, w');
    if w'.r == w.r && TakeStep(w.i, w'.i, w.r) {
      var j :| w.i.got <= j && 0 <= j < |w.r.sent| && w'.i == Take(w.i, w.r, j);
      InitiatorMeets(w, j);
    } else if w'.i == w.i && TakeStep(w.r, w'.r, w.i) {
      var j :| w.r.got <= j && 0 <= j < |w.i.sent| && w'.r == Take(w.r, w.i, j);
      ResponderMeets(w, j);
    }
  }

  function HeardBy(p: Party, q: Party): Party
    requires q.sent != []
  {
    Take(p, q, |q.sent| - 1)
  }

  /** The newest message of each side gets through once, the responder's first. */
  function Round(w: World): World
    requires w.i.sent != [] && w.r.sent != []
  {
    var i := HeardBy(w.i, w.r);
    World(i, HeardBy(w.r, i))
  }

  /** The responder's newest message takes the initiator out of WAVING, and connects it if the responder was past
      ATTENTION. */
  lemma InitiatorHears(w: World)
    requires Inv(w)
    ensures var v := w.(i := HeardBy(w.i, w.r));
      Inv(v) && !v.i.at.state.Waving? && (!(w.r.at.state.Waving? || w.r.at.state.Attention?) ==> v.i.at.state.Connected?)
  {
    var j := |w.r.sent| - 1;
    InitiatorTakes(w, j);
    InitiatorMeets(w, j);
    InitiatorMoves(w.i, w.r, j);
  }

  lemma InitiatorMoves(i: Party, r: Party, j: int)
    requires InitiatorOK(i, r) && i.got <= j && 0 <= j < |r.sent| && Got(i, r) <= Rank(r.sent[j])
    requires i.at.state.Waving? ==> Rank(r.sent[j]) <= 1
    requires i.at.state.Attention? || i.at.state.Fine? ==> Rank(r.sent[j]) <= 2
    ensures !Take(i, r, j).at.state.Waving? && (Rank(r.sent[j]) >= 2 ==> Take(i, r, j).at.state.Connected?)
  {
    TakeIs(i, r, Initiator, j);
  }

  lemma ResponderHears(w: World)
    requires Inv(w) && !w.i.at.state.Waving?
    ensures var v := w.(r := HeardBy(w.r, w.i));
      Inv(v) && !v.r.at.state.Waving? && !v.r.at.state.Attention? && (w.i.at.state.Connected? ==> v.r.at.state.Connected?)
  {
    ResponderTakes(w, |w.i.sent| - 1);
    ResponderMeets(w, |w.i.sent| - 1);
    TakeIs(w.r, w.i, Responder, |w.i.sent| - 1);
  }

  lemma RoundAdvances(w: World)
    requires Inv(w)
    ensures Inv(Round(w))
    ensures Round(w).i.at.state.Connected? || (w.r.at.state.Waving? || w.r.at.state.Attention?)
    ensures Round(w).r.at.state.Fine? || Round(w).r.at.state.Initiated? || Round(w).r.at.state.Connected?
    ensures Round(w).i.at.state.Connected? ==> Round(w).r.at.state.Connected?
  {
    InitiatorHears(w);
    var v := w.(i := HeardBy(w.i, w.r));
    ResponderHears(v);
    assert Round(w) == v.(r := HeardBy(v.r, v.i));
  }

  /** From every reachable world - also one in which the agreement was lost - two rounds connect both sides. */
  lemma TwoRoundsConnect(run: seq<World>)
    requires IsRun(run)
    ensures var w := run[|run| - 1];
      w.i.sent != [] && w.r.sent != [] && Round(w).i.sent != [] && Round(w).r.sent != []
      && var v := Round(Round(w)); v.i.at.state.Connected? && v.r.at.state.Connected?
  {
    RunKeeps(run);
    RoundAdvances(run[|run| - 1]);
    RoundAdvances(Round(run[|run| - 1]));
  }

  // ---------- fair delivery ----------

  /** In this step the initiator takes a message of the responder, number n or a later one. */
  ghost predicate InitiatorGets(w: World, w': World, n: int) {
    exists j :: n <= j && w.i.got <= j && 0 <= j < |w.r.sent| && w' == w.(i := Take(w.i, w.r, j))
  }

  ghost predicate ResponderGets(w: World, w': World, n: int) {
    exists j :: n <= j && w.r.got <= j && 0 <= j < |w.i.sent| && w' == w.(r := Take(w.r, w.i, j))
  }

  /** The later of two worlds of a run: more has been sent, and no side is further back. */
  ghost predicate After(v: World, w: World) {
    Inv(v) && Inv(w) && v.i.sent <= w.i.sent && v.r.sent <= w.r.sent
    && Rung(v.i.at.state) <= Rung(w.i.at.state) && Rung(v.r.at.state) <= Rung(w.r.at.state)
  }

  lemma StepIsAfter(w: World, w': World)
    requires Inv(w) && Step(w, w')
    ensures After(w, w')
  {
    StepKeeps(w, w');
    NeverGoesBack(w, w');
  }

  lemma PrefixKeeps(run: seq<World>, a: nat)
    requires IsRun(run) && a < |run|
    ensures Inv(run[a])
  {
    var before := run[..a + 1];
    assert forall k :: 0 <= k < a ==> StepIn(run, k) == StepIn(before, k);
    RunKeeps(before);
  }

  lemma {:induction false} RunIsAfter(run: seq<World>, a: nat, b: nat)
    requires IsRun(run) && a <= b < |run|
    ensures After(run[a], run[b])
    decreases b - a
  {
    if a == b {
      PrefixKeeps(run, a);
    } else {
      RunIsAfter(run, a, b - 1);
      assert StepIn(run, b - 1);
      StepIsAfter(run[b - 1], run[b]);
    }
  }

  /** A message no older than the newest of an earlier time is worth no less. */
  lemma InitiatorGetsFresh(v: World, w: World, w': World)
    requires After(v, w) && After(w, w') && InitiatorGets(w, w', |v.r.sent| - 1)
    ensures Got(w'.i, w'.r) >= Last(v.r.sent) && w'.i.got >= 0
  {
    assert w.r.sent[|v.r.sent| - 1] == v.r.sent[|v.r.sent| - 1];
  }

  lemma ResponderGetsFresh(v: World, w: World, w': World)
    requires After(v, w) && After(w, w') && ResponderGets(w, w', |v.i.sent| - 1)
    ensures Got(w'.r, w'.i) >= Last(v.i.sent) && w'.r.got >= 0
  {
    assert w.i.sent[|v.i.sent| - 1] == v.i.sent[|v.i.sent| - 1];
  }

  /** What a side has taken decides what it has sent. */
  lemma TakenDecides(w: World)
    requires Inv(w)
    ensures w.i.got >= 0 ==> Last(w.i.sent) >= 2
    ensures Got(w.r, w.i) >= 2 ==> Last(w.r.sent) >= 2
    ensures Got(w.i, w.r) >= 2 ==> w.i.at.state.Connected? && Last(w.i.sent) == 3
    ensures Got(w.r, w.i) >= 3 ==> w.r.at.state.Connected?
  {
  }

  /** The rank of the message sent last. */
  function Newest(sent: seq<Message>): nat {
    if sent == [] then 0 else Last(sent)
  }

  lemma FreshToInitiator(run: seq<World>, m: nat, k: nat)
    requires IsRun(run) && m <= k < |run| - 1 && InitiatorGets(run[k], run[k + 1], |run[m].r.sent| - 1)
    ensures Newest(run[k + 1].i.sent) >= 2
    ensures Newest(run[m].r.sent) >= 2 ==> run[k + 1].i.at.state.Connected? && Newest(run[k + 1].i.sent) == 3
  {
    RunIsAfter(run, m, k);
    RunIsAfter(run, k, k + 1);
    InitiatorGetsFresh(run[m], run[k], run[k + 1]);
    TakenDecides(run[k + 1]);
  }

  lemma FreshToResponder(run: seq<World>, m: nat, k: nat)
    requires IsRun(run) && m <= k < |run| - 1 && ResponderGets(run[k], run[k + 1], |run[m].i.sent| - 1)
    ensures Newest(run[m].i.sent) >= 2 ==> Newest(run[k + 1].r.sent) >= 2
    ensures Newest(run[m].i.sent) >= 3 ==> run[k + 1].r.at.state.Connected?
  {
    RunIsAfter(run, m, k);
    RunIsAfter(run, k, k + 1);
    ResponderGetsFresh(run[m], run[k], run[k + 1]);
    TakenDecides(run[k + 1]);
  }

  lemma StaysConnected(run: seq<World>, k: nat, e: nat)
    requires IsRun(run) && k <= e < |run|
    ensures run[k].i.at.state.Connected? ==> run[e].i.at.state.Connected?
    ensures run[k].r.at.state.Connected? ==> run[e].r.at.state.Connected?
  {
    RunIsAfter(run, k, e);
  }

  /** Four deliveries connect the two sides, whatever else happens between them and however long messages are under way:
      any message to the initiator; to the responder one no older than the newest at that time; one such to the initiator;
      and one such to the responder. And connected they stay. */
  lemma FourDeliveriesConnect(run: seq<World>, a: nat, b: nat, c: nat, d: nat, e: nat)
    requires IsRun(run) && a < b < c < d < e < |run|
    requires InitiatorGets(run[a], run[a + 1], |run[0].r.sent| - 1)
    requires ResponderGets(run[b], run[b + 1], |run[a + 1].i.sent| - 1)
    requires InitiatorGets(run[c], run[c + 1], |run[b + 1].r.sent| - 1)
    requires ResponderGets(run[d], run[d + 1], |run[c + 1].i.sent| - 1)
    ensures run[e].i.at.state.Connected? && run[e].r.at.state.Connected?
  {
    FreshToInitiator(run, 0, a);
    FreshToResponder(run, a + 1, b);
    FreshToInitiator(run, b + 1, c);
    FreshToResponder(run, c + 1, d);
    StaysConnected(run, c + 1, e);
    StaysConnected(run, d + 1, e);
  }

  ghost predicate StepAt(run: nat -> World, k: nat) {
    Step(run(k), run(k + 1))
  }

  ghost predicate IsEndlessRun(run: nat -> World) {
    Start(run(0)) && forall k: nat {:trigger StepAt(run, k)} :: StepAt(run, k)
  }

  /** At time k the initiator gets something that was the responder's newest message at time n or is newer. */
  ghost predicate InitiatorGetsAt(run: nat -> World, n: nat, k: nat) {
    InitiatorGets(run(k), run(k + 1), |run(n).r.sent| - 1)
  }

  ghost predicate ResponderGetsAt(run: nat -> World, n: nat, k: nat) {
    ResponderGets(run(k), run(k + 1), |run(n).i.sent| - 1)
  }

  ghost predicate InitiatorGetsSome(run: nat -> World, n: nat) {
    exists k: nat :: n < k && InitiatorGetsAt(run, n, k)
  }

  ghost predicate ResponderGetsSome(run: nat -> World, n: nat) {
    exists k: nat :: n < k && ResponderGetsAt(run, n, k)
  }

  /** At any time, of what each side has sent last or sends later, something still gets through some time. */
  ghost predicate Fair(run: nat -> World) {
    forall n: nat :: InitiatorGetsSome(run, n) && ResponderGetsSome(run, n)
  }

  ghost predicate BothConnected(w: World) {
    w.i.at.state.Connected? && w.r.at.state.Connected?
  }

  ghost predicate ConnectedFrom(run: nat -> World, n: nat) {
    forall e: nat :: n <= e ==> BothConnected(run(e))
  }

  ghost function Prefix(run: nat -> World, n: nat): (s: seq<World>)
    ensures |s| == n + 1 && forall k :: 0 <= k <= n ==> s[k] == run(k)
  {
    seq(n + 1, k requires 0 <= k => run(k))
  }

  lemma PrefixIsRun(run: nat -> World, n: nat)
    requires IsEndlessRun(run)
    ensures IsRun(Prefix(run, n))
  {
    forall k | 0 <= k < n ensures StepIn(Prefix(run, n), k) {
      assert StepAt(run, k);
    }
  }

  /** Under fair delivery every run connects both sides and leaves them connected, whatever is lost, repeated or late. */
  lemma FairRunsConnect(run: nat -> World)
    requires IsEndlessRun(run) && Fair(run)
    ensures exists n: nat :: ConnectedFrom(run, n)
  {
    assert InitiatorGetsSome(run, 0);
    var a: nat :| 0 < a && InitiatorGetsAt(run, 0, a);
    assert ResponderGetsSome(run, a + 1);
    var b: nat :| a + 1 < b && ResponderGetsAt(run, a + 1, b);
    assert InitiatorGetsSome(run, b + 1);
    var c: nat :| b + 1 < c && InitiatorGetsAt(run, b + 1, c);
    assert ResponderGetsSome(run, c + 1);
    var d: nat :| c + 1 < d && ResponderGetsAt(run, c + 1, d);
    forall e: nat | d + 1 <= e ensures BothConnected(run(e)) {
      PrefixIsRun(run, e);
      FourDeliveriesConnect(Prefix(run, e), a, b, c, d, e);
    }
    assert ConnectedFrom(run, d + 1);
  }
}
