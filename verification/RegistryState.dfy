/** The registry of sockets and multiplexers as a value: which sockets are live and which are closed and wait to be
    removed, who waits in whose queue, and how many sockets use each multiplexer. */
module RegistryState {
  import opened Arithmetic

  datatype Status = Fresh | Opened | Listening | Connecting | Connected | Closed

  /** `listen` is the listener that made the socket, 0 for one the application made; `port` is the local port if it is
      recorded, else 0; `muxId` is -1 for a socket without multiplexer. */
  datatype Sock = Sock(status: Status, broken: bool, listen: int, muxId: int, port: nat, peer: int,
                       queued: set<int>, accepted: set<int>)

  datatype Mux = Mux(refs: int, port: nat)

  /** Socket numbers count downwards; `gen` is the last one given out. `given` are those the application knows. */
  datatype Reg = Reg(sockets: map<int, Sock>, closed: map<int, Sock>, mux: map<int, Mux>, peers: map<int, set<int>>,
                     gen: int, given: set<int>)

  function All(r: Reg): map<int, Sock> {
    r.closed + r.sockets
  }

  ghost function Users(all: map<int, Sock>, m: int): set<int> {
    set id | id in all && all[id].muxId == m
  }

  // ---------- the invariant ----------

  /** A socket in both containers - as happens while the collector is at work - is the same in both. */
  ghost predicate Agree(r: Reg) {
    forall id :: id in r.sockets && id in r.closed ==> r.sockets[id] == r.closed[id]
  }

  ghost predicate ClosedOK(r: Reg) {
    forall id :: id in r.closed ==> r.closed[id].status.Closed?
  }

  /** A multiplexer counts exactly the sockets that name it, and there is at least one. */
  ghost predicate Counted(all: map<int, Sock>, mux: map<int, Mux>) {
    forall m :: m in mux ==> mux[m].refs == |Users(all, m)| && mux[m].refs > 0
  }

  /** Every socket's multiplexer exists and has the port that is recorded; a socket without one has never made one. */
  ghost predicate Refers(s: Sock, id: int, mux: map<int, Mux>) {
    if s.muxId == -1 then id !in mux && s.port == 0
    else s.muxId in mux && !s.status.Fresh? && (s.port > 0 ==> mux[s.muxId].port == s.port)
  }

  ghost predicate MuxOK(all: map<int, Sock>, mux: map<int, Mux>) {
    Counted(all, mux) && (forall m :: m in mux ==> mux[m].port > 0) && forall id :: id in all ==> Refers(all[id], id, mux)
  }

  /** What may wait in a queue: a connected socket, or one that was found broken and closed when its peer came again. */
  predicate Presentable(s: Sock) {
    s.status.Connected? || (s.status.Closed? && s.broken)
  }

  /** Whoever waits in a queue is live, was made by that listener, waits nowhere else and has not been accepted, nor is
      it known to the application; and it is connected, or has been since. */
  ghost predicate QueueOK(r: Reg, l: int, q: int) {
    l in All(r) && q in All(r)[l].queued ==>
      q in r.sockets && r.sockets[q].listen == l && q != l && q !in r.given && Presentable(r.sockets[q])
  }

  ghost predicate AcceptOK(r: Reg, l: int, a: int) {
    l in All(r) && a in All(r)[l].accepted ==> a in r.given
  }

  ghost predicate PeersOK(r: Reg) {
    forall p :: p in r.peers ==> r.peers[p] != {} && forall id :: id in r.peers[p] ==> id in All(r) && All(r)[id].peer == p
  }

  ghost predicate Numbered(r: Reg) {
    r.gen > 0 && (forall id :: id in All(r) ==> id >= r.gen) && (forall m :: m in r.mux ==> m >= r.gen)
    && (forall id :: id in r.given ==> id >= r.gen)
  }

  ghost predicate QueuesOK(r: Reg) {
    (forall l, q {:trigger QueueOK(r, l, q)} :: QueueOK(r, l, q))
    && (forall l, a {:trigger AcceptOK(r, l, a)} :: AcceptOK(r, l, a))
  }

  ghost predicate Inv(r: Reg) {
    Agree(r) && ClosedOK(r) && MuxOK(All(r), r.mux) && PeersOK(r) && Numbered(r) && QueuesOK(r)
  }

  ghost predicate AtRest(r: Reg) {
    Inv(r) && r.sockets.Keys !! r.closed.Keys
  }

  /** No number is both queued and accepted, at the same listener or at different ones. */
  lemma QueuedIsNotAccepted(r: Reg, l: int, k: int, q: int)
    requires Inv(r) && l in All(r) && k in All(r) && q in All(r)[l].queued
    ensures q !in All(r)[k].accepted && (k != l ==> q !in All(r)[k].queued)
  {
    assert QueueOK(r, l, q) && AcceptOK(r, k, q) && QueueOK(r, k, q);
  }

  // ---------- elementary changes ----------

  /** A socket changes, wherever it is kept. */
  function Put(r: Reg, id: int, s: Sock): Reg {
    r.(sockets := if id in r.sockets then r.sockets[id := s] else r.sockets,
       closed := if id in r.closed then r.closed[id := s] else r.closed)
  }

  lemma PutIs(r: Reg, id: int, s: Sock)
    requires id in All(r)
    ensures All(Put(r, id, s)) == All(r)[id := s]
  {
  }

  lemma UsersOfOthers(all: map<int, Sock>, id: int, s: Sock, m: int)
    ensures Users(all[id := s], m) == (if s.muxId == m then Users(all, m) + {id} else Users(all, m) - {id})
  {
  }

  /** A change that leaves multiplexer and port of every socket alone. */
  lemma SameCounts(all: map<int, Sock>, mux: map<int, Mux>, id: int, s: Sock)
    requires MuxOK(all, mux) && id in all && s.muxId == all[id].muxId && s.port == all[id].port
    requires s.status.Fresh? ==> all[id].status.Fresh?
    ensures MuxOK(all[id := s], mux)
  {
    forall m | m in mux ensures Users(all[id := s], m) == Users(all, m) {
      UsersOfOthers(all, id, s, m);
    }
  }

  /** A change of a socket's status, or of its queues to smaller ones. */
  ghost predicate Tamer(r: Reg, id: int, s: Sock) {
    id in All(r) &&
      var t := All(r)[id];
      s == t.(status := s.status, broken := s.broken, queued := s.queued, accepted := s.accepted)
      && s.queued <= t.queued && s.accepted <= t.accepted + r.given && (s.status.Fresh? ==> t.status.Fresh?)
      && (t.status.Closed? ==> s.status.Closed?) && StaysPresentable(r, id, s)
  }

  /** If the socket may be waiting in a queue, it still may afterwards. */
  ghost predicate StaysPresentable(r: Reg, id: int, s: Sock)
    requires id in All(r)
  {
    (Presentable(All(r)[id]) ==> Presentable(s)) || NotQueued(r, id)
  }

  lemma PutKeeps(r: Reg, id: int, s: Sock)
    requires Inv(r) && Tamer(r, id, s)
    ensures Inv(Put(r, id, s)) && Put(r, id, s).sockets.Keys == r.sockets.Keys && Put(r, id, s).closed.Keys == r.closed.Keys
  {
    PutIs(r, id, s);
    SameCounts(All(r), r.mux, id, s);
    PutKeepsQueues(r, id, s);
  }

  lemma PutKeepsQueues(r: Reg, id: int, s: Sock)
    requires QueuesOK(r) && id in All(r) && s.listen == All(r)[id].listen
    requires s.queued <= All(r)[id].queued && s.accepted <= All(r)[id].accepted + r.given && StaysPresentable(r, id, s)
    ensures QueuesOK(Put(r, id, s))
  {
    var r' := Put(r, id, s);
    PutIs(r, id, s);
    forall l, q ensures QueueOK(r', l, q) {
      assert QueueOK(r, l, q);
    }
    forall l, a ensures AcceptOK(r', l, a) {
      assert AcceptOK(r, l, a);
    }
  }

  // ---------- the steps ----------

  const NewSock := Sock(Fresh, false, 0, -1, 0, 0, {}, {})

  function AddSocket(r: Reg, id: int, s: Sock): Reg {
    r.(sockets := r.sockets[id := s], gen := id)
  }

  /** A new number, below all others: the socket has no multiplexer and waits nowhere. */
  lemma AddSocketKeeps(r: Reg, id: int, s: Sock)
    requires Inv(r) && 0 < id < r.gen && s.muxId == -1 && s.port == 0 && s.queued == {} && s.accepted == {}
    ensures Inv(AddSocket(r, id, s)) && All(AddSocket(r, id, s)) == All(r)[id := s]
  {
    var r' := AddSocket(r, id, s);
    assert id !in All(r) && All(r') == All(r)[id := s];
    forall m | m in r.mux ensures Users(All(r'), m) == Users(All(r), m) {
      UsersOfOthers(All(r), id, s, m);
    }
    assert MuxOK(All(r'), r'.mux);
    AddKeepsQueues(r, id, s);
  }

  lemma AddKeepsQueues(r: Reg, id: int, s: Sock)
    requires QueuesOK(r) && id !in All(r) && s.queued == {} && s.accepted == {}
    ensures QueuesOK(AddSocket(r, id, s))
  {
    var r' := AddSocket(r, id, s);
    forall l, q ensures QueueOK(r', l, q) {
      assert QueueOK(r, l, q);
    }
    forall l, a ensures AcceptOK(r', l, a) {
      assert AcceptOK(r, l, a);
    }
  }

  lemma NewIsNotQueued(r: Reg, id: int, s: Sock)
    requires Inv(r) && id < r.gen && s.queued == {}
    ensures forall l :: l in All(AddSocket(r, id, s)) ==> id !in All(AddSocket(r, id, s))[l].queued
  {
    var t := AddSocket(r, id, s);
    assert All(t) == All(r)[id := s];
    forall l | l in All(t) ensures id !in All(t)[l].queued {
      assert QueueOK(r, l, id);
    }
  }

  /** The application learns of a number that waits in no queue. */
  lemma GiveKeeps(r: Reg, id: int)
    requires Inv(r) && id >= r.gen && forall l :: l in All(r) ==> id !in All(r)[l].queued
    ensures Inv(r.(given := r.given + {id}))
  {
    var r' := r.(given := r.given + {id});
    forall l, q ensures QueueOK(r', l, q) {
      assert QueueOK(r, l, q);
    }
    forall l, a ensures AcceptOK(r', l, a) {
      assert AcceptOK(r, l, a);
    }
  }

  /** The multiplexer m, or one of the socket's own if m is -1, gets the socket as a user. */
  function JoinMux(r: Reg, u: int, m: int, newPort: nat): Reg
    requires u in All(r) && (m == -1 || m in r.mux)
  {
    var id := if m == -1 then u else m;
    var mux := if m == -1 then r.mux[u := Mux(1, newPort)] else r.mux[m := r.mux[m].(refs := r.mux[m].refs + 1)];
    Put(r, u, All(r)[u].(muxId := id, status := Opened)).(mux := mux)
  }

  lemma JoinMuxKeeps(r: Reg, u: int, m: int, newPort: nat)
    requires Inv(r) && u in All(r) && All(r)[u].muxId == -1 && All(r)[u].status.Fresh? && (m == -1 || m in r.mux) && newPort > 0
    ensures Inv(JoinMux(r, u, m, newPort)) && All(JoinMux(r, u, m, newPort)).Keys == All(r).Keys
  {
    var id := if m == -1 then u else m;
    var s, t := All(r)[u].(muxId := id, status := Opened), JoinMux(r, u, m, newPort);
    PutIs(r, u, s);
    assert All(t) == All(r)[u := s] && Agree(t) && PeersOK(t) && Numbered(t);
    if m == -1 {
      JoinOwn(All(r), r.mux, u, s, newPort);
    } else {
      JoinShared(All(r), r.mux, u, s, m);
    }
    PutKeepsQueues(r, u, s);
    SameQueues(Put(r, u, s), t);
  }

  lemma JoinQueuesSame(r: Reg, u: int, m: int, newPort: nat)
    requires u in All(r) && (m == -1 || m in r.mux)
    ensures forall id :: NotQueued(r, id) ==> NotQueued(JoinMux(r, u, m, newPort), id)
  {
    var t := JoinMux(r, u, m, newPort);
    PutIs(r, u, All(r)[u].(muxId := if m == -1 then u else m, status := Opened));
    forall id | NotQueued(r, id) ensures NotQueued(t, id) {
      forall l | l in All(t) ensures id !in All(t)[l].queued {
        assert All(t)[l].queued == All(r)[l].queued;
      }
    }
  }

  lemma SameQueues(r: Reg, t: Reg)
    requires QueuesOK(r) && t.sockets == r.sockets && All(t) == All(r) && t.given == r.given
    ensures QueuesOK(t)
  {
    forall l, q ensures QueueOK(t, l, q) {
      assert QueueOK(r, l, q);
    }
    forall l, a ensures AcceptOK(t, l, a) {
      assert AcceptOK(r, l, a);
    }
  }

  lemma JoinOwn(all: map<int, Sock>, mux: map<int, Mux>, u: int, s: Sock, port: nat)
    requires MuxOK(all, mux) && -1 !in mux && u in all && u != -1 && all[u].muxId == -1 && port > 0
    requires s == all[u].(muxId := u, status := Opened)
    ensures MuxOK(all[u := s], mux[u := Mux(1, port)])
  {
    var all', mux' := all[u := s], mux[u := Mux(1, port)];
    assert Refers(all[u], u, mux);
    NoUsers(all, mux, u);
    JoinOwnCounts(all, mux, u, s, port);
    forall id | id in all' ensures Refers(all'[id], id, mux') {
      assert Refers(all[id], id, mux);
    }
  }

  lemma JoinOwnCounts(all: map<int, Sock>, mux: map<int, Mux>, u: int, s: Sock, port: nat)
    requires Counted(all, mux) && -1 !in mux && u in all && all[u].muxId == -1 && s.muxId == u && Users(all, u) == {}
    ensures Counted(all[u := s], mux[u := Mux(1, port)])
  {
    var mux' := mux[u := Mux(1, port)];
    forall m | m in mux' ensures mux'[m].refs == |Users(all[u := s], m)| && mux'[m].refs > 0 {
      UsersOfOthers(all, u, s, m);
      if m != u {
        assert u !in Users(all, m);
        assert Users(all[u := s], m) == Users(all, m);
      }
    }
  }

  lemma JoinShared(all: map<int, Sock>, mux: map<int, Mux>, u: int, s: Sock, m: int)
    requires MuxOK(all, mux) && -1 !in mux && u in all && all[u].muxId == -1 && m in mux
    requires s == all[u].(muxId := m, status := Opened)
    ensures MuxOK(all[u := s], mux[m := mux[m].(refs := mux[m].refs + 1)])
  {
    var all', mux' := all[u := s], mux[m := mux[m].(refs := mux[m].refs + 1)];
    assert Refers(all[u], u, mux);
    forall k | k in mux' ensures mux'[k].refs == |Users(all[u := s], k)| && mux'[k].refs > 0 {
      UsersOfOthers(all, u, s, k);
      assert u !in Users(all, k);
      if k != m {
        assert Users(all[u := s], k) == Users(all, k);
      }
    }
    forall id | id in all' ensures Refers(all'[id], id, mux') {
      assert Refers(all[id], id, mux);
    }
  }

  lemma NoUsers(all: map<int, Sock>, mux: map<int, Mux>, m: int)
    requires MuxOK(all, mux) && m !in mux && m != -1
    ensures Users(all, m) == {}
  {
    forall id | id in all ensures id !in Users(all, m) {
      assert Refers(all[id], id, mux);
    }
  }

  /** The port of its multiplexer is recorded for a socket. */
  lemma PortKeeps(r: Reg, u: int)
    requires Inv(r) && u in r.sockets && r.sockets[u].muxId in r.mux
    ensures Inv(Put(r, u, r.sockets[u].(port := r.mux[r.sockets[u].muxId].port)))
    ensures u !in r.closed ==> Put(r, u, r.sockets[u].(port := r.mux[r.sockets[u].muxId].port)).closed == r.closed
  {
    var s := r.sockets[u].(port := r.mux[r.sockets[u].muxId].port);
    var t := Put(r, u, s);
    PutIs(r, u, s);
    assert Refers(All(r)[u], u, r.mux);
    forall m | m in r.mux ensures Users(All(t), m) == Users(All(r), m) {
      UsersOfOthers(All(r), u, s, m);
    }
    assert MuxOK(All(t), t.mux);
    PutKeepsQueues(r, u, s);
  }

  /** A connection waits in its listener's queue, and under its peer. */
  function Enqueue(r: Reg, l: int, id: int): Reg
    requires l in All(r) && id in All(r)
  {
    var ls, p := All(r)[l], All(r)[id].peer;
    Put(r, l, ls.(queued := ls.queued + {id})).(peers := r.peers[p := (if p in r.peers then r.peers[p] else {}) + {id}])
  }

  lemma EnqueueKeeps(r: Reg, l: int, id: int)
    requires Inv(r) && l in All(r) && id in r.sockets && r.sockets[id].listen == l && l != id && id !in r.given
    requires Presentable(r.sockets[id])
    ensures Inv(Enqueue(r, l, id)) && All(Enqueue(r, l, id)).Keys == All(r).Keys
  {
    var t, ls := Enqueue(r, l, id), All(r)[l];
    var s := ls.(queued := ls.queued + {id});
    PutIs(r, l, s);
    SameCounts(All(r), r.mux, l, s);
    assert All(t) == All(r)[l := s] && Agree(t) && PeersOK(t) && Numbered(t);
    forall k, q ensures QueueOK(t, k, q) {
      assert QueueOK(r, k, q);
    }
    forall k, a ensures AcceptOK(t, k, a) {
      assert AcceptOK(r, k, a);
    }
  }

  /** The first in the queue is accepted, and the application learns its number. */
  function Dequeue(r: Reg, l: int, q: int): Reg
    requires l in All(r)
  {
    var ls := All(r)[l];
    Put(r.(given := r.given + {q}), l, ls.(queued := ls.queued - {q}, accepted := ls.accepted + {q}))
  }

  lemma DequeueKeeps(r: Reg, l: int, q: int)
    requires Inv(r) && l in All(r) && q in All(r)[l].queued
    ensures Inv(Dequeue(r, l, q)) && Dequeue(r, l, q).sockets.Keys == r.sockets.Keys && Dequeue(r, l, q).closed.Keys == r.closed.Keys
  {
    var ls := All(r)[l];
    var out := ls.(queued := ls.queued - {q});
    OutOfQueue(r, l, q);
    var r1 := Put(r, l, out);
    GiveKeeps(r1, q);
    PutIs(r, l, out);
    var r2 := r1.(given := r1.given + {q});
    AcceptedKeeps(r2, l, q);
    assert r2 == Put(r.(given := r.given + {q}), l, out);
    PutTwice(r.(given := r.given + {q}), l, out, out.(accepted := ls.accepted + {q}));
  }

  lemma AcceptedKeeps(r: Reg, l: int, q: int)
    requires Inv(r) && l in All(r) && q in r.given
    ensures var t := Put(r, l, All(r)[l].(accepted := All(r)[l].accepted + {q}));
      Inv(t) && t.sockets.Keys == r.sockets.Keys && t.closed.Keys == r.closed.Keys
  {
    PutKeeps(r, l, All(r)[l].(accepted := All(r)[l].accepted + {q}));
  }

  lemma PutTwice(r: Reg, id: int, s: Sock, t: Sock)
    ensures Put(Put(r, id, s), id, t) == Put(r, id, t)
  {
  }

  /** Whoever leaves the one queue it waits in waits nowhere. */
  lemma OutOfQueue(r: Reg, l: int, q: int)
    requires Inv(r) && l in All(r) && q in All(r)[l].queued
    ensures var t := Put(r, l, All(r)[l].(queued := All(r)[l].queued - {q})); Inv(t) && NotQueued(t, q) && q >= t.gen
  {
    var out := All(r)[l].(queued := All(r)[l].queued - {q});
    PutKeeps(r, l, out);
    PutIs(r, l, out);
    assert QueueOK(r, l, q) && q in All(r);
    forall k | k in All(Put(r, l, out)) ensures q !in All(Put(r, l, out))[k].queued {
      assert QueueOK(r, k, q);
    }
  }

  // ---------- closing and collecting ----------

  ghost predicate NotQueued(r: Reg, id: int) {
    forall l :: l in All(r) ==> id !in All(r)[l].queued
  }

  /** Queues that do not grow keep free who is free. */
  lemma ShrinkKeepsFree(r: Reg, t: Reg)
    requires forall l :: l in All(t) ==> l in All(r) && All(t)[l].queued <= All(r)[l].queued
    ensures forall id :: NotQueued(r, id) ==> NotQueued(t, id)
  {
    forall id | NotQueued(r, id) ensures NotQueued(t, id) {
      forall l | l in All(t) ensures id !in All(t)[l].queued {
        assert id !in All(r)[l].queued;
      }
    }
  }

  /** A live socket is closed and kept among the closed ones too. */
  function AlsoClosed(r: Reg, id: int, broken: bool): Reg
    requires id in r.sockets
  {
    var s := r.sockets[id].(status := Closed, broken := broken);
    r.(sockets := r.sockets[id := s], closed := r.closed[id := s])
  }

  lemma AlsoClosedKeeps(r: Reg, id: int, broken: bool)
    requires Inv(r) && id in r.sockets && (broken || NotQueued(r, id))
    ensures Inv(AlsoClosed(r, id, broken)) && All(AlsoClosed(r, id, broken)) == All(r)[id := AlsoClosed(r, id, broken).sockets[id]]
  {
    var s := r.sockets[id].(status := Closed, broken := broken);
    PutKeeps(r, id, s);
    PutIs(r, id, s);
    CopyKeeps(Put(r, id, s), id);
    var r1 := Put(r, id, s);
    assert AlsoClosed(r, id, broken) == r1.(closed := r1.closed[id := r1.sockets[id]]);
  }

  lemma CopyKeeps(r: Reg, id: int)
    requires Inv(r) && id in r.sockets && r.sockets[id].status.Closed?
    ensures var t := r.(closed := r.closed[id := r.sockets[id]]); Inv(t) && All(t) == All(r)
  {
    var t := r.(closed := r.closed[id := r.sockets[id]]);
    assert All(t) == All(r);
    SameQueues(r, t);
  }

  /** Closed sockets that wait in no queue leave the live ones. */
  function Forget(r: Reg, ids: set<int>): Reg {
    r.(sockets := r.sockets - ids)
  }

  lemma ForgetKeeps(r: Reg, ids: set<int>)
    requires Inv(r) && forall id :: id in ids ==> id in r.closed && NotQueued(r, id)
    ensures Inv(Forget(r, ids)) && All(Forget(r, ids)) == All(r)
  {
    var t := Forget(r, ids);
    forall id | id in All(r) ensures id in All(t) && All(t)[id] == All(r)[id] {
      assert id in ids ==> id in r.closed;
    }
    assert All(t) == All(r);
    forall l, q ensures QueueOK(t, l, q) {
      assert QueueOK(r, l, q);
    }
    forall l, a ensures AcceptOK(t, l, a) {
      assert AcceptOK(r, l, a);
    }
  }

  /** A live socket that waits nowhere goes over to the closed ones. */
  function Moved(r: Reg, id: int, broken: bool): Reg
    requires id in r.sockets
  {
    Forget(AlsoClosed(r, id, broken), {id})
  }

  lemma MovedKeeps(r: Reg, id: int, broken: bool)
    requires Inv(r) && id in r.sockets && NotQueued(r, id)
    ensures Inv(Moved(r, id, broken)) && forall q :: NotQueued(r, q) ==> NotQueued(Moved(r, id, broken), q)
    ensures Moved(r, id, broken).sockets == r.sockets - {id}
    ensures r.sockets.Keys !! r.closed.Keys ==> AtRest(Moved(r, id, broken))
  {
    var t := AlsoClosed(r, id, broken);
    AlsoClosedKeeps(r, id, broken);
    ShrinkKeepsFree(r, t);
    ForgetKeeps(t, {id});
    ShrinkKeepsFree(t, Moved(r, id, broken));
    assert r.sockets[id := t.sockets[id]] - {id} == r.sockets - {id};
  }

  /** A broken socket is closed, and leaves the sets of the listener that made it; it is still among the live ones. */
  function Retired(r: Reg, id: int): Reg
    requires id in r.sockets
  {
    var t, l := AlsoClosed(r, id, r.sockets[id].broken), r.sockets[id].listen;
    if l !in All(t) then t
    else Put(t, l, All(t)[l].(queued := All(t)[l].queued - {id}, accepted := All(t)[l].accepted - {id}))
  }

  lemma RetiredKeeps(r: Reg, id: int)
    requires Inv(r) && id in r.sockets && r.sockets[id].broken
    ensures Inv(Retired(r, id)) && NotQueued(Retired(r, id), id) && forall q :: NotQueued(r, q) ==> NotQueued(Retired(r, id), q)
  {
    var t, l := AlsoClosed(r, id, r.sockets[id].broken), r.sockets[id].listen;
    AlsoClosedKeeps(r, id, r.sockets[id].broken);
    ShrinkKeepsFree(r, t);
    forall k | k in All(t) && k != l ensures id !in All(t)[k].queued {
      assert QueueOK(t, k, id);
    }
    if l in All(t) {
      LeavesListener(t, l, id);
    }
  }

  lemma LeavesListener(t: Reg, l: int, id: int)
    requires Inv(t) && l in All(t)
    ensures var u := Put(t, l, All(t)[l].(queued := All(t)[l].queued - {id}, accepted := All(t)[l].accepted - {id}));
      Inv(u) && (forall q :: NotQueued(t, q) ==> NotQueued(u, q))
      && ((forall k :: k in All(t) && k != l ==> id !in All(t)[k].queued) ==> NotQueued(u, id))
  {
    var s := All(t)[l].(queued := All(t)[l].queued - {id}, accepted := All(t)[l].accepted - {id});
    PutKeeps(t, l, s);
    PutIs(t, l, s);
    ShrinkKeepsFree(t, Put(t, l, s));
  }

  lemma RetiredIs(r: Reg, id: int)
    requires Inv(r) && id in r.sockets
    ensures Retired(r, id).sockets.Keys == r.sockets.Keys && Retired(r, id).closed.Keys == r.closed.Keys + {id}
    ensures forall k :: k in r.sockets ==> Retired(r, id).sockets[k].broken == r.sockets[k].broken
    ensures Retired(r, id).given == r.given && Retired(r, id).gen == r.gen
  {
    var t, l := AlsoClosed(r, id, r.sockets[id].broken), r.sockets[id].listen;
    assert t.sockets.Keys == r.sockets.Keys && t.closed.Keys == r.closed.Keys + {id};
    if l in All(t) {
      assert l in t.sockets ==> All(t)[l] == t.sockets[l];
    }
  }

  /** The sockets in `tbc` have been retired, and are the only ones among both the live and the closed. */
  ghost predicate Collected(r: Reg, tbc: set<int>) {
    Inv(r) && (forall id :: id in tbc ==> id in r.closed && NotQueued(r, id))
    && forall id :: id in r.sockets && id in r.closed ==> id in tbc
  }

  /** Of a socket nothing is different but that those who are gone have left its queue, and perhaps those accepted. */
  ghost predicate Kept(s: Sock, t: Sock, gone: set<int>) {
    t == s.(queued := t.queued, accepted := t.accepted) && t.queued == s.queued - gone
    && s.accepted - gone <= t.accepted <= s.accepted
  }

  lemma RetiredLeaves(r: Reg, id: int, k: int)
    requires Inv(r) && id in r.sockets && r.sockets[id].broken && k in All(r)
    ensures k in All(Retired(r, id))
    ensures Kept(if k == id then All(r)[k].(status := Closed) else All(r)[k], All(Retired(r, id))[k], {id})
  {
    RetiredAll(r, id);
    assert QueueOK(r, k, id);
    KeptAll(All(r), id, k);
  }

  /** The sockets after one has left its listener. */
  function LeftListener(all: map<int, Sock>, id: int): map<int, Sock>
    requires id in all
  {
    var a, l := all[id := all[id].(status := Closed)], all[id].listen;
    if l !in a then a else a[l := a[l].(queued := a[l].queued - {id}, accepted := a[l].accepted - {id})]
  }

  lemma RetiredAll(r: Reg, id: int)
    requires Inv(r) && id in r.sockets && r.sockets[id].broken
    ensures id in All(r) && All(r)[id] == r.sockets[id] && All(Retired(r, id)) == LeftListener(All(r), id)
  {
    var t, l := AlsoClosed(r, id, r.sockets[id].broken), r.sockets[id].listen;
    AlsoClosedKeeps(r, id, r.sockets[id].broken);
    if l in All(t) {
      PutIs(t, l, All(t)[l].(queued := All(t)[l].queued - {id}, accepted := All(t)[l].accepted - {id}));
    }
  }

  lemma KeptAll(all: map<int, Sock>, id: int, k: int)
    requires id in all && k in all && (id in all[k].queued ==> all[id].listen == k)
    ensures k in LeftListener(all, id)
    ensures Kept(if k == id then all[k].(status := Closed) else all[k], LeftListener(all, id)[k], {id})
  {
  }

  /** What retiring the sockets in `tbc` has made of a registry. */
  ghost predicate CollectedFrom(from: Reg, r: Reg, tbc: set<int>) {
    Collected(r, tbc) && tbc <= from.sockets.Keys == r.sockets.Keys && r.closed.Keys == from.closed.Keys + tbc
    && r.given == from.given && r.gen == from.gen
    && forall k {:trigger k in All(from)} :: k in All(from) ==> k in All(r) && KeptFrom(from, r, tbc, k)
  }

  ghost predicate KeptFrom(from: Reg, r: Reg, tbc: set<int>, k: int)
    requires k in All(from) && k in All(r)
  {
    Kept(if k in tbc then All(from)[k].(status := Closed) else All(from)[k], All(r)[k], tbc)
  }

  lemma KeptMore(s: Sock, t: Sock, u: Sock, tbc: set<int>, id: int, k: int)
    requires Kept(if k in tbc then s.(status := Closed) else s, t, tbc)
    requires Kept(if k == id then t.(status := Closed) else t, u, {id})
    ensures Kept(if k in tbc + {id} then s.(status := Closed) else s, u, tbc + {id})
  {
  }

  lemma CollectedMore(r: Reg, tbc: set<int>, id: int)
    requires Collected(r, tbc) && id in r.sockets && r.sockets[id].broken
    ensures Collected(Retired(r, id), tbc + {id})
  {
    RetiredKeeps(r, id);
    RetiredIs(r, id);
    forall q | q in tbc + {id} ensures q in Retired(r, id).closed && NotQueued(Retired(r, id), q) {
      assert q in tbc ==> NotQueued(r, q);
    }
  }

  lemma CollectMore(from: Reg, r: Reg, tbc: set<int>, id: int)
    requires CollectedFrom(from, r, tbc) && id in r.sockets && r.sockets[id].broken
    ensures CollectedFrom(from, Retired(r, id), tbc + {id})
  {
    CollectedMore(r, tbc, id);
    RetiredIs(r, id);
    forall k | k in All(from) ensures k in All(Retired(r, id)) && KeptFrom(from, Retired(r, id), tbc + {id}, k) {
      RetiredLeaves(r, id, k);
      assert KeptFrom(from, r, tbc, k);
      KeptMore(All(from)[k], All(r)[k], All(Retired(r, id))[k], tbc, id, k);
    }
  }

  lemma CollectedGo(r: Reg, tbc: set<int>)
    requires Collected(r, tbc)
    ensures AtRest(Forget(r, tbc))
  {
    ForgetKeeps(r, tbc);
    var t := Forget(r, tbc);
    forall id ensures !(id in t.sockets.Keys && id in t.closed.Keys) {
      if id in t.sockets {
        assert id in r.sockets && id !in tbc;
      }
    }
    assert t.sockets.Keys !! t.closed.Keys;
  }

  /** A listener's queue is emptied: all who waited are free. */
  lemma EmptiedKeeps(r: Reg, u: int)
    requires Inv(r) && u in r.closed && u !in r.sockets
    ensures var t := r.(closed := r.closed[u := r.closed[u].(queued := {})]);
      Inv(t) && r.closed[u].queued <= r.sockets.Keys && forall q :: q in r.closed[u].queued ==> NotQueued(t, q)
  {
    var s := r.closed[u].(queued := {});
    var t := r.(closed := r.closed[u := s]);
    PutKeeps(r, u, s);
    PutIs(r, u, s);
    assert t == Put(r, u, s) && All(r)[u] == r.closed[u];
    var queue := r.closed[u].queued;
    forall q | q in queue ensures q in r.sockets.Keys {
      assert QueueOK(r, u, q);
    }
    forall q | q in queue ensures NotQueued(t, q) {
      assert QueueOK(r, u, q);
      forall l | l in All(t) ensures q !in All(t)[l].queued {
        assert QueueOK(r, l, q);
      }
    }
  }

  /** A multiplexer loses a user, and goes with the last one. */
  function LeaveMux(mux: map<int, Mux>, m: int): map<int, Mux> {
    if m !in mux then mux
    else if mux[m].refs - 1 == 0 then mux - {m} else mux[m := mux[m].(refs := mux[m].refs - 1)]
  }

  lemma LeaveCounts(all: map<int, Sock>, mux: map<int, Mux>, u: int)
    requires MuxOK(all, mux) && u in all && -1 !in mux
    ensures MuxOK(all - {u}, LeaveMux(mux, all[u].muxId))
  {
    var all', mux', m := all - {u}, LeaveMux(mux, all[u].muxId), all[u].muxId;
    assert Refers(all[u], u, mux);
    forall k | k in mux ensures Users(all', k) == Users(all, k) - {u} && (u in Users(all, k) <==> k == m) {
    }
    forall k | k in mux' ensures mux'[k].refs == |Users(all', k)| && mux'[k].refs > 0 {
      assert Users(all', k) == Users(all, k) - {u};
    }
    forall id | id in all' ensures Refers(all'[id], id, mux') {
      assert Refers(all[id], id, mux);
      if m in mux && m !in mux' && all[id].muxId == m {
        OnlyUser(all, m, u, id);
      }
    }
  }

  lemma OnlyUser(all: map<int, Sock>, m: int, u: int, id: int)
    requires u in Users(all, m) && id in Users(all, m) && |Users(all, m)| == 1
    ensures id == u
  {
    SubsetSameSize({u}, Users(all, m));
  }

  /** The socket is gone: from the closed ones, from its peer's record, and from its multiplexer's count. */
  function Delete(r: Reg, u: int): Reg
    requires u in r.closed
  {
    var s := r.closed[u];
    r.(closed := r.closed - {u}, mux := LeaveMux(r.mux, s.muxId),
       peers := Unrecorded(r.peers, s.peer, u))
  }

  /** A peer's record without one socket; an empty record goes. */
  function Unrecorded(peers: map<int, set<int>>, peer: int, u: int): map<int, set<int>> {
    if peer !in peers then peers
    else if peers[peer] - {u} == {} then peers - {peer} else peers[peer := peers[peer] - {u}]
  }

  lemma DeleteKeeps(r: Reg, u: int)
    requires Inv(r) && u in r.closed && u !in r.sockets
    ensures Inv(Delete(r, u))
  {
    var t := Delete(r, u);
    assert All(r)[u] == r.closed[u] && All(t) == All(r) - {u};
    LeaveCounts(All(r), r.mux, u);
    assert PeersOK(t);
    forall l, q ensures QueueOK(t, l, q) {
      assert QueueOK(r, l, q);
    }
    forall l, a ensures AcceptOK(t, l, a) {
      assert AcceptOK(r, l, a);
    }
  }

  /** Sockets retired one after the other. */
  function RetiredInTurn(r: Reg, ids: seq<int>): Reg {
    if ids == [] then r
    else
      var t, id := RetiredInTurn(r, ids[..|ids| - 1]), ids[|ids| - 1];
      if id in t.sockets then Retired(t, id) else t
  }

  ghost function Listed(ids: seq<int>): set<int> {
    set id | id in ids
  }

  lemma ListedMore(ids: seq<int>, id: int)
    ensures Listed(ids + [id]) == Listed(ids) + {id} && (ids + [id])[..|ids|] == ids
  {
  }

  lemma {:induction false} RetiredInTurnIs(r: Reg, ids: seq<int>)
    requires AtRest(r) && forall id :: id in Listed(ids) ==> id in r.sockets && r.sockets[id].broken
    ensures CollectedFrom(r, RetiredInTurn(r, ids), Listed(ids))
  {
    if ids == [] {
      assert forall id :: !(id in r.sockets.Keys && id in r.closed.Keys);
    } else {
      var before, id := ids[..|ids| - 1], ids[|ids| - 1];
      assert ids == before + [id];
      ListedMore(before, id);
      assert id in Listed(ids);
      RetiredInTurnIs(r, before);
      StillBroken(r, RetiredInTurn(r, before), Listed(before), id);
      CollectMore(r, RetiredInTurn(r, before), Listed(before), id);
    }
  }

  lemma StillBroken(from: Reg, r: Reg, tbc: set<int>, id: int)
    requires CollectedFrom(from, r, tbc) && Agree(from) && id in from.sockets
    ensures r.sockets[id].broken == from.sockets[id].broken
  {
    assert id in All(from) && KeptFrom(from, r, tbc, id);
  }

  // ---------- one pass of the collector ----------

  /** The live sockets that a pass closes because they are broken and not kept. */
  ghost function Going(r: Reg, keep: int -> bool): set<int> {
    set id | id in r.sockets && r.sockets[id].broken && !keep(id)
  }

  lemma GoingMore(r: Reg, keep: int -> bool, left: set<int>, id: int)
    requires id in left && left <= r.sockets.Keys
    ensures Going(r, keep) - (left - {id}) ==
      if r.sockets[id].broken && !keep(id) then (Going(r, keep) - left) + {id} else Going(r, keep) - left
  {
  }

  /** In the middle of collecting: the next socket is still live, and is broken if it was before. */
  lemma NextInTurn(from: Reg, keep: int -> bool, order: seq<int>, left: set<int>, id: int)
    requires AtRest(from) && Listed(order) == Going(from, keep) - left && id in left && left <= from.sockets.Keys
    ensures var r := RetiredInTurn(from, order);
      Inv(r) && id in r.sockets && Going(from, keep) - (left - {id}) ==
        if r.sockets[id].broken && !keep(id) then Listed(order) + {id} else Listed(order)
    ensures RetiredInTurn(from, order + [id]) == Retired(RetiredInTurn(from, order), id)
    ensures Listed(order + [id]) == Listed(order) + {id}
  {
    RetiredInTurnIs(from, order);
    StillBroken(from, RetiredInTurn(from, order), Listed(order), id);
    GoingMore(from, keep, left, id);
    ListedMore(order, id);
  }

  /** The socket waits at a listener that the pass removes. */
  ghost predicate LosesListener(r: Reg, keep: int -> bool, expired: int -> bool, id: int) {
    exists l :: l in All(r) && (l in r.closed || l in Going(r, keep)) && expired(l) && id in All(r)[l].queued
  }

  /** Which sockets are live after a pass, and which are closed. */
  ghost predicate Passed(r: Reg, t: Reg, keep: int -> bool, expired: int -> bool) {
    (forall id :: id in t.sockets <==> id in r.sockets && id !in Going(r, keep) && !LosesListener(r, keep, expired, id))
    && (forall id :: id in t.sockets ==> Kept(r.sockets[id], t.sockets[id], Going(r, keep)))
    && (forall id :: id in t.closed <==>
        ((id in r.closed || id in Going(r, keep)) && !expired(id))
        || (id in r.sockets && id !in Going(r, keep) && LosesListener(r, keep, expired, id)))
    && t.given == r.given && t.gen == r.gen
  }

  /** The same, seen from between collecting and removing. */
  lemma PassedFrom(from: Reg, r: Reg, t: Reg, keep: int -> bool, expired: int -> bool)
    requires CollectedFrom(from, r, Going(from, keep)) && from.sockets.Keys !! from.closed.Keys
    requires t.given == r.given && t.gen == r.gen
    requires forall id :: id in t.sockets <==> id in r.sockets && id !in Going(from, keep) && !WaitsAtExpired(r, expired, id)
    requires forall id :: id in t.sockets ==> t.sockets[id] == r.sockets[id]
    requires forall id :: id in t.closed <==>
      (id in r.closed && !expired(id)) || (id in r.sockets && id !in Going(from, keep) && WaitsAtExpired(r, expired, id))
    ensures Passed(from, t, keep, expired)
  {
    var going := Going(from, keep);
    forall id | id in r.sockets && id !in going
      ensures WaitsAtExpired(r, expired, id) <==> LosesListener(from, keep, expired, id)
    {
      forall l | l in All(from) && (l in from.closed || l in going)
        ensures l in r.closed && (id in r.closed[l].queued <==> id in All(from)[l].queued)
      {
        assert KeptFrom(from, r, going, l);
        assert Agree(r);
      }
      if WaitsAtExpired(r, expired, id) {
        var l :| l in r.closed && expired(l) && id in r.closed[l].queued;
        assert l in All(from);
      }
    }
    forall id | id in t.sockets ensures Kept(from.sockets[id], t.sockets[id], going) {
      assert id in All(from) && KeptFrom(from, r, going, id);
      assert All(from)[id] == from.sockets[id] && All(r)[id] == r.sockets[id];
    }
  }

  ghost predicate WaitsAtExpired(r: Reg, expired: int -> bool, id: int) {
    exists l :: l in r.closed && expired(l) && id in r.closed[l].queued
  }
}
