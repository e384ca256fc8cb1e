/** The registry of sockets and multiplexers: what the API calls, the listener and the collector do to its maps. Between
    any two of these steps every multiplexer counts exactly the sockets that use it, no socket is both live and closed,
    and everyone in a queue is live. */
module Registry {
  import opened Arithmetic
  import opened RegistryState

  class United {
    var sockets: map<int, Sock>
    var closed: map<int, Sock>
    var mux: map<int, Mux>
    var peers: map<int, set<int>>
    var gen: int
    ghost var given: set<int>

    ghost function TheReg(): Reg
      reads this
    {
      Reg(sockets, closed, mux, peers, gen, given)
    }

    ghost predicate Valid()
      reads this
    {
      AtRest(TheReg())
    }

    constructor (gen: int)
      requires gen > 0
      ensures Valid() && TheReg() == Reg(map[], map[], map[], map[], gen, {})
    {
      sockets, closed, mux, peers := map[], map[], map[], map[];
      this.gen, given := gen, {};
    }

    /** The live socket with this number, unless it is closed already. */
    predicate Located(u: int)
      reads this
    {
      u in sockets && !sockets[u].status.Closed?
    }

    method NewSocket() returns (id: int)
      requires Valid() && gen > 1
      modifies this
      ensures Valid() && id == old(gen) - 1 && id !in old(All(TheReg()))
      ensures TheReg() == old(AddSocket(TheReg(), gen - 1, NewSock)).(given := old(given) + {id})
    {
      id := AddNew(NewSock);
      GiveKeeps(TheReg(), id);
      given := given + {id};
    }

    ghost predicate Shareable(port: nat, fits: int -> bool)
      reads this
    {
      exists k :: k in mux && mux[k].port == port && fits(k)
    }

    /** A multiplexer with this port that the socket may share, or -1. */
    method FindMux(port: nat, fits: int -> bool) returns (m: int)
      requires Valid()
      ensures m != -1 ==> m in mux && mux[m].port == port && fits(m)
      ensures m == -1 <==> !Shareable(port, fits)
    {
      var left := mux.Keys;
      while left != {}
        invariant left <= mux.Keys && forall k :: k in mux && k !in left ==> mux[k].port != port || !fits(k)
        decreases |left|
      {
        ghost var some := SomeElement(left);
        var k :| k in left;
        if mux[k].port == port && fits(k) {
          return k;
        }
        left := left - {k};
      }
      m := -1;
    }

    method UpdateMux(u: int, m: int, newPort: nat)
      requires Valid() && u in sockets && sockets[u].muxId == -1 && sockets[u].status.Fresh? && (m == -1 || m in mux) && newPort > 0
      modifies this`mux, this`sockets
      ensures Valid() && TheReg() == JoinMux(old(TheReg()), u, m, newPort)
      ensures sockets == old(sockets)[u := old(sockets)[u].(muxId := if m == -1 then u else m, status := Opened)]
    {
      JoinMuxKeeps(TheReg(), u, m, newPort);
      ghost var r := TheReg();
      var id := if m == -1 then u else m;
      if m == -1 {
        mux := mux[u := Mux(1, newPort)];
      } else {
        mux := mux[m := mux[m].(refs := mux[m].refs + 1)];
      }
      sockets := sockets[u := sockets[u].(muxId := id, status := Opened)];
      assert TheReg() == JoinMux(r, u, m, newPort);
    }

    /** Binds a fresh socket: it shares a multiplexer if it may and there is one for the port, or makes one of its own. */
    method Bind(u: int, port: nat, reuse: bool, fits: int -> bool, newPort: nat, openFails: bool) returns (ok: bool)
      requires Valid() && newPort > 0
      modifies this`mux, this`sockets
      ensures Valid() && sockets.Keys == old(sockets).Keys && (!ok ==> TheReg() == old(TheReg()))
      ensures ok <==> old(Located(u) && sockets[u].status.Fresh?) && (!openFails || (reuse && old(Shareable(port, fits))))
      ensures ok ==> sockets[u].status.Opened? && sockets[u].muxId in mux && sockets[u].port == mux[sockets[u].muxId].port > 0
      ensures ok ==> var m := sockets[u].muxId;
        if reuse && old(Shareable(port, fits))
        then m in old(mux) && old(mux)[m].port == port && fits(m) && mux == old(mux)[m := Mux(old(mux)[m].refs + 1, port)]
        else m == u && mux == old(mux)[u := Mux(1, newPort)]
      ensures ok ==> sockets == old(sockets)[u := old(sockets)[u].(status := Opened, muxId := sockets[u].muxId, port := sockets[u].port)]
    {
      if !Located(u) || !sockets[u].status.Fresh? {
        return false;
      }
      assert Refers(All(TheReg())[u], u, mux);
      var m := -1;
      if reuse {
        m := FindMux(port, fits);
      }
      if m == -1 && openFails {
        return false;
      }
      JoinAndRecord(u, m, newPort);
      ok := true;
    }

    method JoinAndRecord(u: int, m: int, newPort: nat)
      requires Valid() && u in sockets && sockets[u].muxId == -1 && sockets[u].status.Fresh? && (m == -1 || m in mux) && newPort > 0
      requires m == -1 ==> u !in mux
      modifies this`mux, this`sockets
      ensures Valid() && u in sockets && sockets[u].muxId == (if m == -1 then u else m)
      ensures sockets == old(sockets)[u := old(sockets)[u].(status := Opened, muxId := sockets[u].muxId, port := sockets[u].port)]
      ensures mux == if m == -1 then old(mux)[u := Mux(1, newPort)] else old(mux)[m := old(mux)[m].(refs := old(mux)[m].refs + 1)]
      ensures sockets[u].muxId in mux && sockets[u].port == mux[sockets[u].muxId].port > 0
    {
      ghost var was := sockets;
      UpdateMux(u, m, newPort);
      ghost var joined := sockets[u];
      RecordPort(u);
      PutAgain(was, u, joined, sockets[u]);
    }

    /** The local port is read back from the channel. */
    method RecordPort(u: int)
      requires Valid() && u in sockets && sockets[u].muxId != -1
      modifies this`sockets
      ensures Valid() && u in sockets && sockets == old(sockets)[u := old(sockets)[u].(port := sockets[u].port)]
      ensures sockets[u].muxId in mux && sockets[u].port == mux[sockets[u].muxId].port > 0
    {
      assert Refers(All(TheReg())[u], u, mux);
      PortKeeps(TheReg(), u);
      sockets := sockets[u := sockets[u].(port := mux[sockets[u].muxId].port)];
    }

    /** Only an open socket that is not meant for rendezvous starts to listen; one that listens already may be asked again. */
    method Listen(u: int, backlog: int, rendezvous: bool) returns (ok: bool)
      requires Valid()
      modifies this`sockets
      ensures Valid() && ok == old(backlog > 0 && Located(u)
                                   && (sockets[u].status.Listening? || (sockets[u].status.Opened? && !rendezvous)))
      ensures ok ==> sockets == old(sockets)[u := old(sockets)[u].(status := Listening)]
      ensures !ok ==> sockets == old(sockets)
    {
      if backlog <= 0 || !Located(u) {
        return false;
      }
      if sockets[u].status.Listening? {
        assert sockets[u := sockets[u].(status := Listening)] == sockets;
        return true;
      }
      if !sockets[u].status.Opened? || rendezvous {
        return false;
      }
      PutLive(u, sockets[u].(status := Listening));
      ok := true;
    }

    /** A live socket changes its status or loses some of its queue. */
    method PutLive(u: int, s: Sock)
      requires Valid() && u in sockets && Tamer(TheReg(), u, s)
      modifies this`sockets
      ensures Valid() && sockets == old(sockets)[u := s]
    {
      PutKeeps(TheReg(), u, s);
      ghost var r := TheReg();
      sockets := sockets[u := s];
      assert TheReg() == Put(r, u, s);
    }

    /** A connection request reaches a listener. `known` is a live socket recorded under the same peer, if there is one:
        if it is not broken the request is a repetition. Otherwise a new socket joins the listener's multiplexer and
        waits in its queue - or, if the queue is full or the handshake fails, does not. */
    method NewConnection(l: int, peer: int, known: int, backlog: nat, handshakeFails: bool) returns (rc: int)
      requires Valid() && Located(l) && sockets[l].status.Listening? && gen > 1
      requires known != -1 ==> known in sockets
      modifies this
      ensures Valid() && given == old(given) && old(sockets).Keys <= sockets.Keys && -1 <= rc <= 1
      ensures rc == 0 <==> known != -1 && !old(sockets)[known].broken
      ensures rc == 0 ==> TheReg() == old(TheReg())
      ensures rc == 1 ==> gen == old(gen) - 1 && gen !in old(All(TheReg())) && gen in sockets && gen in sockets[l].queued
      ensures rc == 1 ==> sockets[gen].listen == l && sockets[gen].muxId in mux && peer in peers && gen in peers[peer]
      ensures rc == 1 ==> Located(gen) && sockets[gen].status.Connected? && !sockets[gen].broken
      ensures rc == 1 ==> |sockets[l].queued| <= backlog && !handshakeFails && old(sockets)[l].port > 0
      ensures rc == -1 ==> sockets.Keys == old(sockets).Keys && peers == old(peers)
      ensures rc == -1 && known == -1 ==> sockets == old(sockets)
      ensures rc == -1 ==> if gen == old(gen) then |sockets[l].queued| >= backlog && closed == old(closed) && mux == old(mux)
        else gen == old(gen) - 1 && gen in closed && (handshakeFails || old(sockets)[l].port == 0)
      ensures forall id :: id in old(sockets) && id != l && id != known ==> sockets[id] == old(sockets)[id]
      ensures rc != 0 && known != -1 ==> sockets[known].status.Closed? && known !in sockets[l].queued + sockets[l].accepted
    {
      if known != -1 {
        if !sockets[known].broken {
          return 0;
        }
        DiscardKnown(l, known);
      }
      rc := Establish(l, peer, backlog, handshakeFails);
    }

    /** What happens to a request that is not a repetition: the new socket is queued exactly when there is room, the
        handshake succeeds and a multiplexer is found; without room there is no new socket at all. */
    method Establish(l: int, peer: int, backlog: nat, handshakeFails: bool) returns (rc: int)
      requires Valid() && l in sockets && gen > 1
      modifies this
      ensures Valid() && given == old(given) && old(sockets).Keys <= sockets.Keys && (rc == -1 || rc == 1)
      ensures rc == 1 <==> |old(sockets)[l].queued| < backlog && !handshakeFails && old(sockets)[l].port > 0
      ensures rc == 1 ==> gen == old(gen) - 1 && gen !in old(All(TheReg())) && gen in sockets && peer in peers && gen in peers[peer]
      ensures rc == 1 ==> Located(gen) && sockets[gen].muxId in mux && sockets[gen].port == mux[sockets[gen].muxId].port == old(sockets)[l].port
      ensures rc == 1 ==> sockets == old(sockets)
        [gen := NewSock.(status := Connected, listen := l, peer := peer, muxId := sockets[gen].muxId, port := sockets[gen].port)]
        [l := old(sockets)[l].(queued := old(sockets)[l].queued + {gen})]
      ensures rc == -1 ==> sockets == old(sockets) && peers == old(peers)
      ensures rc == -1 ==> if |old(sockets)[l].queued| >= backlog then TheReg() == old(TheReg())
                           else gen == old(gen) - 1 && gen in closed
    {
      if |sockets[l].queued| >= backlog {
        return -1;
      }
      ghost var was := sockets;
      var id := Adopt(l, peer);
      if handshakeFails || sockets[id].muxId == -1 {
        TakenOut(was, id, sockets[id]);
        RejectNew(id);
        return -1;
      }
      ghost var adopted := sockets[id];
      Admit(l, id);
      PutAgain(was, id, adopted, sockets[id]);
      rc := 1;
    }

    /** The broken socket of an earlier connection: closed, and out of the listener's sets. */
    method DiscardKnown(l: int, known: int)
      requires Valid() && l in sockets && known in sockets && sockets[known].broken
      modifies this`sockets
      ensures Valid() && sockets.Keys == old(sockets).Keys
      ensures forall id :: id in sockets && id != l && id != known ==> sockets[id] == old(sockets)[id]
      ensures known != l ==> sockets[known] == old(sockets)[known].(status := Closed)
      ensures sockets[l] == old(sockets)[l].(queued := old(sockets)[l].queued - {known},
        accepted := old(sockets)[l].accepted - {known}, status := if known == l then Closed else old(sockets)[l].status)
    {
      PutLive(known, sockets[known].(status := Closed));
      PutLive(l, sockets[l].(queued := sockets[l].queued - {known}, accepted := sockets[l].accepted - {known}));
    }

    /** A new number, one below the last. */
    method AddNew(s: Sock) returns (id: int)
      requires Valid() && gen > 1 && s.muxId == -1 && s.port == 0 && s.queued == {} && s.accepted == {}
      modifies this`sockets, this`gen
      ensures Valid() && id == old(gen) - 1 && TheReg() == old(AddSocket(TheReg(), gen - 1, s))
      ensures id !in old(All(TheReg())) && NotQueued(TheReg(), id) && id !in given
    {
      id := gen - 1;
      AddSocketKeeps(TheReg(), id, s);
      NewIsNotQueued(TheReg(), id, s);
      gen := id;
      sockets := sockets[id := s];
    }

    /** A socket made by a listener, with the listener's multiplexer: the one found for the listener's recorded port. */
    method Adopt(l: int, peer: int) returns (id: int)
      requires Valid() && l in sockets && gen > 1
      modifies this`sockets, this`mux, this`gen
      ensures Valid() && id == gen == old(gen) - 1 && id !in old(All(TheReg()))
      ensures id in sockets && id !in old(sockets) && sockets == old(sockets)[id := sockets[id]]
      ensures sockets[id] == NewSock.(listen := l, peer := peer, muxId := sockets[id].muxId,
                                           status := if old(sockets)[l].port > 0 then Opened else Fresh)
      ensures sockets[id].muxId != -1 <==> old(sockets)[l].port > 0
      ensures NotQueued(TheReg(), id) && id !in given
      ensures sockets[id].muxId != -1 ==> sockets[id].muxId in mux && mux[sockets[id].muxId].port == old(sockets)[l].port
    {
      var port := sockets[l].port;
      assert Refers(All(TheReg())[l], l, mux);
      assert Shareable(port, _ => true) <==> port > 0;
      id := AddNew(NewSock.(listen := l, peer := peer));
      UpdateListenerMux(id, port);
    }

    /** The new socket shares the multiplexer with the port recorded for the listener, if there is one. */
    method UpdateListenerMux(id: int, port: nat)
      requires Valid() && id in sockets && sockets[id].muxId == -1 && sockets[id].status.Fresh? && NotQueued(TheReg(), id)
      modifies this`mux, this`sockets
      ensures Valid() && NotQueued(TheReg(), id) && id in sockets
      ensures sockets == old(sockets)[id := if old(Shareable(port, _ => true))
                                            then old(sockets)[id].(muxId := sockets[id].muxId, status := Opened) else old(sockets)[id]]
      ensures old(Shareable(port, _ => true)) ==> sockets[id].muxId in old(mux) && old(mux)[sockets[id].muxId].port == port
      ensures old(Shareable(port, _ => true)) ==>
        mux == old(mux)[sockets[id].muxId := Mux(old(mux)[sockets[id].muxId].refs + 1, port)]
      ensures !old(Shareable(port, _ => true)) ==> mux == old(mux)
    {
      var m := FindMux(port, _ => true);
      if m != -1 {
        JoinQueuesSame(TheReg(), id, m, 1);
        UpdateMux(id, m, 1);
      } else {
        assert sockets == sockets[id := sockets[id]];
      }
    }

    /** The handshake failed: straight to the closed ones. */
    method RejectNew(id: int)
      requires Valid() && id in sockets && NotQueued(TheReg(), id)
      modifies this`sockets, this`closed
      ensures Valid() && sockets == old(sockets) - {id} && closed == old(closed)[id := old(sockets)[id].(status := Closed)]
    {
      CloseLive(id, sockets[id].broken);
    }

    /** A live socket that waits in no queue is closed and moves to the closed ones. */
    method CloseLive(id: int, broken: bool)
      requires Valid() && id in sockets && NotQueued(TheReg(), id)
      modifies this`sockets, this`closed
      ensures Valid() && sockets == old(sockets) - {id}
      ensures closed == old(closed)[id := old(sockets)[id].(status := Closed, broken := broken)]
      ensures forall q :: old(NotQueued(TheReg(), q)) ==> NotQueued(TheReg(), q)
    {
      MovedKeeps(TheReg(), id, broken);
      var s := sockets[id].(status := Closed, broken := broken);
      sockets := sockets[id := s];
      closed := closed[id := s];
      sockets := sockets - {id};
    }

    /** The connection stands: the socket is connected, its port recorded, it is known under its peer, and it waits to be
        accepted. */
    method Admit(l: int, id: int)
      requires Valid() && l in sockets && id in sockets && sockets[id].listen == l && l != id && id !in given
      requires sockets[id].muxId != -1 && sockets[id].status.Opened?
      modifies this`sockets, this`peers
      ensures Valid() && id in sockets && sockets[id].muxId in mux && sockets[id].port == mux[sockets[id].muxId].port
      ensures sockets == old(sockets)[id := old(sockets)[id].(status := Connected, port := sockets[id].port)]
                           [l := old(sockets)[l].(queued := old(sockets)[l].queued + {id})]
      ensures old(sockets)[id].peer in peers && id in peers[old(sockets)[id].peer]
    {
      MarkConnected(id);
      EnterQueue(l, id);
    }

    method MarkConnected(id: int)
      requires Valid() && id in sockets && sockets[id].muxId != -1 && sockets[id].status.Opened?
      modifies this`sockets
      ensures Valid() && id in sockets && sockets[id].muxId in mux && sockets[id].port == mux[sockets[id].muxId].port
      ensures sockets == old(sockets)[id := old(sockets)[id].(status := Connected, port := sockets[id].port)]
    {
      ghost var was := sockets;
      var s := sockets[id].(status := Connected);
      PutLive(id, s);
      RecordPort(id);
      PutAgain(was, id, s, sockets[id]);
    }

    /** The socket is recorded under its peer and enters the queue. */
    method EnterQueue(l: int, id: int)
      requires Valid() && l in sockets && id in sockets && sockets[id].listen == l && l != id && id !in given && Presentable(sockets[id])
      modifies this`sockets, this`peers
      ensures Valid() && sockets == old(sockets)[l := old(sockets)[l].(queued := old(sockets)[l].queued + {id})]
      ensures sockets[id].peer in peers && id in peers[sockets[id].peer]
    {
      EnqueueKeeps(TheReg(), l, id);
      ghost var r := TheReg();
      var p := sockets[id].peer;
      peers := peers[p := (if p in peers then peers[p] else {}) + {id}];
      sockets := sockets[l := sockets[l].(queued := sockets[l].queued + {id})];
      assert TheReg() == Enqueue(r, l, id);
    }

    /** Takes the first waiting connection. */
    method Accept(l: int) returns (u: int)
      requires Valid()
      modifies this`sockets, this`given
      ensures Valid() && sockets.Keys == old(sockets).Keys
      ensures u != -1 <==> old(Located(l) && sockets[l].status.Listening? && !sockets[l].broken && sockets[l].queued != {})
      ensures u != -1 ==> u in old(sockets[l].queued) && (forall v :: v in old(sockets[l].queued) ==> u <= v) && u in sockets
      ensures u != -1 ==> sockets[u] == old(sockets)[u] && Presentable(sockets[u]) && (Located(u) <==> sockets[u].status.Connected?)
      ensures u != -1 ==> given == old(given) + {u} && sockets == old(sockets)[l :=
        old(sockets)[l].(queued := old(sockets)[l].queued - {u}, accepted := old(sockets)[l].accepted + {u})]
      ensures u == -1 ==> TheReg() == old(TheReg())
    {
      if !Located(l) || !sockets[l].status.Listening? || sockets[l].broken || sockets[l].queued == {} {
        return -1;
      }
      ghost var r := TheReg();
      u := LeastOf(sockets[l].queued);
      assert QueueOK(r, l, u);
      DequeueKeeps(r, l, u);
      sockets := sockets[l := sockets[l].(queued := sockets[l].queued - {u}, accepted := sockets[l].accepted + {u})];
      given := given + {u};
      assert TheReg() == Dequeue(r, l, u);
    }

    predicate CanConnect(u: int, rendezvous: bool, openFails: bool)
      reads this
    {
      Located(u) && (sockets[u].status.Opened? || (sockets[u].status.Fresh? && !rendezvous && !openFails))
    }

    /** Connecting a fresh socket gives it a multiplexer of its own, whose port is not recorded. If the connection cannot
        be started the socket stays open. */
    method Connect(u: int, rendezvous: bool, newPort: nat, openFails: bool, startFails: bool) returns (ok: bool)
      requires Valid() && newPort > 0
      modifies this`mux, this`sockets
      ensures Valid() && ok == (old(CanConnect(u, rendezvous, openFails)) && !startFails)
      ensures old(CanConnect(u, rendezvous, openFails)) ==>
        TheReg() == Put(old(OpenedUp(u, newPort)), u, old(OpenedUp(u, newPort)).sockets[u].(status := if ok then Connecting else Opened))
      ensures !old(CanConnect(u, rendezvous, openFails)) ==> TheReg() == old(TheReg())
    {
      if !CanConnect(u, rendezvous, openFails) {
        return false;
      }
      OpenUp(u, newPort);
      ghost var s := sockets;
      PutLive(u, sockets[u].(status := Connecting));
      if startFails {
        PutLive(u, sockets[u].(status := Opened));
        PutAgain(s, u, s[u].(status := Connecting), s[u].(status := Opened));
        return false;
      }
      ok := true;
    }

    /** The registry with the socket opened: a fresh one has a multiplexer of its own. */
    ghost function OpenedUp(u: int, newPort: nat): Reg
      requires u in sockets
      reads this
    {
      if sockets[u].status.Fresh? then JoinMux(TheReg(), u, -1, newPort) else TheReg()
    }

    method OpenUp(u: int, newPort: nat)
      requires Valid() && newPort > 0 && CanConnect(u, false, false)
      modifies this`mux, this`sockets
      ensures Valid() && TheReg() == old(OpenedUp(u, newPort)) && u in sockets && sockets[u].status.Opened?
    {
      assert Refers(All(TheReg())[u], u, mux);
      if sockets[u].status.Fresh? {
        UpdateMux(u, -1, newPort);
      }
    }

    /** The application closes a socket that it was given. A listener only becomes broken; the collector does the rest. */
    method Close(u: int) returns (ok: bool)
      requires Valid() && u in given
      modifies this`sockets, this`closed
      ensures Valid() && ok == old(Located(u))
      ensures ok && old(sockets)[u].status.Listening? ==> sockets == old(sockets)[u := old(sockets)[u].(broken := true)] && closed == old(closed)
      ensures ok && !old(sockets)[u].status.Listening? ==>
        sockets == old(sockets) - {u} && closed == old(closed)[u := old(sockets)[u].(status := Closed)]
    {
      if !Located(u) {
        return false;
      }
      ok := true;
      if sockets[u].status.Listening? {
        if sockets[u].broken {
          assert sockets[u := sockets[u].(broken := true)] == sockets;
          return;
        }
        PutLive(u, sockets[u].(broken := true));
        return;
      }
      forall l | l in All(TheReg()) ensures u !in All(TheReg())[l].queued {
        assert QueueOK(TheReg(), l, u);
      }
      CloseLive(u, sockets[u].broken);
    }

    /** The protocol finds a connection broken. */
    method Break(u: int)
      requires Valid() && u in sockets
      modifies this`sockets
      ensures Valid() && sockets == old(sockets)[u := old(sockets)[u].(broken := true)]
    {
      PutLive(u, sockets[u].(broken := true));
    }

    // ---------- the collector ----------

    /** One pass: broken sockets that are not kept a little longer are closed and leave their listener's sets; then the
        closed ones whose time is up are removed for good, and whoever waits at one of those is closed. All other sockets
        stay what they are. */
    method CheckBrokenSockets(keep: int -> bool, expired: int -> bool)
      requires Valid()
      modifies this
      ensures Valid() && Passed(old(TheReg()), TheReg(), keep, expired)
    {
      ghost var from := TheReg();
      ghost var r := CloseBroken(keep);
      var tbr := set id | id in closed && expired(id);
      WaitingForExpired(r, Going(from, keep), tbr, expired);
      RemoveAll(tbr);
      PassedFrom(from, r, TheReg(), keep, expired);
    }

    /** The first half: the broken ones are among the closed ones only. */
    method CloseBroken(keep: int -> bool) returns (ghost r: Reg)
      requires Valid()
      modifies this`sockets, this`closed
      ensures Valid() && CollectedFrom(old(TheReg()), r, old(Going(TheReg(), keep))) && TheReg() == Forget(r, old(Going(TheReg(), keep)))
    {
      var tbc := CollectBroken(keep);
      r := TheReg();
      CollectedGo(r, tbc);
      sockets := sockets - tbc;
    }

    /** The live sockets to be closed: they are among the closed ones afterwards too, and wait nowhere. */
    method CollectBroken(keep: int -> bool) returns (tbc: set<int>)
      requires Valid()
      modifies this`sockets, this`closed
      ensures CollectedFrom(old(TheReg()), TheReg(), tbc) && tbc == Going(old(TheReg()), keep)
    {
      ghost var order;
      tbc, order := CollectInTurn(keep);
      RetiredInTurnIs(old(TheReg()), order);
    }

    method CollectInTurn(keep: int -> bool) returns (tbc: set<int>, ghost order: seq<int>)
      requires Valid()
      modifies this`sockets, this`closed
      ensures TheReg() == RetiredInTurn(old(TheReg()), order) && tbc == Listed(order) == Going(old(TheReg()), keep)
    {
      tbc, order := {}, [];
      var left := sockets.Keys;
      ghost var from := TheReg();
      assert Going(from, keep) - left == {};
      while left != {}
        invariant TheReg() == RetiredInTurn(from, order) && tbc == Listed(order) == Going(from, keep) - left
        invariant left <= from.sockets.Keys
        decreases |left|
      {
        ghost var some := SomeElement(left);
        var id :| id in left;
        NextInTurn(from, keep, order, left, id);
        left := left - {id};
        if sockets[id].broken && !keep(id) {
          Retire(id);
          tbc, order := tbc + {id}, order + [id];
        }
      }
      assert Going(from, keep) - left == Going(from, keep);
    }

    /** A broken socket is closed, and leaves the sets of the listener that made it. */
    method Retire(id: int)
      requires Inv(TheReg()) && id in sockets && sockets[id].broken
      modifies this`sockets, this`closed
      ensures TheReg() == Retired(old(TheReg()), id)
      ensures sockets.Keys == old(sockets).Keys && closed.Keys == old(closed).Keys + {id}
      ensures forall k :: k in sockets ==> sockets[k].broken == old(sockets)[k].broken
    {
      ghost var r := TheReg();
      RetiredKeeps(r, id);
      RetiredIs(r, id);
      var s := sockets[id].(status := Closed);
      var l := s.listen;
      sockets := sockets[id := s];
      closed := closed[id := s];
      assert TheReg() == AlsoClosed(r, id, s.broken);
      if l !in sockets && l !in closed {
        return;
      }
      var ls := if l in sockets then sockets[l] else closed[l];
      var t := ls.(queued := ls.queued - {id}, accepted := ls.accepted - {id});
      if l in sockets {
        sockets := sockets[l := t];
      }
      if l in closed {
        closed := closed[l := t];
      }
      assert TheReg() == Retired(r, id);
    }

    method RemoveAll(ids: set<int>)
      requires Valid() && ids <= closed.Keys
      modifies this
      ensures Valid() && given == old(given) && gen == old(gen)
      ensures forall id :: id in sockets <==> id in old(sockets) && !WaitsAt(old(TheReg()), ids, id)
      ensures forall id :: id in sockets ==> sockets[id] == old(sockets)[id]
      ensures forall id :: id in closed <==> (id in old(closed) && id !in ids) || (id in old(sockets) && WaitsAt(old(TheReg()), ids, id))
    {
      var left := ids;
      ghost var r := TheReg();
      while left != {}
        invariant Valid() && left <= ids && given == r.given && gen == r.gen
        invariant forall id :: id in sockets <==> id in r.sockets && !WaitsAt(r, ids - left, id)
        invariant forall id :: id in sockets ==> sockets[id] == r.sockets[id]
        invariant forall id :: id in left ==> id in closed && closed[id] == r.closed[id]
        invariant forall id :: id in closed <==>
          (id in r.closed && id !in ids - left) || (id in r.sockets && WaitsAt(r, ids - left, id))
        decreases |left|
      {
        ghost var some := SomeElement(left);
        var id :| id in left;
        WaitsAtMore(r, ids - left, id);
        left := left - {id};
        assert ids - left == ids - (left + {id}) + {id};
        RemoveSocket(id);
      }
      assert ids - {} == ids;
    }

    /** Removes a closed socket for good. Everyone still waiting in its queue is closed first; the multiplexer loses a user,
        and goes with the last one. */
    method RemoveSocket(u: int)
      requires Valid() && u in closed
      modifies this
      ensures Valid() && given == old(given) && gen == old(gen)
      ensures u !in sockets && closed.Keys == old(closed).Keys - {u} + old(closed)[u].queued
      ensures forall k :: k in old(closed) && k != u ==> k in closed && closed[k] == old(closed)[k]
      ensures old(closed)[u].queued <= old(sockets).Keys
      ensures sockets == old(sockets) - old(closed)[u].queued && mux == LeaveMux(old(mux), old(closed)[u].muxId)
      ensures peers == Unrecorded(old(peers), old(closed)[u].peer, u)
    {
      var s := closed[u];
      EmptiedKeeps(TheReg(), u);
      closed := closed[u := s.(queued := {})];
      CloseQueued(s.queued, u);
      DeleteClosed(u);
    }

    /** A closed socket in whose queue nobody waits goes from all maps. */
    method DeleteClosed(u: int)
      requires Valid() && u in closed
      modifies this`closed, this`mux, this`peers
      ensures Valid() && TheReg() == Delete(old(TheReg()), u)
    {
      DeleteKeeps(TheReg(), u);
      var s := closed[u];
      ForgetPeer(s.peer, u);
      closed := closed - {u};
      LeaveMultiplexer(s.muxId);
    }

    method ForgetPeer(peer: int, u: int)
      modifies this`peers
      ensures peers == Unrecorded(old(peers), peer, u)
    {
      if peer !in peers {
        return;
      }
      var others := peers[peer] - {u};
      if others == {} {
        peers := peers - {peer};
      } else {
        peers := peers[peer := others];
      }
    }

    method LeaveMultiplexer(m: int)
      modifies this`mux
      ensures mux == LeaveMux(old(mux), m)
    {
      if m !in mux {
        return;
      }
      var refs := mux[m].refs - 1;
      if refs == 0 {
        mux := mux - {m};
      } else {
        mux := mux[m := mux[m].(refs := refs)];
      }
    }

    method CloseQueued(queue: set<int>, ghost u: int)
      requires Valid() && u in closed && forall q :: q in queue ==> q in sockets && NotQueued(TheReg(), q)
      modifies this`sockets, this`closed
      ensures Valid() && sockets == old(sockets) - queue && closed.Keys == old(closed).Keys + queue
      ensures forall k :: k in old(closed) ==> k in closed && closed[k] == old(closed)[k]
    {
      var left := queue;
      while left != {}
        invariant Valid() && left <= queue && WentOver(old(sockets), old(closed), queue - left)
        invariant forall q :: q in left ==> q in sockets && NotQueued(TheReg(), q)
        decreases |left|
      {
        ghost var some := SomeElement(left);
        var q :| q in left;
        CloseOne(q, old(sockets), old(closed), queue - left);
        OneLess(queue, left, q);
        left := left - {q};
      }
    }

    /** These sockets are closed, and all others are what they were. */
    ghost predicate WentOver(live: map<int, Sock>, closedBefore: map<int, Sock>, done: set<int>)
      reads this
    {
      sockets == live - done && closed.Keys == closedBefore.Keys + done
      && forall k :: k in closedBefore ==> k in closed && closed[k] == closedBefore[k]
    }

    method CloseOne(q: int, ghost live: map<int, Sock>, ghost closedBefore: map<int, Sock>, ghost done: set<int>)
      requires Valid() && q in sockets && NotQueued(TheReg(), q) && WentOver(live, closedBefore, done)
      modifies this`sockets, this`closed
      ensures Valid() && WentOver(live, closedBefore, done + {q}) && sockets == old(sockets) - {q}
      ensures forall p :: old(NotQueued(TheReg(), p)) ==> NotQueued(TheReg(), p)
    {
      TakenAway(live, done, q);
      CloseLive(q, true);
    }
  }

  /** A socket that was opened by connecting, which failed: it has a multiplexer, but no port is recorded for it. */
  method OpenedByConnect(newPort: nat) returns (d: United, l: int)
    requires newPort > 0
    ensures fresh(d) && d.Valid() && d.gen == 999 && l in d.sockets
    ensures d.sockets[l] == NewSock.(status := Opened, muxId := l) && l in d.mux
  {
    d := new United(1000);
    l := d.NewSocket();
    assert d.sockets[l] == NewSock;
    var connected := d.Connect(l, false, newPort, false, true);
  }

  /** If it then listens, no connection to it is ever accepted, whatever the backlog. */
  method FailedConnectThenListen(peer: int, backlog: nat, newPort: nat) returns (d: United, l: int, rc: int)
    requires newPort > 0 && backlog > 0
    ensures l in d.sockets && d.sockets[l].status.Listening? && d.sockets[l].muxId != -1 && d.sockets[l].queued == {}
    ensures rc == -1
  {
    d, l := OpenedByConnect(newPort);
    var listens := d.Listen(l, backlog, false);
    rc := d.NewConnection(l, peer, -1, backlog, false);
  }

  /** A new listener with a multiplexer of its own. */
  method NewListener(d: United, port: nat) returns (l: int)
    requires d.Valid() && d.gen > 1 && port > 0
    modifies d
    ensures d.Valid() && l == d.gen == old(d.gen) - 1 && l in d.sockets && l !in old(d.sockets)
    ensures d.sockets[l].status.Listening? && !d.sockets[l].broken && d.sockets[l].port > 0 && d.sockets[l].queued == {}
    ensures forall id :: id in old(d.sockets) ==> id in d.sockets && d.sockets[id] == old(d.sockets)[id]
  {
    l := d.NewSocket();
    assert d.sockets[l] == NewSock;
    var bound := d.Bind(l, port, false, _ => false, port, false);
    var listens := d.Listen(l, 1, false);
  }

  /** A connection that waits at one listener is found broken when its peer comes again to another: it is closed, but goes
      on waiting at the first, where it is handed out although it is no longer located. */
  method ClosedIsHandedOut(port1: nat, port2: nat, peer: int) returns (d: United, u: int)
    requires port1 > 0 && port2 > 0
    ensures d.Valid() && u != -1 && u in d.given && !d.Located(u)
  {
    var l1, l2, q;
    d, l1, l2, q := TwoListeners(port1, port2, peer);
    ghost var first := d.sockets[l1];
    var rc := d.NewConnection(l2, peer, q, 5, false);
    assert l1 in d.sockets && d.sockets[l1] == first;
    u := d.Accept(l1);
    assert u == q;
  }

  method TwoListeners(port1: nat, port2: nat, peer: int) returns (d: United, l1: int, l2: int, q: int)
    requires port1 > 0 && port2 > 0
    ensures fresh(d) && d.Valid() && d.gen > 1 && l1 != l2 && l1 != q && l2 != q && d.Located(l1) && d.Located(l2)
    ensures d.sockets[l1].status.Listening? && !d.sockets[l1].broken && d.sockets[l1].queued == {q}
    ensures d.sockets[l2].status.Listening? && q in d.sockets && d.sockets[q].broken
  {
    d := new United(1000);
    l1 := NewListener(d, port1);
    l2 := NewListener(d, port2);
    q := BrokenInQueue(d, l1, peer);
  }

  method BrokenInQueue(d: United, l: int, peer: int) returns (q: int)
    requires d.Valid() && d.Located(l) && d.sockets[l].status.Listening? && d.sockets[l].port > 0 && d.sockets[l].queued == {}
    requires d.gen > 1 && !d.sockets[l].broken
    modifies d
    ensures d.Valid() && q == d.gen == old(d.gen) - 1 && q in d.sockets && q !in old(d.sockets) && d.sockets[q].broken
    ensures d.sockets == old(d.sockets)[q := d.sockets[q]][l := old(d.sockets)[l].(queued := {q})]
  {
    var rc := d.Establish(l, peer, 5, false);
    q := d.gen;
    d.Break(q);
  }

  ghost predicate WaitsAt(r: Reg, ids: set<int>, q: int) {
    exists l :: l in ids && l in r.closed && q in r.closed[l].queued
  }

  lemma WaitingForExpired(r: Reg, gone: set<int>, ids: set<int>, expired: int -> bool)
    requires ids == set id | id in r.closed && expired(id)
    ensures forall q :: WaitsAt(Forget(r, gone), ids, q) <==> WaitsAtExpired(r, expired, q)
  {
  }

  lemma WaitsAtMore(r: Reg, ids: set<int>, u: int)
    requires u in r.closed
    ensures forall q :: WaitsAt(r, ids + {u}, q) <==> WaitsAt(r, ids, q) || q in r.closed[u].queued
  {
    assert u in ids + {u};
  }

  lemma PutAgain<T>(m: map<int, T>, id: int, x: T, y: T)
    ensures m[id := x][id := y] == m[id := y]
  {
  }

  lemma OneLess(queue: set<int>, left: set<int>, q: int)
    requires left <= queue && q in left
    ensures queue - (left - {q}) == queue - left + {q} && |left - {q}| < |left|
  {
  }

  lemma TakenAway<T>(m: map<int, T>, ids: set<int>, id: int)
    ensures (m - ids) - {id} == m - (ids + {id})
  {
  }

  lemma TakenOut<T>(m: map<int, T>, id: int, x: T)
    requires id !in m
    ensures m[id := x] - {id} == m
  {
  }

  method LeastOf(s: set<int>) returns (x: int)
    requires s != {}
    ensures x in s && forall y :: y in s ==> x <= y
  {
    var left := s;
    ghost var some := SomeElement(s);
    x :| x in s;
    while left != {}
      invariant x in s && left <= s && forall y :: y in s && y !in left ==> x <= y
      decreases |left|
    {
      ghost var another := SomeElement(left);
      var y :| y in left;
      if y < x {
        x := y;
      }
      left := left - {y};
    }
  }
}
