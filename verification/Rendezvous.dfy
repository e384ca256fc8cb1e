/** The rendezvous handshake: two sides start at the same time, settle by their cookies who is initiator and who is
    responder, and switch through the same five states until both are connected. */
module Rendezvous {
  datatype Role = Draw | Initiator | Responder

  datatype RdvState = Invalid | Waving | Attention | Fine | Initiated | Connected

  /** The extension block of a conclusion: none, a request, or a response to one. */
  datatype Extension = NoExtension | HsReq | HsRsp

  /** What can arrive: the three handshake requests, and anything that only a connected peer sends. */
  datatype Message = WaveAHand | Conclusion(extension: Extension) | Agreement | Payload

  /** What comes of one message. `Failure` stands for the rejections. */
  datatype Reply = Untouched | Send(message: Message) | Done | Failure

  /** The kind of response that the state switch asks for. */
  datatype Rsp = NoRsp | Conclude | Agree | Finish | Reject

  // ---------- the cookie contest ----------

  type Int32 = x: int | -0x8000_0000 <= x < 0x8000_0000

  /** Subtraction of two 32-bit numbers, as the machine does it. */
  function Sub32(a: Int32, b: Int32): Int32 {
    var d := a - b;
    if d >= 0x8000_0000 then d - 0x1_0000_0000 else if d < -0x8000_0000 then d + 0x1_0000_0000 else d
  }

  function Contest(role: Role, agent: Int32, peer: Int32): Role {
    if !role.Draw? || agent == 0 || peer == 0 then role
    else
      var better := Sub32(agent, peer);
      if better > 0 then Initiator else if better < 0 then Responder else Draw
  }

  /** Two nonzero cookies give the two sides opposite roles exactly when they differ, and not by half the range. */
  lemma RolesAreOpposite(a: Int32, b: Int32)
    requires a != 0 && b != 0
    ensures (Contest(Draw, a, b) == Initiator && Contest(Draw, b, a) == Responder)
         || (Contest(Draw, a, b) == Responder && Contest(Draw, b, a) == Initiator)
        <==> a != b && a - b != 0x8000_0000 && b - a != 0x8000_0000
  {
  }

  /** The side with the greater cookie is the initiator, as long as they are less than half the range apart. */
  lemma GreaterIsInitiator(a: Int32, b: Int32)
    requires a != 0 && b != 0 && 0 < a - b < 0x8000_0000
    ensures Contest(Draw, a, b) == Initiator && Contest(Draw, b, a) == Responder
  {
  }

  /** Cookies half the range apart make both sides responders. */
  lemma HalfRangeFails()
    ensures Contest(Draw, 0x4000_0000, -0x4000_0000) == Contest(Draw, -0x4000_0000, 0x4000_0000) == Responder
  {
  }

  // ---------- switching states ----------

  /** The new state, what to respond, whether with an extension, and whether that is to be a response to a request. */
  datatype Switch = Switch(state: RdvState, rsp: Rsp, needsExtension: bool, needsHsrsp: bool)

  function Stay(state: RdvState, extension: bool, hsrsp: bool): Switch {
    Switch(state, Conclude, extension, hsrsp)
  }

  const Rogue := Switch(Waving, Reject, false, false)

  /** What is crafted from the outcome of the switch. */
  function ReplyOf(s: Switch): Reply {
    match s.rsp
    case NoRsp => Untouched
    case Conclude => Send(Conclusion(if s.needsHsrsp then HsRsp else if s.needsExtension then HsReq else NoExtension))
    case Agree => Send(Agreement)
    case Finish => Done
    case Reject => Failure
  }

  function SwitchTo(state: RdvState, role: Role, req: Message): Switch {
    match state
    case Invalid => Switch(Invalid, NoRsp, false, false)
    case Waving =>
      if req.WaveAHand? then Stay(Attention, role.Initiator?, false)
      else if req.Conclusion? then Stay(Fine, true, role.Responder?)
      else Rogue
    case Attention =>
      (match req
       case WaveAHand => Stay(Attention, role.Initiator?, false)
       case Conclusion(extension) =>
         if role.Draw? then Switch(Invalid, Reject, false, false)
         else if role.Initiator? then
           if extension != NoExtension then Switch(Connected, Agree, false, false) else Stay(Attention, true, false)
         else if extension != NoExtension then Stay(Initiated, true, true) else Stay(Attention, false, false)
       case Agreement =>
         if role.Initiator? then Switch(Connected, Finish, false, false)
         else if role.Responder? then Stay(Attention, true, true)
         else Rogue
       case Payload => Rogue)
    case Fine =>
      (match req
       case Conclusion(extension) =>
         if role.Responder? || (role.Initiator? && extension == NoExtension) then Stay(Fine, true, role.Responder?)
         else Switch(Connected, Agree, false, false)
       case Agreement => Switch(Connected, Finish, false, false)
       case _ => Rogue)
    case Initiated =>
      (match req
       case Agreement => Switch(Connected, Finish, false, false)
       case Conclusion(_) => Stay(Initiated, true, true)
       case _ => Rogue)
    case Connected => Switch(Connected, Finish, false, false)
  }

  /** Each role answers with an extension of its own kind: the initiator with a request, the responder with a response. */
  lemma RoleDecidesExtension(state: RdvState, role: Role, req: Message)
    requires !role.Draw? && (state.Initiated? ==> role.Responder?)
    ensures var reply := ReplyOf(SwitchTo(state, role, req));
      reply.Send? && reply.message.Conclusion? ==>
        if role.Initiator? then reply.message.extension == HsReq
        else reply.message.extension != HsReq
    ensures SwitchTo(state, role, req).needsHsrsp ==> SwitchTo(state, role, req).needsExtension && role.Responder?
  {
  }

  class Endpoint {
    var rdvState: RdvState
    var side: Role
    const cookie: Int32
    /** The peer's handshake message that was last taken over, if any, and the cookie in it. */
    var peerKnown: bool
    var peerCookie: Int32

    constructor (cookie: Int32)
      ensures rdvState == Waving && side == Draw && this.cookie == cookie && !peerKnown && peerCookie == 0
    {
      this.cookie := cookie;
      rdvState, side, peerKnown, peerCookie := Waving, Draw, false, 0;
    }

    method CookieContest()
      modifies this`side
      ensures side == Contest(old(side), cookie, peerCookie)
    {
      if side != Draw {
        return;
      }
      if cookie == 0 || peerCookie == 0 {
        return;
      }
      var better := Sub32(cookie, peerCookie);
      if better > 0 {
        side := Initiator;
        return;
      }
      if better < 0 {
        side := Responder;
        return;
      }
      side := Draw;
    }

    method RendezvousSwitchState(req: Message) returns (rsp: Rsp, needsExtension: bool, needsHsrsp: bool)
      modifies this`rdvState
      ensures Switch(rdvState, rsp, needsExtension, needsHsrsp) == SwitchTo(old(rdvState), side, req)
      ensures needsHsrsp ==> needsExtension && rsp == Conclude
      ensures needsExtension ==> needsHsrsp == (side == Responder || old(rdvState).Initiated?)
    {
      needsExtension, needsHsrsp := false, false;
      match rdvState {
        case Invalid =>
          return NoRsp, false, false;
        case Waving =>
          if req == WaveAHand {
            rdvState := Attention;
            return Conclude, side == Initiator, false;
          }
          if req.Conclusion? {
            rdvState := Fine;
            return Conclude, true, side == Responder;
          }
        case Attention =>
          if req == WaveAHand {
            return Conclude, side == Initiator, false;
          }
          if req.Conclusion? {
            if side == Initiator {
              if req.extension == NoExtension {
                return Conclude, true, false;
              }
              rdvState := Connected;
              return Agree, false, false;
            }
            if side == Responder {
              if req.extension == NoExtension {
                return Conclude, false, false;
              }
              rdvState := Initiated;
              return Conclude, true, true;
            }
            rdvState := Invalid;
            return Reject, false, false;
          }
          if req == Agreement {
            if side == Initiator {
              rdvState := Connected;
              return Finish, false, false;
            }
            if side == Responder {
              return Conclude, true, true;
            }
          }
        case Fine =>
          if req.Conclusion? {
            var correctSwitch := false;
            if side == Initiator && req.extension == NoExtension {
            } else if side == Responder {
            } else {
              correctSwitch := true;
            }
            if !correctSwitch {
              return Conclude, true, side == Responder;
            }
            rdvState := Connected;
            return Agree, false, false;
          }
          if req == Agreement {
            rdvState := Connected;
            return Finish, false, false;
          }
        case Initiated =>
          if req == Agreement {
            rdvState := Connected;
            return Finish, false, false;
          }
          if req.Conclusion? {
            return Conclude, true, true;
          }
        case Connected =>
          return Finish, false, false;
      }
      rdvState := Waving;
      rsp := Reject;
    }

    /** One message from the peer, from its arrival to the answer. A data packet or a keep-alive shows that the peer is
        connected and connects this side too, once a handshake message has been seen; a connected side answers every
        handshake message but an agreement with an agreement. */
    method Process(req: Message, reqCookie: Int32) returns (reply: Reply)
      modifies this`rdvState, this`side, this`peerKnown, this`peerCookie
      ensures var at := At(old(rdvState), old(peerKnown), old(side), cookie, if req.Payload? then old(peerCookie) else reqCookie);
        (rdvState, reply) == Respond(at, req)
      ensures peerKnown == (old(peerKnown) || !(req.Payload? || old(rdvState).Connected?))
      ensures !req.Payload? && !old(rdvState).Connected? ==> side == Contest(old(side), cookie, reqCookie)
      ensures req.Payload? || old(rdvState).Connected? ==> side == old(side)
    {
      if rdvState == Connected {
        return if req == Agreement || req == Payload then Done else Send(Agreement);
      }
      if req == Payload {
        if peerKnown {
          rdvState := Connected;
        }
        return Done;
      }
      peerKnown, peerCookie := true, reqCookie;
      CookieContest();
      if side == Draw {
        return Failure;
      }
      var rsp, needsExtension, needsHsrsp := RendezvousSwitchState(req);
      reply := Craft(rsp, needsExtension, needsHsrsp);
    }

    /** The handshake packet for the response: with a response to the peer's request if one is needed, else with a request
        of its own if an extension is. */
    method Craft(rsp: Rsp, needsExtension: bool, needsHsrsp: bool) returns (reply: Reply)
      ensures forall state :: reply == ReplyOf(Switch(state, rsp, needsExtension, needsHsrsp))
    {
      match rsp {
        case NoRsp => return Untouched;
        case Finish => return Done;
        case Reject => return Failure;
        case Agree => return Send(Agreement);
        case Conclude =>
          if needsHsrsp {
            return Send(Conclusion(HsRsp));
          }
          return Send(Conclusion(if needsExtension then HsReq else NoExtension));
      }
    }
  }

  /** What a side's answer depends on. */
  datatype At = At(state: RdvState, peerKnown: bool, side: Role, cookie: Int32, peerCookie: Int32)

  function Respond(a: At, req: Message): (RdvState, Reply) {
    if a.state.Connected? then (Connected, if req == Agreement || req == Payload then Done else Send(Agreement))
    else if req.Payload? then (if a.peerKnown then Connected else a.state, Done)
    else
      var role := Contest(a.side, a.cookie, a.peerCookie);
      if role.Draw? then (a.state, Failure)
      else var s := SwitchTo(a.state, role, req); (s.state, ReplyOf(s))
  }
}
