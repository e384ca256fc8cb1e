/** Timestamps on the wire are 32 bits of microseconds and wrap every 71 minutes. The receive buffer finds out from the
    timestamps alone how often they have wrapped. */
module TimeBase {
  const SPAN := 0x1_0000_0000
  const MAX_TIMESTAMP := 0xFFFF_FFFF
  const WRAP_PERIOD := 30_000_000

  /** Whether a wrap is being watched for, and what is to be added to a timestamp. */
  datatype Clock = Clock(wrapCheck: bool, base: int)

  type Stamp = t: int | 0 <= t < SPAN

  /** One call: the new state, and the base for this timestamp. */
  function BaseFor(c: Clock, stamp: Stamp): (Clock, int) {
    if c.wrapCheck then
      if stamp < WRAP_PERIOD then (c, c.base + SPAN)
      else if stamp <= 2 * WRAP_PERIOD then (Clock(false, c.base + SPAN), c.base + SPAN)
      else (c, c.base)
    else (c.(wrapCheck := stamp > MAX_TIMESTAMP - WRAP_PERIOD), c.base)
  }

  class RcvTime {
    var wrapCheck: bool
    var timeBase: int

    constructor (timeBase: int)
      ensures this.timeBase == timeBase && !wrapCheck
    {
      this.timeBase, wrapCheck := timeBase, false;
    }

    method GetTsbPdTimeBase(stamp: Stamp) returns (r: int)
      modifies this
      ensures (Clock(wrapCheck, timeBase), r) == BaseFor(Clock(old(wrapCheck), old(timeBase)), stamp)
    {
      var carryover := 0;
      if wrapCheck {
        if stamp < WRAP_PERIOD {
          carryover := MAX_TIMESTAMP + 1;
        } else if stamp >= WRAP_PERIOD && stamp <= WRAP_PERIOD * 2 {
          wrapCheck := false;
          timeBase := timeBase + MAX_TIMESTAMP + 1;
        }
      } else if stamp > MAX_TIMESTAMP - WRAP_PERIOD {
        wrapCheck := true;
      }
      r := timeBase + carryover;
    }

    method AddDrift(overdrift: int)
      modifies this
      ensures timeBase == old(timeBase) + overdrift && wrapCheck == old(wrapCheck)
    {
      timeBase := timeBase + overdrift;
    }
  }

  /** What happens to the clock: a packet sent at a true time is asked for, or the base is corrected for drift. */
  datatype Event = Packet(time: nat) | Drift(amount: int)

  function StampOf(time: nat): Stamp {
    time % SPAN
  }

  function Later(a: int, b: int): int {
    if a < b then b else a
  }

  predicate OnTime(latest: nat, time: nat) {
    time > latest - WRAP_PERIOD && time < latest + WRAP_PERIOD
  }

  /** Packets are late by less than 30 seconds, and the latest time moves by less than 30 seconds at once. */
  ghost predicate Smooth(events: seq<Event>, latest: nat)
    decreases |events|
  {
    if events == [] then true
    else
      match events[0]
      case Packet(time) => OnTime(latest, time) && Smooth(events[1..], Later(latest, time))
      case Drift(_) => Smooth(events[1..], latest)
  }

  /** Every packet's base plus its timestamp is the first base, plus all corrections so far, plus its true time. */
  ghost predicate AllRight(c: Clock, events: seq<Event>, offset: int)
    decreases |events|
  {
    if events == [] then true
    else
      match events[0]
      case Packet(time) =>
        var (d, base) := BaseFor(c, StampOf(time));
        base + StampOf(time) == offset + time && AllRight(d, events[1..], offset)
      case Drift(amount) => AllRight(c.(base := c.base + amount), events[1..], offset + amount)
  }

  /** k wraps are accounted for in the base; the next one is watched for from 30 seconds before it to 30 seconds after. */
  ghost predicate InStep(c: Clock, latest: nat, offset: int, k: nat) {
    c.base == offset + k * SPAN
    && if c.wrapCheck then (k + 1) * SPAN - WRAP_PERIOD <= latest < (k + 1) * SPAN + WRAP_PERIOD
       else latest < (k + 1) * SPAN - WRAP_PERIOD && (k == 0 || k * SPAN + WRAP_PERIOD <= latest)
  }

  lemma StampIs(time: nat, k: nat)
    requires k * SPAN <= time < (k + 1) * SPAN
    ensures StampOf(time) == time - k * SPAN
  {
  }

  /** One packet: the right base comes out, and the clock stays in step. */
  lemma PacketInStep(c: Clock, latest: nat, offset: int, k: nat, time: nat)
    requires InStep(c, latest, offset, k) && OnTime(latest, time)
    ensures var (d, base) := BaseFor(c, StampOf(time));
      base + StampOf(time) == offset + time
      && (InStep(d, Later(latest, time), offset, k) || InStep(d, Later(latest, time), offset, k + 1))
  {
    StampIs(time, if time < (k + 1) * SPAN then k else k + 1);
  }

  /** However long it runs and however often the timestamps wrap, no packet's time is ever mistaken. */
  lemma {:induction false} NeverMistaken(c: Clock, events: seq<Event>, latest: nat, offset: int, k: nat)
    requires InStep(c, latest, offset, k) && Smooth(events, latest)
    ensures AllRight(c, events, offset)
    decreases |events|
  {
    if events != [] {
      match events[0]
      case Packet(time) =>
        PacketInStep(c, latest, offset, k, time);
        var d := BaseFor(c, StampOf(time)).0;
        NeverMistaken(d, events[1..], Later(latest, time), offset,
                      if InStep(d, Later(latest, time), offset, k) then k else k + 1);
      case Drift(amount) =>
        NeverMistaken(c.(base := c.base + amount), events[1..], latest, offset + amount, k);
    }
  }

  /** From the start: the first packet's time must lie more than 30 seconds before the first wrap. */
  lemma RightFromTheStart(base: int, events: seq<Event>, first: nat)
    requires first < SPAN - WRAP_PERIOD && Smooth(events, first)
    ensures AllRight(Clock(false, base), events, base)
  {
    NeverMistaken(Clock(false, base), events, first, base, 0);
  }

  /** A jump of more than 30 seconds can pass over the watch for the wrap: then all is a wrap too early. */
  lemma JumpIsMistaken(base: int)
    ensures !AllRight(Clock(false, base), [Packet(SPAN - WRAP_PERIOD - 1), Packet(SPAN)], base)
  {
    var events := [Packet(SPAN - WRAP_PERIOD - 1), Packet(SPAN)];
    assert events[1..] == [Packet(SPAN)];
    assert !AllRight(Clock(false, base), events[1..], base);
  }

  /** And a packet late by more than 30 seconds can be taken for one of the next wrap, though all before it, and the steps
      by which the latest time moves, are as they should be. */
  lemma LatenessIsMistaken(base: int)
    ensures var smooth := [Packet(SPAN - WRAP_PERIOD), Packet(SPAN - 1), Packet(SPAN + WRAP_PERIOD - 2), Packet(SPAN + WRAP_PERIOD)];
      Smooth(smooth, SPAN - WRAP_PERIOD - 1) && !AllRight(Clock(false, base), smooth + [Packet(SPAN - 1)], base)
  {
    var smooth := [Packet(SPAN - WRAP_PERIOD), Packet(SPAN - 1), Packet(SPAN + WRAP_PERIOD - 2), Packet(SPAN + WRAP_PERIOD)];
    assert smooth[1..] == [Packet(SPAN - 1), Packet(SPAN + WRAP_PERIOD - 2), Packet(SPAN + WRAP_PERIOD)];
    assert smooth[1..][1..] == [Packet(SPAN + WRAP_PERIOD - 2), Packet(SPAN + WRAP_PERIOD)];
    assert smooth[1..][1..][1..] == [Packet(SPAN + WRAP_PERIOD)];
    assert Smooth(smooth[1..][1..], SPAN - 1);
    assert Smooth(smooth[1..], SPAN - WRAP_PERIOD);
    var late := smooth + [Packet(SPAN - 1)];
    var two, three := late[1..][1..], late[1..][1..][1..];
    assert late[1..] == smooth[1..] + [Packet(SPAN - 1)] && two == smooth[1..][1..] + [Packet(SPAN - 1)];
    assert three == [Packet(SPAN + WRAP_PERIOD), Packet(SPAN - 1)] && three[1..] == [Packet(SPAN - 1)];
    assert !AllRight(Clock(false, base + SPAN), three[1..], base);
    assert !AllRight(Clock(true, base), three, base);
    assert !AllRight(Clock(true, base), two, base);
    assert !AllRight(Clock(true, base), late[1..], base);
  }
}
