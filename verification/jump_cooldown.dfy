/** Jump eligibility and cooldown of `NetworkPlayerBehaviour`. Time is an
    abstract timestamp (Unity's `Time.time`); the physics of a jump (zeroing
    the vertical velocity and the upward impulse) is reduced to a flag saying
    that the jump fired. */
module JumpCooldown {

  /** `jumpDelay`, never reassigned after its initialiser. */
  const JumpDelay: real := 0.3

  /** The initial value of `jumpTimer`. */
  const InitialJumpTimer: real := 0.3

  /** The fields the rule reads and writes: `jumpTimer` (time of the last
      jump) and `_inputJump` (the last value read from the jump action). */
  datatype JumpState = JumpState(jumpTimer: real, inputJump: real)

  /** The component as created: no jump input yet. */
  const Initial: JumpState := JumpState(InitialJumpTimer, 0.0)

  /** `GetIsGround`: on the ground, jump input held, cooldown expired. */
  function GetIsGround(isGround: bool, s: JumpState, now: real): (r: bool)
    ensures r <==> isGround && s.inputJump != 0.0 && s.jumpTimer + JumpDelay <= now
    ensures r ==> s.jumpTimer < now
  {
    if !isGround then false
    else if s.inputJump == 0.0 then false
    else if s.jumpTimer + JumpDelay > now then false
    else true
  }

  datatype JumpOutcome = JumpOutcome(state: JumpState, fired: bool)

  /** `Jump`, run every fixed update: fires when `GetIsGround` allows and then
      records the time; otherwise nothing changes. */
  function Jump(s: JumpState, isGround: bool, now: real): (r: JumpOutcome)
    ensures r.fired <==> isGround && s.inputJump != 0.0 && now - s.jumpTimer >= JumpDelay
    ensures r.fired ==> r.state == JumpState(now, s.inputJump)
    ensures !r.fired ==> r.state == s
  {
    if !GetIsGround(isGround, s, now) then JumpOutcome(s, false)
    else JumpOutcome(s.(jumpTimer := now), true)
  }

  /** `JumpInput`: the jump action's current value replaces the stored one. */
  function JumpInput(s: JumpState, value: real): (r: JumpState)
    ensures r.inputJump == value
    ensures r.jumpTimer == s.jumpTimer
  {
    s.(inputJump := value)
  }

  /** Right after a jump, a second evaluation at the same time cannot fire,
      because the delay is positive. */
  lemma NoImmediateRetrigger(s: JumpState, isGround: bool, now: real, isGroundAgain: bool)
    requires Jump(s, isGround, now).fired
    ensures !Jump(Jump(s, isGround, now).state, isGroundAgain, now).fired
  {
  }

  /** Two attempts less than `jumpDelay` apart: only the first can fire. */
  lemma SecondAttemptWithinCooldownSuppressed(s: JumpState, g1: bool, t1: real, g2: bool, t2: real)
    requires Jump(s, g1, t1).fired
    requires t2 < t1 + JumpDelay
    ensures !Jump(Jump(s, g1, t1).state, g2, t2).fired
  {
  }

  /** What happens to the component between two jumps: a new value of the
      jump action arrives, or a fixed update runs with the ground flag the
      server computed and the current time. */
  datatype Tick = Input(value: real) | FixedUpdate(isGround: bool, now: real)

  /** The final state and the times at which jumps fired, in order. */
  datatype Trace = Trace(state: JumpState, jumps: seq<real>)

  /** One tick: the new state, and the time of the jump if one fired. */
  function Step(s: JumpState, t: Tick): (r: Trace)
    ensures |r.jumps| <= 1
    ensures t.Input? ==> r == Trace(JumpInput(s, t.value), [])
    ensures t.FixedUpdate? ==> r.state == Jump(s, t.isGround, t.now).state
    ensures t.FixedUpdate? ==> (|r.jumps| == 1 <==> Jump(s, t.isGround, t.now).fired)
    ensures |r.jumps| == 1 ==> t.FixedUpdate? && r.jumps[0] == t.now == r.state.jumpTimer
  {
    match t
    case Input(v) => Trace(JumpInput(s, v), [])
    case FixedUpdate(g, now) =>
      var o := Jump(s, g, now);
      Trace(o.state, if o.fired then [now] else [])
  }

  function Run(s: JumpState, ticks: seq<Tick>): Trace
    decreases |ticks|
  {
    if |ticks| == 0 then Trace(s, [])
    else
      var first := Step(s, ticks[0]);
      var rest := Run(first.state, ticks[1..]);
      Trace(rest.state, first.jumps + rest.jumps)
  }

  /** Every element of `jumps` is at least `jumpDelay` after `t`. */
  ghost predicate AllAfter(t: real, jumps: seq<real>) {
    forall i :: 0 <= i < |jumps| ==> t + JumpDelay <= jumps[i]
  }

  /** Every two elements of `jumps` are at least `jumpDelay` apart. */
  ghost predicate Spaced(jumps: seq<real>) {
    forall i, j :: 0 <= i < j < |jumps| ==> jumps[i] + JumpDelay <= jumps[j]
  }

  lemma PrependSpaced(s: real, t: real, jumps: seq<real>)
    requires s + JumpDelay <= t
    requires AllAfter(t, jumps) && Spaced(jumps)
    ensures AllAfter(s, [t] + jumps) && Spaced([t] + jumps)
  {
    var js := [t] + jumps;
    forall i, j | 0 <= i < j < |js|
      ensures js[i] + JumpDelay <= js[j]
    {
      assert js[j] == jumps[j - 1];
      if 0 < i {
        assert js[i] == jumps[i - 1];
      }
    }
  }

  /** Every jump fires at least `jumpDelay` after the previous one (and after
      the initial `jumpTimer`), whatever the order in which times arrive. */
  lemma {:induction false} JumpsAreSpaced(s: JumpState, ticks: seq<Tick>)
    ensures AllAfter(s.jumpTimer, Run(s, ticks).jumps)
    ensures Spaced(Run(s, ticks).jumps)
    decreases |ticks|
  {
    if |ticks| > 0 {
      var first := Step(s, ticks[0]);
      var rest := Run(first.state, ticks[1..]);
      JumpsAreSpaced(first.state, ticks[1..]);
      if |first.jumps| == 1 {
        PrependSpaced(s.jumpTimer, first.jumps[0], rest.jumps);
        assert Run(s, ticks).jumps == [first.jumps[0]] + rest.jumps;
      } else {
        assert Run(s, ticks).jumps == rest.jumps;
      }
    }
  }

  /** `jumpTimer` ends at the time of the last jump, or keeps its value
      when no jump fired. */
  lemma {:induction false} TimerIsLastJump(s: JumpState, ticks: seq<Tick>)
    ensures var r := Run(s, ticks);
      r.state.jumpTimer == if |r.jumps| == 0 then s.jumpTimer else r.jumps[|r.jumps| - 1]
    decreases |ticks|
  {
    if |ticks| > 0 {
      var first := Step(s, ticks[0]);
      var rest := Run(first.state, ticks[1..]);
      TimerIsLastJump(first.state, ticks[1..]);
      assert Run(s, ticks).jumps == first.jumps + rest.jumps;
    }
  }

  /** From the initial state no jump can fire before time 0.6. */
  lemma NoJumpBeforeSixTenths(ticks: seq<Tick>)
    ensures forall i :: 0 <= i < |Run(Initial, ticks).jumps| ==> 0.6 <= Run(Initial, ticks).jumps[i]
  {
    JumpsAreSpaced(Initial, ticks);
    assert AllAfter(InitialJumpTimer, Run(Initial, ticks).jumps);
  }

  /** An airborne player never jumps, whatever the input. */
  lemma {:induction false} NoJumpWhileAirborne(s: JumpState, ticks: seq<Tick>)
    requires forall k :: 0 <= k < |ticks| && ticks[k].FixedUpdate? ==> !ticks[k].isGround
    ensures Run(s, ticks).jumps == []
    decreases |ticks|
  {
    if |ticks| > 0 {
      NoJumpWhileAirborne(Step(s, ticks[0]).state, ticks[1..]);
    }
  }
}
