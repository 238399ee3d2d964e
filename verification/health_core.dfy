/** What the two player components share: the replicated health record, the
    events a health change raises, and the fold that feeds a sequence of
    writes through one step function while collecting the events. */
module HealthCore {
  import opened UInt32

  /** `maxHealth` and `curHealth`, both `uint` fields of the component. */
  datatype Health = Health(maxHealth: U32, curHealth: U32) {
    /** Every write to health is gated on this. */
    predicate IsDead() { curHealth == 0 }
  }

  /** `OnChangedHealth` is an `Action<uint, uint>`; its two arguments are kept
      positionally because the two components pass them in opposite orders.
      `Died` is `OnDead`. */
  datatype Event = ChangedHealth(first: U32, second: U32) | Died

  /** A new state together with the events raised on the way to it, in order. */
  datatype Emitted<S> = Emitted(state: S, events: seq<Event>)

  function DeathCount(events: seq<Event>): (n: nat)
    ensures n <= |events|
    ensures n == 0 <==> Died !in events
  {
    if |events| == 0 then 0
    else (if events[0].Died? then 1 else 0) + DeathCount(events[1..])
  }

  /** A death event, if there is one, is the final event of the trace. */
  ghost predicate DeathLast(events: seq<Event>) {
    forall i :: 0 <= i < |events| && events[i].Died? ==> i == |events| - 1
  }

  lemma {:induction false} DeathLastMeansAtMostOnce(events: seq<Event>)
    requires DeathLast(events)
    ensures DeathCount(events) <= 1
    ensures DeathCount(events) == 1 <==> Died in events
  {
    if |events| > 0 {
      var tail := events[1..];
      if events[0].Died? {
        assert |events| == 1;
        assert tail == [];
      } else {
        assert DeathLast(tail) by {
          forall i | 0 <= i < |tail| && tail[i].Died?
            ensures i == |tail| - 1
          {
            assert events[i + 1] == tail[i];
          }
        }
        DeathLastMeansAtMostOnce(tail);
        assert Died in events <==> Died in tail by {
          assert events == [events[0]] + tail;
        }
      }
    }
  }

  /** Feeds `inputs` one by one through `step`, threading the state and
      concatenating the events each call raises. */
  function Run<S, A>(step: (S, A) -> Emitted<S>, s: S, inputs: seq<A>): Emitted<S>
    decreases |inputs|
  {
    if |inputs| == 0 then Emitted(s, [])
    else
      var first := step(s, inputs[0]);
      var rest := Run(step, first.state, inputs[1..]);
      Emitted(rest.state, first.events + rest.events)
  }

  /** A step function that does nothing at all once `dead` holds. */
  ghost predicate SilentWhenDead<S(!new), A(!new)>(step: (S, A) -> Emitted<S>, dead: S -> bool) {
    forall t: S, a: A :: dead(t) ==> step(t, a) == Emitted(t, [])
  }

  /** A step function that raises a death event exactly when it takes a live
      state to a dead one, and then as its last event. */
  ghost predicate DiesOnTransition<S(!new), A(!new)>(step: (S, A) -> Emitted<S>, dead: S -> bool) {
    forall t: S, a: A ::
      && DeathLast(step(t, a).events)
      && (Died in step(t, a).events <==> !dead(t) && dead(step(t, a).state))
  }

  /** Once dead, any number of further inputs leaves the state as it is and
      raises nothing. */
  lemma {:induction false} RunFromDeadIsSilent<S(!new), A(!new)>(step: (S, A) -> Emitted<S>, dead: S -> bool, s: S, inputs: seq<A>)
    requires SilentWhenDead(step, dead)
    requires dead(s)
    ensures Run(step, s, inputs) == Emitted(s, [])
    decreases |inputs|
  {
    if |inputs| > 0 {
      assert step(s, inputs[0]) == Emitted(s, []);
      RunFromDeadIsSilent(step, dead, s, inputs[1..]);
    }
  }

  /** The one-shot death guarantee: over any sequence of inputs, a step that
      is silent when dead and raises `Died` only on the alive-to-dead
      transition, as its last event, raises at most one death event in the
      whole run, and it is the run's last event. */
  lemma {:induction false} RunDiesAtMostOnce<S(!new), A(!new)>(step: (S, A) -> Emitted<S>, dead: S -> bool, s: S, inputs: seq<A>)
    requires SilentWhenDead(step, dead)
    requires DiesOnTransition(step, dead)
    ensures DeathLast(Run(step, s, inputs).events)
    ensures DeathCount(Run(step, s, inputs).events) <= 1
    decreases |inputs|
  {
    var r := Run(step, s, inputs);
    if |inputs| > 0 {
      var first := step(s, inputs[0]);
      var rest := Run(step, first.state, inputs[1..]);
      assert r.events == first.events + rest.events;
      assert DeathLast(first.events);
      if Died in first.events {
        RunFromDeadIsSilent(step, dead, first.state, inputs[1..]);
        assert r.events == first.events;
      } else {
        RunDiesAtMostOnce(step, dead, first.state, inputs[1..]);
        forall i | 0 <= i < |r.events| && r.events[i].Died?
          ensures i == |r.events| - 1
        {
          if |first.events| <= i {
            assert rest.events[i - |first.events|] == r.events[i];
          }
        }
      }
    }
    DeathLastMeansAtMostOnce(r.events);
  }

  /** Over a whole run, a death event is raised exactly when the run starts
      alive and ends dead. */
  lemma {:induction false} RunDiesIffKilled<S(!new), A(!new)>(step: (S, A) -> Emitted<S>, dead: S -> bool, s: S, inputs: seq<A>)
    requires SilentWhenDead(step, dead)
    requires DiesOnTransition(step, dead)
    ensures Died in Run(step, s, inputs).events <==> !dead(s) && dead(Run(step, s, inputs).state)
    decreases |inputs|
  {
    if |inputs| > 0 {
      var first := step(s, inputs[0]);
      var rest := Run(step, first.state, inputs[1..]);
      assert Run(step, s, inputs).events == first.events + rest.events;
      if dead(s) {
        RunFromDeadIsSilent(step, dead, s, inputs);
      } else if dead(first.state) {
        RunFromDeadIsSilent(step, dead, first.state, inputs[1..]);
      } else {
        RunDiesIffKilled(step, dead, first.state, inputs[1..]);
      }
    }
  }

  /** The same event with the two health arguments exchanged. */
  function Swap(e: Event): (r: Event)
    ensures r.Died? <==> e.Died?
    ensures e.ChangedHealth? ==> r.first == e.second && r.second == e.first
  {
    match e
    case ChangedHealth(a, b) => ChangedHealth(b, a)
    case Died => Died
  }

  function SwapAll(events: seq<Event>): (r: seq<Event>)
    ensures |r| == |events|
    ensures forall i :: 0 <= i < |events| ==> r[i] == Swap(events[i])
  {
    seq(|events|, i requires 0 <= i < |events| => Swap(events[i]))
  }

  /** Swapping twice gives back the original trace. */
  lemma {:induction false} SwapAllInvolutive(events: seq<Event>)
    ensures SwapAll(SwapAll(events)) == events
  {
    var twice := SwapAll(SwapAll(events));
    forall i | 0 <= i < |events|
      ensures twice[i] == events[i]
    {
      match events[i]
      case ChangedHealth(a, b) =>
      case Died =>
    }
  }

  /** Swapping distributes over concatenation of traces. */
  lemma {:induction false} SwapAllConcat(a: seq<Event>, b: seq<Event>)
    ensures SwapAll(a + b) == SwapAll(a) + SwapAll(b)
  {
    var lhs := SwapAll(a + b);
    var rhs := SwapAll(a) + SwapAll(b);
    forall i | 0 <= i < |lhs|
      ensures lhs[i] == rhs[i]
    {
      if i < |a| {
        assert (a + b)[i] == a[i];
      } else {
        assert (a + b)[i] == b[i - |a|];
      }
    }
  }

  /** Swapping the arguments changes neither where nor how often the death
      event occurs. */
  lemma {:induction false} SwapAllKeepsDeaths(events: seq<Event>)
    ensures DeathCount(SwapAll(events)) == DeathCount(events)
    ensures DeathLast(SwapAll(events)) <==> DeathLast(events)
    decreases |events|
  {
    if |events| > 0 {
      var tail := events[1..];
      assert SwapAll(events) == [Swap(events[0])] + SwapAll(tail) by {
        SwapAllConcat([events[0]], tail);
        assert events == [events[0]] + tail;
      }
      assert SwapAll(events)[1..] == SwapAll(tail);
      SwapAllKeepsDeaths(tail);
    }
  }
}
