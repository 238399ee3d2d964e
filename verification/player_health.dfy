/** Health handling of `NetworkPlayer`: `TakeDamage` writes the field itself,
    raises `OnChangedHealth(curHealth, maxHealth)` -- the opposite argument
    order from `NetworkPlayerBehaviour` -- and `OnDead` on reaching zero. */
module PlayerHealth {
  import opened UInt32
  import opened HealthCore
  import BehaviourHealth

  /** A freshly created component: `maxHealth` comes from its serialised
      field, while `curHealth` is never assigned and keeps the `uint`
      default of zero. */
  function Initial(maxHealth: U32): (h: Health)
    ensures h.maxHealth == maxHealth
    ensures h.IsDead()
  {
    Health(maxHealth, 0)
  }

  /** `TakeDamage`: ignored once health is zero; otherwise `curHealth -=
      damage` with `uint` wrap-around, one health-changed event, and the
      death event when the result is zero. */
  function TakeDamage(h: Health, d: U32): (r: Emitted<Health>)
    ensures h.IsDead() ==> r == Emitted(h, [])
    ensures r.state.maxHealth == h.maxHealth
    ensures !h.IsDead() && d <= h.curHealth ==> r.state.curHealth == h.curHealth - d
    ensures !h.IsDead() && h.curHealth < d ==> r.state.curHealth == h.curHealth - d + Modulus
    ensures !h.IsDead() ==> |r.events| >= 1 && r.events[0] == ChangedHealth(r.state.curHealth, h.maxHealth)
    ensures |r.events| == (if h.IsDead() then 0 else if d == h.curHealth then 2 else 1)
    ensures Died in r.events <==> !h.IsDead() && d == h.curHealth
    ensures DeathLast(r.events)
  {
    if h.curHealth == 0 then Emitted(h, [])
    else
      var after := h.(curHealth := Sub(h.curHealth, d));
      var changed := [ChangedHealth(after.curHealth, after.maxHealth)];
      if after.curHealth != 0 then Emitted(after, changed)
      else Emitted(after, changed + [Died])
  }

  /** Damage larger than the remaining health wraps around: the player
      survives with more health than before and no death is raised. */
  lemma OverkillDoesNotKill(h: Health, d: U32)
    requires !h.IsDead() && h.curHealth < d
    ensures !TakeDamage(h, d).state.IsDead()
    ensures TakeDamage(h, d).state.curHealth > h.curHealth
    ensures Died !in TakeDamage(h, d).events
  {
  }

  /** A concrete instance: `uint.MaxValue` damage HEALS a player at 5 by one. */
  lemma MaximalDamageHeals()
    ensures TakeDamage(Health(10, 5), Modulus - 1)
         == Emitted(Health(10, 6), [ChangedHealth(6, 10)])
  {
  }

  lemma TakeDamageDiesOnTransition()
    ensures SilentWhenDead(TakeDamage, (h: Health) => h.IsDead())
    ensures DiesOnTransition(TakeDamage, (h: Health) => h.IsDead())
  {
  }

  /** Over any sequence of damage, `Dead()` and `OnDead` happen at most
      once, after every other event, and exactly when a live player ends at
      zero. */
  lemma DamageDiesAtMostOnce(h: Health, ds: seq<U32>)
    ensures DeathLast(Run(TakeDamage, h, ds).events)
    ensures DeathCount(Run(TakeDamage, h, ds).events) <= 1
    ensures Died in Run(TakeDamage, h, ds).events <==> !h.IsDead() && Run(TakeDamage, h, ds).state.IsDead()
  {
    // Carried over from `NetworkPlayerBehaviour`: the traces differ only in
    // argument order, which moves no death event.
    var b := Run(BehaviourHealth.TakeDamage, h, ds);
    BehaviourHealth.DamageDiesAtMostOnce(h, ds);
    AgreesWithBehaviourUpToArgumentOrder(h, ds);
    SwapAllKeepsDeaths(b.events);
    DeathLastMeansAtMostOnce(b.events);
    DeathLastMeansAtMostOnce(Run(TakeDamage, h, ds).events);
  }

  /** Since nothing ever sets `curHealth`, a player as created ignores every
      hit: no health change, no event, no death, whatever the damage. */
  lemma {:induction false} CreatedPlayerIsInvulnerable(maxHealth: U32, ds: seq<U32>)
    ensures Run(TakeDamage, Initial(maxHealth), ds) == Emitted(Initial(maxHealth), [])
  {
    TakeDamageDiesOnTransition();
    RunFromDeadIsSilent(TakeDamage, (h: Health) => h.IsDead(), Initial(maxHealth), ds);
  }

  /** The two components compute the same health after any sequence of hits
      and raise the same events, except that every health-changed event has
      its two arguments in the opposite order. */
  lemma {:induction false} AgreesWithBehaviourUpToArgumentOrder(h: Health, ds: seq<U32>)
    ensures Run(TakeDamage, h, ds).state == Run(BehaviourHealth.TakeDamage, h, ds).state
    ensures Run(TakeDamage, h, ds).events == SwapAll(Run(BehaviourHealth.TakeDamage, h, ds).events)
    ensures Run(BehaviourHealth.TakeDamage, h, ds).events == SwapAll(Run(TakeDamage, h, ds).events)
    ensures DeathCount(Run(TakeDamage, h, ds).events) == DeathCount(Run(BehaviourHealth.TakeDamage, h, ds).events)
    decreases |ds|
  {
    if |ds| > 0 {
      var p := TakeDamage(h, ds[0]);
      var b := BehaviourHealth.TakeDamage(h, ds[0]);
      assert p.state == b.state;
      assert p.events == SwapAll(b.events);
      AgreesWithBehaviourUpToArgumentOrder(p.state, ds[1..]);
      var pr := Run(TakeDamage, p.state, ds[1..]);
      var br := Run(BehaviourHealth.TakeDamage, b.state, ds[1..]);
      SwapAllConcat(b.events, br.events);
    }
    SwapAllKeepsDeaths(Run(BehaviourHealth.TakeDamage, h, ds).events);
    SwapAllInvolutive(Run(BehaviourHealth.TakeDamage, h, ds).events);
  }
}
