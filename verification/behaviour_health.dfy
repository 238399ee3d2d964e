/** Health handling of `NetworkPlayerBehaviour`: every write goes through the
    `Health` property setter, and `TakeDamage` is `Health -= damage`. */
module BehaviourHealth {
  import opened UInt32
  import opened HealthCore

  /** The `Health` setter. A dead entity ignores the write; otherwise the new
      value is stored, `OnChangedHealth(maxHealth, curHealth)` is raised, and
      `OnDead` follows when the new value is zero. */
  function SetHealth(h: Health, v: U32): (r: Emitted<Health>)
    ensures h.IsDead() ==> r == Emitted(h, [])
    ensures !h.IsDead() ==> r.state == Health(h.maxHealth, v)
    ensures !h.IsDead() ==> |r.events| >= 1 && r.events[0] == ChangedHealth(h.maxHealth, v)
    ensures |r.events| == (if h.IsDead() then 0 else if v == 0 then 2 else 1)
    ensures Died in r.events <==> !h.IsDead() && v == 0
    ensures DeathLast(r.events)
  {
    if h.curHealth == 0 then Emitted(h, [])
    else
      var stored := h.(curHealth := v);
      var changed := [ChangedHealth(stored.maxHealth, stored.curHealth)];
      if stored.curHealth != 0 then Emitted(stored, changed)
      else Emitted(stored, changed + [Died])
  }

  /** `OnStartServer`: assigns the field directly, bypassing the setter, so
      it raises nothing and even brings a dead entity back to full health. */
  function StartServer(h: Health): (r: Emitted<Health>)
    ensures r.events == []
    ensures r.state.maxHealth == h.maxHealth
    ensures r.state.curHealth == h.maxHealth
    ensures h.maxHealth != 0 ==> !r.state.IsDead()
  {
    Emitted(h.(curHealth := h.maxHealth), [])
  }

  /** `TakeDamage`: `Health -= damage` reads the field, subtracts with `uint`
      wrap-around and writes the difference back through the setter. */
  function TakeDamage(h: Health, d: U32): (r: Emitted<Health>)
    ensures h.IsDead() ==> r == Emitted(h, [])
    ensures r.state.maxHealth == h.maxHealth
    ensures !h.IsDead() && d <= h.curHealth ==> r.state.curHealth == h.curHealth - d
    ensures !h.IsDead() && h.curHealth < d ==> r.state.curHealth == h.curHealth - d + Modulus
    ensures !h.IsDead() ==> |r.events| >= 1 && r.events[0] == ChangedHealth(h.maxHealth, r.state.curHealth)
    ensures |r.events| == (if h.IsDead() then 0 else if d == h.curHealth then 2 else 1)
    ensures Died in r.events <==> !h.IsDead() && d == h.curHealth
    ensures DeathLast(r.events)
  {
    SetHealth(h, Sub(h.curHealth, d))
  }

  /** Zero damage on a live entity still raises a health-changed event. */
  lemma ZeroDamageStillNotifies(h: Health)
    requires !h.IsDead()
    ensures TakeDamage(h, 0) == Emitted(h, [ChangedHealth(h.maxHealth, h.curHealth)])
  {
  }

  /** Damage larger than the remaining health wraps around: the entity
      survives with MORE health than before and no death is raised. */
  lemma OverkillDoesNotKill(h: Health, d: U32)
    requires !h.IsDead() && h.curHealth < d
    ensures !TakeDamage(h, d).state.IsDead()
    ensures TakeDamage(h, d).state.curHealth > h.curHealth
    ensures Died !in TakeDamage(h, d).events
  {
  }

  /** A concrete instance: 10 damage to an entity at 3 of 10. */
  lemma OverkillExample()
    ensures TakeDamage(Health(10, 3), 10)
         == Emitted(Health(10, 4294967289), [ChangedHealth(10, 4294967289)])
  {
  }

  lemma SetHealthDiesOnTransition()
    ensures SilentWhenDead(SetHealth, (h: Health) => h.IsDead())
    ensures DiesOnTransition(SetHealth, (h: Health) => h.IsDead())
  {
  }

  lemma TakeDamageDiesOnTransition()
    ensures SilentWhenDead(TakeDamage, (h: Health) => h.IsDead())
    ensures DiesOnTransition(TakeDamage, (h: Health) => h.IsDead())
  {
  }

  /** Over any sequence of writes to `Health`, `OnDead` fires at most once,
      after every other event, and exactly when the entity starts alive and
      some written value is zero. */
  lemma WritesDieAtMostOnce(h: Health, vs: seq<U32>)
    ensures DeathLast(Run(SetHealth, h, vs).events)
    ensures DeathCount(Run(SetHealth, h, vs).events) <= 1
    ensures Died in Run(SetHealth, h, vs).events <==> !h.IsDead() && 0 in vs
  {
    var dead := (h: Health) => h.IsDead();
    SetHealthDiesOnTransition();
    RunDiesAtMostOnce(SetHealth, dead, h, vs);
    WritesDieOnZero(h, vs);
  }

  lemma {:induction false} WritesDieOnZero(h: Health, vs: seq<U32>)
    ensures Died in Run(SetHealth, h, vs).events <==> !h.IsDead() && 0 in vs
    decreases |vs|
  {
    if |vs| > 0 {
      var first := SetHealth(h, vs[0]);
      var rest := Run(SetHealth, first.state, vs[1..]);
      assert Run(SetHealth, h, vs).events == first.events + rest.events;
      assert vs == [vs[0]] + vs[1..];
      if h.IsDead() {
        SetHealthDiesOnTransition();
        RunFromDeadIsSilent(SetHealth, (h: Health) => h.IsDead(), h, vs);
      } else {
        WritesDieOnZero(first.state, vs[1..]);
      }
    }
  }

  /** Over any sequence of `TakeDamage` calls, `OnDead` fires at most once,
      after every other event, and exactly when a live entity ends at zero. */
  lemma DamageDiesAtMostOnce(h: Health, ds: seq<U32>)
    ensures DeathLast(Run(TakeDamage, h, ds).events)
    ensures DeathCount(Run(TakeDamage, h, ds).events) <= 1
    ensures Died in Run(TakeDamage, h, ds).events <==> !h.IsDead() && Run(TakeDamage, h, ds).state.IsDead()
  {
    var dead := (h: Health) => h.IsDead();
    TakeDamageDiesOnTransition();
    RunDiesAtMostOnce(TakeDamage, dead, h, ds);
    RunDiesIffKilled(TakeDamage, dead, h, ds);
  }
}
