/** The health handling the two components evidently intend: damage larger
    than the remaining health stops at zero (and kills) instead of wrapping
    around, and a `NetworkPlayer` is started at full health by the same
    initialisation `NetworkPlayerBehaviour.OnStartServer` performs. */
module CorrectedHealth {
  import opened UInt32
  import opened HealthCore
  import BehaviourHealth
  import PlayerHealth

  /** Subtraction that stops at zero. */
  function ClampedSub(a: U32, b: U32): (r: U32)
    ensures r <= a
    ensures b <= a ==> r == a - b
    ensures r == 0 <==> a <= b
  {
    if a <= b then 0 else a - b
  }

  /** `NetworkPlayerBehaviour.TakeDamage` with the clamp: still written
      through the `Health` setter. */
  function BehaviourTakeDamage(h: Health, d: U32): (r: Emitted<Health>)
    ensures h.IsDead() ==> r == Emitted(h, [])
    ensures r.state.maxHealth == h.maxHealth
    ensures r.state.curHealth <= h.curHealth
    ensures !h.IsDead() && d <= h.curHealth ==> r.state.curHealth == h.curHealth - d
    ensures !h.IsDead() ==> r.state.curHealth == ClampedSub(h.curHealth, d)
    ensures !h.IsDead() ==> |r.events| >= 1 && r.events[0] == ChangedHealth(h.maxHealth, r.state.curHealth)
    ensures |r.events| == (if h.IsDead() then 0 else if h.curHealth <= d then 2 else 1)
    ensures Died in r.events <==> !h.IsDead() && h.curHealth <= d
    ensures Died in r.events <==> !h.IsDead() && r.state.IsDead()
    ensures DeathLast(r.events)
  {
    BehaviourHealth.SetHealth(h, ClampedSub(h.curHealth, d))
  }

  /** `NetworkPlayer.TakeDamage` with the clamp and its own argument order. */
  function PlayerTakeDamage(h: Health, d: U32): (r: Emitted<Health>)
    ensures h.IsDead() ==> r == Emitted(h, [])
    ensures r.state.maxHealth == h.maxHealth
    ensures r.state.curHealth <= h.curHealth
    ensures !h.IsDead() && d <= h.curHealth ==> r.state.curHealth == h.curHealth - d
    ensures !h.IsDead() ==> r.state.curHealth == ClampedSub(h.curHealth, d)
    ensures !h.IsDead() ==> |r.events| >= 1 && r.events[0] == ChangedHealth(r.state.curHealth, h.maxHealth)
    ensures |r.events| == (if h.IsDead() then 0 else if h.curHealth <= d then 2 else 1)
    ensures Died in r.events <==> !h.IsDead() && h.curHealth <= d
    ensures Died in r.events <==> !h.IsDead() && r.state.IsDead()
    ensures DeathLast(r.events)
  {
    if h.curHealth == 0 then Emitted(h, [])
    else
      var after := h.(curHealth := ClampedSub(h.curHealth, d));
      var changed := [ChangedHealth(after.curHealth, after.maxHealth)];
      if after.curHealth != 0 then Emitted(after, changed)
      else Emitted(after, changed + [Died])
  }

  /** With the clamp, overkill damage kills. */
  lemma OverkillKills(h: Health, d: U32)
    requires !h.IsDead() && h.curHealth < d
    ensures BehaviourTakeDamage(h, d).state.IsDead() && Died in BehaviourTakeDamage(h, d).events
    ensures PlayerTakeDamage(h, d).state.IsDead() && Died in PlayerTakeDamage(h, d).events
  {
  }

  /** The health invariant `curHealth <= maxHealth`, kept by any sequence
      of clamped hits, and health never rises. */
  ghost predicate InRange(h: Health) {
    h.curHealth <= h.maxHealth
  }

  lemma {:induction false} ClampedDamageKeepsRange(h: Health, ds: seq<U32>)
    requires InRange(h)
    ensures InRange(Run(BehaviourTakeDamage, h, ds).state)
    ensures Run(BehaviourTakeDamage, h, ds).state.curHealth <= h.curHealth
    ensures InRange(Run(PlayerTakeDamage, h, ds).state)
    ensures Run(PlayerTakeDamage, h, ds).state.curHealth <= h.curHealth
    decreases |ds|
  {
    if |ds| > 0 {
      ClampedDamageKeepsRange(BehaviourTakeDamage(h, ds[0]).state, ds[1..]);
      ClampedDamageKeepsRange(PlayerTakeDamage(h, ds[0]).state, ds[1..]);
    }
  }

  /** With the clamp, a live entity dies as soon as the total damage dealt
      reaches its health, and raises the death event exactly once. */
  lemma {:induction false} EnoughDamageKills(h: Health, ds: seq<U32>)
    requires !h.IsDead() && Total(ds) >= h.curHealth
    ensures Run(PlayerTakeDamage, h, ds).state.IsDead()
    ensures DeathCount(Run(PlayerTakeDamage, h, ds).events) == 1
    decreases |ds|
  {
    var dead := (h: Health) => h.IsDead();
    assert SilentWhenDead(PlayerTakeDamage, dead);
    assert DiesOnTransition(PlayerTakeDamage, dead);
    TotalDamageKills(h, ds);
    RunDiesIffKilled(PlayerTakeDamage, dead, h, ds);
    RunDiesAtMostOnce(PlayerTakeDamage, dead, h, ds);
    DeathLastMeansAtMostOnce(Run(PlayerTakeDamage, h, ds).events);
  }

  function Total(ds: seq<U32>): int {
    if |ds| == 0 then 0 else ds[0] + Total(ds[1..])
  }

  lemma {:induction false} TotalDamageKills(h: Health, ds: seq<U32>)
    requires Total(ds) >= h.curHealth
    ensures Run(PlayerTakeDamage, h, ds).state.IsDead()
    decreases |ds|
  {
    if |ds| > 0 {
      var first := PlayerTakeDamage(h, ds[0]);
      if first.state.IsDead() {
        assert SilentWhenDead(PlayerTakeDamage, (h: Health) => h.IsDead());
        RunFromDeadIsSilent(PlayerTakeDamage, (h: Health) => h.IsDead(), first.state, ds[1..]);
      } else {
        TotalDamageKills(first.state, ds[1..]);
      }
    }
  }

  /** A `NetworkPlayer` whose server start sets `curHealth` from
      `maxHealth`, as `NetworkPlayerBehaviour.OnStartServer` does, dies from a
      single hit of its full health, unlike the one as created. */
  lemma StartedPlayerCanDie(maxHealth: U32)
    requires maxHealth != 0
    ensures Run(PlayerTakeDamage, BehaviourHealth.StartServer(PlayerHealth.Initial(maxHealth)).state, [maxHealth])
         == Emitted(Health(maxHealth, 0), [ChangedHealth(0, maxHealth), Died])
  {
    assert Run(PlayerTakeDamage, Health(maxHealth, 0), []) == Emitted(Health(maxHealth, 0), []);
  }
}
