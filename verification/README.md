# Player health, jump cooldown and move input of CS_2DNetShooter, in Dafny

This project models the discrete decision logic of the two player components of
a small networked 2D shooter built on Unity and Mirror:

- `NetworkPlayerBehaviour` (`Assets/Scripts/Runtime/NetworkPlayerBehaviour.cs`):
  the `Health` property setter and `TakeDamage` written through it,
  `OnStartServer`'s health initialisation, and the jump rule
  (`GetIsGround`/`Jump` with `jumpTimer`/`jumpDelay`, fed by `JumpInput`).
- `NetworkPlayer` (`Assets/Scripts/Runtime/NetworkPlayer.cs`): its own
  `TakeDamage` health/death state machine, the `LocalMoveInput` phase filter,
  and the server's `CmdSetInputVector` latest-value slot.

Health values are C# `uint`s. They are modelled as `UInt32.U32`, and the
subtraction in `curHealth -= damage` wraps modulo 2^32 (`UInt32.Sub`), as
unchecked C# arithmetic does. Events are returned as a `seq<HealthCore.Event>`
next to the new state. `HealthCore.Run` folds a step function over a sequence
of inputs and concatenates the events. The one-shot death guarantee is proved
once (`HealthCore.RunDiesAtMostOnce`). It covers every step that is silent when
dead and raises `Died` only on the alive-to-dead transition, as its last event.
It is then instantiated for each variant.

`OnChangedHealth` is an `Action<uint, uint>`, so its arguments are kept
positionally in `ChangedHealth(first, second)`. `NetworkPlayerBehaviour`
passes `(maxHealth, curHealth)` and `NetworkPlayer` passes
`(curHealth, maxHealth)`. The model keeps both orders as written. It proves
that this is the only difference between the two `TakeDamage` state machines
started from the same health (`PlayerHealth.AgreesWithBehaviourUpToArgumentOrder`).
The components differ elsewhere too. Only `NetworkPlayerBehaviour` initialises
`curHealth` (in `OnStartServer`), and only it has a public `Health` setter.

The zero guard and the `OnDead` event show that health is meant to run down
to zero and stop there, with the entity dying. The code does not clamp at zero,
though: its `uint` subtraction wraps, so an overkill hit leaves the entity
alive. The model follows the code. The clamped behaviour is modelled
separately under "Findings".

Time is an abstract `real` timestamp standing for Unity's `Time.time`. The
ground flag `_isGround` is an input to each fixed update, because it comes from
an engine collision query. The move vector is an opaque type parameter `V`.
The server's `Vector2.Normalize` is a function parameter `normalize: V -> V`.

## Model

| member | source | states |
|---|---|---|
| `UInt32.Sub` | Assets/Scripts/Runtime/NetworkPlayer.cs:87 | `uint` subtraction: `a - b` when `b <= a`; otherwise it wraps to `a - b + 2^32`, which is larger than `a`; zero exactly when `a == b`; adding `b` back modulo 2^32 gives `a` |
| `HealthCore.DeathLastMeansAtMostOnce` | Assets/Scripts/Runtime/NetworkPlayerBehaviour.cs:81-86 | a trace whose death event can only be the last event holds at most one death event, and exactly one iff it contains a death at all |
| `HealthCore.RunFromDeadIsSilent` | Assets/Scripts/Runtime/NetworkPlayerBehaviour.cs:72-75 | once dead, any number of further writes leaves the state unchanged and raises no event |
| `HealthCore.RunDiesAtMostOnce` | Assets/Scripts/Runtime/NetworkPlayer.cs:85-92 | over any input sequence, a step that is silent when dead and raises `Died` only on the alive-to-dead transition, as its last event, raises at most one death event in the run, and it is the run's last event |
| `HealthCore.RunDiesIffKilled` | Assets/Scripts/Runtime/NetworkPlayer.cs:85-92 | over a run, a death event is raised iff the run starts alive and ends dead |
| `HealthCore.SwapAllInvolutive` | Assets/Scripts/Runtime/NetworkPlayer.cs:88 | exchanging the argument order twice gives back the original trace, so either order determines the other |
| `HealthCore.SwapAllConcat` | Assets/Scripts/Runtime/NetworkPlayer.cs:88 | exchanging the argument order distributes over concatenating traces |
| `HealthCore.SwapAllKeepsDeaths` | Assets/Scripts/Runtime/NetworkPlayer.cs:88 | exchanging the argument order keeps the number of death events and whether death comes last |
| `BehaviourHealth.SetHealth` | Assets/Scripts/Runtime/NetworkPlayerBehaviour.cs:67-88 | dead: no change and no event; alive: stores exactly `v`, first event is `ChangedHealth(maxHealth, v)`, and a death event is raised iff `v == 0`, as the last event |
| `BehaviourHealth.StartServer` | Assets/Scripts/Runtime/NetworkPlayerBehaviour.cs:101-104 | sets health to `maxHealth` without raising any event, which revives a dead entity when `maxHealth != 0` |
| `BehaviourHealth.TakeDamage` | Assets/Scripts/Runtime/NetworkPlayerBehaviour.cs:118-121 | dead: no-op; alive: health becomes `cur - d`, or `cur - d + 2^32` when `d > cur`; exactly one `ChangedHealth(max, new)` event, even when `d == 0`; death iff `d == cur`, as the last of two events |
| `BehaviourHealth.ZeroDamageStillNotifies` | Assets/Scripts/Runtime/NetworkPlayerBehaviour.cs:118-121 | zero damage on a live entity changes nothing, yet raises one health-changed event |
| `BehaviourHealth.OverkillDoesNotKill` | Assets/Scripts/Runtime/NetworkPlayerBehaviour.cs:120 | damage above the remaining health leaves the entity alive with more health than before, and raises no death event |
| `BehaviourHealth.OverkillExample` | Assets/Scripts/Runtime/NetworkPlayerBehaviour.cs:120 | 10 damage at health 3 of 10 leaves health 4294967289 and raises only `ChangedHealth(10, 4294967289)` |
| `BehaviourHealth.SetHealthDiesOnTransition` | Assets/Scripts/Runtime/NetworkPlayerBehaviour.cs:72-86 | the setter is silent when dead, and raises a death event exactly on the alive-to-dead transition, as its last event |
| `BehaviourHealth.TakeDamageDiesOnTransition` | Assets/Scripts/Runtime/NetworkPlayerBehaviour.cs:118-121 | the same two facts for `TakeDamage` |
| `BehaviourHealth.WritesDieAtMostOnce` | Assets/Scripts/Runtime/NetworkPlayerBehaviour.cs:72-86 | over any sequence of writes, `OnDead` fires at most once and after every other event; it fires iff the entity started alive and some written value is zero |
| `BehaviourHealth.WritesDieOnZero` | Assets/Scripts/Runtime/NetworkPlayerBehaviour.cs:72-86 | over any sequence of writes, a death event is raised iff the entity starts alive and some written value is zero |
| `BehaviourHealth.DamageDiesAtMostOnce` | Assets/Scripts/Runtime/NetworkPlayerBehaviour.cs:118-121 | over any sequence of hits, `OnDead` fires at most once, last, and iff a live entity ends at zero |
| `PlayerHealth.Initial` | Assets/Scripts/Runtime/NetworkPlayer.cs:22-23 | a created `NetworkPlayer` has its configured `maxHealth` and health 0, because `curHealth` is never assigned |
| `PlayerHealth.TakeDamage` | Assets/Scripts/Runtime/NetworkPlayer.cs:83-93 | dead: no-op; alive: health becomes `cur - d` wrapped modulo 2^32; first event `ChangedHealth(new, max)`; `OnDead` iff the new health is 0, as the last event |
| `PlayerHealth.OverkillDoesNotKill` | Assets/Scripts/Runtime/NetworkPlayer.cs:87 | damage above the remaining health leaves the player alive with more health, and raises no death |
| `PlayerHealth.MaximalDamageHeals` | Assets/Scripts/Runtime/NetworkPlayer.cs:87 | `uint.MaxValue` damage at health 5 of 10 leaves health 6 |
| `PlayerHealth.TakeDamageDiesOnTransition` | Assets/Scripts/Runtime/NetworkPlayer.cs:85-92 | `TakeDamage` is silent when dead, and raises a death event exactly on the alive-to-dead transition, as its last event |
| `PlayerHealth.DamageDiesAtMostOnce` | Assets/Scripts/Runtime/NetworkPlayer.cs:85-92 | over any sequence of hits, `Dead()`/`OnDead` happen at most once, last, and iff a live player ends at zero; derived from the `NetworkPlayerBehaviour` guarantee through the argument-order equivalence |
| `PlayerHealth.CreatedPlayerIsInvulnerable` | Assets/Scripts/Runtime/NetworkPlayer.cs:22-23 | from the created state, every sequence of hits leaves health unchanged and raises no event |
| `PlayerHealth.AgreesWithBehaviourUpToArgumentOrder` | Assets/Scripts/Runtime/NetworkPlayer.cs:83-93 | after any hits, both components hold the same health; each one's event trace is the other's with the health-changed arguments swapped, in both directions; they raise the same number of death events |
| `CorrectedHealth.ClampedSub` | Assets/Scripts/Runtime/NetworkPlayerBehaviour.cs:120 | subtraction stopping at zero: never above `a`, exact when `b <= a`, zero iff `a <= b` |
| `CorrectedHealth.BehaviourTakeDamage` | Assets/Scripts/Runtime/NetworkPlayerBehaviour.cs:118-121 | clamped damage through the setter: a live entity's health becomes `max(cur - d, 0)`; one event `(max, new)`; death iff `cur <= d`, iff the entity ends dead, as the last event |
| `CorrectedHealth.PlayerTakeDamage` | Assets/Scripts/Runtime/NetworkPlayer.cs:83-93 | clamped damage with `(new, max)` events: a live player's health becomes `max(cur - d, 0)`; one health-changed event; death iff `cur <= d`, iff the player ends dead, as the last event |
| `CorrectedHealth.OverkillKills` | Assets/Scripts/Runtime/NetworkPlayer.cs:87 | with the clamp, damage above the remaining health kills and raises the death event |
| `CorrectedHealth.ClampedDamageKeepsRange` | Assets/Scripts/Runtime/NetworkPlayer.cs:87 | with the clamp, any sequence of hits keeps `curHealth <= maxHealth` and never raises health |
| `CorrectedHealth.EnoughDamageKills` | Assets/Scripts/Runtime/NetworkPlayer.cs:85-92 | with the clamp, once the total damage reaches the health, the player is dead and exactly one death event was raised |
| `CorrectedHealth.TotalDamageKills` | Assets/Scripts/Runtime/NetworkPlayer.cs:85-92 | with the clamp, total damage at least the health leaves the player dead |
| `CorrectedHealth.StartedPlayerCanDie` | Assets/Scripts/Runtime/NetworkPlayer.cs:22-23 | a player whose server start sets `curHealth := maxHealth` (the `OnStartServer` of `NetworkPlayerBehaviour`) dies from one hit of its full health: `[ChangedHealth(0, max), Died]` |
| `JumpCooldown.GetIsGround` | Assets/Scripts/Runtime/NetworkPlayerBehaviour.cs:165-174 | allows a jump iff grounded, jump input nonzero and `jumpTimer + jumpDelay <= now`; an allowed jump always comes strictly after the last one |
| `JumpCooldown.Jump` | Assets/Scripts/Runtime/NetworkPlayerBehaviour.cs:154-174 | fires iff grounded, jump input nonzero, and at least `jumpDelay` has elapsed since `jumpTimer`; firing sets `jumpTimer := now`; otherwise nothing changes |
| `JumpCooldown.JumpInput` | Assets/Scripts/Runtime/NetworkPlayerBehaviour.cs:185-188 | stores the new jump value and leaves the timer alone |
| `JumpCooldown.NoImmediateRetrigger` | Assets/Scripts/Runtime/NetworkPlayerBehaviour.cs:27 | right after a jump, a second evaluation at the same time cannot fire |
| `JumpCooldown.SecondAttemptWithinCooldownSuppressed` | Assets/Scripts/Runtime/NetworkPlayerBehaviour.cs:162-172 | after a jump at `t1`, no attempt before `t1 + jumpDelay` fires |
| `JumpCooldown.JumpsAreSpaced` | Assets/Scripts/Runtime/NetworkPlayerBehaviour.cs:162-172 | over any sequence of inputs and fixed updates, every two jumps are at least `jumpDelay` apart, and all come at least `jumpDelay` after the initial timer |
| `JumpCooldown.TimerIsLastJump` | Assets/Scripts/Runtime/NetworkPlayerBehaviour.cs:162 | after any sequence of ticks, `jumpTimer` holds the time of the last jump, or its old value if none fired |
| `JumpCooldown.Step` | Assets/Scripts/Runtime/NetworkPlayerBehaviour.cs:154-188 | one tick: a jump input only stores the value; a fixed update reports at most one jump, exactly when `Jump` fires, stamped with the current time, which becomes `jumpTimer` |
| `JumpCooldown.NoJumpBeforeSixTenths` | Assets/Scripts/Runtime/NetworkPlayerBehaviour.cs:27-28 | from the initial `jumpTimer = jumpDelay = 0.3`, no jump fires before time 0.6 |
| `JumpCooldown.NoJumpWhileAirborne` | Assets/Scripts/Runtime/NetworkPlayerBehaviour.cs:166-167 | if every fixed update is airborne, no jump fires whatever the input |
| `MoveInput.LocalMoveInput` | Assets/Scripts/Runtime/NetworkPlayer.cs:49-62 | always overwrites the local vector with the callback's value; sends a command carrying that value iff the phase is `Performed` or `Canceled` |
| `MoveInput.LastForwarded` | Assets/Scripts/Runtime/NetworkPlayer.cs:53-61 | no value iff no callback has a forwarding phase |
| `MoveInput.LastWriteWins` | Assets/Scripts/Runtime/NetworkPlayer.cs:95-100 | what `CmdSetInputVector` does to the server slot over any number of commands: the slot holds the normalised last command, or its old value if no command arrived |
| `MoveInput.EarlierCommandsAreForgotten` | Assets/Scripts/Runtime/NetworkPlayer.cs:95-100 | two command histories ending in the same command leave the same slot, whatever came before |
| `MoveInput.ClientSendsForwardedOnly` | Assets/Scripts/Runtime/NetworkPlayer.cs:49-62 | the client keeps the latest callback's value whatever its phase; it sends exactly one command per `Performed`/`Canceled` callback, so none iff there was none; its last command is the latest such callback's value |
| `MoveInput.LastForwardedOfCons` | Assets/Scripts/Runtime/NetworkPlayer.cs:53-61 | the latest forwarding callback is in the tail if the tail has one, else it is the head if that forwards |
| `MoveInput.ServerHoldsLatestForwarded` | Assets/Scripts/Runtime/NetworkPlayer.cs:49-62 | end to end: after the client handles any callbacks, the server slot holds the normalised value of the latest `Performed`/`Canceled` callback, or its old value |

## Left out

- Rigidbody motion is float physics done by the engine. This covers `Move` in both components (velocity assignment, `Vector2.Lerp` damping and `MovePosition`), the jump's velocity reset and `AddForce` impulse. A jump is only the `fired` flag.
- `GroundCheck` is an engine collision query (`Physics2D.CircleCast`). Its result `_isGround` is an input to each fixed update.
- `Vector2.Normalize` and the aim code are floating-point numerics. This covers `MouseInput`, `LookAt2D` and the DOTween rotation. The vector is opaque, and normalisation is a parameter.
- `NetworkPlayerBehaviour.LocalMoveInput` only stores the axis for the velocity code, which is left out above.
- `inputVector` is a single field of `NetworkPlayer`. `LocalMoveInput` writes it raw on the client for every callback, whatever the phase, and `CmdSetInputVector` writes it normalised on the server. The model keeps the client's value and the server's slot apart, so it assumes client and server are different instances (a dedicated server). On a host, where the local player's object is also the server's object, raw values of any phase also land in the slot. `MoveInput.LastWriteWins` and `MoveInput.ServerHoldsLatestForwarded` do not describe that case.
- Mirror replication and attributes are networking plumbing: `[SyncVar]`, `[Command]`, `[Server]`, `[ClientCallback]`, `isServer` and `OnStartLocalPlayer`. So are `Awake`'s input enabling and `Camera.main`. A command is modelled as delivered, in order, to the server's slot.
- `OnValidate`, `OnDrawGizmos` and `Dead()`'s sprite recolouring are editor, debug and rendering concerns. The death side effect is the `Died` event.
- JumpCooldown.Jump: time is an exact `real`. The source compares `float`s, and `jumpTimer + jumpDelay` may round there. So the exact 0.6 boundary of `NoJumpBeforeSixTenths` may differ by one float ulp.
- Subscribers of `OnChangedHealth`/`OnDead` are not modelled. An event with no subscriber (`?.Invoke`) is still recorded, because the state change happens either way.

## Findings

| source | as written | input that shows it | evidently intended | confidence | as-written member | corrected member |
|---|---|---|---|---|---|---|
| Assets/Scripts/Runtime/NetworkPlayerBehaviour.cs:120 | `Health -= damage` subtracts `uint`s unchecked, so damage above the remaining health wraps | health 3 of 10, `TakeDamage(10)`: health becomes 4294967289 and no `OnDead` fires | health stops at 0 and the entity dies | high, not executed | `BehaviourHealth.OverkillDoesNotKill` | `CorrectedHealth.OverkillKills` |
| Assets/Scripts/Runtime/NetworkPlayer.cs:87 | `curHealth -= damage` wraps the same way; `uint.MaxValue` damage even adds one point of health. Latent as written: no `NetworkPlayer` reaches a nonzero health until the initialisation in the next row is fixed | health 5 of 10 (reachable once `curHealth` is initialised), `TakeDamage(4294967295)`: health becomes 6 | health stops at 0 and the player dies | high, not executed | `PlayerHealth.MaximalDamageHeals` | `CorrectedHealth.ClampedDamageKeepsRange` |
| Assets/Scripts/Runtime/NetworkPlayer.cs:22-23 | `curHealth` is never assigned, so it stays 0 and the dead-guard turns every `TakeDamage` into a no-op | a created player, `TakeDamage(10)`: no event, no death | start at `maxHealth`, as `NetworkPlayerBehaviour.OnStartServer` does | medium, not executed | `PlayerHealth.CreatedPlayerIsInvulnerable` | `CorrectedHealth.StartedPlayerCanDie` |

The as-written members are the model of the code. The `CorrectedHealth` module
holds the intended behaviour. For both argument orders it is proved that
overkill kills and that health stays within `[0, maxHealth]` and never rises.
For `NetworkPlayer` it is also proved that death fires exactly once after the
total damage reaches the health.
