/** Move input of `NetworkPlayer`: the owning client stores every value the
    move action reports and forwards some of them to the server, which keeps
    only the latest. The vector itself is an opaque type `V`, and the
    server's `Normalize` is a function passed in. */
module MoveInput {

  /** Unity's `InputActionPhase`. */
  datatype Phase = Disabled | Waiting | Started | Performed | Canceled

  /** The part of an input callback context the component reads. */
  datatype Callback<V> = Callback(phase: Phase, value: V)

  datatype Option<T> = None | Some(value: T)

  /** The client's `inputVector` after the callback, and the argument of the
      `CmdSetInputVector` command it sends, if any. */
  datatype LocalOutcome<V> = LocalOutcome(inputVector: V, command: Option<V>)

  /** Only these phases reach the server. */
  predicate Forwards(p: Phase) {
    match p
    case Performed => true
    case Canceled => true
    case _ => false
  }

  /** `LocalMoveInput`: the local vector is always overwritten; a command is
      sent only for the `Performed` and `Canceled` phases. */
  function LocalMoveInput<V>(inputVector: V, c: Callback<V>): (r: LocalOutcome<V>)
    ensures r.inputVector == c.value
    ensures r.command.Some? <==> c.phase in {Performed, Canceled}
    ensures r.command.Some? ==> r.command.value == c.value
  {
    var stored := c.value;
    if Forwards(c.phase) then LocalOutcome(stored, Some(stored)) else LocalOutcome(stored, None)
  }

  /** `CmdSetInputVector` on the server: the slot is replaced by the
      normalised argument; what it held before plays no part. */
  function CmdSetInputVector<V>(normalize: V -> V, slot: V, input: V): V
  {
    normalize(input)
  }

  /** The server's slot after receiving `commands` in order. */
  function ServerSlot<V>(normalize: V -> V, slot: V, commands: seq<V>): V
    decreases |commands|
  {
    if |commands| == 0 then slot
    else ServerSlot(normalize, CmdSetInputVector(normalize, slot, commands[0]), commands[1..])
  }

  /** Last write wins: the slot holds the normalised value of the most
      recent command, and is untouched when none has arrived. */
  lemma {:induction false} LastWriteWins<V>(normalize: V -> V, slot: V, commands: seq<V>)
    ensures |commands| == 0 ==> ServerSlot(normalize, slot, commands) == slot
    ensures |commands| > 0 ==> ServerSlot(normalize, slot, commands) == normalize(commands[|commands| - 1])
    decreases |commands|
  {
    if |commands| > 1 {
      LastWriteWins(normalize, normalize(commands[0]), commands[1..]);
    }
  }

  /** Two histories that end in the same command leave the same slot, no
      matter what came before or what the slot held. */
  lemma EarlierCommandsAreForgotten<V>(normalize: V -> V, slot1: V, h1: seq<V>, slot2: V, h2: seq<V>, last: V)
    ensures ServerSlot(normalize, slot1, h1 + [last]) == ServerSlot(normalize, slot2, h2 + [last])
  {
    LastWriteWins(normalize, slot1, h1 + [last]);
    LastWriteWins(normalize, slot2, h2 + [last]);
  }

  /** The client's `inputVector` after a sequence of callbacks, and the
      commands it sent, in order. */
  datatype ClientTrace<V> = ClientTrace(inputVector: V, sent: seq<V>)

  function ClientRun<V>(inputVector: V, callbacks: seq<Callback<V>>): ClientTrace<V>
    decreases |callbacks|
  {
    if |callbacks| == 0 then ClientTrace(inputVector, [])
    else
      var o := LocalMoveInput(inputVector, callbacks[0]);
      var rest := ClientRun(o.inputVector, callbacks[1..]);
      var sent := match o.command case Some(v) => [v] case None => [];
      ClientTrace(rest.inputVector, sent + rest.sent)
  }

  /** The value of the latest forwarding callback, searched from the end. */
  function LastForwarded<V>(callbacks: seq<Callback<V>>): (r: Option<V>)
    ensures r.None? <==> forall k :: 0 <= k < |callbacks| ==> !Forwards(callbacks[k].phase)
    decreases |callbacks|
  {
    if |callbacks| == 0 then None
    else
      var last := callbacks[|callbacks| - 1];
      if Forwards(last.phase) then Some(last.value)
      else LastForwarded(callbacks[..|callbacks| - 1])
  }

  /** How many callbacks have a forwarding phase. */
  function ForwardCount<V>(callbacks: seq<Callback<V>>): (n: nat)
    ensures n <= |callbacks|
    decreases |callbacks|
  {
    if |callbacks| == 0 then 0
    else (if Forwards(callbacks[0].phase) then 1 else 0) + ForwardCount(callbacks[1..])
  }

  /** The client keeps the latest value whatever its phase; it sends one
      command per `Performed` or `Canceled` callback, and the last command
      sent carries the value of the latest such callback. */
  lemma {:induction false} ClientSendsForwardedOnly<V>(inputVector: V, callbacks: seq<Callback<V>>)
    ensures |callbacks| > 0 ==> ClientRun(inputVector, callbacks).inputVector == callbacks[|callbacks| - 1].value
    ensures |ClientRun(inputVector, callbacks).sent| == ForwardCount(callbacks)
    ensures |ClientRun(inputVector, callbacks).sent| == 0 <==> LastForwarded(callbacks).None?
    ensures |ClientRun(inputVector, callbacks).sent| > 0 ==>
              Some(ClientRun(inputVector, callbacks).sent[|ClientRun(inputVector, callbacks).sent| - 1]) == LastForwarded(callbacks)
    decreases |callbacks|
  {
    if |callbacks| > 0 {
      var o := LocalMoveInput(inputVector, callbacks[0]);
      var tail := callbacks[1..];
      ClientSendsForwardedOnly(o.inputVector, tail);
      LastForwardedOfCons(callbacks[0], tail);
      assert callbacks == [callbacks[0]] + tail;
    }
  }

  /** `LastForwarded` on a sequence with a known first element. */
  lemma {:induction false} LastForwardedOfCons<V>(c: Callback<V>, tail: seq<Callback<V>>)
    ensures LastForwarded([c] + tail)
         == if LastForwarded(tail).Some? then LastForwarded(tail)
            else if Forwards(c.phase) then Some(c.value) else None
    decreases |tail|
  {
    var cs := [c] + tail;
    if |tail| > 0 {
      assert cs[..|cs| - 1] == [c] + tail[..|tail| - 1];
      assert cs[|cs| - 1] == tail[|tail| - 1];
      LastForwardedOfCons(c, tail[..|tail| - 1]);
    } else {
      assert cs[..|cs| - 1] == [];
    }
  }

  /** End to end: after the owning client handles a sequence of callbacks,
      the server's slot holds the normalised value of the latest `Performed`
      or `Canceled` callback, or its old value when there was none. */
  lemma ServerHoldsLatestForwarded<V>(normalize: V -> V, inputVector: V, slot: V, callbacks: seq<Callback<V>>)
    ensures ServerSlot(normalize, slot, ClientRun(inputVector, callbacks).sent)
         == match LastForwarded(callbacks)
            case None => slot
            case Some(v) => normalize(v)
  {
    ClientSendsForwardedOnly(inputVector, callbacks);
    LastWriteWins(normalize, slot, ClientRun(inputVector, callbacks).sent);
  }
}
