/** The messages of the pipeline (the `TEvents` structs, plus the runtime's own
    wake-up and poison-pill events) and what an actor hands to the runtime:
    a message to one of its peers, or a new worker to register. An actor's
    `Outbox` is the sequence of these, in the order the handler produced them. */
module Events {

  datatype Event =
    | Wakeup                        // TEvWakeup: run the next turn
    | WriteValueRequest(value: int) // TEvWriteValueRequest: one result for the writer
    | Done                          // TEvDone: a worker has finished
    | PoisonPill                    // TEvPoisonPill: the writer must emit and stop

  /** Where a message goes, as seen from the sending actor. */
  datatype Peer = Self | Reader | Writer

  datatype Outgoing =
    | Send(to: Peer, event: Event)
    | Register(value: int)          // a new largest-prime-divisor worker for `value`

  /** What a worker sends when it finishes: its result to the writer, then the
      done notice to the reader. */
  function Finale(result: int): seq<Outgoing> {
    [Send(Writer, WriteValueRequest(result)), Send(Reader, Done)]
  }

  /** Every message is the actor's wake-up to itself. */
  predicate OnlyWakeups(s: seq<Outgoing>) {
    forall i :: 0 <= i < |s| ==> s[i] == Send(Self, Wakeup)
  }

  /** The number of occurrences of `x` in `s`. */
  function Count(s: seq<Outgoing>, x: Outgoing): nat {
    if s == [] then 0
    else Count(s[..|s| - 1], x) + (if s[|s| - 1] == x then 1 else 0)
  }

  /** The values of the workers registered in `s`, in order. */
  function Spawns(s: seq<Outgoing>): seq<int> {
    if s == [] then []
    else
      var init := Spawns(s[..|s| - 1]);
      if s[|s| - 1].Register? then init + [s[|s| - 1].value] else init
  }

  /** Appending one message adds to the counts exactly what that message is. */
  lemma AppendOne(s: seq<Outgoing>, m: Outgoing)
    ensures forall x :: Count(s + [m], x) == Count(s, x) + (if m == x then 1 else 0)
    ensures Spawns(s + [m]) == Spawns(s) + (if m.Register? then [m.value] else [])
  {
    assert (s + [m])[..|s|] == s;
  }
}
