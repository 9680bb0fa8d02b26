/** The reader and coordinator (`TReadActor`). Each wake-up reads one token of
    the input: a value registers a worker for it, counts it as pending and
    schedules the next read; the end of the input (or a token that does not
    parse) sets `Finished`. Each done notice from a worker uncounts one. The
    poison pill goes to the writer, and the reader passes away, when the input
    is finished and nothing is pending, whichever of the two handlers sees that
    first. Reading is modelled by the token the caller passes in. */
module ReaderActor {
  import opened Events

  datatype Option<T> = None | Some(value: T)

  class ReadActor {
    var Finished: bool
    var PendingActors: int
    /** The messages and registrations handed to the runtime so far, in order. */
    var Outbox: seq<Outgoing>
    /** `PassAway` has been called: the runtime delivers nothing more. */
    var Stopped: bool

    /** The done notices handled so far. */
    ghost var DonesSeen: nat

    /** `PendingActors` is the number of workers registered minus the done
        notices seen; the poison pill has been sent exactly once if the reader
        has stopped and never otherwise, and then it is the last message; the
        reader has stopped exactly when the input is finished and nothing is
        pending. */
    ghost predicate Valid()
      reads this
    {
      && PendingActors == |Spawns(Outbox)| - DonesSeen
      && Count(Outbox, Send(Writer, PoisonPill)) == (if Stopped then 1 else 0)
      && (Stopped ==> Outbox[|Outbox| - 1] == Send(Writer, PoisonPill))
      && (Stopped ==> Finished && PendingActors == 0)
    }

    constructor ()
      ensures Valid() && !Finished && PendingActors == 0 && DonesSeen == 0
      ensures Outbox == [] && !Stopped
    {
      Finished, PendingActors, Outbox, Stopped := false, 0, [], false;
      DonesSeen := 0;
    }

    /** The first wake-up, sent to itself on bootstrap. */
    method Bootstrap()
      requires Valid() && !Stopped
      modifies this`Outbox
      ensures Valid() && Outbox == old(Outbox) + [Send(Self, Wakeup)]
    {
      AppendOne(Outbox, Send(Self, Wakeup));
      Outbox := Outbox + [Send(Self, Wakeup)];
    }

    /** Handle a wake-up, with `token` the result of reading the next value:
        `Some(v)` for a value, `None` for the end of the input. */
    method HandleWakeUp(token: Option<int>)
      requires Valid() && !Stopped
      modifies this
      ensures Valid() && DonesSeen == old(DonesSeen)
      ensures token.Some? ==>
        && Outbox == old(Outbox) + [Register(token.value), Send(Self, Wakeup)]
        && Spawns(Outbox) == old(Spawns(Outbox)) + [token.value]
        && PendingActors == old(PendingActors) + 1
        && Finished == old(Finished) && !Stopped
      ensures token.None? ==>
        && Finished && PendingActors == old(PendingActors)
        && Stopped == (PendingActors == 0)
        && Outbox == old(Outbox) + (if Stopped then [Send(Writer, PoisonPill)] else [])
        && Spawns(Outbox) == old(Spawns(Outbox))
    {
      match token {
        case Some(value) =>
          AppendOne(Outbox, Register(value));
          Outbox := Outbox + [Register(value)];
          PendingActors := PendingActors + 1;
          AppendOne(Outbox, Send(Self, Wakeup));
          Outbox := Outbox + [Send(Self, Wakeup)];
          assert Outbox == old(Outbox) + [Register(value), Send(Self, Wakeup)];
        case None =>
          Finished := true;
          if PendingActors == 0 {
            SendPoisonPill();
          } else {
            assert Outbox == old(Outbox) + [];
          }
      }
    }

    /** Handle a worker's done notice. */
    method HandleDone()
      requires Valid() && !Stopped
      modifies this
      ensures Valid() && DonesSeen == old(DonesSeen) + 1
      ensures PendingActors == old(PendingActors) - 1 && Finished == old(Finished)
      ensures Stopped == (Finished && PendingActors == 0)
      ensures Outbox == old(Outbox) + (if Stopped then [Send(Writer, PoisonPill)] else [])
      ensures Spawns(Outbox) == old(Spawns(Outbox))
    {
      PendingActors := PendingActors - 1;
      DonesSeen := DonesSeen + 1;
      if Finished && PendingActors == 0 {
        SendPoisonPill();
      } else {
        assert Outbox == old(Outbox) + [];
      }
    }

    /** Tell the writer to emit its sum, then pass away. */
    method SendPoisonPill()
      requires !Stopped
      modifies this`Outbox, this`Stopped
      ensures Stopped && Outbox == old(Outbox) + [Send(Writer, PoisonPill)]
      ensures forall x :: Count(Outbox, x) == Count(old(Outbox), x) + (if x == Send(Writer, PoisonPill) then 1 else 0)
      ensures Spawns(Outbox) == Spawns(old(Outbox))
    {
      AppendOne(Outbox, Send(Writer, PoisonPill));
      Outbox := Outbox + [Send(Writer, PoisonPill)];
      Stopped := true;
    }
  }

  /** With an empty input the reader, once bootstrapped and woken, sends the
      poison pill straight away and registers no worker. */
  method EmptyInput() returns (sent: seq<Outgoing>, pending: int)
    ensures sent == [Send(Self, Wakeup), Send(Writer, PoisonPill)]
    ensures Spawns(sent) == [] && pending == 0
  {
    var r := new ReadActor();
    r.Bootstrap();
    r.HandleWakeUp(None);
    sent, pending := r.Outbox, r.PendingActors;
    AppendOne([Send(Self, Wakeup)], Send(Writer, PoisonPill));
  }
}
