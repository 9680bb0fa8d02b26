/** The largest-prime-divisor worker (`TMaximumPrimeDevisorActor`). Its three
    fields carry the trial division across turns: a turn runs loop iterations
    until the guard fails or the turn's budget is spent, and in the latter case
    the worker sends itself a wake-up and returns, to resume on the next turn.
    The wall-clock budget of `TMaximumPrimeDevisorActor` (10 ms) is modelled as a number of
    iterations chosen by the caller of each turn: the turn yields right after
    the iteration that takes it over `budget`, which covers every point at which
    a clock could stop it. */
module WorkerActor {
  import opened Primes
  import opened Factorization
  import opened Events

  class MaximumPrimeDevisorActor {
    var Value: int
    var CurrentDevisor: int
    var LargestPrimeDevisor: int
    /** The messages handed to the runtime so far, in order. */
    var Outbox: seq<Outgoing>
    /** `PassAway` has been called: the runtime delivers nothing more. */
    var Stopped: bool

    /** The value the worker was created for. */
    ghost const Input: int
    /** The factors divided out of `Value` so far. */
    ghost var Removed: seq<int>

    /** The factorisation fields as one value. */
    function Fields(): Trial
      reads this
    {
      Trial(Value, CurrentDevisor, LargestPrimeDevisor)
    }

    /** A non-positive input sits untouched in the fields. While running, a
        positive one is mid-way through trial division with the loop invariant
        holding, and only self wake-ups have been sent. Once stopped, a positive
        input's result is in `LargestPrimeDevisor`, and the last two messages
        are the result for the writer and the done notice for the reader, after
        nothing but self wake-ups. */
    ghost predicate Valid()
      reads this
    {
      && (Input < 1 ==> Fields() == Start(Input))
      && (!Stopped && Input >= 1 ==> Inv(Input, Fields(), Removed))
      && (Stopped && Input >= 1 ==> LargestPrimeDevisor == WorkerResult(Input))
      && (!Stopped ==> OnlyWakeups(Outbox))
      && (Stopped ==>
            && |Outbox| >= 2
            && OnlyWakeups(Outbox[..|Outbox| - 2])
            && Outbox[|Outbox| - 2..] == Finale(WorkerResult(Input)))
    }

    constructor (value: int)
      ensures Valid() && Input == value
      ensures Fields() == Start(value) && Outbox == [] && !Stopped
    {
      Value, CurrentDevisor, LargestPrimeDevisor := value, 2, 1;
      Outbox, Stopped := [], false;
      Input, Removed := value, [];
      new;
      if value >= 1 {
        InvAtStart(value);
      }
    }

    /** The first wake-up, sent to itself on registration. */
    method Bootstrap()
      requires Valid() && !Stopped
      modifies this`Outbox
      ensures Valid() && Outbox == old(Outbox) + [Send(Self, Wakeup)]
    {
      Outbox := Outbox + [Send(Self, Wakeup)];
    }

    /** Send the result to the writer and the done notice to the reader, then pass away. */
    method Finish(result: int)
      requires !Stopped
      modifies this`Outbox, this`Stopped
      ensures Stopped && Outbox == old(Outbox) + Finale(result)
    {
      Outbox := Outbox + [Send(Writer, WriteValueRequest(result))];
      Outbox := Outbox + [Send(Reader, Done)];
      Stopped := true;
    }

    /** One turn. A non-positive value is passed through at once. Otherwise the
        loop runs; if `budget + 1` iterations pass before the guard fails, the
        turn sends itself a wake-up and returns with the fields holding the
        state after those iterations. Otherwise the residue or the last factor
        removed is sent as the result. Whichever turns the loop was split into,
        the result sent is `WorkerResult(Input)`, the largest prime divisor. */
    method HandleWakeUp(budget: nat) returns (iterations: nat)
      requires Valid() && !Stopped
      modifies this
      ensures Valid()
      ensures old(Value) < 1 ==>
        && Stopped && iterations == 0 && Fields() == old(Fields())
        && Outbox == old(Outbox) + Finale(old(Value))
      ensures old(Value) >= 1 && !Stopped ==>
        && iterations == budget + 1
        && Searching(old(Fields()))
        && Fields() == Advance(old(Fields()), iterations)
        && Remaining(Fields()) < Remaining(old(Fields()))
        && Outbox == old(Outbox) + [Send(Self, Wakeup)]
      ensures old(Value) >= 1 && Stopped ==>
        && iterations <= budget
        && !Searching(Advance(old(Fields()), iterations))
        && Outbox == old(Outbox) + Finale(WorkerResult(Input))
    {
      if Value < 1 {
        Finish(Value);
        iterations := 0;
        assert Outbox[..|Outbox| - 2] == old(Outbox);
        return;
      }
      var yielded;
      ghost var before := Fields();
      iterations, yielded := Divide(budget);
      if yielded {
        AdvanceConsumes(before, iterations);
        return;
      }
      OutcomeAtExit(Input, Fields(), Removed);
      WorkerResultIsLargestPrimeDivisor(Input);
      if Value > 1 {
        LargestPrimeDevisor := Value;
      }
      Finish(LargestPrimeDevisor);
      assert Outbox[..|Outbox| - 2] == old(Outbox);
    }

    /** The trial-division loop of one turn, with its yield: at most `budget + 1`
        iterations, after which the turn sends itself a wake-up and stops early. */
    method Divide(budget: nat) returns (iterations: nat, yielded: bool)
      requires Inv(Input, Fields(), Removed)
      modifies this`Value, this`CurrentDevisor, this`LargestPrimeDevisor, this`Removed, this`Outbox
      ensures Inv(Input, Fields(), Removed)
      ensures Fields() == Advance(old(Fields()), iterations)
      ensures yielded ==>
        && iterations == budget + 1 && Searching(old(Fields()))
        && Outbox == old(Outbox) + [Send(Self, Wakeup)]
      ensures !yielded ==> iterations <= budget && !Searching(Fields()) && Outbox == old(Outbox)
    {
      ghost var t0 := Fields();
      iterations := 0;
      while CurrentDevisor * CurrentDevisor <= Value
        invariant Inv(Input, Fields(), Removed)
        invariant iterations <= budget && Fields() == Advance(t0, iterations)
        invariant iterations > 0 ==> Searching(t0)
        invariant Outbox == old(Outbox)
        decreases Value, Value - CurrentDevisor + 1
      {
        Iterate();
        AdvanceSplit(t0, iterations, 1);
        iterations := iterations + 1;
        if iterations > budget {
          Outbox := Outbox + [Send(Self, Wakeup)];
          return iterations, true;
        }
      }
      yielded := false;
    }

    /** One iteration of the loop: divide the candidate out, keeping it as the
        largest divisor found, or move on to the next candidate. */
    method Iterate()
      requires Inv(Input, Fields(), Removed) && Searching(Fields())
      modifies this`Value, this`CurrentDevisor, this`LargestPrimeDevisor, this`Removed
      ensures Fields() == Next(old(Fields())) && Inv(Input, Fields(), Removed)
    {
      NextKeepsInv(Input, Fields(), Removed);
      if Value % CurrentDevisor == 0 {
        LargestPrimeDevisor := CurrentDevisor;
        Removed := Removed + [CurrentDevisor];
        Value := Value / CurrentDevisor;
      } else {
        CurrentDevisor := CurrentDevisor + 1;
      }
    }
  }

  /** A worker for `n`, registered and then woken until it passes away, with
      `budgets[i]` (or 0 once they run out) bounding its `i`-th turn. Whatever
      the budgets, it sends only self wake-ups and then exactly one result,
      `WorkerResult(n)`, to the writer and exactly one done notice to the
      reader, in that order; a non-positive `n` is done on its first turn. */
  method RunWorker(n: int, budgets: seq<nat>) returns (sent: seq<Outgoing>, turns: nat)
    ensures |sent| >= 2 && OnlyWakeups(sent[..|sent| - 2])
    ensures sent[|sent| - 2..] == Finale(WorkerResult(n))
    ensures turns >= 1 && |sent| == turns + 2
    ensures n < 1 ==> turns == 1
  {
    var w := new MaximumPrimeDevisorActor(n);
    w.Bootstrap();
    turns := 0;
    while !w.Stopped
      invariant w.Valid() && w.Input == n
      invariant w.Stopped ==> turns >= 1 && |w.Outbox| == turns + 2
      invariant !w.Stopped ==> |w.Outbox| == turns + 1
      invariant n < 1 ==> turns == (if w.Stopped then 1 else 0)
      decreases if w.Stopped then 0 else if w.Value < 1 then 1 else Remaining(w.Fields()) + 1
    {
      var budget := if turns < |budgets| then budgets[turns] else 0;
      ghost var sentBefore := |w.Outbox|;
      var iterations := w.HandleWakeUp(budget);
      assert |w.Outbox| == sentBefore + (if w.Stopped then 2 else 1);
      turns := turns + 1;
    }
    sent := w.Outbox;
  }
}
