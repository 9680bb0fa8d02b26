/** The three actors wired together: the reader registers one worker per input
    value, every worker sends its result to the writer and its done notice to
    the reader, and the reader's poison pill makes the writer print the sum.
    The runtime is replaced by a driver that delivers each message to its
    addressee, choosing at every step (from a schedule given as a parameter)
    between the reader's next read and the completion of any pending worker,
    so that every order in which workers can finish is covered. */
module Pipeline {
  import opened Primes
  import opened Factorization
  import opened Events
  import opened Sums
  import opened WorkerActor
  import opened ReaderActor
  import opened WriterActor

  /** The per-input results, in input order. */
  function Results(input: seq<int>): (r: seq<int>)
    ensures |r| == |input|
  {
    if input == [] then []
    else Results(input[..|input| - 1]) + [WorkerResult(input[|input| - 1])]
  }

  /** The number the program prints for `input`. */
  function ExpectedOutput(input: seq<int>): int {
    SeqSum(Results(input))
  }

  /** The results of a concatenation are the results of its parts. */
  lemma {:induction false} ResultsConcat(a: seq<int>, b: seq<int>)
    ensures Results(a + b) == Results(a) + Results(b)
    decreases |b|
  {
    if b == [] {
      assert a + b == a;
    } else {
      var b' := b[..|b| - 1];
      assert (a + b)[..|a + b| - 1] == a + b';
      ResultsConcat(a, b');
    }
  }

  /** Each per-input result is what a worker sends for that input. */
  lemma {:induction false} ResultAt(input: seq<int>, i: nat)
    requires i < |input|
    ensures Results(input)[i] == WorkerResult(input[i])
    decreases |input|
  {
    if i < |input| - 1 {
      ResultAt(input[..|input| - 1], i);
    }
  }

  /** The per-input results in terms of the reference definition: a
      non-positive value passes through unchanged, a positive one contributes
      its largest prime divisor. */
  lemma ResultsAreLargestPrimeDivisors(input: seq<int>)
    ensures forall i :: 0 <= i < |input| ==>
      Results(input)[i] == if input[i] < 1 then input[i] else LargestPrimeDivisor(input[i])
  {
    forall i | 0 <= i < |input|
      ensures Results(input)[i] == if input[i] < 1 then input[i] else LargestPrimeDivisor(input[i])
    {
      ResultAt(input, i);
      if input[i] >= 1 {
        WorkerResultIsLargestPrimeDivisor(input[i]);
      }
    }
  }

  /** Reading the next input value moves its result into the pending ones. */
  lemma ReadKeepsBalance(received: seq<int>, pending: seq<int>, input: seq<int>, next: nat)
    requires next < |input|
    requires multiset(received) + multiset(Results(pending)) == multiset(Results(input[..next]))
    ensures multiset(received) + multiset(Results(pending + [input[next]]))
         == multiset(Results(input[..next + 1]))
  {
    assert input[..next + 1] == input[..next] + [input[next]];
    ResultsConcat(input[..next], [input[next]]);
    ResultsConcat(pending, [input[next]]);
  }

  /** Completing a pending worker moves its result to the received ones. */
  lemma CompletionKeepsBalance(received: seq<int>, a: seq<int>, x: int, b: seq<int>)
    ensures multiset(received + [WorkerResult(x)]) + multiset(Results(a + b))
         == multiset(received) + multiset(Results(a + [x] + b))
  {
    ResultsSplit(a, x, b);
    ResultsConcat(a, b);
    MoveOne(received, Results(a), WorkerResult(x), Results(b));
  }

  /** The results of a sequence with `x` in the middle. */
  lemma ResultsSplit(a: seq<int>, x: int, b: seq<int>)
    ensures Results(a + [x] + b) == Results(a) + [WorkerResult(x)] + Results(b)
  {
    ResultsConcat(a + [x], b);
    ResultsConcat(a, [x]);
    assert Results([x]) == [WorkerResult(x)] by {
      assert [x][..0] == [];
    }
  }

  /** Moving one value from the middle of one sequence to the end of another
      keeps the two multisets' sum. */
  lemma MoveOne(received: seq<int>, a: seq<int>, x: int, b: seq<int>)
    ensures multiset(received + [x]) + multiset(a + b) == multiset(received) + multiset(a + [x] + b)
  {
    assert multiset(a + [x] + b) == multiset(a) + multiset{x} + multiset(b);
    assert multiset(a + b) == multiset(a) + multiset(b);
    assert multiset(received + [x]) == multiset(received) + multiset{x};
  }

  /** The reader's side of the run: it keeps its own invariant, has registered
      a worker for each of the first `next` input values, in order, and counts
      `outstanding` of them as pending; it has finished only once every value
      has been read, and then stops as soon as nothing is pending. */
  ghost predicate ReaderBalanced(reader: ReadActor, input: seq<int>, next: int, outstanding: nat)
    reads reader
  {
    && reader.Valid()
    && 0 <= next <= |input|
    && Spawns(reader.Outbox) == input[..next]
    && reader.PendingActors == outstanding
    && (reader.Finished ==> next == |input|)
    && (reader.Finished && outstanding == 0 ==> reader.Stopped)
  }

  /** The writer's side of the run: it keeps its own invariant, has not
      stopped, and the results it has received together with those of the
      `pending` workers are the results of the values `read`. */
  ghost predicate WriterBalanced(writer: WriteActor, read: seq<int>, pending: seq<int>)
    reads writer
  {
    && writer.Valid() && !writer.Stopped
    && multiset(writer.Received) + multiset(Results(pending)) == multiset(Results(read))
  }

  /** The state of the run between two steps. */
  ghost predicate Balanced(reader: ReadActor, writer: WriteActor, input: seq<int>, next: int, pending: seq<int>)
    reads reader, writer
  {
    && ReaderBalanced(reader, input, next, |pending|)
    && WriterBalanced(writer, input[..next], pending)
  }

  /** Deliver the reader's wake-up when a value is left: it registers a worker for it. */
  method ReadValue(reader: ReadActor, writer: WriteActor, input: seq<int>, next: int, pending: seq<int>)
    returns (pending': seq<int>)
    requires Balanced(reader, writer, input, next, pending) && !reader.Stopped && !reader.Finished
    requires next < |input|
    modifies reader
    ensures Balanced(reader, writer, input, next + 1, pending')
    ensures |pending'| == |pending| + 1 && !reader.Finished
  {
    var value := input[next];
    ReadKeepsBalance(writer.Received, pending, input, next);
    pending' := pending + [value];
    assert WriterBalanced(writer, input[..next + 1], pending');
    RegisterNext(reader, input, next, |pending|);
  }

  /** The reader's part of a read: it registers a worker for the next value. */
  method RegisterNext(reader: ReadActor, input: seq<int>, next: int, outstanding: nat)
    requires ReaderBalanced(reader, input, next, outstanding) && !reader.Stopped && !reader.Finished
    requires next < |input|
    modifies reader
    ensures ReaderBalanced(reader, input, next + 1, outstanding + 1) && !reader.Finished
  {
    assert input[..next + 1] == input[..next] + [input[next]];
    reader.HandleWakeUp(Some(input[next]));
  }

  /** Deliver the reader's wake-up once the input is exhausted: it finishes,
      and stops at once if nothing is pending. */
  method ReadEnd(reader: ReadActor, writer: WriteActor, input: seq<int>, pending: seq<int>)
    requires Balanced(reader, writer, input, |input|, pending) && !reader.Stopped && !reader.Finished
    modifies reader
    ensures Balanced(reader, writer, input, |input|, pending) && reader.Finished
  {
    reader.HandleWakeUp(None);
  }

  /** Let pending worker `j` run to completion, sliced into turns by `sliced`,
      and deliver its result to the writer and its done notice to the reader. */
  method CompletionStep(reader: ReadActor, writer: WriteActor, input: seq<int>, next: int, pending: seq<int>,
                        j: nat, sliced: seq<nat>)
    returns (pending': seq<int>)
    requires Balanced(reader, writer, input, next, pending) && !reader.Stopped && j < |pending|
    modifies reader, writer
    ensures Balanced(reader, writer, input, next, pending')
    ensures |pending'| == |pending| - 1 && reader.Finished == old(reader.Finished)
  {
    var a, value, b := pending[..j], pending[j], pending[j + 1..];
    assert pending == a + [value] + b;
    pending' := a + b;
    var result := WorkerToCompletion(value, sliced);
    DeliverResult(writer, input[..next], a, value, b, result);
    DeliverDone(reader, input, next, |pending|);
  }

  /** The writer's part of a completion: it adds the worker's result. */
  method DeliverResult(writer: WriteActor, read: seq<int>, a: seq<int>, x: int, b: seq<int>, result: int)
    requires WriterBalanced(writer, read, a + [x] + b) && result == WorkerResult(x)
    modifies writer
    ensures WriterBalanced(writer, read, a + b)
  {
    CompletionKeepsBalance(writer.Received, a, x, b);
    writer.HandleWriteValueRequest(result);
  }

  /** The reader's part of a completion: it takes the done notice. */
  method DeliverDone(reader: ReadActor, input: seq<int>, next: int, outstanding: nat)
    requires ReaderBalanced(reader, input, next, outstanding) && !reader.Stopped && outstanding > 0
    modifies reader
    ensures ReaderBalanced(reader, input, next, outstanding - 1)
    ensures reader.Finished == old(reader.Finished)
  {
    reader.HandleDone();
  }

  /** Run a worker for `value` to completion and take the value it sends to the
      writer; it is followed by the done notice for the reader. */
  method WorkerToCompletion(value: int, sliced: seq<nat>) returns (result: int)
    ensures result == WorkerResult(value)
  {
    var sent, turns := RunWorker(value, sliced);
    assert sent[|sent| - 2] == Send(Writer, WriteValueRequest(WorkerResult(value)));
    result := sent[|sent| - 2].event.value;
  }

  /** Run the pipeline on `input`. At step `k` the driver lets the reader read
      when `schedule[k]` is 0 (or nothing is pending), and otherwise completes
      pending worker number `schedule[k]` modulo their count; the `k`-th worker
      to complete is sliced into turns by `budgets[k]`. For every schedule and
      every slicing the writer prints exactly once, and prints the sum of the
      per-input results; the reader registers one worker per input value, in
      input order, and sends the poison pill exactly once, as its last message. */
  method RunPipeline(input: seq<int>, schedule: seq<nat>, budgets: seq<seq<nat>>)
    returns (output: seq<int>, readerSent: seq<Outgoing>)
    ensures output == [ExpectedOutput(input)]
    ensures Spawns(readerSent) == input
    ensures Count(readerSent, Send(Writer, PoisonPill)) == 1
    ensures readerSent[|readerSent| - 1] == Send(Writer, PoisonPill)
  {
    var writer := new WriteActor();
    var reader := new ReadActor();
    reader.Bootstrap();
    AppendOne([], Send(Self, Wakeup));
    var next, step, completed := 0, 0, 0;
    var pending: seq<int> := [];
    while !reader.Stopped
      invariant Balanced(reader, writer, input, next, pending)
      decreases |input| - next + (if reader.Finished then 0 else 1), |pending|
    {
      var choice := if step < |schedule| then schedule[step] else 0;
      step := step + 1;
      if !reader.Finished && (choice == 0 || pending == []) {
        if next < |input| {
          pending := ReadValue(reader, writer, input, next, pending);
          next := next + 1;
        } else {
          ReadEnd(reader, writer, input, pending);
        }
      } else {
        var sliced := if completed < |budgets| then budgets[completed] else [];
        pending := CompletionStep(reader, writer, input, next, pending, choice % |pending|, sliced);
        completed := completed + 1;
      }
    }
    assert input[..next] == input;
    output := Shutdown(reader, writer, input);
    readerSent := reader.Outbox;
  }

  /** Deliver the reader's poison pill to the writer once every result has
      arrived: the writer prints the sum of the results, in whatever order they
      arrived. */
  method Shutdown(reader: ReadActor, writer: WriteActor, input: seq<int>) returns (output: seq<int>)
    requires Balanced(reader, writer, input, |input|, [])
    modifies writer
    ensures output == [ExpectedOutput(input)]
  {
    assert input[..|input|] == input;
    SeqSumPermutation(writer.Received, Results(input));
    writer.HandlePoisonPill();
    output := writer.Output;
  }

  /** Input `[1]` prints 1. */
  lemma ScenarioOne()
    ensures ExpectedOutput([1]) == 1
  {
    assert Results([1]) == [WorkerResult(1)];
    assert [1][..0] == [];
  }

  /** Input `[6]` prints 3: 6 is 2 times 3. */
  lemma ScenarioSix()
    ensures ExpectedOutput([6]) == 3
  {
    assert IsPrime(3);
    forall q | IsPrime(q) && 6 % q == 0
      ensures q <= 3
    {
      DivisorAtMost(6, q);
      assert q != 4 && q != 5 && q != 6 by {
        assert 4 % 2 == 0 && 6 % 2 == 0;
      }
    }
    LargestPrimeDivisorUnique(6, 3);
    WorkerResultIsLargestPrimeDivisor(6);
    assert Results([6]) == [WorkerResult(6)];
    assert [6][..0] == [];
  }

  /** Input `[17]` prints 17, a prime. */
  lemma ScenarioSeventeen()
    ensures ExpectedOutput([17]) == 17
  {
    NoSmallDivisorMeansPrime(17, 5);
    WorkerResultOfPrime(17);
    assert Results([17]) == [WorkerResult(17)];
    assert [17][..0] == [];
  }

  /** Input `[2, 3, 4]` prints 2 + 3 + 2 = 7. */
  lemma ScenarioTwoThreeFour()
    ensures ExpectedOutput([2, 3, 4]) == 7
  {
    WorkerResultOfPrime(2);
    WorkerResultOfPrime(3);
    WorkerResultOfFour();
    ResultsOfThree(2, 3, 4);
    var r := [2, 3, 2];
    assert r[..2] == [2, 3] && [2, 3][..1] == [2] && [2][..0] == [];
  }

  /** The results of a three-value input, one per value. */
  lemma ResultsOfThree(a: int, b: int, c: int)
    ensures Results([a, b, c]) == [WorkerResult(a), WorkerResult(b), WorkerResult(c)]
  {
    assert [a, b, c][..2] == [a, b] && [a, b][..1] == [a] && [a][..0] == [];
    assert Results([a]) == [WorkerResult(a)];
    assert Results([a, b]) == [WorkerResult(a), WorkerResult(b)];
  }

  /** The worker sends 2 for 4, which is 2 times 2. */
  lemma WorkerResultOfFour()
    ensures WorkerResult(4) == 2
  {
    assert IsPrime(2);
    forall q | IsPrime(q) && 4 % q == 0
      ensures q <= 2
    {
      DivisorAtMost(4, q);
      assert q != 3 && q != 4 by {
        assert 4 % 2 == 0;
      }
    }
    LargestPrimeDivisorUnique(4, 2);
    WorkerResultIsLargestPrimeDivisor(4);
  }

  /** The empty input prints 0. */
  lemma ScenarioEmpty()
    ensures ExpectedOutput([]) == 0
  {
  }

  /** A non-positive input value contributes itself unchanged. */
  lemma PassThrough(input: seq<int>, v: int)
    requires v < 1
    ensures ExpectedOutput(input + [v]) == ExpectedOutput(input) + v
  {
    ResultsConcat(input, [v]);
    SeqSumConcat(Results(input), [v]);
    assert Results([v]) == [v];
    assert [v][..0] == [];
  }
}
