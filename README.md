# Actor-model prime pipeline, modelled in Dafny

This project models the data path of the actor pipeline in
`tools/actor_model/actors.cpp`. The pipeline has three actors:

- **Reader** (`TReadActor`). It reads integers one at a time. For each value it
  registers a largest-prime-divisor worker and counts it in `PendingActors`. It
  sends the writer a poison pill once the input is exhausted (`Finished`) and no
  worker is outstanding.
- **Worker** (`TMaximumPrimeDevisorActor`). It computes the largest prime divisor
  of its value by trial division over its fields `Value`, `CurrentDevisor` and
  `LargestPrimeDevisor`. It splits the loop into turns, waking itself up again
  whenever a turn runs over its time budget. When done, it sends its result to the
  writer and a done notice to the reader, then passes away. A non-positive value is
  passed through unchanged.
- **Writer** (`TWriteActor`). It adds every value it receives to `Sum`. On the
  poison pill it writes `Sum` out and passes away.

Each actor is a Dafny class with the fields of its C++ counterpart. Two more fields stand in
for runtime calls:

- `Outbox` is the sequence of what the actor hands to the runtime (`Send`,
  `Register`).
- `Stopped` records `PassAway`.

Every handler is a method whose `ensures` states what was appended to the
outbox and, for the reader and the writer, the new fields. The worker's
`ensures` gives its fields while it is dividing and leaves them untouched on a
non-positive input; after its finishing turn the class invariant `Valid()`
states that `LargestPrimeDevisor` holds the result.

The trial division is also written as pure functions over a `Trial` value
(factorization.dfy):

- `Next` is one iteration.
- `Advance` is one turn of at most `k` iterations.
- `Complete` is the whole loop.
- `Outcome` is the value sent.

The loop invariant, termination, correctness and independence from how the loop
is split into turns are proved about these functions. The worker's loop is then
proved to follow them step by step. The reference result is
`Primes.LargestPrimeDivisor`, defined from primality and divisibility alone.

`Pipeline.RunPipeline` wires the three classes together. It uses a driver that
picks the next step from a schedule given as a parameter: the reader's next read,
or the completion of any pending worker. For every schedule and every slicing of
the workers into turns, it proves three things:

- the writer outputs exactly one number, the sum of the per-input results;
- the reader registers one worker per input value, in order;
- the reader sends the poison pill exactly once, as its last message.

Files:

- `primes.dfy`: divisibility, primality, Euclid's lemma and the reference largest prime divisor.
- `factorization.dfy`: the trial-division step functions, the loop invariant and the worker's result.
- `events.dfy`: the messages, and what an actor hands to the runtime.
- `sums.dfy`: sums of sequences, and their independence from order.
- `worker.dfy`, `reader.dfy`, `writer.dfy`: the three actor classes.
- `pipeline.dfy`: the whole pipeline and the concrete scenarios.

## Model

| member | source | states |
|---|---|---|
| Primes.LargestPrimeDivisor | tools/actor_model/actors.cpp:98-102 | the reference result: 1 exactly for input 1; for n >= 2 a prime divisor of n, at most n; and every prime divisor of n is at most it |
| Primes.LargestPrimeDivisorUnique | tools/actor_model/actors.cpp:98-102 | a prime divisor of n that every prime divisor of n is at most is the largest prime divisor |
| Factorization.Next | tools/actor_model/actors.cpp:84-90 | one loop iteration keeps `Value >= 1` and `CurrentDevisor >= 2`, and makes progress: either `Value` shrinks to `Value / CurrentDevisor` with the candidate kept, or the candidate grows by one while still at most `Value` |
| Factorization.Advance | tools/actor_model/actors.cpp:84-95 | one turn of at most `k` iterations, stopping early when the guard fails, keeps the fields well formed (value at least 1, candidate at least 2); `AdvanceSplit`, `AdvanceConsumes` and `CompleteAfterAdvance` give its meaning across turns |
| Factorization.Complete | tools/actor_model/actors.cpp:84-96 | the loop run to its exit ends well formed with the guard `CurrentDevisor * CurrentDevisor <= Value` false; `CompleteFindsLargestPrimeDivisor` gives its result |
| Factorization.Remaining | tools/actor_model/actors.cpp:84-96 | no `ensures`: the number of iterations left before the guard fails, a `nat`, so the loop terminates from every well-formed state; `AdvanceConsumes` states that a turn of `k` iterations uses up min(k, remaining) of them |
| Factorization.Outcome | tools/actor_model/actors.cpp:98-102 | no `ensures`: the residue if above 1, else the last factor divided out; `OutcomeAtExit` states that at loop exit this is the largest prime divisor |
| Factorization.WorkerResult | tools/actor_model/actors.cpp:76-102 | no `ensures`: the value a worker sends for its input; `WorkerResultIsLargestPrimeDivisor` states that it is the largest prime divisor of a positive input, and `PassThrough` that a non-positive input is sent unchanged |
| Factorization.NextKeepsInv | tools/actor_model/actors.cpp:84-90 | each iteration preserves the loop invariant: the input is the product of the factors divided out times `Value`; those factors are primes, ordered, and at most the candidate; `LargestPrimeDevisor` is 1 or the last of them; `Value` has no divisor in `[2, CurrentDevisor)`; every prime divisor of the input is covered by `LargestPrimeDevisor` or still divides `Value`. The candidate and `LargestPrimeDevisor` never decrease |
| Factorization.DivideKeepsInv | tools/actor_model/actors.cpp:85-87 | the dividing branch keeps the invariant, with the candidate appended to the factors divided out |
| Factorization.OutcomeAtExit | tools/actor_model/actors.cpp:98-102 | once the guard fails with the invariant holding, the value sent (the residue if above 1, else `LargestPrimeDevisor`) is the largest prime divisor of the input |
| Factorization.CompleteFindsLargestPrimeDivisor | tools/actor_model/actors.cpp:84-102 | running the loop to its exit from any state satisfying the invariant sends the largest prime divisor |
| Factorization.WorkerResultIsLargestPrimeDivisor | tools/actor_model/actors.cpp:63-102 | from the constructor's fields (`CurrentDevisor` 2, `LargestPrimeDevisor` 1), a positive input yields its largest prime divisor |
| Factorization.AdvanceSplit | tools/actor_model/actors.cpp:84-95 | a turn of a iterations followed by a turn of b iterations leaves the same fields as one turn of a + b iterations |
| Factorization.CompleteAfterAdvance | tools/actor_model/actors.cpp:91-95 | finishing the loop after a yielding turn gives the same final fields as an uninterrupted run |
| Factorization.AdvanceConsumes | tools/actor_model/actors.cpp:84-95 | a turn of at most k iterations uses up exactly k of the remaining iterations, or all of them when fewer remain, so the loop terminates across turns |
| Factorization.WorkerResultOfOne | tools/actor_model/actors.cpp:63-102 | input 1 is sent as 1 |
| Factorization.WorkerResultOfPrime | tools/actor_model/actors.cpp:84-102 | a prime input is sent unchanged |
| Factorization.WorkerResultIdempotent | tools/actor_model/actors.cpp:76-102 | feeding a worker's result to a new worker gives the same result |
| Events.Finale | tools/actor_model/actors.cpp:102-103 | no `ensures`: the two messages of a finishing worker, its result to the writer then the done notice to the reader; `WorkerActor.MaximumPrimeDevisorActor.Finish` and `WorkerActor.RunWorker` state that they are the last two messages sent |
| WorkerActor.MaximumPrimeDevisorActor.constructor | tools/actor_model/actors.cpp:60-68 | fields start at the input, 2 and 1, with nothing sent, and the worker invariant holds |
| WorkerActor.MaximumPrimeDevisorActor.Bootstrap | tools/actor_model/actors.cpp:70-73 | the worker sends itself one wake-up |
| WorkerActor.MaximumPrimeDevisorActor.Finish | tools/actor_model/actors.cpp:102-104 | appends the value for the writer and then the done notice for the reader, and stops |
| WorkerActor.MaximumPrimeDevisorActor.HandleWakeUp | tools/actor_model/actors.cpp:75-105 | a non-positive `Value` is sent unchanged, followed by the done notice, and the worker stops without iterating, its fields unchanged. Otherwise a turn either yields, with the fields advanced by budget + 1 iterations, fewer iterations left than before, and only a self wake-up sent; or it finishes within the budget, with the guard failing and exactly the largest prime divisor then done sent; the kept invariant then puts that result in `LargestPrimeDevisor` |
| WorkerActor.MaximumPrimeDevisorActor.Divide | tools/actor_model/actors.cpp:84-96 | the loop with its yield: the fields equal the pure turn function applied to the old fields, the invariant holds, and a wake-up is sent exactly when the turn ran over its budget |
| WorkerActor.MaximumPrimeDevisorActor.Iterate | tools/actor_model/actors.cpp:85-90 | the loop body updates the fields as one pure iteration does and keeps the invariant |
| WorkerActor.RunWorker | tools/actor_model/actors.cpp:70-105 | for any sequence of turn budgets, the worker sends only self wake-ups, then exactly one value (the worker result) to the writer and exactly one done notice to the reader, in that order; a non-positive input finishes on its first turn |
| ReaderActor.ReadActor.constructor | tools/actor_model/actors.cpp:10-16 | not finished, nothing pending, nothing sent |
| ReaderActor.ReadActor.Bootstrap | tools/actor_model/actors.cpp:18-21 | the reader sends itself one wake-up |
| ReaderActor.ReadActor.HandleWakeUp | tools/actor_model/actors.cpp:23-35 | a read value registers exactly one worker for it, increments `PendingActors` by one and re-wakes the reader. End of input sets `Finished`; the poison pill is sent, and the reader stops, exactly when `PendingActors` is 0. `PendingActors` stays the number of workers registered minus dones received, and the pill is sent at most once |
| ReaderActor.ReadActor.HandleDone | tools/actor_model/actors.cpp:37-42 | decrements `PendingActors` by one; the poison pill is sent, and the reader stops, exactly when `Finished` holds and `PendingActors` reaches 0 |
| ReaderActor.ReadActor.SendPoisonPill | tools/actor_model/actors.cpp:44-47 | appends exactly one poison pill for the writer and stops, registering nothing |
| ReaderActor.EmptyInput | tools/actor_model/actors.cpp:18-35 | with empty input the reader sends its wake-up and then the poison pill, registering no worker |
| WriterActor.WriteActor.constructor | tools/actor_model/actors.cpp:117-120 | `Sum` starts at 0 with nothing received or written |
| WriterActor.WriteActor.HandleWriteValueRequest | tools/actor_model/actors.cpp:122-124 | adds the value to `Sum`, which stays the sum of all values received |
| WriterActor.WriteActor.HandlePoisonPill | tools/actor_model/actors.cpp:126-130 | writes exactly one number, the sum of all values received, and stops |
| Sums.SeqSum | tools/actor_model/actors.cpp:123 | no `ensures`: the writer's `Sum` after receiving `s`, added front to back; `SeqSumConcat` and `SeqSumPermutation` state that it splits over concatenation and does not depend on arrival order |
| Sums.SeqSumConcat | tools/actor_model/actors.cpp:122-124 | the running sum of a concatenation is the sum of the parts |
| Sums.SeqSumPermutation | tools/actor_model/actors.cpp:122-124 | the sum does not depend on the order in which values arrive |
| Pipeline.Results | tools/actor_model/actors.cpp:25-28 | one result per value read, as many as there are inputs; `ResultAt` and `ResultsAreLargestPrimeDivisors` give each element |
| Pipeline.ExpectedOutput | tools/actor_model/actors.cpp:127 | no `ensures`: the number the writer prints, the sum of the per-input results; `Shutdown` and `RunPipeline` state that it is what is printed |
| Pipeline.ResultAt | tools/actor_model/actors.cpp:25-28 | the i-th per-input result is the worker result of the i-th value read |
| Pipeline.ResultsAreLargestPrimeDivisors | tools/actor_model/actors.cpp:76-102 | each per-input result is the input itself when it is not positive, and its largest prime divisor otherwise |
| Pipeline.ReadKeepsBalance | tools/actor_model/actors.cpp:25-28 | reading a value adds its result to the pending ones without changing what is accounted for |
| Pipeline.CompletionKeepsBalance | tools/actor_model/actors.cpp:102-104 | a completing worker moves its result from the pending ones to those received by the writer |
| Pipeline.ReadValue | tools/actor_model/actors.cpp:25-28 | the reader's read keeps the run's invariant, with one more value read and one more worker pending |
| Pipeline.RegisterNext | tools/actor_model/actors.cpp:25-28 | the reader's part of a read: the registered values remain the input prefix read so far, and the pending count grows by one |
| Pipeline.ReadEnd | tools/actor_model/actors.cpp:29-33 | end of input keeps the run's invariant and sets `Finished` |
| Pipeline.CompletionStep | tools/actor_model/actors.cpp:37-42 | a worker's completion, with its result delivered to the writer and its done notice to the reader, keeps the run's invariant with one worker fewer pending |
| Pipeline.DeliverResult | tools/actor_model/actors.cpp:122-124 | the writer's part of a completion keeps the received results plus the pending ones equal to the results of the values read |
| Pipeline.DeliverDone | tools/actor_model/actors.cpp:37-42 | the reader's part of a completion: one fewer pending, and it stops exactly when finished with none pending |
| Pipeline.WorkerToCompletion | tools/actor_model/actors.cpp:98-104 | the value a worker sends to the writer is the worker result of its input |
| Pipeline.Shutdown | tools/actor_model/actors.cpp:126-130 | once every result has arrived, in any order, the writer outputs the sum of the per-input results |
| Pipeline.RunPipeline | tools/actor_model/actors.cpp:9-140 | for every schedule and every slicing of the workers into turns, the output is exactly one number, the sum of the per-input results; the reader registers one worker per input value, in input order; the poison pill is sent exactly once, as the reader's last message |
| Pipeline.ScenarioOne | tools/actor_model/actors.cpp:84-102 | input [1] outputs 1 |
| Pipeline.ScenarioSix | tools/actor_model/actors.cpp:84-102 | input [6] outputs 3 |
| Pipeline.ScenarioSeventeen | tools/actor_model/actors.cpp:84-102 | input [17] outputs 17 |
| Pipeline.ScenarioTwoThreeFour | tools/actor_model/actors.cpp:84-102 | input [2, 3, 4] outputs 7 |
| Pipeline.ScenarioEmpty | tools/actor_model/actors.cpp:29-33 | the empty input outputs 0 |
| Pipeline.PassThrough | tools/actor_model/actors.cpp:76-80 | a non-positive input value adds itself, unchanged, to the output |

## Left out

- The watchdog `TSelfPingActor` (actors.cpp:142-171). It only compares wall-clock deltas and aborts the process; nothing in it can be stated without a clock.
- The 10 ms wall-clock budget (actors.cpp:82, 91-92). Each turn instead takes an iteration budget as a parameter and yields right after the iteration that exceeds it. Choosing the budget covers every iteration after which a clock could stop the turn.
- Reading from standard input (actors.cpp:25). The result of each read is a parameter of `ReaderActor.ReadActor.HandleWakeUp`: a value, or the end of input.
- Writing to standard output (actors.cpp:127). The writer's `Output` field records the numbers written.
- `Become`, `SelfId` and the `STFUNC` dispatch. Each handler is its own method, and events a state function ignores are not modelled.
- `Send`, `Register` and `PassAway` are modelled as appends to `Outbox` and as the `Stopped` flag. The runtime's mailboxes, scheduler and threads are not modelled.
- Delivery of a message to an actor that has passed away is excluded by `requires !Stopped` on every handler: the runtime never delivers such messages.
- The global `ShouldContinue` and its `ShouldStop` call (actors.cpp:7, 128, 189-191), and the factory functions (actors.cpp:173-187).
- Pipeline.RunPipeline: runs each worker's turns back to back and delivers its two final messages at once. Workers share no state, so interleaving their turns with other actors' steps would not change what they send, but this is not proved. The order in which workers complete is fully arbitrary. The model also assumes that each worker's result reaches the writer before the reader's poison pill, which the reader sends only after that worker's done notice; first-in first-out delivery per sender and receiver does not guarantee this across two senders, and a pill that overtook a result would leave it out of the sum.
- Pipeline.DeliverDone: requires at least one worker pending. The pipeline only delivers a done notice from a registered worker; the reader's own `HandleDone` has no such precondition.
- Factorization.Next: integers are unbounded, so the signed 64-bit overflow of `CurrentDevisor * CurrentDevisor` for inputs near the top of the range is not modelled.
- ReaderActor.ReadActor.HandleWakeUp: `PendingActors` is unbounded, so the 32-bit `int` of actors.cpp:12 and its overflow past 2^31 - 1 workers pending at once are not modelled.
- WriterActor.WriteActor.HandleWriteValueRequest: `Sum` is unbounded, so the wrap-around of the unchecked 64-bit `Sum +=` is not modelled.
