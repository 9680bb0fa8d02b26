/** The writer and aggregator (`TWriteActor`): it adds every value it is sent
    to `Sum`, which starts at 0, and on the poison pill writes `Sum` to the
    output and passes away. The output stream is modelled as the sequence of
    values written to it. */
module WriterActor {
  import opened Sums

  class WriteActor {
    var Sum: int
    /** The values written to the standard output, in order. */
    var Output: seq<int>
    /** `PassAway` has been called: the runtime delivers nothing more. */
    var Stopped: bool

    /** The values received so far, in order of arrival. */
    ghost var Received: seq<int>

    /** `Sum` is the sum of the values received; the output holds that sum,
        once, exactly when the writer has stopped. */
    ghost predicate Valid()
      reads this
    {
      && Sum == SeqSum(Received)
      && Output == (if Stopped then [Sum] else [])
    }

    constructor ()
      ensures Valid() && Received == [] && Sum == 0 && !Stopped
    {
      Sum, Output, Stopped := 0, [], false;
      Received := [];
    }

    /** Add one result to the running sum. */
    method HandleWriteValueRequest(value: int)
      requires Valid() && !Stopped
      modifies this`Sum, this`Received
      ensures Valid()
      ensures Received == old(Received) + [value] && Sum == old(Sum) + value
    {
      assert (Received + [value])[..|Received|] == Received;
      Sum := Sum + value;
      Received := Received + [value];
    }

    /** Write the sum of everything received and pass away. */
    method HandlePoisonPill()
      requires Valid() && !Stopped
      modifies this`Output, this`Stopped
      ensures Valid() && Stopped && Output == [SeqSum(Received)]
    {
      Output := Output + [Sum];
      Stopped := true;
    }
  }
}
