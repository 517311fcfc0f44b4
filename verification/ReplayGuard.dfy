/** The message counter and the replay guard of crypto/counters. */
module ReplayGuard {
  import opened Sequences

  class MessageCounter {
    var counter: int

    constructor ()
      ensures counter == 0
    {
      counter := 0;
    }

    method Next() returns (n: int)
      modifies this
      ensures n == counter == old(counter) + 1
    {
      counter := counter + 1;
      return counter;
    }

    method Reset()
      modifies this
      ensures counter == 0
    {
      counter := 0;
    }
  }

  /** The guard's state after one counter, and whether it was accepted. */
  function LastAfter(last: int, received: int): int {
    if received <= last then last else received
  }

  class ReplayProtection {
    var lastCounter: int

    constructor ()
      ensures lastCounter == 0
    {
      lastCounter := 0;
    }

    method Validate(receivedCounter: int) returns (ok: bool)
      modifies this
      ensures lastCounter == LastAfter(old(lastCounter), receivedCounter)
      ensures ok <==> receivedCounter > old(lastCounter)
    {
      if receivedCounter <= lastCounter {
        return false;
      }
      lastCounter := receivedCounter;
      return true;
    }
  }

  // ---------- The guard over a whole run ----------

  /** lastCounter after a guard that began at `last` received all of xs. */
  function LastAfterAll(last: int, xs: seq<int>): int {
    if xs == [] then last else LastAfter(LastAfterAll(last, Init(xs)), Last(xs))
  }

  /** The guard's answers, one for each counter received. */
  function Answers(last: int, xs: seq<int>): (answers: seq<bool>)
    ensures |answers| == |xs|
  {
    if xs == [] then [] else Answers(last, Init(xs)) + [Last(xs) > LastAfterAll(last, Init(xs))]
  }

  /** Larger than `last` and than everything received earlier: what a guard that forgets nothing would demand. */
  ghost predicate NewMaximum(last: int, xs: seq<int>, i: nat)
    requires i < |xs|
  {
    xs[i] > last && forall j :: 0 <= j < i ==> xs[j] < xs[i]
  }

  /** The one integer kept is the maximum of the initial value and everything received. */
  lemma {:induction false} LastIsMaximum(last: int, xs: seq<int>)
    ensures LastAfterAll(last, xs) == last || LastAfterAll(last, xs) in xs
    ensures last <= LastAfterAll(last, xs)
    ensures forall x :: x in xs ==> x <= LastAfterAll(last, xs)
  {
    if xs != [] {
      LastIsMaximum(last, Init(xs));
      assert forall x :: x in xs ==> x in Init(xs) || x == Last(xs);
      assert forall x :: x in Init(xs) ==> x in xs;
    }
  }

  lemma {:induction false} AnswerAt(last: int, xs: seq<int>, i: nat)
    requires i < |xs|
    ensures Answers(last, xs)[i] <==> xs[i] > LastAfterAll(last, xs[..i])
    decreases |xs|
  {
    if i < |xs| - 1 {
      AnswerAt(last, Init(xs), i);
      assert Init(xs)[..i] == xs[..i];
    }
  }

  /** One integer is as good as a full memory: the guard accepts exactly the strict new maxima. */
  lemma {:induction false} AcceptsExactlyNewMaxima(last: int, xs: seq<int>, i: nat)
    requires i < |xs|
    ensures Answers(last, xs)[i] <==> NewMaximum(last, xs, i)
  {
    AnswerAt(last, xs, i);
    LastIsMaximum(last, xs[..i]);
    assert forall j :: 0 <= j < i ==> xs[..i][j] == xs[j] && xs[j] in xs[..i];
  }

  /** No counter is accepted twice, however the frames are reordered, lost or duplicated. */
  lemma {:induction false} NeverAcceptedTwice(last: int, xs: seq<int>, i: nat, j: nat)
    requires i < j < |xs| && Answers(last, xs)[i] && Answers(last, xs)[j]
    ensures xs[i] < xs[j]
  {
    AcceptsExactlyNewMaxima(last, xs, j);
  }

  lemma {:induction false} FirstOccurrence(xs: seq<int>, x: int) returns (i: nat)
    requires x in xs
    ensures i < |xs| && xs[i] == x && x !in xs[..i]
  {
    if x in Init(xs) {
      i := FirstOccurrence(Init(xs), x);
      assert Init(xs)[..i] == xs[..i];
    } else {
      i := |xs| - 1;
    }
  }

  /** The largest counter delivered, if above the initial value, is accepted once and only once. */
  lemma {:induction false} LargestAcceptedOnce(last: int, xs: seq<int>, x: int)
    requires x in xs && x > last && forall y :: y in xs ==> y <= x
    ensures exists i: nat :: i < |xs| && xs[i] == x && Answers(last, xs)[i]
                             && forall j: nat :: j < |xs| && xs[j] == x && Answers(last, xs)[j] ==> j == i
  {
    var i := FirstOccurrence(xs, x);
    forall j | 0 <= j < i ensures xs[j] < xs[i] {
      assert xs[j] in xs && xs[j] in xs[..i];
    }
    AcceptsExactlyNewMaxima(last, xs, i);
    forall j: nat | j < |xs| && xs[j] == x && Answers(last, xs)[j] ensures j == i {
      AcceptsExactlyNewMaxima(last, xs, j);
    }
  }

  /** Counters that only increase are all accepted. */
  lemma {:induction false} IncreasingAllAccepted(last: int, xs: seq<int>)
    requires StrictlyIncreasing(xs) && forall x :: x in xs ==> x > last
    ensures forall i :: 0 <= i < |xs| ==> Answers(last, xs)[i]
  {
    forall i | 0 <= i < |xs| ensures Answers(last, xs)[i] {
      assert xs[i] in xs;
      AcceptsExactlyNewMaxima(last, xs, i);
    }
  }
}
