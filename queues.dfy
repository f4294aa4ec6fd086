/**
 * Bookkeeping of the active download queues: the command-line front end
 * registers each queue it creates and forgets it when the queue reports
 * that it has finished.
 */
module Queues {

  /** The first occurrence of `x` taken out of `s`; `s` itself when `x` is absent. */
  function RemoveFirst<T(==)>(s: seq<T>, x: T): seq<T>
  {
    if s == [] then []
    else if s[0] == x then s[1..]
    else [s[0]] + RemoveFirst(s[1..], x)
  }

  /** The position of the first occurrence of `x` in `s`, or `|s|` when there is none. */
  function FirstIndex<T(==)>(s: seq<T>, x: T): (k: nat)
    ensures k <= |s|
    ensures k < |s| ==> s[k] == x
    ensures forall j :: 0 <= j < k ==> s[j] != x
    ensures k == |s| <==> x !in s
  {
    if s == [] then 0
    else if s[0] == x then 0
    else 1 + FirstIndex(s[1..], x)
  }

  /** Removal cuts out exactly the first occurrence: what precedes it and what follows it stay, in order. */
  lemma {:induction false} RemoveFirstSplits<T>(s: seq<T>, x: T)
    ensures x !in s ==> RemoveFirst(s, x) == s
    ensures x in s ==> RemoveFirst(s, x) == s[..FirstIndex(s, x)] + s[FirstIndex(s, x) + 1..]
  {
    if s == [] {
    } else if s[0] == x {
      assert FirstIndex(s, x) == 0;
    } else {
      var t := s[1..];
      RemoveFirstSplits(t, x);
      assert RemoveFirst(s, x) == [s[0]] + RemoveFirst(t, x);
      if x in s {
        assert x in t;
        var k := FirstIndex(t, x);
        assert FirstIndex(s, x) == k + 1;
        assert s[..k + 1] == [s[0]] + t[..k];
        assert s[k + 2..] == t[k + 1..];
      } else {
        assert x !in t;
        assert s == [s[0]] + t;
      }
    }
  }

  /** Removal takes one copy of `x` out of the contents, if there is one, and nothing else. */
  lemma {:induction false} RemoveFirstMultiset<T>(s: seq<T>, x: T)
    ensures multiset(RemoveFirst(s, x)) == multiset(s) - multiset{x}
  {
    if s != [] {
      assert s == [s[0]] + s[1..];
      if s[0] != x {
        RemoveFirstMultiset(s[1..], x);
      }
    }
  }

  /** The deque after the queues in `finished` report, in that order. */
  function FinishAll<T(==)>(s: seq<T>, finished: seq<T>): seq<T>
    decreases finished
  {
    if finished == [] then s else FinishAll(RemoveFirst(s, finished[0]), finished[1..])
  }

  /** After a run of finish reports, what is left is what was there minus what reported. */
  lemma {:induction false} FinishAllMultiset<T>(s: seq<T>, finished: seq<T>)
    ensures multiset(FinishAll(s, finished)) == multiset(s) - multiset(finished)
    decreases finished
  {
    if finished != [] {
      var x, rest := finished[0], finished[1..];
      RemoveFirstMultiset(s, x);
      FinishAllMultiset(RemoveFirst(s, x), rest);
      assert finished == [x] + rest;
      assert multiset(finished) == multiset{x} + multiset(rest);
      assert FinishAll(s, finished) == FinishAll(RemoveFirst(s, x), rest);
      DifferenceOfSum(multiset(s), multiset{x}, multiset(rest));
    }
  }

  /**
   * Taking away two multisets one after the other is taking away their sum.
   * Dafny knows this unaided; it stands apart only to keep the inductive step
   * of FinishAllMultiset cheap for the solver.
   */
  lemma DifferenceOfSum<T>(a: multiset<T>, b: multiset<T>, c: multiset<T>)
    ensures (a - b) - c == a - (b + c)
  {
  }

  /**
   * Once every queue in the deque has reported finished (in any order, with
   * repeated reports allowed), the deque is empty. Since Cli.OnQueueFinished
   * ensures `queues == RemoveFirst(old(queues), queue)`, a series of its calls
   * leaves exactly FinishAll of the deque and the reported queues.
   */
  lemma AllFinishedEmpty<T>(s: seq<T>, finished: seq<T>)
    requires multiset(s) <= multiset(finished)
    ensures FinishAll(s, finished) == []
  {
    FinishAllMultiset(s, finished);
    assert multiset(FinishAll(s, finished)) == multiset{};
  }

  /**
   * One download queue as the front end sees it: its name, its display
   * parent, the files it fetches, where it writes and caches them, and the
   * listener it reports to. Its transfers are not part of this model.
   */
  class DownloadQueue {
    const name: string
    const parent: string
    const files: seq<string>
    const basePath: string
    const cachePath: string
    const listener: Cli

    constructor (name: string, parent: string, listener: Cli, files: seq<string>, basePath: string, cachePath: string)
      ensures this.name == name && this.parent == parent && this.listener == listener
      ensures this.files == files && this.basePath == basePath && this.cachePath == cachePath
    {
      this.name := name;
      this.parent := parent;
      this.listener := listener;
      this.files := files;
      this.basePath := basePath;
      this.cachePath := cachePath;
    }
  }

  /** The command-line front end as a queue listener: it owns the deque of active queues. */
  class Cli {
    var queues: seq<DownloadQueue>

    constructor ()
      ensures queues == []
    {
      queues := [];
    }

    /** Creates a queue that reports to this front end and appends it, last, to the deque. */
    method SubmitNewQueue(queueName: string, parent: string, files: seq<string>, basePath: string, cachePath: string)
      returns (q: DownloadQueue)
      modifies this
      ensures fresh(q) && q.listener == this
      ensures q.name == queueName && q.parent == parent && q.files == files
      ensures q.basePath == basePath && q.cachePath == cachePath
      ensures queues == old(queues) + [q]
    {
      q := new DownloadQueue(queueName, parent, this, files, basePath, cachePath);
      queues := queues + [q];
    }

    /**
     * A queue reports that it has finished: its first occurrence leaves the
     * deque (a report for a queue no longer there changes nothing), and
     * `allComplete` tells whether the deque is now empty.
     */
    method OnQueueFinished(queue: DownloadQueue) returns (allComplete: bool)
      modifies this
      ensures queues == RemoveFirst(old(queues), queue)
      ensures allComplete <==> queues == []
    {
      var i := 0;
      while i < |queues| && queues[i] != queue
        invariant i <= |queues|
        invariant forall j :: 0 <= j < i ==> queues[j] != queue
      {
        i := i + 1;
      }
      RemoveFirstSplits(queues, queue);
      if i < |queues| {
        assert i == FirstIndex(queues, queue);
        queues := queues[..i] + queues[i + 1..];
      }
      allComplete := |queues| == 0;
    }
  }
}
