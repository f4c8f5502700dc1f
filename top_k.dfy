/** The bounded "largest entries" machinery the analysers build on: a
    priority queue ordered by a size rank (java.util.PriorityQueue over
    entries whose compareTo looks at the size alone), the dominance
    invariant that a bounded top-K selection keeps, and the descending sort
    that turns the queue into a report. */
module TopK {

  /** Every entry dropped so far is no larger than any entry kept. */
  ghost predicate Dominates<T>(dropped: multiset<T>, kept: multiset<T>, rank: T -> nat)
  {
    forall d, h :: d in dropped && h in kept ==> rank(d) <= rank(h)
  }

  /** m is a smallest element of s. */
  ghost predicate IsMin<T>(m: T, s: multiset<T>, rank: T -> nat)
  {
    m in s && forall y :: y in s ==> rank(m) <= rank(y)
  }

  /** Non-increasing by rank. */
  ghost predicate Descending<T>(s: seq<T>, rank: T -> nat)
  {
    forall i, j :: 0 <= i < j < |s| ==> rank(s[i]) >= rank(s[j])
  }

  /** Index of a smallest element (the first one, for definiteness). */
  method MinIndex<T>(s: seq<T>, rank: T -> nat) returns (k: nat)
    requires |s| > 0
    ensures k < |s|
    ensures forall i :: 0 <= i < |s| ==> rank(s[k]) <= rank(s[i])
  {
    k := 0;
    var i := 1;
    while i < |s|
      invariant k < i <= |s|
      invariant forall j :: 0 <= j < i ==> rank(s[k]) <= rank(s[j])
    {
      if rank(s[i]) < rank(s[k]) {
        k := i;
      }
      i := i + 1;
    }
  }

  /** A min-priority queue. Its abstract state is the multiset Contents();
      `elems` is the order its iterator (and a list copied from it) yields
      the entries, which the source leaves unspecified. */
  class MinQueue<T(==)> {
    const rank: T -> nat
    var elems: seq<T>

    function Contents(): multiset<T>
      reads this
    {
      multiset(elems)
    }

    function Size(): (n: nat)
      reads this
      ensures n == |Contents()|
    {
      |elems|
    }

    constructor (rank: T -> nat)
      ensures this.rank == rank && Contents() == multiset{}
    {
      this.rank := rank;
      elems := [];
    }

    method Offer(x: T)
      modifies this
      ensures Contents() == old(Contents()) + multiset{x}
    {
      elems := elems + [x];
    }

    /** The head of the queue: an entry of smallest rank. */
    method Peek() returns (m: T)
      requires Size() > 0
      ensures IsMin(m, Contents(), rank)
    {
      var k := MinIndex(elems, rank);
      m := elems[k];
    }

    /** Removes and returns the head of the queue. */
    method Poll() returns (m: T)
      requires Size() > 0
      modifies this
      ensures IsMin(m, old(Contents()), rank)
      ensures Contents() == old(Contents()) - multiset{m}
    {
      var k := MinIndex(elems, rank);
      m := elems[k];
      assert elems == elems[..k] + [m] + elems[k + 1..];
      elems := elems[..k] + elems[k + 1..];
    }
  }

  /** Offering to a queue and then polling its head keeps every dropped entry
      at or below every kept one. */
  lemma OfferPollKeepsDominance<T>(dropped: multiset<T>, kept: multiset<T>, x: T, m: T, rank: T -> nat)
    requires Dominates(dropped, kept, rank)
    requires IsMin(m, kept + multiset{x}, rank)
    ensures Dominates(dropped + multiset{m}, (kept + multiset{x}) - multiset{m}, rank)
  {
    var kept' := (kept + multiset{x}) - multiset{m};
    forall d, h | d in dropped + multiset{m} && h in kept'
      ensures rank(d) <= rank(h)
    {
      assert h in kept + multiset{x};
      if d != m && h !in kept {
        assert h == x;
        assert m != x;
        assert m in kept;
      }
    }
  }

  /** On a full queue, a strictly larger entry replaces the head. */
  lemma ReplaceMinKeepsDominance<T>(dropped: multiset<T>, kept: multiset<T>, x: T, m: T, rank: T -> nat)
    requires Dominates(dropped, kept, rank)
    requires IsMin(m, kept, rank) && rank(m) < rank(x)
    ensures Dominates(dropped + multiset{m}, (kept - multiset{m}) + multiset{x}, rank)
  {
    forall d, h | d in dropped + multiset{m} && h in (kept - multiset{m}) + multiset{x}
      ensures rank(d) <= rank(h)
    {
      if h != x {
        assert h in kept;
      }
    }
  }

  /** Replacing a kept entry by a new one moves it to the dropped ones and
      keeps the count. */
  lemma ReplaceCounts<T>(kept: multiset<T>, dropped: multiset<T>, m: T, x: T)
    requires m in kept
    ensures ((kept - multiset{m}) + multiset{x}) + (dropped + multiset{m}) == kept + dropped + multiset{x}
    ensures |(kept - multiset{m}) + multiset{x}| == |kept|
  {
    assert kept == (kept - multiset{m}) + multiset{m};
  }

  /** On a full queue, an entry no larger than the head is dropped. */
  lemma DiscardKeepsDominance<T>(dropped: multiset<T>, kept: multiset<T>, x: T, m: T, rank: T -> nat)
    requires Dominates(dropped, kept, rank)
    requires IsMin(m, kept, rank) && rank(x) <= rank(m)
    ensures Dominates(dropped + multiset{x}, kept, rank)
  {
  }

  /** When nothing kept is dominated, a largest kept entry is a largest entry
      overall. */
  lemma KeptMaxIsOverallMax<T>(dropped: multiset<T>, kept: multiset<T>, top: T, rank: T -> nat)
    requires Dominates(dropped, kept, rank)
    requires top in kept && forall y :: y in kept ==> rank(y) <= rank(top)
    ensures forall y :: y in kept + dropped ==> rank(y) <= rank(top)
  {
  }

  /** A list copied from the queue's iteration order, then sorted largest
      first. */
  method SortedCopy<T>(iteration: seq<T>, rank: T -> nat) returns (sorted: seq<T>)
    ensures Descending(sorted, rank)
    ensures multiset(sorted) == multiset(iteration)
  {
    var a := new T[|iteration|](i requires 0 <= i < |iteration| => iteration[i]);
    assert a[..] == iteration;
    SortDescending(a, rank);
    sorted := a[..];
  }

  /** In-place descending sort by rank (the list sorts of both analysers). */
  method SortDescending<T>(a: array<T>, rank: T -> nat)
    modifies a
    ensures Descending(a[..], rank)
    ensures multiset(a[..]) == old(multiset(a[..]))
  {
    var i := 0;
    while i < a.Length
      invariant 0 <= i <= a.Length
      invariant forall p, q :: 0 <= p < q < i ==> rank(a[p]) >= rank(a[q])
      invariant multiset(a[..]) == old(multiset(a[..]))
    {
      InsertInto(a, i, rank);
      i := i + 1;
    }
  }

  /** One insertion step: moves a[i] left past the smaller entries, so that
      the sorted prefix grows by one. */
  method InsertInto<T>(a: array<T>, i: nat, rank: T -> nat)
    requires i < a.Length
    requires forall p, q :: 0 <= p < q < i ==> rank(a[p]) >= rank(a[q])
    modifies a
    ensures forall p, q :: 0 <= p < q <= i ==> rank(a[p]) >= rank(a[q])
    ensures multiset(a[..]) == old(multiset(a[..]))
  {
    var j := i;
    while 0 < j && rank(a[j - 1]) < rank(a[j])
      invariant 0 <= j <= i
      invariant forall p, q :: 0 <= p < q <= i && p != j && q != j ==> rank(a[p]) >= rank(a[q])
      invariant forall q :: j < q <= i ==> rank(a[j]) > rank(a[q])
      invariant 0 < j < i ==> rank(a[j - 1]) >= rank(a[j + 1])
      invariant multiset(a[..]) == old(multiset(a[..]))
    {
      Swap(a, j - 1, j);
      j := j - 1;
    }
  }

  method Swap<T>(a: array<T>, i: nat, j: nat)
    requires i < j < a.Length
    modifies a
    ensures a[i] == old(a[j]) && a[j] == old(a[i])
    ensures forall k :: 0 <= k < a.Length && k != i && k != j ==> a[k] == old(a[k])
    ensures multiset(a[..]) == old(multiset(a[..]))
  {
    a[i], a[j] := a[j], a[i];
  }

  /** Total rank of a sequence of entries. */
  function SumRank<T>(s: seq<T>, rank: T -> nat): nat
  {
    if s == [] then 0 else rank(s[0]) + SumRank(s[1..], rank)
  }

  lemma {:induction false} SumRankAppend<T>(s: seq<T>, x: T, rank: T -> nat)
    ensures SumRank(s + [x], rank) == SumRank(s, rank) + rank(x)
  {
    if s == [] {
      assert [x][1..] == [];
    } else {
      assert (s + [x])[1..] == s[1..] + [x];
      SumRankAppend(s[1..], x, rank);
    }
  }

  lemma {:induction false} SumRankRemove<T>(s: seq<T>, k: nat, rank: T -> nat)
    requires k < |s|
    ensures SumRank(s, rank) == rank(s[k]) + SumRank(s[..k] + s[k + 1..], rank)
  {
    if k == 0 {
      assert s[..0] + s[1..] == s[1..];
    } else {
      var t := s[1..];
      SumRankRemove(t, k - 1, rank);
      assert s[..k] + s[k + 1..] == [s[0]] + (t[..k - 1] + t[k..]);
      assert ([s[0]] + (t[..k - 1] + t[k..]))[1..] == t[..k - 1] + t[k..];
    }
  }

  /** The total does not depend on the order the entries are visited in. */
  lemma {:induction false} SumRankPermutation<T>(a: seq<T>, b: seq<T>, rank: T -> nat)
    requires multiset(a) == multiset(b)
    ensures SumRank(a, rank) == SumRank(b, rank)
    decreases |a|
  {
    if a == [] {
      assert |b| == |multiset(b)| == 0;
    } else {
      assert a[0] in multiset(b);
      var k :| 0 <= k < |b| && b[k] == a[0];
      SumRankRemove(b, k, rank);
      var rest := b[..k] + b[k + 1..];
      assert b == b[..k] + [b[k]] + b[k + 1..];
      assert a == [a[0]] + a[1..];
      calc {
        multiset(a[1..]);
        multiset(a) - multiset{a[0]};
        multiset(b) - multiset{b[k]};
        { assert multiset(b) == multiset(b[..k]) + multiset{b[k]} + multiset(b[k + 1..]); }
        multiset(rest);
      }
      SumRankPermutation(a[1..], rest, rank);
    }
  }
}
