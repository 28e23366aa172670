/** Jobs that are worked on piece by piece: a queue of pending work, whose head advances or leaves,
    and a ledger per job that outlives it. */
module JobQueue {
  import opened Wrappers

  ghost predicate IsQueued<P>(queue: seq<P>, id: P -> nat, k: nat) {
    exists i :: 0 <= i < |queue| && id(queue[i]) == k
  }

  /** Every ledger is closed or belongs to queued work, and queued work agrees with its ledger. */
  ghost predicate Consistent<P, L>(queue: seq<P>, ledgers: map<nat, L>, next: nat,
                                   id: P -> nat, going: (P, L) -> bool, over: L -> bool)
  {
    && (forall k :: k in ledgers ==> k < next)
    && (forall i :: 0 <= i < |queue| ==> id(queue[i]) in ledgers && going(queue[i], ledgers[id(queue[i])]))
    && (forall i, j :: 0 <= i < j < |queue| ==> id(queue[i]) != id(queue[j]))
    && forall k :: k in ledgers ==> over(ledgers[k]) || IsQueued(queue, id, k)
  }

  lemma HeadIsGoing<P, L>(queue: seq<P>, ledgers: map<nat, L>, next: nat,
                          id: P -> nat, going: (P, L) -> bool, over: L -> bool)
    requires queue != [] && Consistent(queue, ledgers, next, id, going, over)
    ensures id(queue[0]) in ledgers && going(queue[0], ledgers[id(queue[0])])
  {
  }

  function WithHead<P>(queue: seq<P>, head: Option<P>): seq<P>
    requires queue != []
  {
    (if head.Some? then [head.value] else []) + queue[1..]
  }

  /** Moving the head on, or taking it off closed, disturbs no other job. */
  lemma HeadChanged<P, L>(queue: seq<P>, ledgers: map<nat, L>, next: nat,
                          id: P -> nat, going: (P, L) -> bool, over: L -> bool, head: Option<P>, l: L)
    requires queue != [] && Consistent(queue, ledgers, next, id, going, over)
    requires head.Some? ==> id(head.value) == id(queue[0]) && going(head.value, l)
    requires head.None? ==> over(l)
    ensures Consistent(WithHead(queue, head), ledgers[id(queue[0]) := l], next, id, going, over)
  {
    var q, m := WithHead(queue, head), ledgers[id(queue[0]) := l];
    var shift := if head.Some? then 0 else 1;
    assert forall i :: 0 <= i < |q| && i + shift > 0 ==> q[i] == queue[i + shift];
    forall i | 0 <= i < |q|
      ensures id(q[i]) == id(queue[i + shift])
      ensures id(q[i]) in m && going(q[i], m[id(q[i])])
    {
      if i + shift > 0 {
        assert id(queue[0]) != id(queue[i + shift]);
      }
    }
    forall k | k in m
      ensures over(m[k]) || IsQueued(q, id, k)
    {
      if k == id(queue[0]) {
        assert head.Some? ==> id(q[0]) == k;
      } else if !over(ledgers[k]) {
        var i :| 0 <= i < |queue| && id(queue[i]) == k;
        assert id(q[i - shift]) == k;
      }
    }
  }

  /** New work takes the next number and goes to the end, unless its ledger is closed at once. */
  lemma JobAdded<P, L>(queue: seq<P>, ledgers: map<nat, L>, next: nat,
                       id: P -> nat, going: (P, L) -> bool, over: L -> bool, p: P, l: L, idle: bool)
    requires Consistent(queue, ledgers, next, id, going, over)
    requires id(p) == next && (if idle then over(l) else going(p, l))
    ensures Consistent(if idle then queue else queue + [p], ledgers[next := l], next + 1, id, going, over)
  {
    var q, m := if idle then queue else queue + [p], ledgers[next := l];
    assert forall i :: 0 <= i < |queue| ==> q[i] == queue[i];
    forall k | k in m
      ensures over(m[k]) || IsQueued(q, id, k)
    {
      if k == next {
        assert !idle ==> id(q[|queue|]) == k;
      } else if !over(ledgers[k]) {
        var i :| 0 <= i < |queue| && id(queue[i]) == k;
        assert id(q[i]) == k;
      }
    }
  }

  /** The work left in a queue. */
  function Remaining<P>(queue: seq<P>, work: P -> nat): nat {
    if queue == [] then 0 else work(queue[0]) + Remaining(queue[1..], work)
  }

  lemma HeadShrinks<P>(queue: seq<P>, work: P -> nat, head: Option<P>)
    requires queue != [] && work(queue[0]) > (if head.Some? then work(head.value) else 0)
    ensures Remaining(WithHead(queue, head), work) < Remaining(queue, work)
  {
    if head.Some? {
      assert WithHead(queue, head)[1..] == queue[1..];
    } else {
      assert WithHead(queue, head) == queue[1..];
    }
  }
}
