/** The linked queue, run by one thread at a time: a chain of nodes between a head and a tail pointer. */
module LFQueues {
  class Node<T> {
    var data: T
    var next: Node?<T>

    constructor (data: T)
      ensures this.data == data && next == null
    {
      this.data := data;
      next := null;
    }
  }

  ghost function Nodes<T>(chain: seq<Node<T>>): (objects: set<object>)
    ensures forall i :: 0 <= i < |chain| ==> chain[i] in objects
  {
    set i | 0 <= i < |chain| :: chain[i] as object
  }

  class LFQueue<T> {
    var head: Node?<T>
    var tail: Node?<T>
    ghost var spine: seq<Node<T>>

    /** The chain from `head` ends at `tail` after every node of `spine` once; both are null together. */
    ghost predicate Valid()
      reads this, spine
    {
      && (spine == [] ==> head == null && tail == null)
      && (spine != [] ==> head == spine[0] && tail == spine[|spine| - 1] && tail.next == null)
      && (forall i :: 0 < i < |spine| ==> spine[i - 1].next == spine[i])
      && (forall i, j :: 0 <= i < j < |spine| ==> spine[i] != spine[j])
    }

    ghost function Repr(): (objects: set<object>)
      reads this
      ensures this in objects && forall i :: 0 <= i < |spine| ==> spine[i] in objects
    {
      {this} + Nodes(spine)
    }

    /** The queued values, front first. */
    ghost function Contents(): (s: seq<T>)
      reads this, spine
      ensures |s| == |spine| && forall i :: 0 <= i < |s| ==> s[i] == spine[i].data
    {
      seq(|spine|, i requires 0 <= i < |spine| reads this, spine => spine[i].data)
    }

    constructor ()
      ensures Valid() && Contents() == [] && fresh(Repr())
    {
      head, tail, spine := null, null, [];
    }

    method Enqueue(value: T)
      requires Valid()
      modifies Repr()
      ensures Valid() && Contents() == old(Contents()) + [value]
      ensures |spine| == |old(spine)| + 1 && spine == old(spine) + [spine[|old(spine)|]] && fresh(spine[|old(spine)|])
    {
      var node := new Node(value);
      var oldTail := tail;
      tail := node;
      if oldTail != null {
        oldTail.next := node;
      } else {
        head := node;
      }
      spine := spine + [node];
    }

    /** Takes the front value; `value` keeps what the caller's variable held when there is none. */
    method Dequeue(before: T) returns (found: bool, value: T)
      requires Valid()
      modifies this
      ensures Valid() && (found <==> old(spine) != []) && (found <==> old(Contents()) != [])
      ensures spine == if found then old(spine)[1..] else []
      ensures found ==> value == old(Contents())[0] && Contents() == old(Contents())[1..]
      ensures !found ==> value == before && Contents() == []
    {
      var oldHead := head;
      if oldHead != null {
        head := oldHead.next;
        value := oldHead.data;
        if oldHead.next == null {
          tail := null;
        }
        spine := spine[1..];
        return true, value;
      }
      tail := null;
      return false, before;
    }

    /** Moves the whole chain of `other` behind this one in a fixed number of pointer updates. */
    method Concatenate(other: LFQueue<T>) returns (moved: bool)
      requires Valid() && other.Valid() && other != this
      requires forall i, j :: 0 <= i < |spine| && 0 <= j < |other.spine| ==> spine[i] != other.spine[j]
      modifies Repr(), other
      ensures Valid() && other.Valid() && spine == old(spine + other.spine)
      ensures Contents() == old(Contents()) + old(other.Contents()) && other.Contents() == []
      ensures moved <==> old(other.Contents()) != []
    {
      var otherHead := other.head;
      other.head := null;
      if otherHead == null {
        return false;
      }
      var prevTail := tail;
      tail := otherHead;
      if prevTail != null {
        prevTail.next := otherHead;
      } else {
        head := otherHead;
      }
      tail := other.tail;
      other.tail := null;
      spine, other.spine := spine + other.spine, [];
      return true;
    }

    method Empty() returns (b: bool)
      requires Valid()
      ensures b <==> Contents() == []
    {
      b := head == null;
    }
  }

  /** Where `steps` links lead from `node`, stopping at null. */
  ghost function After<T>(node: Node?<T>, steps: nat): Node?<T>
    reads *
  {
    if node == null || steps == 0 then node else After(node.next, steps - 1)
  }

  lemma {:induction false} AfterNode<T>(q: LFQueue<T>, i: nat, steps: nat)
    requires q.Valid() && i < |q.spine| && i + steps <= |q.spine|
    ensures After(q.spine[i], steps) == if i + steps < |q.spine| then q.spine[i + steps] else null
    decreases steps
  {
    if steps > 0 && i + 1 < |q.spine| {
      assert q.spine[i].next == q.spine[i + 1];
      AfterNode(q, i + 1, steps - 1);
    }
  }

  /** Following `next` from the head meets every node once, the tail last, and then null: there is no cycle. */
  lemma {:induction false} ChainFromHead<T>(q: LFQueue<T>)
    requires q.Valid()
    ensures q.head == null <==> q.tail == null
    ensures forall k :: 0 <= k < |q.spine| ==> After(q.head, k) == q.spine[k]
    ensures After(q.head, |q.spine|) == null
    ensures q.head != null ==> After(q.head, |q.spine| - 1) == q.tail
  {
    if q.spine != [] {
      forall k | 0 <= k <= |q.spine|
        ensures After(q.head, k) == if k < |q.spine| then q.spine[k] else null
      {
        AfterNode(q, 0, k);
      }
    }
  }
}
