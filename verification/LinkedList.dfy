/** The list macros of src/fwd/inc/linkedlists.h. */
module LinkedList {

  class Node {
    var next: Node?
  }

  // The node at index i, or none
  function At(nodes: seq<Node>, i: int): Node? {
    if 0 <= i < |nodes| then nodes[i] else null
  }

  // What is left of a list when the nodes to drop have been taken out
  function Kept(nodes: seq<Node>, drop: Node -> bool): (kept: seq<Node>)
    ensures forall x :: x in kept ==> x in nodes
  {
    if nodes == [] then [] else
    var n := nodes[|nodes| - 1];
    Kept(nodes[..|nodes| - 1], drop) + if drop(n) then [] else [n]
  }

  ghost predicate Distinct(nodes: seq<Node>) {
    forall i, j :: 0 <= i < j < |nodes| ==> nodes[i] != nodes[j]
  }

  // The nodes are linked in this order, and the last one ends the chain.
  ghost predicate Linked(nodes: seq<Node>)
    reads nodes
  {
    forall i :: 0 <= i < |nodes| ==> nodes[i].next == At(nodes, i + 1)
  }

  // The list without, and with one more, node at index i
  function Without(nodes: seq<Node>, i: nat): seq<Node>
    requires i < |nodes|
  {
    nodes[..i] + nodes[i + 1..]
  }

  function With(nodes: seq<Node>, i: nat, n: Node): seq<Node>
    requires i <= |nodes|
  {
    nodes[..i] + [n] + nodes[i..]
  }

  lemma WithoutAt(nodes: seq<Node>, i: nat, k: int)
    requires i < |nodes|
    ensures |Without(nodes, i)| == |nodes| - 1
    ensures At(Without(nodes, i), k) == if k < i then At(nodes, k) else At(nodes, k + 1)
  {}

  lemma WithAt(nodes: seq<Node>, i: nat, n: Node, k: int)
    requires i <= |nodes|
    ensures |With(nodes, i, n)| == |nodes| + 1
    ensures At(With(nodes, i, n), k) == if k < i then At(nodes, k) else if k == i then n else At(nodes, k - 1)
  {}

  lemma DistinctWithout(nodes: seq<Node>, i: nat)
    requires Distinct(nodes) && i < |nodes|
    ensures Distinct(Without(nodes, i)) && nodes[i] !in Without(nodes, i)
    ensures forall x :: x in Without(nodes, i) ==> x in nodes
  {}

  lemma DistinctWith(nodes: seq<Node>, i: nat, n: Node)
    requires Distinct(nodes) && i <= |nodes| && n !in nodes
    ensures Distinct(With(nodes, i, n))
    ensures forall x :: x in With(nodes, i, n) ==> x in nodes || x == n
  {}

  lemma NothingKept(orig: seq<Node>, drop: Node -> bool)
    ensures Kept(orig[..0], drop) == [] && [] + orig[0..] == orig
  {}

  // One round of the traversal, with kept and then orig[k..] in the list
  lemma NextKept(orig: seq<Node>, k: nat, kept: seq<Node>, drop: Node -> bool)
    requires k < |orig| && kept == Kept(orig[..k], drop)
    ensures Kept(orig[..k + 1], drop) == if drop(orig[k]) then kept else kept + [orig[k]]
    ensures var nodes := kept + orig[k..];
      && nodes[|kept|] == orig[k] && At(nodes, |kept| - 1) == At(kept, |kept| - 1)
        && At(nodes, |kept| + 1) == At(orig, k + 1)
      && Without(nodes, |kept|) == kept + orig[k + 1..] && nodes == kept + [orig[k]] + orig[k + 1..]
    ensures At(kept + [orig[k]], |kept + [orig[k]]| - 1) == orig[k]
  {
    assert orig[..k + 1][..k] == orig[..k];
    assert kept + [] == kept;
  }

  lemma LinkAt(nodes: seq<Node>, i: nat)
    requires Linked(nodes) && i < |nodes|
    ensures nodes[i].next == At(nodes, i + 1)
  {}

  // A node stands at one index only.
  lemma OnlyAt(nodes: seq<Node>, i: nat)
    requires Distinct(nodes) && i < |nodes|
    ensures forall k :: 0 <= k < |nodes| && k != i ==> nodes[k] != nodes[i]
    ensures i > 0 ==> forall k :: 0 <= k < |nodes| && k != i - 1 ==> nodes[k] != nodes[i - 1]
  {}

  // The head of a list
  class List {
    var first: Node?
    var last: Node?
    var size: int
    ghost var nodes: seq<Node>

    // An acyclic chain from first to last
    ghost predicate Chained()
      reads this, nodes
    {
      Distinct(nodes) && Linked(nodes) && first == At(nodes, 0) && last == At(nodes, |nodes| - 1)
    }

    ghost predicate Valid()
      reads this, nodes
    {
      Chained() && size == |nodes|
    }

    // LGW_LIST_HEAD_INIT_NOLOCK
    constructor ()
      ensures Valid() && nodes == []
    {
      first, last, size, nodes := null, null, 0, [];
    }

    // LGW_LIST_INSERT_HEAD
    method InsertHead(elm: Node)
      requires Valid() && elm !in nodes
      modifies this, elm
      ensures Valid() && nodes == [elm] + old(nodes)
    {
      elm.next := first;
      first := elm;
      if last == null {
        last := elm;
      }
      size := size + 1;
      nodes := [elm] + nodes;
    }

    // LGW_LIST_INSERT_TAIL. The link of the appended entry is left as it is, so it must not
    // lead anywhere.
    method InsertTail(elm: Node)
      requires Valid() && elm !in nodes && elm.next == null
      modifies this, nodes
      ensures Valid() && nodes == old(nodes) + [elm]
    {
      if first == null {
        first := elm;
        last := elm;
      } else {
        last.next := elm;
        last := elm;
      }
      size := size + 1;
      nodes := nodes + [elm];
    }

    // LGW_LIST_INSERT_AFTER
    method InsertAfter(listelm: Node, elm: Node, ghost i: nat)
      requires Valid() && elm !in nodes && i < |nodes| && nodes[i] == listelm
      modifies this, listelm, elm
      ensures Valid() && nodes == With(old(nodes), i + 1, elm)
    {
      hide Distinct, With;
      ghost var was := nodes;
      OnlyAt(was, i);
      elm.next := listelm.next;
      listelm.next := elm;
      if last == listelm {
        last := elm;
      }
      size := size + 1;
      nodes := With(was, i + 1, elm);
      Inserted(was, i, elm);
    }

    lemma Inserted(was: seq<Node>, i: nat, elm: Node)
      requires Distinct(was) && i < |was| && elm !in was && nodes == With(was, i + 1, elm)
      requires forall k :: 0 <= k < |was| && k != i ==> was[k].next == At(was, k + 1)
      requires was[i].next == elm && elm.next == At(was, i + 1)
      requires first == At(was, 0) && last == if i == |was| - 1 then elm else At(was, |was| - 1)
      ensures Chained() && |nodes| == |was| + 1
    {
      hide Distinct, With;
      DistinctWith(was, i + 1, elm);
      WithAt(was, i + 1, elm, 0);
      WithAt(was, i + 1, elm, |was|);
      forall k | 0 <= k < |nodes| ensures nodes[k].next == At(nodes, k + 1) {
        WithAt(was, i + 1, elm, k);
        WithAt(was, i + 1, elm, k + 1);
      }
    }

    // LGW_LIST_REMOVE: the entry, or null if it is not in the list
    method Remove(elm: Node?) returns (r: Node?)
      requires Valid()
      modifies this, nodes
      ensures Valid()
      ensures elm == null || elm !in old(nodes) ==> r == null && nodes == old(nodes)
      ensures forall i :: 0 <= i < |old(nodes)| && old(nodes)[i] == elm ==>
        r == elm && elm.next == null && nodes == Without(old(nodes), i)
    {
      hide Distinct, Without, Linked;
      r := elm;
      if elm != null {
        if first == elm {
          Unlink(null, elm, 0);
          size := size - 1;
        } else {
          var prev := first;
          ghost var j := 0;
          while prev != null && prev.next != elm
            invariant 0 <= j <= |nodes| && prev == At(nodes, j)
            invariant forall k :: 0 <= k <= j && k < |nodes| ==> nodes[k] != elm
            modifies {}
            decreases |nodes| - j
          {
            LinkAt(nodes, j);
            prev := prev.next;
            j := j + 1;
          }
          if prev != null {
            LinkAt(nodes, j);
            Unlink(prev, elm, j + 1);
            size := size - 1;
          } else {
            r := null;
          }
        }
      }
    }

    // Takes the i-th entry out of the chain; its predecessor is given.
    method Unlink(prev: Node?, elm: Node, ghost i: nat)
      requires Chained() && i < |nodes| && nodes[i] == elm && prev == At(nodes, i as int - 1)
      modifies this`first, this`last, this`nodes, prev, elm
      ensures Chained() && nodes == Without(old(nodes), i) && elm.next == null
      ensures |nodes| == |old(nodes)| - 1 && forall k :: 0 <= k < |old(nodes)| && k != i ==> old(nodes)[k] != elm
    {
      hide Distinct, Without;
      ghost var was := nodes;
      WithoutAt(was, i, 0);
      OnlyAt(was, i);
      if prev != null {
        prev.next := elm.next;
      } else {
        first := elm.next;
      }
      elm.next := null;
      if last == elm {
        last := prev;
      }
      nodes := Without(was, i);
      Relinked(was, i);
    }

    lemma Relinked(was: seq<Node>, i: nat)
      requires Distinct(was) && i < |was| && nodes == Without(was, i)
      requires forall k :: 0 <= k < |was| && k != i && k + 1 != i ==> was[k].next == At(was, k + 1)
      requires i > 0 ==> was[i - 1].next == At(was, i + 1)
      requires first == if i == 0 then At(was, 1) else At(was, 0)
      requires last == if i == |was| - 1 then At(was, i as int - 1) else At(was, |was| - 1)
      ensures Chained()
    {
      hide Distinct, Without;
      DistinctWithout(was, i);
      WithoutAt(was, i, 0);
      WithoutAt(was, i, |was| - 2);
      forall k | 0 <= k < |nodes| ensures nodes[k].next == At(nodes, k + 1) {
        WithoutAt(was, i, k);
        WithoutAt(was, i, k + 1);
      }
    }

    // LGW_LIST_REMOVE_CURRENT: what becomes of the current entry of the traversal. The size
    // is not kept up.
    method RemoveCurrent(current: Node, prev: Node?, next: Node?, ghost i: nat) returns (current': Node?)
      requires Chained() && i < |nodes| && nodes[i] == current
      requires prev == At(nodes, i as int - 1) && next == current.next
      modifies this`first, this`last, this`nodes, prev, current
      ensures Chained() && nodes == Without(old(nodes), i) && current.next == null
      ensures current' == prev && current !in nodes && forall x :: x in nodes ==> x in old(nodes)
    {
      hide Distinct, Without;
      ghost var was := nodes;
      OnlyAt(was, i);
      current.next := null;
      current' := prev;
      if prev != null {
        prev.next := next;
      } else {
        first := next;
      }
      if next == null {
        last := prev;
      }
      nodes := Without(was, i);
      Relinked(was, i);
      DistinctWithout(was, i);
    }

    // LGW_LIST_TRAVERSE_SAFE_BEGIN with LGW_LIST_REMOVE_CURRENT of every entry to be dropped
    method TraverseSafe(drop: Node -> bool)
      requires Chained()
      modifies this`first, this`last, this`nodes, nodes
      ensures Chained() && nodes == Kept(old(nodes), drop)
      ensures forall x :: x in old(nodes) && drop(x) ==> x.next == null
    {
      hide Distinct, Without, Kept, Linked, Gone;
      var v := first;
      var current, prev := v, null;
      var next := if v != null then v.next else null;
      ghost var orig, k, kept := nodes, 0, [];
      ghost var gone: set<Node> := {};
      NothingKept(orig, drop);
      NoneGone();
      while v != null
        invariant Chained() && 0 <= k <= |orig| && kept == Kept(orig[..k], drop) && nodes == kept + orig[k..]
        invariant v == current == At(orig, k) && prev == At(kept, |kept| - 1)
        invariant next == if v != null then v.next else null
        invariant Gone(gone) && AllGone(orig, k, drop, gone)
        invariant forall i :: 0 <= i < |nodes| ==> nodes[i] in old(nodes)
        decreases |orig| - k
      {
        current, kept, gone := Visit(v, prev, next, drop, orig, k, kept, gone);
        prev := current;
        k := k + 1;
        v := next;
        current := v;
        next := if v != null then v.next else null;
      }
      assert orig[..k] == orig && kept + orig[k..] == kept;
      GoneNull(gone);
    }

    lemma NoneGone()
      ensures Gone({})
    {}

    lemma GoneNull(gone: set<Node>)
      requires Gone(gone)
      ensures forall x :: x in gone ==> x.next == null
    {}

    // The nodes to be dropped among the first k are these.
    static ghost predicate AllGone(orig: seq<Node>, k: nat, drop: Node -> bool, gone: set<Node>) {
      forall i :: 0 <= i < k && i < |orig| && drop(orig[i]) ==> orig[i] in gone
    }

    // These nodes have been taken out and lead nowhere.
    ghost predicate Gone(gone: set<Node>)
      reads this, gone
    {
      forall x :: x in gone ==> x.next == null && x !in nodes
    }

    // The body of the traversal
    method Visit(v: Node, prev: Node?, next: Node?, drop: Node -> bool,
                 ghost orig: seq<Node>, ghost k: nat, ghost kept: seq<Node>, ghost gone: set<Node>)
      returns (current: Node?, ghost kept': seq<Node>, ghost gone': set<Node>)
      requires Chained() && k < |orig| && kept == Kept(orig[..k], drop) && nodes == kept + orig[k..]
      requires v == orig[k] && prev == At(kept, |kept| - 1) && next == v.next
      requires Gone(gone) && AllGone(orig, k, drop, gone)
      modifies this`first, this`last, this`nodes, nodes
      ensures Chained() && kept' == Kept(orig[..k + 1], drop) && nodes == kept' + orig[k + 1..]
      ensures next == At(orig, k + 1) && current == At(kept', |kept'| - 1)
      ensures Gone(gone') && AllGone(orig, k + 1, drop, gone')
      ensures forall i :: 0 <= i < |nodes| ==> nodes[i] in old(nodes)
    {
      hide Distinct, Without, Kept, Linked;
      NextKept(orig, k, kept, drop);
      LinkAt(nodes, |kept|);
      current, kept', gone' := v, kept, gone;
      if drop(v) {
        current := RemoveCurrent(v, prev, next, |kept|);
        gone' := gone + {v};
      } else {
        kept' := kept + [v];
      }
    }
  }

  // Taking out what is to be dropped keeps the order of the rest, and is done once and for all.
  lemma {:induction false} KeptExact(nodes: seq<Node>, drop: Node -> bool)
    ensures forall x :: x in Kept(nodes, drop) <==> x in nodes && !drop(x)
    ensures Kept(Kept(nodes, drop), drop) == Kept(nodes, drop)
  {
    if nodes != [] {
      var rest, n := nodes[..|nodes| - 1], nodes[|nodes| - 1];
      KeptExact(rest, drop);
      if !drop(n) {
        assert (Kept(rest, drop) + [n])[..|Kept(rest, drop)|] == Kept(rest, drop);
      } else {
        assert Kept(rest, drop) + [] == Kept(rest, drop);
      }
    }
  }
}
