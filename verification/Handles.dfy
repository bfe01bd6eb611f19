/** Open files: littlefs's list of open nodes, and the storage task's handles
    whose nodes live in fixed cells. */
module Handles {
  import opened Collections

  /* ---- the list as links ---- */

  /** Nodes are positive numbers, zero is the null pointer. */
  datatype Links = Links(head: nat, next: map<nat, nat>)

  /** `lfs_mlist_append`. */
  function Linked(l: Links, n: nat): Links {
    Links(n, l.next[n := l.head])
  }

  function Follow(l: Links, n: nat): nat {
    if n in l.next then l.next[n] else 0
  }

  /** The node a walk stands on after k steps. */
  function Nth(l: Links, k: nat): nat {
    if k == 0 then l.head else Follow(l, Nth(l, k - 1))
  }

  /** A walk over the list, as every commit makes, comes to an end. */
  ghost predicate Ends(l: Links) {
    exists k :: Nth(l, k) == 0
  }

  /** What comes behind place i of s: a node, or the null pointer. */
  function Behind(s: seq<nat>, i: nat): nat {
    if i + 1 < |s| then s[i + 1] else 0
  }

  /** The links spell the nodes of s, in order, and stop. */
  predicate Spells(l: Links, s: seq<nat>) {
    && Distinct(s) && 0 !in s
    && l.head == (if s == [] then 0 else s[0])
    && forall i :: 0 <= i < |s| ==> Follow(l, s[i]) == Behind(s, i)
  }

  lemma AppendSpells(l: Links, s: seq<nat>, n: nat)
    requires Spells(l, s) && n > 0 && n !in s
    ensures Spells(Linked(l, n), [n] + s)
  {
    var t, m := [n] + s, Linked(l, n);
    assert forall i :: 0 < i < |t| ==> t[i] == s[i - 1];
    forall i | 0 <= i < |t| ensures Follow(m, t[i]) == Behind(t, i) {
      if i > 0 {
        assert Follow(l, s[i - 1]) == Behind(s, i - 1);
      }
    }
    forall i, j | 0 <= i < j < |t| ensures t[i] != t[j] {
      assert t[j] == s[j - 1];
    }
  }

  lemma {:induction false} WalkOf(l: Links, s: seq<nat>, k: nat)
    requires Spells(l, s) && k <= |s|
    ensures Nth(l, k) == if k < |s| then s[k] else 0
    decreases k
  {
    if k > 0 {
      WalkOf(l, s, k - 1);
      assert Follow(l, s[k - 1]) == Behind(s, k - 1);
    }
  }

  /* ---- unlinking ---- */

  /** `lfs_mlist_remove`: the pointer that names n is set to what n names.  It is
      the head or it is found by walking; there are no more than |l.next| nodes
      to walk over, so the walk is cut there. */
  function Unlinked(l: Links, n: nat): Links {
    if l.head == n then l.(head := Follow(l, n)) else UnlinkedFrom(l, n, l.head, |l.next|)
  }

  function UnlinkedFrom(l: Links, n: nat, at: nat, steps: nat): Links
    decreases steps
  {
    if at == 0 || steps == 0 then l
    else if Follow(l, at) == n then l.(next := l.next[at := Follow(l, n)])
    else UnlinkedFrom(l, n, Follow(l, at), steps - 1)
  }

  /** s without the first n. */
  function Without<T(==)>(s: seq<T>, n: T): seq<T> {
    if s == [] then [] else if s[0] == n then s[1..] else [s[0]] + Without(s[1..], n)
  }

  lemma {:induction false} WithoutAbsent<T>(s: seq<T>, n: T)
    requires n !in s
    ensures Without(s, n) == s
    decreases |s|
  {
    if s != [] {
      WithoutAbsent(s[1..], n);
      assert s == [s[0]] + s[1..];
    }
  }

  lemma {:induction false} WithoutAt<T>(s: seq<T>, n: T, k: nat)
    requires k < |s| && s[k] == n && n !in s[..k]
    ensures Without(s, n) == s[..k] + s[k + 1..]
    decreases k
  {
    if k > 0 {
      assert s[0] == s[..k][0] && s[1..][..k - 1] == s[..k][1..];
      WithoutAt(s[1..], n, k - 1);
      assert s[..k] == [s[0]] + s[1..][..k - 1] && s[1..][k..] == s[k + 1..];
    }
  }

  /** The step bound is never met on a list that ends. */
  lemma EnoughSteps(l: Links, s: seq<nat>, k: nat)
    requires Spells(l, s) && k < |s|
    ensures k <= |l.next|
  {
    forall i | 0 <= i < k ensures s[i] in l.next.Keys {
      assert Follow(l, s[i]) == Behind(s, i) != 0;
    }
    ElementsSize(s[..k]);
    SubsetCount(Elements(s[..k]), l.next.Keys);
  }

  // A walk that does not meet n changes nothing.
  lemma {:induction false} AbsentWalk(l: Links, s: seq<nat>, n: nat, k: nat, steps: nat)
    requires Spells(l, s) && n > 0 && k < |s| && n !in s
    ensures UnlinkedFrom(l, n, s[k], steps) == l
    decreases steps
  {
    assert Follow(l, s[k]) == Behind(s, k);
    if k + 1 < |s| && steps > 0 {
      AbsentWalk(l, s, n, k + 1, steps - 1);
    } else if steps > 1 {
      assert UnlinkedFrom(l, n, 0, steps - 1) == l;
    }
  }

  /** From any place in front of s[p], the walk rewrites the pointer that names it. */
  lemma {:induction false} UnlinkWalk(l: Links, s: seq<nat>, p: nat, k: nat, steps: nat)
    requires Spells(l, s) && k < p < |s| && p <= k + steps
    ensures UnlinkedFrom(l, s[p], s[k], steps) == l.(next := l.next[s[p - 1] := Behind(s, p)])
    decreases p - k
  {
    assert Follow(l, s[k]) == Behind(s, k) == s[k + 1];
    if k + 1 < p {
      UnlinkWalk(l, s, p, k + 1, steps - 1);
    } else {
      assert Follow(l, s[p]) == Behind(s, p);
    }
  }

  lemma HeadSpells(l: Links, s: seq<nat>)
    requires Spells(l, s) && s != []
    ensures Spells(l.(head := Follow(l, s[0])), s[1..])
  {
    var t, m := s[1..], l.(head := Follow(l, s[0]));
    assert Follow(l, s[0]) == Behind(s, 0);
    forall i | 0 <= i < |t| ensures Follow(m, t[i]) == Behind(t, i) {
      assert t[i] == s[i + 1] && Follow(l, s[i + 1]) == Behind(s, i + 1);
    }
  }

  function Cut(s: seq<nat>, p: nat): (t: seq<nat>)
    requires p < |s|
    ensures |t| == |s| - 1 && forall i :: 0 <= i < |t| ==> t[i] == s[Skip(p, i)]
  {
    s[..p] + s[p + 1..]
  }

  /** Where place i of a list without place p was. */
  function Skip(p: nat, i: nat): nat {
    if i < p then i else i + 1
  }

  lemma CutDistinct(s: seq<nat>, p: nat)
    requires Distinct(s) && p < |s|
    ensures Distinct(Cut(s, p))
  {
  }

  lemma CutBehind(s: seq<nat>, p: nat, i: nat)
    requires 0 < p < |s| && i < |s| - 1
    ensures Behind(Cut(s, p), i) == if i == p - 1 then Behind(s, p) else Behind(s, Skip(p, i))
  {
  }

  lemma InnerSpells(l: Links, s: seq<nat>, p: nat)
    requires Spells(l, s) && 0 < p < |s|
    ensures Spells(l.(next := l.next[s[p - 1] := Behind(s, p)]), Cut(s, p))
  {
    var t, m := Cut(s, p), l.(next := l.next[s[p - 1] := Behind(s, p)]);
    forall i | 0 <= i < |t| ensures Follow(m, t[i]) == Behind(t, i) {
      CutBehind(s, p, i);
      assert Follow(l, s[Skip(p, i)]) == Behind(s, Skip(p, i));
    }
    CutDistinct(s, p);
  }

  lemma FirstPlace(s: seq<nat>, p: nat)
    requires Distinct(s) && p < |s|
    ensures s[p] !in s[..p]
  {
  }

  /** Rewriting that one pointer takes exactly n out of the list, or nothing. */
  lemma UnlinkedSpells(l: Links, s: seq<nat>, n: nat)
    requires Spells(l, s) && n > 0
    ensures Spells(Unlinked(l, n), Without(s, n))
  {
    if s == [] {
      assert l.head == 0;
    } else if s[0] == n {
      HeadSpells(l, s);
    } else {
      if n in s {
        var p :| 0 < p < |s| && s[p] == n;
        EnoughSteps(l, s, p);
        UnlinkWalk(l, s, p, 0, |l.next|);
        FirstPlace(s, p);
        WithoutAt(s, n, p);
        InnerSpells(l, s, p);
      } else {
        AbsentWalk(l, s, n, 0, |l.next|);
        WithoutAbsent(s, n);
      }
    }
  }

  /* ---- linking a node twice ---- */

  // After appending s[p] again, the walk never leaves s[0] to s[p].
  lemma {:induction false} Circle(l: Links, s: seq<nat>, p: nat, k: nat) returns (r: nat)
    requires Spells(l, s) && p < |s|
    ensures r <= p && Nth(Linked(l, s[p]), k) == s[r]
    decreases k
  {
    if k == 0 {
      r := p;
    } else {
      r := Circle(l, s, p, k - 1);
      if r == p {
        r := 0;
      } else {
        assert Follow(l, s[r]) == Behind(s, r);
        r := r + 1;
      }
    }
  }

  /** Appending a node keeps the list finite if and only if the node is not
      already in it. */
  lemma AppendEndsIff(l: Links, s: seq<nat>, n: nat)
    requires Spells(l, s) && n > 0
    ensures Ends(Linked(l, n)) <==> n !in s
  {
    if n in s {
      var p :| 0 <= p < |s| && s[p] == n;
      forall k: nat ensures Nth(Linked(l, n), k) != 0 {
        var r := Circle(l, s, p, k);
      }
    } else {
      AppendSpells(l, s, n);
      WalkOf(Linked(l, n), [n] + s, |s| + 1);
    }
  }

  /* ---- the list in memory ---- */

  class Node {
    var next: Node?

    constructor () {
      next := null;
    }
  }

  function NextOf(s: seq<Node>, i: nat): Node? {
    if i + 1 < |s| then s[i + 1] else null
  }

  class OpenList {
    var head: Node?
    ghost var nodes: seq<Node>

    ghost predicate Valid()
      reads this, nodes
    {
      && Distinct(nodes)
      && head == (if nodes == [] then null else nodes[0])
      && forall i :: 0 <= i < |nodes| ==> nodes[i].next == NextOf(nodes, i)
    }

    constructor ()
      ensures Valid() && nodes == []
    {
      head, nodes := null, [];
    }

    /** `lfs_mlist_append`. */
    method Append(n: Node)
      requires Valid() && n !in nodes
      modifies this, n
      ensures Valid() && nodes == [n] + old(nodes)
    {
      ghost var before := nodes;
      n.next := head;
      head := n;
      nodes := [n] + nodes;
      forall i | 0 <= i < |nodes| ensures nodes[i].next == NextOf(nodes, i) {
        if i > 0 {
          assert nodes[i] == before[i - 1] && before[i - 1].next == NextOf(before, i - 1);
        }
      }
    }

    method DropHead()
      requires Valid() && nodes != []
      modifies this
      ensures Valid() && nodes == old(nodes)[1..]
    {
      ghost var before := nodes;
      assert head.next == NextOf(before, 0);
      head := head.next;
      nodes := nodes[1..];
      forall i | 0 <= i < |nodes| ensures nodes[i].next == NextOf(nodes, i) {
        assert nodes[i] == before[i + 1] && before[i + 1].next == NextOf(before, i + 1);
      }
    }

    /** The node in front of n, or the last one. */
    method Before(n: Node) returns (p: Node, ghost k: nat)
      requires Valid() && nodes != [] && nodes[0] != n
      ensures k < |nodes| && p == nodes[k] && n !in nodes[..k + 1]
      ensures p.next == NextOf(nodes, k) && (p.next == null || p.next == n)
    {
      p, k := head, 0;
      while p.next != null && p.next != n
        invariant k < |nodes| && p == nodes[k] && n !in nodes[..k + 1]
        decreases |nodes| - k
      {
        assert p.next == NextOf(nodes, k);
        p := p.next;
        k := k + 1;
        assert nodes[..k + 1] == nodes[..k] + [nodes[k]];
      }
    }

    method UnlinkAfter(p: Node, ghost k: nat, n: Node)
      requires Valid() && k + 1 < |nodes| && p == nodes[k] && n == nodes[k + 1]
      modifies this, p
      ensures Valid() && nodes == old(nodes)[..k + 1] + old(nodes)[k + 2..]
    {
      ghost var before := nodes;
      assert n.next == NextOf(before, k + 1);
      p.next := n.next;
      nodes := nodes[..k + 1] + nodes[k + 2..];
      forall i | 0 <= i < |nodes| ensures nodes[i].next == NextOf(nodes, i) {
        if i < k {
          assert nodes[i] == before[i] && before[i].next == NextOf(before, i);
        } else if i > k {
          assert nodes[i] == before[i + 1] && before[i + 1].next == NextOf(before, i + 1);
        }
      }
    }

    /** `lfs_mlist_remove`: unlink the node if it is there. */
    method Remove(n: Node)
      requires Valid()
      modifies this, nodes
      ensures Valid() && nodes == Without(old(nodes), n)
    {
      if head == null {
        return;
      }
      if head == n {
        DropHead();
        return;
      }
      var p, k := Before(n);
      if p.next == null {
        assert nodes[..k + 1] == nodes;
        WithoutAbsent(nodes, n);
      } else {
        WithoutAt(nodes, n, k + 1);
        UnlinkAfter(p, k, n);
      }
    }
  }
}
