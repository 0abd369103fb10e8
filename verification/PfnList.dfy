/** The list of page frame numbers in malpage.c: duplicates are unlinked in place. */
module PfnList {
  class Node {
    var pfn: nat
    var next: Node?
    /** kfree has had the node. */
    var freed: bool

    constructor (pfn: nat, next: Node?)
      ensures this.pfn == pfn && this.next == next && !freed
    {
      this.pfn, this.next, freed := pfn, next, false;
    }

    /** The fields, which only a node that has not been freed has. */
    function Pfn(): (r: nat)
      requires !freed
      reads this
      ensures r == pfn
    {
      pfn
    }

    function Next(): (r: Node?)
      requires !freed
      reads this
      ensures r == next
    {
      next
    }

    /** kfree, once for a node. */
    method Free()
      requires !freed
      modifies this`freed
      ensures freed
    {
      freed := true;
    }
  }

  /** The list that starts at `first` consists of these nodes, none of them freed, and ends. */
  ghost predicate Chain(nodes: seq<Node>, first: Node?)
    reads nodes
  {
    && first == At(nodes, 0)
    && (forall i | 0 <= i < |nodes| :: !nodes[i].freed && nodes[i].next == At(nodes, i + 1))
    && forall i, j | 0 <= i < j < |nodes| :: nodes[i] != nodes[j]
  }

  ghost function At(nodes: seq<Node>, i: nat): Node? { if i < |nodes| then nodes[i] else null }

  ghost function Pfns(nodes: seq<Node>): (s: seq<nat>)
    reads nodes
    ensures |s| == |nodes| && forall i | 0 <= i < |s| :: s[i] == nodes[i].pfn
  {
    if nodes == [] then [] else Pfns(nodes[..|nodes| - 1]) + [nodes[|nodes| - 1].pfn]
  }

  ghost function Set(nodes: seq<Node>): set<Node> { set n | n in nodes }

  lemma PfnsWithout(nodes: seq<Node>, k: nat)
    requires k < |nodes|
    ensures Pfns(Without(nodes, k)) == Without(Pfns(nodes), k)
  {
    hide Pfns, Without;
    var a, b := Pfns(Without(nodes, k)), Without(Pfns(nodes), k);
    assert forall i | 0 <= i < |a| :: a[i] == b[i];
  }

  /** The first occurrence of every element, in the original order. */
  function Firsts(s: seq<nat>): seq<nat>
  {
    if s == [] then []
    else
      var t, x := s[..|s| - 1], s[|s| - 1];
      if x in t then Firsts(t) else Firsts(t) + [x]
  }

  predicate Distinct(s: seq<nat>) { forall i, j | 0 <= i < j < |s| :: s[i] != s[j] }

  function Without<T>(s: seq<T>, k: nat): (r: seq<T>)
    requires k < |s|
    ensures |r| == |s| - 1
    ensures forall i | 0 <= i < |r| :: r[i] == s[if i < k then i else i + 1]
  {
    s[..k] + s[k + 1..]
  }

  lemma {:induction false} FirstsOfDistinct(s: seq<nat>)
    requires Distinct(s)
    ensures Firsts(s) == s
  {
    if s != [] {
      FirstsOfDistinct(s[..|s| - 1]);
    }
  }

  /** Firsts gives every element once, and nothing else. */
  lemma {:induction false} FirstsIsSet(s: seq<nat>)
    ensures Distinct(Firsts(s)) && forall x :: x in Firsts(s) <==> x in s
  {
    if s != [] {
      var t, x := s[..|s| - 1], s[|s| - 1];
      FirstsIsSet(t);
      assert s == t + [x];
    }
  }

  /** Taking out an element that also stands further left changes nothing. */
  lemma {:induction false} FirstsSkips(s: seq<nat>, i: nat, k: nat)
    requires i < k < |s| && s[i] == s[k]
    ensures Firsts(Without(s, k)) == Firsts(s)
    decreases |s|
  {
    var t, x := s[..|s| - 1], s[|s| - 1];
    if k == |s| - 1 {
      assert Without(s, k) == t && t[i] == x;
    } else {
      FirstsSkips(t, i, k);
      assert Without(s, k) == Without(t, k) + [x];
      assert Without(s, k)[..|s| - 2] == Without(t, k);
      StillIn(t, i, k, x);
    }
  }

  lemma StillIn(t: seq<nat>, i: nat, k: nat, x: nat)
    requires i < k < |t| && t[i] == t[k]
    ensures x in Without(t, k) <==> x in t
  {
    if x in t {
      var m :| 0 <= m < |t| && t[m] == x;
      var m' := if m == k then i else m;
      assert Without(t, k)[if m' < k then m' else m' - 1] == x;
    }
  }

  // ------------------------------------------------------------------------ the code

  /** pfnlist_size. */
  method Size(root: Node?, ghost nodes: seq<Node>) returns (count: nat)
    requires Chain(nodes, root)
    ensures count == |nodes|
  {
    var front := root;
    count := 0;
    while front != null
      invariant count <= |nodes| && front == At(nodes, count)
      decreases |nodes| - count
    {
      count := count + 1;
      front := front.Next();
    }
  }

  /** pfnlist_mkarray: the first `length` numbers, and zeros when there are fewer. */
  method MkArray(root: Node?, length: nat, ghost nodes: seq<Node>) returns (pfn_array: array<nat>)
    requires Chain(nodes, root)
    ensures fresh(pfn_array) && pfn_array.Length == length
    ensures forall i | 0 <= i < length :: pfn_array[i] == if i < |nodes| then nodes[i].pfn else 0
  {
    pfn_array := new nat[length](_ => 0);
    var front := root;
    var count := 0;
    while count < length && front != null
      invariant count <= length && count <= |nodes| && front == At(nodes, count)
      invariant forall i | 0 <= i < length :: pfn_array[i] == if i < count then nodes[i].pfn else 0
      decreases |nodes| - count
    {
      pfn_array[count] := front.Pfn();
      front := front.Next();
      count := count + 1;
    }
  }

  /** pfnlist_find_parent_of: the node before the first one in haystack that has the number. */
  method FindParentOf(parent: Node, haystack: Node?, needle: nat,
                      ghost nodes: seq<Node>, ghost root: Node?, ghost f: nat)
      returns (r: Node?, ghost k: nat)
    requires Chain(nodes, root) && f < |nodes| && parent == nodes[f] && haystack == parent.next
    ensures r == null ==> forall i | f < i < |nodes| :: nodes[i].pfn != needle
    ensures r != null ==> f <= k < |nodes| - 1 && r == nodes[k] && nodes[k + 1].pfn == needle
    ensures r != null ==> forall i | f < i <= k :: nodes[i].pfn != needle
  {
    var front := haystack;
    var front_parent: Node? := parent;
    k := f;
    while front != null
      invariant f <= k < |nodes| && front_parent == nodes[k] && front == At(nodes, k + 1)
      invariant forall i | f < i <= k :: nodes[i].pfn != needle
      decreases |nodes| - k
    {
      if front.Pfn() == needle {
        return front_parent, k;
      }
      front := front.Next();
      front_parent := front_parent.Next();
      k := k + 1;
    }
    return null, k;
  }

  /** tmp->next = needle_node->next, and kfree(needle_node). */
  method Unlink(tmp: Node, ghost nodes: seq<Node>, ghost root: Node?, ghost k: nat) returns (ghost rest: seq<Node>)
    requires Chain(nodes, root) && k < |nodes| - 1 && tmp == nodes[k]
    modifies tmp`next, {nodes[k + 1]}`freed
    ensures rest == Without(nodes, k + 1) && Chain(rest, root) && nodes[k + 1].freed
  {
    rest := Without(nodes, k + 1);
    var needle_node := tmp.Next();
    tmp.next := needle_node.Next();
    needle_node.Free();
    assert forall i | 0 <= i < |rest| :: rest[i].next == At(rest, i + 1);
  }

  /** Of these nodes, exactly those that are no longer in the list are freed. */
  ghost predicate FreedBut(nodes: seq<Node>, rest: seq<Node>)
    reads nodes
  {
    forall i | 0 <= i < |nodes| :: nodes[i].freed <==> nodes[i] !in rest
  }

  lemma NoneFreed(nodes: seq<Node>, root: Node?)
    requires Chain(nodes, root)
    ensures FreedBut(nodes, nodes) && Among(nodes, nodes)
  {
  }

  lemma LiveIn(nodes: seq<Node>, root: Node?)
    requires Chain(nodes, root)
    ensures forall x | x in nodes :: !x.freed
  {
  }

  lemma OneFreed(nodes: seq<Node>, root: Node?, k: nat)
    requires k < |nodes| && forall i, j | 0 <= i < j < |nodes| :: nodes[i] != nodes[j]
    requires Chain(Without(nodes, k), root) && nodes[k].freed
    ensures FreedBut(nodes, Without(nodes, k)) && Among(Without(nodes, k), nodes)
  {
    InWithout(nodes, k);
    LiveIn(Without(nodes, k), root);
    hide Without, Chain;
  }

  /** All of these nodes that are not among mid are freed. */
  ghost predicate Gone(nodes: seq<Node>, mid: seq<Node>)
    reads nodes
  {
    forall i | 0 <= i < |nodes| && nodes[i] !in mid :: nodes[i].freed
  }

  lemma FreedAreGone(nodes: seq<Node>, mid: seq<Node>)
    requires FreedBut(nodes, mid)
    ensures Gone(nodes, mid)
  {
  }

  lemma FreedMore(nodes: seq<Node>, mid: seq<Node>, rest: seq<Node>)
    requires Gone(nodes, mid) && FreedBut(mid, rest) && Among(rest, mid) && Among(mid, nodes)
    ensures FreedBut(nodes, rest) && Among(rest, nodes)
  {
  }

  lemma InWithout(s: seq<Node>, k: nat)
    requires k < |s| && forall i, j | 0 <= i < j < |s| :: s[i] != s[j]
    ensures forall x: Node :: x in Without(s, k) <==> x in s && x != s[k]
  {
    forall x | x in s && x != s[k]
      ensures x in Without(s, k)
    {
      var m :| 0 <= m < |s| && s[m] == x;
      assert Without(s, k)[if m < k then m else m - 1] == x;
    }
  }

  /** Nothing before position f occurs again behind itself. */
  predicate Cleared(s: seq<nat>, f: nat)
  {
    f <= |s| && forall i, j | 0 <= i < f && i < j < |s| :: s[i] != s[j]
  }

  lemma ClearedWithout(s: seq<nat>, f: nat, k: nat)
    requires Cleared(s, f) && f < k < |s|
    ensures Cleared(Without(s, k), f)
  {
  }

  lemma ClearsOneMore(s: seq<nat>, f: nat)
    requires Cleared(s, f) && f < |s| && forall i | f < i < |s| :: s[i] != s[f]
    ensures Cleared(s, f + 1)
  {
  }

  ghost predicate Among(rest: seq<Node>, nodes: seq<Node>) { forall i | 0 <= i < |rest| :: rest[i] in nodes }

  /** One node behind f is taken out; its number also stands at f. */
  method RemoveOne(tmp: Node, ghost nodes: seq<Node>, ghost root: Node?, ghost f: nat, ghost k: nat,
                   ghost all: seq<Node>)
      returns (ghost rest: seq<Node>)
    requires Chain(nodes, root) && f <= k < |nodes| - 1 && tmp == nodes[k]
    requires Pfns(nodes)[f] == Pfns(nodes)[k + 1] && Cleared(Pfns(nodes), f)
    requires Among(nodes, all) && FreedBut(all, nodes)
    modifies tmp`next, {nodes[k + 1]}`freed
    ensures Chain(rest, root) && rest == Without(nodes, k + 1) && FreedBut(all, rest) && Among(rest, all)
    ensures Firsts(Pfns(rest)) == Firsts(old(Pfns(nodes))) && Cleared(Pfns(rest), f)
  {
    hide Chain, Pfns, Firsts, Cleared, FreedBut;
    ghost var s := Pfns(nodes);
    ChainDistinct(nodes, root);
    FreedAreGone(all, nodes);
    rest := Unlink(tmp, nodes, root, k);
    OneFreed(nodes, root, k + 1);
    FreedMore(all, nodes, rest);
    assert Pfns(nodes) == s;
    PfnsWithout(nodes, k + 1);
    FirstsSkips(s, f, k + 1);
    ClearedWithout(s, f, k + 1);
  }

  /** The inner loop of pfnlist_mkunique: every later node with the number of `front` goes. */
  method RemoveLater(front: Node, ghost nodes: seq<Node>, ghost root: Node?, ghost f: nat, ghost all: seq<Node>)
      returns (removed: nat, ghost rest: seq<Node>)
    requires Chain(nodes, root) && f < |nodes| && front == nodes[f] && Cleared(Pfns(nodes), f)
    requires Among(nodes, all) && FreedBut(all, nodes)
    modifies Set(nodes)`next, Set(nodes)`freed
    ensures Chain(rest, root) && Among(rest, all) && f < |rest| && rest[f] == front && FreedBut(all, rest)
    ensures removed == |nodes| - |rest|
    ensures Firsts(Pfns(rest)) == Firsts(old(Pfns(nodes))) && Cleared(Pfns(rest), f + 1)
  {
    hide Firsts, Chain, Cleared, Pfns, FreedBut;
    removed, rest := 0, nodes;
    assert Among(rest, nodes);
    var tmp: Node?;
    ghost var k;
    NextOf(rest, root, f);
    tmp, k := FindParentOf(front, front.Next(), front.Pfn(), rest, root, f);
    while tmp != null
      invariant Chain(rest, root) && Among(rest, nodes) && f < |rest| && front == rest[f]
      invariant Among(rest, all) && FreedBut(all, rest)
      invariant Cleared(Pfns(rest), f) && removed == |nodes| - |rest|
      invariant Firsts(Pfns(rest)) == Firsts(old(Pfns(nodes)))
      invariant tmp == null ==> forall i | f < i < |rest| :: rest[i].pfn != front.pfn
      invariant tmp != null ==> f <= k < |rest| - 1 && tmp == rest[k] && rest[k + 1].pfn == front.pfn
      decreases |rest|
    {
      assert rest[k] in nodes && Pfns(rest)[f] == front.pfn && Pfns(rest)[k + 1] == front.pfn;
      assert tmp in Set(nodes);
      assert rest[k + 1] in nodes && rest[k + 1] in Set(nodes);
      rest := RemoveOne(tmp, rest, root, f, k, all);
      removed := removed + 1;
      NextOf(rest, root, f);
      tmp, k := FindParentOf(front, front.Next(), front.Pfn(), rest, root, f);
    }
    ClearsOneMore(Pfns(rest), f);
  }

  lemma NextOf(nodes: seq<Node>, root: Node?, f: nat)
    requires Chain(nodes, root) && f < |nodes|
    ensures !nodes[f].freed && nodes[f].next == At(nodes, f + 1)
  {
  }

  lemma ChainDistinct(nodes: seq<Node>, root: Node?)
    requires Chain(nodes, root)
    ensures forall i, j | 0 <= i < j < |nodes| :: nodes[i] != nodes[j]
  {
  }

  /** pfnlist_mkunique. What is left is the first occurrence of every number, in nodes of the
      old list; the others are freed, each once; what is returned is their number. */
  method MkUnique(root: Node?, ghost nodes: seq<Node>) returns (removed: nat, ghost rest: seq<Node>)
    requires Chain(nodes, root)
    modifies Set(nodes)`next, Set(nodes)`freed
    ensures Chain(rest, root) && Among(rest, nodes) && FreedBut(nodes, rest)
    ensures Pfns(rest) == Firsts(old(Pfns(nodes)))
    ensures removed == |nodes| - |rest|
  {
    hide Firsts;
    var front := root;
    removed, rest := 0, nodes;
    ghost var f := 0;
    NoneFreed(nodes, root);
    while front != null
      invariant Chain(rest, root) && Among(rest, nodes) && Cleared(Pfns(rest), f) && FreedBut(nodes, rest)
      invariant front == At(rest, f) && removed == |nodes| - |rest|
      invariant Firsts(Pfns(rest)) == Firsts(old(Pfns(nodes)))
      decreases |rest| - f
    {
      hide Cleared, Pfns, FreedBut, Chain;
      NextOf(rest, root, f);
      var n;
      n, rest := RemoveLater(front, rest, root, f, nodes);
      removed := removed + n;
      NextOf(rest, root, f);
      front := front.Next();
      f := f + 1;
    }
    FirstsOfDistinct(Pfns(rest));
  }

  /** What a report holds: mkunique, the size, and the array of that size. It has the first
      occurrence of every number that was in the list, and nothing else. */
  method ReportPfns(root: Node?, ghost nodes: seq<Node>)
      returns (pfn_list: array<nat>, pfn_list_length: nat, ghost rest: seq<Node>)
    requires Chain(nodes, root)
    modifies Set(nodes)`next, Set(nodes)`freed
    ensures fresh(pfn_list) && pfn_list_length == pfn_list.Length
    ensures pfn_list[..] == Firsts(old(Pfns(nodes)))
    ensures Chain(rest, root) && FreedBut(nodes, rest)
  {
    hide Firsts, Chain, FreedBut;
    var removed;
    removed, rest := MkUnique(root, nodes);
    pfn_list_length := Size(root, rest);
    pfn_list := MkArray(root, pfn_list_length, rest);
    assert pfn_list[..] == Pfns(rest);
  }
}
