/** The host tree under the keyed list's parent element, seen as the ordered
    sequence of its child nodes. The renderer's primitives are the DOM's:
    `insertBefore` (which first takes the node out of wherever it is) and
    `remove`. */
module HostTree {

  import opened Slots

  /** The retained state of one child view, reduced to the id of its node. */
  type ChildId = nat

  /** A child view's node, or a placeholder (an empty comment, such as the list's marker). */
  datatype Node = View(id: ChildId) | Placeholder(id: nat)

  /** A node sits in at most one place in the tree. */
  predicate Distinct(nodes: seq<Node>)
  {
    forall i, j :: 0 <= i < j < |nodes| ==> nodes[i] != nodes[j]
  }

  /** `nodes` with `n` taken out; the other nodes keep their order. */
  function Detach(nodes: seq<Node>, n: Node): (r: seq<Node>)
    ensures forall x :: x in r <==> x in nodes && x != n
    ensures |r| <= |nodes|
  {
    if nodes == [] then []
    else (if nodes[0] == n then [] else [nodes[0]]) + Detach(nodes[1..], n)
  }

  /** The position of `n`, its first occurrence. */
  function IndexOf(nodes: seq<Node>, n: Node): (i: nat)
    requires n in nodes
    ensures i < |nodes| && nodes[i] == n && n !in nodes[..i]
  {
    if nodes[0] == n then 0
    else
      var j := IndexOf(nodes[1..], n);
      assert nodes[..j + 1] == [nodes[0]] + nodes[1..][..j];
      j + 1
  }

  /** `parent.insertBefore(n, ref)` for a node `n` that is not in the tree:
      directly before `ref`, or at the end when there is no reference node. */
  function InsertBefore(nodes: seq<Node>, n: Node, ref: Option<Node>): (r: seq<Node>)
    requires ref.Some? ==> ref.value in nodes
    ensures forall x :: x in r <==> x in nodes || x == n
  {
    match ref
    case None => nodes + [n]
    case Some(x) =>
      var i := IndexOf(nodes, x);
      nodes[..i] + [n] + nodes[i..]
  }

  /** `parent.insertBefore(n, ref)` in general: a node already in the tree is moved,
      and inserting a node before itself leaves the tree as it is. */
  function MountBefore(nodes: seq<Node>, n: Node, ref: Option<Node>): (r: seq<Node>)
    requires ref.Some? ==> ref.value in nodes
    ensures forall x :: x in r <==> x in nodes || x == n
  {
    if ref == Some(n) then nodes
    else InsertBefore(Detach(nodes, n), n, ref)
  }

  /** Each filled slot's node taken out of the tree, slot after slot. */
  function DetachAll(nodes: seq<Node>, children: seq<Option<ChildId>>): (r: seq<Node>)
    ensures forall x :: x in r <==> x in nodes && !(x.View? && Some(x.id) in children)
    decreases |children|
  {
    if children == [] then nodes
    else
      var front := children[..|children| - 1];
      assert children == front + [children[|children| - 1]];
      var rest := DetachAll(nodes, front);
      match children[|children| - 1]
      case None => rest
      case Some(c) => Detach(rest, View(c))
  }

  /** `nodes` with every node of `ns` taken out, one after another. */
  function DetachEach(nodes: seq<Node>, ns: seq<Node>): (r: seq<Node>)
    ensures forall x :: x in r <==> x in nodes && x !in ns
    decreases |ns|
  {
    if ns == [] then nodes
    else
      var front := ns[..|ns| - 1];
      assert ns == front + [ns[|ns| - 1]];
      Detach(DetachEach(nodes, front), ns[|ns| - 1])
  }

  /** The run `ns` placed as one block directly before `ref` in `d` (at the end
      when there is no reference node or it is not in `d`). */
  function Spliced(d: seq<Node>, ns: seq<Node>, ref: Option<Node>): (r: seq<Node>)
    ensures |r| == |d| + |ns|
  {
    if ref.Some? && ref.value in d then
      var i := IndexOf(d, ref.value);
      d[..i] + ns + d[i..]
    else d + ns
  }

  lemma {:induction false} DetachAppend(a: seq<Node>, b: seq<Node>, n: Node)
    ensures Detach(a + b, n) == Detach(a, n) + Detach(b, n)
  {
    if a == [] {
      assert a + b == b;
    } else {
      assert (a + b)[0] == a[0];
      assert (a + b)[1..] == a[1..] + b;
      DetachAppend(a[1..], b, n);
    }
  }

  lemma {:induction false} DetachAbsent(s: seq<Node>, n: Node)
    requires n !in s
    ensures Detach(s, n) == s
  {
    if s != [] {
      DetachAbsent(s[1..], n);
    }
  }

  lemma {:induction false} DetachKeepsDistinct(s: seq<Node>, n: Node)
    requires Distinct(s)
    ensures Distinct(Detach(s, n))
  {
    if s != [] {
      DetachKeepsDistinct(s[1..], n);
      var head: seq<Node> := if s[0] == n then [] else [s[0]];
      var tail := Detach(s[1..], n);
      assert s[0] !in tail;
      assert Detach(s, n) == head + tail;
    }
  }

  /** Taking nodes out never puts two copies of a node in the tree. */
  lemma {:induction false} DetachAllKeepsDistinct(nodes: seq<Node>, children: seq<Option<ChildId>>)
    requires Distinct(nodes)
    ensures Distinct(DetachAll(nodes, children))
    decreases |children|
  {
    if children != [] {
      var front := children[..|children| - 1];
      DetachAllKeepsDistinct(nodes, front);
      if children[|children| - 1].Some? {
        DetachKeepsDistinct(DetachAll(nodes, front), View(children[|children| - 1].value));
      }
    }
  }

  lemma DistinctInsert(a: seq<Node>, b: seq<Node>, n: Node)
    requires Distinct(a + b)
    requires n !in a && n !in b
    ensures Distinct(a + [n] + b)
  {
    var s := a + [n] + b;
    forall i, j | 0 <= i < j < |s| ensures s[i] != s[j] {
      if i < |a| && j > |a| {
        assert s[i] == (a + b)[i] && s[j] == (a + b)[j - 1];
      } else if i > |a| {
        assert s[i] == (a + b)[i - 1] && s[j] == (a + b)[j - 1];
      } else if j < |a| {
        assert s[i] == (a + b)[i] && s[j] == (a + b)[j];
      }
    }
  }

  lemma IndexOfUnique(s: seq<Node>, n: Node, j: nat)
    requires j < |s| && s[j] == n && n !in s[..j]
    ensures IndexOf(s, n) == j
  {
  }

  /** After `insertBefore(n, ref)` the tree holds `n` once, directly before `ref`
      (or last when there is no reference node), and every other node is where
      it was relative to the rest. */
  lemma MountBeforePlaces(nodes: seq<Node>, n: Node, ref: Option<Node>)
    requires Distinct(nodes)
    requires ref.Some? ==> ref.value in nodes
    ensures Distinct(MountBefore(nodes, n, ref))
    ensures n in MountBefore(nodes, n, ref)
    ensures Detach(MountBefore(nodes, n, ref), n) == Detach(nodes, n)
    ensures ref.None? ==> MountBefore(nodes, n, ref)[|MountBefore(nodes, n, ref)| - 1] == n
    ensures ref.Some? && ref.value != n ==>
              var r := MountBefore(nodes, n, ref);
              IndexOf(r, n) + 1 < |r| && r[IndexOf(r, n) + 1] == ref.value
  {
    var r := MountBefore(nodes, n, ref);
    if ref == Some(n) {
      assert r == nodes;
    } else {
      var d := Detach(nodes, n);
      DetachKeepsDistinct(nodes, n);
      assert n !in d;
      if ref.None? {
        assert r == d + [n];
        AppendPlaces(d, n);
      } else {
        assert r == InsertBefore(d, n, ref);
        InsertPlaces(d, n, ref.value);
      }
    }
  }

  lemma AppendPlaces(d: seq<Node>, n: Node)
    requires Distinct(d) && n !in d
    ensures Distinct(d + [n]) && Detach(d + [n], n) == d
  {
    AppendDistinct(d, n);
    AppendDetach(d, n);
  }

  lemma AppendDistinct(d: seq<Node>, n: Node)
    requires Distinct(d) && n !in d
    ensures Distinct(d + [n])
  {
    var s := d + [n];
    forall i, j | 0 <= i < j < |s| ensures s[i] != s[j] {
      assert s[i] == d[i];
    }
  }

  lemma AppendDetach(d: seq<Node>, n: Node)
    requires n !in d
    ensures Detach(d + [n], n) == d
  {
    DetachAppend(d, [n], n);
    DetachSingle(n);
    DetachAbsent(d, n);
    assert d + [] == d;
  }

  lemma InsertPlaces(d: seq<Node>, n: Node, x: Node)
    requires Distinct(d) && n !in d && x in d
    ensures var r := InsertBefore(d, n, Some(x));
            Distinct(r) && Detach(r, n) == d && IndexOf(r, n) + 1 < |r| && r[IndexOf(r, n) + 1] == x
  {
    var i := IndexOf(d, x);
    var r := d[..i] + [n] + d[i..];
    assert InsertBefore(d, n, Some(x)) == r;
    assert d == d[..i] + d[i..];
    DistinctInsert(d[..i], d[i..], n);
    InsertedDetach(d[..i], d[i..], n);
    assert r[..i] == d[..i];
    IndexOfUnique(r, n, i);
    assert r[i + 1] == d[i];
  }

  lemma DetachSingle(n: Node)
    ensures Detach([n], n) == []
  {
    assert [n][1..] == [];
  }

  lemma InsertedDetach(a: seq<Node>, b: seq<Node>, n: Node)
    requires n !in a && n !in b
    ensures Detach(a + [n] + b, n) == a + b
  {
    calc {
      Detach(a + [n] + b, n);
    == { DetachAppend(a + [n], b, n); }
      Detach(a + [n], n) + Detach(b, n);
    == { DetachAppend(a, [n], n); DetachAbsent(b, n); }
      Detach(a, n) + Detach([n], n) + b;
    == { DetachAbsent(a, n); DetachSingle(n); }
      a + [] + b;
    == { assert a + [] == a; }
      a + b;
    }
  }

  /** The parent element into which the list mounts its children. */
  class Element {
    var nodes: seq<Node>

    constructor (nodes: seq<Node>)
      ensures this.nodes == nodes
    {
      this.nodes := nodes;
    }

    /** `parent.insertBefore(n, ref)`; with no reference node, `appendChild`. */
    method InsertBefore(n: Node, ref: Option<Node>)
      requires ref.Some? ==> ref.value in nodes
      modifies this
      ensures nodes == MountBefore(old(nodes), n, ref)
    {
      nodes := MountBefore(nodes, n, ref);
    }

    /** `node.remove()`: a node that is not in the tree is left alone. */
    method Remove(n: Node)
      modifies this
      ensures nodes == Detach(old(nodes), n)
    {
      nodes := Detach(nodes, n);
    }
  }
}
