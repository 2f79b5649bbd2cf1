/** Slot vectors: the `Vec<Option<_>>` arrays the keyed list keeps in parallel.
    A `None` entry is a hole left by `take()` while a pass is in progress. */
module Slots {

  datatype Option<+T> = None | Some(value: T)

  /** Every slot is filled. */
  predicate NoHoles<X>(s: seq<Option<X>>)
  {
    forall i :: 0 <= i < |s| ==> s[i].Some?
  }

  /** `s` after `take()` on every slot in `holes`. */
  function Punch<X>(s: seq<Option<X>>, holes: set<nat>): seq<Option<X>>
  {
    seq(|s|, i requires 0 <= i < |s| => if i in holes then None else s[i])
  }

  /** Every value in a slot of its own (`Some(item)` for each item, in order). */
  function Wrap<X>(xs: seq<X>): (r: seq<Option<X>>)
    ensures |r| == |xs| && NoHoles(r)
  {
    seq(|xs|, i requires 0 <= i < |xs| => Some(xs[i]))
  }

  /** `count` fresh holes, as `resize_with(len + count, || None)` appends them. */
  function Holes<X>(count: nat): seq<Option<X>>
  {
    seq(count, _ => None)
  }

  /** `drain_filter(|c| c.is_none())`: the slots that are filled, in their order. */
  function DropHoles<X>(s: seq<Option<X>>): (r: seq<Option<X>>)
    ensures NoHoles(r)
    ensures |r| <= |s|
    ensures forall x :: x in r ==> x in s
  {
    if s == [] then []
    else (if s[0].Some? then [s[0]] else []) + DropHoles(s[1..])
  }

  /** Dropping holes works piecewise: the relative order of filled slots is kept. */
  lemma {:induction false} DropHolesAppend<X>(a: seq<Option<X>>, b: seq<Option<X>>)
    ensures DropHoles(a + b) == DropHoles(a) + DropHoles(b)
  {
    if a == [] {
      assert a + b == b;
    } else {
      assert (a + b)[0] == a[0];
      assert (a + b)[1..] == a[1..] + b;
      DropHolesAppend(a[1..], b);
    }
  }

  /** A vector without holes is left as it is. */
  lemma {:induction false} DropHolesOfFilled<X>(s: seq<Option<X>>)
    requires NoHoles(s)
    ensures DropHoles(s) == s
  {
    if s != [] {
      DropHolesOfFilled(s[1..]);
    }
  }

  /** A vector of holes only is emptied. */
  lemma {:induction false} DropHolesOfEmptied<X>(s: seq<Option<X>>)
    requires forall i :: 0 <= i < |s| ==> s[i].None?
    ensures DropHoles(s) == []
  {
    if s != [] {
      DropHolesOfEmptied(s[1..]);
    }
  }

  /** The first `n` slots are filled and the rest are holes. */
  predicate FilledUpTo<X>(s: seq<Option<X>>, n: nat)
  {
    n <= |s| && forall i :: 0 <= i < |s| ==> (s[i].Some? <==> i < n)
  }

  /** Filled up to `n` and empty after it: dropping the holes keeps exactly the first `n` slots. */
  lemma DropHolesOfFilledPrefix<X>(s: seq<Option<X>>, n: nat)
    requires FilledUpTo(s, n)
    ensures DropHoles(s) == s[..n]
  {
    assert s == s[..n] + s[n..];
    DropHolesAppend(s[..n], s[n..]);
    DropHolesOfFilled(s[..n]);
    DropHolesOfEmptied(s[n..]);
  }
}
