/** The keyed list of views (`keyed_enumerate`): the retained state of a list
    whose children are identified by keys, built once, mounted into a parent
    element, and brought up to date against a new item list by applying an
    edit script in seven fixed steps. Each child also gets an index signal
    that the list keeps equal to the child's current position. */
module KeyedEnumerate {

  import opened Slots
  import opened HostTree
  import opened DiffOps
  import opened SlotSteps
  import opened Pass
  import IndexSet

  /** The `ArcWriteSignal<usize>` a child reads its index from; the list is its only writer. */
  class IndexSignal {
    var value: nat

    constructor (value: nat)
      ensures this.value == value
    {
      this.value := value;
    }

    /** `set`: a plain write (subscribers are not modelled). */
    method Set(v: nat)
      modifies this
      ensures value == v
    {
      value := v;
    }
  }

  /** Why a rebuild aborts: an index out of range or an `unwrap` of a hole in the
      removals, the moves or the additions, or the `expect` on a list that was
      never mounted. */
  datatype Panic = InRemoval | InMove | InAddition | NotMounted

  datatype Outcome = Completed | Panicked(reason: Panic)

  /** How steps 2 to 7 end on the vector `v` left by step 1: the first of the
      removals, the moves and the additions that does not fit panics. */
  function EditsOutcome<T>(v: seq<Option<ChildId>>, d: Diff, u: Unpacked, items: seq<Option<T>>): Outcome
  {
    if !RemovalsHit(v, d.removed) then Panicked(InRemoval)
    else if !MovesFit(Punch(v, RemovedSlots(d.removed)), |d.added|, u.moves) then Panicked(InMove)
    else if !AddsFit(u.adds, items, |v| + |d.added|) then Panicked(InAddition)
    else Completed
  }

  /** How `apply_diff` ends on the children `v`: a clear with nothing to add ends
      right after step 1. */
  function PassOutcome<T>(v: seq<Option<ChildId>>, d: Diff, u: Unpacked, items: seq<Option<T>>): Outcome
  {
    if d.clear && d.added == [] then Completed
    else EditsOutcome(if d.clear then [] else v, d, u, items)
  }

  /** An applicable script never panics on a list without holes. */
  lemma ApplicableCompletes<T>(v: seq<Option<ChildId>>, d: Diff, u: Unpacked, items: seq<Option<T>>)
    requires NoHoles(v)
    requires Applicable(d, u, |v|, items)
    ensures PassOutcome(v, d, u, items) == Completed
  {
    if !(d.clear && d.added == []) {
      var v0: seq<Option<ChildId>> := if d.clear then [] else v;
      PassFits(v0, d, u, |v|, items);
    }
  }

  /** The removals run on the vectors the clear has emptied, so a script that both
      clears, adds and removes panics at its first removal. */
  lemma ClearedRemovalPanics<T>(v: seq<Option<ChildId>>, d: Diff, u: Unpacked, items: seq<Option<T>>)
    requires d.clear && d.added != [] && d.removed != []
    ensures PassOutcome(v, d, u, items) == Panicked(InRemoval)
  {
    var cleared: seq<Option<ChildId>> := [];
    assert !RemovalsHit(cleared, d.removed) by {
      assert d.removed[0].at >= |cleared|;
    }
  }

  ghost function CellsOf(s: seq<Option<IndexSignal>>): set<IndexSignal>
  {
    set i | 0 <= i < |s| && s[i].Some? :: s[i].value
  }

  /** The value each slot's signal holds. */
  ghost function SignalValues(s: seq<Option<IndexSignal>>): (r: seq<Option<nat>>)
    reads CellsOf(s)
    ensures |r| == |s|
    ensures forall i :: 0 <= i < |s| ==> r[i] == if s[i].Some? then Some(s[i].value.value) else None
  {
    seq(|s|, i requires 0 <= i < |s| reads CellsOf(s) => if s[i].Some? then Some(s[i].value.value) else None)
  }

  /** Setting one signal of a vector whose signals are distinct leaves the others alone. */
  method SetSignal(s: seq<Option<IndexSignal>>, k: nat, v: nat)
    requires k < |s| && s[k].Some? && DistinctCells(s)
    modifies s[k].value
    ensures SignalValues(s) == old(SignalValues(s))[k := Some(v)]
  {
    s[k].value.Set(v);
  }

  /** The signals found at the (in-range) source slots of `moves`. */
  ghost function SourceCells(s: seq<Option<IndexSignal>>, moves: seq<DiffOpMove>): (r: set<IndexSignal>)
    ensures r <= CellsOf(s)
  {
    set k | 0 <= k < |moves| && moves[k].from < |s| && s[moves[k].from].Some? :: s[moves[k].from].value
  }

  /** No signal is held by two slots. */
  predicate DistinctCells(s: seq<Option<IndexSignal>>)
  {
    forall i, j :: 0 <= i < j < |s| && s[i].Some? && s[j].Some? ==> s[i].value != s[j].value
  }

  /** Every signal holds the position of its slot. */
  ghost predicate IndexesMatch(s: seq<Option<IndexSignal>>)
    reads CellsOf(s)
  {
    forall i :: 0 <= i < |s| && s[i].Some? ==> s[i].value.value == i
  }

  /** The key of each item, in order. */
  function KeysOf<T, K>(items: seq<T>, keyFn: T -> K): seq<K>
  {
    seq(|items|, i requires 0 <= i < |items| => keyFn(items[i]))
  }

  /** The node of every filled slot, in slot order (`iter_mut().flatten()`). */
  function ChildNodes(children: seq<Option<ChildId>>): (r: seq<Node>)
    ensures forall x :: x in r ==> x.View? && Some(x.id) in children
    ensures forall i :: 0 <= i < |children| && children[i].Some? ==> View(children[i].value) in r
  {
    if children == [] then []
    else (if children[0].Some? then [View(children[0].value)] else []) + ChildNodes(children[1..])
  }

  /** `insert_before_this_or_marker` on the state of `sibling`: before the sibling's
      node when that node is in the tree, otherwise before the marker. */
  function SiblingOrMarker(nodes: seq<Node>, sibling: Option<ChildId>, marker: Node): (r: Node)
    ensures marker in nodes ==> r in nodes
    ensures r == marker || (sibling.Some? && r == View(sibling.value) && r in nodes)
  {
    if sibling.Some? && View(sibling.value) in nodes then View(sibling.value) else marker
  }

  /** The node an addition is mounted in front of: the marker for `Append`; for
      `Normal`, the closest mounted sibling, or the marker when there is none. */
  function AddRef(nodes: seq<Node>, mode: DiffOpAddMode, sibling: Option<ChildId>, marker: Node): (r: Node)
    ensures marker in nodes ==> r in nodes
    ensures mode == Append ==> r == marker
  {
    if mode == Append then marker else SiblingOrMarker(nodes, sibling, marker)
  }

  /** The tree the DOM move-ins leave, from move `k` on, starting from the tree
      `nodes` and the children `children`: each DOM move mounts the child it took
      in front of the closest mounted sibling after `to` (or in front of the
      marker) and then puts it into slot `to`. Where the loop would panic the
      tree is left as it is at that point. */
  function DomMovesTree(nodes: seq<Node>, children: seq<Option<ChildId>>, moves: seq<DiffOpMove>,
                        taken: seq<Option<ChildId>>, nextSibling: (seq<Option<ChildId>>, nat) -> Option<ChildId>,
                        marker: Node, k: nat): seq<Node>
    requires k <= |moves| == |taken|
    decreases |moves| - k
  {
    if k == |moves| || marker !in nodes then nodes
    else if !moves[k].moveInDom then DomMovesTree(nodes, children, moves, taken, nextSibling, marker, k + 1)
    else if taken[k].None? then nodes
    else
      var child := taken[k].value;
      var mounted := MountBefore(nodes, View(child),
                                 Some(SiblingOrMarker(nodes, nextSibling(children, moves[k].to), marker)));
      if moves[k].to < |children| then
        DomMovesTree(mounted, children[moves[k].to := Some(child)], moves, taken, nextSibling, marker, k + 1)
      else mounted
  }

  /** A move that is not a DOM move leaves everything the DOM move-in loop keeps
      as it is: the vectors, the signal values, the nodes mounted and the tree
      the moves after it leave. */
  lemma NonDomStep<X>(nodes: seq<Node>, children: seq<Option<ChildId>>, r0: seq<Option<ChildId>>,
                      i0: seq<Option<X>>, vals0: seq<Option<nat>>, moves: seq<DiffOpMove>,
                      taken: seq<Option<ChildId>>, signals: seq<Option<X>>,
                      nextSibling: (seq<Option<ChildId>>, nat) -> Option<ChildId>, marker: Node, k: nat)
    requires k < |moves| == |taken| == |signals| == |vals0| && !moves[k].moveInDom && marker in nodes
    requires forall j :: 0 <= j < k && moves[j].moveInDom ==> moves[j].to < |r0| && moves[j].to < |i0|
    ensures Place(r0, moves, taken, true, k + 1) == Place(r0, moves, taken, true, k)
    ensures Place(i0, moves, signals, true, k + 1) == Place(i0, moves, signals, true, k)
    ensures Retargeted(vals0, moves, true, k + 1) == Retargeted(vals0, moves, true, k)
    ensures MovedNodes(moves, taken, k + 1) == MovedNodes(moves, taken, k)
    ensures DomMovesTree(nodes, children, moves, taken, nextSibling, marker, k)
            == DomMovesTree(nodes, children, moves, taken, nextSibling, marker, k + 1)
  {
    MovedNodesStep(moves, taken, k);
  }

  /** The tree the additions leave, from addition `k` on, starting from the tree
      `nodes`, the children `children` and the items not yet taken `rest`: each
      addition builds `viewFn(at, item)`, mounts it in front of its `AddRef` and
      puts it into slot `at`. Where the loop would panic the tree is left as it is
      at that point. */
  function AddsTree<T>(nodes: seq<Node>, children: seq<Option<ChildId>>, rest: seq<Option<T>>,
                       adds: seq<DiffOpAdd>, viewFn: (nat, T) -> ChildId,
                       nextSibling: (seq<Option<ChildId>>, nat) -> Option<ChildId>, marker: Node, k: nat): seq<Node>
    requires k <= |adds|
    decreases |adds| - k
  {
    if k == |adds| || marker !in nodes then nodes
    else
      var at := adds[k].at;
      if at >= |rest| || rest[at].None? then nodes
      else
        var child := viewFn(at, rest[at].value);
        var mounted := MountBefore(nodes, View(child),
                                   Some(AddRef(nodes, adds[k].mode, nextSibling(children, at), marker)));
        if at < |children| then
          AddsTree(mounted, children[at := Some(child)], rest[at := None], adds, viewFn, nextSibling, marker, k + 1)
        else mounted
  }

  /** The tree steps 2 to 6 leave, starting from the tree `nodes` and the
      children `v` step 1 left: the removed children are unmounted, the DOM
      move-ins mount theirs (on the children the non-DOM move-ins left), and the
      additions mount the children they build. */
  function EditsTree<T>(nodes: seq<Node>, v: seq<Option<ChildId>>, d: Diff, u: Unpacked, items: seq<Option<T>>,
                        viewFn: (nat, T) -> ChildId, nextSibling: (seq<Option<ChildId>>, nat) -> Option<ChildId>,
                        marker: Node): seq<Node>
    requires EditsOutcome(v, d, u, items) == Completed
  {
    var punched := Punch(v, RemovedSlots(d.removed));
    var removed := DetachAll(nodes, RemovedChildren(v, d.removed));
    var moved := DomMovesTree(removed, InPlaceMoved(punched, |d.added|, u.moves), u.moves,
                              TakenOut(punched, u.moves), nextSibling, marker, 0);
    AddsTree(moved, Moved(v, d, u), items, u.adds, viewFn, nextSibling, marker, 0)
  }

  /** `KeyedEnumerateState`: the retained state of a keyed list. */
  class KeyedEnumerateState<K(==)> {
    /** The element the list was mounted into; `None` until `mount`. */
    var parent: Element?
    /** The placeholder that ends the list in the host tree. */
    const marker: Node
    /** The keys of the current children, in order. */
    var hashedItems: seq<K>
    /** The children's retained states. */
    var renderedItems: seq<Option<ChildId>>
    /** The children's index signals, parallel to `renderedItems`. */
    var indexItems: seq<Option<IndexSignal>>

    ghost function Cells(): set<IndexSignal>
      reads this`indexItems
    {
      CellsOf(indexItems)
    }

    /** Between passes: both vectors have one filled slot per child, every child
        has its own signal, and each signal holds its child's position. */
    ghost predicate Valid()
      reads this`renderedItems, this`indexItems, Cells()
    {
      && marker.Placeholder?
      && |renderedItems| == |indexItems|
      && NoHoles(renderedItems)
      && NoHoles(indexItems)
      && DistinctCells(indexItems)
      && IndexesMatch(indexItems)
    }

    constructor (marker: Node, hashedItems: seq<K>, renderedItems: seq<Option<ChildId>>,
                 indexItems: seq<Option<IndexSignal>>)
      ensures this.parent == null && this.marker == marker && this.hashedItems == hashedItems
      ensures this.renderedItems == renderedItems && this.indexItems == indexItems
    {
      this.parent := null;
      this.marker := marker;
      this.hashedItems := hashedItems;
      this.renderedItems := renderedItems;
      this.indexItems := indexItems;
    }

    /** `Mountable::mount`: remember the parent, then mount every child and
        finally the marker, each directly before `ref` (appended when `None`). */
    method Mount(p: Element, ref: Option<Node>)
      requires ref.Some? ==> ref.value in p.nodes
      modifies this`parent, p
      ensures parent == p
      ensures p.nodes == MountAll(old(p.nodes), ChildNodes(renderedItems) + [marker], ref)
      ensures var ns := ChildNodes(renderedItems) + [marker];
              Distinct(ns) && (ref.Some? ==> ref.value !in ns) ==>
                p.nodes == Spliced(DetachEach(old(p.nodes), ns), ns, ref)
    {
      parent := p;
      var ns := ChildNodes(renderedItems) + [marker];
      MountNodes(p, ns, ref);
      if Distinct(ns) && (ref.Some? ==> ref.value !in ns) {
        MountAllPlaces(old(p.nodes), ns, ref);
      }
    }

    /** `Mountable::unmount`: every child's node and then the marker leave the tree.
        A list that was never mounted has nothing in any tree. */
    method Unmount()
      modifies parent
      ensures parent != null ==>
                parent.nodes == Detach(DetachAll(old(parent.nodes), renderedItems), marker)
    {
      if parent != null {
        var i := 0;
        while i < |renderedItems|
          invariant 0 <= i <= |renderedItems|
          invariant parent.nodes == DetachAll(old(parent.nodes), renderedItems[..i])
        {
          assert renderedItems[..i + 1][..i] == renderedItems[..i];
          if renderedItems[i].Some? {
            parent.Remove(View(renderedItems[i].value));
          }
          i := i + 1;
        }
        assert renderedItems[..i] == renderedItems;
        parent.Remove(marker);
      }
    }

    /** `rebuild`: key the new items, let `diff` compute the edit script from the
        old keys to the new ones, apply it in the parent the list was mounted
        into, and keep the new keys. Rebuilding a list that was never mounted
        panics before anything changes. */
    method Rebuild<T>(newItems: seq<T>, keyFn: T -> K, viewFn: (nat, T) -> ChildId,
                      diff: (seq<K>, seq<K>) -> Diff, unpack: Diff -> Unpacked,
                      nextSibling: (seq<Option<ChildId>>, nat) -> Option<ChildId>)
      returns (r: Outcome)
      requires Valid()
      requires parent != null ==> marker in parent.nodes
      modifies this`renderedItems, this`indexItems, this`hashedItems, Cells(), parent
      ensures parent == null ==>
                && r == Panicked(NotMounted)
                && hashedItems == old(hashedItems)
                && renderedItems == old(renderedItems) && indexItems == old(indexItems)
      ensures parent != null ==>
                var d := diff(old(hashedItems), IndexSet.FromKeys(KeysOf(newItems, keyFn)));
                r == PassOutcome(old(renderedItems), d, unpack(d), Wrap(newItems))
      ensures r == Completed ==> hashedItems == IndexSet.FromKeys(KeysOf(newItems, keyFn))
      ensures r == Completed ==>
                var d := diff(old(hashedItems), IndexSet.FromKeys(KeysOf(newItems, keyFn)));
                Applicable(d, unpack(d), |old(renderedItems)|, Wrap(newItems)) ==>
                  && Valid()
                  && |renderedItems| == |newItems|
                  && (!(d.clear && d.added == []) ==>
                        var u := unpack(d);
                        var i0 := if d.clear then [] else old(indexItems);
                        && renderedItems == Reconciled(if d.clear then [] else old(renderedItems),
                                                       d, u, Wrap(newItems), viewFn)
                        && (forall i :: 0 <= i < |indexItems| && i !in Ats(u.adds) ==>
                              indexItems[i] == Moved(i0, d, u)[i])
                        && (forall i :: 0 <= i < |indexItems| && i in Ats(u.adds) ==> fresh(indexItems[i].value)))
      ensures r == Completed ==>
                && parent != null && marker in parent.nodes
                && (Distinct(old(parent.nodes)) ==> Distinct(parent.nodes))
      ensures r == Completed ==>
                var d := diff(old(hashedItems), IndexSet.FromKeys(KeysOf(newItems, keyFn)));
                if d.clear && d.added == [] then
                  && renderedItems == [] && indexItems == []
                  && parent.nodes == DetachAll(old(parent.nodes), old(renderedItems))
                else
                  parent.nodes == EditsTree(if d.clear then DetachAll(old(parent.nodes), old(renderedItems))
                                            else old(parent.nodes),
                                            if d.clear then [] else old(renderedItems),
                                            d, unpack(d), Wrap(newItems), viewFn, nextSibling, marker)
    {
      var newHashedItems, items := HashItems(newItems, keyFn);
      if parent == null {
        return Panicked(NotMounted);
      }
      r := ApplyAndStore(parent, newHashedItems, items, viewFn, diff, unpack, nextSibling);
    }

    /** The mounted half of `rebuild`: apply the script from the old keys to
        `newHashedItems` in `p`, then keep the new keys if the pass completed. */
    method ApplyAndStore<T>(p: Element, newHashedItems: seq<K>, items: seq<Option<T>>, viewFn: (nat, T) -> ChildId,
                            diff: (seq<K>, seq<K>) -> Diff, unpack: Diff -> Unpacked,
                            nextSibling: (seq<Option<ChildId>>, nat) -> Option<ChildId>)
      returns (r: Outcome)
      requires Valid() && marker in p.nodes
      modifies this`renderedItems, this`indexItems, this`hashedItems, Cells(), p
      ensures var d := diff(old(hashedItems), newHashedItems);
              r == PassOutcome(old(renderedItems), d, unpack(d), items)
      ensures hashedItems == if r == Completed then newHashedItems else old(hashedItems)
      ensures r == Completed ==>
                var d := diff(old(hashedItems), newHashedItems);
                Applicable(d, unpack(d), |old(renderedItems)|, items) ==>
                  && Valid()
                  && |renderedItems| == |items|
                  && (!(d.clear && d.added == []) ==>
                        var u := unpack(d);
                        var i0 := if d.clear then [] else old(indexItems);
                        && renderedItems == Reconciled(if d.clear then [] else old(renderedItems), d, u, items, viewFn)
                        && (forall i :: 0 <= i < |indexItems| && i !in Ats(u.adds) ==>
                              indexItems[i] == Moved(i0, d, u)[i])
                        && (forall i :: 0 <= i < |indexItems| && i in Ats(u.adds) ==> fresh(indexItems[i].value)))
      ensures r == Completed ==> marker in p.nodes && (Distinct(old(p.nodes)) ==> Distinct(p.nodes))
      ensures r == Completed ==>
                var d := diff(old(hashedItems), newHashedItems);
                if d.clear && d.added == [] then
                  && renderedItems == [] && indexItems == []
                  && p.nodes == DetachAll(old(p.nodes), old(renderedItems))
                else
                  p.nodes == EditsTree(if d.clear then DetachAll(old(p.nodes), old(renderedItems)) else old(p.nodes),
                                       if d.clear then [] else old(renderedItems),
                                       d, unpack(d), items, viewFn, nextSibling, marker)
    {
      var d := diff(hashedItems, newHashedItems);
      r := ApplyDiff(p, d, unpack, items, viewFn, nextSibling);
      if r == Completed {
        hashedItems := newHashedItems;
      }
    }

    /** `apply_diff`: bring the children and their signals up to date with `items`
        by the script `d`, in seven steps: clear, removals, move-out, resize,
        move-ins (non-DOM, then DOM), additions, and draining the holes. The
        commands are those `unpack` (`unpack_moves`) derives from `d`. */
    method ApplyDiff<T>(p: Element, d: Diff, unpack: Diff -> Unpacked, items: seq<Option<T>>,
                        viewFn: (nat, T) -> ChildId,
                        nextSibling: (seq<Option<ChildId>>, nat) -> Option<ChildId>)
      returns (r: Outcome)
      requires Valid() && marker in p.nodes
      modifies this`renderedItems, this`indexItems, Cells(), p
      ensures r == PassOutcome(old(renderedItems), d, unpack(d), items)
      ensures d.clear && d.added == [] ==>
                && renderedItems == [] && indexItems == []
                && p.nodes == DetachAll(old(p.nodes), old(renderedItems))
      ensures r == Completed && Applicable(d, unpack(d), |old(renderedItems)|, items) && !(d.clear && d.added == []) ==>
                var u := unpack(d);
                var v0 := if d.clear then [] else old(renderedItems);
                var i0 := if d.clear then [] else old(indexItems);
                && Valid()
                && renderedItems == Reconciled(v0, d, u, items, viewFn)
                && |indexItems| == |items|
                && (forall i :: 0 <= i < |indexItems| && i !in Ats(u.adds) ==> indexItems[i] == Moved(i0, d, u)[i])
                && (forall i :: 0 <= i < |indexItems| && i in Ats(u.adds) ==> fresh(indexItems[i].value))
      ensures r == Completed ==> marker in p.nodes
      ensures r == Completed && Distinct(old(p.nodes)) ==> Distinct(p.nodes)
      ensures r == Completed && !(d.clear && d.added == []) ==>
                p.nodes == EditsTree(if d.clear then DetachAll(old(p.nodes), old(renderedItems)) else old(p.nodes),
                                     if d.clear then [] else old(renderedItems),
                                     d, unpack(d), items, viewFn, nextSibling, marker)
    {
      if d.clear {
        ClearAll(p);
        if Distinct(old(p.nodes)) {
          DetachAllKeepsDistinct(old(p.nodes), old(renderedItems));
        }
        if d.added == [] {
          return Completed;
        }
      }
      r := ApplyEdits(p, d, unpack(d), |old(renderedItems)|, items, viewFn, nextSibling);
    }

    /** Steps 2 to 7, on the vectors step 1 left (of length `BaseLength(d, len)`). */
    method ApplyEdits<T>(p: Element, d: Diff, u: Unpacked, ghost len: nat, items: seq<Option<T>>,
                         viewFn: (nat, T) -> ChildId,
                         nextSibling: (seq<Option<ChildId>>, nat) -> Option<ChildId>)
      returns (r: Outcome)
      requires Valid() && marker in p.nodes
      requires |renderedItems| == BaseLength(d, len)
      modifies this`renderedItems, this`indexItems, Cells(), p
      ensures r == EditsOutcome(old(renderedItems), d, u, items)
      ensures r == Completed && Applicable(d, u, len, items) && !(d.clear && d.added == []) ==>
                && Valid()
                && renderedItems == Reconciled(old(renderedItems), d, u, items, viewFn)
                && |indexItems| == |items|
                && (forall i :: 0 <= i < |indexItems| && i !in Ats(u.adds) ==>
                      indexItems[i] == Moved(old(indexItems), d, u)[i])
                && (forall i :: 0 <= i < |indexItems| && i in Ats(u.adds) ==> fresh(indexItems[i].value))
      ensures r == Completed ==> marker in p.nodes
      ensures r == Completed && Distinct(old(p.nodes)) ==> Distinct(p.nodes)
      ensures r == Completed ==>
                p.nodes == EditsTree(old(p.nodes), old(renderedItems), d, u, items, viewFn, nextSibling, marker)
    {
      ghost var v0, i0 := renderedItems, indexItems;
      r := ApplyCommands(p, d, u, items, viewFn, nextSibling);
      if r != Completed {
        return;
      }
      DrainPass(d, u, len, items, viewFn, v0, i0);
    }

    /** Step 7 once steps 2 to 6 ran on the vectors `v0` and `i0`: for an applicable
        script the drained vectors are the reconciled children and their signals. */
    method DrainPass<T>(d: Diff, u: Unpacked, ghost len: nat, items: seq<Option<T>>, viewFn: (nat, T) -> ChildId,
                        ghost v0: seq<Option<ChildId>>, ghost i0: seq<Option<IndexSignal>>)
      requires marker.Placeholder?
      requires |v0| == |i0| == BaseLength(d, len) && NoHoles(v0) && NoHoles(i0)
      requires MovesFit(Punch(v0, RemovedSlots(d.removed)), |d.added|, u.moves)
      requires forall i :: i in Ats(u.adds) ==> i < |items| && items[i].Some?
      requires renderedItems == AddedChildren(Moved(v0, d, u), Ats(u.adds), items, viewFn)
      requires |indexItems| == |renderedItems|
      requires forall i :: 0 <= i < |indexItems| && i !in Ats(u.adds) ==> indexItems[i] == Moved(i0, d, u)[i]
      requires forall i :: 0 <= i < |indexItems| && i in Ats(u.adds) ==> indexItems[i].Some?
      requires DistinctEnds(u.moves) ==> IndexesMatch(indexItems) && DistinctCells(indexItems)
      modifies this`renderedItems, this`indexItems
      ensures Applicable(d, u, len, items) && !(d.clear && d.added == []) ==>
                && Valid()
                && renderedItems == Reconciled(v0, d, u, items, viewFn)
                && |indexItems| == |items|
                && (forall i :: 0 <= i < |indexItems| && i !in Ats(u.adds) ==> indexItems[i] == Moved(i0, d, u)[i])
                && (forall i :: 0 <= i < |indexItems| && i in Ats(u.adds) ==> indexItems[i] == old(indexItems)[i])
    {
      if Applicable(d, u, len, items) && !(d.clear && d.added == []) {
        DrainedPrefix(v0, d, u, len, items, renderedItems);
        DrainedPrefix(i0, d, u, len, items, indexItems);
      }
      DrainHoles(|items|);
    }

    /** Step 7: drop the holes from both vectors. When both are filled exactly up
        to `n`, this keeps their first `n` slots, and signals that were distinct
        and held their slots still do. */
    method DrainHoles(ghost n: nat)
      requires |renderedItems| == |indexItems|
      modifies this`renderedItems, this`indexItems
      ensures renderedItems == DropHoles(old(renderedItems)) && indexItems == DropHoles(old(indexItems))
      ensures FilledUpTo(old(renderedItems), n) && FilledUpTo(old(indexItems), n) ==>
                && renderedItems == old(renderedItems)[..n]
                && indexItems == old(indexItems)[..n]
                && (old(IndexesMatch(indexItems)) && DistinctCells(old(indexItems)) ==>
                      IndexesMatch(indexItems) && DistinctCells(indexItems))
    {
      if FilledUpTo(renderedItems, n) && FilledUpTo(indexItems, n) {
        DropHolesOfFilledPrefix(renderedItems, n);
        DropHolesOfFilledPrefix(indexItems, n);
        PrefixCells(indexItems, n);
      }
      renderedItems := DropHoles(renderedItems);
      indexItems := DropHoles(indexItems);
    }

    /** Steps 2 to 6: removals, move-out, resize, move-ins and additions, leaving
        the holes in place. The signals stay distinct and each holds its slot
        when no two moves share a source or a destination. */
    method ApplyCommands<T>(p: Element, d: Diff, u: Unpacked, items: seq<Option<T>>,
                            viewFn: (nat, T) -> ChildId,
                            nextSibling: (seq<Option<ChildId>>, nat) -> Option<ChildId>)
      returns (r: Outcome)
      requires Valid() && marker in p.nodes
      modifies this`renderedItems, this`indexItems, Cells(), p
      ensures r == EditsOutcome(old(renderedItems), d, u, items)
      ensures r == Completed ==>
                && MovesFit(Punch(old(renderedItems), RemovedSlots(d.removed)), |d.added|, u.moves)
                && (forall i :: i in Ats(u.adds) ==> i < |items| && items[i].Some?)
                && renderedItems == AddedChildren(Moved(old(renderedItems), d, u), Ats(u.adds), items, viewFn)
                && |indexItems| == |renderedItems|
                && (forall i :: 0 <= i < |indexItems| && i !in Ats(u.adds) ==>
                      indexItems[i] == Moved(old(indexItems), d, u)[i])
                && (forall i :: 0 <= i < |indexItems| && i in Ats(u.adds) ==>
                      indexItems[i].Some? && fresh(indexItems[i].value))
                && (DistinctEnds(u.moves) ==> IndexesMatch(indexItems) && DistinctCells(indexItems))
                && marker in p.nodes
                && (Distinct(old(p.nodes)) ==> Distinct(p.nodes))
      ensures r == Completed ==>
                p.nodes == EditsTree(old(p.nodes), old(renderedItems), d, u, items, viewFn, nextSibling, marker)
    {
      ghost var v0, i0 := renderedItems, indexItems;
      var ok := RemoveAll(p, d.removed);
      if !ok {
        return Panicked(InRemoval);
      }
      assert IndexesMatch(i0);
      PunchCells(i0, RemovedSlots(d.removed));
      if Distinct(old(p.nodes)) {
        DetachAllKeepsDistinct(old(p.nodes), RemovedChildren(v0, d.removed));
      }
      ok := MoveAll(p, u.moves, |d.added|, nextSibling);
      if !ok {
        return Panicked(InMove);
      }
      ghost var matched := IndexesMatch(indexItems) && DistinctCells(indexItems);
      assert DistinctEnds(u.moves) ==> matched;
      ok := AddAll(p, u.adds, items, viewFn, nextSibling);
      if !ok {
        return Panicked(InAddition);
      }
      assert matched ==> IndexesMatch(indexItems) && DistinctCells(indexItems);
      r := Completed;
    }

    /** Step 1, when `diff.clear`: drop every index signal, then unmount every
        child in slot order, leaving both vectors empty. */
    method ClearAll(p: Element)
      modifies this`renderedItems, this`indexItems, p
      ensures renderedItems == [] && indexItems == []
      ensures p.nodes == DetachAll(old(p.nodes), old(renderedItems))
    {
      indexItems := [];
      var i := 0;
      while i < |renderedItems|
        invariant 0 <= i <= |renderedItems|
        invariant renderedItems == old(renderedItems) && indexItems == []
        invariant p.nodes == DetachAll(old(p.nodes), renderedItems[..i])
      {
        assert renderedItems[..i + 1][..i] == renderedItems[..i];
        if renderedItems[i].Some? {
          p.Remove(View(renderedItems[i].value));
        }
        i := i + 1;
      }
      assert renderedItems[..i] == renderedItems;
      renderedItems := [];
    }

    /** Step 2: each removal takes the signal and the child out of slot `at`, leaving
        holes, and unmounts that child. A removal out of range or onto a hole panics. */
    method RemoveAll(p: Element, removed: seq<DiffOpRemove>) returns (ok: bool)
      requires |renderedItems| == |indexItems|
      modifies this`renderedItems, this`indexItems, p
      ensures ok <==> RemovalsHit(old(renderedItems), removed)
      ensures ok ==> renderedItems == Punch(old(renderedItems), RemovedSlots(removed))
      ensures ok ==> indexItems == Punch(old(indexItems), RemovedSlots(removed))
      ensures ok ==> p.nodes == DetachAll(old(p.nodes), RemovedChildren(old(renderedItems), removed))
    {
      var k := 0;
      while k < |removed|
        invariant 0 <= k <= |removed|
        invariant RemovalsHit(old(renderedItems), removed[..k])
        invariant renderedItems == Punch(old(renderedItems), RemovedSlots(removed[..k]))
        invariant indexItems == Punch(old(indexItems), RemovedSlots(removed[..k]))
        invariant p.nodes == DetachAll(old(p.nodes), RemovedChildren(old(renderedItems), removed[..k]))
      {
        var at := removed[k].at;
        RemovalStep(old(renderedItems), removed, k);
        if at < |renderedItems| {
          PunchStep(old(renderedItems), RemovedSlots(removed[..k]), at);
          PunchStep(old(indexItems), RemovedSlots(removed[..k]), at);
        }
        ok := RemoveOne(p, at);
        if !ok {
          return;
        }
        k := k + 1;
      }
      assert removed[..k] == removed;
      ok := true;
    }

    /** One removal: `index_items[at].take()`, then `children[at].take().unwrap()`
        and `unmount` of that child. */
    method RemoveOne(p: Element, at: nat) returns (ok: bool)
      requires |renderedItems| == |indexItems|
      modifies this`renderedItems, this`indexItems, p
      ensures ok <==> at < |old(renderedItems)| && old(renderedItems)[at].Some?
      ensures ok ==> renderedItems == old(renderedItems)[at := None]
      ensures ok ==> indexItems == old(indexItems)[at := None]
      ensures ok ==> p.nodes == Detach(old(p.nodes), View(old(renderedItems)[at].value))
    {
      if at >= |indexItems| {
        return false;
      }
      indexItems := indexItems[at := None];
      if renderedItems[at].None? {
        return false;
      }
      var child := renderedItems[at].value;
      renderedItems := renderedItems[at := None];
      p.Remove(View(child));
      ok := true;
    }

    /** Steps 3 to 5: move-out, resize both vectors by `n` holes, then the non-DOM
        and the DOM move-ins. Only the signals found at the move sources are set;
        with distinct sources and destinations every signal ends up holding its slot. */
    method MoveAll(p: Element, moves: seq<DiffOpMove>, n: nat,
                   nextSibling: (seq<Option<ChildId>>, nat) -> Option<ChildId>)
      returns (ok: bool)
      requires |renderedItems| == |indexItems|
      requires DistinctCells(indexItems)
      requires marker in p.nodes
      modifies this`renderedItems, this`indexItems, SourceCells(indexItems, moves), p
      ensures ok <==> MovesFit(old(renderedItems), n, moves)
      ensures ok ==> renderedItems == AfterMoves(old(renderedItems), n, moves)
      ensures ok ==> indexItems == AfterMoves(old(indexItems), n, moves)
      ensures ok && DistinctEnds(moves) ==> DistinctCells(indexItems)
      ensures ok && DistinctEnds(moves) && old(IndexesMatch(indexItems)) ==> IndexesMatch(indexItems)
      ensures ok ==> p.nodes == DomMovesTree(old(p.nodes), InPlaceMoved(old(renderedItems), n, moves), moves,
                                             TakenOut(old(renderedItems), moves), nextSibling, marker, 0)
      ensures marker in p.nodes
      ensures Distinct(old(p.nodes)) ==> Distinct(p.nodes)
    {
      ok := MoveSlots(p, moves, n, nextSibling);
      if ok && DistinctEnds(moves) {
        AfterMovesCells(old(indexItems), n, moves);
        if old(IndexesMatch(indexItems)) {
          forall i | 0 <= i < |indexItems| && indexItems[i].Some?
            ensures indexItems[i].value.value == i
          {
            var src, moved, k := SlotSource(old(indexItems), n, moves, i);
            if moved {
              TakenOutDistinct(old(indexItems), moves);
              assert indexItems[i] == TakenOut(old(indexItems), moves)[k];
            } else {
              NotTaken(old(indexItems), moves, i);
            }
          }
        }
      }
    }

    /** The slot and signal updates of steps 3 to 5. */
    method MoveSlots(p: Element, moves: seq<DiffOpMove>, n: nat,
                     nextSibling: (seq<Option<ChildId>>, nat) -> Option<ChildId>)
      returns (ok: bool)
      requires |renderedItems| == |indexItems|
      requires DistinctCells(indexItems)
      requires marker in p.nodes
      modifies this`renderedItems, this`indexItems, SourceCells(indexItems, moves), p
      ensures ok <==> MovesFit(old(renderedItems), n, moves)
      ensures ok ==> renderedItems == AfterMoves(old(renderedItems), n, moves)
      ensures ok ==> indexItems == AfterMoves(old(indexItems), n, moves)
      ensures ok ==> forall k :: 0 <= k < |moves| && TakenOut(old(indexItems), moves)[k].Some? ==>
                       TakenOut(old(indexItems), moves)[k].value.value == moves[k].to
      ensures ok ==> p.nodes == DomMovesTree(old(p.nodes), InPlaceMoved(old(renderedItems), n, moves), moves,
                                             TakenOut(old(renderedItems), moves), nextSibling, marker, 0)
      ensures marker in p.nodes
      ensures Distinct(old(p.nodes)) ==> Distinct(p.nodes)
    {
      var movedChildren, movedIndexItems;
      ok, movedChildren, movedIndexItems := MoveOut(moves);
      if !ok {
        return;
      }
      TakenOutCells(old(indexItems), moves);
      renderedItems := renderedItems + Holes(n);
      indexItems := indexItems + Holes(n);
      ghost var values := SignalValues(movedIndexItems);
      ok := MoveInPlace(moves, movedChildren, movedIndexItems);
      if !ok {
        return;
      }
      ok := MoveInDom(p, moves, movedChildren, movedIndexItems, nextSibling);
      if ok {
        assert SignalValues(movedIndexItems)
               == Retargeted(Retargeted(values, moves, false, |moves|), moves, true, |moves|);
      }
    }

    /** Step 3: take the child and the signal out of every move's source slot, all
        before any move-in. A source out of range panics; a source taken twice
        yields `None` the second time. */
    method MoveOut(moves: seq<DiffOpMove>)
      returns (ok: bool, movedChildren: seq<Option<ChildId>>, movedIndexItems: seq<Option<IndexSignal>>)
      requires |renderedItems| == |indexItems|
      modifies this`renderedItems, this`indexItems
      ensures ok <==> forall k :: 0 <= k < |moves| ==> moves[k].from < |old(renderedItems)|
      ensures ok ==> renderedItems == Punch(old(renderedItems), Froms(moves))
      ensures ok ==> indexItems == Punch(old(indexItems), Froms(moves))
      ensures ok ==> movedChildren == TakenOut(old(renderedItems), moves)
      ensures ok ==> movedIndexItems == TakenOut(old(indexItems), moves)
    {
      movedChildren, movedIndexItems := [], [];
      var k := 0;
      while k < |moves|
        invariant 0 <= k <= |moves|
        invariant forall j :: 0 <= j < k ==> moves[j].from < |old(renderedItems)|
        invariant renderedItems == Punch(old(renderedItems), Froms(moves[..k]))
        invariant indexItems == Punch(old(indexItems), Froms(moves[..k]))
        invariant movedChildren == TakenOut(old(renderedItems), moves[..k])
        invariant movedIndexItems == TakenOut(old(indexItems), moves[..k])
      {
        var from := moves[k].from;
        if from >= |renderedItems| {
          return false, movedChildren, movedIndexItems;
        }
        MoveOutStep(old(renderedItems), moves, k);
        MoveOutStep(old(indexItems), moves, k);
        movedChildren := movedChildren + [renderedItems[from]];
        renderedItems := renderedItems[from := None];
        movedIndexItems := movedIndexItems + [indexItems[from]];
        indexItems := indexItems[from := None];
        k := k + 1;
      }
      assert moves[..k] == moves;
      ok := true;
    }

    /** Step 5, first loop: every move with `moveInDom` false puts its child into
        slot `to` and sets its signal to `to`; the host tree is not touched.
        A destination out of range panics. */
    method MoveInPlace(moves: seq<DiffOpMove>, movedChildren: seq<Option<ChildId>>,
                       movedIndexItems: seq<Option<IndexSignal>>)
      returns (ok: bool)
      requires |renderedItems| == |indexItems|
      requires |movedChildren| == |movedIndexItems| == |moves|
      requires DistinctCells(movedIndexItems)
      modifies this`renderedItems, this`indexItems, CellsOf(movedIndexItems)
      ensures ok <==> forall k :: 0 <= k < |moves| && !moves[k].moveInDom ==> moves[k].to < |old(renderedItems)|
      ensures ok ==> renderedItems == Place(old(renderedItems), moves, movedChildren, false, |moves|)
      ensures ok ==> indexItems == Place(old(indexItems), moves, movedIndexItems, false, |moves|)
      ensures ok ==> SignalValues(movedIndexItems)
                     == Retargeted(old(SignalValues(movedIndexItems)), moves, false, |moves|)
    {
      var k := 0;
      while k < |moves|
        invariant 0 <= k <= |moves|
        invariant forall j :: 0 <= j < k && !moves[j].moveInDom ==> moves[j].to < |old(renderedItems)|
        invariant renderedItems == Place(old(renderedItems), moves, movedChildren, false, k)
        invariant indexItems == Place(old(indexItems), moves, movedIndexItems, false, k)
        invariant SignalValues(movedIndexItems)
                  == Retargeted(old(SignalValues(movedIndexItems)), moves, false, k)
      {
        RetargetStep(old(SignalValues(movedIndexItems)), moves, false, k);
        if !moves[k].moveInDom && moves[k].to >= |renderedItems| {
          return false;
        }
        if !moves[k].moveInDom {
          PutBack(moves[k].to, movedChildren[k], movedIndexItems, k);
        }
        k := k + 1;
      }
      ok := true;
    }

    /** One move-in: the child goes into slot `to`, and the signal taken with it goes
        there too after being set to `to`. */
    method PutBack(to: nat, child: Option<ChildId>, signals: seq<Option<IndexSignal>>, k: nat)
      requires to < |renderedItems| && to < |indexItems|
      requires k < |signals| && DistinctCells(signals)
      modifies this`renderedItems, this`indexItems, CellsOf(signals)
      ensures renderedItems == old(renderedItems)[to := child]
      ensures indexItems == old(indexItems)[to := signals[k]]
      ensures SignalValues(signals)
              == if signals[k].Some? then old(SignalValues(signals))[k := Some(to)] else old(SignalValues(signals))
    {
      renderedItems := renderedItems[to := child];
      if signals[k].Some? {
        SetSignal(signals, k, to);
      }
      indexItems := indexItems[to := signals[k]];
    }

    /** Step 5, second loop: every move with `moveInDom` true unwraps its child (a hole
        panics), mounts it in front of the closest mounted sibling after `to` (or the
        marker), puts it into slot `to`, and sets its signal to `to`. */
    method MoveInDom(p: Element, moves: seq<DiffOpMove>, movedChildren: seq<Option<ChildId>>,
                     movedIndexItems: seq<Option<IndexSignal>>,
                     nextSibling: (seq<Option<ChildId>>, nat) -> Option<ChildId>)
      returns (ok: bool)
      requires |renderedItems| == |indexItems|
      requires |movedChildren| == |movedIndexItems| == |moves|
      requires DistinctCells(movedIndexItems)
      requires marker in p.nodes
      modifies this`renderedItems, this`indexItems, CellsOf(movedIndexItems), p
      ensures ok <==> forall k :: 0 <= k < |moves| && moves[k].moveInDom ==>
                        movedChildren[k].Some? && moves[k].to < |old(renderedItems)|
      ensures ok ==> renderedItems == Place(old(renderedItems), moves, movedChildren, true, |moves|)
      ensures ok ==> indexItems == Place(old(indexItems), moves, movedIndexItems, true, |moves|)
      ensures ok ==> SignalValues(movedIndexItems)
                     == Retargeted(old(SignalValues(movedIndexItems)), moves, true, |moves|)
      ensures marker in p.nodes
      ensures ok ==> forall x :: x in p.nodes <==> x in old(p.nodes) || x in MovedNodes(moves, movedChildren, |moves|)
      ensures ok ==> p.nodes == DomMovesTree(old(p.nodes), old(renderedItems), moves, movedChildren, nextSibling, marker, 0)
      ensures Distinct(old(p.nodes)) ==> Distinct(p.nodes)
    {
      ghost var tree := DomMovesTree(p.nodes, renderedItems, moves, movedChildren, nextSibling, marker, 0);
      var k := 0;
      while k < |moves|
        invariant 0 <= k <= |moves|
        invariant forall j :: 0 <= j < k && moves[j].moveInDom ==>
                    movedChildren[j].Some? && moves[j].to < |old(renderedItems)|
        invariant renderedItems == Place(old(renderedItems), moves, movedChildren, true, k)
        invariant indexItems == Place(old(indexItems), moves, movedIndexItems, true, k)
        invariant SignalValues(movedIndexItems)
                  == Retargeted(old(SignalValues(movedIndexItems)), moves, true, k)
        invariant marker in p.nodes
        invariant forall x :: x in p.nodes <==> x in old(p.nodes) || x in MovedNodes(moves, movedChildren, k)
        invariant Distinct(old(p.nodes)) ==> Distinct(p.nodes)
        invariant DomMovesTree(p.nodes, renderedItems, moves, movedChildren, nextSibling, marker, k) == tree
      {
        if moves[k].moveInDom {
          ok := MoveNextInDom(p, moves, movedChildren, movedIndexItems, nextSibling, k,
                              old(renderedItems), old(indexItems), old(SignalValues(movedIndexItems)), old(p.nodes));
          if !ok {
            return;
          }
        } else {
          NonDomStep(p.nodes, renderedItems, old(renderedItems), old(indexItems), old(SignalValues(movedIndexItems)),
                     moves, movedChildren, movedIndexItems, nextSibling, marker, k);
        }
        k := k + 1;
      }
      ok := true;
    }

    /** One iteration of the DOM move-in loop, from the state the first `k` moves left. */
    method MoveNextInDom(p: Element, moves: seq<DiffOpMove>, movedChildren: seq<Option<ChildId>>,
                         movedIndexItems: seq<Option<IndexSignal>>,
                         nextSibling: (seq<Option<ChildId>>, nat) -> Option<ChildId>, k: nat,
                         ghost r0: seq<Option<ChildId>>, ghost i0: seq<Option<IndexSignal>>,
                         ghost vals0: seq<Option<nat>>, ghost n0: seq<Node>)
      returns (ok: bool)
      requires k < |moves| && |movedChildren| == |movedIndexItems| == |moves| == |vals0| && moves[k].moveInDom
      requires DistinctCells(movedIndexItems)
      requires marker in p.nodes
      requires |r0| == |i0|
      requires forall j :: 0 <= j < k && moves[j].moveInDom ==> movedChildren[j].Some? && moves[j].to < |r0|
      requires renderedItems == Place(r0, moves, movedChildren, true, k)
      requires indexItems == Place(i0, moves, movedIndexItems, true, k)
      requires SignalValues(movedIndexItems) == Retargeted(vals0, moves, true, k)
      requires forall x :: x in p.nodes <==> x in n0 || x in MovedNodes(moves, movedChildren, k)
      modifies this`renderedItems, this`indexItems, CellsOf(movedIndexItems), p
      ensures ok <==> movedChildren[k].Some? && moves[k].to < |r0|
      ensures ok ==> && renderedItems == Place(r0, moves, movedChildren, true, k + 1)
                     && indexItems == Place(i0, moves, movedIndexItems, true, k + 1)
                     && SignalValues(movedIndexItems) == Retargeted(vals0, moves, true, k + 1)
                     && (forall x :: x in p.nodes <==> x in n0 || x in MovedNodes(moves, movedChildren, k + 1))
                     && DomMovesTree(old(p.nodes), old(renderedItems), moves, movedChildren, nextSibling, marker, k)
                        == DomMovesTree(p.nodes, renderedItems, moves, movedChildren, nextSibling, marker, k + 1)
      ensures marker in p.nodes
      ensures Distinct(old(p.nodes)) ==> Distinct(p.nodes)
    {
      MovedNodesStep(moves, movedChildren, k);
      RetargetStep(vals0, moves, true, k);
      if movedChildren[k].None? {
        return false;
      }
      ok := MoveOneInDom(p, moves[k].to, movedChildren[k].value, movedIndexItems, k,
                         nextSibling(renderedItems, moves[k].to), moves, movedChildren, nextSibling);
    }

    /** One DOM move: mount the child in front of `sibling` (or the marker), then
        put it and its signal into slot `to`; a `to` out of range panics after the mount. */
    method MoveOneInDom(p: Element, to: nat, child: ChildId, signals: seq<Option<IndexSignal>>, k: nat,
                        sibling: Option<ChildId>, ghost moves: seq<DiffOpMove>, ghost taken: seq<Option<ChildId>>,
                        ghost nextSibling: (seq<Option<ChildId>>, nat) -> Option<ChildId>)
      returns (ok: bool)
      requires |renderedItems| == |indexItems|
      requires k < |signals| && DistinctCells(signals)
      requires marker in p.nodes
      requires k < |moves| == |taken| && moves[k].moveInDom && moves[k].to == to && taken[k] == Some(child)
      requires sibling == nextSibling(renderedItems, to)
      modifies this`renderedItems, this`indexItems, CellsOf(signals), p
      ensures ok <==> to < |old(renderedItems)|
      ensures ok ==> renderedItems == old(renderedItems)[to := Some(child)]
      ensures ok ==> indexItems == old(indexItems)[to := signals[k]]
      ensures ok ==> SignalValues(signals)
                     == if signals[k].Some? then old(SignalValues(signals))[k := Some(to)] else old(SignalValues(signals))
      ensures p.nodes == MountBefore(old(p.nodes), View(child), Some(SiblingOrMarker(old(p.nodes), sibling, marker)))
      ensures ok ==> DomMovesTree(old(p.nodes), old(renderedItems), moves, taken, nextSibling, marker, k)
                     == DomMovesTree(p.nodes, renderedItems, moves, taken, nextSibling, marker, k + 1)
      ensures marker in p.nodes
      ensures forall x :: x in p.nodes <==> x in old(p.nodes) || x == View(child)
      ensures Distinct(old(p.nodes)) ==> Distinct(p.nodes)
    {
      MountBeforeSibling(p, child, sibling);
      if to >= |renderedItems| {
        return false;
      }
      PutBack(to, Some(child), signals, k);
      ok := true;
    }

    /** Step 6: every addition takes its item (an index out of range or an item already
        taken panics), builds the child `viewFn(at, item)` with a fresh signal holding
        `at`, mounts it (`Append`: in front of the marker; `Normal`: in front of the
        closest mounted sibling after `at`, or the marker) and fills both slots at `at`. */
    method AddAll<T>(p: Element, adds: seq<DiffOpAdd>, items: seq<Option<T>>, viewFn: (nat, T) -> ChildId,
                     nextSibling: (seq<Option<ChildId>>, nat) -> Option<ChildId>)
      returns (ok: bool)
      requires |renderedItems| == |indexItems|
      requires marker in p.nodes
      modifies this`renderedItems, this`indexItems, p
      ensures ok <==> AddsFit(adds, items, |old(renderedItems)|)
      ensures ok ==> forall i :: i in Ats(adds) ==> i < |items| && items[i].Some?
      ensures ok ==> renderedItems == AddedChildren(old(renderedItems), Ats(adds), items, viewFn)
      ensures ok ==> |indexItems| == |old(indexItems)|
      ensures ok ==> forall i :: 0 <= i < |indexItems| && i !in Ats(adds) ==> indexItems[i] == old(indexItems)[i]
      ensures ok ==> forall i :: 0 <= i < |indexItems| && i in Ats(adds) ==>
                       indexItems[i].Some? && fresh(indexItems[i].value) && indexItems[i].value.value == i
      ensures ok && DistinctCells(old(indexItems)) ==> DistinctCells(indexItems)
      ensures ok && old(IndexesMatch(indexItems)) ==> IndexesMatch(indexItems)
      ensures ok ==> p.nodes == AddsTree(old(p.nodes), old(renderedItems), items, adds, viewFn, nextSibling, marker, 0)
      ensures marker in p.nodes
      ensures Distinct(old(p.nodes)) ==> Distinct(p.nodes)
    {
      ghost var r0, i0, n0 := renderedItems, indexItems, p.nodes;
      ghost var tree := AddsTree(p.nodes, renderedItems, items, adds, viewFn, nextSibling, marker, 0);
      ghost var news: map<nat, IndexSignal> := map[];
      var rest := items;
      ghost var done: set<nat> := {};
      var k := 0;
      while k < |adds|
        invariant 0 <= k <= |adds|
        invariant AddsFit(adds[..k], items, |r0|)
        invariant done == Ats(adds[..k])
        invariant forall i :: i in done ==> i < |items| && items[i].Some?
        invariant rest == Punch(items, done)
        invariant renderedItems == AddedChildren(r0, done, items, viewFn)
        invariant news.Keys == done
        invariant indexItems == Installed(i0, news)
        invariant forall i :: i in news ==> fresh(news[i]) && news[i].value == i
        invariant DistinctCells(i0) ==> DistinctCells(indexItems)
        invariant marker in p.nodes
        invariant Distinct(n0) ==> Distinct(p.nodes)
        invariant AddsTree(p.nodes, renderedItems, rest, adds, viewFn, nextSibling, marker, k) == tree
      {
        ok, rest, done, news := AddNext(p, adds, items, viewFn, nextSibling, k, rest, r0, i0, done, news);
        if !ok {
          return;
        }
        k := k + 1;
      }
      assert adds[..k] == adds;
      ok := true;
    }

    /** One iteration of the addition loop, with the bookkeeping the loop keeps:
        the slots filled so far (`done`) and the signals installed there (`news`). */
    method AddNext<T>(p: Element, adds: seq<DiffOpAdd>, items: seq<Option<T>>, viewFn: (nat, T) -> ChildId,
                      nextSibling: (seq<Option<ChildId>>, nat) -> Option<ChildId>, k: nat, rest: seq<Option<T>>,
                      ghost r0: seq<Option<ChildId>>, ghost i0: seq<Option<IndexSignal>>,
                      ghost done: set<nat>, ghost news: map<nat, IndexSignal>)
      returns (ok: bool, rest': seq<Option<T>>, ghost done': set<nat>, ghost news': map<nat, IndexSignal>)
      requires k < |adds| && |r0| == |i0|
      requires AddsFit(adds[..k], items, |r0|) && done == Ats(adds[..k])
      requires forall i :: i in done ==> i < |items| && items[i].Some?
      requires rest == Punch(items, done)
      requires renderedItems == AddedChildren(r0, done, items, viewFn)
      requires news.Keys == done && indexItems == Installed(i0, news)
      requires marker in p.nodes
      modifies this`renderedItems, this`indexItems, p
      ensures ok <==> adds[k].at < |items| && items[adds[k].at].Some? && adds[k].at !in done && adds[k].at < |r0|
      ensures ok ==> && AddsFit(adds[..k + 1], items, |r0|)
                     && done' == Ats(adds[..k + 1])
                     && (forall i :: i in done' ==> i < |items| && items[i].Some?)
                     && rest' == Punch(items, done')
                     && renderedItems == AddedChildren(r0, done', items, viewFn)
                     && news'.Keys == done' && indexItems == Installed(i0, news')
      ensures ok ==> forall i :: i in news' ==>
                       if i in news then news'[i] == news[i] else fresh(news'[i]) && news'[i].value == i
      ensures ok && DistinctCells(old(indexItems)) ==> DistinctCells(indexItems)
      ensures ok ==> AddsTree(old(p.nodes), old(renderedItems), rest, adds, viewFn, nextSibling, marker, k)
                     == AddsTree(p.nodes, renderedItems, rest', adds, viewFn, nextSibling, marker, k + 1)
      ensures marker in p.nodes
      ensures Distinct(old(p.nodes)) ==> Distinct(p.nodes)
    {
      done', news' := done, news;
      var at := adds[k].at;
      AddBookkeeping(adds, items, r0, viewFn, k, done, rest);
      var signal;
      ok, rest', signal := AddOne(p, at, rest, viewFn, adds[k].mode, nextSibling(renderedItems, at),
                                  adds, k, nextSibling);
      if !ok {
        return;
      }
      InstalledStep(i0, news, at, signal);
      done' := done + {at};
      news' := news[at := signal];
    }

    /** One addition: take the item (an index out of range or an item already taken
        panics), build and mount its child, then fill both slots at `at` (an `at`
        out of range panics after the mount). */
    method AddOne<T>(p: Element, at: nat, rest: seq<Option<T>>, viewFn: (nat, T) -> ChildId, mode: DiffOpAddMode,
                     sibling: Option<ChildId>, ghost adds: seq<DiffOpAdd>, ghost k: nat,
                     ghost nextSibling: (seq<Option<ChildId>>, nat) -> Option<ChildId>)
      returns (ok: bool, rest': seq<Option<T>>, signal: IndexSignal?)
      requires |renderedItems| == |indexItems|
      requires marker in p.nodes
      requires k < |adds| && adds[k] == DiffOpAdd(at, mode) && sibling == nextSibling(renderedItems, at)
      modifies this`renderedItems, this`indexItems, p
      ensures ok <==> at < |rest| && rest[at].Some? && at < |old(renderedItems)|
      ensures ok ==> rest' == rest[at := None]
      ensures ok ==> renderedItems == old(renderedItems)[at := Some(viewFn(at, rest[at].value))]
      ensures ok ==> signal != null && fresh(signal) && signal.value == at
      ensures ok ==> indexItems == old(indexItems)[at := Some(signal)]
      ensures ok ==> p.nodes == MountBefore(old(p.nodes), View(viewFn(at, rest[at].value)),
                                           Some(AddRef(old(p.nodes), mode, sibling, marker)))
      ensures ok ==> AddsTree(old(p.nodes), old(renderedItems), rest, adds, viewFn, nextSibling, marker, k)
                     == AddsTree(p.nodes, renderedItems, rest', adds, viewFn, nextSibling, marker, k + 1)
      ensures ok && DistinctCells(old(indexItems)) ==> DistinctCells(indexItems)
      ensures marker in p.nodes
      ensures Distinct(old(p.nodes)) ==> Distinct(p.nodes)
    {
      if at >= |rest| || rest[at].None? {
        return false, rest, null;
      }
      var item := rest[at].value;
      rest' := rest[at := None];
      var child;
      child, signal := BuildAndMount(p, at, item, viewFn, mode, sibling);
      if at >= |renderedItems| {
        return false, rest', signal;
      }
      Install(at, child, signal);
      ok := true;
    }

    /** One addition's build and mount: the child `viewFn(at, item)`, a fresh signal
        holding `at`, and the child's node mounted in front of the marker (`Append`),
        or in front of `sibling` when that is mounted and else the marker (`Normal`). */
    method BuildAndMount<T>(p: Element, at: nat, item: T, viewFn: (nat, T) -> ChildId, mode: DiffOpAddMode,
                            sibling: Option<ChildId>)
      returns (child: ChildId, signal: IndexSignal)
      requires marker in p.nodes
      modifies p
      ensures child == viewFn(at, item)
      ensures fresh(signal) && signal.value == at && signal !in CellsOf(indexItems)
      ensures p.nodes == MountBefore(old(p.nodes), View(child), Some(AddRef(old(p.nodes), mode, sibling, marker)))
      ensures marker in p.nodes
      ensures forall x :: x in p.nodes <==> x in old(p.nodes) || x == View(child)
      ensures Distinct(old(p.nodes)) ==> Distinct(p.nodes)
    {
      child := viewFn(at, item);
      signal := new IndexSignal(at);
      MountBeforeSibling(p, child, if mode == Append then None else sibling);
    }

    /** Fill both slots at `at` with a new child and its new signal. */
    method Install(at: nat, child: ChildId, signal: IndexSignal)
      requires at < |renderedItems| && at < |indexItems|
      requires signal !in CellsOf(indexItems)
      modifies this`renderedItems, this`indexItems
      ensures renderedItems == old(renderedItems)[at := Some(child)]
      ensures indexItems == old(indexItems)[at := Some(signal)]
      ensures DistinctCells(old(indexItems)) ==> DistinctCells(indexItems)
    {
      renderedItems := renderedItems[at := Some(child)];
      indexItems := indexItems[at := Some(signal)];
    }

    /** A child mounted in front of a sibling (`insert_before_this_or_marker`): its node
        goes directly before the sibling's node when that is in the tree, otherwise
        directly before the marker. */
    method MountBeforeSibling(p: Element, child: ChildId, sibling: Option<ChildId>)
      requires marker in p.nodes
      modifies p
      ensures p.nodes == MountBefore(old(p.nodes), View(child), Some(SiblingOrMarker(old(p.nodes), sibling, marker)))
      ensures marker in p.nodes
      ensures forall x :: x in p.nodes <==> x in old(p.nodes) || x == View(child)
      ensures Distinct(old(p.nodes)) ==> Distinct(p.nodes)
      ensures Distinct(old(p.nodes)) && SiblingOrMarker(old(p.nodes), sibling, marker) != View(child) ==>
                IndexOf(p.nodes, View(child)) + 1 < |p.nodes|
                && p.nodes[IndexOf(p.nodes, View(child)) + 1] == SiblingOrMarker(old(p.nodes), sibling, marker)
    {
      var ref := SiblingOrMarker(p.nodes, sibling, marker);
      SiblingPlaces(p.nodes, View(child), ref, marker);
      p.InsertBefore(View(child), Some(ref));
    }

    /** The node `insert_before_this` inserts in front of: the first slot's child,
        or the marker when the list is empty; a first slot that is a hole has none. */
    function FirstNode(): Option<Node>
      reads this
    {
      if |renderedItems| == 0 then Some(marker)
      else if renderedItems[0].Some? then Some(View(renderedItems[0].value))
      else None
    }

    /** `Mountable::insert_before_this`: insert `child` before the list's first node,
        which succeeds only when that node is in the tree. */
    method InsertBeforeThis(child: Node) returns (inserted: bool)
      modifies parent
      ensures inserted <==> parent != null && FirstNode().Some? && FirstNode().value in old(parent.nodes)
      ensures inserted ==> parent.nodes == MountBefore(old(parent.nodes), child, FirstNode())
      ensures !inserted && parent != null ==> parent.nodes == old(parent.nodes)
    {
      var first := FirstNode();
      if parent != null && first.Some? && first.value in parent.nodes {
        parent.InsertBefore(child, first);
        inserted := true;
      } else {
        inserted := false;
      }
    }
  }

  /** What `MountBeforeSibling` needs of one `insertBefore(n, x)`: the marker stays,
      and in a tree without duplicates `n` lands directly before `x`. */
  lemma SiblingPlaces(nodes: seq<Node>, n: Node, x: Node, marker: Node)
    requires x in nodes && marker in nodes
    ensures marker in MountBefore(nodes, n, Some(x))
    ensures Distinct(nodes) ==> Distinct(MountBefore(nodes, n, Some(x)))
    ensures Distinct(nodes) && x != n ==>
              var r := MountBefore(nodes, n, Some(x));
              IndexOf(r, n) + 1 < |r| && r[IndexOf(r, n) + 1] == x
  {
    var r := MountBefore(nodes, n, Some(x));
    if Distinct(nodes) {
      MountBeforePlaces(nodes, n, Some(x));
      if x != n {
        assert Some(x).value == x;
        assert IndexOf(r, n) + 1 < |r| && r[IndexOf(r, n) + 1] == x;
      }
    }
  }

  /** Mounting `ns` one after another, each directly before `ref`. */
  function MountAll(nodes: seq<Node>, ns: seq<Node>, ref: Option<Node>): (r: seq<Node>)
    requires ref.Some? ==> ref.value in nodes
    ensures ref.Some? ==> ref.value in r
    ensures forall x :: x in r <==> x in nodes || x in ns
    decreases |ns|
  {
    if ns == [] then nodes
    else
      var front := ns[..|ns| - 1];
      assert ns == front + [ns[|ns| - 1]];
      MountBefore(MountAll(nodes, front, ref), ns[|ns| - 1], ref)
  }

  /** The loop of `mount`: each node in turn goes directly before `ref`. */
  method MountNodes(p: Element, ns: seq<Node>, ref: Option<Node>)
    requires ref.Some? ==> ref.value in p.nodes
    modifies p
    ensures p.nodes == MountAll(old(p.nodes), ns, ref)
  {
    ghost var base := p.nodes;
    var i := 0;
    while i < |ns|
      invariant 0 <= i <= |ns|
      invariant p.nodes == MountAll(base, ns[..i], ref)
    {
      assert ns[..i + 1] == ns[..i] + [ns[i]];
      MountNext(p, base, ns[..i], ns[i], ref);
      i := i + 1;
    }
    assert ns[..i] == ns;
  }

  /** One insertion of `mount`: `n` goes before `ref`, after the nodes mounted so far. */
  method MountNext(p: Element, ghost base: seq<Node>, ghost mounted: seq<Node>, n: Node, ref: Option<Node>)
    requires ref.Some? ==> ref.value in base
    requires p.nodes == MountAll(base, mounted, ref)
    modifies p
    ensures p.nodes == MountAll(base, mounted + [n], ref)
  {
    MountAllSnoc(base, mounted, n, ref);
    p.InsertBefore(n, ref);
  }

  /** `mount` leaves its nodes as one contiguous run, in their order, directly
      before `ref` (or at the end), with every other node where it was relative
      to the rest, provided no node is mounted twice and `ref` is not one of them. */
  lemma {:induction false} MountAllPlaces(nodes: seq<Node>, ns: seq<Node>, ref: Option<Node>)
    requires Distinct(ns)
    requires ref.Some? ==> ref.value in nodes && ref.value !in ns
    ensures MountAll(nodes, ns, ref) == Spliced(DetachEach(nodes, ns), ns, ref)
    decreases |ns|
  {
    if ns == [] {
      assert DetachEach(nodes, ns) == nodes;
      if ref.Some? {
        var i := IndexOf(nodes, ref.value);
        assert nodes == nodes[..i] + nodes[i..];
      } else {
        assert nodes + [] == nodes;
      }
    } else {
      var front := ns[..|ns| - 1];
      var n := ns[|ns| - 1];
      assert ns == front + [n];
      assert n !in front;
      MountAllPlaces(nodes, front, ref);
      var d' := DetachEach(nodes, front);
      var d := Detach(d', n);
      var m := MountAll(nodes, front, ref);
      assert MountAll(nodes, ns, ref) == MountBefore(m, n, ref);
      assert ref != Some(n);
      DetachAbsent(front, n);
      if ref.None? {
        assert m == d' + front;
        DetachAppend(d', front, n);
        SnocAssoc(d, front, n);
      } else {
        SpliceStep(d', front, n, ref.value);
      }
    }
  }

  /** The induction step of `MountAllPlaces` for a reference node: with `x` not
      among the nodes mounted, the next node lands right after the run. */
  lemma SpliceStep(d': seq<Node>, front: seq<Node>, n: Node, x: Node)
    requires x in d' && x !in front && x != n && n !in front
    requires Detach(front, n) == front
    ensures x in Detach(d', n)
    ensures MountBefore(Spliced(d', front, Some(x)), n, Some(x)) == Spliced(Detach(d', n), front + [n], Some(x))
  {
    var i' := IndexOf(d', x);
    var a, b := SplitDetach(d', i', n);
    SplicedDetach(d'[..i'], front, d'[i'..], n);
    assert x !in a + front;
    IndexOfAt(a, b, x);
    IndexOfAt(a + front, b, x);
    assert (a + front + b)[..|a + front|] == a + front && (a + front + b)[|a + front|..] == b;
    assert (a + b)[..|a|] == a && (a + b)[|a|..] == b;
    SpliceAssoc(a, front, n, b);
  }

  lemma SnocAssoc(d: seq<Node>, front: seq<Node>, n: Node)
    ensures (d + front) + [n] == d + (front + [n])
  {
  }

  lemma SpliceAssoc(a: seq<Node>, front: seq<Node>, n: Node, b: seq<Node>)
    ensures (a + front) + [n] + b == a + (front + [n]) + b
  {
  }

  /** Taking `n` out of `d` split at the first `x` (not `n`): the part before keeps no `x`
      and the part after still starts with `x`. */
  lemma SplitDetach(d: seq<Node>, i: nat, n: Node) returns (a: seq<Node>, b: seq<Node>)
    requires i < |d| && d[i] != n && d[i] !in d[..i]
    ensures a == Detach(d[..i], n) && b == Detach(d[i..], n)
    ensures Detach(d, n) == a + b
    ensures d[i] !in a && b != [] && b[0] == d[i]
  {
    a, b := Detach(d[..i], n), Detach(d[i..], n);
    assert d == d[..i] + d[i..];
    DetachAppend(d[..i], d[i..], n);
    assert d[i..] == [d[i]] + d[i + 1..];
    DetachAppend([d[i]], d[i + 1..], n);
    assert Detach([d[i]], n) == [d[i]] by { assert [d[i]][1..] == []; }
  }

  /** Taking `n` out of a spliced sequence leaves a run without `n` in place. */
  lemma SplicedDetach(p: seq<Node>, run: seq<Node>, q: seq<Node>, n: Node)
    requires Detach(run, n) == run
    ensures Detach(p + run + q, n) == Detach(p, n) + run + Detach(q, n)
  {
    DetachAppend(p + run, q, n);
    DetachAppend(p, run, n);
  }

  /** The first `x` of `p + q` is the head of `q` when `p` holds no `x`. */
  lemma IndexOfAt(p: seq<Node>, q: seq<Node>, x: Node)
    requires x !in p && q != [] && q[0] == x
    ensures x in p + q && IndexOf(p + q, x) == |p|
  {
    assert (p + q)[|p|] == x && (p + q)[..|p|] == p;
    IndexOfUnique(p + q, x, |p|);
  }

  lemma MountAllSnoc(nodes: seq<Node>, ns: seq<Node>, n: Node, ref: Option<Node>)
    requires ref.Some? ==> ref.value in nodes
    ensures MountAll(nodes, ns + [n], ref) == MountBefore(MountAll(nodes, ns, ref), n, ref)
  {
    assert (ns + [n])[..|ns|] == ns;
  }

  lemma KeysStep<T, K>(items: seq<T>, keyFn: T -> K, i: nat)
    requires i < |items|
    ensures IndexSet.FromKeys(KeysOf(items[..i + 1], keyFn))
            == IndexSet.Insert(IndexSet.FromKeys(KeysOf(items[..i], keyFn)), keyFn(items[i]))
  {
    var keys := KeysOf(items[..i + 1], keyFn);
    assert keys[..i] == KeysOf(items[..i], keyFn);
  }

  /** The child `view_fn` builds for each item, given its position. */
  function BuiltChildren<T>(items: seq<T>, viewFn: (nat, T) -> ChildId): seq<Option<ChildId>>
  {
    seq(|items|, i requires 0 <= i < |items| => Some(viewFn(i, items[i])))
  }

  lemma BuiltChildrenStep<T>(items: seq<T>, viewFn: (nat, T) -> ChildId, i: nat)
    requires i < |items|
    ensures BuiltChildren(items[..i + 1], viewFn) == BuiltChildren(items[..i], viewFn) + [Some(viewFn(i, items[i]))]
  {
  }

  /** `Render::build`: one child and one index signal per item, the i-th built by
      `view_fn(i, item)`, and the key set of the items' keys. Nothing is mounted yet. */
  method Build<T, K(==)>(items: seq<T>, keyFn: T -> K, viewFn: (nat, T) -> ChildId, marker: Node)
    returns (state: KeyedEnumerateState<K>)
    requires marker.Placeholder?
    ensures fresh(state) && state.Valid()
    ensures state.parent == null && state.marker == marker
    ensures state.hashedItems == IndexSet.FromKeys(KeysOf(items, keyFn))
    ensures IndexSet.Unique(KeysOf(items, keyFn)) ==> |state.hashedItems| == |items|
    ensures state.renderedItems == BuiltChildren(items, viewFn)
    ensures forall c :: c in state.Cells() ==> fresh(c)
  {
    var hashed, rendered, index := BuildVectors(items, keyFn, viewFn);
    state := new KeyedEnumerateState(marker, hashed, rendered, index);
    if IndexSet.Unique(KeysOf(items, keyFn)) {
      IndexSet.FromUniqueKeys(KeysOf(items, keyFn));
    }
  }

  /** The loop of `build`: insert each key, build each child, keep each signal. */
  method BuildVectors<T, K(==)>(items: seq<T>, keyFn: T -> K, viewFn: (nat, T) -> ChildId)
    returns (hashed: seq<K>, rendered: seq<Option<ChildId>>, index: seq<Option<IndexSignal>>)
    ensures hashed == IndexSet.FromKeys(KeysOf(items, keyFn))
    ensures rendered == BuiltChildren(items, viewFn)
    ensures |index| == |items| && NoHoles(index) && DistinctCells(index) && IndexesMatch(index)
    ensures forall c :: c in CellsOf(index) ==> fresh(c)
  {
    hashed, rendered, index := [], [], [];
    var i := 0;
    while i < |items|
      invariant 0 <= i <= |items|
      invariant hashed == IndexSet.FromKeys(KeysOf(items[..i], keyFn))
      invariant rendered == BuiltChildren(items[..i], viewFn)
      invariant |index| == i
      invariant forall j :: 0 <= j < i ==> index[j].Some? && fresh(index[j].value) && index[j].value.value == j
      invariant DistinctCells(index)
    {
      BuiltChildrenStep(items, viewFn, i);
      hashed := InsertKey(hashed, items, keyFn, i);
      rendered := rendered + [Some(viewFn(i, items[i]))];
      var signal := new IndexSignal(i);
      assert signal !in CellsOf(index);
      FreshCell(index, signal);
      index := index + [Some(signal)];
      i := i + 1;
    }
    assert items[..i] == items;
  }

  /** `hashed_items.insert(key_fn(&item))` for the `i`-th item, extending the key
      set of the items before it. */
  method InsertKey<T, K(==)>(hashed: seq<K>, items: seq<T>, keyFn: T -> K, i: nat) returns (r: seq<K>)
    requires i < |items|
    requires hashed == IndexSet.FromKeys(KeysOf(items[..i], keyFn))
    ensures r == IndexSet.FromKeys(KeysOf(items[..i + 1], keyFn))
  {
    KeysStep(items, keyFn, i);
    r := IndexSet.Insert(hashed, keyFn(items[i]));
  }

  /** A signal no slot holds can join a vector of distinct signals. */
  lemma FreshCell(index: seq<Option<IndexSignal>>, signal: IndexSignal)
    requires DistinctCells(index) && signal !in CellsOf(index)
    ensures DistinctCells(index + [Some(signal)])
  {
  }

  /** The loop of `rebuild`: insert each new key and put each item in a slot of
      its own, for the additions to `take()`. */
  method HashItems<T, K(==)>(newItems: seq<T>, keyFn: T -> K) returns (hashed: seq<K>, items: seq<Option<T>>)
    ensures hashed == IndexSet.FromKeys(KeysOf(newItems, keyFn))
    ensures items == Wrap(newItems)
  {
    hashed, items := [], [];
    var i := 0;
    while i < |newItems|
      invariant 0 <= i <= |newItems|
      invariant hashed == IndexSet.FromKeys(KeysOf(newItems[..i], keyFn))
      invariant |items| == i && forall j :: 0 <= j < i ==> items[j] == Some(newItems[j])
    {
      hashed := InsertKey(hashed, newItems, keyFn, i);
      items := items + [Some(newItems[i])];
      i := i + 1;
    }
    assert newItems[..i] == newItems;
    assert items == Wrap(newItems);
  }

  /** The signals the move-out collects are distinct and all come from source slots. */
  lemma TakenOutCells(s: seq<Option<IndexSignal>>, moves: seq<DiffOpMove>)
    requires forall k :: 0 <= k < |moves| ==> moves[k].from < |s|
    requires DistinctCells(s)
    ensures DistinctCells(TakenOut(s, moves))
    ensures CellsOf(TakenOut(s, moves)) <= SourceCells(s, moves)
  {
    var t := TakenOut(s, moves);
    forall j, k | 0 <= j < k < |moves| && t[j].Some? && t[k].Some?
      ensures t[j].value != t[k].value
    {
      assert moves[j].from in Froms(moves[..k]) by { assert moves[..k][j] == moves[j]; }
    }
  }

  /** A slot that is no move's source keeps a signal the move-out does not collect. */
  lemma NotTaken(s: seq<Option<IndexSignal>>, moves: seq<DiffOpMove>, i: nat)
    requires forall k :: 0 <= k < |moves| ==> moves[k].from < |s|
    requires DistinctCells(s)
    requires i < |s| && s[i].Some? && i !in Froms(moves)
    ensures s[i].value !in SourceCells(s, moves)
  {
    forall k | 0 <= k < |moves| && s[moves[k].from].Some?
      ensures s[moves[k].from].value != s[i].value
    {
      assert moves[k].from in Froms(moves);
    }
  }

  /** After the moves no two slots share a signal, for distinct sources and destinations. */
  lemma AfterMovesCells(v: seq<Option<IndexSignal>>, n: nat, moves: seq<DiffOpMove>)
    requires forall k :: 0 <= k < |moves| ==> moves[k].from < |v| && moves[k].to < |v| + n
    requires DistinctEnds(moves)
    requires DistinctCells(v)
    ensures DistinctCells(AfterMoves(v, n, moves))
  {
    var r := AfterMoves(v, n, moves);
    forall i, j | 0 <= i < j < |r| && r[i].Some? && r[j].Some?
      ensures r[i].value != r[j].value
    {
      var si, mi, ki := SlotSource(v, n, moves, i);
      var sj, mj, kj := SlotSource(v, n, moves, j);
      if mi {
        assert si in Froms(moves);
      }
      if mj {
        assert sj in Froms(moves);
      }
    }
  }

  /** Taking signals out of some slots keeps the rest distinct and in place. */
  lemma PunchCells(s: seq<Option<IndexSignal>>, holes: set<nat>)
    requires DistinctCells(s)
    ensures DistinctCells(Punch(s, holes))
    ensures CellsOf(Punch(s, holes)) <= CellsOf(s)
    ensures IndexesMatch(s) ==> IndexesMatch(Punch(s, holes))
  {
  }

  /** The first `n` slots of a vector keep its signals distinct and in place. */
  lemma PrefixCells(s: seq<Option<IndexSignal>>, n: nat)
    requires n <= |s|
    ensures DistinctCells(s) ==> DistinctCells(s[..n])
    ensures IndexesMatch(s) ==> IndexesMatch(s[..n])
  {
  }
}
