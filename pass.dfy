/** What one reconciliation pass does to a slot vector, step by step, when the
    edit script is applicable: which steps get through and where every slot's
    content ends up once the holes are drained. */
module Pass {

  import opened Slots
  import opened DiffOps
  import opened HostTree
  import opened SlotSteps

  /** The vector after steps 2 to 5: removals, move-out, resize by `|d.added|` holes
      and both move-ins. */
  function Moved<X>(v: seq<Option<X>>, d: Diff, u: Unpacked): (r: seq<Option<X>>)
    requires forall k :: 0 <= k < |u.moves| ==> u.moves[k].from < |v| && u.moves[k].to < |v| + |d.added|
    ensures |r| == |v| + |d.added|
  {
    AfterMoves(Punch(v, RemovedSlots(d.removed)), |d.added|, u.moves)
  }

  /** An applicable script gets through the removals, the moves and the additions
      on the vector left by step 1, provided that vector has no holes. */
  lemma PassFits<X, T>(v: seq<Option<X>>, d: Diff, u: Unpacked, len: nat, items: seq<Option<T>>)
    requires |v| == BaseLength(d, len) && NoHoles(v)
    requires Applicable(d, u, len, items) && !(d.clear && d.added == [])
    ensures RemovalsHit(v, d.removed)
    ensures MovesFit(Punch(v, RemovedSlots(d.removed)), |d.added|, u.moves)
    ensures AddsFit(u.adds, items, |v| + |d.added|)
  {
    var punched := Punch(v, RemovedSlots(d.removed));
    TakenOutDistinct(punched, u.moves);
    forall k | 0 <= k < |u.moves|
      ensures punched[u.moves[k].from].Some?
    {
    }
    forall k | 0 <= k < |u.adds|
      ensures u.adds[k].at !in Ats(u.adds[..k])
    {
    }
  }

  /** After the moves of an applicable script, a kept slot holds what it held, a
      move's destination holds what its source held, and every other slot is a hole. */
  lemma MovedSlots<X, T>(v: seq<Option<X>>, d: Diff, u: Unpacked, len: nat, items: seq<Option<T>>)
    requires |v| == BaseLength(d, len) && NoHoles(v)
    requires Applicable(d, u, len, items) && !(d.clear && d.added == [])
    ensures forall i :: 0 <= i < |v| && Kept(d, u, len, i) ==> Moved(v, d, u)[i] == v[i]
    ensures forall k :: 0 <= k < |u.moves| ==> Moved(v, d, u)[u.moves[k].to] == v[u.moves[k].from]
    ensures forall i :: 0 <= i < |v| + |d.added| && !Kept(d, u, len, i) && i !in Tos(u.moves) ==>
              Moved(v, d, u)[i].None?
  {
    var punched := Punch(v, RemovedSlots(d.removed));
    AfterMovesFacts(punched, |d.added|, u.moves);
  }

  /** Once the additions fill their slots, an applicable script leaves the first
      `|items|` slots filled and the rest empty, so draining the holes keeps
      exactly the first `|items|` slots in place. */
  lemma DrainedPrefix<X, T>(v: seq<Option<X>>, d: Diff, u: Unpacked, len: nat, items: seq<Option<T>>,
                            s: seq<Option<X>>)
    requires |v| == BaseLength(d, len) && NoHoles(v)
    requires Applicable(d, u, len, items) && !(d.clear && d.added == [])
    requires |s| == |v| + |d.added|
    requires forall i :: 0 <= i < |s| && i !in Ats(u.adds) ==> s[i] == Moved(v, d, u)[i]
    requires forall i :: 0 <= i < |s| && i in Ats(u.adds) ==> s[i].Some?
    ensures FilledUpTo(s, |items|)
    ensures DropHoles(s) == s[..|items|]
  {
    MovedSlots(v, d, u, len, items);
    FilledBelow(v, d, u, len, items, s);
    EmptyAbove(v, d, u, len, items, s);
    DropHolesOfFilledPrefix(s, |items|);
  }

  /** Every slot below `|items|` is kept, a destination or an addition, so it is filled. */
  lemma FilledBelow<X, T>(v: seq<Option<X>>, d: Diff, u: Unpacked, len: nat, items: seq<Option<T>>,
                          s: seq<Option<X>>)
    requires |v| == BaseLength(d, len) && NoHoles(v)
    requires Applicable(d, u, len, items) && !(d.clear && d.added == [])
    requires |s| == |v| + |d.added|
    requires forall i :: 0 <= i < |v| && Kept(d, u, len, i) ==> Moved(v, d, u)[i] == v[i]
    requires forall k :: 0 <= k < |u.moves| ==> Moved(v, d, u)[u.moves[k].to] == v[u.moves[k].from]
    requires forall i :: 0 <= i < |s| && i !in Ats(u.adds) ==> s[i] == Moved(v, d, u)[i]
    requires forall i :: 0 <= i < |s| && i in Ats(u.adds) ==> s[i].Some?
    ensures |items| <= |s|
    ensures forall i :: 0 <= i < |items| ==> s[i].Some?
  {
    forall i | 0 <= i < |items|
      ensures s[i].Some?
    {
      if i !in Ats(u.adds) && i in Tos(u.moves) {
        var k :| 0 <= k < |u.moves| && u.moves[k].to == i;
      }
    }
  }

  /** Every slot from `|items|` on is neither kept, a destination nor an addition, so it is a hole. */
  lemma EmptyAbove<X, T>(v: seq<Option<X>>, d: Diff, u: Unpacked, len: nat, items: seq<Option<T>>,
                         s: seq<Option<X>>)
    requires |v| == BaseLength(d, len)
    requires Applicable(d, u, len, items) && !(d.clear && d.added == [])
    requires |s| == |v| + |d.added|
    requires forall i :: 0 <= i < |v| + |d.added| && !Kept(d, u, len, i) && i !in Tos(u.moves) ==>
               Moved(v, d, u)[i].None?
    requires forall i :: 0 <= i < |s| && i !in Ats(u.adds) ==> s[i] == Moved(v, d, u)[i]
    ensures forall i :: |items| <= i < |s| ==> s[i].None?
  {
  }

  /** The children once the whole pass has run: moved, added to, and drained. */
  function Reconciled<T>(v: seq<Option<ChildId>>, d: Diff, u: Unpacked, items: seq<Option<T>>,
                         viewFn: (nat, T) -> ChildId): seq<Option<ChildId>>
    requires forall k :: 0 <= k < |u.moves| ==> u.moves[k].from < |v| && u.moves[k].to < |v| + |d.added|
    requires forall i :: i in Ats(u.adds) ==> i < |items| && items[i].Some?
  {
    DropHoles(AddedChildren(Moved(v, d, u), Ats(u.adds), items, viewFn))
  }

  /** The pass puts every child where the new items want it: one slot per item,
      kept children stay, moved children land at their destination and each
      added item's view sits at its slot. */
  lemma ReconciledSlots<T>(v: seq<Option<ChildId>>, d: Diff, u: Unpacked, len: nat, items: seq<Option<T>>,
                           viewFn: (nat, T) -> ChildId)
    requires |v| == BaseLength(d, len) && NoHoles(v)
    requires Applicable(d, u, len, items) && !(d.clear && d.added == [])
    ensures forall k :: 0 <= k < |u.moves| ==> u.moves[k].from < |v| && u.moves[k].to < |v| + |d.added|
    ensures forall i :: i in Ats(u.adds) ==> i < |items| && items[i].Some?
    ensures var r := Reconciled(v, d, u, items, viewFn);
            && |r| == |items| && NoHoles(r)
            && (forall i :: 0 <= i < |v| && Kept(d, u, len, i) ==> i < |r| && r[i] == v[i])
            && (forall k :: 0 <= k < |u.moves| ==> u.moves[k].to < |r| && r[u.moves[k].to] == v[u.moves[k].from])
            && (forall k :: 0 <= k < |u.adds| ==>
                  u.adds[k].at < |r| && r[u.adds[k].at] == Some(viewFn(u.adds[k].at, items[u.adds[k].at].value)))
  {
    var s := AddedChildren(Moved(v, d, u), Ats(u.adds), items, viewFn);
    MovedSlots(v, d, u, len, items);
    DrainedPrefix(v, d, u, len, items, s);
    forall k | 0 <= k < |u.adds|
      ensures u.adds[k].at in Ats(u.adds)
    {
    }
  }
}
