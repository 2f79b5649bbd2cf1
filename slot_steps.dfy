/** The slot vectors after each step of a reconciliation pass, as functions of
    the vectors before it, with the facts each step's loop needs and the facts
    the whole pass is built from. */
module SlotSteps {

  import opened Slots
  import opened HostTree
  import opened DiffOps

  /** The children the removals take, in removal order. */
  function RemovedChildren<X>(children: seq<Option<X>>, removed: seq<DiffOpRemove>): seq<Option<X>>
    requires forall k :: 0 <= k < |removed| ==> removed[k].at < |children|
  {
    seq(|removed|, k requires 0 <= k < |removed| => children[removed[k].at])
  }

  /** One more removal keeps the loop's facts: it hits when the slot is in range, filled
      originally and not removed yet, and it adds its slot and its child to the removed ones. */
  lemma RemovalStep<X>(children: seq<Option<X>>, removed: seq<DiffOpRemove>, k: nat)
    requires k < |removed|
    ensures removed[..k + 1] == removed[..k] + [removed[k]]
    ensures RemovedSlots(removed[..k + 1]) == RemovedSlots(removed[..k]) + {removed[k].at}
    ensures RemovalsHit(children, removed[..k + 1]) <==>
              && RemovalsHit(children, removed[..k])
              && removed[k].at < |children|
              && Punch(children, RemovedSlots(removed[..k]))[removed[k].at].Some?
    ensures RemovalsHit(children, removed[..k + 1]) ==>
              RemovedChildren(children, removed[..k + 1])
              == RemovedChildren(children, removed[..k]) + [children[removed[k].at]]
  {
    var pre := removed[..k];
    var at := removed[k].at;
    assert removed[..k + 1] == pre + [removed[k]];
    if RemovalsHit(children, pre) && at < |children| && Punch(children, RemovedSlots(pre))[at].Some? {
      forall j | 0 <= j < k ensures removed[j].at != at {
        assert removed[j].at in RemovedSlots(pre) by { assert pre[j] == removed[j]; }
      }
    }
    if RemovalsHit(children, removed[..k + 1]) {
      assert RemovalsHit(children, pre) by {
        forall i | 0 <= i < k ensures removed[..k + 1][i] == pre[i] { }
      }
    }
  }

  lemma PunchStep<X>(s: seq<Option<X>>, holes: set<nat>, at: nat)
    requires at < |s|
    ensures Punch(s, holes + {at}) == Punch(s, holes)[at := None]
  {
  }

  /** What the move-out loop collects: the content of each move's source slot,
      or `None` when an earlier move already took that slot. */
  function TakenOut<X>(s: seq<Option<X>>, moves: seq<DiffOpMove>): (r: seq<Option<X>>)
    requires forall k :: 0 <= k < |moves| ==> moves[k].from < |s|
    ensures |r| == |moves|
  {
    seq(|moves|, k requires 0 <= k < |moves| =>
      if moves[k].from in Froms(moves[..k]) then None else s[moves[k].from])
  }

  lemma MoveOutStep<X>(s: seq<Option<X>>, moves: seq<DiffOpMove>, k: nat)
    requires k < |moves|
    requires forall j :: 0 <= j <= k ==> moves[j].from < |s|
    ensures Froms(moves[..k + 1]) == Froms(moves[..k]) + {moves[k].from}
    ensures TakenOut(s, moves[..k + 1])
            == TakenOut(s, moves[..k]) + [Punch(s, Froms(moves[..k]))[moves[k].from]]
    ensures Punch(s, Froms(moves[..k + 1])) == Punch(s, Froms(moves[..k]))[moves[k].from := None]
  {
    assert moves[..k + 1] == moves[..k] + [moves[k]];
    assert moves[..k + 1][..k] == moves[..k];
    var a := TakenOut(s, moves[..k + 1]);
    var b := TakenOut(s, moves[..k]) + [Punch(s, Froms(moves[..k]))[moves[k].from]];
    forall j | 0 <= j < k + 1 ensures a[j] == b[j] {
      assert moves[..k + 1][..j] == moves[..j];
      if j < k {
        assert moves[..k][..j] == moves[..j];
      }
    }
  }

  /** The vector after the move-in loop for the moves whose `moveInDom` is `inDom`
      has run over the first `k` moves: each such move, in order, writes `taken[j]`
      into slot `moves[j].to`. */
  function Place<X>(s: seq<Option<X>>, moves: seq<DiffOpMove>, taken: seq<Option<X>>, inDom: bool, k: nat): (r: seq<Option<X>>)
    requires k <= |moves| == |taken|
    requires forall j :: 0 <= j < k && moves[j].moveInDom == inDom ==> moves[j].to < |s|
    ensures |r| == |s|
  {
    if k == 0 then s
    else
      var prev := Place(s, moves, taken, inDom, k - 1);
      if moves[k - 1].moveInDom == inDom then prev[moves[k - 1].to := taken[k - 1]] else prev
  }

  /** The signal values after the move-in loop for `inDom` moves has run over the
      first `k` moves: the signal taken for each such move now holds its `to`. */
  function Retargeted(vals: seq<Option<nat>>, moves: seq<DiffOpMove>, inDom: bool, k: nat): (r: seq<Option<nat>>)
    requires k <= |moves| == |vals|
    ensures |r| == |vals|
  {
    seq(|vals|, j requires 0 <= j < |vals| =>
      if j < k && moves[j].moveInDom == inDom && vals[j].Some? then Some(moves[j].to) else vals[j])
  }

  /** One more move of the loop for `inDom` retargets the signal it took, if any. */
  lemma RetargetStep(vals: seq<Option<nat>>, moves: seq<DiffOpMove>, inDom: bool, k: nat)
    requires k < |moves| == |vals|
    ensures Retargeted(vals, moves, inDom, k)[k] == vals[k]
    ensures Retargeted(vals, moves, inDom, k + 1)
            == if moves[k].moveInDom == inDom && vals[k].Some?
               then Retargeted(vals, moves, inDom, k)[k := Some(moves[k].to)]
               else Retargeted(vals, moves, inDom, k)
  {
  }

  /** The nodes of the children mounted by the first `k` DOM moves. */
  function MovedNodes(moves: seq<DiffOpMove>, taken: seq<Option<ChildId>>, k: nat): set<Node>
    requires k <= |moves| == |taken|
  {
    set j | 0 <= j < k && moves[j].moveInDom && taken[j].Some? :: View(taken[j].value)
  }

  lemma MovedNodesStep(moves: seq<DiffOpMove>, taken: seq<Option<ChildId>>, k: nat)
    requires k < |moves| == |taken|
    ensures MovedNodes(moves, taken, k + 1)
            == MovedNodes(moves, taken, k) + if moves[k].moveInDom && taken[k].Some? then {View(taken[k].value)} else {}
  {
  }

  /** The children once the additions at the slots in `done` have run: each fills
      its slot with the child `viewFn` builds from the item there. */
  function AddedChildren<T>(s: seq<Option<ChildId>>, done: set<nat>, items: seq<Option<T>>,
                            viewFn: (nat, T) -> ChildId): (r: seq<Option<ChildId>>)
    requires forall i :: i in done ==> i < |items| && items[i].Some?
    ensures |r| == |s|
  {
    seq(|s|, i requires 0 <= i < |s| => if i in done then Some(viewFn(i, items[i].value)) else s[i])
  }

  /** One more addition keeps the loop's facts: it fits when its item is in range,
      not yet taken, and its slot is in range. */
  lemma AddStep<T>(adds: seq<DiffOpAdd>, items: seq<Option<T>>, len: nat, k: nat)
    requires k < |adds|
    ensures Ats(adds[..k + 1]) == Ats(adds[..k]) + {adds[k].at}
    ensures AddsFit(adds[..k + 1], items, len) <==>
              && AddsFit(adds[..k], items, len)
              && adds[k].at < |items|
              && items[adds[k].at].Some?
              && adds[k].at !in Ats(adds[..k])
              && adds[k].at < len
  {
    assert adds[..k + 1] == adds[..k] + [adds[k]];
    assert adds[..k + 1][..k] == adds[..k];
    forall j | 0 <= j < k
      ensures adds[..k + 1][..j] == adds[..k][..j]
    {
    }
  }

  lemma AddedStep<T>(s: seq<Option<ChildId>>, done: set<nat>, items: seq<Option<T>>,
                     viewFn: (nat, T) -> ChildId, at: nat)
    requires forall i :: i in done ==> i < |items| && items[i].Some?
    requires at < |items| && items[at].Some? && at < |s|
    ensures AddedChildren(s, done + {at}, items, viewFn)
            == AddedChildren(s, done, items, viewFn)[at := Some(viewFn(at, items[at].value))]
  {
  }

  /** `s` with the signals of `news` installed at their slots. */
  function Installed<X>(s: seq<Option<X>>, news: map<nat, X>): (r: seq<Option<X>>)
    ensures |r| == |s|
  {
    seq(|s|, i requires 0 <= i < |s| => if i in news then Some(news[i]) else s[i])
  }

  /** One more addition, on the values the addition loop keeps: when the item at
      its slot is still there and the slot is in range, the loop's facts move on
      to `k + 1`; otherwise the addition does not fit. */
  lemma AddBookkeeping<T>(adds: seq<DiffOpAdd>, items: seq<Option<T>>, r0: seq<Option<ChildId>>,
                          viewFn: (nat, T) -> ChildId, k: nat, done: set<nat>, rest: seq<Option<T>>)
    requires k < |adds| && AddsFit(adds[..k], items, |r0|) && done == Ats(adds[..k])
    requires forall i :: i in done ==> i < |items| && items[i].Some?
    requires rest == Punch(items, done)
    ensures |rest| == |items|
    ensures var at := adds[k].at;
            (at < |rest| && rest[at].Some? && at < |r0|) <==> (at < |items| && items[at].Some? && at !in done && at < |r0|)
    ensures var at := adds[k].at;
            at < |rest| && rest[at].Some? && at < |r0| ==>
              && rest[at] == items[at]
              && AddsFit(adds[..k + 1], items, |r0|)
              && done + {at} == Ats(adds[..k + 1])
              && (forall i :: i in done + {at} ==> i < |items| && items[i].Some?)
              && rest[at := None] == Punch(items, done + {at})
              && AddedChildren(r0, done + {at}, items, viewFn)
                 == AddedChildren(r0, done, items, viewFn)[at := Some(viewFn(at, rest[at].value))]
  {
    var at := adds[k].at;
    AddStep(adds, items, |r0|, k);
    if at < |rest| && rest[at].Some? && at < |r0| {
      PunchStep(items, done, at);
      AddedStep(r0, done, items, viewFn, at);
    }
  }

  lemma InstalledStep<X>(s: seq<Option<X>>, news: map<nat, X>, at: nat, x: X)
    requires at < |s|
    ensures Installed(s, news[at := x]) == Installed(s, news)[at := Some(x)]
  {
  }

  /** With distinct sources, move `k` collects exactly what was at its source. */
  lemma TakenOutDistinct<X>(s: seq<Option<X>>, moves: seq<DiffOpMove>)
    requires forall k :: 0 <= k < |moves| ==> moves[k].from < |s|
    requires forall j, k :: 0 <= j < k < |moves| ==> moves[j].from != moves[k].from
    ensures forall k :: 0 <= k < |moves| ==> TakenOut(s, moves)[k] == s[moves[k].from]
  {
    forall k | 0 <= k < |moves|
      ensures moves[k].from !in Froms(moves[..k])
    {
    }
  }

  /** No move among the first `k` of kind `inDom` lands on slot `i`. */
  predicate Unplaced(moves: seq<DiffOpMove>, inDom: bool, k: nat, i: nat)
    requires k <= |moves|
  {
    forall j :: 0 <= j < k && moves[j].moveInDom == inDom ==> moves[j].to != i
  }

  /** With distinct destinations, each move of kind `inDom` leaves its child at its
      destination and every other slot keeps what it had. */
  lemma {:induction false} PlaceFacts<X>(s: seq<Option<X>>, moves: seq<DiffOpMove>, taken: seq<Option<X>>,
                                         inDom: bool, k: nat)
    requires k <= |moves| == |taken|
    requires forall j :: 0 <= j < k && moves[j].moveInDom == inDom ==> moves[j].to < |s|
    requires DistinctTos(moves)
    ensures forall j :: 0 <= j < k && moves[j].moveInDom == inDom ==>
              Place(s, moves, taken, inDom, k)[moves[j].to] == taken[j]
    ensures forall i :: 0 <= i < |s| && Unplaced(moves, inDom, k, i) ==> Place(s, moves, taken, inDom, k)[i] == s[i]
  {
    if k > 0 {
      PlaceFacts(s, moves, taken, inDom, k - 1);
      forall i | 0 <= i < |s| && Unplaced(moves, inDom, k, i)
        ensures Unplaced(moves, inDom, k - 1, i)
      {
      }
    }
  }

  /** Steps 3 to 5 up to the DOM move-ins, on one vector `v` (after the removals):
      every source slot is emptied, `n` holes are appended, then the non-DOM moves
      put what they took at their destinations. */
  function InPlaceMoved<X>(v: seq<Option<X>>, n: nat, moves: seq<DiffOpMove>): (r: seq<Option<X>>)
    requires forall k :: 0 <= k < |moves| ==> moves[k].from < |v|
    requires forall k :: 0 <= k < |moves| && !moves[k].moveInDom ==> moves[k].to < |v| + n
    ensures |r| == |v| + n
  {
    Place(Punch(v, Froms(moves)) + Holes(n), moves, TakenOut(v, moves), false, |moves|)
  }

  /** Steps 3 to 5 on one vector `v` (after the removals): after the non-DOM
      moves, the DOM moves put what they took at their destinations. */
  function AfterMoves<X>(v: seq<Option<X>>, n: nat, moves: seq<DiffOpMove>): (r: seq<Option<X>>)
    requires forall k :: 0 <= k < |moves| ==> moves[k].from < |v| && moves[k].to < |v| + n
    ensures |r| == |v| + n
  {
    Place(InPlaceMoved(v, n, moves), moves, TakenOut(v, moves), true, |moves|)
  }

  /** Steps 3 to 5 get through without a panic: every source is in range, every
      destination lands in the resized vector, and every DOM move took a child. */
  predicate MovesFit<X>(v: seq<Option<X>>, n: nat, moves: seq<DiffOpMove>)
  {
    && (forall k :: 0 <= k < |moves| ==> moves[k].from < |v|)
    && (forall k :: 0 <= k < |moves| ==> moves[k].to < |v| + n)
    && (forall k :: 0 <= k < |moves| && moves[k].moveInDom ==> TakenOut(v, moves)[k].Some?)
  }

  /** Where steps 3 to 5 leave each slot, for distinct sources and destinations:
      a move's destination holds what was at its source; a slot that is neither
      a source nor a destination keeps its content; any other slot is a hole. */
  lemma AfterMovesFacts<X>(v: seq<Option<X>>, n: nat, moves: seq<DiffOpMove>)
    requires forall k :: 0 <= k < |moves| ==> moves[k].from < |v| && moves[k].to < |v| + n
    requires DistinctEnds(moves)
    ensures forall k :: 0 <= k < |moves| ==> AfterMoves(v, n, moves)[moves[k].to] == v[moves[k].from]
    ensures forall i :: 0 <= i < |v| && i !in Froms(moves) && i !in Tos(moves) ==> AfterMoves(v, n, moves)[i] == v[i]
    ensures forall i :: 0 <= i < |v| + n && i !in Tos(moves) && (i < |v| ==> i in Froms(moves)) ==>
              AfterMoves(v, n, moves)[i].None?
  {
    var taken := TakenOut(v, moves);
    var resized := Punch(v, Froms(moves)) + Holes(n);
    var first := Place(resized, moves, taken, false, |moves|);
    var r := Place(first, moves, taken, true, |moves|);
    TakenOutDistinct(v, moves);
    PlaceFacts(resized, moves, taken, false, |moves|);
    PlaceFacts(first, moves, taken, true, |moves|);
    forall i | 0 <= i < |v| + n && i !in Tos(moves)
      ensures Unplaced(moves, false, |moves|, i) && Unplaced(moves, true, |moves|, i)
      ensures r[i] == resized[i]
    {
      forall j | 0 <= j < |moves| ensures moves[j].to != i {
        assert moves[j].to in Tos(moves);
      }
    }
    forall k | 0 <= k < |moves|
      ensures r[moves[k].to] == v[moves[k].from]
    {
      if !moves[k].moveInDom {
        assert Unplaced(moves, true, |moves|, moves[k].to);
      }
    }
  }

  /** Where the content of a filled slot of `AfterMoves` comes from: the source of
      the move that landed there, or the same slot when no move touched it. */
  lemma SlotSource<X>(v: seq<Option<X>>, n: nat, moves: seq<DiffOpMove>, i: nat)
    returns (src: nat, moved: bool, k: nat)
    requires forall k :: 0 <= k < |moves| ==> moves[k].from < |v| && moves[k].to < |v| + n
    requires DistinctEnds(moves)
    requires i < |v| + n && AfterMoves(v, n, moves)[i].Some?
    ensures src < |v| && AfterMoves(v, n, moves)[i] == v[src]
    ensures moved ==> k < |moves| && moves[k].to == i && moves[k].from == src
    ensures !moved ==> src == i && i !in Froms(moves) && i !in Tos(moves)
  {
    AfterMovesFacts(v, n, moves);
    if i in Tos(moves) {
      k :| 0 <= k < |moves| && moves[k].to == i;
      src, moved := moves[k].from, true;
    } else {
      src, moved, k := i, false, 0;
    }
  }
}
