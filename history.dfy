// The undo and redo stacks of piece_table.c (struct change_stack) and the
// edits they record, described over node chains.
//
// An edit replaced a part of the live chain by another chain. Its change
// record keeps two ranges: the BORDER, whose sentinels are the live nodes
// on either side of the replaced part, and the STASH, a detached pair of
// sentinels that holds the chain which is not live. Applying the top change
// of a stack (pr_swap) exchanges the two chains; the change, with its two
// ranges exchanged (chs_swap), then goes to the other stack.

module History {
  import opened Links
  import opened Counts

  datatype Option<T> = None | Some(value: T)

  /** struct change_stack without its link field. */
  datatype Change = Change(newRange: Range, oldRange: Range)

  /** chs_push: `ch` becomes the top of the stack. */
  function Push(stack: seq<Change>, ch: Change): (r: seq<Change>)
    ensures |r| == |stack| + 1 && r[0] == ch && r[1..] == stack
  {
    [ch] + stack
  }

  /** pt_save_change: a change whose `old` range is `former` and whose
      `new` range is `stash` goes on top of the undo stack. */
  function Saved(undo: seq<Change>, former: Range, stash: Range): (r: seq<Change>)
    ensures |r| == |undo| + 1 && r[1..] == undo
    ensures r[0].oldRange == former && r[0].newRange == stash
  {
    Push(undo, Change(stash, former))
  }

  /** chs_pop: the top change and the rest of the stack, or nothing on an
      empty stack. */
  function Pop(stack: seq<Change>): (r: (Option<Change>, seq<Change>))
    ensures r.0 == None <==> stack == []
    ensures r.0 == None ==> r.1 == stack
    ensures r.0 != None ==> Push(r.1, r.0.value) == stack && r.0.value == stack[0] && r.1 == stack[1..]
  {
    if stack == [] then (None, stack) else (Some(stack[0]), stack[1..])
  }

  /** chs_swap: the two ranges of a change exchanged. */
  function Flip(ch: Change): (r: Change)
    ensures r.newRange == ch.oldRange && r.oldRange == ch.newRange
  {
    Change(ch.oldRange, ch.newRange)
  }

  lemma PopPush(stack: seq<Change>, ch: Change)
    ensures Pop(Push(stack, ch)) == (Some(ch), stack)
  {
  }

  lemma FlipFlip(ch: Change)
    ensures Flip(Flip(ch)) == ch
  {
  }

  /** The border of a change: its `old` range while the change is on the
      undo stack, its `new` range while it is on the redo stack. */
  function BorderOf(ch: Change, onUndo: bool): Range
  {
    if onUndo then ch.oldRange else ch.newRange
  }

  /** The stash of a change: the range that is not the border. */
  function StashOf(ch: Change, onUndo: bool): Range
  {
    if onUndo then ch.newRange else ch.oldRange
  }

  /** Moving a flipped change to the other stack keeps its border and stash. */
  lemma FlipKeepsRoles(ch: Change, onUndo: bool)
    ensures BorderOf(Flip(ch), !onUndo) == BorderOf(ch, onUndo)
    ensures StashOf(Flip(ch), !onUndo) == StashOf(ch, onUndo)
  {
  }

  /** A recorded edit, as node chains: applying it replaces `current`, which
      is live between `prefix` and `suffix`, by `stored`. */
  datatype Edit = Edit(prefix: seq<Ref>, current: seq<Ref>, stored: seq<Ref>, suffix: seq<Ref>)
  {
    /** The live chain while this edit is on top of its stack. */
    function Live(): seq<Ref>
    {
      prefix + current + suffix
    }

    /** The live chain once this edit is applied. */
    function Result(): seq<Ref>
    {
      prefix + stored + suffix
    }

    /** The edit that takes the result back. */
    function Reversed(): Edit
    {
      Edit(prefix, stored, current, suffix)
    }

    /** The live nodes on either side of `current`: a sentinel of `pieces`
        where `prefix` or `suffix` is empty. */
    function Border(pieces: Range): Range
    {
      Range(LastOr(prefix, pieces.head), FirstOr(suffix, pieces.tail))
    }
  }

  lemma ReversedInverse(e: Edit)
    ensures e.Reversed().Reversed() == e
    ensures e.Reversed().Live() == e.Result() && e.Reversed().Result() == e.Live()
  {
  }

  /** Every entry of `c` is a node of an arena of `n` nodes. */
  ghost predicate InArena(c: seq<Ref>, n: nat)
  {
    forall i :: 0 <= i < |c| ==> 0 <= c[i] < n
  }

  /** Each edit of a stack starts from the chain the edit above it
      produces. */
  ghost predicate Chained(es: seq<Edit>)
  {
    |es| <= 1 || (es[1].Live() == es[0].Result() && Chained(es[1..]))
  }

  /** A stack and the edits it records, top first: the top edit starts from
      the live chain and each later one from the result of the one above;
      each change's border is its edit's border and its stash holds the
      edit's stored chain. */
  ghost predicate Recorded(next: seq<Ref>, prev: seq<Ref>, pieces: Range, live: seq<Ref>,
                           stack: seq<Change>, es: seq<Edit>, onUndo: bool)
  {
    |stack| == |es| &&
    (|es| > 0 ==> es[0].Live() == live) &&
    Chained(es) &&
    (forall i :: 0 <= i < |es| ==> InArena(es[i].Result(), |next|)) &&
    (forall i :: 0 <= i < |es| ==>
       BorderOf(stack[i], onUndo) == es[i].Border(pieces) &&
       Holds(next, prev, StashOf(stack[i], onUndo), es[i].stored))
  }

  /** The node sequences of the stashes of a stack. */
  ghost function Stashes(stack: seq<Change>, es: seq<Edit>, onUndo: bool): (ss: seq<seq<Ref>>)
    requires |stack| == |es|
    ensures |ss| == |es|
  {
    seq(|es|, i requires 0 <= i < |es| => Bounded(StashOf(stack[i], onUndo), es[i].stored))
  }

  /** Every tracked node sequence: the live range, then the stashes of
      stack `a`, then those of stack `b`. */
  ghost function Parts(pieces: Range, live: seq<Ref>, a: seq<Change>, ea: seq<Edit>, oa: bool,
                       b: seq<Change>, eb: seq<Edit>): seq<seq<Ref>>
    requires |a| == |ea| && |b| == |eb|
  {
    [Bounded(pieces, live)] + Stashes(a, ea, oa) + Stashes(b, eb, !oa)
  }

  /** The link invariant of a piece table with stacks `a` and `b`: the live
      range holds the live chain and ends the node list, both stacks are
      recorded, and no node is in two places. */
  ghost predicate Sound(next: seq<Ref>, prev: seq<Ref>, pieces: Range, live: seq<Ref>,
                        a: seq<Change>, ea: seq<Edit>, oa: bool, b: seq<Change>, eb: seq<Edit>)
  {
    |next| == |prev| && Holds(next, prev, pieces, live) && At(next, pieces.tail) == Null &&
    Recorded(next, prev, pieces, live, a, ea, oa) && Recorded(next, prev, pieces, live, b, eb, !oa) &&
    Unique(Parts(pieces, live, a, ea, oa, b, eb))
  }
}
