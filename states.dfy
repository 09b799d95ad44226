// The values of a piece table as one State, the invariant that ties its
// links, stacks and stores together, and the effect of each operation of
// struct PieceTable on those values, with the properties each one keeps.

module States {
  import opened Stores
  import opened Links
  import opened Counts
  import opened Pieces
  import opened History
  import opened Steps
  import opened Texts

  /** The values of a piece table: the node arena, the sentinels of the
      piece range, the stacks with the edits they record, the stores' bytes
      and the length field. `live` is the chain between the sentinels. */
  datatype State = State(piece: seq<Piece>, next: seq<Ref>, prev: seq<Ref>, pieces: Range, live: seq<Ref>,
                         undo: seq<Change>, undoEdits: seq<Edit>, redo: seq<Change>, redoEdits: seq<Edit>,
                         st: Backing, len: nat)
  {
    /** The text the table holds: the bytes of the live pieces, in order. */
    ghost function Content(): seq<byte>
    {
      ChainText(piece, live, st)
    }

    /** The texts successive undos bring back, most recent first. */
    ghost function UndoTexts(): seq<seq<byte>>
    {
      ResultTexts(piece, undoEdits, st)
    }

    /** The texts successive redos bring back, most recent first. */
    ghost function RedoTexts(): seq<seq<byte>>
    {
      ResultTexts(piece, redoEdits, st)
    }
  }

  /** The invariant of a piece table: the links are sound for both stacks,
      the sentinels are empty pieces, every piece lies inside its store and
      `len` is the text's length. */
  ghost predicate Inv(s: State)
  {
    |s.next| == |s.piece| && |s.prev| == |s.piece| &&
    Sound(s.next, s.prev, s.pieces, s.live, s.undo, s.undoEdits, true, s.redo, s.redoEdits) &&
    0 <= s.pieces.head < |s.piece| && 0 <= s.pieces.tail < |s.piece| &&
    s.piece[s.pieces.head].len == 0 && s.piece[s.pieces.tail].len == 0 &&
    ArenaInBounds(s.piece, s.st) && InArena(s.live, |s.piece|) &&
    s.len == SumLen(PiecesOf(s.piece, s.live))
  }

  /** `len` is the length of the text. */
  lemma InvLen(s: State)
    requires Inv(s)
    ensures s.len == |s.Content()|
  {
    ChainLen(s.piece, s.live, s.st);
  }

  /** The facts of the invariant the methods use directly. */
  lemma InvParts(s: State)
    requires Inv(s)
    ensures Holds(s.next, s.prev, s.pieces, s.live) && InArena(s.live, |s.piece|)
    ensures s.len == SumLen(PiecesOf(s.piece, s.live))
  {
  }

  /** The state pt_undo leaves when the undo stack is not empty. */
  ghost function Undone(s: State): State
    requires |s.undo| > 0 && |s.undoEdits| > 0
  {
    var ch, e := s.undo[0], s.undoEdits[0];
    State(s.piece, SwappedNext(s.next, ch.oldRange, e.current, ch.newRange, e.stored),
          SwappedPrev(s.prev, ch.oldRange, e.current, ch.newRange, e.stored), s.pieces, e.Result(),
          s.undo[1..], s.undoEdits[1..], Push(s.redo, Flip(ch)), [e.Reversed()] + s.redoEdits,
          s.st, SumLen(PiecesOf(s.piece, e.Result())))
  }

  /** Undo keeps the invariant: the top change's two ranges hold their
      chains apart from each other, and exchanging them gives a sound table. */
  lemma UndoKeeps(s: State)
    requires Inv(s) && |s.undo| > 0
    ensures |s.undoEdits| > 0
    ensures Holds(s.next, s.prev, s.undo[0].oldRange, s.undoEdits[0].current)
    ensures Holds(s.next, s.prev, s.undo[0].newRange, s.undoEdits[0].stored)
    ensures Disjoint(Bounded(s.undo[0].oldRange, s.undoEdits[0].current), Bounded(s.undo[0].newRange, s.undoEdits[0].stored))
    ensures Inv(Undone(s))
  {
    Step(s.next, s.prev, s.pieces, s.live, s.undo, s.undoEdits, true, s.redo, s.redoEdits);
    var t := Undone(s);
    LiveInArena(t.next, t.prev, t.pieces, t.live);
  }

  /** Undo brings back the text on top of the undo texts and makes the
      current text the next one to redo. */
  lemma UndoText(s: State)
    requires Inv(s) && |s.undo| > 0
    ensures |s.undoEdits| > 0
    ensures Undone(s).Content() == s.UndoTexts()[0]
    ensures Undone(s).UndoTexts() == s.UndoTexts()[1..]
    ensures Undone(s).RedoTexts() == [s.Content()] + s.RedoTexts()
  {
    EditsCount(s);
    UndoneTexts(s);
  }

  lemma UndoneTexts(s: State)
    requires |s.undo| > 0 && |s.undoEdits| > 0 && s.undoEdits[0].Live() == s.live
    ensures Undone(s).Content() == s.UndoTexts()[0]
    ensures Undone(s).UndoTexts() == s.UndoTexts()[1..]
    ensures Undone(s).RedoTexts() == [s.Content()] + s.RedoTexts()
  {
    ReversedInverse(s.undoEdits[0]);
  }

  /** Each stack records one edit per change. */
  lemma EditsCount(s: State)
    requires Inv(s)
    ensures |s.undoEdits| == |s.undo| && |s.redoEdits| == |s.redo|
  {
  }

  /** The state pt_redo leaves when the redo stack is not empty. */
  ghost function Redone(s: State): State
    requires |s.redo| > 0 && |s.redoEdits| > 0
  {
    var ch, e := s.redo[0], s.redoEdits[0];
    State(s.piece, SwappedNext(s.next, ch.oldRange, e.stored, ch.newRange, e.current),
          SwappedPrev(s.prev, ch.oldRange, e.stored, ch.newRange, e.current), s.pieces, e.Result(),
          Push(s.undo, Flip(ch)), [e.Reversed()] + s.undoEdits, s.redo[1..], s.redoEdits[1..],
          s.st, SumLen(PiecesOf(s.piece, e.Result())))
  }

  /** Redo keeps the invariant, as undo does. */
  lemma RedoKeeps(s: State)
    requires Inv(s) && |s.redo| > 0
    ensures |s.redoEdits| > 0
    ensures Holds(s.next, s.prev, s.redo[0].oldRange, s.redoEdits[0].stored)
    ensures Holds(s.next, s.prev, s.redo[0].newRange, s.redoEdits[0].current)
    ensures Disjoint(Bounded(s.redo[0].oldRange, s.redoEdits[0].stored), Bounded(s.redo[0].newRange, s.redoEdits[0].current))
    ensures Inv(Redone(s))
  {
    RedoStep(s.next, s.prev, s.pieces, s.live, s.undo, s.undoEdits, s.redo, s.redoEdits);
    var t := Redone(s);
    LiveInArena(t.next, t.prev, t.pieces, t.live);
  }

  /** Redo brings back the text on top of the redo texts and makes the
      current text the next one to undo. */
  lemma RedoText(s: State)
    requires Inv(s) && |s.redo| > 0
    ensures |s.redoEdits| > 0
    ensures Redone(s).Content() == s.RedoTexts()[0]
    ensures Redone(s).RedoTexts() == s.RedoTexts()[1..]
    ensures Redone(s).UndoTexts() == [s.Content()] + s.UndoTexts()
  {
    EditsCount(s);
    RedoneTexts(s);
  }

  lemma RedoneTexts(s: State)
    requires |s.redo| > 0 && |s.redoEdits| > 0 && s.redoEdits[0].Live() == s.live
    ensures Redone(s).Content() == s.RedoTexts()[0]
    ensures Redone(s).RedoTexts() == s.RedoTexts()[1..]
    ensures Redone(s).UndoTexts() == [s.Content()] + s.UndoTexts()
  {
    ReversedInverse(s.redoEdits[0]);
  }

  /** Undoing and then redoing the same change restores the state. */
  lemma UndoRedo(s: State)
    requires Inv(s) && |s.undo| > 0
    ensures |s.undoEdits| > 0 && |Undone(s).redo| > 0 && |Undone(s).redoEdits| > 0
    ensures Redone(Undone(s)) == s
  {
    UndoKeeps(s);
    RedoKeeps(Undone(s));
    SwapBack(s);
  }

  lemma SwapBack(s: State)
    requires |s.undo| > 0 && |s.undoEdits| > 0
    requires Holds(s.next, s.prev, s.undo[0].oldRange, s.undoEdits[0].current)
    requires Holds(s.next, s.prev, s.undo[0].newRange, s.undoEdits[0].stored)
    requires Disjoint(Bounded(s.undo[0].oldRange, s.undoEdits[0].current), Bounded(s.undo[0].newRange, s.undoEdits[0].stored))
    requires Disjoint(Bounded(s.undo[0].newRange, s.undoEdits[0].current), Bounded(s.undo[0].oldRange, s.undoEdits[0].stored))
    requires s.undoEdits[0].Live() == s.live && s.len == SumLen(PiecesOf(s.piece, s.live))
    ensures Redone(Undone(s)) == s
  {
    var ch, e := s.undo[0], s.undoEdits[0];
    SwapHolds(s.next, s.prev, ch.oldRange, e.current, ch.newRange, e.stored);
    SwapSymmetric(SwappedNext(s.next, ch.oldRange, e.current, ch.newRange, e.stored),
                  SwappedPrev(s.prev, ch.oldRange, e.current, ch.newRange, e.stored),
                  ch.newRange, e.current, ch.oldRange, e.stored);
    SwapTwice(s.next, s.prev, ch.oldRange, e.current, ch.newRange, e.stored);
    FlipFlip(ch);
    ReversedInverse(e);
    assert [e.Reversed().Reversed()] + s.undoEdits[1..] == s.undoEdits;
    assert Push(s.undo[1..], ch) == s.undo;
  }

  /** The state pt_insert and pt_delete leave once they have built the
      replacement chain `e.stored` in the fresh range `stash` (in arena
      `piece'`, `next'`, `prev'`, with stores `st'`): the range is exchanged
      with the edited part of the live chain, the change is saved on the
      undo stack and the redo stack is emptied. */
  ghost function Committed(s: State, piece': seq<Piece>, next': seq<Ref>, prev': seq<Ref>, st': Backing,
                           stash: Range, e: Edit): State
  {
    var border := e.Border(s.pieces);
    State(piece', SwappedNext(next', stash, e.stored, border, e.current),
          SwappedPrev(prev', stash, e.stored, border, e.current), s.pieces, e.Result(),
          Saved(s.undo, border, stash), [e.Reversed()] + s.undoEdits, [], [],
          st', SumLen(PiecesOf(piece', e.Result())))
  }

  /** What the end of pt_insert and pt_delete needs to reach state `t`
      from an arena `piece'`, `next'`, `prev'`: the fresh range `stash`
      and the range `border` it replaces hold disjoint chains, and `t` is
      the result of exchanging them and saving the change on `undo`. */
  ghost predicate Exchangeable(piece': seq<Piece>, next': seq<Ref>, prev': seq<Ref>, stash: Range, border: Range,
                               e: Edit, t: State, pieces: Range, undo: seq<Change>)
  {
    Holds(next', prev', stash, e.stored) && Holds(next', prev', border, e.current) &&
    Disjoint(Bounded(stash, e.stored), Bounded(border, e.current)) &&
    t.piece == piece' && t.pieces == pieces && t.live == e.Result() &&
    t.next == SwappedNext(next', stash, e.stored, border, e.current) &&
    t.prev == SwappedPrev(prev', stash, e.stored, border, e.current) &&
    Holds(t.next, t.prev, pieces, t.live) &&
    t.undo == Saved(undo, border, stash) && t.redo == [] &&
    t.len == SumLen(PiecesOf(piece', e.Result()))
  }

  /** Committing an edit whose replacement chain is made of fresh nodes
      keeps the invariant; the text before the edit becomes the first one
      to undo to, and nothing is left to redo. */
  lemma CommitKeeps(s: State, piece': seq<Piece>, next': seq<Ref>, prev': seq<Ref>, st': Backing,
                    stash: Range, e: Edit)
    requires Inv(s)
    requires |next'| == |piece'| && |prev'| == |piece'|
    requires s.piece <= piece' && s.next <= next' && s.prev <= prev'
    requires Holds(next', prev', stash, e.stored)
    requires forall x :: x in Bounded(stash, e.stored) ==> x >= |s.next|
    requires e.Live() == s.live
    requires ArenaInBounds(piece', st') && s.st.GrowsTo(st')
    ensures Holds(next', prev', e.Border(s.pieces), e.current)
    ensures Exchangeable(piece', next', prev', stash, e.Border(s.pieces), e, Committed(s, piece', next', prev', st', stash, e),
                         s.pieces, s.undo)
    ensures Inv(Committed(s, piece', next', prev', st', stash, e))
    ensures Committed(s, piece', next', prev', st', stash, e).UndoTexts() == [s.Content()] + s.UndoTexts()
    ensures Committed(s, piece', next', prev', st', stash, e).RedoTexts() == []
  {
    var t := Committed(s, piece', next', prev', st', stash, e);
    Commit(s.next, s.prev, next', prev', s.pieces, s.live, s.undo, s.undoEdits, s.redo, s.redoEdits, stash, e);
    LiveInArena(t.next, t.prev, t.pieces, t.live);
    ChainTextGrow(s.piece, piece', s.live, s.st, st');
    ResultTextsGrow(s.piece, piece', s.undoEdits, s.st, st');
    ReversedInverse(e);
    assert ([e.Reversed()] + s.undoEdits)[1..] == s.undoEdits;
    InvParts(t);
  }

  /** Undoing a committed edit restores the table as it was before the
      edit: the same live chain, text, length and undo stack. */
  lemma EditUndo(s: State, piece': seq<Piece>, next': seq<Ref>, prev': seq<Ref>, st': Backing,
                 stash: Range, e: Edit)
    requires Inv(s)
    requires |next'| == |piece'| && |prev'| == |piece'|
    requires s.piece <= piece' && s.next <= next' && s.prev <= prev'
    requires Holds(next', prev', stash, e.stored)
    requires forall x :: x in Bounded(stash, e.stored) ==> x >= |s.next|
    requires e.Live() == s.live
    requires ArenaInBounds(piece', st') && s.st.GrowsTo(st')
    ensures var t := Committed(s, piece', next', prev', st', stash, e);
            |t.undo| > 0 && |t.undoEdits| > 0 &&
            Undone(t).live == s.live && Undone(t).Content() == s.Content() &&
            Undone(t).len == s.len && Undone(t).undo == s.undo
  {
    var t := Committed(s, piece', next', prev', st', stash, e);
    CommitKeeps(s, piece', next', prev', st', stash, e);
    UndoText(t);
    ReversedInverse(e);
    InvLen(s);
    UndoKeeps(t);
    InvLen(Undone(t));
  }

  /** The state pt_load_from_file leaves: `bytes` become the original
      store and node `|piece|`, a piece covering all of them, is appended
      to the live chain. */
  ghost function Loaded(s: State, bytes: seq<byte>): State
  {
    var x, tail := |s.piece|, s.pieces.tail;
    var before := At(s.prev, tail);
    var piece := s.piece + [Piece(Original, 0, |bytes|)];
    State(piece, Put(Put(s.next + [Null], before, x), x, tail), Put(Put(s.prev + [Null], tail, x), x, before),
          s.pieces, s.live + [x], s.undo, s.undoEdits, s.redo, s.redoEdits,
          Backing(bytes, s.st.add), SumLen(PiecesOf(piece, s.live + [x])))
  }

  /** Loading into a table with no original bytes and no edits keeps the
      invariant and puts the bytes after the text. */
  lemma LoadKeeps(s: State, bytes: seq<byte>)
    requires Inv(s) && s.st.original == [] && s.undo == [] && s.redo == []
    ensures Inv(Loaded(s, bytes))
    ensures Loaded(s, bytes).Content() == s.Content() + bytes
    ensures Loaded(s, bytes).len == s.len + |bytes|
    ensures Loaded(s, bytes).undo == [] && Loaded(s, bytes).redo == []
  {
    var t := Loaded(s, bytes);
    var x := |s.piece|;
    var next1, prev1 := s.next + [Null], s.prev + [Null];
    HoldsFacts(s.next, s.prev, s.pieces, s.live);
    assert x !in Bounded(s.pieces, s.live);
    HoldsGrow(s.next, s.prev, next1, prev1, s.pieces, s.live);
    var before := s.prev[s.pieces.tail];
    assert t.next == next1[before := x][x := s.pieces.tail] && t.prev == prev1[s.pieces.tail := x][x := before];
    HoldsAppend(next1, prev1, s.pieces, s.live, x, t.next, t.prev);
    assert At(t.next, s.pieces.tail) == At(s.next, s.pieces.tail);
    LoadSound(s.next, s.prev, t.next, t.prev, s.pieces, s.live, x);
    LoadText(s.piece, t.piece, s.live, x, s.st, t.st, bytes);
    assert InArena(t.live, |t.piece|);
    InvLen(s);
    InvLen(t);
  }

  /** A table with an empty range and empty stacks is sound. */
  lemma EmptyInv(s: State)
    requires |s.next| == |s.piece| && |s.prev| == |s.piece|
    requires Holds(s.next, s.prev, s.pieces, []) && At(s.next, s.pieces.tail) == Null
    requires 0 <= s.pieces.head < |s.piece| && 0 <= s.pieces.tail < |s.piece|
    requires s.piece[s.pieces.head] == Blank && s.piece[s.pieces.tail] == Blank
    requires s.live == [] && s.undo == [] && s.undoEdits == [] && s.redo == [] && s.redoEdits == []
    requires forall x :: 0 <= x < |s.piece| ==> s.piece[x] == Blank
    requires s.len == 0
    ensures Inv(s) && s.Content() == []
  {
    UniqueSingle(Bounded(s.pieces, []));
    assert Parts(s.pieces, [], [], [], true, [], []) == [Bounded(s.pieces, [])];
    assert PiecesOf(s.piece, []) == [];
    HoldsFacts(s.next, s.prev, s.pieces, []);
  }

  /** Appending a fresh node to the live chain of a table with empty stacks
      keeps it sound. */
  lemma LoadSound(next: seq<Ref>, prev: seq<Ref>, next': seq<Ref>, prev': seq<Ref>,
                  pieces: Range, live: seq<Ref>, x: Ref)
    requires Sound(next, prev, pieces, live, [], [], true, [], [])
    requires Holds(next', prev', pieces, live + [x]) && |next'| == |prev'|
    requires At(next', pieces.tail) == At(next, pieces.tail)
    ensures Sound(next', prev', pieces, live + [x], [], [], true, [], [])
  {
    assert Parts(pieces, live + [x], [], [], true, [], []) == [Bounded(pieces, live + [x])];
    UniqueSingle(Bounded(pieces, live + [x]));
  }

  /** The text after pt_load_from_file: the old text, then the loaded bytes. */
  lemma LoadText(piece: seq<Piece>, piece': seq<Piece>, live: seq<Ref>, x: Ref,
                 st: Backing, st': Backing, bytes: seq<byte>)
    requires ArenaInBounds(piece, st) && InArena(live, |piece|) && st.original == []
    requires piece' == piece + [Piece(Original, 0, |bytes|)] && x == |piece|
    requires st' == Backing(bytes, st.add)
    ensures ArenaInBounds(piece', st')
    ensures ChainText(piece', live + [x], st') == ChainText(piece, live, st) + bytes
  {
    assert st.GrowsTo(st');
    ArenaGrow(piece, st, st');
    ChainTextGrow(piece, piece', live, st, st');
    ChainTextConcat(piece', live, [x], st');
    assert PiecesOf(piece', [x]) == [Piece(Original, 0, |bytes|)];
    TextOfOne(Piece(Original, 0, |bytes|), st');
  }

  /** The chain p_find walks from the head sentinel: every live node, then
      the tail sentinel. */
  ghost function Walk(s: State): seq<Ref>
  {
    Bounded(s.pieces, s.live)
  }

  /** The walk is linked, ends at the tail sentinel (an empty piece with no
      successor) and its pieces add up to the table's length. */
  lemma FindReady(s: State)
    requires Inv(s)
    ensures Linked(s.next, s.prev, Walk(s)) && Walk(s)[0] == s.pieces.head
    ensures s.next[Walk(s)[|Walk(s)| - 1]] == Null && s.piece[Walk(s)[|Walk(s)| - 1]].len == 0
    ensures SumLen(PiecesOf(s.piece, Walk(s))) == s.len
  {
    var w := Walk(s);
    assert w == [s.pieces.head] + s.live + [s.pieces.tail];
    SumLenOfConcat(s.piece, [s.pieces.head] + s.live, [s.pieces.tail]);
    SumLenOfConcat(s.piece, [s.pieces.head], s.live);
    assert PiecesOf(s.piece, [s.pieces.head]) == [s.piece[s.pieces.head]];
    assert PiecesOf(s.piece, [s.pieces.tail]) == [s.piece[s.pieces.tail]];
    assert SumLen([s.piece[s.pieces.head]]) == 0 && SumLen([s.piece[s.pieces.tail]]) == 0;
  }

  /** What p_find reports for `offset`: node `p`, entry `k` of the walk,
      with `offset` lying `o` bytes into it; either inside the piece, or
      at the tail sentinel with nothing left. */
  ghost predicate FoundAt(s: State, offset: nat, p: Ref, o: nat, k: nat)
  {
    var w := Walk(s);
    k < |w| && p == w[k] && 0 <= p < |s.piece| && offset == SumLen(PiecesOf(s.piece, w[..k])) + o &&
    (o < s.piece[p].len || (k == |w| - 1 && o == 0))
  }

  /** The walk before entry `k` is the head sentinel and the first `k - 1`
      live nodes, so it spells as many bytes as they do. */
  lemma WalkPrefix(s: State, k: nat)
    requires Inv(s) && 1 <= k <= |s.live| + 1
    ensures Walk(s)[..k] == [s.pieces.head] + s.live[..k - 1]
    ensures SumLen(PiecesOf(s.piece, Walk(s)[..k])) == SumLen(PiecesOf(s.piece, s.live[..k - 1]))
  {
    var w := Walk(s);
    assert w[..k] == [s.pieces.head] + s.live[..k - 1];
    SumLenOfConcat(s.piece, [s.pieces.head], s.live[..k - 1]);
    assert PiecesOf(s.piece, [s.pieces.head]) == [s.piece[s.pieces.head]];
    assert SumLen([s.piece[s.pieces.head]]) == 0;
  }

  /** Where pt_insert's lookup lands: entry `k` of the walk is past the head
      sentinel; inside a piece it is a live node, and its neighbours are the
      ends of the live chain around it. */
  lemma InsertFound(s: State, offset: nat, p: Ref, o: nat, k: nat)
    requires Inv(s) && FoundAt(s, offset, p, o, k)
    ensures 1 <= k <= |s.live| + 1 && (o != 0 ==> k <= |s.live|)
    ensures SumLen(PiecesOf(s.piece, s.live[..k - 1])) + o == offset
    ensures o != 0 ==> p == s.live[k - 1] && o < s.piece[p].len
    ensures o == 0 ==> p == FirstOr(s.live[k - 1..], s.pieces.tail)
    ensures s.prev[p] == LastOr(s.live[..k - 1], s.pieces.head)
    ensures o != 0 ==> s.next[p] == FirstOr(s.live[k..], s.pieces.tail)
  {
    var w := Walk(s);
    assert w == [s.pieces.head] + s.live + [s.pieces.tail];
    WalkPrefix(s, k);
    assert s.prev[w[k]] == w[k - 1];
    if k < |w| - 1 {
      assert s.next[w[k]] == w[k + 1];
    }
  }

  /** The edit pt_insert makes at entry `k` of the walk, `o` bytes into its
      piece, with the replacement built in fresh nodes from `|s.piece|` on:
      the sentinels of the new range, then the new chain. */
  ghost function InsertEdit(s: State, k: nat, o: nat): Edit
    requires 1 <= k <= |s.live| + 1 && (o != 0 ==> k <= |s.live|)
  {
    var n := |s.piece|;
    if o == 0 then Edit(s.live[..k - 1], [], [n + 2], s.live[k - 1..])
    else Edit(s.live[..k - 1], [s.live[k - 1]], [n + 2, n + 3, n + 4], s.live[k..])
  }

  /** The records pt_insert appends to the arena: the sentinels of the new
      range, then the pieces of the new chain. */
  ghost function InsertArena(s: State, p: Ref, o: nat, str: seq<byte>): seq<Piece>
    requires 0 <= p < |s.piece| && (o == 0 || o < s.piece[p].len)
  {
    s.piece + [Blank, Blank] + InsertPieces(s.piece[p], o, NewPiece(s.st, str))
  }

  /** What building pt_insert's replacement leaves: the arena `piece'`
      with the new records, links `next'`, `prev'` that keep the old ones,
      the stores `st'` with `str` appended to the ADD store, and the fresh
      range `stash` holding the new chain. */
  ghost predicate InsertBuilt(s: State, p: Ref, o: nat, str: seq<byte>,
                              piece': seq<Piece>, next': seq<Ref>, prev': seq<Ref>, st': Backing, stash: Range)
  {
    0 <= p < |s.piece| && (o == 0 || o < s.piece[p].len) &&
    piece' == InsertArena(s, p, o, str) && st' == Backing(s.st.original, s.st.add + str) &&
    |next'| == |piece'| && |prev'| == |piece'| && s.next <= next' && s.prev <= prev' &&
    stash == Range(|s.piece|, |s.piece| + 1) &&
    Holds(next', prev', stash, if o == 0 then [|s.piece| + 2] else [|s.piece| + 2, |s.piece| + 3, |s.piece| + 4])
  }

  /** pt_insert keeps the invariant, puts `str` at `offset` in the text,
      and makes the old text the first one to undo to. */
  lemma InsertKeeps(s: State, offset: nat, p: Ref, o: nat, k: nat, str: seq<byte>,
                    piece': seq<Piece>, next': seq<Ref>, prev': seq<Ref>, st': Backing, stash: Range, border: Range)
    requires Inv(s) && FoundAt(s, offset, p, o, k)
    requires InsertBuilt(s, p, o, str, piece', next', prev', st', stash)
    requires border == Range(s.prev[p], if o == 0 then p else s.next[p])
    ensures 1 <= k <= |s.live| + 1 && (o != 0 ==> k <= |s.live|)
    ensures Exchangeable(piece', next', prev', stash, border, InsertEdit(s, k, o),
                         Committed(s, piece', next', prev', st', stash, InsertEdit(s, k, o)), s.pieces, s.undo)
    ensures Inv(Committed(s, piece', next', prev', st', stash, InsertEdit(s, k, o)))
    ensures offset <= |s.Content()|
    ensures Committed(s, piece', next', prev', st', stash, InsertEdit(s, k, o)).Content() ==
              s.Content()[..offset] + str + s.Content()[offset..]
    ensures Committed(s, piece', next', prev', st', stash, InsertEdit(s, k, o)).UndoTexts() == [s.Content()] + s.UndoTexts()
    ensures Committed(s, piece', next', prev', st', stash, InsertEdit(s, k, o)).RedoTexts() == []
  {
    InsertFound(s, offset, p, o, k);
    InsertEditFacts(s, p, o, k, stash);
    InsertBounds(s, p, o, str, st');
    CommitKeeps(s, piece', next', prev', st', stash, InsertEdit(s, k, o));
    InsertContent(s, offset, p, o, k, str, piece', st');
  }

  /** The edit pt_insert makes replaces nothing of the live chain but the
      split piece, and its replacement is made of fresh nodes. */
  lemma InsertEditFacts(s: State, p: Ref, o: nat, k: nat, stash: Range)
    requires stash == Range(|s.piece|, |s.piece| + 1)
    requires 1 <= k <= |s.live| + 1 && (o != 0 ==> k <= |s.live|)
    requires o != 0 ==> p == s.live[k - 1]
    requires o == 0 ==> p == FirstOr(s.live[k - 1..], s.pieces.tail)
    ensures InsertEdit(s, k, o).Live() == s.live
    ensures InsertEdit(s, k, o).stored ==
              if o == 0 then [|s.piece| + 2] else [|s.piece| + 2, |s.piece| + 3, |s.piece| + 4]
    ensures forall x :: x in Bounded(stash, InsertEdit(s, k, o).stored) ==> x >= |s.piece|
    ensures InsertEdit(s, k, o).Border(s.pieces) ==
              Range(LastOr(s.live[..k - 1], s.pieces.head), if o == 0 then p else FirstOr(s.live[k..], s.pieces.tail))
  {
    assert s.live[..k - 1] + s.live[k - 1..] == s.live;
    if o != 0 {
      assert s.live[..k - 1] + [s.live[k - 1]] + s.live[k..] == s.live;
    }
  }

  /** The new records lie inside the stores once `str` is appended. */
  lemma InsertBounds(s: State, p: Ref, o: nat, str: seq<byte>, st': Backing)
    requires Inv(s) && 0 <= p < |s.piece| && (o == 0 || o < s.piece[p].len)
    requires st' == Backing(s.st.original, s.st.add + str)
    ensures s.st.GrowsTo(st') && ArenaInBounds(InsertArena(s, p, o, str), st')
  {
    var piece' := InsertArena(s, p, o, str);
    assert s.st.GrowsTo(st');
    ArenaGrow(s.piece, s.st, st');
    NewPieceText(s.st, st', str);
    assert InBounds(s.piece[p], st');
    if o != 0 {
      SliceBytes(s.piece[p], 0, o - 1, st');
      SliceBytes(s.piece[p], o, s.piece[p].len - 1, st');
    }
    forall x | 0 <= x < |piece'|
      ensures InBounds(piece'[x], st')
    {
      if x >= |s.piece| + 2 {
        assert piece'[x] in InsertPieces(s.piece[p], o, NewPiece(s.st, str));
      }
    }
  }

  /** The text after pt_insert. */
  lemma InsertContent(s: State, offset: nat, p: Ref, o: nat, k: nat, str: seq<byte>,
                      piece': seq<Piece>, st': Backing)
    requires ArenaInBounds(s.piece, s.st) && InArena(s.live, |s.piece|)
    requires 1 <= k <= |s.live| + 1 && (o != 0 ==> k <= |s.live|)
    requires SumLen(PiecesOf(s.piece, s.live[..k - 1])) + o == offset
    requires o != 0 ==> p == s.live[k - 1] && o < s.piece[p].len
    requires 0 <= p < |s.piece|
    requires piece' == InsertArena(s, p, o, str) && st' == Backing(s.st.original, s.st.add + str)
    ensures offset <= |s.Content()|
    ensures ChainText(piece', InsertEdit(s, k, o).Result(), st') == s.Content()[..offset] + str + s.Content()[offset..]
  {
    if o == 0 {
      assert InsertArena(s, p, o, str) == s.piece + [Blank, Blank, NewPiece(s.st, str)];
      InsertContentBetween(s, offset, k, str, piece', st');
    } else {
      assert InsertArena(s, p, o, str) ==
             s.piece + [Blank, Blank, Slice(s.piece[p], 0, o - 1), NewPiece(s.st, str), Slice(s.piece[p], o, s.piece[p].len - 1)];
      InsertContentInside(s, offset, o, k, str, piece', st');
    }
  }

  /** The text after pt_insert at a piece boundary, before live node `k - 1`. */
  lemma InsertContentBetween(s: State, offset: nat, k: nat, str: seq<byte>, piece': seq<Piece>, st': Backing)
    requires ArenaInBounds(s.piece, s.st) && InArena(s.live, |s.piece|) && 1 <= k <= |s.live| + 1
    requires SumLen(PiecesOf(s.piece, s.live[..k - 1])) == offset
    requires piece' == s.piece + [Blank, Blank, NewPiece(s.st, str)] && st' == Backing(s.st.original, s.st.add + str)
    ensures offset <= |s.Content()|
    ensures ChainText(piece', InsertEdit(s, k, 0).Result(), st') == s.Content()[..offset] + str + s.Content()[offset..]
  {
    var n := |s.piece|;
    assert PiecesOf(piece', [n + 2]) == [NewPiece(s.st, str)];
    assert s.live[..k - 1] + s.live[k - 1..] == s.live;
    InsertBetween(s.piece, piece', s.live[..k - 1], s.live[k - 1..], [n + 2], s.st, st', str);
  }

  /** The text after pt_insert `o` bytes into live node `k - 1`. */
  lemma InsertContentInside(s: State, offset: nat, o: nat, k: nat, str: seq<byte>, piece': seq<Piece>, st': Backing)
    requires ArenaInBounds(s.piece, s.st) && InArena(s.live, |s.piece|) && 1 <= k <= |s.live|
    requires 0 < o < s.piece[s.live[k - 1]].len
    requires SumLen(PiecesOf(s.piece, s.live[..k - 1])) + o == offset
    requires var x := s.piece[s.live[k - 1]];
             piece' == s.piece + [Blank, Blank, Slice(x, 0, o - 1), NewPiece(s.st, str), Slice(x, o, x.len - 1)]
    requires st' == Backing(s.st.original, s.st.add + str)
    ensures offset <= |s.Content()|
    ensures ChainText(piece', InsertEdit(s, k, o).Result(), st') == s.Content()[..offset] + str + s.Content()[offset..]
  {
    var n, x := |s.piece|, s.live[k - 1];
    assert PiecesOf(piece', [n + 2, n + 3, n + 4]) ==
           [Slice(s.piece[x], 0, o - 1), NewPiece(s.st, str), Slice(s.piece[x], o, s.piece[x].len - 1)];
    assert InArena(s.live[k..], n) by {
      forall j | 0 <= j < |s.live[k..]|
        ensures 0 <= s.live[k..][j] < n
      {
        assert s.live[k..][j] == s.live[k + j];
      }
    }
    assert s.live[..k - 1] + [x] + s.live[k..] == s.live;
    InsertInside(s.piece, piece', s.live[..k - 1], x, s.live[k..], o, [n + 2, n + 3, n + 4], s.st, st', str);
  }
}
