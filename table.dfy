// struct PieceTable and its public operations: the piece range between two
// sentinels that spells the text, the two stores, and the undo and redo
// stacks. The table's values are described by a State, on which the
// invariant and the effect of each operation are pure; the class's methods
// are proved to move between states as those functions say.

module Tables {
  import opened Stores
  import opened Links
  import opened Counts
  import opened Pieces
  import opened History
  import opened Steps
  import opened Texts
  import opened Arenas
  import opened States
  import opened Deletions

  class PieceTable {
    var original: Buffer
    var add: Buffer
    var arena: Arena
    var pieces: Range
    var len: nat
    var undo: seq<Change>
    var redo: seq<Change>

    /** The values of the table, with the chains and edits that the links
        and the stacks stand for. */
    ghost var Model: State
    ghost var Repr: set<object>

    /** The objects of the table and what it owns. */
    ghost predicate Frame()
      reads this, Repr
    {
      this in Repr && arena in Repr && original in Repr && add in Repr &&
      original.Repr <= Repr && add.Repr <= Repr &&
      Repr == {this, arena} + original.Repr + add.Repr &&
      this !in original.Repr && this !in add.Repr && arena !in original.Repr && arena !in add.Repr &&
      original.Repr !! add.Repr &&
      original.Valid() && add.Valid() && add.capacity > 0 && arena.Valid()
    }

    /** The fields hold the values the model names. */
    ghost predicate Tied()
      reads this, arena, original, add
    {
      Model.piece == arena.piece && Model.next == arena.next && Model.prev == arena.prev &&
      Model.pieces == pieces && Model.undo == undo && Model.redo == redo &&
      Model.st == Backing(original.Contents, add.Contents)
    }

    /** The table is sound, and `len` is the length of its text. */
    ghost predicate Valid()
      reads this, Repr
    {
      Frame() && Tied() && Model.len == len && Inv(Model) && len == |Content()|
    }

    /** The text the table holds. */
    ghost function Content(): seq<byte>
      reads this
    {
      Model.Content()
    }

    /** pt_create: an empty range, no original store (an empty read-only
        one here), an ADD store of the initial capacity, empty stacks. */
    constructor ()
      ensures fresh(Repr)
      ensures Content() == [] && undo == [] && redo == [] && len == 0
      ensures original.Contents == [] && add.Contents == []
      ensures add.capacity == AddInitialCapacity
      ensures Valid()
    {
      var a := new Arena();
      var r := a.CreateEmpty();
      arena, pieces := a, r;
      var o := new Buffer.ReadOnly([]);
      var b := new Buffer.Empty(AddInitialCapacity);
      original, add := o, b;
      len := 0;
      undo, redo := [], [];
      Model := State(a.piece, a.next, a.prev, r, [], [], [], [], [], Backing([], []), 0);
      Repr := {this, a} + o.Repr + b.Repr;
      new;
      EmptyInv(Model);
    }

    /** pt_load_from_file, with the file's bytes as a parameter: the bytes
        become the original store and one piece covering all of them is
        appended to the range. */
    method Load(bytes: seq<byte>)
      requires Valid() && original.Contents == [] && undo == [] && redo == []
      modifies this, arena
      ensures fresh(Repr - old(Repr))
      ensures Model == Loaded(old(Model), bytes)
      ensures Valid()
    {
      LoadKeeps(Model, bytes);
      InvParts(Model);
      LoadPiece(bytes);
      InvLen(Model);
    }

    /** The steps of pt_load_from_file after reading the file. */
    method LoadPiece(bytes: seq<byte>)
      requires Frame() && Tied() && Holds(arena.next, arena.prev, pieces, Model.live)
      requires InArena(Model.live, |arena.piece|)
      modifies this, arena
      ensures Frame() && Tied() && fresh(Repr - old(Repr))
      ensures Model == Loaded(old(Model), bytes) && len == Model.len
    {
      ghost var t := Loaded(Model, bytes);
      original := new Buffer.ReadOnly(bytes);
      Repr := {this, arena} + original.Repr + add.Repr;
      ghost var next0, prev0 := arena.next, arena.prev;
      HoldsNodes(next0, prev0, pieces, Model.live);
      var x := arena.CreateWith(Piece(Original, 0, |bytes|), Null, Null);
      HoldsGrow(next0, prev0, arena.next, arena.prev, pieces, Model.live);
      arena.AppendPiece(pieces, x, Model.live);
      var n := arena.ChainLength(pieces, t.live);
      Become(t, n, undo, redo);
    }

    /** The fields take the values of state `t`, whose arena and stores
        they already hold. */
    method Become(ghost t: State, n: nat, u: seq<Change>, r: seq<Change>)
      requires Frame() && t.piece == arena.piece && t.next == arena.next && t.prev == arena.prev
      requires t.pieces == pieces && t.st == Backing(original.Contents, add.Contents)
      requires t.len == n && t.undo == u && t.redo == r
      modifies this
      ensures Frame() && Tied() && Repr == old(Repr) && Model == t && len == n
      ensures pieces == old(pieces) && original == old(original) && add == old(add) && arena == old(arena)
    {
      undo, redo, len := u, r, n;
      Model := t;
    }

    /** pt_insert: nothing happens for an empty string or an offset past
        the end of the text; otherwise `s` appears at `offset`, the text
        before the call becomes the first one to undo to, and nothing is
        left to redo. */
    method Insert(offset: nat, s: seq<byte>)
      requires Valid()
      modifies Repr
      ensures fresh(Repr - old(Repr))
      ensures |s| == 0 || offset > old(len) ==> Model == old(Model)
      ensures |s| > 0 && offset <= old(len) ==>
                offset <= |old(Content())| &&
                Content() == old(Content())[..offset] + s + old(Content())[offset..] &&
                Model.UndoTexts() == [old(Content())] + old(Model.UndoTexts()) &&
                Model.RedoTexts() == [] && redo == []
      ensures Valid()
    {
      if |s| == 0 || offset > len {
        return;
      }
      InsertAt(offset, s);
    }

    /** pt_insert past its guard: p_find locates the position, then the
        replacement is built and exchanged. */
    method InsertAt(offset: nat, s: seq<byte>)
      requires Valid() && |s| > 0 && offset <= len
      modifies Repr
      ensures fresh(Repr - old(Repr))
      ensures offset <= |old(Content())|
      ensures Content() == old(Content())[..offset] + s + old(Content())[offset..]
      ensures Model.UndoTexts() == [old(Content())] + old(Model.UndoTexts())
      ensures Model.RedoTexts() == [] && redo == []
      ensures Valid()
    {
      FindReady(Model);
      ghost var w := Walk(Model);
      var pos := arena.Find(w, pieces.head, offset);
      ghost var k :| 0 <= k < |w| && pos.piece == w[k] && offset == arena.LenOf(w[..k]) + pos.offset &&
                     (pos.offset < arena.piece[pos.piece].len || (k == |w| - 1 && pos.offset == 0));
      InsertFoundAt(offset, s, pos, k);
    }

    /** The rest of pt_insert once the position is found, at entry `k` of
        the walk: build the replacement in a fresh range, exchange it with
        the range it replaces, save the change and drop the redo stack. */
    method InsertFoundAt(offset: nat, s: seq<byte>, pos: Position, ghost k: nat)
      requires Valid() && |s| > 0 && FoundAt(Model, offset, pos.piece, pos.offset, k)
      modifies Repr
      ensures fresh(Repr - old(Repr))
      ensures offset <= |old(Content())|
      ensures Content() == old(Content())[..offset] + s + old(Content())[offset..]
      ensures Model.UndoTexts() == [old(Content())] + old(Model.UndoTexts())
      ensures Model.RedoTexts() == [] && redo == []
      ensures Valid()
    {
      ghost var s0 := Model;
      InsertFound(s0, offset, pos.piece, pos.offset, k);
      var border := Range(arena.prev[pos.piece], if pos.offset == 0 then pos.piece else arena.next[pos.piece]);
      var stash := BuildInsert(pos, s, s0);
      InsertKeeps(s0, offset, pos.piece, pos.offset, k, s, arena.piece, arena.next, arena.prev,
                  Backing(original.Contents, add.Contents), stash, border);
      CommitChange(border, stash, InsertEdit(s0, k, pos.offset),
                   Committed(s0, arena.piece, arena.next, arena.prev, Backing(original.Contents, add.Contents),
                             stash, InsertEdit(s0, k, pos.offset)));
    }

    /** The replacement chain of pt_insert, in a fresh range: the part of
        the found piece before the position, a piece for `s` in the ADD
        store and the rest of the found piece; at a piece boundary only the
        piece for `s`. */
    method BuildInsert(pos: Position, s: seq<byte>, ghost s0: State) returns (stash: Range)
      requires Frame() && |s| > 0
      requires s0.piece == arena.piece && s0.next == arena.next && s0.prev == arena.prev
      requires s0.st == Backing(original.Contents, add.Contents)
      requires 0 <= pos.piece < |arena.piece| && (pos.offset == 0 || pos.offset < arena.piece[pos.piece].len)
      modifies this, arena, add.Repr
      ensures Frame() && fresh(Repr - old(Repr))
      ensures Model == old(Model) && pieces == old(pieces) && undo == old(undo) && redo == old(redo) && len == old(len)
      ensures InsertBuilt(s0, pos.piece, pos.offset, s, arena.piece, arena.next, arena.prev,
                          Backing(original.Contents, add.Contents), stash)
    {
      ghost var n, next0, prev0 := |arena.piece|, arena.next, arena.prev;
      ghost var c;
      stash, c := arena.BuildHead(pos.piece, pos.offset);
      ghost var next1, prev1 := arena.next, arena.prev;
      var y := CreatePieceFromString(s);
      assert y == n + 2 + |c|;
      assert arena.next[..y] == next1 && arena.prev[..y] == prev1;
      assert arena.next[..n] == next0 && arena.prev[..n] == prev0;
      arena.BuildTail(stash, c, y, pos.piece, pos.offset, n);
      assert arena.next[..n] == next0 && arena.prev[..n] == prev0;
      assert (if pos.offset == 0 then c + [y] else c + [y, y + 1]) ==
             (if pos.offset == 0 then [n + 2] else [n + 2, n + 3, n + 4]);
    }

    /** pt_delete: nothing happens when nothing is to be deleted, the
        table is empty or the span runs past the end of the text; otherwise
        the `n` bytes from `offset` on are gone, the text before the call
        becomes the first one to undo to, and nothing is left to redo. */
    method Delete(offset: nat, n: nat)
      requires Valid()
      modifies this, arena
      ensures Repr == old(Repr)
      ensures n == 0 || old(len) == 0 || offset + n > old(len) ==> Model == old(Model)
      ensures n > 0 && old(len) > 0 && offset + n <= old(len) ==>
                offset + n <= |old(Content())| &&
                Content() == old(Content())[..offset] + old(Content())[offset + n..] &&
                Model.UndoTexts() == [old(Content())] + old(Model.UndoTexts()) &&
                Model.RedoTexts() == [] && redo == []
      ensures Valid()
    {
      if n == 0 || len == 0 || offset + n > len {
        return;
      }
      DeleteAt(offset, n);
    }

    /** pt_delete past its guard: the first p_find, from the head to the
        node of the first deleted byte. */
    method DeleteAt(offset: nat, n: nat)
      requires Valid() && 0 < n && offset + n <= len
      modifies this, arena
      ensures Repr == old(Repr)
      ensures offset + n <= |old(Content())|
      ensures Content() == old(Content())[..offset] + old(Content())[offset + n..]
      ensures Model.UndoTexts() == [old(Content())] + old(Model.UndoTexts())
      ensures Model.RedoTexts() == [] && redo == []
      ensures Valid()
    {
      FindReady(Model);
      ghost var w := Walk(Model);
      var begin := arena.Find(w, pieces.head, offset);
      ghost var kb :| 0 <= kb < |w| && begin.piece == w[kb] && offset == arena.LenOf(w[..kb]) + begin.offset &&
                      (begin.offset < arena.piece[begin.piece].len || (kb == |w| - 1 && begin.offset == 0));
      DeleteFrom(offset, n, begin, kb);
    }

    /** The second p_find of pt_delete, from the node of the first deleted
        byte to the node of the last one. */
    method DeleteFrom(offset: nat, n: nat, begin: Position, ghost kb: nat)
      requires Valid() && 0 < n && offset + n <= len
      requires FoundAt(Model, offset, begin.piece, begin.offset, kb)
      modifies this, arena
      ensures Repr == old(Repr)
      ensures offset + n <= |old(Content())|
      ensures Content() == old(Content())[..offset] + old(Content())[offset + n..]
      ensures Model.UndoTexts() == [old(Content())] + old(Model.UndoTexts())
      ensures Model.RedoTexts() == [] && redo == []
      ensures Valid()
    {
      EndReady(Model, offset, n, begin.piece, begin.offset, kb);
      ghost var v := Walk(Model)[kb..];
      var end := arena.Find(v, begin.piece, begin.offset + n - 1);
      ghost var j :| 0 <= j < |v| && end.piece == v[j] && begin.offset + n - 1 == SumLen(PiecesOf(arena.piece, v[..j])) + end.offset &&
                     (end.offset < arena.piece[end.piece].len || (j == |v| - 1 && end.offset == 0));
      DeleteFoundAt(offset, n, begin, kb, end, j);
    }

    /** The rest of pt_delete once both ends are found: build the kept
        parts in a fresh range, exchange it with the range of the deleted
        span, save the change and drop the redo stack. */
    method DeleteFoundAt(offset: nat, n: nat, begin: Position, ghost kb: nat, end: Position, ghost j: nat)
      requires Valid() && 0 < n && offset + n <= len
      requires FoundAt(Model, offset, begin.piece, begin.offset, kb)
      requires FoundFrom(Model, kb, begin.offset + n - 1, end.piece, end.offset, j)
      modifies this, arena
      ensures Repr == old(Repr)
      ensures offset + n <= |old(Content())|
      ensures Content() == old(Content())[..offset] + old(Content())[offset + n..]
      ensures Model.UndoTexts() == [old(Content())] + old(Model.UndoTexts())
      ensures Model.RedoTexts() == [] && redo == []
      ensures Valid()
    {
      ghost var s0 := Model;
      DeleteInside(s0, offset, n, begin.piece, begin.offset, kb, end.piece, end.offset, j);
      var border := Range(arena.prev[begin.piece], arena.next[end.piece]);
      var stash := BuildDelete(begin, end, s0);
      DeleteKeeps(s0, offset, n, begin.piece, begin.offset, kb, end.piece, end.offset, j,
                  arena.piece, arena.next, arena.prev, s0.st, stash, border);
      CommitChange(border, stash, DeleteEdit(s0, kb, kb + j, begin.piece, begin.offset, end.piece, end.offset),
                   Committed(s0, arena.piece, arena.next, arena.prev, s0.st, stash,
                             DeleteEdit(s0, kb, kb + j, begin.piece, begin.offset, end.piece, end.offset)));
    }

    /** The replacement chain of pt_delete, in a fresh range of the arena. */
    method BuildDelete(begin: Position, end: Position, ghost s0: State) returns (stash: Range)
      requires Frame() && s0.piece == arena.piece && s0.next == arena.next && s0.prev == arena.prev
      requires 0 <= begin.piece < |arena.piece| && begin.offset < arena.piece[begin.piece].len
      requires 0 <= end.piece < |arena.piece| && end.offset < arena.piece[end.piece].len
      modifies arena
      ensures Frame() && Repr == old(Repr)
      ensures Model == old(Model) && pieces == old(pieces) && undo == old(undo) && redo == old(redo) && len == old(len)
      ensures original.Contents == old(original.Contents) && add.Contents == old(add.Contents)
      ensures DeleteBuilt(s0, begin.piece, begin.offset, end.piece, end.offset, arena.piece, arena.next, arena.prev, stash)
    {
      ghost var c;
      stash, c := arena.BuildKept(begin.piece, begin.offset, end.piece, end.offset);
      assert s0.next <= arena.next && s0.prev <= arena.prev;
    }

    /** pt_create_piece_from_string: no piece for an empty string;
        otherwise the string goes at the end of the ADD store and a new
        node covers it there. */
    method CreatePieceFromString(s: seq<byte>) returns (x: Ref)
      requires Frame()
      modifies this, arena, add.Repr
      ensures Frame() && fresh(Repr - old(Repr))
      ensures Model == old(Model) && pieces == old(pieces) && undo == old(undo) && redo == old(redo) && len == old(len)
      ensures arena == old(arena) && original == old(original) && add == old(add)
      ensures original.Contents == old(original.Contents)
      ensures |s| == 0 ==>
                x == Null && add.Contents == old(add.Contents) &&
                arena.piece == old(arena.piece) && arena.next == old(arena.next) && arena.prev == old(arena.prev)
      ensures |s| > 0 ==>
                x == |old(arena.piece)| && add.Contents == old(add.Contents) + s &&
                arena.piece == old(arena.piece) + [Piece(Add, |old(add.Contents)|, |s|)] &&
                arena.next == old(arena.next) + [Null] && arena.prev == old(arena.prev) + [Null]
    {
      if |s| == 0 {
        return Null;
      }
      var at := add.len;
      add.Append(s);
      Repr := {this, arena} + original.Repr + add.Repr;
      x := arena.CreateWith(Piece(Add, at, |s|), Null, Null);
    }

    /** The end of pt_insert and pt_delete: pr_swap of the fresh range with
        the one it replaces, pt_save_change and pt_free_redo_stack. */
    method CommitChange(border: Range, stash: Range, ghost e: Edit, ghost t: State)
      requires Frame() && Exchangeable(arena.piece, arena.next, arena.prev, stash, border, e, t, pieces, undo)
      requires t.st == Backing(original.Contents, add.Contents) && Inv(t)
      modifies this, arena
      ensures Repr == old(Repr) && Model == t
      ensures Valid()
    {
      var n := arena.Exchange(stash, border, e.stored, e.current, pieces, e.Result());
      Become(t, n, Saved(undo, border, stash), []);
      InvLen(t);
    }

    /** pt_undo: a no-op on an empty undo stack; otherwise the top change
        is popped, its two ranges are exchanged, and it goes, flipped, onto
        the redo stack. */
    method Undo()
      requires Valid()
      modifies this, arena
      ensures Repr == old(Repr)
      ensures old(undo) == [] ==> Model == old(Model)
      ensures old(undo) != [] ==> |old(Model).undoEdits| > 0 && Model == Undone(old(Model))
      ensures Valid()
    {
      if undo == [] {
        return;
      }
      UndoKeeps(Model);
      InvParts(Undone(Model));
      UndoTop();
      InvLen(Model);
    }

    /** The exchange of pt_undo: pop, swap the ranges, push the flipped
        change onto the redo stack. */
    method UndoTop()
      requires Frame() && Tied() && |undo| > 0 && |Model.undoEdits| > 0
      requires Holds(arena.next, arena.prev, undo[0].oldRange, Model.undoEdits[0].current)
      requires Holds(arena.next, arena.prev, undo[0].newRange, Model.undoEdits[0].stored)
      requires Disjoint(Bounded(undo[0].oldRange, Model.undoEdits[0].current),
                        Bounded(undo[0].newRange, Model.undoEdits[0].stored))
      requires Holds(Undone(Model).next, Undone(Model).prev, pieces, Undone(Model).live)
      modifies this, arena
      ensures Frame() && Tied() && Repr == old(Repr)
      ensures Model == Undone(old(Model)) && len == Model.len
    {
      var (top, rest) := Pop(undo);
      var ch := top.value;
      ghost var e, t := Model.undoEdits[0], Undone(Model);
      var n := arena.Exchange(ch.oldRange, ch.newRange, e.current, e.stored, pieces, t.live);
      Become(t, n, rest, Push(redo, Flip(ch)));
    }

    /** pt_redo: the same on the redo stack, with the change going back
        onto the undo stack. */
    method Redo()
      requires Valid()
      modifies this, arena
      ensures Repr == old(Repr)
      ensures old(redo) == [] ==> Model == old(Model)
      ensures old(redo) != [] ==> |old(Model).redoEdits| > 0 && Model == Redone(old(Model))
      ensures Valid()
    {
      if redo == [] {
        return;
      }
      RedoKeeps(Model);
      InvParts(Redone(Model));
      RedoTop();
      InvLen(Model);
    }

    /** The exchange of pt_redo. */
    method RedoTop()
      requires Frame() && Tied() && |redo| > 0 && |Model.redoEdits| > 0
      requires Holds(arena.next, arena.prev, redo[0].oldRange, Model.redoEdits[0].stored)
      requires Holds(arena.next, arena.prev, redo[0].newRange, Model.redoEdits[0].current)
      requires Disjoint(Bounded(redo[0].oldRange, Model.redoEdits[0].stored),
                        Bounded(redo[0].newRange, Model.redoEdits[0].current))
      requires Holds(Redone(Model).next, Redone(Model).prev, pieces, Redone(Model).live)
      modifies this, arena
      ensures Frame() && Tied() && Repr == old(Repr)
      ensures Model == Redone(old(Model)) && len == Model.len
    {
      var (top, rest) := Pop(redo);
      var ch := top.value;
      ghost var e, t := Model.redoEdits[0], Redone(Model);
      var n := arena.Exchange(ch.oldRange, ch.newRange, e.stored, e.current, pieces, t.live);
      Become(t, n, Push(undo, Flip(ch)), rest);
    }
  }
}
