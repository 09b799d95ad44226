// The effect of pt_delete on the values of a piece table: where its two
// lookups land, the edit it makes, and the properties that edit keeps.

module Deletions {
  import opened Stores
  import opened Links
  import opened Pieces
  import opened History
  import opened Texts
  import opened States

  /** What pt_delete's second p_find reports for `offset`, walking from
      entry `kb` of the walk: node `p`, entry `j` of that part of the walk,
      with `offset` lying `o` bytes into it. */
  ghost predicate FoundFrom(s: State, kb: nat, offset: nat, p: Ref, o: nat, j: nat)
  {
    kb <= |Walk(s)| &&
    var w := Walk(s)[kb..];
    j < |w| && p == w[j] && 0 <= p < |s.piece| && offset == SumLen(PiecesOf(s.piece, w[..j])) + o &&
    (o < s.piece[p].len || (j == |w| - 1 && o == 0))
  }

  /** Before pt_delete's second p_find: the walk from the first deleted
      byte's node on meets p_find's requirements, and the last deleted
      byte lies on it. */
  lemma EndReady(s: State, offset: nat, n: nat, pb: Ref, bo: nat, kb: nat)
    requires Inv(s) && FoundAt(s, offset, pb, bo, kb) && 0 < n && offset + n <= s.len
    ensures kb < |Walk(s)| && Linked(s.next, s.prev, Walk(s)[kb..]) && Walk(s)[kb..][0] == pb
    ensures s.next[Walk(s)[kb..][|Walk(s)[kb..]| - 1]] == Null && s.piece[Walk(s)[kb..][|Walk(s)[kb..]| - 1]].len == 0
    ensures bo + n - 1 <= SumLen(PiecesOf(s.piece, Walk(s)[kb..]))
    ensures InArena(Walk(s)[kb..], |s.piece|)
  {
    var w := Walk(s);
    FindReady(s);
    assert w == [s.pieces.head] + s.live + [s.pieces.tail];
    assert InArena(w, |s.piece|);
    LinkedSlice(s.next, s.prev, w, kb, |w|);
    assert w == w[..kb] + w[kb..];
    SumLenOfConcat(s.piece, w[..kb], w[kb..]);
  }

  /** Where pt_delete's lookups land when `n > 0` bytes from `offset` on
      lie inside the text: the first deleted byte is byte `bo` of live
      node `kb - 1`, the last is byte `eo` of live node `ke - 1`, and the
      nodes around them are the ends of the live chain around that span. */
  lemma DeleteFound(s: State, offset: nat, n: nat, pb: Ref, bo: nat, kb: nat, pe: Ref, eo: nat, j: nat)
    requires Inv(s) && 0 < n && offset + n <= s.len
    requires FoundAt(s, offset, pb, bo, kb) && FoundFrom(s, kb, bo + n - 1, pe, eo, j)
    ensures 1 <= kb <= kb + j <= |s.live|
    ensures pb == s.live[kb - 1] && bo < s.piece[pb].len
    ensures pe == s.live[kb + j - 1] && eo < s.piece[pe].len
    ensures SumLen(PiecesOf(s.piece, s.live[..kb - 1])) + bo == offset
    ensures SumLen(PiecesOf(s.piece, s.live[..kb - 1])) + bo + n == SumLen(PiecesOf(s.piece, s.live[..kb + j - 1])) + eo + 1
    ensures s.prev[pb] == LastOr(s.live[..kb - 1], s.pieces.head)
    ensures s.next[pe] == FirstOr(s.live[kb + j..], s.pieces.tail)
  {
    var w := Walk(s);
    assert w == [s.pieces.head] + s.live + [s.pieces.tail];
    BeginFound(s, offset, n, pb, bo, kb);
    EndFound(s, offset, n, bo, kb, pe, eo, j);
    var ke := kb + j;
    WalkPrefix(s, kb);
    assert s.prev[w[kb]] == w[kb - 1];
    assert s.next[w[ke]] == w[ke + 1];
  }

  /** Both ends of the deleted span lie inside their pieces. */
  lemma DeleteInside(s: State, offset: nat, n: nat, pb: Ref, bo: nat, kb: nat, pe: Ref, eo: nat, j: nat)
    requires Inv(s) && 0 < n && offset + n <= s.len
    requires FoundAt(s, offset, pb, bo, kb) && FoundFrom(s, kb, bo + n - 1, pe, eo, j)
    ensures 0 <= pb < |s.piece| && bo < s.piece[pb].len
    ensures 0 <= pe < |s.piece| && eo < s.piece[pe].len
  {
    DeleteFound(s, offset, n, pb, bo, kb, pe, eo, j);
  }

  /** The first deleted byte lies inside a live node. */
  lemma BeginFound(s: State, offset: nat, n: nat, pb: Ref, bo: nat, kb: nat)
    requires Inv(s) && 0 < n && offset + n <= s.len && FoundAt(s, offset, pb, bo, kb)
    ensures 1 <= kb <= |s.live| && pb == s.live[kb - 1] && bo < s.piece[pb].len
    ensures SumLen(PiecesOf(s.piece, Walk(s)[..kb])) + bo == offset
  {
    var w := Walk(s);
    assert w == [s.pieces.head] + s.live + [s.pieces.tail];
    WalkPrefix(s, |s.live| + 1);
    assert s.live[..|s.live|] == s.live;
    assert w[0] == s.pieces.head;
    assert 0 < kb < |w| - 1;
  }

  /** The last deleted byte lies inside a live node at or after the first
      one, `eo` bytes into it. */
  lemma EndFound(s: State, offset: nat, n: nat, bo: nat, kb: nat, pe: Ref, eo: nat, j: nat)
    requires Inv(s) && 0 < n && offset + n <= s.len
    requires 1 <= kb <= |s.live| && SumLen(PiecesOf(s.piece, Walk(s)[..kb])) + bo == offset
    requires FoundFrom(s, kb, bo + n - 1, pe, eo, j)
    ensures kb + j <= |s.live| && pe == s.live[kb + j - 1] && eo < s.piece[pe].len
    ensures SumLen(PiecesOf(s.piece, s.live[..kb - 1])) + bo == offset
    ensures offset + n == SumLen(PiecesOf(s.piece, s.live[..kb + j - 1])) + eo + 1
  {
    var w := Walk(s);
    var ke := kb + j;
    assert w == [s.pieces.head] + s.live + [s.pieces.tail];
    assert w[..ke] == w[..kb] + w[kb..][..j];
    SumLenOfConcat(s.piece, w[..kb], w[kb..][..j]);
    assert SumLen(PiecesOf(s.piece, w[..ke])) + eo + 1 == offset + n;
    WalkPrefix(s, |s.live| + 1);
    assert s.live[..|s.live|] == s.live;
    assert ke < |w| - 1;
    assert pe == w[ke] == s.live[ke - 1];
    WalkPrefix(s, kb);
    WalkPrefix(s, ke);
  }

  /** The nodes a delete adds after the sentinels of its fresh range: the
      pieces of the kept bytes of the first and last pieces. */
  ghost function DeleteArena(s: State, pb: Ref, bo: nat, pe: Ref, eo: nat): seq<Piece>
    requires 0 <= pb < |s.piece| && 0 <= pe < |s.piece| && eo < s.piece[pe].len
  {
    s.piece + [Blank, Blank] + Kept(s.piece[pb], bo, s.piece[pe], eo)
  }

  /** The edit pt_delete makes: live nodes `kb - 1` to `ke - 1` are
      replaced by the kept parts of the first and last of them, built in
      fresh nodes after the sentinels of the new range. */
  ghost function DeleteEdit(s: State, kb: nat, ke: nat, pb: Ref, bo: nat, pe: Ref, eo: nat): Edit
    requires 1 <= kb <= ke <= |s.live|
    requires 0 <= pb < |s.piece| && 0 <= pe < |s.piece| && eo < s.piece[pe].len
  {
    Edit(s.live[..kb - 1], s.live[kb - 1..ke], Run(|s.piece| + 2, |Kept(s.piece[pb], bo, s.piece[pe], eo)|), s.live[ke..])
  }

  /** What building pt_delete's replacement leaves: the arena `piece'`
      with the kept pieces, links `next'`, `prev'` that keep the old ones,
      and the fresh range `stash` holding the new chain. */
  ghost predicate DeleteBuilt(s: State, pb: Ref, bo: nat, pe: Ref, eo: nat,
                              piece': seq<Piece>, next': seq<Ref>, prev': seq<Ref>, stash: Range)
  {
    0 <= pb < |s.piece| && 0 <= pe < |s.piece| && bo < s.piece[pb].len && eo < s.piece[pe].len &&
    piece' == DeleteArena(s, pb, bo, pe, eo) &&
    |next'| == |piece'| && |prev'| == |piece'| && s.next <= next' && s.prev <= prev' &&
    stash == Range(|s.piece|, |s.piece| + 1) &&
    Holds(next', prev', stash, Run(|s.piece| + 2, |Kept(s.piece[pb], bo, s.piece[pe], eo)|))
  }

  /** pt_delete keeps the invariant, removes the `n` bytes from `offset`
      on, and makes the old text the first one to undo to. */
  lemma DeleteKeeps(s: State, offset: nat, n: nat, pb: Ref, bo: nat, kb: nat, pe: Ref, eo: nat, j: nat,
                    piece': seq<Piece>, next': seq<Ref>, prev': seq<Ref>, st': Backing, stash: Range, border: Range)
    requires Inv(s) && 0 < n && offset + n <= s.len
    requires FoundAt(s, offset, pb, bo, kb) && FoundFrom(s, kb, bo + n - 1, pe, eo, j)
    requires DeleteBuilt(s, pb, bo, pe, eo, piece', next', prev', stash) && st' == s.st
    requires border == Range(s.prev[pb], s.next[pe])
    ensures 1 <= kb <= kb + j <= |s.live| && eo < s.piece[pe].len
    ensures Exchangeable(piece', next', prev', stash, border, DeleteEdit(s, kb, kb + j, pb, bo, pe, eo),
                         Committed(s, piece', next', prev', st', stash, DeleteEdit(s, kb, kb + j, pb, bo, pe, eo)),
                         s.pieces, s.undo)
    ensures Inv(Committed(s, piece', next', prev', st', stash, DeleteEdit(s, kb, kb + j, pb, bo, pe, eo)))
    ensures offset + n <= |s.Content()|
    ensures Committed(s, piece', next', prev', st', stash, DeleteEdit(s, kb, kb + j, pb, bo, pe, eo)).Content() ==
              s.Content()[..offset] + s.Content()[offset + n..]
    ensures Committed(s, piece', next', prev', st', stash, DeleteEdit(s, kb, kb + j, pb, bo, pe, eo)).UndoTexts() ==
              [s.Content()] + s.UndoTexts()
    ensures Committed(s, piece', next', prev', st', stash, DeleteEdit(s, kb, kb + j, pb, bo, pe, eo)).RedoTexts() == []
  {
    DeleteFound(s, offset, n, pb, bo, kb, pe, eo, j);
    DeleteContent(s, offset, n, kb, kb + j, pb, bo, pe, eo, piece');
    DeleteEditFacts(s, kb, kb + j, pb, bo, pe, eo, stash);
    DeleteBounds(s, pb, bo, pe, eo);
    CommitKeeps(s, piece', next', prev', st', stash, DeleteEdit(s, kb, kb + j, pb, bo, pe, eo));
  }

  /** The edit pt_delete makes replaces exactly the deleted span of the
      live chain, with fresh nodes. */
  lemma DeleteEditFacts(s: State, kb: nat, ke: nat, pb: Ref, bo: nat, pe: Ref, eo: nat, stash: Range)
    requires 1 <= kb <= ke <= |s.live| && stash == Range(|s.piece|, |s.piece| + 1)
    requires 0 <= pb < |s.piece| && 0 <= pe < |s.piece| && eo < s.piece[pe].len
    ensures DeleteEdit(s, kb, ke, pb, bo, pe, eo).Live() == s.live
    ensures forall x :: x in Bounded(stash, DeleteEdit(s, kb, ke, pb, bo, pe, eo).stored) ==> x >= |s.piece|
    ensures DeleteEdit(s, kb, ke, pb, bo, pe, eo).Border(s.pieces) ==
              Range(LastOr(s.live[..kb - 1], s.pieces.head), FirstOr(s.live[ke..], s.pieces.tail))
  {
    assert s.live[..kb - 1] + s.live[kb - 1..ke] + s.live[ke..] == s.live;
    var m := |Kept(s.piece[pb], bo, s.piece[pe], eo)|;
    assert Run(|s.piece| + 2, m) == if m == 0 then [] else if m == 1 then [|s.piece| + 2] else [|s.piece| + 2, |s.piece| + 3];
  }

  /** The kept pieces lie inside the stores. */
  lemma DeleteBounds(s: State, pb: Ref, bo: nat, pe: Ref, eo: nat)
    requires Inv(s) && 0 <= pb < |s.piece| && 0 <= pe < |s.piece| && bo < s.piece[pb].len && eo < s.piece[pe].len
    ensures ArenaInBounds(DeleteArena(s, pb, bo, pe, eo), s.st)
  {
    var piece' := DeleteArena(s, pb, bo, pe, eo);
    var first, last := s.piece[pb], s.piece[pe];
    assert InBounds(first, s.st) && InBounds(last, s.st);
    if bo != 0 {
      SliceBytes(first, 0, bo - 1, s.st);
    }
    if eo != last.len - 1 {
      SliceBytes(last, eo + 1, last.len - 1, s.st);
    }
    forall x | 0 <= x < |piece'|
      ensures InBounds(piece'[x], s.st)
    {
      if x >= |s.piece| + 2 {
        assert piece'[x] in Kept(first, bo, last, eo);
      }
    }
  }

  /** The text after pt_delete: the `n` bytes from `offset` on are gone. */
  lemma DeleteContent(s: State, offset: nat, n: nat, kb: nat, ke: nat, pb: Ref, bo: nat, pe: Ref, eo: nat,
                      piece': seq<Piece>)
    requires ArenaInBounds(s.piece, s.st) && InArena(s.live, |s.piece|)
    requires 1 <= kb <= ke <= |s.live| && pb == s.live[kb - 1] && pe == s.live[ke - 1]
    requires bo < s.piece[pb].len && eo < s.piece[pe].len
    requires SumLen(PiecesOf(s.piece, s.live[..kb - 1])) + bo == offset
    requires SumLen(PiecesOf(s.piece, s.live[..kb - 1])) + bo + n == SumLen(PiecesOf(s.piece, s.live[..ke - 1])) + eo + 1
    requires piece' == DeleteArena(s, pb, bo, pe, eo)
    ensures offset + n <= |s.Content()|
    ensures ChainText(piece', DeleteEdit(s, kb, ke, pb, bo, pe, eo).Result(), s.st) ==
              s.Content()[..offset] + s.Content()[offset + n..]
  {
    var pre, cur, post := s.live[..kb - 1], s.live[kb - 1..ke], s.live[ke..];
    var stored := Run(|s.piece| + 2, |Kept(s.piece[pb], bo, s.piece[pe], eo)|);
    assert pre + cur + post == s.live;
    assert pre + cur[..|cur| - 1] == s.live[..ke - 1];
    assert cur[0] == pb && cur[|cur| - 1] == pe;
    InArenaParts(s.live, |s.piece|, kb - 1, ke);
    assert PiecesOf(piece', stored) == Kept(s.piece[pb], bo, s.piece[pe], eo) by {
      KeptNodes(s.piece, piece', s.piece[pb], bo, s.piece[pe], eo);
    }
    DeleteSpan(s.piece, piece', pre, cur, post, bo, eo, n, stored, s.st);
  }

  /** The three parts of a chain inside the arena are inside it too. */
  lemma InArenaParts(c: seq<Ref>, size: nat, i: nat, j: nat)
    requires InArena(c, size) && i <= j <= |c|
    ensures InArena(c[..i], size) && InArena(c[i..j], size) && InArena(c[j..], size)
  {
    forall x | 0 <= x < |c[i..j]|
      ensures 0 <= c[i..j][x] < size
    {
      assert c[i..j][x] == c[i + x];
    }
    forall x | 0 <= x < |c[j..]|
      ensures 0 <= c[j..][x] < size
    {
      assert c[j..][x] == c[j + x];
    }
  }

  /** The fresh nodes after the two sentinels hold the kept pieces. */
  lemma KeptNodes(piece: seq<Piece>, piece': seq<Piece>, first: Piece, bo: nat, last: Piece, eo: nat)
    requires eo < last.len && piece' == piece + [Blank, Blank] + Kept(first, bo, last, eo)
    ensures PiecesOf(piece', Run(|piece| + 2, |Kept(first, bo, last, eo)|)) == Kept(first, bo, last, eo)
  {
    var n, k := |piece|, Kept(first, bo, last, eo);
    if bo != 0 && eo != last.len - 1 {
      assert Run(n + 2, 2) == [n + 2, n + 3];
      assert |k| == 2 && piece'[n + 2] == k[0] && piece'[n + 3] == k[1];
    } else if bo != 0 || eo != last.len - 1 {
      assert Run(n + 2, 1) == [n + 2];
      assert |k| == 1 && piece'[n + 2] == k[0];
    } else {
      assert k == [];
    }
  }
}
