// The bytes a chain of nodes denotes, and what the two edits of the piece
// table do to them: an insert splices the new bytes in at the offset, a
// delete cuts a span out.

module Texts {
  import opened Stores
  import opened Links
  import opened Pieces
  import opened History

  /** Every node of the arena refers to bytes that exist in its store. */
  ghost predicate ArenaInBounds(piece: seq<Piece>, st: Backing)
  {
    forall x :: 0 <= x < |piece| ==> InBounds(piece[x], st)
  }

  /** The bytes of chain `c`, piece after piece. */
  ghost function ChainText(piece: seq<Piece>, c: seq<Ref>, st: Backing): seq<byte>
  {
    Text(PiecesOf(piece, c), st)
  }

  /** A chain of nodes of an in-bounds arena has as many bytes as its
      pieces' lengths add up to. */
  lemma ChainLen(piece: seq<Piece>, c: seq<Ref>, st: Backing)
    requires ArenaInBounds(piece, st) && InArena(c, |piece|)
    ensures AllInBounds(PiecesOf(piece, c), st)
    ensures |ChainText(piece, c, st)| == SumLen(PiecesOf(piece, c))
  {
    TextLen(PiecesOf(piece, c), st);
  }

  /** The text of a concatenation of chains is the concatenation of their texts. */
  lemma ChainTextConcat(piece: seq<Piece>, a: seq<Ref>, b: seq<Ref>, st: Backing)
    ensures ChainText(piece, a + b, st) == ChainText(piece, a, st) + ChainText(piece, b, st)
  {
    PiecesOfConcat(piece, a, b);
    TextConcat(PiecesOf(piece, a), PiecesOf(piece, b), st);
  }

  lemma ChainTextThree(piece: seq<Piece>, a: seq<Ref>, b: seq<Ref>, c: seq<Ref>, st: Backing)
    ensures ChainText(piece, a + b + c, st) == ChainText(piece, a, st) + ChainText(piece, b, st) + ChainText(piece, c, st)
  {
    ChainTextConcat(piece, a, b, st);
    ChainTextConcat(piece, a + b, c, st);
  }

  lemma SumLenOfConcat(piece: seq<Piece>, a: seq<Ref>, b: seq<Ref>)
    ensures SumLen(PiecesOf(piece, a + b)) == SumLen(PiecesOf(piece, a)) + SumLen(PiecesOf(piece, b))
  {
    PiecesOfConcat(piece, a, b);
    SumLenConcat(PiecesOf(piece, a), PiecesOf(piece, b));
  }

  /** Appending to the stores keeps every node in bounds. */
  lemma ArenaGrow(piece: seq<Piece>, st: Backing, st': Backing)
    requires ArenaInBounds(piece, st) && st.GrowsTo(st')
    ensures ArenaInBounds(piece, st')
  {
    forall x | 0 <= x < |piece|
      ensures InBounds(piece[x], st')
    {
      assert st'.Of(piece[x].buffer)[..|st.Of(piece[x].buffer)|] == st.Of(piece[x].buffer);
    }
  }

  /** The texts of the results of a sequence of edits, in order. */
  ghost function ResultTexts(piece: seq<Piece>, es: seq<Edit>, st: Backing): (ts: seq<seq<byte>>)
    ensures |ts| == |es|
  {
    if es == [] then [] else [ChainText(piece, es[0].Result(), st)] + ResultTexts(piece, es[1..], st)
  }

  /** Allocating nodes and appending to the ADD store leave the text of an
      existing chain as it was. */
  lemma ChainTextGrow(piece: seq<Piece>, piece': seq<Piece>, c: seq<Ref>, st: Backing, st': Backing)
    requires ArenaInBounds(piece, st) && InArena(c, |piece|)
    requires piece <= piece' && st.GrowsTo(st')
    ensures ChainText(piece', c, st') == ChainText(piece, c, st)
  {
    PiecesOfGrow(piece, piece', c);
    TextStable(PiecesOf(piece, c), st, st');
  }

  /** ... and so are the texts the edits of a stack bring back. */
  lemma {:induction false} ResultTextsGrow(piece: seq<Piece>, piece': seq<Piece>, es: seq<Edit>, st: Backing, st': Backing)
    requires ArenaInBounds(piece, st) && piece <= piece' && st.GrowsTo(st')
    requires forall i :: 0 <= i < |es| ==> InArena(es[i].Result(), |piece|)
    ensures ResultTexts(piece', es, st') == ResultTexts(piece, es, st)
    decreases |es|
  {
    if es != [] {
      ChainTextGrow(piece, piece', es[0].Result(), st, st');
      assert forall i :: 0 <= i < |es[1..]| ==> es[1..][i] == es[i + 1];
      ResultTextsGrow(piece, piece', es[1..], st, st');
    }
  }

  /** The record of the piece pt_create_piece_from_string makes for `s`,
      appended to the ADD store of `st`. */
  function NewPiece(st: Backing, s: seq<byte>): Piece
  {
    Piece(Add, |st.add|, |s|)
  }

  /** The records pt_insert builds for inserting a new piece `np` at byte
      `o` of piece `x`: the new piece alone at a piece boundary, otherwise
      the part of `x` before `o`, the new piece and the rest of `x`. */
  function InsertPieces(x: Piece, o: nat, np: Piece): seq<Piece>
    requires o == 0 || o < x.len
  {
    if o == 0 then [np] else [Slice(x, 0, o - 1), np, Slice(x, o, x.len - 1)]
  }

  lemma NewPieceText(st: Backing, st': Backing, s: seq<byte>)
    requires st'.original == st.original && st'.add == st.add + s
    ensures InBounds(NewPiece(st, s), st') && Text([NewPiece(st, s)], st') == s
  {
    TextOfOne(NewPiece(st, s), st');
  }

  /** pt_insert at a piece boundary: the new piece goes between `pre` and
      `post`, and the text gets `s` at offset `|text of pre|`. */
  lemma InsertBetween(piece: seq<Piece>, piece': seq<Piece>, pre: seq<Ref>, post: seq<Ref>,
                      stored: seq<Ref>, st: Backing, st': Backing, s: seq<byte>)
    requires ArenaInBounds(piece, st) && piece <= piece'
    requires st'.original == st.original && st'.add == st.add + s
    requires InArena(pre, |piece|) && InArena(post, |piece|)
    requires PiecesOf(piece', stored) == [NewPiece(st, s)]
    ensures var t := ChainText(piece, pre + post, st);
            var o := SumLen(PiecesOf(piece, pre));
            o <= |t| && ChainText(piece', pre + stored + post, st') == t[..o] + s + t[o..]
  {
    var t0, t1 := ChainText(piece, pre, st), ChainText(piece, post, st);
    ChainLen(piece, pre, st);
    ChainTextConcat(piece, pre, post, st);
    assert ChainText(piece', pre + stored + post, st') == t0 + s + t1 by {
      assert st.GrowsTo(st');
      ChainTextGrow(piece, piece', pre, st, st');
      ChainTextGrow(piece, piece', post, st, st');
      ChainTextThree(piece', pre, stored, post, st');
      NewPieceText(st, st', s);
    }
    CutAround(t0, [], t1, 0);
  }

  /** pt_insert inside piece `x`: `x` is replaced by its first `o` bytes,
      the new piece and the rest of `x`, and the text gets `s` at offset
      `|text of pre| + o`. */
  lemma InsertInside(piece: seq<Piece>, piece': seq<Piece>, pre: seq<Ref>, x: Ref, post: seq<Ref>,
                     o: nat, stored: seq<Ref>, st: Backing, st': Backing, s: seq<byte>)
    requires ArenaInBounds(piece, st) && piece <= piece'
    requires st'.original == st.original && st'.add == st.add + s
    requires InArena(pre, |piece|) && 0 <= x < |piece| && InArena(post, |piece|)
    requires 0 < o < piece[x].len
    requires PiecesOf(piece', stored) ==
               [Slice(piece[x], 0, o - 1), NewPiece(st, s), Slice(piece[x], o, piece[x].len - 1)]
    ensures var t := ChainText(piece, pre + [x] + post, st);
            var off := SumLen(PiecesOf(piece, pre)) + o;
            off <= |t| && ChainText(piece', pre + stored + post, st') == t[..off] + s + t[off..]
  {
    var t0, b, t1 := ChainText(piece, pre, st), Bytes(piece[x], st), ChainText(piece, post, st);
    var t := ChainText(piece, pre + [x] + post, st);
    assert t == t0 + b + t1 && SumLen(PiecesOf(piece, pre)) == |t0| && o < |b| by {
      ChainLen(piece, pre, st);
      assert InBounds(piece[x], st);
      TextAroundNode(piece, pre, x, post, st);
    }
    assert ChainText(piece', pre + stored + post, st') == t0 + (b[..o] + s + b[o..]) + t1 by {
      InsertedInside(piece, piece', pre, x, post, o, stored, st, st', s);
    }
    Splice(t0, b, t1, s, o);
  }

  /** The text of a chain with node `x` singled out. */
  lemma TextAroundNode(piece: seq<Piece>, pre: seq<Ref>, x: Ref, post: seq<Ref>, st: Backing)
    requires 0 <= x < |piece|
    ensures ChainText(piece, pre + [x] + post, st) ==
            ChainText(piece, pre, st) + Bytes(piece[x], st) + ChainText(piece, post, st)
  {
    ChainTextThree(piece, pre, [x], post, st);
    assert PiecesOf(piece, [x]) == [piece[x]];
    TextOfOne(piece[x], st);
  }

  /** The text of the chain pt_insert builds inside node `x`. */
  lemma InsertedInside(piece: seq<Piece>, piece': seq<Piece>, pre: seq<Ref>, x: Ref, post: seq<Ref>,
                       o: nat, stored: seq<Ref>, st: Backing, st': Backing, s: seq<byte>)
    requires ArenaInBounds(piece, st) && piece <= piece'
    requires st'.original == st.original && st'.add == st.add + s
    requires InArena(pre, |piece|) && 0 <= x < |piece| && InArena(post, |piece|)
    requires 0 < o < piece[x].len
    requires PiecesOf(piece', stored) ==
               [Slice(piece[x], 0, o - 1), NewPiece(st, s), Slice(piece[x], o, piece[x].len - 1)]
    ensures ChainText(piece', pre + stored + post, st') ==
            ChainText(piece, pre, st) + (Bytes(piece[x], st)[..o] + s + Bytes(piece[x], st)[o..]) +
            ChainText(piece, post, st)
  {
    assert st.GrowsTo(st');
    ChainTextGrow(piece, piece', pre, st, st');
    ChainTextGrow(piece, piece', post, st, st');
    ChainTextThree(piece', pre, stored, post, st');
    assert InBounds(piece[x], st);
    InsertedSlices(piece[x], o, st, st', s);
  }

  /** Putting `s` at offset `o` of the middle part of `x + y + z`. */
  lemma Splice(x: seq<byte>, y: seq<byte>, z: seq<byte>, s: seq<byte>, o: nat)
    requires o <= |y|
    ensures |x| + o <= |x + y + z|
    ensures x + (y[..o] + s + y[o..]) + z == (x + y + z)[..|x| + o] + s + (x + y + z)[|x| + o..]
  {
    CutAround(x, y, z, o);
  }

  /** The three records pt_insert builds inside a piece spell its first
      part, the new bytes and its second part. */
  lemma InsertedSlices(p: Piece, o: nat, st: Backing, st': Backing, s: seq<byte>)
    requires InBounds(p, st) && 0 < o < p.len
    requires st'.original == st.original && st'.add == st.add + s
    ensures Text([Slice(p, 0, o - 1), NewPiece(st, s), Slice(p, o, p.len - 1)], st') ==
            Bytes(p, st)[..o] + s + Bytes(p, st)[o..]
  {
    var a, np, b := Slice(p, 0, o - 1), NewPiece(st, s), Slice(p, o, p.len - 1);
    assert Bytes(p, st') == Bytes(p, st) by {
      assert st'.add[..|st.add|] == st.add;
    }
    SliceBytes(p, 0, o - 1, st');
    SliceBytes(p, o, p.len - 1, st');
    assert Bytes(np, st') == s;
    TextOfThree(a, np, b, st');
  }

  /** The records pt_delete keeps: the part of the first piece before the
      deleted span and the part of the last piece after it, each only when
      it is not empty. */
  function Kept(first: Piece, bo: nat, last: Piece, eo: nat): (ps: seq<Piece>)
    requires eo < last.len
  {
    (if bo != 0 then [Slice(first, 0, bo - 1)] else []) +
    (if eo != last.len - 1 then [Slice(last, eo + 1, last.len - 1)] else [])
  }

  lemma KeptText(first: Piece, bo: nat, last: Piece, eo: nat, st: Backing)
    requires InBounds(first, st) && InBounds(last, st) && bo < first.len && eo < last.len
    ensures Text(Kept(first, bo, last, eo), st) == Bytes(first, st)[..bo] + Bytes(last, st)[eo + 1..]
  {
    var a: seq<Piece> := if bo != 0 then [Slice(first, 0, bo - 1)] else [];
    var b: seq<Piece> := if eo != last.len - 1 then [Slice(last, eo + 1, last.len - 1)] else [];
    if bo != 0 {
      SliceBytes(first, 0, bo - 1, st);
      TextOfOne(Slice(first, 0, bo - 1), st);
    }
    if eo != last.len - 1 {
      SliceBytes(last, eo + 1, last.len - 1, st);
      TextOfOne(Slice(last, eo + 1, last.len - 1), st);
    }
    TextConcat(a, b, st);
  }

  /** pt_delete: the nodes `cur` are replaced by the kept parts of their
      first and last piece, and the text loses the `n` bytes from offset
      `|text of pre| + bo`, where the last deleted byte is byte `eo` of the
      last piece. */
  lemma DeleteSpan(piece: seq<Piece>, piece': seq<Piece>, pre: seq<Ref>, cur: seq<Ref>, post: seq<Ref>,
                   bo: nat, eo: nat, n: nat, stored: seq<Ref>, st: Backing)
    requires ArenaInBounds(piece, st) && piece <= piece'
    requires InArena(pre, |piece|) && InArena(cur, |piece|) && InArena(post, |piece|)
    requires |cur| > 0 && bo < piece[cur[0]].len && eo < piece[cur[|cur| - 1]].len
    requires PiecesOf(piece', stored) == Kept(piece[cur[0]], bo, piece[cur[|cur| - 1]], eo)
    requires SumLen(PiecesOf(piece, pre)) + bo + n == SumLen(PiecesOf(piece, pre + cur[..|cur| - 1])) + eo + 1
    ensures var t := ChainText(piece, pre + cur + post, st);
            var off := SumLen(PiecesOf(piece, pre)) + bo;
            off + n <= |t| && ChainText(piece', pre + stored + post, st) == t[..off] + t[off + n..]
  {
    var first, last := piece[cur[0]], piece[cur[|cur| - 1]];
    var t := ChainText(piece, pre + cur + post, st);
    var off := SumLen(PiecesOf(piece, pre)) + bo;
    var t0, t1 := ChainText(piece, pre, st), ChainText(piece, post, st);
    assert off <= |t| && t[..off] == t0 + Bytes(first, st)[..bo] by {
      CutFirst(piece, pre, cur, post, bo, st);
    }
    assert off + n <= |t| && t[off + n..] == Bytes(last, st)[eo + 1..] + t1 by {
      CutLast(piece, pre, cur, post, eo, st);
    }
    assert ChainText(piece', pre + stored + post, st) == t0 + (Bytes(first, st)[..bo] + Bytes(last, st)[eo + 1..]) + t1 by {
      DeletedText(piece, piece', pre, cur, post, bo, eo, stored, st);
    }
    Regroup(t0, Bytes(first, st)[..bo], Bytes(last, st)[eo + 1..], t1);
  }

  lemma Regroup(w: seq<byte>, x: seq<byte>, y: seq<byte>, z: seq<byte>)
    ensures w + (x + y) + z == (w + x) + (y + z)
  {
  }

  /** The text of the chain pt_delete builds. */
  lemma DeletedText(piece: seq<Piece>, piece': seq<Piece>, pre: seq<Ref>, cur: seq<Ref>, post: seq<Ref>,
                    bo: nat, eo: nat, stored: seq<Ref>, st: Backing)
    requires ArenaInBounds(piece, st) && piece <= piece'
    requires InArena(pre, |piece|) && InArena(cur, |piece|) && InArena(post, |piece|)
    requires |cur| > 0 && bo < piece[cur[0]].len && eo < piece[cur[|cur| - 1]].len
    requires PiecesOf(piece', stored) == Kept(piece[cur[0]], bo, piece[cur[|cur| - 1]], eo)
    ensures ChainText(piece', pre + stored + post, st) ==
            ChainText(piece, pre, st) + (Bytes(piece[cur[0]], st)[..bo] + Bytes(piece[cur[|cur| - 1]], st)[eo + 1..]) +
            ChainText(piece, post, st)
  {
    ChainTextGrow(piece, piece', pre, st, st);
    ChainTextGrow(piece, piece', post, st, st);
    ChainTextThree(piece', pre, stored, post, st);
    assert InBounds(piece[cur[0]], st) && InBounds(piece[cur[|cur| - 1]], st);
    KeptText(piece[cur[0]], bo, piece[cur[|cur| - 1]], eo, st);
  }

  /** The text of a chain around byte `o` of node `x`. */
  lemma ChainAround(piece: seq<Piece>, a: seq<Ref>, x: Ref, b: seq<Ref>, o: nat, st: Backing)
    requires ArenaInBounds(piece, st) && InArena(a, |piece|) && 0 <= x < |piece|
    requires o <= piece[x].len
    ensures var t := ChainText(piece, a + [x] + b, st);
            var off := SumLen(PiecesOf(piece, a)) + o;
            off <= |t| &&
            t[..off] == ChainText(piece, a, st) + Bytes(piece[x], st)[..o] &&
            t[off..] == Bytes(piece[x], st)[o..] + ChainText(piece, b, st)
  {
    var t0, y, t1 := ChainText(piece, a, st), Bytes(piece[x], st), ChainText(piece, b, st);
    assert SumLen(PiecesOf(piece, a)) == |t0| && o <= |y| by {
      ChainLen(piece, a, st);
      assert InBounds(piece[x], st);
    }
    TextAroundNode(piece, a, x, b, st);
    CutAround(t0, y, t1, o);
  }

  /** The text of `pre + cur + post` up to byte `o` of `cur`'s first piece. */
  lemma CutFirst(piece: seq<Piece>, pre: seq<Ref>, cur: seq<Ref>, post: seq<Ref>, o: nat, st: Backing)
    requires ArenaInBounds(piece, st)
    requires InArena(pre, |piece|) && InArena(cur, |piece|)
    requires |cur| > 0 && o <= piece[cur[0]].len
    ensures var t := ChainText(piece, pre + cur + post, st);
            var off := SumLen(PiecesOf(piece, pre)) + o;
            off <= |t| && t[..off] == ChainText(piece, pre, st) + Bytes(piece[cur[0]], st)[..o]
  {
    assert pre + cur + post == pre + [cur[0]] + (cur[1..] + post);
    ChainAround(piece, pre, cur[0], cur[1..] + post, o, st);
  }

  /** The text of `pre + cur + post` after byte `o` of `cur`'s last piece. */
  lemma CutLast(piece: seq<Piece>, pre: seq<Ref>, cur: seq<Ref>, post: seq<Ref>, o: nat, st: Backing)
    requires ArenaInBounds(piece, st)
    requires InArena(pre, |piece|) && InArena(cur, |piece|)
    requires |cur| > 0 && o < piece[cur[|cur| - 1]].len
    ensures var t := ChainText(piece, pre + cur + post, st);
            var off := SumLen(PiecesOf(piece, pre + cur[..|cur| - 1])) + o + 1;
            off <= |t| && t[off..] == Bytes(piece[cur[|cur| - 1]], st)[o + 1..] + ChainText(piece, post, st)
  {
    var a := pre + cur[..|cur| - 1];
    assert pre + cur + post == a + [cur[|cur| - 1]] + post;
    assert InArena(a, |piece|);
    ChainAround(piece, a, cur[|cur| - 1], post, o + 1, st);
  }
}
