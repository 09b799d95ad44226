// The heap of piece nodes that piece_table.c allocates with malloc/calloc,
// as an arena: node `x` has record `piece[x]` and links `next[x]`,
// `prev[x]`. The operations on single pieces and on sentinel-bounded piece
// ranges are methods that rewrite links in place; position lookup is a
// function.

module Arenas {
  import opened Stores
  import opened Links
  import opened Pieces
  import opened Texts

  /** struct piece_position: a node and an offset inside it. */
  datatype Position = Position(piece: Ref, offset: nat)

  class Arena {
    var piece: seq<Piece>
    var next: seq<Ref>
    var prev: seq<Ref>

    ghost predicate Valid()
      reads this
    {
      |next| == |piece| && |prev| == |piece|
    }

    /** The sum of the piece lengths along chain `c`. */
    ghost function LenOf(c: seq<Ref>): nat
      reads this
      requires forall i :: 0 <= i < |c| ==> 0 <= c[i] < |piece|
    {
      SumLen(PiecesOf(piece, c))
    }

    constructor ()
      ensures Valid() && piece == [] && next == [] && prev == []
    {
      piece, next, prev := [], [], [];
    }

    /** p_create_with: a new node with the given record and links. */
    method CreateWith(p: Piece, before: Ref, after: Ref) returns (x: Ref)
      requires Valid()
      modifies this
      ensures Valid() && x == |old(piece)|
      ensures piece == old(piece) + [p] && next == old(next) + [after] && prev == old(prev) + [before]
    {
      x := |piece|;
      piece, next, prev := piece + [p], next + [after], prev + [before];
    }

    /** p_create_from: a new node for the inclusive sub-range [i, j] of
        node `p`; `p` itself is untouched. Its links are left unset (Null). */
    method CreateFrom(p: Ref, i: nat, j: nat) returns (x: Ref)
      requires Valid() && 0 <= p < |piece| && i <= j
      modifies this
      ensures Valid() && x == |old(piece)|
      ensures piece == old(piece) + [Slice(old(piece)[p], i, j)]
      ensures next == old(next) + [Null] && prev == old(prev) + [Null]
    {
      x := CreateWith(Slice(piece[p], i, j), Null, Null);
    }

    /** pr_create_empty: two calloc'd sentinels linked to each other. */
    method CreateEmpty() returns (r: Range)
      requires Valid()
      modifies this
      ensures Valid() && r == Range(|old(piece)|, |old(piece)| + 1)
      ensures piece == old(piece) + [Blank, Blank]
      ensures |next| == |old(next)| + 2 && next[..|old(next)|] == old(next)
      ensures |prev| == |old(prev)| + 2 && prev[..|old(prev)|] == old(prev)
      ensures Holds(next, prev, r, [])
      ensures prev[r.head] == Null && next[r.tail] == Null
    {
      var head := CreateWith(Blank, Null, Null);
      var tail := CreateWith(Blank, Null, Null);
      next := next[head := tail];
      prev := prev[tail := head];
      r := Range(head, tail);
      assert Bounded(r, []) == [head, tail];
    }

    /** pr_is_empty, as its comment intends: nothing between the sentinels. */
    predicate IsEmpty(r: Range)
      reads this
      requires Valid() && 0 <= r.head < |next|
    {
      next[r.head] == r.tail
    }

    lemma IsEmptyIff(r: Range, c: seq<Ref>)
      requires Valid() && Holds(next, prev, r, c)
      ensures 0 <= r.head < |next|
      ensures IsEmpty(r) <==> c == []
    {
      HoldsFacts(next, prev, r, c);
    }

    /** pr_append_piece: links node `x` in just before the tail sentinel. */
    method AppendPiece(r: Range, x: Ref, ghost c: seq<Ref>)
      requires Valid() && Holds(next, prev, r, c)
      requires 0 <= x < |piece| && x !in Bounded(r, c)
      modifies this
      ensures Valid() && piece == old(piece)
      ensures Holds(next, prev, r, c + [x])
      ensures next == Put(Put(old(next), At(old(prev), r.tail), x), x, r.tail)
      ensures prev == Put(Put(old(prev), r.tail, x), x, At(old(prev), r.tail))
    {
      HoldsFacts(next, prev, r, c);
      var before := prev[r.tail];
      assert before == Bounded(r, c)[|c|];
      ghost var next', prev' := next[before := x][x := r.tail], prev[r.tail := x][x := before];
      HoldsAppend(next, prev, r, c, x, next', prev');
      next := next[before := x];
      prev := prev[r.tail := x];
      prev := prev[x := before];
      next := next[x := r.tail];
      assert next == next' && prev == prev';
    }

    /** pr_append_piece of the node created last, `x`, onto a range whose
        nodes were all created after the first `n`: the first `n` nodes
        keep their links. */
    method AppendCreated(r: Range, x: Ref, ghost c: seq<Ref>, ghost n: nat)
      requires Valid() && x == |piece| - 1 && n <= x
      requires Holds(next[..x], prev[..x], r, c) && next[x] == Null && prev[x] == Null
      requires forall y :: y in Bounded(r, c) ==> n <= y
      modifies this
      ensures Valid() && piece == old(piece) && Holds(next, prev, r, c + [x])
      ensures forall y :: y in Bounded(r, c + [x]) ==> n <= y
      ensures next[..n] == old(next)[..n] && prev[..n] == old(prev)[..n]
    {
      assert next == next[..x] + [Null] && prev == prev[..x] + [Null];
      GrowOne(next[..x], prev[..x], next, prev, r, c);
      AppendBelow(next, prev, r, c, x, n);
      AppendPiece(r, x, c);
      assert Bounded(r, c + [x]) == [r.head] + c + [x] + [r.tail];
      forall y | y in Bounded(r, c + [x])
        ensures n <= y
      {
        if y != x {
          assert y in Bounded(r, c);
        }
      }
    }

    /** The start of pt_insert's replacement chain: pr_create_empty, then,
        when the position is `o` bytes into piece `p`, a copy of the bytes
        before it. */
    method BuildHead(p: Ref, o: nat) returns (r: Range, ghost c: seq<Ref>)
      requires Valid() && 0 <= p < |piece| && (o == 0 || o < piece[p].len)
      modifies this
      ensures Valid() && r == Range(|old(piece)|, |old(piece)| + 1)
      ensures piece == old(piece) + [Blank, Blank] + (if o == 0 then [] else [Slice(old(piece)[p], 0, o - 1)])
      ensures c == if o == 0 then [] else [|old(piece)| + 2]
      ensures Holds(next, prev, r, c) && forall y :: y in Bounded(r, c) ==> |old(piece)| <= y
      ensures next[..|old(piece)|] == old(next) && prev[..|old(piece)|] == old(prev)
    {
      ghost var n := |piece|;
      r := CreateEmpty();
      c := [];
      assert Bounded(r, c) == [n, n + 1];
      if o != 0 {
        var x := CreateFrom(p, 0, o - 1);
        assert next[..n] == old(next) && prev[..n] == old(prev);
        AppendCreated(r, x, c, n);
        c := c + [x];
      }
    }

    /** The rest of pt_insert's replacement chain: node `y`, the piece of
        the inserted string, created last; then, when the position is `o`
        bytes into piece `p`, a copy of the bytes from the position on. The
        first `n` nodes keep their links. */
    method BuildTail(r: Range, ghost c: seq<Ref>, y: Ref, p: Ref, o: nat, ghost n: nat)
      requires Valid() && y == |piece| - 1 && n <= y && 0 <= p < n && (o == 0 || o < piece[p].len)
      requires Holds(next[..y], prev[..y], r, c) && next[y] == Null && prev[y] == Null
      requires forall z :: z in Bounded(r, c) ==> n <= z
      modifies this
      ensures Valid()
      ensures piece == old(piece) + (if o == 0 then [] else [Slice(old(piece)[p], o, old(piece)[p].len - 1)])
      ensures Holds(next, prev, r, if o == 0 then c + [y] else c + [y, y + 1])
      ensures next[..n] == old(next)[..n] && prev[..n] == old(prev)[..n]
    {
      AppendCreated(r, y, c, n);
      if o != 0 {
        var z := CreateFrom(p, o, piece[p].len - 1);
        assert next[..n] == old(next)[..n] && prev[..n] == old(prev)[..n];
        AppendCreated(r, z, c + [y], n);
        assert c + [y] + [z] == c + [y, y + 1];
      }
    }

    /** The replacement chain of pt_delete: pr_create_empty, then a copy
        of the bytes of piece `pb` before the first deleted one (byte `bo`)
        unless there are none, then a copy of the bytes of piece `pe` after
        the last deleted one (byte `eo`) unless there are none. */
    method BuildKept(pb: Ref, bo: nat, pe: Ref, eo: nat) returns (r: Range, ghost c: seq<Ref>)
      requires Valid() && 0 <= pb < |piece| && 0 <= pe < |piece| && bo < piece[pb].len && eo < piece[pe].len
      modifies this
      ensures Valid() && r == Range(|old(piece)|, |old(piece)| + 1)
      ensures piece == old(piece) + [Blank, Blank] + Kept(old(piece)[pb], bo, old(piece)[pe], eo)
      ensures c == Run(|old(piece)| + 2, |Kept(old(piece)[pb], bo, old(piece)[pe], eo)|)
      ensures Holds(next, prev, r, c)
      ensures next[..|old(piece)|] == old(next) && prev[..|old(piece)|] == old(prev)
    {
      ghost var n, piece0 := |piece|, piece;
      r := CreateEmpty();
      c := [];
      assert Bounded(r, c) == [n, n + 1];
      if bo != 0 {
        var x := AppendCopy(r, c, pb, 0, bo - 1, n);
        c := c + [x];
      }
      ghost var piece1, c1 := piece, c;
      if eo != piece[pe].len - 1 {
        var y := AppendCopy(r, c, pe, eo + 1, piece[pe].len - 1, n);
        c := c + [y];
      }
      ghost var k := Kept(piece0[pb], bo, piece0[pe], eo);
      assert piece == piece0 + [Blank, Blank] + k;
      assert c == Run(n + 2, |k|) by {
        assert Run(n + 2, 0) == [] && Run(n + 2, 1) == [n + 2] && Run(n + 2, 2) == [n + 2, n + 3];
      }
    }

    /** p_create_from for bytes `i` to `j` of piece `p`, then
        pr_append_piece of the new node onto range `r`, whose nodes all lie
        past the first `n`; the first `n` nodes keep their links. */
    method AppendCopy(r: Range, ghost c: seq<Ref>, p: Ref, i: nat, j: nat, ghost n: nat) returns (x: Ref)
      requires Valid() && 0 <= p < n <= |piece| && i <= j && Holds(next, prev, r, c)
      requires forall y :: y in Bounded(r, c) ==> n <= y
      modifies this
      ensures Valid() && x == |old(piece)| && piece == old(piece) + [Slice(old(piece)[p], i, j)]
      ensures Holds(next, prev, r, c + [x]) && forall y :: y in Bounded(r, c + [x]) ==> n <= y
      ensures next[..n] == old(next)[..n] && prev[..n] == old(prev)[..n]
    {
      x := CreateFrom(p, i, j);
      assert next[..x] == old(next) && prev[..x] == old(prev);
      AppendCreated(r, x, c, n);
    }

    /** pr_swap: exchanges the chains held by two disjoint ranges. Each
        emptiness test reads the range as it was on entry, as the comment
        above the function intends. No node is created or destroyed. */
    method Swap(pp: Range, qq: Range, ghost cp: seq<Ref>, ghost cq: seq<Ref>)
      requires Valid() && Holds(next, prev, pp, cp) && Holds(next, prev, qq, cq)
      requires Disjoint(Bounded(pp, cp), Bounded(qq, cq))
      modifies this
      ensures Valid() && piece == old(piece)
      ensures Holds(next, prev, pp, cq) && Holds(next, prev, qq, cp)
      ensures next == SwappedNext(old(next), pp, cp, qq, cq) && prev == SwappedPrev(old(prev), pp, cp, qq, cq)
    {
      HoldsFacts(next, prev, pp, cp);
      HoldsFacts(next, prev, qq, cq);
      // backup of pp's ends for later
      var ppHeadNext := next[pp.head];
      var ppTailPrev := prev[pp.tail];
      IsEmptyIff(qq, cq);
      if !IsEmpty(qq) {
        var first, last := next[qq.head], prev[qq.tail];
        next := next[pp.head := first];
        prev := prev[pp.tail := last];
        prev := prev[first := pp.head];
        next := next[last := pp.tail];
      } else {
        next := next[pp.head := pp.tail];
        prev := prev[pp.tail := pp.head];
      }
      if ppHeadNext != pp.tail {
        next := next[qq.head := ppHeadNext];
        prev := prev[qq.tail := ppTailPrev];
        prev := prev[ppHeadNext := qq.head];
        next := next[ppTailPrev := qq.tail];
      } else {
        next := next[qq.head := qq.tail];
        prev := prev[qq.tail := qq.head];
      }
      assert next == SwappedNext(old(next), pp, cp, qq, cq);
      assert prev == SwappedPrev(old(prev), pp, cp, qq, cq);
      SwapHolds(old(next), old(prev), pp, cp, qq, cq);
    }

    /** pr_swap followed by a walk along the range `r` that measures its
        text: the exchange that ends pt_insert and pt_delete and the one at
        the heart of pt_undo and pt_redo, with the table's length
        recomputed from the chain it leaves. The source keeps no length
        here; the walk is how the model keeps `len` equal to the length of
        the text. */
    method Exchange(pp: Range, qq: Range, ghost cp: seq<Ref>, ghost cq: seq<Ref>, r: Range, ghost c: seq<Ref>)
      returns (n: nat)
      requires Valid() && Holds(next, prev, pp, cp) && Holds(next, prev, qq, cq)
      requires Disjoint(Bounded(pp, cp), Bounded(qq, cq))
      requires Holds(SwappedNext(next, pp, cp, qq, cq), SwappedPrev(prev, pp, cp, qq, cq), r, c)
      modifies this
      ensures Valid() && piece == old(piece)
      ensures next == SwappedNext(old(next), pp, cp, qq, cq) && prev == SwappedPrev(old(prev), pp, cp, qq, cq)
      ensures n == SumLen(PiecesOf(piece, c))
    {
      Swap(pp, qq, cp, cq);
      n := ChainLength(r, c);
    }

    /** p_find: walks forward from `p` along `w` until the remaining offset
        falls inside a node, or until the last node (the one whose next
        link is Null) is reached with nothing left. */
    function Find(ghost w: seq<Ref>, p: Ref, offset: nat): (r: Position)
      reads this
      requires Valid() && Linked(next, prev, w) && |w| > 0 && w[0] == p
      requires next[w[|w| - 1]] == Null && piece[w[|w| - 1]].len == 0
      requires offset <= LenOf(w)
      ensures exists k :: 0 <= k < |w| && r.piece == w[k] &&
                offset == LenOf(w[..k]) + r.offset &&
                (r.offset < piece[r.piece].len || (k == |w| - 1 && r.offset == 0))
      decreases |w|
    {
      if piece[p].len > offset || (next[p] == Null && offset == 0) then
        assert offset == LenOf(w[..0]) + offset;
        Position(p, offset)
      else
        StepLen(w);
        assert |w| > 1;
        LinkedSlice(next, prev, w, 1, |w|);
        var r := Find(w[1..], next[p], offset - piece[p].len);
        ShiftFound(w, offset, r);
        r
    }

    lemma StepLen(w: seq<Ref>)
      requires Valid() && |w| > 0 && Nodes(next, prev, w)
      ensures LenOf(w) == piece[w[0]].len + LenOf(w[1..])
    {
      assert PiecesOf(piece, w)[1..] == PiecesOf(piece, w[1..]);
    }

    lemma ShiftFound(w: seq<Ref>, offset: nat, r: Position)
      requires Valid() && |w| > 1 && Nodes(next, prev, w)
      requires piece[w[0]].len <= offset
      requires exists k :: 0 <= k < |w| - 1 && r.piece == w[1..][k] &&
                 offset - piece[w[0]].len == LenOf(w[1..][..k]) + r.offset &&
                 (r.offset < piece[r.piece].len || (k == |w| - 2 && r.offset == 0))
      ensures exists k :: 0 <= k < |w| && r.piece == w[k] &&
                offset == LenOf(w[..k]) + r.offset &&
                (r.offset < piece[r.piece].len || (k == |w| - 1 && r.offset == 0))
    {
      var k :| 0 <= k < |w| - 1 && r.piece == w[1..][k] &&
               offset - piece[w[0]].len == LenOf(w[1..][..k]) + r.offset &&
               (r.offset < piece[r.piece].len || (k == |w| - 2 && r.offset == 0));
      assert w[..k + 1][1..] == w[1..][..k];
      StepLen(w[..k + 1]);
      assert r.piece == w[k + 1];
    }

    lemma LenOfSnoc(c: seq<Ref>, i: nat)
      requires Valid() && Nodes(next, prev, c) && i < |c|
      ensures LenOf(c[..i + 1]) == LenOf(c[..i]) + piece[c[i]].len
    {
      assert c[..i + 1] == c[..i] + [c[i]];
      PiecesOfConcat(piece, c[..i], [c[i]]);
      SumLenConcat(PiecesOf(piece, c[..i]), PiecesOf(piece, [c[i]]));
      assert SumLen(PiecesOf(piece, [c[i]])) == piece[c[i]].len + SumLen([]);
    }

    /** The total length of the chain a range holds, walking it node by node. */
    method ChainLength(r: Range, ghost c: seq<Ref>) returns (n: nat)
      requires Valid() && Holds(next, prev, r, c)
      ensures Nodes(next, prev, c) && n == LenOf(c)
    {
      HoldsFacts(next, prev, r, c);
      n := 0;
      var x := next[r.head];
      ghost var i := 0;
      while x != r.tail
        invariant 0 <= i <= |c|
        invariant x == if i < |c| then c[i] else r.tail
        invariant n == LenOf(c[..i])
        decreases |c| - i
      {
        LenOfSnoc(c, i);
        n := n + piece[x].len;
        x := next[x];
        i := i + 1;
      }
      assert c[..i] == c;
    }
  }
}
