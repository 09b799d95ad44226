// Piece records (struct piece without its links) and the bytes a
// sequence of pieces denotes over the two stores.

module Pieces {
  import opened Stores
  import opened Links

  /** A reference to `len` bytes at `offset` in one store. */
  datatype Piece = Piece(buffer: BufferType, offset: nat, len: nat)

  /** The record of a node allocated with calloc: the sentinels' record. */
  const Blank: Piece := Piece(Original, 0, 0)

  /** The contents of both stores at one moment. */
  datatype Backing = Backing(original: seq<byte>, add: seq<byte>)
  {
    function Of(b: BufferType): seq<byte>
    {
      if b == Original then original else add
    }

    /** `that` is this state with bytes added at the end of either store. */
    ghost predicate GrowsTo(that: Backing)
    {
      original <= that.original && add <= that.add
    }
  }

  ghost predicate InBounds(p: Piece, st: Backing)
  {
    p.offset + p.len <= |st.Of(p.buffer)|
  }

  /** The bytes a piece denotes; nothing for a piece that points past the
      end of its store, which the piece table never holds. */
  ghost function Bytes(p: Piece, st: Backing): (b: seq<byte>)
    ensures InBounds(p, st) ==> |b| == p.len
  {
    if InBounds(p, st) then st.Of(p.buffer)[p.offset..p.offset + p.len] else []
  }

  /** p_create_from's record: the sub-piece covering the inclusive index
      range [i, j] of `p`, in the same store. */
  function Slice(p: Piece, i: nat, j: nat): Piece
    requires i <= j
  {
    Piece(p.buffer, p.offset + i, j - i + 1)
  }

  /** A slice of a piece denotes the same bytes as that part of the piece. */
  lemma SliceBytes(p: Piece, i: nat, j: nat, st: Backing)
    requires InBounds(p, st) && i <= j < p.len
    ensures InBounds(Slice(p, i, j), st)
    ensures Bytes(Slice(p, i, j), st) == Bytes(p, st)[i..j + 1]
  {
  }

  /** Splitting a piece at `o` into [0, o-1] and [o, len-1] loses no byte. */
  lemma SliceSplit(p: Piece, o: nat, st: Backing)
    requires InBounds(p, st) && 0 < o < p.len
    ensures InBounds(Slice(p, 0, o - 1), st) && InBounds(Slice(p, o, p.len - 1), st)
    ensures Bytes(Slice(p, 0, o - 1), st) + Bytes(Slice(p, o, p.len - 1), st) == Bytes(p, st)
  {
    SliceBytes(p, 0, o - 1, st);
    SliceBytes(p, o, p.len - 1, st);
    assert Bytes(p, st) == Bytes(p, st)[..o] + Bytes(p, st)[o..];
  }

  ghost predicate AllInBounds(ps: seq<Piece>, st: Backing)
  {
    forall i :: 0 <= i < |ps| ==> InBounds(ps[i], st)
  }

  ghost function SumLen(ps: seq<Piece>): nat
  {
    if ps == [] then 0 else ps[0].len + SumLen(ps[1..])
  }

  /** `f` applied to each piece of `ps`, concatenated in order. */
  ghost function Flat(ps: seq<Piece>, f: Piece -> seq<byte>): seq<byte>
  {
    if ps == [] then [] else f(ps[0]) + Flat(ps[1..], f)
  }

  /** Bytes over one state of the stores, as a function of the piece. */
  ghost function BytesIn(st: Backing): Piece -> seq<byte>
  {
    p => Bytes(p, st)
  }

  /** The bytes of a chain of pieces, in order. */
  ghost function Text(ps: seq<Piece>, st: Backing): seq<byte>
  {
    Flat(ps, BytesIn(st))
  }

  lemma {:induction false} FlatConcat(a: seq<Piece>, b: seq<Piece>, f: Piece -> seq<byte>)
    ensures Flat(a + b, f) == Flat(a, f) + Flat(b, f)
    decreases |a|
  {
    if a == [] {
      assert a + b == b;
    } else {
      FlatConcat(a[1..], b, f);
      assert (a + b)[0] == a[0] && (a + b)[1..] == a[1..] + b;
    }
  }

  lemma {:induction false} FlatLen(ps: seq<Piece>, f: Piece -> seq<byte>)
    requires forall i :: 0 <= i < |ps| ==> |f(ps[i])| == ps[i].len
    ensures |Flat(ps, f)| == SumLen(ps)
    decreases |ps|
  {
    if ps != [] {
      FlatLen(ps[1..], f);
    }
  }

  lemma {:induction false} FlatSame(ps: seq<Piece>, f: Piece -> seq<byte>, g: Piece -> seq<byte>)
    requires forall i :: 0 <= i < |ps| ==> f(ps[i]) == g(ps[i])
    ensures Flat(ps, f) == Flat(ps, g)
    decreases |ps|
  {
    if ps != [] {
      FlatSame(ps[1..], f, g);
    }
  }

  lemma {:induction false} SumLenConcat(a: seq<Piece>, b: seq<Piece>)
    ensures SumLen(a + b) == SumLen(a) + SumLen(b)
  {
    if a == [] {
      assert a + b == b;
    } else {
      SumLenConcat(a[1..], b);
      assert (a + b)[1..] == a[1..] + b;
    }
  }

  lemma AllInBoundsConcat(a: seq<Piece>, b: seq<Piece>, st: Backing)
    requires AllInBounds(a, st) && AllInBounds(b, st)
    ensures AllInBounds(a + b, st)
  {
    forall i | 0 <= i < |a + b|
      ensures InBounds((a + b)[i], st)
    {
      if i >= |a| {
        assert (a + b)[i] == b[i - |a|];
      }
    }
  }

  /** In-bounds pieces denote as many bytes as their lengths add up to. */
  lemma TextLen(ps: seq<Piece>, st: Backing)
    requires AllInBounds(ps, st)
    ensures |Text(ps, st)| == SumLen(ps)
  {
    FlatLen(ps, BytesIn(st));
  }

  lemma TextConcat(a: seq<Piece>, b: seq<Piece>, st: Backing)
    ensures Text(a + b, st) == Text(a, st) + Text(b, st)
  {
    FlatConcat(a, b, BytesIn(st));
  }

  /** Appending to the stores does not change what in-bounds pieces denote. */
  lemma TextStable(ps: seq<Piece>, st: Backing, st': Backing)
    requires AllInBounds(ps, st) && st.GrowsTo(st')
    ensures AllInBounds(ps, st')
    ensures Text(ps, st') == Text(ps, st)
  {
    forall i | 0 <= i < |ps|
      ensures InBounds(ps[i], st') && Bytes(ps[i], st') == Bytes(ps[i], st)
    {
      assert st'.Of(ps[i].buffer)[..|st.Of(ps[i].buffer)|] == st.Of(ps[i].buffer);
    }
    FlatSame(ps, BytesIn(st'), BytesIn(st));
  }

  /** The text of a chain around a position inside piece `k`: the bytes
      before the position are those of the earlier pieces and the first `o`
      bytes of piece `k`; the rest follow. */
  lemma TextAround(ps: seq<Piece>, k: nat, o: nat, st: Backing)
    requires AllInBounds(ps, st) && k < |ps| && o <= ps[k].len
    ensures |Text(ps, st)| == SumLen(ps) && SumLen(ps[..k]) + o <= SumLen(ps)
    ensures |Bytes(ps[k], st)| == ps[k].len
    ensures Text(ps, st)[..SumLen(ps[..k]) + o] == Text(ps[..k], st) + Bytes(ps[k], st)[..o]
    ensures Text(ps, st)[SumLen(ps[..k]) + o..] == Bytes(ps[k], st)[o..] + Text(ps[k + 1..], st)
  {
    var pre, p, post := ps[..k], ps[k], ps[k + 1..];
    assert ps == pre + [p] + post;
    assert InBounds(p, st);
    TextThree(pre, p, post, st);
    TextLen(ps, st);
    CutAround(Text(pre, st), Bytes(p, st), Text(post, st), o);
  }

  /** The text and length of a chain with one piece singled out. */
  lemma TextThree(pre: seq<Piece>, p: Piece, post: seq<Piece>, st: Backing)
    requires AllInBounds(pre, st)
    ensures Text(pre + [p] + post, st) == Text(pre, st) + Bytes(p, st) + Text(post, st)
    ensures SumLen(pre) == |Text(pre, st)|
  {
    TextOfOne(p, st);
    TextLen(pre, st);
    TextConcat(pre, [p], st);
    TextConcat(pre + [p], post, st);
  }

  lemma TextOfOne(p: Piece, st: Backing)
    ensures Text([p], st) == Bytes(p, st)
  {
    assert [p][1..] == [];
    assert Flat([p][1..], BytesIn(st)) == [];
  }

  lemma TextOfThree(a: Piece, b: Piece, c: Piece, st: Backing)
    ensures Text([a, b, c], st) == Bytes(a, st) + Bytes(b, st) + Bytes(c, st)
  {
    TextOfOne(c, st);
    TextOfOne(b, st);
    TextOfOne(a, st);
    TextConcat([b], [c], st);
    TextConcat([a], [b, c], st);
    assert [b] + [c] == [b, c] && [a] + [b, c] == [a, b, c];
  }

  /** Cutting `x + y + z` inside `y`. */
  lemma CutAround(x: seq<byte>, y: seq<byte>, z: seq<byte>, o: nat)
    requires o <= |y|
    ensures (x + y + z)[..|x| + o] == x + y[..o]
    ensures (x + y + z)[|x| + o..] == y[o..] + z
  {
  }

  /** The record of node `x`, or a blank record for a reference that is
      not a node. */
  function PieceAt(piece: seq<Piece>, x: Ref): Piece
  {
    if 0 <= x < |piece| then piece[x] else Blank
  }

  /** The pieces a node chain refers to. */
  ghost function PiecesOf(piece: seq<Piece>, c: seq<Ref>): (ps: seq<Piece>)
    ensures |ps| == |c|
  {
    seq(|c|, i requires 0 <= i < |c| => PieceAt(piece, c[i]))
  }

  lemma PiecesOfConcat(piece: seq<Piece>, a: seq<Ref>, b: seq<Ref>)
    ensures PiecesOf(piece, a + b) == PiecesOf(piece, a) + PiecesOf(piece, b)
  {
    assert forall i :: 0 <= i < |a + b| ==> (a + b)[i] == if i < |a| then a[i] else b[i - |a|];
  }

  lemma PiecesOfSlice(piece: seq<Piece>, c: seq<Ref>, i: nat, j: nat)
    requires i <= j <= |c|
    ensures PiecesOf(piece, c)[i..j] == PiecesOf(piece, c[i..j])
  {
  }

  /** Allocating more nodes does not change the pieces of existing chains. */
  lemma PiecesOfGrow(piece: seq<Piece>, piece': seq<Piece>, c: seq<Ref>)
    requires forall i :: 0 <= i < |c| ==> 0 <= c[i] < |piece|
    requires piece <= piece'
    ensures PiecesOf(piece', c) == PiecesOf(piece, c)
  {
  }
}
