// Places where piece_table.c does not do what its comments and callers
// expect. Each is modelled here as written, with an input that exhibits
// the discrepancy; the rest of the model uses the intended behaviour.

module Findings {
  import opened Stores
  import opened Links
  import opened Pieces
  import opened Texts
  import opened States
  import opened Arenas

  // ---- pr_is_empty ------------------------------------------------------

  /** pr_is_empty as written: the node after the head is the node before
      the tail. */
  function IsEmptyAsWritten(next: seq<Ref>, prev: seq<Ref>, r: Range): bool
  {
    At(next, r.head) == At(prev, r.tail)
  }

  /** The test as written calls a range holding one piece empty, and a
      range with nothing between distinct sentinels not empty. */
  lemma IsEmptyMisjudges(next: seq<Ref>, prev: seq<Ref>, r: Range, x: Ref)
    requires Holds(next, prev, r, [x])
    ensures IsEmptyAsWritten(next, prev, r)
    ensures forall next', prev' :: Holds(next', prev', r, []) ==> !IsEmptyAsWritten(next', prev', r)
  {
    var b := Bounded(r, [x]);
    assert b == [r.head, x, r.tail];
    assert next[b[0]] == b[1] && prev[b[2]] == b[1];
    forall next', prev' | Holds(next', prev', r, [])
      ensures !IsEmptyAsWritten(next', prev', r)
    {
      var e := Bounded(r, []);
      assert e == [r.head, r.tail];
      assert next'[e[0]] == e[1] && prev'[e[1]] == e[0] && e[0] != e[1];
    }
  }

  /** The emptiness the sentinels of pr_create_empty establish: the head
      is followed by the tail. */
  function IsEmptyIntended(next: seq<Ref>, prev: seq<Ref>, r: Range): bool
  {
    At(next, r.head) == r.tail
  }

  /** It is the arena's own emptiness test, Arenas.Arena.IsEmpty. */
  lemma IsEmptyIntendedIsArenaTest(a: Arena, r: Range)
    requires a.Valid() && 0 <= r.head < |a.next|
    ensures a.IsEmpty(r) == IsEmptyIntended(a.next, a.prev, r)
  {
  }

  // ---- pr_swap ----------------------------------------------------------

  /** pr_swap(pp, qq) as written, with the emptiness test `empty` used at
      both of its tests: the links of the first and last nodes of pp are
      saved, pp receives qq's chain (or is closed up), and only then is pp
      tested to decide what qq receives. Returns the new forward and
      backward links. */
  function SwapAsWritten(next: seq<Ref>, prev: seq<Ref>, pp: Range, qq: Range,
                         empty: (seq<Ref>, seq<Ref>, Range) -> bool): (seq<Ref>, seq<Ref>)
  {
    var ppHeadNext, ppTailPrev := At(next, pp.head), At(prev, pp.tail);
    var n1 := if !empty(next, prev, qq) then Put(next, pp.head, At(next, qq.head)) else Put(next, pp.head, pp.tail);
    var p1 := if !empty(next, prev, qq) then Put(prev, pp.tail, At(prev, qq.tail)) else Put(prev, pp.tail, pp.head);
    var p2 := if !empty(next, prev, qq) then Put(p1, At(n1, qq.head), pp.head) else p1;
    var n2 := if !empty(next, prev, qq) then Put(n1, At(p2, qq.tail), pp.tail) else n1;
    if !empty(n2, p2, pp) then
      var n3 := Put(n2, qq.head, ppHeadNext);
      var p3 := Put(p2, qq.tail, ppTailPrev);
      var p4 := Put(p3, ppHeadNext, qq.head);
      (Put(n3, ppTailPrev, qq.tail), p4)
    else
      (Put(n2, qq.head, qq.tail), Put(p2, qq.tail, qq.head))
  }

  /** Once pr_is_empty is corrected, swapping a range holding one piece
      with an empty one loses the piece: the second test sees pp already
      emptied, so qq stays empty, where the intended exchange (SwappedNext,
      SwappedPrev) leaves qq holding the piece. With pr_is_empty as written
      on the same input, qq does receive the piece, but the link back from
      pp's tail is left on qq's head. Nodes: pp is (0, 1), the piece is 2,
      qq is (3, 4). */
  lemma SwapLosesPiece()
    ensures var next, prev := [2, Null, 1, 4, Null], [Null, 2, 0, Null, 3];
            var pp, qq := Range(0, 1), Range(3, 4);
            var (n, p) := SwapAsWritten(next, prev, pp, qq, IsEmptyAsWritten);
            n[0] == 1 && p[1] == 3 && n[3] == 2 && n[2] == 4
    ensures var next, prev := [2, Null, 1, 4, Null], [Null, 2, 0, Null, 3];
            var pp, qq := Range(0, 1), Range(3, 4);
            SwapAsWritten(next, prev, pp, qq, IsEmptyIntended).0[3] == 4 &&
            Holds(SwappedNext(next, pp, [2], qq, []), SwappedPrev(prev, pp, [2], qq, []), qq, [2]) &&
            SwappedNext(next, pp, [2], qq, [])[3] == 2
  {
    var next, prev := [2, Null, 1, 4, Null], [Null, 2, 0, Null, 3];
    var pp, qq := Range(0, 1), Range(3, 4);
    assert Bounded(pp, [2]) == [0, 2, 1] && Bounded(qq, []) == [3, 4];
    assert Holds(next, prev, pp, [2]) && Holds(next, prev, qq, []);
    SwapSymmetric(next, prev, pp, [2], qq, []);
  }

  /** With pr_is_empty as written as well, swapping two one-piece ranges
      loses one piece: qq's piece is taken for absent, pp is closed up and
      receives nothing, where the intended exchange leaves pp holding qq's
      piece. Nodes: pp is (0, 1) holding 2, qq is (3, 4) holding 5. */
  lemma SwapAsWrittenLosesPiece()
    ensures var next, prev := [2, Null, 1, 5, Null, 4], [Null, 2, 0, Null, 5, 3];
            var pp, qq := Range(0, 1), Range(3, 4);
            SwapAsWritten(next, prev, pp, qq, IsEmptyAsWritten).0[0] == 1 &&
            Holds(SwappedNext(next, pp, [2], qq, [5]), SwappedPrev(prev, pp, [2], qq, [5]), pp, [5])
  {
    var next, prev := [2, Null, 1, 5, Null, 4], [Null, 2, 0, Null, 5, 3];
    var pp, qq := Range(0, 1), Range(3, 4);
    assert Bounded(pp, [2]) == [0, 2, 1] && Bounded(qq, [5]) == [3, 5, 4];
    SwapHolds(next, prev, pp, [2], qq, [5]);
  }

  // ---- b_append ---------------------------------------------------------

  /** The ADD store's contents after b_append as written: `len` grows by
      `|s|` first, and the copy then runs from the store into the caller's
      string, so the store's new bytes are whatever its block held there
      (`spare`) rather than `s`. */
  function AppendAsWritten(contents: seq<byte>, capacity: nat, s: seq<byte>, spare: seq<byte>): seq<byte>
    requires |spare| == |s|
  {
    if |s| == 0 || capacity == 0 then contents else contents + spare
  }

  /** Appending byte 1 to an empty store whose block holds 0 there stores
      0, where the store should end with the appended byte. */
  lemma AppendLosesBytes()
    ensures AppendAsWritten([], AddInitialCapacity, [1], [0]) == [0]
    ensures AppendAsWritten([], AddInitialCapacity, [1], [0]) != [] + [1]
  {
    var a := AppendAsWritten([], AddInitialCapacity, [1], [0]);
    assert a == [0];
    assert a[0] != ([] + [1])[0];
  }

  // ---- the new piece's offset -------------------------------------------

  /** The record pt_create_piece_from_string makes as written: its offset
      is the ADD store's length read after the append. */
  function NewPieceAsWritten(st: Backing, s: seq<byte>): Piece
  {
    Piece(Add, |st.add| + |s|, |s|)
  }

  /** For any non-empty string the record as written reaches past the end
      of the grown ADD store, while the intended one spells the string. */
  lemma NewPieceOutside(st: Backing, s: seq<byte>)
    requires |s| > 0
    ensures !InBounds(NewPieceAsWritten(st, s), Backing(st.original, st.add + s))
    ensures Text([NewPiece(st, s)], Backing(st.original, st.add + s)) == s
  {
    NewPieceText(st, Backing(st.original, st.add + s), s);
  }

  // ---- pt_insert's guard ------------------------------------------------

  /** pt_insert's guard as written: the offset is compared with the length
      of the inserted string, not with the length of the text. */
  predicate InsertSkipsAsWritten(offset: nat, n: nat, textLen: nat)
  {
    n == 0 || offset > n
  }

  /** The intended guard, the one Tables.PieceTable.Insert has. */
  predicate InsertSkipsIntended(offset: nat, n: nat, textLen: nat)
  {
    n == 0 || offset > textLen
  }

  /** The guard as written refuses inserting one byte at offset 5 of a
      10-byte text, and lets through inserting 3 bytes at offset 3 of a
      2-byte text, past its end. */
  lemma InsertGuardWrong()
    ensures InsertSkipsAsWritten(5, 1, 10) && !InsertSkipsIntended(5, 1, 10)
    ensures !InsertSkipsAsWritten(3, 3, 2) && InsertSkipsIntended(3, 3, 2)
  {
  }

  // ---- pt->len ----------------------------------------------------------

  /** pt_load_from_file as written: the piece is appended, but `len` keeps
      its old value. */
  ghost function LoadedAsWritten(s: State, bytes: seq<byte>): State
  {
    Loaded(s, bytes).(len := s.len)
  }

  /** After loading a non-empty file `len` as written no longer is the
      length of the text, so pt_delete's guard, which reads it, refuses
      deletions inside the text; the intended load keeps it equal. */
  lemma LenGoesStale(s: State, bytes: seq<byte>)
    requires Inv(s) && s.st.original == [] && s.undo == [] && s.redo == [] && |bytes| > 0
    ensures LoadedAsWritten(s, bytes).len < |LoadedAsWritten(s, bytes).Content()|
    ensures !Inv(LoadedAsWritten(s, bytes))
    ensures Loaded(s, bytes).len == |Loaded(s, bytes).Content()|
  {
    LoadKeeps(s, bytes);
    InvLen(s);
    InvLen(Loaded(s, bytes));
    assert LoadedAsWritten(s, bytes).Content() == Loaded(s, bytes).Content();
  }

  // ---- pt_insert's fast path --------------------------------------------

  /** pt_insert's fast path as written, on the pieces of the text: when
      the found piece `ps[k]` is in the ADD store and ends at its end, the
      string is appended to the store and the piece grows by its length,
      whatever the offset inside the piece. No change is recorded. */
  function FastPathAsWritten(ps: seq<Piece>, k: nat, st: Backing, s: seq<byte>): (seq<Piece>, Backing)
    requires k < |ps|
  {
    if ps[k].buffer == Add && ps[k].offset + ps[k].len == |st.add| then
      (ps[k := Piece(Add, ps[k].offset, ps[k].len + |s|)], Backing(st.original, st.add + s))
    else
      (ps, st)
  }

  /** Inserting byte 9 at offset 0 of the text [1, 2], held by one ADD
      piece, takes the fast path and yields [1, 2, 9] instead of
      [9, 1, 2]. */
  lemma FastPathAppends()
    ensures var st := Backing([], [1, 2]);
            var r := FastPathAsWritten([Piece(Add, 0, 2)], 0, st, [9]);
            Text([Piece(Add, 0, 2)], st) == [1, 2] &&
            Text(r.0, r.1) == [1, 2, 9] && Text(r.0, r.1) != [9] + [1, 2]
  {
    var st := Backing([], [1, 2]);
    var r := FastPathAsWritten([Piece(Add, 0, 2)], 0, st, [9]);
    assert r.0 == [Piece(Add, 0, 3)] && r.1 == Backing([], [1, 2, 9]);
    TextOfOne(Piece(Add, 0, 2), st);
    TextOfOne(Piece(Add, 0, 3), r.1);
    assert st.Of(Add) == [1, 2] && r.1.Of(Add) == [1, 2, 9];
    assert Bytes(Piece(Add, 0, 2), st) == [1, 2][0..2] == [1, 2];
    assert Bytes(Piece(Add, 0, 3), r.1) == [1, 2, 9][0..3] == [1, 2, 9];
    assert Text(r.0, r.1) == [1, 2, 9];
    assert Text(r.0, r.1)[0] != ([9] + [1, 2])[0];
  }
}
