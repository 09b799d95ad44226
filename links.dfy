// Doubly linked chains of piece nodes, described over the two link tables
// of the node arena (`next` and `prev`, indexed by node reference). These
// definitions are pure so that the frame and splice lemmas about them do
// not involve the heap.

module Links {

  /** A node reference: an index into the arena, or Null. */
  type Ref = int
  const Null: Ref := -1

  /** struct piece_range: the two sentinel nodes bounding a chain. */
  datatype Range = Range(head: Ref, tail: Ref)

  /** The `m` nodes created one after another from node `from` on. */
  function Run(from: nat, m: nat): seq<Ref>
    decreases m
  {
    if m == 0 then [] else [from] + Run(from + 1, m - 1)
  }

  /** The whole node sequence of a range holding chain `c`, sentinels included. */
  function Bounded(r: Range, c: seq<Ref>): seq<Ref>
  {
    [r.head] + c + [r.tail]
  }

  ghost predicate Nodes(next: seq<Ref>, prev: seq<Ref>, s: seq<Ref>)
  {
    forall i :: 0 <= i < |s| ==> 0 <= s[i] < |next| && s[i] < |prev|
  }

  /** Each node of `s` is linked forward and backward to its successor in `s`. */
  ghost predicate Linked(next: seq<Ref>, prev: seq<Ref>, s: seq<Ref>)
  {
    Nodes(next, prev, s) &&
    forall i :: 0 <= i < |s| - 1 ==> next[s[i]] == s[i + 1] && prev[s[i + 1]] == s[i]
  }

  ghost predicate Distinct(s: seq<Ref>)
  {
    forall i, j :: 0 <= i < j < |s| ==> s[i] != s[j]
  }

  ghost predicate Disjoint(a: seq<Ref>, b: seq<Ref>)
  {
    forall x :: x in a ==> x !in b
  }

  /** Range `r` holds exactly the chain `c` between its sentinels. */
  ghost predicate Holds(next: seq<Ref>, prev: seq<Ref>, r: Range, c: seq<Ref>)
  {
    Linked(next, prev, Bounded(r, c)) && Distinct(Bounded(r, c))
  }

  /** Slices of a linked sequence are linked. */
  lemma LinkedSlice(next: seq<Ref>, prev: seq<Ref>, s: seq<Ref>, i: nat, j: nat)
    requires Linked(next, prev, s) && i <= j <= |s|
    ensures Linked(next, prev, s[i..j])
  {
    var t := s[i..j];
    forall k | 0 <= k < |t| - 1
      ensures next[t[k]] == t[k + 1] && prev[t[k + 1]] == t[k]
    {
      assert t[k] == s[i + k] && t[k + 1] == s[i + k + 1];
    }
  }

  /** Splicing: if `a` and `b` are linked and the last node of `a` is
      linked through `x` to the first node of `b`, then `a + x + b` is
      linked. */
  lemma {:induction false} LinkedGlue(next: seq<Ref>, prev: seq<Ref>, a: seq<Ref>, x: seq<Ref>, b: seq<Ref>)
    requires |a| > 0 && |b| > 0
    requires Linked(next, prev, a) && Linked(next, prev, b)
    requires Linked(next, prev, [a[|a| - 1]] + x + [b[0]])
    ensures Linked(next, prev, a + x + b)
  {
    var m := [a[|a| - 1]] + x + [b[0]];
    var s := a + x + b;
    forall k | 0 <= k < |s|
      ensures 0 <= s[k] < |next| && s[k] < |prev|
    {
      if k < |a| {
        assert s[k] == a[k];
      } else if k < |a| + |x| {
        assert s[k] == m[k - |a| + 1];
      } else {
        assert s[k] == b[k - |a| - |x|];
      }
    }
    forall k | 0 <= k < |s| - 1
      ensures next[s[k]] == s[k + 1] && prev[s[k + 1]] == s[k]
    {
      if k < |a| - 1 {
        assert s[k] == a[k] && s[k + 1] == a[k + 1];
      } else if k < |a| + |x| {
        var d := k - (|a| - 1);
        assert s[k] == m[d] && s[k + 1] == m[d + 1];
      } else {
        var d := k - |a| - |x|;
        assert s[k] == b[d] && s[k + 1] == b[d + 1];
      }
    }
  }

  /** Links of `s` survive any change that leaves the forward link of each
      node but the last, and the backward link of each node but the first,
      as they were. */
  lemma LinkedFrame(next: seq<Ref>, prev: seq<Ref>, next': seq<Ref>, prev': seq<Ref>, s: seq<Ref>)
    requires Linked(next, prev, s) && Nodes(next', prev', s)
    requires forall i :: 0 <= i < |s| - 1 ==> next'[s[i]] == next[s[i]]
    requires forall i :: 0 < i < |s| ==> prev'[s[i]] == prev[s[i]]
    ensures Linked(next', prev', s)
  {
    forall i | 0 <= i < |s| - 1
      ensures next'[s[i]] == s[i + 1] && prev'[s[i + 1]] == s[i]
    {
      assert 0 < i + 1 < |s|;
    }
  }

  /** A range holds chain `c` once its sentinels point at the ends of `c`
      and `c` is linked inside. */
  lemma {:induction false} HoldsByEnds(next: seq<Ref>, prev: seq<Ref>, r: Range, c: seq<Ref>)
    requires Linked(next, prev, c) && Distinct(Bounded(r, c))
    requires 0 <= r.head < |next| && r.head < |prev| && 0 <= r.tail < |next| && r.tail < |prev|
    requires c == [] ==> next[r.head] == r.tail && prev[r.tail] == r.head
    requires c != [] ==> next[r.head] == c[0] && prev[c[0]] == r.head
    requires c != [] ==> next[c[|c| - 1]] == r.tail && prev[r.tail] == c[|c| - 1]
    ensures Holds(next, prev, r, c)
  {
    var s := Bounded(r, c);
    forall k | 0 < k < |s| - 1
      ensures 0 <= s[k] < |next| && s[k] < |prev|
    {
      assert s[k] == c[k - 1];
    }
    forall k | 0 <= k < |s| - 1
      ensures next[s[k]] == s[k + 1] && prev[s[k + 1]] == s[k]
    {
      if 0 < k < |s| - 2 {
        assert s[k] == c[k - 1] && s[k + 1] == c[k];
      }
    }
  }

  /** What the distinctness of a range's node sequence says about its parts. */
  lemma BoundedDistinct(r: Range, c: seq<Ref>)
    requires Distinct(Bounded(r, c))
    ensures Distinct(c) && r.head != r.tail && r.head !in c && r.tail !in c
  {
    var s := Bounded(r, c);
    assert forall i :: 0 <= i < |c| ==> c[i] == s[i + 1];
    assert s[0] == r.head && s[|s| - 1] == r.tail;
    assert r.head != r.tail;
    forall i | 0 <= i < |c|
      ensures c[i] != r.head && c[i] != r.tail
    {
      assert s[i + 1] != s[0] && s[i + 1] != s[|s| - 1];
    }
  }

  /** Everything `Holds` says, spelled out for the range's parts. */
  lemma HoldsFacts(next: seq<Ref>, prev: seq<Ref>, r: Range, c: seq<Ref>)
    requires Holds(next, prev, r, c)
    ensures 0 <= r.head < |next| && r.head < |prev| && 0 <= r.tail < |next| && r.tail < |prev|
    ensures Linked(next, prev, c)
    ensures Distinct(c) && r.head != r.tail && r.head !in c && r.tail !in c
    ensures next[r.head] == (if c == [] then r.tail else c[0])
    ensures prev[r.tail] == (if c == [] then r.head else c[|c| - 1])
    ensures c != [] ==> prev[c[0]] == r.head && next[c[|c| - 1]] == r.tail
  {
    var s := Bounded(r, c);
    BoundedDistinct(r, c);
    assert s[0] == r.head && s[|s| - 1] == r.tail && s[1] == (if c == [] then r.tail else c[0]);
    assert s[|s| - 2] == (if c == [] then r.head else c[|c| - 1]);
    LinkedSlice(next, prev, s, 1, |s| - 1);
    assert s[1..|s| - 1] == c;
  }

  lemma DistinctBounded(r: Range, c: seq<Ref>)
    requires Distinct(c) && r.head != r.tail && r.head !in c && r.tail !in c
    ensures Distinct(Bounded(r, c))
  {
    var s := Bounded(r, c);
    forall i, j | 0 <= i < j < |s|
      ensures s[i] != s[j]
    {
      if 0 < i && j < |s| - 1 {
        assert s[i] == c[i - 1] && s[j] == c[j - 1];
      } else if 0 < i {
        assert s[i] == c[i - 1];
      } else if j < |s| - 1 {
        assert s[j] == c[j - 1];
      }
    }
  }

  lemma DistinctSnoc(c: seq<Ref>, x: Ref)
    requires Distinct(c) && x !in c
    ensures Distinct(c + [x])
  {
  }

  lemma LinkedSnoc(next: seq<Ref>, prev: seq<Ref>, c: seq<Ref>, x: Ref)
    requires Linked(next, prev, c) && 0 <= x < |next| && x < |prev|
    requires c != [] ==> next[c[|c| - 1]] == x && prev[x] == c[|c| - 1]
    ensures Linked(next, prev, c + [x])
  {
    var s := c + [x];
    forall i | 0 <= i < |s| - 1
      ensures next[s[i]] == s[i + 1] && prev[s[i + 1]] == s[i]
    {
      assert s[i] == c[i];
    }
  }

  /** The links pr_append_piece writes put `x` at the end of the chain. */
  lemma HoldsAppend(next: seq<Ref>, prev: seq<Ref>, r: Range, c: seq<Ref>, x: Ref,
                    next': seq<Ref>, prev': seq<Ref>)
    requires Holds(next, prev, r, c) && 0 <= x < |next| && x < |prev| && x !in Bounded(r, c)
    requires 0 <= r.tail < |prev| && 0 <= prev[r.tail] < |next|
    requires next' == next[prev[r.tail] := x][x := r.tail]
    requires prev' == prev[r.tail := x][x := prev[r.tail]]
    ensures Holds(next', prev', r, c + [x])
  {
    HoldsFacts(next, prev, r, c);
    var before := prev[r.tail];
    assert x != r.head && x != r.tail && x !in c;
    forall i | 0 <= i < |c| - 1
      ensures next'[c[i]] == next[c[i]]
    {
      assert c[i] != c[|c| - 1];
    }
    LinkedFrame(next, prev, next', prev', c);
    LinkedSnoc(next', prev', c, x);
    DistinctSnoc(c, x);
    DistinctBounded(r, c + [x]);
    HoldsByEnds(next', prev', r, c + [x]);
  }

  /** The link of node `x` in table `s`, or Null for a node outside it. */
  function At(s: seq<Ref>, x: Ref): Ref
  {
    if 0 <= x < |s| then s[x] else Null
  }

  /** The first node of chain `c`, or `d` when `c` is empty. */
  function FirstOr(c: seq<Ref>, d: Ref): Ref
  {
    if c == [] then d else c[0]
  }

  /** The last node of chain `c`, or `d` when `c` is empty. */
  function LastOr(c: seq<Ref>, d: Ref): Ref
  {
    if c == [] then d else c[|c| - 1]
  }

  /** Exchanging two chains: once each sentinel points at the ends of the
      other range's chain, and those ends point back, while every other
      link is as it was, each range holds the other's chain. */
  lemma SwapHoldsByLinks(next: seq<Ref>, prev: seq<Ref>, pp: Range, cp: seq<Ref>, qq: Range, cq: seq<Ref>,
                  next': seq<Ref>, prev': seq<Ref>)
    requires Holds(next, prev, pp, cp) && Holds(next, prev, qq, cq)
    requires Disjoint(Bounded(pp, cp), Bounded(qq, cq))
    requires |next'| == |next| && |prev'| == |prev|
    requires At(next', pp.head) == FirstOr(cq, pp.tail) && At(prev', pp.tail) == LastOr(cq, pp.head)
    requires At(next', qq.head) == FirstOr(cp, qq.tail) && At(prev', qq.tail) == LastOr(cp, qq.head)
    requires cq != [] ==> At(prev', cq[0]) == pp.head && At(next', cq[|cq| - 1]) == pp.tail
    requires cp != [] ==> At(prev', cp[0]) == qq.head && At(next', cp[|cp| - 1]) == qq.tail
    requires forall y :: (0 <= y < |next| && y != pp.head && y != qq.head &&
                          y != LastOr(cq, pp.head) && y != LastOr(cp, qq.head)) ==>
               next'[y] == next[y]
    requires forall y :: (0 <= y < |prev| && y != pp.tail && y != qq.tail &&
                          y != FirstOr(cq, pp.tail) && y != FirstOr(cp, qq.tail)) ==>
               prev'[y] == prev[y]
    ensures Holds(next', prev', pp, cq) && Holds(next', prev', qq, cp)
  {
    HoldsFacts(next, prev, pp, cp);
    HoldsFacts(next, prev, qq, cq);
    EndsIn(pp, cp);
    EndsIn(qq, cq);
    MoveHolds(next, prev, next', prev', qq, cq, pp);
    MoveHolds(next, prev, next', prev', pp, cp, qq);
  }

  /** The sentinels and the chain ends of a range are among its nodes. */
  lemma EndsIn(r: Range, c: seq<Ref>)
    ensures r.head in Bounded(r, c) && r.tail in Bounded(r, c)
    ensures FirstOr(c, r.tail) in Bounded(r, c) && LastOr(c, r.head) in Bounded(r, c)
    ensures forall x :: x in c ==> x in Bounded(r, c)
  {
    assert c != [] ==> c[0] in c && c[|c| - 1] in c;
  }

  /** Chain `c`, held by `src`, is held by `dst` once `dst`'s sentinels and
      `c`'s ends point at each other and `c`'s inner links are kept. */
  lemma MoveHolds(next: seq<Ref>, prev: seq<Ref>, next': seq<Ref>, prev': seq<Ref>,
                  src: Range, c: seq<Ref>, dst: Range)
    requires Holds(next, prev, src, c) && |next'| == |next| && |prev'| == |prev|
    requires 0 <= dst.head < |next| && dst.head < |prev| && 0 <= dst.tail < |next| && dst.tail < |prev|
    requires dst.head != dst.tail && dst.head !in c && dst.tail !in c
    requires At(next', dst.head) == FirstOr(c, dst.tail) && At(prev', dst.tail) == LastOr(c, dst.head)
    requires c != [] ==> At(prev', c[0]) == dst.head && At(next', c[|c| - 1]) == dst.tail
    requires forall y :: (0 <= y < |next| && y in c && y != LastOr(c, dst.head)) ==> next'[y] == next[y]
    requires forall y :: (0 <= y < |prev| && y in c && y != FirstOr(c, dst.tail)) ==> prev'[y] == prev[y]
    ensures Holds(next', prev', dst, c)
  {
    HoldsFacts(next, prev, src, c);
    forall i | 0 <= i < |c| - 1
      ensures next'[c[i]] == next[c[i]]
    {
      assert c[i] in c && c[i] != c[|c| - 1];
    }
    forall i | 0 < i < |c|
      ensures prev'[c[i]] == prev[c[i]]
    {
      assert c[i] in c && c[i] != c[0];
    }
    LinkedFrame(next, prev, next', prev', c);
    DistinctBounded(dst, c);
    HoldsByEnds(next', prev', dst, c);
  }

  /** `s` with entry `x` set to `v`; unchanged when `x` is not an entry. */
  function Put(s: seq<Ref>, x: Ref, v: Ref): (s': seq<Ref>)
    ensures |s'| == |s|
  {
    if 0 <= x < |s| then s[x := v] else s
  }

  /** Writing the links of nodes at or above `n` keeps those below. */
  lemma PutBelow(s: seq<Ref>, x: Ref, v: Ref, n: nat)
    requires n <= |s| && (x < 0 || n <= x)
    ensures n <= |Put(s, x, v)| && Put(s, x, v)[..n] == s[..n]
  {
  }

  /** The forward links after exchanging the chains `cp` and `cq` of ranges
      `pp` and `qq`: each head points at the first node of the other chain
      (or its own tail), and that chain's last node points at the tail. */
  function SwappedNext(next: seq<Ref>, pp: Range, cp: seq<Ref>, qq: Range, cq: seq<Ref>): seq<Ref>
  {
    var n1 := Put(Put(next, pp.head, FirstOr(cq, pp.tail)), LastOr(cq, pp.head), pp.tail);
    Put(Put(n1, qq.head, FirstOr(cp, qq.tail)), LastOr(cp, qq.head), qq.tail)
  }

  /** The backward links after the same exchange. */
  function SwappedPrev(prev: seq<Ref>, pp: Range, cp: seq<Ref>, qq: Range, cq: seq<Ref>): seq<Ref>
  {
    var p1 := Put(Put(prev, pp.tail, LastOr(cq, pp.head)), FirstOr(cq, pp.tail), pp.head);
    Put(Put(p1, qq.tail, LastOr(cp, qq.head)), FirstOr(cp, qq.tail), qq.head)
  }

  /** After the exchange each range holds the other's chain. */
  lemma SwapHolds(next: seq<Ref>, prev: seq<Ref>, pp: Range, cp: seq<Ref>, qq: Range, cq: seq<Ref>)
    requires Holds(next, prev, pp, cp) && Holds(next, prev, qq, cq)
    requires Disjoint(Bounded(pp, cp), Bounded(qq, cq))
    ensures Holds(SwappedNext(next, pp, cp, qq, cq), SwappedPrev(prev, pp, cp, qq, cq), pp, cq)
    ensures Holds(SwappedNext(next, pp, cp, qq, cq), SwappedPrev(prev, pp, cp, qq, cq), qq, cp)
  {
    SwapEndsApart(next, prev, pp, cp, qq, cq);
    SwapLinksAt(next, prev, pp, cp, qq, cq);
    SwapHoldsByLinks(next, prev, pp, cp, qq, cq,
                     SwappedNext(next, pp, cp, qq, cq), SwappedPrev(prev, pp, cp, qq, cq));
  }

  /** The entries the exchange writes on one side are not those it writes
      on the other side. */
  ghost predicate EndsApart(pp: Range, cp: seq<Ref>, qq: Range, cq: seq<Ref>)
  {
    pp.head != qq.head && pp.head != LastOr(cp, qq.head) &&
    LastOr(cq, pp.head) != qq.head && LastOr(cq, pp.head) != LastOr(cp, qq.head) &&
    pp.tail != qq.tail && pp.tail != FirstOr(cp, qq.tail) &&
    FirstOr(cq, pp.tail) != qq.tail && FirstOr(cq, pp.tail) != FirstOr(cp, qq.tail)
  }

  lemma SwapEndsApart(next: seq<Ref>, prev: seq<Ref>, pp: Range, cp: seq<Ref>, qq: Range, cq: seq<Ref>)
    requires Holds(next, prev, pp, cp) && Holds(next, prev, qq, cq)
    requires Disjoint(Bounded(pp, cp), Bounded(qq, cq))
    ensures EndsApart(pp, cp, qq, cq)
    ensures cp != [] ==> cp[0] != qq.tail && cp[|cp| - 1] != qq.head
    ensures cq != [] ==> cq[0] != pp.tail && cq[|cq| - 1] != pp.head
    ensures forall x :: x in [pp.head, qq.head, LastOr(cq, pp.head), LastOr(cp, qq.head)] ==> 0 <= x < |next|
    ensures forall x :: x in [pp.tail, qq.tail, FirstOr(cq, pp.tail), FirstOr(cp, qq.tail)] ==> 0 <= x < |prev|
  {
    HoldsFacts(next, prev, pp, cp);
    HoldsFacts(next, prev, qq, cq);
    EndsIn(pp, cp);
    EndsIn(qq, cq);
    HoldsNodes(next, prev, pp, cp);
    HoldsNodes(next, prev, qq, cq);
  }

  /** Every node of a held range is an entry of both tables. */
  lemma HoldsNodes(next: seq<Ref>, prev: seq<Ref>, r: Range, c: seq<Ref>)
    requires Holds(next, prev, r, c)
    ensures forall x :: x in Bounded(r, c) ==> 0 <= x < |next| && x < |prev|
  {
  }

  /** What the exchanged tables hold at the entries it writes. */
  lemma SwapLinksAt(next: seq<Ref>, prev: seq<Ref>, pp: Range, cp: seq<Ref>, qq: Range, cq: seq<Ref>)
    requires EndsApart(pp, cp, qq, cq)
    requires cp != [] ==> cp[0] != qq.tail && cp[|cp| - 1] != qq.head
    requires cq != [] ==> cq[0] != pp.tail && cq[|cq| - 1] != pp.head
    requires forall x :: x in [pp.head, qq.head, LastOr(cq, pp.head), LastOr(cp, qq.head)] ==> 0 <= x < |next|
    requires forall x :: x in [pp.tail, qq.tail, FirstOr(cq, pp.tail), FirstOr(cp, qq.tail)] ==> 0 <= x < |prev|
    ensures var next', prev' := SwappedNext(next, pp, cp, qq, cq), SwappedPrev(prev, pp, cp, qq, cq);
      At(next', pp.head) == FirstOr(cq, pp.tail) && At(prev', pp.tail) == LastOr(cq, pp.head) &&
      At(next', qq.head) == FirstOr(cp, qq.tail) && At(prev', qq.tail) == LastOr(cp, qq.head) &&
      (cq != [] ==> At(prev', cq[0]) == pp.head && At(next', cq[|cq| - 1]) == pp.tail) &&
      (cp != [] ==> At(prev', cp[0]) == qq.head && At(next', cp[|cp| - 1]) == qq.tail)
  {
    assert pp.head in [pp.head, qq.head, LastOr(cq, pp.head), LastOr(cp, qq.head)];
    assert qq.head in [pp.head, qq.head, LastOr(cq, pp.head), LastOr(cp, qq.head)];
    assert LastOr(cq, pp.head) in [pp.head, qq.head, LastOr(cq, pp.head), LastOr(cp, qq.head)];
    assert LastOr(cp, qq.head) in [pp.head, qq.head, LastOr(cq, pp.head), LastOr(cp, qq.head)];
    assert pp.tail in [pp.tail, qq.tail, FirstOr(cq, pp.tail), FirstOr(cp, qq.tail)];
    assert qq.tail in [pp.tail, qq.tail, FirstOr(cq, pp.tail), FirstOr(cp, qq.tail)];
    assert FirstOr(cq, pp.tail) in [pp.tail, qq.tail, FirstOr(cq, pp.tail), FirstOr(cp, qq.tail)];
    assert FirstOr(cp, qq.tail) in [pp.tail, qq.tail, FirstOr(cq, pp.tail), FirstOr(cp, qq.tail)];
  }

  /** The exchange writes forward links only at the two heads and inside
      the two chains, and backward links only at the two tails and inside
      the two chains. */
  lemma SwapFrame(next: seq<Ref>, prev: seq<Ref>, pp: Range, cp: seq<Ref>, qq: Range, cq: seq<Ref>, x: Ref)
    ensures x != pp.head && x != qq.head && x !in cp && x !in cq ==>
              At(SwappedNext(next, pp, cp, qq, cq), x) == At(next, x)
    ensures x != pp.tail && x != qq.tail && x !in cp && x !in cq ==>
              At(SwappedPrev(prev, pp, cp, qq, cq), x) == At(prev, x)
  {
    assert cq != [] ==> cq[0] in cq && cq[|cq| - 1] in cq;
    assert cp != [] ==> cp[0] in cp && cp[|cp| - 1] in cp;
  }

  /** Nodes of neither range keep both links. */
  lemma SwapOutside(next: seq<Ref>, prev: seq<Ref>, pp: Range, cp: seq<Ref>, qq: Range, cq: seq<Ref>, x: Ref)
    requires x !in Bounded(pp, cp) && x !in Bounded(qq, cq)
    ensures At(SwappedNext(next, pp, cp, qq, cq), x) == At(next, x)
    ensures At(SwappedPrev(prev, pp, cp, qq, cq), x) == At(prev, x)
  {
    EndsIn(pp, cp);
    EndsIn(qq, cq);
    SwapFrame(next, prev, pp, cp, qq, cq, x);
  }

  /** The order in which pr_swap takes its two ranges does not matter. */
  lemma SwapSymmetric(next: seq<Ref>, prev: seq<Ref>, pp: Range, cp: seq<Ref>, qq: Range, cq: seq<Ref>)
    requires Holds(next, prev, pp, cp) && Holds(next, prev, qq, cq)
    requires Disjoint(Bounded(pp, cp), Bounded(qq, cq))
    ensures SwappedNext(next, pp, cp, qq, cq) == SwappedNext(next, qq, cq, pp, cp)
    ensures SwappedPrev(prev, pp, cp, qq, cq) == SwappedPrev(prev, qq, cq, pp, cp)
  {
    SwapEndsApart(next, prev, pp, cp, qq, cq);
    PutsCommute(next, pp.head, FirstOr(cq, pp.tail), LastOr(cq, pp.head), pp.tail,
                qq.head, FirstOr(cp, qq.tail), LastOr(cp, qq.head), qq.tail);
    PutsCommute(prev, pp.tail, LastOr(cq, pp.head), FirstOr(cq, pp.tail), pp.head,
                qq.tail, LastOr(cp, qq.head), FirstOr(cp, qq.tail), qq.head);
  }

  /** Exchanging the same two chains again restores every link. */
  lemma SwapTwice(next: seq<Ref>, prev: seq<Ref>, pp: Range, cp: seq<Ref>, qq: Range, cq: seq<Ref>)
    requires Holds(next, prev, pp, cp) && Holds(next, prev, qq, cq)
    requires Disjoint(Bounded(pp, cp), Bounded(qq, cq))
    ensures SwappedNext(SwappedNext(next, pp, cp, qq, cq), pp, cq, qq, cp) == next
    ensures SwappedPrev(SwappedPrev(prev, pp, cp, qq, cq), pp, cq, qq, cp) == prev
  {
    HoldsFacts(next, prev, pp, cp);
    HoldsFacts(next, prev, qq, cq);
    SwapEndsApart(next, prev, pp, cp, qq, cq);
    NextRestored(next, pp, cp, qq, cq);
    PrevRestored(prev, pp, cp, qq, cq);
  }

  lemma NextRestored(next: seq<Ref>, pp: Range, cp: seq<Ref>, qq: Range, cq: seq<Ref>)
    requires EndsApart(pp, cp, qq, cq)
    requires forall x :: x in [pp.head, qq.head, LastOr(cq, pp.head), LastOr(cp, qq.head)] ==> 0 <= x < |next|
    requires At(next, pp.head) == FirstOr(cp, pp.tail) && At(next, LastOr(cp, pp.head)) == pp.tail
    requires At(next, qq.head) == FirstOr(cq, qq.tail) && At(next, LastOr(cq, qq.head)) == qq.tail
    requires cq != [] ==> cq[|cq| - 1] != pp.head
    requires cp != [] ==> cp[|cp| - 1] != qq.head
    ensures SwappedNext(SwappedNext(next, pp, cp, qq, cq), pp, cq, qq, cp) == next
  {
    assert pp.head in [pp.head, qq.head, LastOr(cq, pp.head), LastOr(cp, qq.head)];
    assert qq.head in [pp.head, qq.head, LastOr(cq, pp.head), LastOr(cp, qq.head)];
    var n2 := SwappedNext(SwappedNext(next, pp, cp, qq, cq), pp, cq, qq, cp);
    forall x | 0 <= x < |next|
      ensures n2[x] == next[x]
    {
    }
  }

  lemma PrevRestored(prev: seq<Ref>, pp: Range, cp: seq<Ref>, qq: Range, cq: seq<Ref>)
    requires EndsApart(pp, cp, qq, cq)
    requires forall x :: x in [pp.tail, qq.tail, FirstOr(cq, pp.tail), FirstOr(cp, qq.tail)] ==> 0 <= x < |prev|
    requires At(prev, pp.tail) == LastOr(cp, pp.head) && At(prev, FirstOr(cp, pp.tail)) == pp.head
    requires At(prev, qq.tail) == LastOr(cq, qq.head) && At(prev, FirstOr(cq, qq.tail)) == qq.head
    requires cq != [] ==> cq[0] != pp.tail
    requires cp != [] ==> cp[0] != qq.tail
    ensures SwappedPrev(SwappedPrev(prev, pp, cp, qq, cq), pp, cq, qq, cp) == prev
  {
    assert pp.tail in [pp.tail, qq.tail, FirstOr(cq, pp.tail), FirstOr(cp, qq.tail)];
    assert qq.tail in [pp.tail, qq.tail, FirstOr(cq, pp.tail), FirstOr(cp, qq.tail)];
    var p2 := SwappedPrev(SwappedPrev(prev, pp, cp, qq, cq), pp, cq, qq, cp);
    forall x | 0 <= x < |prev|
      ensures p2[x] == prev[x]
    {
    }
  }

  /** Two pairs of writes to disjoint entries can be made in either order. */
  lemma PutsCommute(s: seq<Ref>, x1: Ref, v1: Ref, y1: Ref, w1: Ref, x2: Ref, v2: Ref, y2: Ref, w2: Ref)
    requires x1 != x2 && x1 != y2 && y1 != x2 && y1 != y2
    ensures Put(Put(Put(Put(s, x1, v1), y1, w1), x2, v2), y2, w2) ==
            Put(Put(Put(Put(s, x2, v2), y2, w2), x1, v1), y1, w1)
  {
    var n, m := Put(Put(Put(Put(s, x1, v1), y1, w1), x2, v2), y2, w2),
                Put(Put(Put(Put(s, x2, v2), y2, w2), x1, v1), y1, w1);
    forall i | 0 <= i < |n|
      ensures n[i] == m[i]
    {
    }
  }

  lemma DistinctSlice(s: seq<Ref>, i: nat, j: nat)
    requires Distinct(s) && i <= j <= |s|
    ensures Distinct(s[i..j])
  {
    forall k, l | 0 <= k < l < j - i
      ensures s[i..j][k] != s[i..j][l]
    {
      assert s[i..j][k] == s[i + k] && s[i..j][l] == s[i + l];
    }
  }

  /** The three parts of a sequence with distinct entries share no entry. */
  lemma DistinctParts(a: seq<Ref>, c: seq<Ref>, b: seq<Ref>)
    requires Distinct(a + c + b)
    ensures Distinct(a) && Distinct(c) && Distinct(b)
    ensures Disjoint(a, c) && Disjoint(a, b) && Disjoint(c, b)
  {
    var s := a + c + b;
    assert a == s[..|a|] && c == s[|a|..|a| + |c|] && b == s[|a| + |c|..];
    DistinctSlice(s, 0, |a|);
    DistinctSlice(s, |a|, |a| + |c|);
    DistinctSlice(s, |a| + |c|, |s|);
    forall i, j | 0 <= i < |a| && 0 <= j < |c|
      ensures a[i] != c[j]
    {
      assert s[i] == a[i] && s[|a| + j] == c[j];
    }
    forall i, j | 0 <= i < |a| && 0 <= j < |b|
      ensures a[i] != b[j]
    {
      assert s[i] == a[i] && s[|a| + |c| + j] == b[j];
    }
    forall i, j | 0 <= i < |c| && 0 <= j < |b|
      ensures c[i] != b[j]
    {
      assert s[|a| + i] == c[i] && s[|a| + |c| + j] == b[j];
    }
  }

  /** A part `c` of a held chain `a + c + b` is held by its neighbours, and
      all of that range's nodes are nodes of the outer range. */
  lemma HoldsInner(next: seq<Ref>, prev: seq<Ref>, r: Range, a: seq<Ref>, c: seq<Ref>, b: seq<Ref>)
    requires Holds(next, prev, r, a + c + b)
    ensures Holds(next, prev, Range(LastOr(a, r.head), FirstOr(b, r.tail)), c)
    ensures forall x :: x in Bounded(Range(LastOr(a, r.head), FirstOr(b, r.tail)), c) ==>
              x in Bounded(r, a + c + b)
  {
    var s := Bounded(r, a + c + b);
    var inner := Bounded(Range(LastOr(a, r.head), FirstOr(b, r.tail)), c);
    assert s == ([r.head] + a) + c + (b + [r.tail]);
    assert s[|a|..|a| + |c| + 2] == inner;
    LinkedSlice(next, prev, s, |a|, |a| + |c| + 2);
    DistinctSlice(s, |a|, |a| + |c| + 2);
    forall x | x in inner
      ensures x in s
    {
      var i :| 0 <= i < |inner| && inner[i] == x;
      assert s[|a| + i] == x;
    }
  }

  /** Replacing the part `c` of a held chain `a + c + b` by a chain `d`
      that the neighbours of `c` now hold gives a held chain `a + d + b`,
      provided the links of `a` and `b` away from the seam are unchanged. */
  lemma ReplaceHolds(next: seq<Ref>, prev: seq<Ref>, next': seq<Ref>, prev': seq<Ref>,
                     r: Range, a: seq<Ref>, c: seq<Ref>, d: seq<Ref>, b: seq<Ref>)
    requires Holds(next, prev, r, a + c + b)
    requires Holds(next', prev', Range(LastOr(a, r.head), FirstOr(b, r.tail)), d)
    requires Distinct(Bounded(r, a + d + b))
    requires |next'| == |next| && |prev'| == |prev|
    requires forall x :: x in [r.head] + a ==> At(prev', x) == At(prev, x)
    requires forall x :: x in [r.head] + a && x != LastOr(a, r.head) ==> At(next', x) == At(next, x)
    requires forall x :: x in b + [r.tail] ==> At(next', x) == At(next, x)
    requires forall x :: x in b + [r.tail] && x != FirstOr(b, r.tail) ==> At(prev', x) == At(prev, x)
    ensures Holds(next', prev', r, a + d + b)
  {
    var a', b' := [r.head] + a, b + [r.tail];
    OuterParts(next, prev, r, a, c, b);
    KeepLeft(next, prev, next', prev', a');
    KeepRight(next, prev, next', prev', b');
    LinkedGlue(next', prev', a', d, b');
    assert Bounded(r, a + d + b) == a' + d + b';
  }

  /** The parts of a held chain on either side of `c`, each with its sentinel. */
  lemma OuterParts(next: seq<Ref>, prev: seq<Ref>, r: Range, a: seq<Ref>, c: seq<Ref>, b: seq<Ref>)
    requires Holds(next, prev, r, a + c + b)
    ensures Linked(next, prev, [r.head] + a) && Distinct([r.head] + a)
    ensures Linked(next, prev, b + [r.tail]) && Distinct(b + [r.tail])
    ensures ([r.head] + a)[|a|] == LastOr(a, r.head) && (b + [r.tail])[0] == FirstOr(b, r.tail)
  {
    var s := Bounded(r, a + c + b);
    var a', b' := [r.head] + a, b + [r.tail];
    assert s == a' + c + b';
    assert s[..|a'|] == a' && s[|a'| + |c|..] == b';
    LinkedSlice(next, prev, s, 0, |a'|);
    LinkedSlice(next, prev, s, |a'| + |c|, |s|);
    DistinctSlice(s, 0, |a'|);
    DistinctSlice(s, |a'| + |c|, |s|);
  }

  /** A linked sequence stays linked when its nodes keep their backward
      links and all but the last keep their forward links. */
  lemma KeepLeft(next: seq<Ref>, prev: seq<Ref>, next': seq<Ref>, prev': seq<Ref>, s: seq<Ref>)
    requires Linked(next, prev, s) && Distinct(s) && |s| > 0
    requires |next'| == |next| && |prev'| == |prev|
    requires forall x :: x in s ==> At(prev', x) == At(prev, x)
    requires forall x :: x in s && x != s[|s| - 1] ==> At(next', x) == At(next, x)
    ensures Linked(next', prev', s)
  {
    forall i | 0 <= i < |s| - 1
      ensures next'[s[i]] == next[s[i]]
    {
      assert s[i] in s && s[i] != s[|s| - 1];
    }
    forall i | 0 < i < |s|
      ensures prev'[s[i]] == prev[s[i]]
    {
      assert s[i] in s;
    }
    LinkedFrame(next, prev, next', prev', s);
  }

  /** The mirror image: all nodes keep their forward links, all but the
      first their backward links. */
  lemma KeepRight(next: seq<Ref>, prev: seq<Ref>, next': seq<Ref>, prev': seq<Ref>, s: seq<Ref>)
    requires Linked(next, prev, s) && Distinct(s) && |s| > 0
    requires |next'| == |next| && |prev'| == |prev|
    requires forall x :: x in s ==> At(next', x) == At(next, x)
    requires forall x :: x in s && x != s[0] ==> At(prev', x) == At(prev, x)
    ensures Linked(next', prev', s)
  {
    forall i | 0 <= i < |s| - 1
      ensures next'[s[i]] == next[s[i]]
    {
      assert s[i] in s;
    }
    forall i | 0 < i < |s|
      ensures prev'[s[i]] == prev[s[i]]
    {
      assert s[i] in s && s[i] != s[0];
    }
    LinkedFrame(next, prev, next', prev', s);
  }

  /** A range whose nodes all keep their links keeps its chain. */
  lemma HoldsKept(next: seq<Ref>, prev: seq<Ref>, next': seq<Ref>, prev': seq<Ref>, r: Range, c: seq<Ref>)
    requires Holds(next, prev, r, c) && |next'| == |next| && |prev'| == |prev|
    requires forall x :: x in Bounded(r, c) ==> At(next', x) == At(next, x) && At(prev', x) == At(prev, x)
    ensures Holds(next', prev', r, c)
  {
    var s := Bounded(r, c);
    forall i | 0 <= i < |s| - 1
      ensures next'[s[i]] == s[i + 1] && prev'[s[i + 1]] == s[i]
    {
      assert s[i] in s && s[i + 1] in s;
    }
  }

  /** Allocating nodes at the end of the tables, without touching the links
      of existing nodes, keeps every chain. */
  lemma HoldsGrow(next: seq<Ref>, prev: seq<Ref>, next': seq<Ref>, prev': seq<Ref>, r: Range, c: seq<Ref>)
    requires Holds(next, prev, r, c) && next <= next' && prev <= prev'
    ensures Holds(next', prev', r, c)
  {
    var s := Bounded(r, c);
    forall i | 0 <= i < |s| - 1
      ensures next'[s[i]] == s[i + 1] && prev'[s[i + 1]] == s[i]
    {
      assert next'[s[i]] == next[s[i]] && prev'[s[i + 1]] == prev[s[i + 1]];
    }
  }

  /** Allocating one more node keeps every chain, and the new node is on
      none of them. */
  lemma GrowOne(next: seq<Ref>, prev: seq<Ref>, next': seq<Ref>, prev': seq<Ref>, r: Range, c: seq<Ref>)
    requires Holds(next, prev, r, c) && next' == next + [Null] && prev' == prev + [Null]
    ensures Holds(next', prev', r, c) && |next| !in Bounded(r, c)
  {
    HoldsNodes(next, prev, r, c);
    HoldsGrow(next, prev, next', prev', r, c);
  }

  /** Appending node `x` to a range whose nodes are all at or above `n`
      leaves the links of the nodes below `n` as they were. */
  lemma AppendBelow(next: seq<Ref>, prev: seq<Ref>, r: Range, c: seq<Ref>, x: Ref, n: nat)
    requires Holds(next, prev, r, c) && n <= |next| && n <= |prev| && n <= x
    requires forall y :: y in Bounded(r, c) ==> n <= y
    ensures Put(Put(next, At(prev, r.tail), x), x, r.tail)[..n] == next[..n]
    ensures Put(Put(prev, r.tail, x), x, At(prev, r.tail))[..n] == prev[..n]
  {
    HoldsFacts(next, prev, r, c);
    var before := At(prev, r.tail);
    assert before in Bounded(r, c) && r.tail in Bounded(r, c);
    PutBelow(next, before, x, n);
    PutBelow(Put(next, before, x), x, r.tail, n);
    PutBelow(prev, r.tail, x, n);
    PutBelow(Put(prev, r.tail, x), x, before, n);
  }
}
