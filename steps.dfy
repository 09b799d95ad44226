// Applying the top change of a stack: what pr_swap does to the link
// invariant of the piece table, proved once for undo, redo and the commit
// of a fresh edit.

module Steps {
  import opened Links
  import opened Counts
  import opened History

  /** Applying the top change of stack `a`, that is exchanging the chains
      of its border and its stash, leaves a sound table whose live chain is
      the top edit's result, with the change popped from `a` and pushed,
      flipped, onto `b`. */
  lemma Step(next: seq<Ref>, prev: seq<Ref>, pieces: Range, live: seq<Ref>,
             a: seq<Change>, ea: seq<Edit>, oa: bool, b: seq<Change>, eb: seq<Edit>)
    requires Sound(next, prev, pieces, live, a, ea, oa, b, eb) && |a| > 0
    ensures Holds(next, prev, BorderOf(a[0], oa), ea[0].current)
    ensures Holds(next, prev, StashOf(a[0], oa), ea[0].stored)
    ensures Disjoint(Bounded(BorderOf(a[0], oa), ea[0].current), Bounded(StashOf(a[0], oa), ea[0].stored))
    ensures Sound(SwappedNext(next, BorderOf(a[0], oa), ea[0].current, StashOf(a[0], oa), ea[0].stored),
                  SwappedPrev(prev, BorderOf(a[0], oa), ea[0].current, StashOf(a[0], oa), ea[0].stored),
                  pieces, ea[0].Result(), a[1..], ea[1..], oa, [Flip(a[0])] + b, [ea[0].Reversed()] + eb)
  {
    var e, bd, st := ea[0], BorderOf(a[0], oa), StashOf(a[0], oa);
    StepEntry(next, prev, pieces, live, a, ea, oa, b, eb);
    var next', prev' := SwappedNext(next, bd, e.current, st, e.stored), SwappedPrev(prev, bd, e.current, st, e.stored);
    StepCount(pieces, live, a, ea, oa, b, eb);
    PartsAt(pieces, e.Result(), a[1..], ea[1..], oa, [Flip(a[0])] + b, [e.Reversed()] + eb);
    UniquePart(Parts(pieces, e.Result(), a[1..], ea[1..], oa, [Flip(a[0])] + b, [e.Reversed()] + eb), 0);
    StepLive(next, prev, pieces, e, st, next', prev');
    forall x | x !in Bounded(pieces, live) && x !in Bounded(st, e.stored)
      ensures At(next', x) == At(next, x) && At(prev', x) == At(prev, x)
    {
      SwapOutside(next, prev, bd, e.current, st, e.stored, x);
    }
    StepRest(next, prev, pieces, live, a, ea, oa, b, eb, next', prev');
    OthersKept(next, prev, pieces, live, a, ea, oa, b, eb, next', prev');
    LiveInArena(next, prev, pieces, live);
    StepOther(next, prev, pieces, live, a[0], e, oa, b, eb, next', prev');
  }

  /** Where each stash sits in the list of tracked node sequences. */
  lemma PartsAt(pieces: Range, live: seq<Ref>, a: seq<Change>, ea: seq<Edit>, oa: bool,
                b: seq<Change>, eb: seq<Edit>)
    requires |a| == |ea| && |b| == |eb|
    ensures var ps := Parts(pieces, live, a, ea, oa, b, eb);
      |ps| == 1 + |a| + |b| && ps[0] == Bounded(pieces, live) &&
      (forall i :: 0 <= i < |a| ==> ps[1 + i] == Bounded(StashOf(a[i], oa), ea[i].stored)) &&
      (forall i :: 0 <= i < |b| ==> ps[1 + |a| + i] == Bounded(StashOf(b[i], !oa), eb[i].stored))
  {
  }

  /** Before the exchange: the border holds the top edit's current chain,
      the stash its stored chain, and the two share no node. */
  lemma StepEntry(next: seq<Ref>, prev: seq<Ref>, pieces: Range, live: seq<Ref>,
                  a: seq<Change>, ea: seq<Edit>, oa: bool, b: seq<Change>, eb: seq<Edit>)
    requires Sound(next, prev, pieces, live, a, ea, oa, b, eb) && |a| > 0
    ensures live == ea[0].Live() && BorderOf(a[0], oa) == ea[0].Border(pieces)
    ensures Holds(next, prev, ea[0].Border(pieces), ea[0].current)
    ensures forall x :: x in Bounded(ea[0].Border(pieces), ea[0].current) ==> x in Bounded(pieces, live)
    ensures Holds(next, prev, StashOf(a[0], oa), ea[0].stored)
    ensures forall x :: x in Bounded(pieces, live) ==> x !in Bounded(StashOf(a[0], oa), ea[0].stored)
    ensures Disjoint(Bounded(ea[0].Border(pieces), ea[0].current), Bounded(StashOf(a[0], oa), ea[0].stored))
  {
    var e := ea[0];
    assert Recorded(next, prev, pieces, live, a, ea, oa);
    assert e.Live() == live;
    HoldsInner(next, prev, pieces, e.prefix, e.current, e.suffix);
    var ps := Parts(pieces, live, a, ea, oa, b, eb);
    PartsAt(pieces, live, a, ea, oa, b, eb);
    forall x | x in Bounded(pieces, live)
      ensures x !in Bounded(StashOf(a[0], oa), e.stored)
    {
      UniqueApart(ps, 0, 1, x);
    }
  }

  /** After the exchange the live range holds the top edit's result, the
      stash holds the chain it replaced, and the tail sentinel still ends
      the node list. */
  lemma StepLive(next: seq<Ref>, prev: seq<Ref>, pieces: Range, e: Edit, stash: Range,
                 next': seq<Ref>, prev': seq<Ref>)
    requires Holds(next, prev, pieces, e.Live()) && Holds(next, prev, stash, e.stored)
    requires forall x :: x in Bounded(pieces, e.Live()) ==> x !in Bounded(stash, e.stored)
    requires next' == SwappedNext(next, e.Border(pieces), e.current, stash, e.stored)
    requires prev' == SwappedPrev(prev, e.Border(pieces), e.current, stash, e.stored)
    requires Distinct(Bounded(pieces, e.Result()))
    ensures Holds(next', prev', pieces, e.Result())
    ensures Holds(next', prev', stash, e.current)
    ensures At(next', pieces.tail) == At(next, pieces.tail)
  {
    var bd, cur, st := e.Border(pieces), e.current, e.stored;
    HoldsInner(next, prev, pieces, e.prefix, cur, e.suffix);
    SwapHolds(next, prev, bd, cur, stash, st);
    var a', b' := [pieces.head] + e.prefix, e.suffix + [pieces.tail];
    assert Bounded(pieces, e.Live()) == a' + cur + b';
    HoldsFacts(next, prev, pieces, e.Live());
    DistinctParts(a', cur, b');
    EndsIn(stash, st);
    assert bd.head == a'[|a'| - 1] && bd.tail == b'[0];
    forall x | x in a'
      ensures At(prev', x) == At(prev, x)
      ensures x != LastOr(e.prefix, pieces.head) ==> At(next', x) == At(next, x)
    {
      assert x in Bounded(pieces, e.Live());
      SwapFrame(next, prev, bd, cur, stash, st, x);
    }
    forall x | x in b'
      ensures At(next', x) == At(next, x)
      ensures x != FirstOr(e.suffix, pieces.tail) ==> At(prev', x) == At(prev, x)
    {
      assert x in Bounded(pieces, e.Live());
      SwapFrame(next, prev, bd, cur, stash, st, x);
    }
    ReplaceHolds(next, prev, next', prev', pieces, e.prefix, cur, st, e.suffix);
    assert pieces.tail in b';
  }

  /** The exchange moves nodes between the live range and the stash without
      counting any node twice. */
  lemma StepCount(pieces: Range, live: seq<Ref>, a: seq<Change>, ea: seq<Edit>, oa: bool,
                  b: seq<Change>, eb: seq<Edit>)
    requires |a| == |ea| > 0 && |b| == |eb| && ea[0].Live() == live
    requires Unique(Parts(pieces, live, a, ea, oa, b, eb))
    ensures Unique(Parts(pieces, ea[0].Result(), a[1..], ea[1..], oa, [Flip(a[0])] + b, [ea[0].Reversed()] + eb))
  {
    var e := ea[0];
    var stash := StashOf(a[0], oa);
    FlipKeepsRoles(a[0], oa);
    var l, l' := Bounded(pieces, live), Bounded(pieces, e.Result());
    var s0, s0' := Bounded(stash, e.stored), Bounded(stash, e.current);
    var sa', sb := Stashes(a[1..], ea[1..], oa), Stashes(b, eb, !oa);
    StashesSplit(a, ea, oa);
    StashesPush(Flip(a[0]), e.Reversed(), b, eb, !oa);
    forall x
      ensures Count(Parts(pieces, e.Result(), a[1..], ea[1..], oa, [Flip(a[0])] + b, [e.Reversed()] + eb), x) <= 1
    {
      ExchangeCounts(pieces, e, stash, x);
      assert Count([l] + ([s0] + sa') + sb, x) <= 1;
      CountMove(l, s0, l', s0', sa', sb, x);
    }
  }

  lemma StashesSplit(a: seq<Change>, ea: seq<Edit>, oa: bool)
    requires |a| == |ea| > 0
    ensures Stashes(a, ea, oa) == [Bounded(StashOf(a[0], oa), ea[0].stored)] + Stashes(a[1..], ea[1..], oa)
  {
  }

  lemma StashesPush(ch: Change, e: Edit, b: seq<Change>, eb: seq<Edit>, o: bool)
    requires |b| == |eb|
    ensures Stashes([ch] + b, [e] + eb, o) == [Bounded(StashOf(ch, o), e.stored)] + Stashes(b, eb, o)
  {
  }

  /** The live range and the stash hold, between them, the same nodes
      before and after the exchange. */
  lemma ExchangeCounts(pieces: Range, e: Edit, stash: Range, x: Ref)
    ensures Occ(Bounded(pieces, e.Live()), x) + Occ(Bounded(stash, e.stored), x) ==
            Occ(Bounded(pieces, e.Result()), x) + Occ(Bounded(stash, e.current), x)
  {
    OccBounded(pieces, e.Live(), x);
    OccBounded(pieces, e.Result(), x);
    OccBounded(stash, e.stored, x);
    OccBounded(stash, e.current, x);
    OccConcat(e.prefix + e.current, e.suffix, x);
    OccConcat(e.prefix, e.current, x);
    OccConcat(e.prefix + e.stored, e.suffix, x);
    OccConcat(e.prefix, e.stored, x);
  }

  lemma CountMove(l: seq<Ref>, s0: seq<Ref>, l': seq<Ref>, s0': seq<Ref>,
                  sa: seq<seq<Ref>>, sb: seq<seq<Ref>>, x: Ref)
    requires Occ(l, x) + Occ(s0, x) == Occ(l', x) + Occ(s0', x)
    ensures Count([l'] + sa + ([s0'] + sb), x) == Count([l] + ([s0] + sa) + sb, x)
  {
    var rest := Count(sa, x) + Count(sb, x);
    assert Count([l'] + sa + ([s0'] + sb), x) == Occ(l', x) + Occ(s0', x) + rest by {
      CountConcat([l'] + sa, [s0'] + sb, x);
      CountCons(l', sa, x);
      CountCons(s0', sb, x);
    }
    assert Count([l] + ([s0] + sa) + sb, x) == Occ(l, x) + Occ(s0, x) + rest by {
      CountConcat([l] + ([s0] + sa), sb, x);
      CountCons(l, [s0] + sa, x);
      CountCons(s0, sa, x);
    }
  }

  /** A stash other than the first two tracked sequences keeps its chain
      when only nodes of those two change links. */
  lemma StashKept(next: seq<Ref>, prev: seq<Ref>, next': seq<Ref>, prev': seq<Ref>,
                  ps: seq<seq<Ref>>, j: nat, r: Range, c: seq<Ref>)
    requires Unique(ps) && 1 < j < |ps| && ps[j] == Bounded(r, c) && Holds(next, prev, r, c)
    requires |next'| == |next| && |prev'| == |prev|
    requires forall x :: x !in ps[0] && x !in ps[1] ==> At(next', x) == At(next, x) && At(prev', x) == At(prev, x)
    ensures Holds(next', prev', r, c)
  {
    forall x | x in Bounded(r, c)
      ensures At(next', x) == At(next, x) && At(prev', x) == At(prev, x)
    {
      UniqueApart(ps, j, 0, x);
      UniqueApart(ps, j, 1, x);
    }
    HoldsKept(next, prev, next', prev', r, c);
  }

  /** The changes below the applied one keep their stashes. */
  lemma StepRest(next: seq<Ref>, prev: seq<Ref>, pieces: Range, live: seq<Ref>,
                 a: seq<Change>, ea: seq<Edit>, oa: bool, b: seq<Change>, eb: seq<Edit>,
                 next': seq<Ref>, prev': seq<Ref>)
    requires Sound(next, prev, pieces, live, a, ea, oa, b, eb) && |a| > 0
    requires |next'| == |next| && |prev'| == |prev|
    requires forall x :: x !in Bounded(pieces, live) && x !in Bounded(StashOf(a[0], oa), ea[0].stored) ==>
               At(next', x) == At(next, x) && At(prev', x) == At(prev, x)
    ensures Recorded(next', prev', pieces, ea[0].Result(), a[1..], ea[1..], oa)
  {
    var ps := Parts(pieces, live, a, ea, oa, b, eb);
    PartsAt(pieces, live, a, ea, oa, b, eb);
    StashesKept(next, prev, next', prev', ps, a, ea, oa);
    RecordedRest(next, prev, next', prev', pieces, live, a, ea, oa);
  }

  /** The stashes below the top one keep their chains. */
  lemma StashesKept(next: seq<Ref>, prev: seq<Ref>, next': seq<Ref>, prev': seq<Ref>,
                    ps: seq<seq<Ref>>, a: seq<Change>, ea: seq<Edit>, oa: bool)
    requires Unique(ps) && |a| == |ea| && |ps| > |a| > 0
    requires |next'| == |next| && |prev'| == |prev|
    requires forall i :: 1 <= i < |a| ==>
               ps[1 + i] == Bounded(StashOf(a[i], oa), ea[i].stored) &&
               Holds(next, prev, StashOf(a[i], oa), ea[i].stored)
    requires forall x :: x !in ps[0] && x !in ps[1] ==> At(next', x) == At(next, x) && At(prev', x) == At(prev, x)
    ensures forall i :: 1 <= i < |a| ==> Holds(next', prev', StashOf(a[i], oa), ea[i].stored)
  {
    forall i | 1 <= i < |a|
      ensures Holds(next', prev', StashOf(a[i], oa), ea[i].stored)
    {
      StashKept(next, prev, next', prev', ps, 1 + i, StashOf(a[i], oa), ea[i].stored);
    }
  }

  /** Popping the top change keeps a stack recorded, from the top edit's
      result, once the stashes below the top are known to be kept. */
  lemma RecordedRest(next: seq<Ref>, prev: seq<Ref>, next': seq<Ref>, prev': seq<Ref>,
                     pieces: Range, live: seq<Ref>, a: seq<Change>, ea: seq<Edit>, oa: bool)
    requires Recorded(next, prev, pieces, live, a, ea, oa) && |a| > 0 && |next'| == |next|
    requires forall i :: 1 <= i < |a| ==> Holds(next', prev', StashOf(a[i], oa), ea[i].stored)
    ensures Recorded(next', prev', pieces, ea[0].Result(), a[1..], ea[1..], oa)
  {
    var a', ea' := a[1..], ea[1..];
    if |ea'| > 0 {
      assert ea'[0] == ea[1];
    }
    forall i | 0 <= i < |ea'|
      ensures InArena(ea'[i].Result(), |next'|)
      ensures BorderOf(a'[i], oa) == ea'[i].Border(pieces)
      ensures Holds(next', prev', StashOf(a'[i], oa), ea'[i].stored)
    {
      assert a'[i] == a[i + 1] && ea'[i] == ea[i + 1];
    }
  }

  /** The other stack keeps its stashes. */
  lemma OthersKept(next: seq<Ref>, prev: seq<Ref>, pieces: Range, live: seq<Ref>,
                   a: seq<Change>, ea: seq<Edit>, oa: bool, b: seq<Change>, eb: seq<Edit>,
                   next': seq<Ref>, prev': seq<Ref>)
    requires Sound(next, prev, pieces, live, a, ea, oa, b, eb) && |a| > 0
    requires |next'| == |next| && |prev'| == |prev|
    requires forall x :: x !in Bounded(pieces, live) && x !in Bounded(StashOf(a[0], oa), ea[0].stored) ==>
               At(next', x) == At(next, x) && At(prev', x) == At(prev, x)
    ensures forall i :: 0 <= i < |b| ==> Holds(next', prev', StashOf(b[i], !oa), eb[i].stored)
  {
    var ps := Parts(pieces, live, a, ea, oa, b, eb);
    PartsAt(pieces, live, a, ea, oa, b, eb);
    forall i | 0 <= i < |b|
      ensures Holds(next', prev', StashOf(b[i], !oa), eb[i].stored)
    {
      StashKept(next, prev, next', prev', ps, 1 + |a| + i, StashOf(b[i], !oa), eb[i].stored);
    }
  }

  /** The other stack records the applied change, flipped, on top. */
  lemma StepOther(next: seq<Ref>, prev: seq<Ref>, pieces: Range, live: seq<Ref>,
                  ch: Change, e: Edit, oa: bool, b: seq<Change>, eb: seq<Edit>,
                  next': seq<Ref>, prev': seq<Ref>)
    requires Recorded(next, prev, pieces, live, b, eb, !oa)
    requires e.Live() == live && InArena(live, |next|) && |next'| == |next|
    requires BorderOf(ch, oa) == e.Border(pieces)
    requires Holds(next', prev', StashOf(ch, oa), e.current)
    requires forall i :: 0 <= i < |b| ==> Holds(next', prev', StashOf(b[i], !oa), eb[i].stored)
    ensures Recorded(next', prev', pieces, e.Result(), [Flip(ch)] + b, [e.Reversed()] + eb, !oa)
  {
    FlipKeepsRoles(ch, oa);
    var b', eb' := [Flip(ch)] + b, [e.Reversed()] + eb;
    assert eb'[1..] == eb;
    forall i | 0 <= i < |eb'|
      ensures InArena(eb'[i].Result(), |next'|)
      ensures BorderOf(b'[i], !oa) == eb'[i].Border(pieces)
      ensures Holds(next', prev', StashOf(b'[i], !oa), eb'[i].stored)
    {
      if i > 0 {
        assert b'[i] == b[i - 1] && eb'[i] == eb[i - 1];
      }
    }
  }

  /** Every node of the live chain is a node of the arena. */
  lemma LiveInArena(next: seq<Ref>, prev: seq<Ref>, pieces: Range, live: seq<Ref>)
    requires Holds(next, prev, pieces, live)
    ensures InArena(live, |next|)
  {
    HoldsNodes(next, prev, pieces, live);
    assert forall i :: 0 <= i < |live| ==> live[i] in Bounded(pieces, live);
  }

  /** The invariant does not depend on which stack is called `a`. */
  lemma SoundSwap(next: seq<Ref>, prev: seq<Ref>, pieces: Range, live: seq<Ref>,
                  a: seq<Change>, ea: seq<Edit>, oa: bool, b: seq<Change>, eb: seq<Edit>)
    requires Sound(next, prev, pieces, live, a, ea, oa, b, eb)
    ensures Sound(next, prev, pieces, live, b, eb, !oa, a, ea)
  {
    var l, sa, sb := [Bounded(pieces, live)], Stashes(a, ea, oa), Stashes(b, eb, !oa);
    assert Stashes(a, ea, !!oa) == sa;
    UniqueExchange(l, sa, sb);
  }

  /** Forgetting stack `b` (pt_free_redo_stack) keeps the invariant. */
  lemma DropOther(next: seq<Ref>, prev: seq<Ref>, pieces: Range, live: seq<Ref>,
                  a: seq<Change>, ea: seq<Edit>, oa: bool, b: seq<Change>, eb: seq<Edit>)
    requires Sound(next, prev, pieces, live, a, ea, oa, b, eb)
    ensures Sound(next, prev, pieces, live, a, ea, oa, [], [])
  {
    var l, sa, sb := [Bounded(pieces, live)], Stashes(a, ea, oa), Stashes(b, eb, !oa);
    assert Stashes([], [], !oa) == [] && l + sa + [] == l + sa;
    UniquePrefix(l + sa, sb);
  }

  lemma RecordedGrow(next: seq<Ref>, prev: seq<Ref>, next': seq<Ref>, prev': seq<Ref>,
                     pieces: Range, live: seq<Ref>, stack: seq<Change>, es: seq<Edit>, o: bool)
    requires Recorded(next, prev, pieces, live, stack, es, o) && next <= next' && prev <= prev'
    ensures Recorded(next', prev', pieces, live, stack, es, o)
  {
    forall i | 0 <= i < |es|
      ensures InArena(es[i].Result(), |next'|)
      ensures Holds(next', prev', StashOf(stack[i], o), es[i].stored)
    {
      HoldsGrow(next, prev, next', prev', StashOf(stack[i], o), es[i].stored);
    }
  }

  /** Allocating nodes, without touching the links of existing ones, keeps
      the invariant. */
  lemma SoundGrow(next: seq<Ref>, prev: seq<Ref>, next': seq<Ref>, prev': seq<Ref>,
                  pieces: Range, live: seq<Ref>,
                  a: seq<Change>, ea: seq<Edit>, oa: bool, b: seq<Change>, eb: seq<Edit>)
    requires Sound(next, prev, pieces, live, a, ea, oa, b, eb)
    requires |next'| == |prev'| && next <= next' && prev <= prev'
    ensures Sound(next', prev', pieces, live, a, ea, oa, b, eb)
  {
    HoldsGrow(next, prev, next', prev', pieces, live);
    HoldsFacts(next, prev, pieces, live);
    RecordedGrow(next, prev, next', prev', pieces, live, a, ea, oa);
    RecordedGrow(next, prev, next', prev', pieces, live, b, eb, !oa);
  }

  /** Every node the invariant tracks is an existing node. */
  lemma PartsInArena(next: seq<Ref>, prev: seq<Ref>, pieces: Range, live: seq<Ref>,
                     a: seq<Change>, ea: seq<Edit>, oa: bool, b: seq<Change>, eb: seq<Edit>, x: Ref)
    requires Sound(next, prev, pieces, live, a, ea, oa, b, eb) && x >= |next|
    ensures forall i :: 0 <= i < |Parts(pieces, live, a, ea, oa, b, eb)| ==>
              x !in Parts(pieces, live, a, ea, oa, b, eb)[i]
  {
    PartsAt(pieces, live, a, ea, oa, b, eb);
    HoldsNodes(next, prev, pieces, live);
    forall i | 0 <= i < |a|
      ensures x !in Bounded(StashOf(a[i], oa), ea[i].stored)
    {
      HoldsNodes(next, prev, StashOf(a[i], oa), ea[i].stored);
    }
    forall i | 0 <= i < |b|
      ensures x !in Bounded(StashOf(b[i], !oa), eb[i].stored)
    {
      HoldsNodes(next, prev, StashOf(b[i], !oa), eb[i].stored);
    }
  }

  /** A pending edit whose replacement chain is built from fresh nodes,
      held by a fresh range, can be treated as the top of a stack that is
      about to be applied. */
  lemma Extend(next: seq<Ref>, prev: seq<Ref>, next': seq<Ref>, prev': seq<Ref>,
               pieces: Range, live: seq<Ref>, u: seq<Change>, eu: seq<Edit>, stash: Range, e: Edit)
    requires Sound(next, prev, pieces, live, [], [], false, u, eu)
    requires |next'| == |prev'| && next <= next' && prev <= prev'
    requires Holds(next', prev', stash, e.stored)
    requires forall x :: x in Bounded(stash, e.stored) ==> x >= |next|
    requires e.Live() == live
    ensures Sound(next', prev', pieces, live, [Change(e.Border(pieces), stash)], [e], false, u, eu)
  {
    SoundGrow(next, prev, next', prev', pieces, live, [], [], false, u, eu);
    ExtendRecorded(next', prev', pieces, live, stash, e);
    var s := Bounded(stash, e.stored);
    var l, su := [Bounded(pieces, live)], Stashes(u, eu, true);
    assert Stashes([Change(e.Border(pieces), stash)], [e], false) == [s];
    assert Parts(pieces, live, [], [], false, u, eu) == l + [] + su;
    assert l + [] + su == l + su;
    HoldsFacts(next', prev', stash, e.stored);
    forall x | x >= |next|
      ensures Count(l + su, x) == 0
    {
      PartsInArena(next, prev, pieces, live, [], [], false, u, eu, x);
      CountZero(l + su, x);
    }
    ExtendUnique(l, su, s, |next|);
  }

  /** The pending edit, on its own, is recorded from the live chain. */
  lemma ExtendRecorded(next: seq<Ref>, prev: seq<Ref>, pieces: Range, live: seq<Ref>, stash: Range, e: Edit)
    requires Holds(next, prev, pieces, live) && Holds(next, prev, stash, e.stored) && e.Live() == live
    ensures Recorded(next, prev, pieces, live, [Change(e.Border(pieces), stash)], [e], false)
  {
    LiveInArena(next, prev, pieces, live);
    HoldsNodes(next, prev, stash, e.stored);
    var r := e.Result();
    forall i | 0 <= i < |r|
      ensures 0 <= r[i] < |next|
    {
      var k := |e.prefix| + |e.stored|;
      if i < |e.prefix| {
        assert r[i] == live[i];
      } else if i < k {
        assert r[i] == e.stored[i - |e.prefix|] && r[i] in Bounded(stash, e.stored);
      } else {
        assert r[i] == live[i - |e.stored| + |e.current|];
      }
    }
  }

  /** Adding a sequence of distinct fresh nodes to a unique family of
      sequences of older nodes keeps it unique. */
  lemma ExtendUnique(l: seq<seq<Ref>>, su: seq<seq<Ref>>, s: seq<Ref>, n: int)
    requires Unique(l + su) && Distinct(s) && forall x :: x in s ==> x >= n
    requires forall x :: x >= n ==> Count(l + su, x) == 0
    ensures Unique(l + [s] + su)
  {
    forall x
      ensures Count(l + [s] + su, x) <= 1
    {
      assert l + [s] + su == l + ([s] + su);
      CountConcat(l, [s] + su, x);
      CountCons(s, su, x);
      CountConcat(l, su, x);
      DistinctOnce(s, x);
      if x < n {
        OccIn(s, x);
      }
    }
  }

  /** pt_insert and pt_delete: building the replacement chain in a fresh
      range, exchanging it with the replaced part of the live chain, saving
      the change and freeing the redo stack leaves a sound table whose live
      chain is the edit's result and whose undo stack has the change on top. */
  lemma Commit(next: seq<Ref>, prev: seq<Ref>, next': seq<Ref>, prev': seq<Ref>,
               pieces: Range, live: seq<Ref>, u: seq<Change>, eu: seq<Edit>, r: seq<Change>, er: seq<Edit>,
               stash: Range, e: Edit)
    requires Sound(next, prev, pieces, live, u, eu, true, r, er)
    requires |next'| == |prev'| && next <= next' && prev <= prev'
    requires Holds(next', prev', stash, e.stored)
    requires forall x :: x in Bounded(stash, e.stored) ==> x >= |next|
    requires e.Live() == live
    ensures Holds(next', prev', e.Border(pieces), e.current)
    ensures Disjoint(Bounded(stash, e.stored), Bounded(e.Border(pieces), e.current))
    ensures Sound(SwappedNext(next', stash, e.stored, e.Border(pieces), e.current),
                  SwappedPrev(prev', stash, e.stored, e.Border(pieces), e.current),
                  pieces, e.Result(), [Change(stash, e.Border(pieces))] + u, [e.Reversed()] + eu, true, [], [])
  {
    DropOther(next, prev, pieces, live, u, eu, true, r, er);
    SoundSwap(next, prev, pieces, live, u, eu, true, [], []);
    Extend(next, prev, next', prev', pieces, live, u, eu, stash, e);
    var bd := e.Border(pieces);
    var vch := Change(bd, stash);
    Step(next', prev', pieces, live, [vch], [e], false, u, eu);
    assert [vch][1..] == [] && [e][1..] == [];
    var n2, p2 := SwappedNext(next', bd, e.current, stash, e.stored), SwappedPrev(prev', bd, e.current, stash, e.stored);
    SoundSwap(n2, p2, pieces, e.Result(), [], [], false, [Flip(vch)] + u, [e.Reversed()] + eu);
    SwapSymmetric(next', prev', bd, e.current, stash, e.stored);
    forall x | x in Bounded(stash, e.stored)
      ensures x !in Bounded(bd, e.current)
    {
    }
  }

  /** pt_redo: the top change of the redo stack is applied with its `old`
      range (the stash) first, which exchanges the same two chains. */
  lemma RedoStep(next: seq<Ref>, prev: seq<Ref>, pieces: Range, live: seq<Ref>,
                 u: seq<Change>, eu: seq<Edit>, r: seq<Change>, er: seq<Edit>)
    requires Sound(next, prev, pieces, live, u, eu, true, r, er) && |r| > 0
    ensures Holds(next, prev, r[0].oldRange, er[0].stored) && Holds(next, prev, r[0].newRange, er[0].current)
    ensures Disjoint(Bounded(r[0].oldRange, er[0].stored), Bounded(r[0].newRange, er[0].current))
    ensures Sound(SwappedNext(next, r[0].oldRange, er[0].stored, r[0].newRange, er[0].current),
                  SwappedPrev(prev, r[0].oldRange, er[0].stored, r[0].newRange, er[0].current),
                  pieces, er[0].Result(), [Flip(r[0])] + u, [er[0].Reversed()] + eu, true, r[1..], er[1..])
  {
    SoundSwap(next, prev, pieces, live, u, eu, true, r, er);
    Step(next, prev, pieces, live, r, er, false, u, eu);
    var bd, st, e := r[0].newRange, r[0].oldRange, er[0];
    SwapSymmetric(next, prev, bd, e.current, st, e.stored);
    SoundSwap(SwappedNext(next, bd, e.current, st, e.stored), SwappedPrev(prev, bd, e.current, st, e.stored),
              pieces, e.Result(), r[1..], er[1..], false, [Flip(r[0])] + u, [e.Reversed()] + eu);
    forall x | x in Bounded(st, e.stored)
      ensures x !in Bounded(bd, e.current)
    {
    }
  }
}
