// Counting nodes across several node sequences at once, and what "no node
// occurs twice" says about the individual sequences.

module Counts {
  import opened Links

  /** How many times node `x` occurs in the sequences `ss` together. */
  ghost function Count(ss: seq<seq<Ref>>, x: Ref): nat
    decreases |ss|
  {
    if |ss| == 0 then 0 else Occ(ss[0], x) + Count(ss[1..], x)
  }

  /** How many times node `x` occurs in `s`. */
  ghost function Occ(s: seq<Ref>, x: Ref): nat
    decreases |s|
  {
    if |s| == 0 then 0 else (if s[0] == x then 1 else 0) + Occ(s[1..], x)
  }

  lemma {:induction false} OccConcat(a: seq<Ref>, b: seq<Ref>, x: Ref)
    ensures Occ(a + b, x) == Occ(a, x) + Occ(b, x)
    decreases |a|
  {
    if |a| == 0 {
      assert a + b == b;
    } else {
      assert (a + b)[1..] == a[1..] + b;
      OccConcat(a[1..], b, x);
    }
  }

  lemma OccBounded(r: Range, c: seq<Ref>, x: Ref)
    ensures Occ(Bounded(r, c), x) == Occ([r.head], x) + Occ(c, x) + Occ([r.tail], x)
  {
    OccConcat([r.head] + c, [r.tail], x);
    OccConcat([r.head], c, x);
  }

  /** A node occurs in `s` exactly when it is counted there. */
  lemma {:induction false} OccIn(s: seq<Ref>, x: Ref)
    ensures x in s <==> Occ(s, x) > 0
    decreases |s|
  {
    if |s| > 0 {
      OccIn(s[1..], x);
      assert s == [s[0]] + s[1..];
    }
  }

  /** Two equal entries are counted twice. */
  lemma {:induction false} OccPair(s: seq<Ref>, i: nat, j: nat)
    requires i < j < |s| && s[i] == s[j]
    ensures Occ(s, s[i]) >= 2
    decreases i
  {
    assert s[1..][j - 1] == s[j];
    if i > 0 {
      assert s[1..][i - 1] == s[i];
      OccPair(s[1..], i - 1, j - 1);
    } else {
      OccIn(s[1..], s[j]);
    }
  }

  /** A sequence counting each node at most once has distinct entries. */
  lemma OnceDistinct(s: seq<Ref>)
    requires forall x :: Occ(s, x) <= 1
    ensures Distinct(s)
  {
    forall i, j | 0 <= i < j < |s|
      ensures s[i] != s[j]
    {
      if s[i] == s[j] {
        OccPair(s, i, j);
      }
    }
  }

  /** No node occurs twice in `ss`, inside one sequence or across two. */
  ghost predicate Unique(ss: seq<seq<Ref>>)
  {
    forall x :: Count(ss, x) <= 1
  }

  lemma {:induction false} CountAt(ss: seq<seq<Ref>>, j: nat, x: Ref)
    requires j < |ss|
    ensures Count(ss, x) >= Occ(ss[j], x)
  {
    if j > 0 {
      CountAt(ss[1..], j - 1, x);
      assert ss[1..][j - 1] == ss[j];
    }
  }

  lemma CountCons(s: seq<Ref>, ss: seq<seq<Ref>>, x: Ref)
    ensures Count([s] + ss, x) == Occ(s, x) + Count(ss, x)
  {
    assert ([s] + ss)[1..] == ss;
  }

  lemma {:induction false} CountConcat(ss: seq<seq<Ref>>, tt: seq<seq<Ref>>, x: Ref)
    ensures Count(ss + tt, x) == Count(ss, x) + Count(tt, x)
    decreases |ss|
  {
    if |ss| == 0 {
      assert ss + tt == tt;
    } else {
      CountConcat(ss[1..], tt, x);
      assert ss + tt == [ss[0]] + (ss[1..] + tt);
      CountCons(ss[0], ss[1..] + tt, x);
    }
  }

  lemma {:induction false} CountTwo(ss: seq<seq<Ref>>, i: nat, j: nat, x: Ref)
    requires i < |ss| && j < |ss| && i != j
    ensures Count(ss, x) >= Occ(ss[i], x) + Occ(ss[j], x)
  {
    if i == 0 {
      CountAt(ss[1..], j - 1, x);
      assert ss[1..][j - 1] == ss[j];
    } else if j == 0 {
      CountAt(ss[1..], i - 1, x);
      assert ss[1..][i - 1] == ss[i];
    } else {
      CountTwo(ss[1..], i - 1, j - 1, x);
      assert ss[1..][i - 1] == ss[i] && ss[1..][j - 1] == ss[j];
    }
  }

  /** Two different sequences of a unique family share no node ... */
  lemma UniqueApart(ss: seq<seq<Ref>>, i: nat, j: nat, x: Ref)
    requires Unique(ss) && i < |ss| && j < |ss| && i != j && x in ss[i]
    ensures x !in ss[j]
  {
    CountTwo(ss, i, j, x);
    OccIn(ss[i], x);
    OccIn(ss[j], x);
  }

  /** ... and each of them has distinct entries. */
  lemma UniquePart(ss: seq<seq<Ref>>, i: nat)
    requires Unique(ss) && i < |ss|
    ensures Distinct(ss[i])
  {
    forall x
      ensures Occ(ss[i], x) <= 1
    {
      CountAt(ss, i, x);
    }
    OnceDistinct(ss[i]);
  }

  /** A node in none of the sequences is counted zero times. */
  lemma {:induction false} CountZero(ss: seq<seq<Ref>>, x: Ref)
    requires forall i :: 0 <= i < |ss| ==> x !in ss[i]
    ensures Count(ss, x) == 0
    decreases |ss|
  {
    if |ss| > 0 {
      CountZero(ss[1..], x);
      OccIn(ss[0], x);
    }
  }

  /** A sequence with distinct entries holds each node at most once. */
  lemma {:induction false} DistinctOnce(s: seq<Ref>, x: Ref)
    requires Distinct(s)
    ensures Occ(s, x) <= 1
    decreases |s|
  {
    if |s| > 0 {
      assert Distinct(s[1..]) by {
        forall i, j | 0 <= i < j < |s| - 1
          ensures s[1..][i] != s[1..][j]
        {
          assert s[1..][i] == s[i + 1] && s[1..][j] == s[j + 1];
        }
      }
      DistinctOnce(s[1..], x);
      if s[0] == x {
        OccIn(s[1..], x);
        assert x !in s[1..] by {
          forall k | 0 <= k < |s| - 1
            ensures s[1..][k] != x
          {
            assert s[1..][k] == s[k + 1];
          }
        }
      }
    }
  }

  lemma UniqueSingle(s: seq<Ref>)
    requires Distinct(s)
    ensures Unique([s])
  {
    forall x
      ensures Count([s], x) <= 1
    {
      CountCons(s, [], x);
      DistinctOnce(s, x);
    }
  }

  /** Leaving sequences out keeps a family unique ... */
  lemma UniquePrefix(ss: seq<seq<Ref>>, tt: seq<seq<Ref>>)
    requires Unique(ss + tt)
    ensures Unique(ss)
  {
    forall x
      ensures Count(ss, x) <= 1
    {
      CountConcat(ss, tt, x);
    }
  }

  /** ... and so does reordering its last two groups. */
  lemma UniqueExchange(l: seq<seq<Ref>>, sa: seq<seq<Ref>>, sb: seq<seq<Ref>>)
    requires Unique(l + sa + sb)
    ensures Unique(l + sb + sa)
  {
    forall x
      ensures Count(l + sb + sa, x) <= 1
    {
      CountConcat(l + sa, sb, x);
      CountConcat(l, sa, x);
      CountConcat(l + sb, sa, x);
      CountConcat(l, sb, x);
    }
  }
}
