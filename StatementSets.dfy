/**
  Ordered, duplicate-free statement sets.

  The explanation search works on sets of constraints whose iteration order is
  insertion order (Java `LinkedHashSet`, and the views built by Guava's
  `Sets.union`). The order decides how a set is halved and therefore which of
  several minimal explanations is returned, so a set is modelled as a `seq`
  without duplicates rather than as a Dafny `set`.
 */
module StatementSets {

  /** No statement occurs twice: the invariant of every set the algorithm builds. */
  predicate NoDup<T(==)>(s: seq<T>) {
    forall i, j :: 0 <= i < j < |s| ==> s[i] != s[j]
  }

  /** The statements of `s`, forgetting their order. */
  function Elems<T>(s: seq<T>): set<T> {
    set x | x in s
  }

  /** The statements of `s` that belong to `keep`, in the order `s` lists them. */
  function Filter<T(==)>(s: seq<T>, keep: set<T>): (r: seq<T>)
    ensures Elems(r) == Elems(s) * keep
    ensures NoDup(s) ==> NoDup(r)
    ensures |r| <= |s|
  {
    if s == [] then []
    else
      var head, rest := if s[0] in keep then [s[0]] else [], Filter(s[1..], keep);
      ElemsConcat([s[0]], s[1..]);
      ElemsConcat(head, rest);
      assert [s[0]] + s[1..] == s;
      assert NoDup(s) ==> NoDup(head + rest) by {
        if NoDup(s) {
          NoDupTail(s);
          NoDupConcat(head, rest);
        }
      }
      head + rest
  }

  /**
    `r` lists some of the statements of `c` in the relative order `c` gives
    them (`r` is a subsequence of `c`).
   */
  predicate InOrderOf<T(==)>(r: seq<T>, c: seq<T>)
    decreases |c|
  {
    if r == [] then true
    else if c == [] then false
    else if r[0] == c[0] then InOrderOf(r[1..], c[1..])
    else InOrderOf(r, c[1..])
  }

  /**
    Guava's `Sets.union(a, b)`: every statement of `a`, then every statement of
    `b` that `a` does not hold, both in their own order (first occurrence wins).
   */
  function Union<T(==)>(a: seq<T>, b: seq<T>): (r: seq<T>)
    ensures Elems(r) == Elems(a) + Elems(b)
  {
    var rest := Filter(b, Elems(b) - Elems(a));
    ElemsConcat(a, rest);
    a + rest
  }

  /**
    The deterministic halving policy: with q = |c| and k = q / 2, the first
    half holds the first k statements and the second half the other q - k.
   */
  function Split<T(==)>(c: seq<T>): (halves: (seq<T>, seq<T>))
    ensures |halves.0| == |c| / 2 && |halves.1| == |c| - |c| / 2
    ensures |c| >= 2 ==> 0 < |halves.0| < |c| && 0 < |halves.1| < |c|
    ensures halves.0 + halves.1 == c
    ensures NoDup(c) ==> NoDup(halves.0) && NoDup(halves.1)
    ensures NoDup(c) ==> Elems(halves.0) !! Elems(halves.1)
  {
    var k := |c| / 2;
    var c1, c2 := c[..k], c[k..];
    assert c1 + c2 == c;
    assert NoDup(c) ==> Elems(c1) !! Elems(c2) by {
      if NoDup(c) {
        forall x | x in c1 ensures x !in c2 {
          var i :| 0 <= i < |c1| && c1[i] == x;
          forall j | 0 <= j < |c2| ensures c2[j] != x {
            assert c2[j] == c[k + j] && c1[i] == c[i];
          }
        }
      }
    }
    (c1, c2)
  }

  // ----- Lemmas about Union ------------------------------------------------

  /** The union starts with its first operand as it is. */
  lemma UnionStartsWithFirst<T>(a: seq<T>, b: seq<T>)
    ensures |a| <= |Union(a, b)| && Union(a, b)[..|a|] == a
  {
    var rest := Filter(b, Elems(b) - Elems(a));
    assert Union(a, b) == a + rest;
    assert (a + rest)[..|a|] == a;
  }

  /** After its first operand, the union lists statements of the second operand in that operand's order. */
  lemma UnionKeepsOrder<T>(a: seq<T>, b: seq<T>)
    ensures InOrderOf(Union(a, b)[|a|..], b)
  {
    var rest := Filter(b, Elems(b) - Elems(a));
    assert Union(a, b) == a + rest;
    FilterInOrder(b, Elems(b) - Elems(a));
    assert (a + rest)[|a|..] == rest;
  }

  /** The union of duplicate-free operands is duplicate-free: a statement of both is kept once. */
  lemma UnionNoDup<T>(a: seq<T>, b: seq<T>)
    requires NoDup(a) && NoDup(b)
    ensures NoDup(Union(a, b))
  {
    var rest := Filter(b, Elems(b) - Elems(a));
    assert Union(a, b) == a + rest;
    NoDupConcat(a, rest);
  }

  /** The union of operands with no statement in common is their concatenation. */
  lemma UnionOfDisjoint<T>(a: seq<T>, b: seq<T>)
    requires Elems(a) !! Elems(b)
    ensures Union(a, b) == a + b
  {
    FilterKeepsAll(b, Elems(b) - Elems(a));
  }

  /** The two halves of a duplicate-free sequence unite back into it. */
  lemma UnionOfHalves<T>(c: seq<T>)
    requires NoDup(c)
    ensures Union(Split(c).0, Split(c).1) == c
  {
    UnionOfDisjoint(Split(c).0, Split(c).1);
  }

  // ----- Lemmas about Elems, NoDup and Filter --------------------------------

  /** The statements of a concatenation are those of its two parts. */
  lemma ElemsConcat<T>(a: seq<T>, b: seq<T>)
    ensures Elems(a + b) == Elems(a) + Elems(b)
  {
    forall x ensures x in a + b <==> x in a || x in b {
    }
  }

  /** Dropping the first statement keeps a sequence duplicate-free, and that statement is not in the rest. */
  lemma NoDupTail<T>(s: seq<T>)
    requires NoDup(s) && s != []
    ensures NoDup(s[1..]) && s[0] !in s[1..]
  {
    forall i, j | 0 <= i < j < |s| - 1 ensures s[1..][i] != s[1..][j] {
      assert s[1..][i] == s[i + 1] && s[1..][j] == s[j + 1];
    }
  }

  /** Two duplicate-free sequences with no statement in common concatenate to a duplicate-free one. */
  lemma NoDupConcat<T>(a: seq<T>, b: seq<T>)
    requires NoDup(a) && NoDup(b) && Elems(a) !! Elems(b)
    ensures NoDup(a + b)
  {
    forall i, j | 0 <= i < j < |a + b| ensures (a + b)[i] != (a + b)[j] {
      if i < |a| <= j {
        assert (a + b)[i] == a[i] && a[i] in Elems(a);
        assert (a + b)[j] == b[j - |a|] && b[j - |a|] in Elems(b);
      } else if |a| <= i {
        assert (a + b)[i] == b[i - |a|] && (a + b)[j] == b[j - |a|];
      }
    }
  }

  /** A filter keeps the order of what it keeps. */
  lemma {:induction false} FilterInOrder<T>(s: seq<T>, keep: set<T>)
    ensures InOrderOf(Filter(s, keep), s)
    decreases |s|
  {
    if s != [] {
      FilterInOrder(s[1..], keep);
      assert [s[0]] + s[1..] == s;
      if s[0] in keep {
        assert Filter(s, keep) == [s[0]] + Filter(s[1..], keep);
        assert Filter(s, keep)[1..] == Filter(s[1..], keep);
      } else {
        assert Filter(s, keep) == [] + Filter(s[1..], keep) == Filter(s[1..], keep);
        InOrderOfExtend(Filter(s[1..], keep), s[0], s[1..]);
      }
    }
  }

  /** Filtering a sequence by a superset of its statements gives it back. */
  lemma {:induction false} FilterKeepsAll<T>(s: seq<T>, keep: set<T>)
    requires Elems(s) <= keep
    ensures Filter(s, keep) == s
    decreases |s|
  {
    if s != [] {
      ElemsConcat([s[0]], s[1..]);
      assert [s[0]] + s[1..] == s;
      FilterKeepsAll(s[1..], keep);
    }
  }

  // ----- Lemmas about InOrderOf ------------------------------------------

  /** A sequence lists its own statements in its own order. */
  lemma {:induction false} InOrderOfSelf<T>(c: seq<T>)
    ensures InOrderOf(c, c)
    decreases |c|
  {
    if c != [] {
      InOrderOfSelf(c[1..]);
    }
  }

  /** An ordered selection from `c` holds only statements of `c`, and none twice if `c` has none twice. */
  lemma {:induction false} InOrderOfElems<T>(r: seq<T>, c: seq<T>)
    requires InOrderOf(r, c)
    ensures Elems(r) <= Elems(c)
    ensures NoDup(c) ==> NoDup(r)
    decreases |c|
  {
    if r != [] {
      ElemsConcat([c[0]], c[1..]);
      assert [c[0]] + c[1..] == c;
      if r[0] == c[0] {
        InOrderOfElems(r[1..], c[1..]);
        ElemsConcat([r[0]], r[1..]);
        assert [r[0]] + r[1..] == r;
        if NoDup(c) {
          NoDupTail(c);
          NoDupConcat([r[0]], r[1..]);
        }
      } else {
        InOrderOfElems(r, c[1..]);
        if NoDup(c) {
          NoDupTail(c);
        }
      }
    }
  }

  /** Ordered selections from two sequences concatenate to an ordered selection from their concatenation. */
  lemma {:induction false} InOrderOfConcat<T>(r1: seq<T>, c1: seq<T>, r2: seq<T>, c2: seq<T>)
    requires InOrderOf(r1, c1) && InOrderOf(r2, c2)
    ensures InOrderOf(r1 + r2, c1 + c2)
    decreases |c1|
  {
    if c1 == [] {
      assert r1 == [] && r1 + r2 == r2 && c1 + c2 == c2;
    } else if r1 == [] {
      assert r1 + r2 == r2;
      InOrderOfDropFront(r2, c1, c2);
    } else {
      assert (c1 + c2)[1..] == c1[1..] + c2;
      assert (r1 + r2)[0] == r1[0];
      if r1[0] == c1[0] {
        assert (r1 + r2)[1..] == r1[1..] + r2;
        InOrderOfConcat(r1[1..], c1[1..], r2, c2);
      } else {
        InOrderOfConcat(r1, c1[1..], r2, c2);
      }
    }
  }

  /** Prefixing `c` with more statements keeps an ordered selection from `c` ordered. */
  lemma {:induction false} InOrderOfDropFront<T>(r: seq<T>, p: seq<T>, c: seq<T>)
    requires InOrderOf(r, c)
    ensures InOrderOf(r, p + c)
    decreases |p|
  {
    if p == [] {
      assert p + c == c;
    } else {
      InOrderOfDropFront(r, p[1..], c);
      assert (p + c)[1..] == p[1..] + c;
      InOrderOfExtend(r, p[0], p[1..] + c);
    }
  }

  /** Putting one statement in front of `c` keeps an ordered selection from `c` ordered. */
  lemma {:induction false} InOrderOfExtend<T>(r: seq<T>, x: T, c: seq<T>)
    requires InOrderOf(r, c)
    ensures InOrderOf(r, [x] + c)
    decreases |c|, 1
  {
    assert ([x] + c)[1..] == c;
    if r != [] && r[0] == x {
      InOrderOfTail(r, c);
    }
  }

  /** Dropping the first statement of an ordered selection keeps it ordered. */
  lemma {:induction false} InOrderOfTail<T>(r: seq<T>, c: seq<T>)
    requires InOrderOf(r, c) && r != []
    ensures InOrderOf(r[1..], c)
    decreases |c|, 0
  {
    if r[0] == c[0] {
      InOrderOfExtend(r[1..], c[0], c[1..]);
      assert [c[0]] + c[1..] == c;
    } else {
      InOrderOfTail(r, c[1..]);
      InOrderOfExtend(r[1..], c[0], c[1..]);
      assert [c[0]] + c[1..] == c;
    }
  }

  /**
    Ordered selections from the two halves of a split combine, by union, into
    an ordered selection from the whole.
   */
  lemma OrderedUnionOfHalves<T>(c1: seq<T>, c2: seq<T>, r1: seq<T>, r2: seq<T>)
    requires Elems(c1) !! Elems(c2)
    requires InOrderOf(r1, c1) && InOrderOf(r2, c2)
    ensures Union(r1, r2) == r1 + r2
    ensures InOrderOf(r1 + r2, c1 + c2)
  {
    InOrderOfElems(r1, c1);
    InOrderOfElems(r2, c2);
    UnionOfDisjoint(r1, r2);
    InOrderOfConcat(r1, c1, r2, c2);
  }
}
