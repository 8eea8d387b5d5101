/**
  The CXPlain explanation search.

  `FindExplanation(REQ, KB, CONF, NSCONF)` asks a consistency oracle about
  CONF ∪ REQ ∪ KB; if that set is consistent it looks, with the recursive
  divide-and-conquer routine `Cxp`, for a minimal subset of it that is
  inconsistent together with the negated sub-configuration NSCONF.

  The oracle (a constraint solver in the original system) is a parameter: a
  predicate on the set of constraints it is asked about. Constraints are of an
  opaque type `T` with equality.
 */
module CXPlain {
  import opened StatementSets

  /**
    `s <= t` under a name of its own: it gives the quantifier of `Monotone` a
    trigger, so that monotonicity is used only where a proof asserts `Within`.
   */
  ghost predicate Within<T>(s: set<T>, t: set<T>) {
    s <= t
  }

  /** Every superset of an inconsistent set of constraints is inconsistent. */
  ghost predicate Monotone<T(!new)>(consistent: set<T> -> bool) {
    forall s, t {:trigger Within(s, t)} :: Within(s, t) && !consistent(s) ==> !consistent(t)
  }

  /** A subset of a consistent set is consistent. */
  lemma SubsetConsistent<T(!new)>(consistent: set<T> -> bool, s: set<T>, t: set<T>)
    requires Monotone(consistent)
    requires s <= t && consistent(t)
    ensures consistent(s)
  {
    assert Within(s, t);
  }

  /**
    CXP(Δ, C, B). Pruning: when Δ is not empty and B alone is inconsistent the
    result is empty. Base case: a singleton C is returned as it is. Otherwise
    C is split into halves C1, C2 and the result is
    CS1 ∪ CS2 with CS1 = CXP(C2, C1, B ∪ C2) and CS2 = CXP(CS1, C2, B ∪ CS1).

    C must not be empty: with an empty C and an empty Δ the first recursive
    call has the caller's own arguments (see
    `EmptyCandidatesRecurseOnThemselves`). Every recursive call receives one
    of the two halves, which are strictly shorter than C.
   */
  function Cxp<T(==)>(consistent: set<T> -> bool, d: seq<T>, c: seq<T>, b: seq<T>): (r: seq<T>)
    requires |c| > 0 && NoDup(c)
    ensures d != [] && !consistent(Elems(b)) ==> r == []
    ensures (d == [] || consistent(Elems(b))) && |c| == 1 ==> r == c
    ensures Elems(r) <= Elems(c)
    decreases |c|
  {
    if d != [] && !consistent(Elems(b)) then []
    else if |c| == 1 then c
    else
      var c1, c2 := Split(c).0, Split(c).1;
      var left := LeftCall(c, b);
      var cs1 := Cxp(consistent, left.0, left.1, left.2);
      var cs2 := Cxp(consistent, cs1, c2, Union(b, cs1));
      ElemsConcat(c1, c2);
      Union(cs1, cs2)
  }

  /** The arguments (Δ, C, B) of CXP's first recursive call: (C2, C1, B ∪ C2). */
  function LeftCall<T(==)>(c: seq<T>, b: seq<T>): (args: (seq<T>, seq<T>, seq<T>))
    ensures args.1 + args.0 == c
    ensures Elems(args.2) == Elems(b) + Elems(args.0)
  {
    (Split(c).1, Split(c).0, Union(b, Split(c).1))
  }

  /**
    CXP returns its statements without duplicates and in the order C lists
    them (the two halves' results are disjoint, so their union is their
    concatenation).
   */
  lemma {:induction false} CxpKeepsOrder<T>(consistent: set<T> -> bool, d: seq<T>, c: seq<T>, b: seq<T>)
    requires |c| > 0 && NoDup(c)
    ensures NoDup(Cxp(consistent, d, c, b))
    ensures InOrderOf(Cxp(consistent, d, c, b), c)
    decreases |c|
  {
    if d != [] && !consistent(Elems(b)) {
    } else if |c| == 1 {
      InOrderOfSelf(c);
    } else {
      var left := LeftCall(c, b);
      var c2, c1 := left.0, left.1;
      var cs1 := Cxp(consistent, c2, c1, left.2);
      var cs2 := Cxp(consistent, cs1, c2, Union(b, cs1));
      CxpKeepsOrder(consistent, c2, c1, left.2);
      CxpKeepsOrder(consistent, cs1, c2, Union(b, cs1));
      OrderedUnionOfHalves(c1, c2, cs1, cs2);
      InOrderOfElems(cs1 + cs2, c1 + c2);
    }
  }

  /**
    The set the driver searches: CONF, then the requirements REQ, then the
    knowledge base KB, each statement kept at its first occurrence.
   */
  function PossiblyFaulty<T(==)>(conf: seq<T>, req: seq<T>, kb: seq<T>): (u: seq<T>)
    ensures Elems(u) == Elems(conf) + Elems(req) + Elems(kb)
  {
    Union(Union(conf, req), kb)
  }

  /** The searched set lists CONF first and, built from duplicate-free parts, holds no duplicate. */
  lemma PossiblyFaultyShape<T>(conf: seq<T>, req: seq<T>, kb: seq<T>)
    ensures |conf| <= |PossiblyFaulty(conf, req, kb)|
    ensures PossiblyFaulty(conf, req, kb)[..|conf|] == conf
    ensures NoDup(conf) && NoDup(req) && NoDup(kb) ==> NoDup(PossiblyFaulty(conf, req, kb))
  {
    var confReq := Union(conf, req);
    var u := Union(confReq, kb);
    UnionStartsWithFirst(conf, req);
    UnionStartsWithFirst(confReq, kb);
    if NoDup(conf) && NoDup(req) && NoDup(kb) {
      UnionNoDup(conf, req);
      UnionNoDup(confReq, kb);
    }
    assert u[..|conf|] == u[..|confReq|][..|conf|];
  }

  /** The searched set is empty only when CONF, REQ and KB all are. */
  lemma PossiblyFaultyNonEmpty<T>(conf: seq<T>, req: seq<T>, kb: seq<T>)
    ensures |PossiblyFaulty(conf, req, kb)| > 0 <==> |conf| + |req| + |kb| > 0
  {
    var u := PossiblyFaulty(conf, req, kb);
    if |conf| > 0 {
      assert conf[0] in Elems(u);
    } else if |req| > 0 {
      assert req[0] in Elems(u);
    } else if |kb| > 0 {
      assert kb[0] in Elems(u);
    } else {
      assert Elems(u) == {};
    }
  }

  /**
    CXPlain(REQ, KB, CONF, NSCONF): one oracle call on CONF ∪ REQ ∪ KB; if that
    is consistent, CXP(∅, CONF ∪ REQ ∪ KB, NSCONF), otherwise the empty set.
    The search diverges when CONF ∪ REQ ∪ KB is empty and consistent, which the
    second precondition excludes.
   */
  function FindExplanation<T(==)>(consistent: set<T> -> bool,
                                  req: seq<T>, kb: seq<T>, conf: seq<T>, nsconf: seq<T>): (exp: seq<T>)
    requires NoDup(req) && NoDup(kb) && NoDup(conf)
    requires consistent(Elems(conf) + Elems(req) + Elems(kb)) ==> |conf| + |req| + |kb| > 0
    ensures !consistent(Elems(conf) + Elems(req) + Elems(kb)) ==> exp == []
    ensures Elems(exp) <= Elems(conf) + Elems(req) + Elems(kb)
  {
    var u := PossiblyFaulty(conf, req, kb);
    PossiblyFaultyShape(conf, req, kb);
    if consistent(Elems(u)) then
      Cxp(consistent, [], u, nsconf)
    else
      []
  }

  /** The explanation holds no duplicate and lists its statements in the searched order. */
  lemma ExplanationKeepsOrder<T>(consistent: set<T> -> bool,
                                 req: seq<T>, kb: seq<T>, conf: seq<T>, nsconf: seq<T>)
    requires NoDup(req) && NoDup(kb) && NoDup(conf)
    requires consistent(Elems(conf) + Elems(req) + Elems(kb)) ==> |conf| + |req| + |kb| > 0
    ensures NoDup(FindExplanation(consistent, req, kb, conf, nsconf))
    ensures InOrderOf(FindExplanation(consistent, req, kb, conf, nsconf), PossiblyFaulty(conf, req, kb))
  {
    var u := PossiblyFaulty(conf, req, kb);
    PossiblyFaultyShape(conf, req, kb);
    if consistent(Elems(u)) {
      CxpKeepsOrder(consistent, [], u, nsconf);
    }
  }

  // ----- Minimality ----------------------------------------------------------

  /**
    E is a minimal conflict with B: B ∪ E is inconsistent, and taking any one
    statement out of E makes what is left consistent with B.
   */
  ghost predicate MinimalConflict<T(!new)>(consistent: set<T> -> bool, B: set<T>, E: set<T>) {
    && !consistent(B + E)
    && forall x :: x in E ==> consistent(B + (E - {x}))
  }

  /**
    With a monotone oracle, B ∪ C inconsistent, and B consistent whenever Δ is
    empty, CXP returns a minimal conflict with B drawn from C.
   */
  lemma {:induction false} CxpMinimal<T(!new)>(consistent: set<T> -> bool, d: seq<T>, c: seq<T>, b: seq<T>)
    requires Monotone(consistent)
    requires |c| > 0 && NoDup(c)
    requires !consistent(Elems(b) + Elems(c))
    requires d == [] ==> consistent(Elems(b))
    ensures MinimalConflict(consistent, Elems(b), Elems(Cxp(consistent, d, c, b)))
    decreases |c|, 1
  {
    var r := Cxp(consistent, d, c, b);
    if d != [] && !consistent(Elems(b)) {
      assert Elems(r) == {};
      assert Elems(b) + Elems(r) == Elems(b);
    } else if |c| == 1 {
      forall x | x in Elems(r) ensures consistent(Elems(b) + (Elems(r) - {x})) {
        assert Elems(r) - {x} == {};
        assert Elems(b) + (Elems(r) - {x}) == Elems(b);
      }
    } else {
      CxpMinimalHalves(consistent, d, c, b);
    }
  }

  /** The recursive case of `CxpMinimal`: C has at least two statements and the pruning check did not fire. */
  lemma {:induction false} CxpMinimalHalves<T(!new)>(consistent: set<T> -> bool, d: seq<T>, c: seq<T>, b: seq<T>)
    requires Monotone(consistent)
    requires |c| > 1 && NoDup(c)
    requires !consistent(Elems(b) + Elems(c))
    requires consistent(Elems(b))
    ensures MinimalConflict(consistent, Elems(b), Elems(Cxp(consistent, d, c, b)))
    decreases |c|, 0
  {
    var r := Cxp(consistent, d, c, b);
    var left := LeftCall(c, b);
    var c2, c1, b1 := left.0, left.1, left.2;
    var cs1 := Cxp(consistent, c2, c1, b1);
    var b2 := Union(b, cs1);
    var cs2 := Cxp(consistent, cs1, c2, b2);
    ElemsConcat(c1, c2);
    assert Elems(r) == Elems(cs1) + Elems(cs2);
    var B, C1, C2, CS1, CS2 := Elems(b), Elems(c1), Elems(c2), Elems(cs1), Elems(cs2);
    assert Elems(b1) + C1 == B + (C1 + C2);
    CxpMinimal(consistent, c2, c1, b1);
    assert Elems(b2) + C2 == Elems(b1) + CS1;
    if cs1 == [] {
      assert CS1 == {};
      assert Elems(b2) == B;
    }
    CxpMinimal(consistent, cs1, c2, b2);
    MergeMinimal(consistent, B, C2, CS1, CS2);
  }

  /**
    The set reasoning behind the recursive case of CXP: CS1 is a minimal
    conflict with B ∪ C2, CS2 (drawn from C2) is one with B ∪ CS1, so
    CS1 ∪ CS2 is one with B.
   */
  lemma MergeMinimal<T(!new)>(consistent: set<T> -> bool, B: set<T>, C2: set<T>, CS1: set<T>, CS2: set<T>)
    requires Monotone(consistent)
    requires CS1 !! CS2 && CS2 <= C2
    requires MinimalConflict(consistent, B + C2, CS1)
    requires MinimalConflict(consistent, B + CS1, CS2)
    ensures MinimalConflict(consistent, B, CS1 + CS2)
  {
    assert B + (CS1 + CS2) == B + CS1 + CS2;
    forall x | x in CS1 + CS2 ensures consistent(B + ((CS1 + CS2) - {x})) {
      if x in CS1 {
        SubsetConsistent(consistent, B + ((CS1 + CS2) - {x}), B + C2 + (CS1 - {x}));
      } else {
        assert B + ((CS1 + CS2) - {x}) == B + CS1 + (CS2 - {x});
      }
    }
  }

  /** Every proper subset of a minimal conflict with B is consistent with B. */
  lemma ProperSubsetOfConflict<T(!new)>(consistent: set<T> -> bool, B: set<T>, E: set<T>, e: set<T>)
    requires Monotone(consistent)
    requires MinimalConflict(consistent, B, E)
    requires e < E
    ensures consistent(B + e)
  {
    var x :| x in E && x !in e;
    SubsetConsistent(consistent, B + e, B + (E - {x}));
  }

  /** Minimality of CXP's result: every proper subset of it is consistent with B. */
  lemma ProperSubsetsConsistent<T(!new)>(consistent: set<T> -> bool, d: seq<T>, c: seq<T>, b: seq<T>, e: set<T>)
    requires Monotone(consistent)
    requires |c| > 0 && NoDup(c)
    requires !consistent(Elems(b) + Elems(c))
    requires d == [] ==> consistent(Elems(b))
    requires e < Elems(Cxp(consistent, d, c, b))
    ensures consistent(Elems(b) + e)
  {
    CxpMinimal(consistent, d, c, b);
    ProperSubsetOfConflict(consistent, Elems(b), Elems(Cxp(consistent, d, c, b)), e);
  }

  /**
    End to end: when CONF ∪ REQ ∪ KB is consistent, NSCONF is consistent (the
    caller's obligation, since the driver passes an empty Δ) and NSCONF
    contradicts CONF ∪ REQ ∪ KB, the explanation is a non-empty minimal conflict
    with NSCONF.
   */
  lemma ExplanationIsMinimalConflict<T(!new)>(consistent: set<T> -> bool,
                                              req: seq<T>, kb: seq<T>, conf: seq<T>, nsconf: seq<T>)
    requires Monotone(consistent)
    requires NoDup(req) && NoDup(kb) && NoDup(conf)
    requires |conf| + |req| + |kb| > 0
    requires consistent(Elems(conf) + Elems(req) + Elems(kb))
    requires consistent(Elems(nsconf))
    requires !consistent(Elems(nsconf) + (Elems(conf) + Elems(req) + Elems(kb)))
    ensures FindExplanation(consistent, req, kb, conf, nsconf) != []
    ensures MinimalConflict(consistent, Elems(nsconf), Elems(FindExplanation(consistent, req, kb, conf, nsconf)))
  {
    var u := PossiblyFaulty(conf, req, kb);
    PossiblyFaultyShape(conf, req, kb);
    PossiblyFaultyNonEmpty(conf, req, kb);
    CxpMinimal(consistent, [], u, nsconf);
    var exp := Cxp(consistent, [], u, nsconf);
    assert FindExplanation(consistent, req, kb, conf, nsconf) == exp;
    assert Elems(nsconf) + Elems<T>([]) == Elems(nsconf);
  }

  // ----- Oracle calls --------------------------------------------------------

  /**
    The number of oracle calls CXP makes (the pruning check is the only call,
    and it is made only when Δ is not empty).
   */
  function OracleCalls<T(==)>(consistent: set<T> -> bool, d: seq<T>, c: seq<T>, b: seq<T>): (n: nat)
    requires |c| > 0 && NoDup(c)
    ensures n <= 2 * |c| - 1
    ensures d == [] ==> n <= 2 * |c| - 2
    decreases |c|
  {
    var check := if d != [] then 1 else 0;
    if d != [] && !consistent(Elems(b)) then check
    else if |c| == 1 then check
    else
      var left := LeftCall(c, b);
      var cs1 := Cxp(consistent, left.0, left.1, left.2);
      check + OracleCalls(consistent, left.0, left.1, left.2)
            + OracleCalls(consistent, cs1, left.0, Union(b, cs1))
  }

  /** After a successful pruning check CXP makes no further call: exactly one oracle call. */
  lemma PrunedCallsOnce<T>(consistent: set<T> -> bool, d: seq<T>, c: seq<T>, b: seq<T>)
    requires |c| > 0 && NoDup(c)
    requires d != [] && !consistent(Elems(b))
    ensures OracleCalls(consistent, d, c, b) == 1 && Cxp(consistent, d, c, b) == []
  {
  }

  // ----- Termination ---------------------------------------------------------

  /**
    The source has no guard for an empty candidate set. CXP(∅, ∅, B) skips the
    pruning check (Δ is empty) and is not a singleton, so it makes its first
    recursive call, whose arguments are again (∅, ∅, B): the call it is
    executing.
   */
  lemma EmptyCandidatesRecurseOnThemselves<T>(b: seq<T>)
    ensures LeftCall<T>([], b) == ([], [], b)
  {
    assert Split<T>([]) == ([], []);
    assert Elems<T>([]) == {};
    UnionOfDisjoint<T>(b, []);
    assert b + [] == b;
  }
}
