/**
  A worked example of the explanation search on a small hand-made knowledge base whose
  statements are numbers and whose only clash is between statements 1 and 3.
  The configuration is [1, 2], there are no requirements, the knowledge base
  is [4] and the negated sub-configuration is [3]: the single statement 1 is
  the explanation, like the single-statement explanation [multiplemedia=false]
  expected of the survey feature model in the system's third test scenario.
 */
module CXPlainScenario {
  import opened StatementSets
  import opened CXPlain

  /** The oracle: a set is consistent unless it holds both 1 and 3. */
  predicate OneExcludesThree(s: set<int>) {
    !(1 in s && 3 in s)
  }

  /** The searched set lists CONF, then KB. */
  lemma SearchSet()
    ensures PossiblyFaulty([1, 2], [], [4]) == [1, 2, 4]
  {
    UnionOfDisjoint<int>([1, 2], []);
    UnionOfDisjoint([1, 2], [4]);
  }

  /** First recursive call: with [2, 4] moved into B, the singleton [1] is kept. */
  lemma FirstHalf()
    ensures Cxp(OneExcludesThree, [2, 4], [1], Union([3], [2, 4])) == [1]
  {
    UnionOfDisjoint([3], [2, 4]);
  }

  /** Second recursive call: B = {3, 1} already clashes, so the pruning check answers. */
  lemma SecondHalf()
    ensures Cxp(OneExcludesThree, [1], [2, 4], Union([3], [1])) == []
    ensures OracleCalls(OneExcludesThree, [1], [2, 4], Union([3], [1])) == 1
  {
    UnionOfDisjoint([3], [1]);
  }

  /** The explanation is [1], found with two oracle calls inside CXP. */
  lemma SingleStatementExplanation()
    ensures FindExplanation(OneExcludesThree, [], [4], [1, 2], [3]) == [1]
    ensures OracleCalls(OneExcludesThree, [], [1, 2, 4], [3]) == 2
  {
    SearchSet();
    var c := [1, 2, 4];
    assert c[..1] == [1] && c[1..] == [2, 4];
    FirstHalf();
    SecondHalf();
    UnionOfDisjoint<int>([1], []);
  }
}
