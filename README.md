# CXPlain explanation search in Dafny

This project models the core of CXPlain, a configuration-explanation tool for feature models. It also models two string helpers of the tool's command-line configuration.

CXPlain answers one question: why does a negated sub-configuration NSCONF contradict a consistent configuration? The search works as follows.

- `findExplanation(REQ, KB, CONF, NSCONF)` forms the possibly-faulty set CONF ∪ REQ ∪ KB, in insertion order.
- It asks a consistency oracle once about that set.
- If the set is consistent, it runs the divide-and-conquer routine `cxp(∅, CONF ∪ REQ ∪ KB, NSCONF)`. When NSCONF is consistent and contradicts that set, the result is a minimal subset of it that clashes with NSCONF.
- Otherwise it returns the empty set.

`cxp(D, C, B)` has three cases:

- **Pruning:** when D is non-empty, it checks B and returns ∅ if B is inconsistent.
- **Base case:** a singleton C is returned as it is.
- **Recursive case:**
  - it halves C into C1 and C2;
  - it computes CS1 = cxp(C2, C1, B ∪ C2);
  - it computes CS2 = cxp(CS1, C2, B ∪ CS1);
  - it returns CS1 ∪ CS2.

Modelling choices:

- **Sets are ordered.** The sets are Java `LinkedHashSet`s and Guava `Sets.union` views, whose iteration order decides how C is halved. They are modelled as duplicate-free sequences (`StatementSets`).
- **The oracle is a parameter.** It is a predicate `consistent: set<T> -> bool` on the set of statements it is asked about, which makes it blind to order.
- **Statements are opaque.** A statement (a solver constraint) is a value of a type `T` with equality.

The modules:

- `StatementSets`: ordered sets. It contains
  - `Union`, a model of Guava's `Sets.union`: the first operand, then whatever of the second operand the first lacks;
  - `Split`, the halving policy;
  - the order relation `InOrderOf`, which holds when one sequence is a subsequence of another.
- `CXPlain`: the search itself. It contains `Cxp`, `FindExplanation` and the number of oracle calls made by `Cxp`, with the lemmas about them:
  - the result is a subset of C;
  - it has no duplicates;
  - it keeps C's order;
  - it is a minimal conflict with B when the oracle is monotone (every superset of an inconsistent set is inconsistent), B ∪ C is inconsistent, and B is consistent whenever D = ∅;
  - the bound on oracle calls;
  - the first recursive call of CXP(∅, ∅, B), whose arguments are the caller's own.
- `CXPlainScenario`: a worked example of the search with four statements in all: CONF = [1, 2], KB = [4] and NSCONF = [3]. Its outcome is proved. It shows the pruning check firing in the second recursive call, and the order of the searched set.
- `AppCli`: `getNameKB`, which strips the last extension from a file name, and `getKBFilepath`, which is folder plus name.

## Model

| member | source | states |
|---|---|---|
| StatementSets.Union | src/main/java/at/tugraz/ist/ase/hiconfit/CXPlain.java:79-80 | the union of two ordered sets holds exactly the statements of both operands |
| StatementSets.UnionStartsWithFirst | src/main/java/at/tugraz/ist/ase/hiconfit/CXPlain.java:79-80 | the union starts with the first operand, unchanged and in its order |
| StatementSets.UnionKeepsOrder | src/main/java/at/tugraz/ist/ase/hiconfit/CXPlain.java:164-165 | after the first operand, the union lists statements of the second operand in that operand's order |
| StatementSets.UnionNoDup | src/main/java/at/tugraz/ist/ase/hiconfit/CXPlain.java:164-165 | duplicate-free operands give a duplicate-free union: a statement of both is kept once |
| StatementSets.UnionOfDisjoint | src/main/java/at/tugraz/ist/ase/hiconfit/CXPlain.java:164-165 | the union of operands with no statement in common is their concatenation |
| StatementSets.Split | src/main/java/at/tugraz/ist/ase/hiconfit/CXPlain.java:142-145 | C1 holds the first ⌊q/2⌋ statements and C2 the other q−⌊q/2⌋. For q ≥ 2 both are non-empty and strictly smaller than C. C1 ++ C2 = C. For a duplicate-free C both halves are duplicate-free and disjoint |
| StatementSets.UnionOfHalves | src/main/java/at/tugraz/ist/ase/hiconfit/CXPlain.java:40-41 | the union of the two halves of a duplicate-free C gives C back, in C's order |
| StatementSets.OrderedUnionOfHalves | src/main/java/at/tugraz/ist/ase/hiconfit/CXPlain.java:163-165 | let r1 be an ordered selection from C1 and r2 one from C2, with C1 and C2 disjoint. Then r1 ∪ r2 is r1 followed by r2, and it is an ordered selection from C1 ++ C2 |
| CXPlain.Cxp | src/main/java/at/tugraz/ist/ase/hiconfit/CXPlain.java:118-166 | defined for every non-empty duplicate-free C. It terminates because every recursive call gets a strictly smaller half. It returns ∅ when D ≠ ∅ and B is inconsistent, and C itself when the check does not fire and C is a singleton. Its result is always a subset of C |
| CXPlain.LeftCall | src/main/java/at/tugraz/ist/ase/hiconfit/CXPlain.java:148-152 | the first recursive call gets Δ = C2, C = C1 with C1 ++ C2 = C, and a background holding exactly the statements of B and C2 |
| CXPlain.CxpKeepsOrder | src/main/java/at/tugraz/ist/ase/hiconfit/CXPlain.java:139-165 | the result of CXP has no duplicates and lists its statements in C's relative order: CS1's statements, taken from C1, come before CS2's, taken from C2 |
| CXPlain.PossiblyFaulty | src/main/java/at/tugraz/ist/ase/hiconfit/CXPlain.java:79-80 | the searched set holds exactly the statements of CONF, REQ and KB |
| CXPlain.PossiblyFaultyShape | src/main/java/at/tugraz/ist/ase/hiconfit/CXPlain.java:79-80 | the searched set starts with CONF as given and is duplicate-free when CONF, REQ and KB are |
| CXPlain.PossiblyFaultyNonEmpty | src/main/java/at/tugraz/ist/ase/hiconfit/CXPlain.java:79-80 | the searched set is non-empty exactly when CONF, REQ and KB are not all empty |
| CXPlain.FindExplanation | src/main/java/at/tugraz/ist/ase/hiconfit/CXPlain.java:72-101 | when the oracle finds CONF ∪ REQ ∪ KB inconsistent, the explanation is ∅. The explanation is always drawn from CONF ∪ REQ ∪ KB |
| CXPlain.ExplanationKeepsOrder | src/main/java/at/tugraz/ist/ase/hiconfit/CXPlain.java:79-94 | the explanation is duplicate-free and lists its statements in the order CONF, then REQ, then KB |
| CXPlain.CxpMinimal | src/main/java/at/tugraz/ist/ase/hiconfit/CXPlain.java:104-111 | assume a monotone oracle, B ∪ C inconsistent, and B consistent when D = ∅. Then B ∪ CXP(D, C, B) is inconsistent, and removing any one statement of the result makes it consistent with B |
| CXPlain.CxpMinimalHalves | src/main/java/at/tugraz/ist/ase/hiconfit/CXPlain.java:142-165 | the same minimality in the recursive case, when the pruning check did not fire |
| CXPlain.MergeMinimal | src/main/java/at/tugraz/ist/ase/hiconfit/CXPlain.java:148-165 | let CS1 be a minimal conflict with B ∪ C2, and CS2, taken from C2 and disjoint from CS1, a minimal conflict with B ∪ CS1. Then CS1 ∪ CS2 is a minimal conflict with B |
| CXPlain.ProperSubsetOfConflict | src/main/java/at/tugraz/ist/ase/hiconfit/CXPlain.java:37-44 | under a monotone oracle, every proper subset of a minimal conflict with B is consistent with B |
| CXPlain.ProperSubsetsConsistent | src/main/java/at/tugraz/ist/ase/hiconfit/CXPlain.java:118-166 | under the hypotheses of CxpMinimal, every proper subset of CXP's result is consistent with B |
| CXPlain.ExplanationIsMinimalConflict | src/main/java/at/tugraz/ist/ase/hiconfit/CXPlain.java:72-101 | assume a monotone oracle, CONF ∪ REQ ∪ KB consistent and not all empty, NSCONF consistent, and NSCONF ∪ CONF ∪ REQ ∪ KB inconsistent. Then the explanation is non-empty and is a minimal conflict with NSCONF |
| CXPlain.OracleCalls | src/main/java/at/tugraz/ist/ase/hiconfit/CXPlain.java:122-158 | CXP makes at most 2q−1 oracle calls on a non-empty C of size q, and at most 2q−2 when D = ∅ |
| CXPlain.PrunedCallsOnce | src/main/java/at/tugraz/ist/ase/hiconfit/CXPlain.java:123-131 | when the pruning check fires, CXP returns ∅ after exactly one oracle call |
| CXPlain.EmptyCandidatesRecurseOnThemselves | src/main/java/at/tugraz/ist/ase/hiconfit/CXPlain.java:134-152 | for an empty C, the arguments of CXP's first recursive call, when it recurses, are (∅, ∅, B). So CXP(∅, ∅, B), which skips the pruning check and is not a singleton, calls itself with its own arguments |
| CXPlainScenario.SearchSet | src/main/java/at/tugraz/ist/ase/hiconfit/CXPlain.java:79-80 | with CONF = [1, 2], no REQ and KB = [4], the searched set is [1, 2, 4] |
| CXPlainScenario.FirstHalf | src/main/java/at/tugraz/ist/ase/hiconfit/CXPlain.java:148-152 | with [2, 4] moved into B, the first recursive call returns the singleton [1] |
| CXPlainScenario.SecondHalf | src/main/java/at/tugraz/ist/ase/hiconfit/CXPlain.java:154-158 | the second recursive call finds B = {3, 1} inconsistent, returns ∅ and makes one oracle call |
| CXPlainScenario.SingleStatementExplanation | src/test/java/at/tugraz/ist/ase/hiconfit/CXPlainTest.java:187-189 | the whole search returns the single-statement explanation [1] after two oracle calls inside CXP |
| AppCli.LastIndexOf | src/main/java/at/tugraz/ist/ase/hiconfit/app/cli/AppConfig.java:64 | the result is -1 exactly when the character is absent. Otherwise the character sits at the result and does not occur after it |
| AppCli.NameKB | src/main/java/at/tugraz/ist/ase/hiconfit/app/cli/AppConfig.java:63-66 | the name is a prefix of the file name, and equals it exactly when the file name has no '.'. When there is a '.', the name stops at the last '.' |
| AppCli.StripsLastExtension | src/main/java/at/tugraz/ist/ase/hiconfit/app/cli/AppConfig.java:64-65 | stem + "." + ext, with no '.' in ext, names stem. Only the final extension goes, and any '.' inside the stem stays |
| AppCli.NameShorterIffDot | src/main/java/at/tugraz/ist/ase/hiconfit/app/cli/AppConfig.java:64-65 | the name is strictly shorter than the file name exactly when the file name holds a '.' |
| AppCli.NameKBExample | src/main/java/at/tugraz/ist/ase/hiconfit/app/cli/AppConfig.java:63-66 | "a.b.c" names the knowledge base "a.b" |
| AppCli.AppConfig.KBFilepath | src/main/java/at/tugraz/ist/ase/hiconfit/app/cli/AppConfig.java:68-70 | the path's length is the sum of the folder's and the name's. The path starts with the folder and ends with the name |

## Left out

- **The consistency checker.** The Choco-based checker is not part of this model. It is replaced by an arbitrary predicate on sets of statements. Minimality is proved only for a monotone predicate. A solver that decides satisfiability exactly is monotone. Solver failures (a time-out, giving up, an exception) are not modelled.
- **`ConstraintUtils.split` and Guava's `Sets.union`.** Neither is part of this model. `Split` follows the pseudocode in the class comment, with k = q/2; the comment's "n" is taken to be the size q of C. `Union` follows Guava's documented behaviour: the first operand's order, then the second operand's new statements.
- **Evaluation instrumentation.** Counters, timers and logging are left out. The exception is the number of consistency checks made inside `cxp`, which `OracleCalls` models. The driver's own check, which is not counted at that counter, is also left out of `OracleCalls`.
- **Empty candidate set.** The source does not guard against an empty candidate set. `Cxp` requires a non-empty C, and `FindExplanation` requires a non-empty CONF ∪ REQ ∪ KB when that set is consistent. On an empty C the Java recursion does not end, and the call fails with a `StackOverflowError` that reaches the caller, unless D ≠ ∅ and B is inconsistent: then the pruning check fires and `cxp` returns ∅ at once. The excluded inputs are never passed: the recursive calls get halves of a C with at least two statements, so they are non-empty, and the only call that can pass an empty C is the driver's, whose D is ∅, and only when CONF ∪ REQ ∪ KB is empty and consistent.
- EmptyCandidatesRecurseOnThemselves: proves only that the first recursive call of CXP(∅, ∅, B) has the caller's own arguments, which is where the Java recursion diverges. The divergence itself is not proved, and the `StackOverflowError` is not modelled.
- **The preconditions behind minimality.** The caller must supply a consistent NSCONF. This obligation arises because the driver passes D = ∅, so `cxp` never checks B itself. The source neither checks nor guarantees it, and the minimality lemmas take it as a hypothesis.
- **Building the possibly-faulty set.** The causal explanation models and their factories, the negators, the evaluation and generator programs, `Utils` and the console output are left out. These parts handle solver plumbing, file I/O, randomness, timing and e-mail. The order they give the possibly-faulty set (configuration, requirements marked as copied, reversed knowledge-base constraints) reaches `FindExplanation` as the given order of its inputs.
- **Null arguments.** `findExplanation` marks REQ, KB, CONF and NSCONF `@NonNull`, so a null argument throws `NullPointerException` before any oracle call. Dafny sequences cannot be null, so this error path is not modelled.
- **AppConfig.** Its Jackson-mapped fields other than `kbPath` and `nameKB` are left out. So are Java's null strings. `AppCli.NameKB` takes a string, whereas `getNameKB(null)` throws `NullPointerException` at its `lastIndexOf` call. `AppConfig.KBFilepath` assumes both fields are set, whereas Java's string concatenation puts the text "null" into the path for an unset one.
- **Character positions.** `AppCli.LastIndexOf` counts positions in characters (Unicode scalar values), whereas Java counts UTF-16 code units, so the two positions differ in a name holding a character outside the Basic Multilingual Plane. The name `AppCli.NameKB` returns is the same either way.
