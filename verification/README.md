# Verified models of GProM's core algorithms

GProM is a database middleware written in C. It parses SQL and Datalog, analyses the parse trees, translates
them into graphs of relational algebra operators and rewrites those graphs. This project models the parts of it
whose correctness is least obvious and proves what they are for. It has four groups of modules.

**The Datalog compiler** (`src/analysis_and_translate/translator_dl.c`). `Datalog` and `Program` give rules and
programs a meaning by a tuple-at-a-time interpreter that knows bindings of variables and nothing of algebra,
positions or attribute names; `Declarative` shows that the interpreter finds exactly the bindings that satisfy
the literals of a body, each as often as the rows of its goals can be chosen. `Algebra` evaluates operator trees by position. `RuleTranslation` says which operators the
translator builds and `RuleTranslator` has the translator's loops, proved against it. `Names` and `UniqueNames` are the
generated attribute names; `GoalNaming` is the check on the names of a rule under which its joins and lookups by name
are right, `NamingProofs` and `AvoidedNames` say which rules pass it, and `NameClash` shows what happens to the others.
`RowProofs`, `RuleProofs` and `RuleTheorem` follow the rows. `PlanGraph` is the operator graph with its input and parent
links, which the translator changes in place; `ProgramTranslator` builds it, and `ProgramTheorem` proves the
whole program preserved. `DependencyGraph` is the graph of the relations of a program and `TypeAnalysis` the typing
recursion along it. The chain of main results is

1. `RulePreserved`: the tree of one rule that passes the check evaluates to the rows the rule derives (`RuleResult`: the
   head images of the satisfying bindings, each once), and `ApartIffPreserved`: for joins of different relations no
   weaker check would do;
2. `ProgramPreserved`: substituting predicate trees for accesses to derived relations evaluates to what the
   program derives;
3. `TranslateProgram` with `AnswerPreserved`: the graph that is built and spliced in place spells that tree, running it
   from the answer node returns those rows, and no path from there reaches an access to a derived relation.

**The hash table** (`include/uthash.h`). `HashTable.HashTable` is a class over index arrays for the `prev`/`next`
and `hh_prev`/`hh_next` links, with the same branches and statistics as the macros. `HashSpec` is the
insertion-ordered map it refines, `HashCalls` the runs of calls on it, sorting included, `HashExpansion` the rebuilding
of all chains, `HashSort` and `HashSortLinks` the bottom-up mergesort and the re-linking it does, `HashMasks` the bit
arithmetic, `HashCheck` the table's own integrity check, which is proved to pass exactly on the tables the invariant
describes.

**The SQL front end** (`analyze_oracle.c`, `translator_oracle.c`, `translate_update.c`). `Sql` has expressions in
three-valued logic and bag-valued queries. `Updates`, `Reenactment` and `History` turn statements into queries over
the state before them, merge the queries of a history, and compare with executing the statements. `Grouping` and
`AggregationRewrite` prove the two-phase rewrite of aggregation queries, `SetOperations` the multiplicities of nested
set operations, `NameResolution` scope lookup, flattening of positions and their rewriting.

**Codecs.** `BindParameters` is the length-prefixed format of bind values, their conversion to constants and
the numbering and substitution of parameters; `Doubles` is the rounding of decimals to doubles and back. `ResultTables`
is the normal form of result tables used by the black-box tests, `TableText` their printer and parser.

## Conventions

Rows are sequences of values and attributes are addressed by position. Bags are sequences of rows where order is part
of the argument (Datalog: the nested-loop order of joins, so that equality of sequences gives equality of
multiplicities) and are compared as multisets elsewhere. The set difference operator of `translator_dl.c` is set
MINUS, as the comment at line 2123 says; the one of `translator_oracle.c` is bag difference. What the code decides by
aborting is `None`, `Error` or `Rejected`. `rank` in the theorems about programs is any numbering that witnesses that
the program is not recursive, and exists iff the dependency graph has no cycle (`AcyclicIff`); `arity` says how many
columns each relation has. A rule is `Safe` if it has a positive goal and passes `checkDLRuleSafety`, so that all its
variables occur in positive goals; its literals come in any order. What is said of a body is said of its literals;
`Atoms` is the list of its goals without the comparisons (`AtomsConcat`, `AtomsIn`). `NamesApart(r)` is the check on
the names of a rule, computed from the names alone: columns of different goals that are called the same have the same
argument; the variables of comparisons and negated goals are found, by name, in a column of their own; and so are head
variables. `Compatible(vars)` says that no variable is another variable followed by a numeral, and none is, followed
by nothing or a numeral, one of the names the translator generates for constants; rules over such variables pass the
check if their positive atoms come first.

## What turned out not to hold

Where the code does not keep a property for all inputs, the code is modelled as it is, a failing input is given, and
the property is proved to hold exactly under a condition that can be checked beforehand.

- Joins of goals go by attribute name. A variable `X` that occurs twice in a goal gets a second column `X1`, which is
  then equated with the columns of another variable called `X1`; constants get generated names with the same
  effect. `q(X) :- R(X,X), S(X1)` is such a rule. A rule that passes the check `NamesApart` is translated correctly
  (`RulePreserved`); a join of different relations is translated correctly on all databases iff it passes
  (`ApartIffPreserved`). All rules over a set of variables whose positive atoms come first are translated correctly iff
  the set is `Compatible` (`CompatibleIffPreserved`; `VariablesClash` and `ConstantClashes` give rule and database for
  every offending set).
- The head finds its variables by comparing the columns, which come in join order, with the arguments of the body in the
  order of the body. With a negated atom before a positive one it may miss a variable, as in `q(Y) :- not S(X), R(X,Y)`
  (`NegatedFirstLost`). Over compatible variables a rule with a permitted head is translated correctly iff all head
  variables are found (`HeadNamedIffPreserved`), and they are if the positive atoms come first (`CompatibleApart`).
- A join renames the second column of a shared variable, and the new name can be that of a variable of a later goal, which
  then has no column of its name. No repetition in a goal and no constant is needed: `q(X2) :- R(X,X1), S(X), T(X2)` is
  not translated (`LaterNameLost`). A safe rule is translated iff its head variables still have a column of their name
  and its head mixes aggregation with nothing else (`TranslatedIff`).
- The reason is that `makeNamesUnique` does not look again at the names to avoid after it has left the name list; it may
  return one of them (`AllNamesNotAvoided`). It avoids them whenever they all occur in the list (`ListedAvoided`), as in
  the call for a goal (`GoalAvoids`). In general it does iff the suffixes taken in the list, from the first one that is
  not to be avoided on, do not run up to one that is (`AvoidsIff`); for a join this is a condition on the shared
  names (`JoinAvoidsIff`), and one on the lists before the call if no shared name extends another
  (`JoinAvoidsStaticIff`). Rules of positive goals without repetitions and constants, all of whose joins avoid, are
  translated correctly (`AvoidingPasses`).
- The union form of UPDATE and the translation of DELETE negate the condition and so lose the rows on which it is
  unknown. They are exact iff the condition is known on every row (`UnionFormExactIff`, `DeleteExactIff`).
- REMOVE COLUMN projects by name and is exact iff the remaining names are distinct (`RemoveColumnExactIff`).
- HAVING without GROUP BY and without any aggregate becomes a plain selection. It is right iff there is exactly one
  input row or the condition does not hold (`HavingAloneExactIff`).
- A bind value that looks like a number becomes one and may be printed differently: `007` loses zeros, numbers beyond the
  range of a long lose their value, and `1.50` becomes `1.500000`. The text is kept iff it is digits without superfluous
  leading zeros in the range of a long, or a decimal without superfluous leading zeros, with exactly six digits after the
  point, whose nearest double is within half a millionth of it, or no number at all (`ConstantKeepsTextIff`;
  `DecimalsLost`). Below 2^33 every decimal has such a double (`SmallSurvive`), 8589934592.000001 has none (`LargeLost`).
- Printing and parsing a result table is the identity iff it has attributes, its names are in lower case, and no text
  has a bar, a newline or blanks at its ends (`RoundTripIff`).

## Model

| member | source | states |
|---|---|---|
| `Names.FamiliesNested` | src/provenance_rewriter/prov_utility.c:450-476 | two variables whose generated names can coincide are one another's name plus a numeral, so pairwise non-extension rules out all collisions |
| `Names.ConstNameInjective` | src/analysis_and_translate/translator_dl.c:2492-2496 | names generated for constants differ between goals and between constants of one goal, although number and number are only separated by an underscore |
| `UniqueNames.MakeUniqueProps` | src/provenance_rewriter/prov_utility.c:450-476 | the resulting names are pairwise distinct, each is its old name or the old name plus a numeral, and first occurrences keep their name |
| `UniqueNames.UniqueUpToProps` | src/provenance_rewriter/prov_utility.c:456-475 | loop invariant of the renaming: cells visited so far are distinct from one another, also from cells renamed earlier |
| `UniqueNames.FindFree` | src/provenance_rewriter/prov_utility.c:466-470 | each search for an unused suffix terminates and stops at the first suffix that is free |
| `UniqueNames.MakeNamesUnique` | src/provenance_rewriter/prov_utility.c:450-476 | the counting loop with its two searches yields the list whose properties `MakeUniqueProps` proves |
| `AvoidedNames.GeneratedUnlisted` | src/provenance_rewriter/prov_utility.c:450-476 | a generated name is never one that was in the list, so no first occurrence is taken over |
| `AvoidedNames.ListedAvoided` | src/provenance_rewriter/prov_utility.c:450-476 | generated names avoid all names to avoid whenever these occur in the list |
| `AvoidedNames.GoalAvoids` | src/analysis_and_translate/translator_dl.c:2476-2520 | the call for the columns of a goal always avoids them |
| `AvoidedNames.FreshAvoidsIff` | src/provenance_rewriter/prov_utility.c:461-470 | the two searches for a suffix end at a name to avoid iff the suffixes taken in the list, from the first one outside the names to avoid on, run up to one of them |
| `AvoidedNames.AvoidsIff` | src/provenance_rewriter/prov_utility.c:450-476 | any call avoids the names to avoid iff that happens to no repeated name |
| `AvoidedNames.JoinAvoidsIff` | src/analysis_and_translate/translator_dl.c:1064-1100 | the call for a join avoids them iff it happens to no name shared by both sides, starting with suffix 1 |
| `AvoidedNames.JoinAvoidsStaticIff` | src/analysis_and_translate/translator_dl.c:1064-1100 | if no shared name extends another one, the condition is on the two schemas and the names to avoid before the call |
| `AvoidedNames.AllNamesNotAvoided` | src/provenance_rewriter/prov_utility.c:466-470 | a concrete list for which a generated name is one of the names to avoid |
| `AvoidedNames.AvoidingPasses` | src/analysis_and_translate/translator_dl.c:1064-1100 | a positive rule whose goals repeat no variable and have no constants passes the check on names if its joins avoid the names of later goals |
| `Algebra.DistinctProps` | src/analysis_and_translate/translator_dl.c:773-778 | duplicate removal keeps exactly the rows that occur, each once |
| `Algebra.MinusProps` | src/analysis_and_translate/translator_dl.c:2350-2354 | the difference used for negated goals is set difference: exactly the left rows that are not right rows, each once |
| `Datalog.AtomsConcat` | src/analysis_and_translate/translator_dl.c:695-711 | the goals of a body are those of its first part followed by those of the rest, so comparisons in between lose none and change no order |
| `Datalog.AtomsIn` | src/analysis_and_translate/translator_dl.c:695-711 | a goal is among the atoms iff it is one of the literals of the body |
| `Datalog.CheckRuleSafety` | src/model/datalog/datalog_model_checker.c:258-343 | the passes over goals, comparisons and head accept a rule iff every variable of a goal, of a comparison and of the head occurs in a positive goal |
| `Datalog.SafeIff` | src/model/datalog/datalog_model_checker.c:258-343 | range restriction of the literals is what the translation of positive goals, negated goals, comparisons and head needs, each of its own part of the rule |
| `Datalog.HasAggIff` | src/analysis_and_translate/translator_dl.c:789-903 | an expression counts as aggregating iff an aggregation call is somewhere in it |
| `GoalNaming.ColumnCalled` | src/analysis_and_translate/translator_dl.c:2476-2520 | in a goal every variable is the name of a column, which is its own or that of a constant of the goal |
| `GoalNaming.PositiveSide` | src/analysis_and_translate/translator_dl.c:1064-1174 | if columns of different goals that are called the same have the same argument, the join with a positive goal compares, for each shared variable, some pair of its columns, and no columns of different arguments |
| `GoalNaming.NegatedSide` | src/analysis_and_translate/translator_dl.c:725-742 | the same for the join with a negated goal, if its variables are found by name in the schema of the positive part |
| `GoalNaming.DistinctGoalsApart` | src/analysis_and_translate/translator_dl.c:1064-1174 | the joins of goals that repeat no variable and have no constants are apart, whatever the variables are called |
| `NamingProofs.CompatibleBody` | src/analysis_and_translate/translator_dl.c:673-743 | over compatible variables the names of every safe body, in any order, are apart, and no column of another variable is taken for one of the head's |
| `NamingProofs.CompatibleApart` | src/analysis_and_translate/translator_dl.c:673-786 | a safe rule over compatible variables passes the check iff its head variables are found, and always if its positive atoms come first |
| `RowProofs.GoalCondsMean` | src/analysis_and_translate/translator_dl.c:2361-2432 | the selection over a goal's table holds of a row iff the row has the constants of the atom and equal values wherever a variable repeats |
| `RowProofs.JoinCondsMean` | src/analysis_and_translate/translator_dl.c:1102-1174 | the generated join condition holds of two rows iff they agree on every pair of columns with the same original name |
| `RowProofs.StepMatches` | src/analysis_and_translate/translator_dl.c:1064-1174 | goal selection and join condition together hold of a row iff the row unifies with the atom under the binding of the rows joined so far |
| `RowProofs.ExtendComplete` | src/analysis_and_translate/translator_dl.c:673-786 | unification in the reference interpreter succeeds whenever some extension of the binding agrees with the row, and returns the least one |
| `RuleTranslator.CreateJoinCondOnCommonAttrs` | src/analysis_and_translate/translator_dl.c:1102-1174 | the nested loops over right columns and accumulated original names produce the condition characterised by `JoinCondsMean`, in order |
| `RuleTranslator.JoinGoalTranslations` | src/analysis_and_translate/translator_dl.c:1064-1100 | the loop that joins the goals, extends the original names and makes the schema unique builds the join characterised by `JoinUpToSolves` |
| `RuleProofs.JoinUpToSolves` | src/analysis_and_translate/translator_dl.c:1064-1100 | if the joins are apart, then after joining the first k goals the rows are, in order and number, the bindings that satisfy those k atoms |
| `RuleTranslator.SelectConstants` | src/analysis_and_translate/translator_dl.c:2361-2383 | one comparison per constant argument, the constant part of the condition characterised by `GoalCondsMean` |
| `RuleTranslator.EquateRepeats` | src/analysis_and_translate/translator_dl.c:2385-2421 | the comparisons between repeated variables, the other part of the condition characterised by `GoalCondsMean` |
| `RuleTranslator.NameColumns` | src/analysis_and_translate/translator_dl.c:2476-2520 | columns are named by their variable or by a counter of constants and then made unique, giving the names of `ColumnCalled` |
| `RuleTranslator.FinishGoal` | src/analysis_and_translate/translator_dl.c:2361-2527 | selection, projection and renaming are put on top of either kind of base, giving the goal of `RenamedGoalRows` |
| `RuleTranslator.ProjectPositivePart` | src/analysis_and_translate/translator_dl.c:2230-2263 | the loop over the arguments of a negated atom projects the positive part to the columns `NegBaseRows` relies on |
| `RuleTranslator.TranslateSafeGoal` | src/analysis_and_translate/translator_dl.c:2126-2527 | both branches, table access or projected positive part MINUS table access, end in the operators whose rows `RenamedGoalRows` and `NegBaseRows` give |
| `RuleTranslator.TranslatePositiveGoals` | src/analysis_and_translate/translator_dl.c:693-711 | positive goals are translated in order, under positions that count negated ones too, wherever these stand |
| `RuleTranslator.TranslateNegatedGoals` | src/analysis_and_translate/translator_dl.c:725-741 | negated goals are translated in order over the same filtered positive part |
| `RuleProofs.RenamedGoalRows` | src/analysis_and_translate/translator_dl.c:2361-2527 | a translated goal returns the selected rows of its base unchanged and in order; the final projection only renames |
| `RuleProofs.NegBaseRows` | src/analysis_and_translate/translator_dl.c:2199-2357 | `domain MINUS relation` has, for each binding of the positive part, the instance of the negated atom iff that instance is not in the relation |
| `RuleProofs.NegatedRemoved` | src/analysis_and_translate/translator_dl.c:725-742 | joining the negated goals back one after another keeps exactly the bindings whose instances are absent, in order and number |
| `RuleTranslator.CreateCondFromComparisons` | src/analysis_and_translate/translator_dl.c:1181-1219 | one comparison per test of the body, with variables replaced by columns, as characterised by `TestCondsMean` |
| `RuleProofs.TestCondsMean` | src/analysis_and_translate/translator_dl.c:1181-1242 | the condition built from the comparisons holds of a joined row iff all comparisons hold of its binding |
| `RuleTheorem.PositiveJoined` | src/analysis_and_translate/translator_dl.c:693-711 | for a safe rule the joined positive goals represent exactly the bindings the interpreter finds for the positive atoms |
| `RuleTheorem.FilteredJoined` | src/analysis_and_translate/translator_dl.c:711-722 | selecting by the comparisons below the negated goals keeps exactly the bindings that pass the tests |
| `RuleTheorem.BodyJoined` | src/analysis_and_translate/translator_dl.c:693-743 | the operators of a body that passes the check represent exactly the bindings that satisfy it, in order and number |
| `RuleTranslator.GetHeadProjectionExprs` | src/analysis_and_translate/translator_dl.c:905-1062 | the zip of body arguments with schema names finds for each variable a column that holds it under its plain name, and head expressions refer through that map to the values `ReplaceByMapValue` gives |
| `RuleTheorem.ReplaceByMapValue` | src/analysis_and_translate/translator_dl.c:1010-1062 | a rewritten head expression has on a joined row the value the head expression has under the binding |
| `RuleTheorem.PlainHeadRows` | src/analysis_and_translate/translator_dl.c:905-1062 | projecting the joined rows yields the head images of the bindings, one for one |
| `RuleTranslator.TranslateHeadAggregation` | src/analysis_and_translate/translator_dl.c:789-903 | the loop over the head separates aggregates from group-by columns and remembers the order by generated names; it refuses exactly the heads that mix in other expressions |
| `RuleTheorem.HeadColumn` | src/analysis_and_translate/translator_dl.c:789-903 | column i of the final projection is the value of head argument i for the group, although all aggregates come before all group-by columns in the aggregation's output |
| `RuleTheorem.GroupRowIsHead` | src/analysis_and_translate/translator_dl.c:789-903 | one aggregation row, projected by the remembered names, is the head of its group, for any interleaving |
| `RuleTheorem.AggHeadRows` | src/analysis_and_translate/translator_dl.c:789-903 | an aggregating head yields one row per distinct key, and one row over no bindings when all arguments are aggregates |
| `RuleTranslator.TranslateSafeRule` | src/analysis_and_translate/translator_dl.c:673-786 | the translator of one rule, with all its loops, which run over the literals of the body, returns the tree of `RulePreserved` or fails when that says so |
| `RuleTheorem.RulePreserved` | src/analysis_and_translate/translator_dl.c:673-786 | a safe rule that passes the check on names is translated iff its head is allowed, and the tree evaluates on every database to exactly the rows the rule derives |
| `RuleTheorem.TranslatedIff` | src/analysis_and_translate/translator_dl.c:673-786 | without any assumption on names, a safe rule is translated iff every head variable has a column of its name that is its own and the head mixes aggregation with nothing else |
| `Declarative.SolveFinds` | src/analysis_and_translate/translator_dl.c:673-786 | the interpreter's bindings of positive atoms are exactly those over the atoms' variables whose instances are all in the database |
| `Declarative.BodyBindingsSatisfy` | src/analysis_and_translate/translator_dl.c:673-786 | the bindings of a body are exactly those over the variables of its positive goals under which every goal of the body is in the database iff it is not negated, and every comparison holds |
| `Declarative.BodyBindingsCount` | src/analysis_and_translate/translator_dl.c:673-786 | a satisfying binding is found exactly as often as rows can be chosen for the positive goals, which is what aggregates count |
| `Declarative.RuleResult` | src/analysis_and_translate/translator_dl.c:673-786 | without aggregation the translation of a rule that passes the check returns a row iff it is the head image of a binding that satisfies every literal of the body, and returns it once |
| `NameClash.ClashIsEmpty` | src/analysis_and_translate/translator_dl.c:1064-1174 | two goals that carry different values under one name join to nothing, whatever comes before, between and after |
| `NameClash.ApartIffPreserved` | src/analysis_and_translate/translator_dl.c:673-786 | a safe rule that joins different relations, without comparisons and negation, is translated correctly on all databases iff it passes the check on names |
| `NameClash.LaterNameLost` | src/analysis_and_translate/translator_dl.c:1064-1100 | a safe rule without repeated variables in a goal and without constants that the translator gives up on, because the name generated for a shared variable is that of a variable of a later goal |
| `NameClash.VariablesClash` | src/analysis_and_translate/translator_dl.c:1064-1174 | for any two variables of which one is the other plus a numeral there are a safe rule over just these and a database on which the translation is wrong |
| `NameClash.ConstantClashes` | src/analysis_and_translate/translator_dl.c:2476-2520 | the same for a variable whose columns can be named like a constant's |
| `NameClash.NegatedFirstLost` | src/analysis_and_translate/translator_dl.c:905-1062 | a safe rule over compatible variables, with a negated atom first, that the translator gives up on |
| `NameClash.HeadNamedIffPreserved` | src/analysis_and_translate/translator_dl.c:905-1062 | a safe rule over compatible variables with a permitted head is translated correctly on all databases iff its head variables are found |
| `NameClash.CompatibleIffPreserved` | src/analysis_and_translate/translator_dl.c:673-786 | all safe rules over a set of variables whose positive atoms come first are translated correctly on all databases iff the set is compatible |
| `Program.ExpandNoDerived` | src/analysis_and_translate/translator_dl.c:2529-2596 | substituting predicate trees down to the stored relations leaves no access to a derived relation |
| `Program.ExpandEval` | src/analysis_and_translate/translator_dl.c:2529-2596 | evaluating the substituted tree is evaluating the original over a database that stores the results of the substituted trees |
| `ProgramTheorem.PredTreeEval` | src/analysis_and_translate/translator_dl.c:205-257 | the union of a predicate's rules and facts, without duplicates when there are several, evaluates to the rows the program gives the predicate |
| `ProgramTheorem.ProgramRanked` | src/analysis_and_translate/translator_dl.c:147-334 | in every predicate tree of a non-recursive program all derived accesses have lower rank, and no tree is itself an access |
| `ProgramTheorem.ProgramPreserved` | src/analysis_and_translate/translator_dl.c:147-334 | for every non-recursive program of safe rules that pass the check, every derived predicate and every stored database: the expanded tree has no derived access and evaluates to the derived rows |
| `ProgramTheorem.DerivedRows` | src/analysis_and_translate/translator_dl.c:147-334 | a row belongs to a predicate iff it is stated by a fact or is the head image of a binding that satisfies every literal of one of its rules |
| `PlanGraph.Graph.AddNode` | src/analysis_and_translate/translator_dl.c:231-257 | adding an operator keeps every node's tree and records the new node as parent of its inputs |
| `PlanGraph.Graph.AttrNames` | src/analysis_and_translate/translator_dl.c:240-255 | the names read off the graph are those of the tree the node stands for |
| `PlanGraph.Graph.AddTree` | src/analysis_and_translate/translator_dl.c:205-229 | adding a tree's operators changes no earlier node and yields a node that stands for the tree; occurrences of a tree that is shared become its one node, so that only the others count |
| `ProgramTranslator.AddRule` | src/analysis_and_translate/translator_dl.c:684-743 | a rule's node stands for its tree, and the joined positive part, which every negated goal projects, is in the graph once |
| `PlanGraph.Graph.AdaptUser` | src/provenance_rewriter/prov_utility.c:328-346 | in one user other than the two nodes every input that is the old node becomes the new one |
| `PlanGraph.Graph.RedirectUsers` | src/provenance_rewriter/prov_utility.c:324-347 | in the inputs of the listed nodes, except the two nodes themselves, the new node takes the place of the old one; nothing else changes but one parent list |
| `PlanGraph.Graph.RemoveParent` | src/provenance_rewriter/prov_utility.c:482-487 | exactly the given parent is taken out of the list, all occurrences |
| `PlanGraph.Graph.SwitchSubtreeWithExisting` | src/provenance_rewriter/prov_utility.c:316-353 | complete new links and parents of all nodes: users of either node use the new one, and the parent lists of the two are merged |
| `PlanGraph.RedirectReplaces` | src/provenance_rewriter/prov_utility.c:316-353 | when the parent lists cover all users, that redirection replaces every link to a derived access by a link to the predicate's root and changes no other |
| `PlanGraph.SpliceStep` | src/analysis_and_translate/translator_dl.c:2542-2563 | one replacement keeps the invariant of splicing: acyclicity, complete parent lists, and that the graph differs from the start exactly by the accesses replaced |
| `PlanGraph.StillReaches` | src/analysis_and_translate/translator_dl.c:2529-2596 | an access reachable at the start is replaced already or still reachable, so walking the changed graph misses none |
| `PlanGraph.Graph.FindTableAccesses` | src/provenance_rewriter/prov_utility.c:381-393 | the visitor terminates on the shared graph and collects exactly the reachable table accesses |
| `PlanGraph.SpellsExpanded` | src/analysis_and_translate/translator_dl.c:2529-2596 | once all accesses below the roots are replaced, every node stands for its tree with derived accesses expanded |
| `PlanGraph.SpellsUnique` | src/analysis_and_translate/translator_dl.c:2529-2596 | a node stands for one tree only |
| `PlanGraph.ResultIs` | src/analysis_and_translate/translator_dl.c:147-334 | running the graph from a node returns what the tree evaluates to that the node stands for, however much is shared |
| `PlanGraph.NoDerivedBelow` | src/analysis_and_translate/translator_dl.c:2529-2596 | no path from a node whose tree has no derived access leads to a derived access |
| `PlanGraph.BuiltLayered` | src/analysis_and_translate/translator_dl.c:205-257 | the graph as built admits heights that decrease along links and from accesses to roots, so splicing cannot create cycles |
| `PlanGraph.Graph.ConnectRoot` | src/analysis_and_translate/translator_dl.c:2536-2591 | after one root has been treated, all derived accesses that were below it are replaced and the invariant still holds |
| `PlanGraph.Graph.Connect` | src/analysis_and_translate/translator_dl.c:2529-2596 | after all roots, in any order, every predicate's node stands for its fully expanded tree |
| `ProgramTranslator.TranslateFactsAndRules` | src/analysis_and_translate/translator_dl.c:205-229 | every fact and rule gets one node and is listed under its predicate in program order; it fails iff some rule cannot be translated |
| `ProgramTranslator.UnionTranslations` | src/analysis_and_translate/translator_dl.c:231-257 | the loop builds left-deep unions over a predicate's nodes and, only when there are several, a duplicate removal on top |
| `ProgramTranslator.UnionPredicates` | src/analysis_and_translate/translator_dl.c:231-257 | every derived predicate gets one root, whatever the order of the map's entries |
| `ProgramTranslator.TranslateProgram` | src/analysis_and_translate/translator_dl.c:147-334 | returns an answer node iff all rules are translatable and the answer relation is derived; the node stands for the expanded tree of the answer relation |
| `ProgramTranslator.AnswerPreserved` | src/analysis_and_translate/translator_dl.c:147-334 | running the spliced graph from the answer node, inputs in their order, returns the rows the program derives, and no path from there reaches an access to a derived relation |
| `TypeAnalysis.TypingUnique` | src/analysis_and_translate/translator_dl.c:336-498 | the agreed types of a non-recursive program are determined by the catalog, the facts and the rules |
| `TypeAnalysis.TypeAnalyzer.AnalyzeRuleDTs` | src/analysis_and_translate/translator_dl.c:411-498 | whenever some typing fits the program, analysing a rule fits its goals and records for its head the types that the columns of the last occurrences of its variables have |
| `TypeAnalysis.TypeOfHas` | src/analysis_and_translate/translator_dl.c:452-470 | the type the loop over the goals gives an expression is the one determined by the last occurrence of its variables in the body, whatever stands between the goals |
| `TypeAnalysis.TypeAnalyzer.AnalyzeAtom` | src/analysis_and_translate/translator_dl.c:411-498 | the types used for a body atom are those of the heads of its predicate, or of the stored table |
| `TypeAnalysis.TypeAnalyzer.AnalyzeRulesOf` | src/analysis_and_translate/translator_dl.c:411-498 | typing all rules of a predicate types it if it has a rule |
| `TypeAnalysis.TypeAnalyzer.AnalyzePredicate` | src/analysis_and_translate/translator_dl.c:411-498 | a derived predicate has types afterwards, from a rule or from a fact |
| `TypeAnalysis.TypeAnalyzer.AnalyzeProgramDTs` | src/analysis_and_translate/translator_dl.c:336-397 | after the analysis every rule and fact has, column by column, the types that the stored tables and facts give: a variable that of the column of its last occurrence in the body, a constant its own |
| `DependencyGraph.CreateRelToRelGraph` | src/analysis_and_translate/analyze_dl.c:146-188 | the relations of heads and goals are the nodes, and there is an edge from a head to a relation iff a goal among the literals of one of its rules reads it |
| `DependencyGraph.HasSink` | src/analysis_and_translate/analyze_dl.c:146-188 | in a graph without cycles every nonempty set of relations has one that depends on none of the set |
| `DependencyGraph.AcyclicIff` | src/analysis_and_translate/analyze_dl.c:146-188 | the graph of a program has no cycle iff the program has a rank, that is, is not recursive |
| `TypeAnalysis.TypeAnalyzer.AnalyzeAcyclicProgram` | src/analysis_and_translate/translator_dl.c:336-498 | the typing recursion terminates and types every rule whenever the dependency graph has no cycle |
| `HashLinks.PushBack` | include/uthash.h:229-240 | linking an element after the cached tail extends the doubly linked list by it |
| `HashLinks.PushFront` | include/uthash.h:690-698 | linking an element before a bucket's head puts it in front of the chain |
| `HashLinks.Unlink` | include/uthash.h:279-295 | bypassing an element through its own two links leaves the list without it, at both ends too |
| `HashLinks.Untouched` | include/uthash.h:226-301 | changing links of elements outside a list leaves the list intact |
| `HashMasks.MaskIsMod` | include/uthash.h:251-254 | masking with one less than a power of two is the remainder |
| `HashMasks.ShiftIsDiv` | include/uthash.h:756-758 | shifting right is division by a power of two |
| `HashMasks.CeilByMask` | include/uthash.h:716-758 | the shift-and-mask formula for the ideal chain length rounds the quotient up |
| `HashBuckets.BucketedAdd` | include/uthash.h:690-698 | putting a new element into the chain its hash selects keeps every chain, every count and the placement of all elements right |
| `HashBuckets.BucketedDelete` | include/uthash.h:704-714 | taking an element out of its chain does the same for the remaining elements |
| `HashBuckets.PushedSums` | include/uthash.h:765-771 | an element moved into a chain adds one to the items, and one to the surplus iff the chain then exceeds the ideal length |
| `HashExpansion.MovePlaced` | include/uthash.h:762-778 | moving the next element of an old chain keeps: new chains hold exactly the elements visited so far, each in the chain its hash selects |
| `HashExpansion.MoveKeepsRest` | include/uthash.h:762-778 | the links of elements not yet moved survive the move, so the saved successor is right |
| `HashExpansion.AllMoved` | include/uthash.h:745-791 | after the last chain no element is lost or duplicated and each is in the chain its hash selects |
| `HashCalls.LookupAfter` | include/uthash.h:92-301 | what every key is mapped to after each call: added and replaced keys to the new element, the deleted element to nothing, all others, and all keys after sorting, as before |
| `HashCalls.StepUnique` | include/uthash.h:191-301 | every allowed call keeps keys distinct |
| `HashCalls.AllowedIff` | include/uthash.h:191-301 | a call that adds is allowed iff keys stay unique, one that deletes iff the element is there, and no other call asks for anything |
| `HashSpec.LookedUnique` | include/uthash.h:92-103 | what find returns is determined by the key |
| `HashSpec.LookupSame` | include/uthash.h:798-883 | permuting the application order changes no lookup |
| `HashTable.HashTable.constructor` | include/uthash.h:92-103 | the null head is a valid empty table |
| `HashTable.HashTable.FindInBucket` | include/uthash.h:661-672 | walking a chain returns an element of it with the key, or NULL iff it has none |
| `HashTable.HashTable.Find` | include/uthash.h:92-103 | find returns the element with the key, or NULL iff there is none, with or without the bloom filter |
| `HashTable.HashTable.LookedUp` | include/uthash.h:92-159 | looking only into the selected bucket, and only if the filter passes, misses nothing |
| `HashTable.HashTable.MakeTable` | include/uthash.h:169-186 | a fresh table has 32 empty buckets without multipliers, no element and no filter bit; expansion is on and no expansion has been made |
| `HashTable.HashTable.AddToBucket` | include/uthash.h:690-701 | the element is in its chain, and the buckets have doubled with exact statistics iff the bucket was full and expansion is on |
| `HashTable.HashTable.AppendToOrder` | include/uthash.h:226-241 | the new element is last in application order, `tail` and `num_items` follow, and the first element creates the table |
| `HashTable.HashTable.Add` | include/uthash.h:226-250 | the whole invariant is kept and the element is appended; the first element makes a table of 32 buckets with expansion on; later the buckets double iff expansion is on and the elements whose hash value selects the bucket, the new one included, are at least ten times one more than its multiplier; expansion once switched off stays off |
| `HashTable.HashTable.GrowsIff` | include/uthash.h:690-701 | the guard on the counter of the bucket is that guard on the number of elements whose hash value is congruent to the new one |
| `HashTable.HashTable.ExpansionLaw` | include/uthash.h:745-791 | expansion is off iff the last two expansions left more than half of the elements beyond the ideal chain length, and the number of buckets is 32 doubled once per expansion |
| `HashTable.HashTable.BloomAfter` | include/uthash.h:152-159 | a hash value passes the filter iff it agrees in the low bits with one that was added |
| `HashTable.HashTable.ExpandBuckets` | include/uthash.h:745-791 | twice as many buckets, same elements, all chains rebuilt; ideal length is the rounded-up quotient, surplus is the sum over buckets, multipliers are count divided by ideal or 0, and the ineffective-expansion rule is applied |
| `HashTable.HashTable.EmptyChain` | include/uthash.h:762-778 | one old chain is moved completely, later chains are untouched, counts and surplus grow by exactly the moved elements |
| `HashTable.HashTable.UnlinkFromOrder` | include/uthash.h:279-295 | the element leaves the application order; head and tail are adjusted when it was first or last |
| `HashTable.HashTable.DeleteFromBucket` | include/uthash.h:296-297 | the element leaves its chain, and all other chains and statistics stay |
| `HashTable.HashTable.Delete` | include/uthash.h:268-301 | the whole invariant is kept, exactly the element disappears, and deleting the only one empties the table |
| `HashTable.HashTable.Replace` | include/uthash.h:191-199 | returns the element with the same key, which is gone afterwards; the new one is last; expansion that is off stays off unless the table was emptied in between |
| `HashTable.HashTable.Do` | include/uthash.h:92-301 | each call has the effect and the result of the abstract insertion-ordered map |
| `HashTable.HashTable.Run` | include/uthash.h:92-301 | any sequence of allowed calls, with sorting among them, keeps the invariant and behaves like the abstract map in every result and in the final order; expansion is off afterwards iff the last two expansions were ineffective, and it then stays off, and the number of buckets with it, as long as the table is never emptied |
| `HashTable.HashTable.Iterate` | include/uthash.h:944-954 | iteration with the successor fetched in advance visits every element once, in application order |
| `HashCheck.CheckChain` | include/uthash.h:340-376 | the walk with its back-link test terminates, accepts exactly the proper lists, and counts their elements |
| `HashCheck.WalkPrefix` | include/uthash.h:340-376 | a walk whose back links have been right so far stays on any proper list that starts at the same element |
| `HashCheck.Fsck` | include/uthash.h:331-381 | the integrity check passes iff chains and application order are proper lists of the recorded lengths |
| `HashTable.HashTable.Check` | include/uthash.h:331-381 | it passes on every table that satisfies the invariant |
| `HashSort.MergeSorted` | include/uthash.h:824-868 | merging two stably sorted neighbouring runs gives a stably sorted run |
| `HashSort.PassSorted` | include/uthash.h:808-873 | one pass keeps all runs stably sorted and in their original order |
| `HashSort.PassSizes` | include/uthash.h:807-880 | one pass doubles the run length and halves the number of runs, so the passes end for any list length |
| `HashSort.MergeSortProps` | include/uthash.h:798-883 | repeated passes give a permutation which, for a total preorder, is the stable sort |
| `HashSort.SortedByNumber` | include/uthash.h:798-883 | for a comparison by a number of each element the list ends up ascending, and equal elements keep their order |
| `HashSort.StableSortUnique` | include/uthash.h:798-883 | a stable sort of a list is unique, so the outcome is fully determined |
| `HashSortLinks.MergeLeft` | include/uthash.h:825-868 | appending the first element of the left run to the output keeps output, rest of that run and remaining input apart and linked |
| `HashSortLinks.MergeRight` | include/uthash.h:825-868 | the same for the right run |
| `HashTable.HashTable.SkipRun` | include/uthash.h:814-822 | stepping over a run stops at its end or at the end of the list and counts it |
| `HashTable.HashTable.AppendSorted` | include/uthash.h:857-867 | linking one element behind the output sets exactly its back link and the forward link of the last element |
| `HashTable.HashTable.MergeRuns` | include/uthash.h:823-869 | merging in place links exactly the merged sequence behind the output and stops at the next run |
| `HashTable.HashTable.SortPass` | include/uthash.h:808-873 | one pass leaves a proper doubly linked list of the pairwise merged runs and counts the merges |
| `HashTable.HashTable.SortList` | include/uthash.h:804-880 | the passes terminate with exactly the list of `MergeSortProps`, properly linked both ways |
| `HashTable.HashTable.Sort` | include/uthash.h:798-883 | sorting in place keeps the whole invariant, is a stable sorted permutation with correct back links, head and tail, and touches neither buckets nor chains |
| `Sql.FlatMapBag` | src/analysis_and_translate/translate_update.c:182-308 | row-wise images of equal bags are equal bags |
| `Sql.RowsBag` | src/provenance_rewriter/update_and_transaction/prov_update_and_transaction.c:145-188 | queries map equal bags to equal bags, so a table may be replaced by a query that returns it in another order |
| `Sql.SubstituteRows` | src/provenance_rewriter/update_and_transaction/prov_update_and_transaction.c:160-180 | a query with subqueries put in place of tables returns what it returns when the tables hold the subqueries' results |
| `Updates.GenerateProjection` | src/analysis_and_translate/translate_update.c:233-280 | the nested loops give for every column the expression characterised by `ProjExprEval`, with or without a condition |
| `Updates.ProjExprEval` | src/analysis_and_translate/translate_update.c:233-280 | a column's expression yields the cell of the simultaneously assigned row on affected rows and the old cell elsewhere |
| `Updates.CaseFormExact` | src/analysis_and_translate/translate_update.c:282-308 | the CASE form, and the form without condition, is row-wise simultaneous assignment under three-valued logic |
| `Updates.UnionFormLoses` | src/analysis_and_translate/translate_update.c:182-231 | executing the update returns the union form's bag plus exactly the rows whose condition is unknown |
| `Updates.UnionFormExactIff` | src/analysis_and_translate/translate_update.c:182-231 | the union form is exact iff the condition is true or false on every row |
| `Updates.DeleteLoses` | src/analysis_and_translate/translate_update.c:159-180 | executing a delete returns the translation's bag plus exactly the rows whose condition is unknown |
| `Updates.DeleteExactIff` | src/analysis_and_translate/translate_update.c:159-180 | the translated delete is exact iff the condition is true or false on every row |
| `Reenactment.Analyzer.constructor` | src/analysis_and_translate/analyze_oracle.c:3009-3050 | the analyzer starts with the catalog's schemas visible |
| `Reenactment.Analyzer.GetSchema` | src/analysis_and_translate/analyze_oracle.c:2041-2056 | the schema carried by the analyzer wins over the catalog's |
| `Reenactment.Analyzer.AnalyzeCreateTable` | src/analysis_and_translate/analyze_oracle.c:2779-2820 | an existing table is refused and leaves all schemas alone; otherwise exactly the new table becomes visible |
| `Reenactment.Analyzer.AnalyzeAlterTable` | src/analysis_and_translate/analyze_oracle.c:2822-2870 | accepted iff the table is visible and the added column is not there or the removed column is there; then the schema before is recorded, with the column appended or taken out after, and only this table's schema changes |
| `Reenactment.Analyzer.RemoveFromList` | src/analysis_and_translate/analyze_oracle.c:2822-2870 | the loop keeps the other columns in their order |
| `Reenactment.Analyzer.AnalyzeStatement` | src/analysis_and_translate/analyze_oracle.c:2779-2870 | accepted iff a created table is not visible, an altered table passes the test for its column, and any other table is visible; the recorded schemas are those before and after, and only this table's changes |
| `Reenactment.AnalyzedIff` | src/analysis_and_translate/analyze_oracle.c:2779-2870 | the specification of the analyzer accepts exactly these statements and records exactly these schemas |
| `Reenactment.KeptAround` | src/analysis_and_translate/analyze_oracle.c:2822-2870 | taking out a column leaves what was before it followed by what was behind it |
| `Reenactment.KeptByPosition` | src/analysis_and_translate/translate_update.c:86-118 | looking the remaining names up in the old schema finds the remaining cells, if the remaining names are distinct |
| `Reenactment.RemovedRow` | src/analysis_and_translate/translate_update.c:86-118 | the projection for a removed column yields each row without its cell |
| `Reenactment.RemoveColumnExactIff` | src/analysis_and_translate/translate_update.c:86-118 | it does so for all rows iff the remaining names are distinct |
| `History.TranslatedRows` | src/analysis_and_translate/translate_update.c:40-308 | what the operators of each kind of statement return on the old state |
| `History.StatementExactIff` | src/analysis_and_translate/translate_update.c:40-308 | the translated query returns the bag of executing the statement iff the condition is decided where that matters, and its columns are those the analyzer recorded |
| `History.SchemasAgree` | src/analysis_and_translate/analyze_oracle.c:2779-2870 | after any history the analyzer accepts, its schemas are those of the executed tables, which stay well formed |
| `History.AcceptedIff` | src/analysis_and_translate/analyze_oracle.c:2779-2870 | a history is accepted iff every statement is acceptable and legal on the tables that executing the statements before it left |
| `History.LegalIff` | src/analysis_and_translate/analyze_oracle.c:2779-2870 | for an acceptable statement without a query, legal means that executing it leaves all tables with distinct columns and rows of their width |
| `History.MergeUpdates` | src/provenance_rewriter/update_and_transaction/prov_update_and_transaction.c:145-188 | the loop replaces table accesses in each statement by the current queries of those tables, then makes the statement the current one of its table |
| `History.ReenactStep` | src/provenance_rewriter/update_and_transaction/prov_update_and_transaction.c:145-188 | merging one more statement keeps the invariant: over the tables before the history, the current queries return all tables' present contents |
| `History.HistoryReenacted` | src/provenance_rewriter/update_and_transaction/prov_update_and_transaction.c:89-225 | for every accepted history with decided conditions the merged queries return, over the initial tables alone, the bags and columns of executing the statements one by one |
| `Grouping.PreparedValue` | src/analysis_and_translate/translator_oracle.c:2205-2272 | after the first phase an accepted expression has on the group of projected rows the value the original has on the group |
| `Grouping.AcceptedIff` | src/analysis_and_translate/analyze_oracle.c:1512-1546 | an expression passes the search for stray references iff no path down from it, stopping at aggregates and at grouping expressions, ends in an attribute reference |
| `Grouping.AggsOfIff` | src/analysis_and_translate/translator_oracle.c:2022-2091 | the collected aggregates are exactly those that a path reaches without passing through another aggregate |
| `Grouping.PreparedAggs` | src/analysis_and_translate/translator_oracle.c:2022-2091 | the aggregates found in a rewritten expression are the rewritten aggregates, so the ones collected before the rewrite still match |
| `Grouping.PreparedAccepted` | src/analysis_and_translate/translator_oracle.c:2155-2203 | the first phase leaves no stray attribute reference |
| `Grouping.FinalValue` | src/analysis_and_translate/translator_oracle.c:2155-2203 | after the second phase an expression has on the aggregation's output row the value of the group |
| `Grouping.FinalRefs` | src/analysis_and_translate/translator_oracle.c:2155-2203 | and refers to nothing but columns of that output |
| `Grouping.RefersBelowIff` | src/analysis_and_translate/translator_oracle.c:2155-2203 | which means that no part of it, at any depth, is an aggregate or a reference to anything else |
| `AggregationRewrite.PlanOutput` | src/analysis_and_translate/translator_oracle.c:1998-2091 | for each group, HAVING decides as it does on the group and SELECT yields the group's values |
| `AggregationRewrite.PlanGroups` | src/analysis_and_translate/translator_oracle.c:2205-2272 | grouping the projected rows finds the same keys in the same order |
| `AggregationRewrite.GroupKeysAre` | src/analysis_and_translate/translator_oracle.c:1998-2091 | the groups of a block are the values of the grouping expressions on its input rows, each once; without grouping expressions there is one group |
| `AggregationRewrite.MembersAre` | src/analysis_and_translate/translator_oracle.c:1998-2091 | a group has the rows with its key, each as often as it occurs |
| `AggregationRewrite.OutputIs` | src/analysis_and_translate/translator_oracle.c:1998-2091 | a row is in the result iff it has the SELECT values of a group that passes HAVING |
| `AggregationRewrite.IsGroupedIff` | src/analysis_and_translate/translator_oracle.c:1998-2091 | the rewrite is chosen iff there is GROUP BY or some path in SELECT or HAVING reaches an aggregate |
| `AggregationRewrite.BlockPreserved` | src/analysis_and_translate/translator_oracle.c:2022-2091 | for every block the analyzer accepts that has an aggregate or GROUP BY, the operators return exactly the rows the block means |
| `AggregationRewrite.BlockRefs` | src/analysis_and_translate/translator_oracle.c:2022-2091 | all its SELECT and HAVING expressions refer only to columns of the aggregation's output |
| `AggregationRewrite.HavingAloneExactIff` | src/analysis_and_translate/translator_oracle.c:1998-2091 | HAVING with neither is translated correctly iff there is one input row or the condition does not hold |
| `SetOperations.SetQueryPreserved` | src/analysis_and_translate/translator_oracle.c:414-483 | for every nested tree of set operations with any mix of ALL and DISTINCT, every row gets the multiplicity section 7.10 of SQL-92 requires |
| `SetOperations.DifferenceBelow` | src/analysis_and_translate/translator_oracle.c:449-468 | why duplicates are removed below a difference: removing them above is right for a row iff the left side does not have it more often than a right side that has it |
| `NameResolution.FindAttrInFromItem` | src/analysis_and_translate/analyze_oracle.c:1154-1191 | the position of the name if it occurs once, absent iff it does not occur, failure iff it occurs more often |
| `NameResolution.FindAttrRefInFrom` | src/analysis_and_translate/analyze_oracle.c:1068-1122 | a found reference denotes the only column of that name in the innermost scope that has one; ambiguity is reported iff an item has it twice or two items of that scope have it; what an item has is said by its leaves (`HasIff`) |
| `NameResolution.AttrsAt` | src/analysis_and_translate/analyze_oracle.c:1439-1459 | the name at a position of a join is that of the leaf column at this position, with the columns of the left input before those of the right one |
| `NameResolution.HasIff` | src/analysis_and_translate/analyze_oracle.c:1439-1459 | a join has a name iff one of its leaves has it, and has it twice iff two columns of its leaves do |
| `NameResolution.FindNamedFirst` | src/analysis_and_translate/analyze_oracle.c:1124-1152 | the search in a join tree finds the leftmost leaf of that name, and nothing iff no leaf has it |
| `NameResolution.FindQualifiedAttrRefInFrom` | src/analysis_and_translate/analyze_oracle.c:1219-1307 | a found reference denotes a column of the only item, in any scope, with a leaf of that name; two such items anywhere are ambiguous; with one item, not found and ambiguous are reported iff its leaf lacks the attribute or has it twice |
| `NameResolution.AdaptAttrPosOffset` | src/analysis_and_translate/analyze_oracle.c:1309-1324 | adds the widths of the leaves before the first leaf of that name |
| `NameResolution.LeafValue` | src/analysis_and_translate/analyze_oracle.c:1309-1324 | leaf offset plus position indexes, in the row of a join tree, the value in the row of the leaf |
| `NameResolution.QualifiedValue` | src/analysis_and_translate/analyze_oracle.c:1219-1324 | with distinct leaf names a qualified reference reads the leaf it names |
| `NameResolution.GetAttrsOffsets` | src/analysis_and_translate/translator_oracle.c:1256-1284 | the accumulating loop gives each FROM item the total width of the items before it |
| `NameResolution.ItemValue` | src/analysis_and_translate/translator_oracle.c:1151-1284 | item offset plus position indexes, in the concatenated row, the value in the row of the item |
| `NameResolution.RepositionValue` | src/analysis_and_translate/translator_oracle.c:1863-1883 | a rewritten expression has on the concatenated row the value the resolved one has on the items' rows |
| `NameResolution.ResolvedIff` | src/analysis_and_translate/translator_oracle.c:1863-1883 | what that asks of an expression is that every reference in it, at any depth, is to a column of an item |
| `NameResolution.ResolvedReads` | src/analysis_and_translate/analyze_oracle.c:1068-1122 | a reference resolved by name and then rewritten reads, in the concatenated row of its scope, the value of a leaf column of that name, and no other column of any leaf of the scope has the name |
| `NameResolution.QualifiedReads` | src/analysis_and_translate/analyze_oracle.c:1219-1324 | a qualified reference, through leaf offset, item offset and rewriting, reads there the column of the leaf it names |
| `NameResolution.RepositionTwice` | src/analysis_and_translate/translator_oracle.c:1863-1883 | rewriting positions a second time changes nothing, for every expression, since item 0 has offset 0 |
| `NameResolution.OffsetsStart` | src/analysis_and_translate/translator_oracle.c:1256-1284 | item 0 has offset 0 |
| `BindParameters.OracleBindToConsts` | src/analysis_and_translate/parameter.c:143-182 | the loop terminates, returns the constants of the parsed values on well-formed input, and an error otherwise |
| `BindParameters.HeaderReadBack` | src/analysis_and_translate/parameter.c:143-182 | a header is read back up to the first character of its value, whatever the value looks like |
| `BindParameters.HeaderIff` | src/analysis_and_translate/parameter.c:143-182 | a header is read iff the text starts with a number sign, a numeral, and a length in parentheses with a colon behind, blanks allowed before the sign and before both numbers |
| `BindParameters.ParseEncode` | src/analysis_and_translate/parameter.c:143-182 | parsing the encoding of any list of strings gives the list, also when values look like headers |
| `BindParameters.ParseIff` | src/analysis_and_translate/parameter.c:143-182 | parsing succeeds with a list of values iff the text is headers and values of these lengths one after the other, nothing else |
| `BindParameters.ConstantKeepsTextIff` | src/analysis_and_translate/parameter.c:188-198 | for every value, exactly when the printed constant shows its text: canonical digits in the range of a long, decimals with six fraction digits, canonical, that survive the double, and everything else |
| `BindParameters.KindOfConstant` | src/analysis_and_translate/parameter.c:188-198 | digits become a long, clamped to its range, digits around a point a double, and everything else stays a text |
| `BindParameters.SmallDecimalIff` | src/analysis_and_translate/parameter.c:188-198 | for decimals below 2^33 the six digits and the absence of leading zeros decide |
| `BindParameters.NoLongShows` | src/analysis_and_translate/parameter.c:188-198 | digits beyond the range of a long are shown by no long, so clamping cannot be right for them |
| `BindParameters.DecimalsLost` | src/analysis_and_translate/parameter.c:188-198 | two concrete decimals that are printed differently |
| `Doubles.RoundIffNearest` | src/analysis_and_translate/parameter.c:188-198 | rounding a quotient yields exactly its nearest integer, ties to even, which the conversion to a double and its printing both use |
| `Doubles.ToDoubleNearest` | src/analysis_and_translate/parameter.c:188-198 | of all numbers with a mantissa of 53 bits none is nearer to a decimal than the one it is read into |
| `Doubles.ToDoubleHeld` | src/analysis_and_translate/parameter.c:188-198 | and that one has such a mantissa |
| `Doubles.InfiniteIff` | src/analysis_and_translate/parameter.c:188-198 | it is infinity iff the decimal is at least half a unit above the largest double |
| `Doubles.SurvivesIff` | src/model/expression/expr_to_sql.c:114-116 | a number of millionths is printed back iff its nearest double is within half a millionth of it |
| `Doubles.SmallSurvive` | src/model/expression/expr_to_sql.c:114-116 | all numbers of millionths below 2^33 are printed back |
| `Doubles.LargeLost` | src/model/expression/expr_to_sql.c:114-116 | 2^33 and a millionth is not |
| `BindParameters.SubstituteEnumerated` | src/analysis_and_translate/parameter.c:50-73 | numbering from an offset and substituting fills in consecutive values, in every subtree |
| `BindParameters.EnumeratedSubstitution` | src/analysis_and_translate/analyze_oracle.c:492-500 | after numbering, the i-th parameter in traversal order is replaced by the i-th value |
| `BindParameters.CountIs` | src/analysis_and_translate/analyze_oracle.c:492-500 | the number of parameters is their number among the leaves in traversal order |
| `BindParameters.SubstitutedLeaves` | src/analysis_and_translate/parameter.c:50-73 | after numbering and substituting, each leaf that was a parameter has the value whose index is the number of parameters before it, and all other leaves are as they were |
| `ResultTables.RewrittenSame` | blackboxtests/gprom_blackbox_tests.py:281-289 | an overwritten row depends only on its normal and provenance columns |
| `ResultTables.KindIs` | blackboxtests/gprom_blackbox_tests.py:232-243 | which columns keep the books, which hold provenance and which are normal |
| `ResultTables.SortedProps` | blackboxtests/gprom_blackbox_tests.py:279-281 | sorting a group by its provenance columns keeps the bag and is ascending |
| `ResultTables.LeTextIff` | blackboxtests/gprom_blackbox_tests.py:279-281 | texts are ordered by the first character in which they differ, prefixes first |
| `ResultTables.LeIff` | blackboxtests/gprom_blackbox_tests.py:279-281 | provenance parts are ordered by the first text in which they differ |
| `ResultTables.NumberedGroup` | blackboxtests/gprom_blackbox_tests.py:276-289 | the rows of a normalised group carry the numbers from 0 on in ascending order of their provenance columns, the identifier of their key, and their normal columns |
| `ResultTables.AscendingUnique` | blackboxtests/gprom_blackbox_tests.py:279-281 | a bag has one ascending arrangement, so the duplicate counters are determined |
| `ResultTables.NormalPairs` | blackboxtests/gprom_blackbox_tests.py:257-295 | normalising keeps the bag of normal and provenance columns |
| `ResultTables.NormalFormComplete` | blackboxtests/gprom_blackbox_tests.py:257-295 | two tables have the same normal form iff they agree on that bag |
| `ResultTables.NormalFormIdempotent` | blackboxtests/gprom_blackbox_tests.py:257-295 | normalising twice is normalising once |
| `ResultTables.GroupByResult` | blackboxtests/gprom_blackbox_tests.py:258-274 | the dictionary holds, in order of first occurrence, every key with exactly its rows in order |
| `ResultTables.CountGroup` | blackboxtests/gprom_blackbox_tests.py:282-289 | the overwritten rows of one group are added to the counter |
| `ResultTables.Normalize` | blackboxtests/gprom_blackbox_tests.py:257-295 | the loops over groups and rows compute that normal form, in any order of the table's elements, and leave tables without bookkeeping columns alone |
| `TableText.ToText` | blackboxtests/gprom_blackbox_tests.py:203-227 | header, divider and rows in padded columns, as the text that `RoundTripIff` reads back |
| `TableText.FromStr` | blackboxtests/gprom_blackbox_tests.py:180-201 | the loop accepts exactly the texts the parser function accepts and counts its rows |
| `TableText.CellsReadBack` | blackboxtests/gprom_blackbox_tests.py:203-207 | cells without bars, newlines and outer blanks are read back from a printed row, for any column widths |
| `TableText.WidthIs` | blackboxtests/gprom_blackbox_tests.py:209-212 | a column is as wide as the longest of its name and values |
| `TableText.LinesAligned` | blackboxtests/gprom_blackbox_tests.py:203-227 | all lines of a printed table are equally long, the divider is dashes, and the value of every cell stands at the start of its column with blanks up to the bar |
| `TableText.CapitalsLowered` | blackboxtests/gprom_blackbox_tests.py:188 | every capital letter of a header is read as its small one |
| `TableText.CleanReadBack` | blackboxtests/gprom_blackbox_tests.py:180-227 | a printed table with clean text is read back with all its rows and its names in lower case |
| `TableText.SplitTerminated` | blackboxtests/gprom_blackbox_tests.py:180-227 | lines are read back as they were written, the last one without its newline |
| `TableText.RoundTripIff` | blackboxtests/gprom_blackbox_tests.py:180-227 | parsing a printed table gives the table iff it has attributes, lower-case names and only text without bars, newlines and outer blanks |

## Left out

- Unsafe rules and goals, negated boolean heads, comparisons with NULL and facts on stored relations, which take other
  paths through `translator_dl.c`.
- Expressions as arguments of goals; goal arguments are variables and constants.
- Recursive programs, on which the typing recursion does not end, and programs without an answer relation.
- Provenance, summarisation and game rewrites of Datalog and SQL.
- Data types and casts, except in `TypeAnalysis`, where types are carried by stored tables, facts and variables.
- `RuleTheorem.RulePreserved`: comparison operators, arithmetic and aggregate functions have one fixed meaning over
  numbers and texts, with integer averages; table accesses carry default attribute names, which nothing reads.
- `NameClash.ApartIffPreserved`: with self-joins, comparisons or negation a failed check can be harmless, because the rows
  that would show it cannot occur; there the check is only proved sufficient.
- `TypeAnalysis.TypeAnalyzer.AnalyzeProgramDTs`: requires that some typing fits all rules; what is logged for programs
  whose rules disagree is not modelled.
- `HashTable.HashTable.Add`: integers are unbounded, so wrap-around of counters and of the number of buckets at 32 bits
  is not modelled, and neither is failing allocation.
- Adding an element under a key that is present already: expansion reverses chains, so which of two equal keys is found
  has no stable meaning.
- The concrete hash functions (the hash is any function of the key), `HASH_SELECT`, keys emitted for analysis, and
  pointer arithmetic on the handle offset; elements are indices, links are index sequences with NULL as -1, and
  the table record is a value whose filter is the set of its bits.
- INSERT with a column list, DELETE without a condition, ROWID handling and annotations for provenance.
- `History.HistoryReenacted`: queries in statements are built from selection, projection, join and union; merging is
  modelled on query trees for the serializable isolation level; statements that change no table are not included.
- `History.MergeUpdates`: queries are substituted into one another as trees, where the source redirects links of nodes
  that several statements share; sharing is modelled for Datalog only.
- `AggregationRewrite.BlockPreserved`: aggregates under GROUP BY, window functions and nested subqueries are excluded,
  and equality of expressions does not look at the names of attribute references.
- `NameResolution.FindAttrRefInFrom`: aliased joins, natural joins, lateral subqueries, JSON tables, ROWID and lookup in
  SELECT aliases are not modelled.
- `BindParameters.OracleBindToConsts`: strings have no terminating NUL inside, numbers have no sign, and lengths do not
  overflow. The source tests only that two numbers were read; with a missing `):` or a value shorter than its length
  it goes on reading, which is undefined there and an error here.
- `BindParameters.ConstantKeepsTextIff`: digits beyond the range of a long are clamped, as strtol does; the C standard
  leaves the result of atol open. Doubles too small to be normal do not arise with six digits after the point.
- `ResultTables.Normalize`: the hash of a group's key is an arbitrary function from key to text; texts are ordered by
  character.
- `TableText.FromStr`: blanks and letter case are those of ASCII; the printer receives the rows in the order in which the
  counter is iterated, and the theorem is for every order.
- Option parsing, plugin selection, logging, metadata lookup, executors, memory management and the test runner.
