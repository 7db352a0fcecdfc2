# Easy-Factor-Graph: groups of categorical variables and sparse distributions

This project models the combinatorial layer of the Easy-Factor-Graph library
in Dafny and proves properties of the model. That layer has two parts:

* **groups of categorical variables**, in the three forms the repository holds:
  * `distr::Group` of `Lib/EFG/Source/distribution/Group.cpp`: an ordered list
    with one observer per variable.
  * `categoric::Group` of `src/header/EasyFactorGraph/categoric/Group.h`: a
    "soup" in insertion order plus a sorted set.
  * the older `categoric::Group` of `Lib/EFG/Header/categoric/Group.h`: a set
    of variables.
* **the `Distribution`** of `Lib/EFG/Header/distribution/Distribution.h`: a
  group and a sparse map from combinations of that group to values. Its
  operations are `find` (both overloads), `add`, `clear`,
  `emplaceEntireDomain`, the product-merge constructors and `marginalize`.

A variable is a name and a domain size of at least 1. A combination is a
sequence of indices, one per variable of a group, each below that variable's
size. `Combinations.Enumerate` lists the combinations of a joint domain in
lexicographic order. The proofs show that it lists them without repetition,
that it lists exactly the in-bounds ones, and that there are `size()` of them.

Modules:

| file | module | models |
|---|---|---|
| `wrappers.dfy` | `Wrappers` | `Result` / `Outcome`; an error stands for a thrown `Error` |
| `combinations.dfy` | `Combinations` | joint domains, lexicographic enumeration, counting |
| `categoric.dfy` | `Categoric` | variables, unique names, joint size over lists and over sets |
| `distr_group.dfy` | `DistrGroup` | `distr::Group` (constructor, `replace`) |
| `soup_group.dfy` | `SoupGroup` | soup-and-set `Group`, `get_complementary`, `operator-=` |
| `legacy_group.dfy` | `LegacyGroup` | set-based `Group` (`add`, `replace`, `operator=`, `size`) |
| `tables.dfy` | `Tables` | a distribution as a value: group plus table, `find`, restriction to a sub-group |
| `merge.dfy` | `Merge` | the product-merge constructor and the `pack` helper |
| `conditioning.dfy` | `Conditioning` | `marginalize` (conditioning on evidence) |
| `correlation.dfy` | `Correlation` | the simple correlation and anti-correlation factors |
| `distributions.dfy` | `Distributions` | the `Distribution` class with its in-place table |

## Model

| member | source | states |
|---|---|---|
| Combinations.EnumerateLength | src/header/EasyFactorGraph/categoric/Group.h:77-81 | the joint domain has exactly as many combinations as the product of the domain sizes |
| Combinations.EnumerateMembers | tests/Test05-FactorConstruction.cpp:31-32 | a combination is enumerated if and only if it has one in-bounds index per variable |
| Combinations.EnumerateSorted | tests/Test05-FactorConstruction.cpp:75-77 | the combinations are visited in strictly increasing lexicographic order |
| Combinations.SortedElementsCount | tests/Test05-FactorConstruction.cpp:75-77 | a strictly sorted list has no repetition: its set of elements is as large as the list |
| Combinations.EnumerateCount | src/header/EasyFactorGraph/categoric/Group.h:77-81 | the set of distinct combinations has exactly `size()` elements and is exactly the in-bounds combinations |
| Categoric.ReplaceableKeepsDomain | Lib/EFG/Source/distribution/Group.cpp:18-24 | an accepted replacement keeps the number of variables, the size at every position, the joint size and the list of combinations |
| Categoric.JointSizePositive | src/header/EasyFactorGraph/categoric/Group.h:77-81 | every joint domain holds at least one combination |
| Categoric.SetJointSizeRemove | Lib/EFG/Header/categoric/Group.h:40-42 | the product over a set of variables does not depend on which member is taken first |
| Categoric.JointSizeIsSetJointSize | Lib/EFG/Header/categoric/Group.h:40-42 | for a list with unique names, the product over the list equals the product over its set of members |
| Categoric.UniqueNamesCount | src/header/EasyFactorGraph/categoric/Group.h:22-25 | a list with unique names has as many distinct members as positions |
| Categoric.SameMembersSameJointSize | src/header/EasyFactorGraph/categoric/Group.h:61-63 | two groups with the same members in any insertion order have the same joint size |
| DistrGroup.Group.Init | Lib/EFG/Source/distribution/Group.cpp:10-12 | the group holds the given list and one observer per variable, in order |
| DistrGroup.Group.Make | Lib/EFG/Source/distribution/Group.cpp:6-14 | fails with a repeated-variable error exactly when two variables share a name; otherwise the group is exactly the input list |
| DistrGroup.Group.Replace | Lib/EFG/Source/distribution/Group.cpp:16-30 | each error holds exactly when its check is the first to fail: length, then repetition, then domain size at some position. On failure nothing changes; on success the group is the new list with one observer per variable |
| SoupGroup.AcceptedAll | src/header/EasyFactorGraph/categoric/Group.h:71-75 | adding variables one by one takes all of them exactly when the group and the new variables together have unique names |
| SoupGroup.AcceptedPrefix | src/header/EasyFactorGraph/categoric/Group.h:71-75 | after k variables have been added, the count of accepted variables continues from the grown group |
| SoupGroup.AcceptedStops | src/header/EasyFactorGraph/categoric/Group.h:71-75 | an add that stops at a repeated name at position k has accepted exactly the first k variables, and the names were not unique |
| SoupGroup.AcceptedDone | src/header/EasyFactorGraph/categoric/Group.h:71-75 | when all names are unique, every variable is accepted |
| SoupGroup.Complementary | src/header/EasyFactorGraph/categoric/Group.h:97-98 | the complementary is a subset of the entire set, disjoint from the subset; for a name-unique entire set containing the subset, the two together make it up and its size is the difference |
| SoupGroup.ComplementaryIsDifference | src/header/EasyFactorGraph/categoric/Group.h:95-98 | whenever the variables of both sets have unique names, the complementary (and so `-=`) yields exactly the set difference, also for a subset with members outside the entire set |
| SoupGroup.RemoveFrom | src/header/EasyFactorGraph/categoric/Group.h:95 | erasing the members of `to_remove` one by one leaves exactly the complementary |
| SoupGroup.Group.Empty | src/header/EasyFactorGraph/categoric/Group.h:89 | the default group is empty and satisfies the soup/set invariant |
| SoupGroup.Group.Single | src/header/EasyFactorGraph/categoric/Group.h:36 | a one-variable group holds that variable in both the soup and the set |
| SoupGroup.Group.Add | src/header/EasyFactorGraph/categoric/Group.h:65-69 | fails exactly when a variable with the same name is present; otherwise appends to the soup and inserts into the set, keeping both equal with unique names |
| SoupGroup.Group.AddAll | src/header/EasyFactorGraph/categoric/Group.h:71-75 | succeeds exactly when all names are unique; the soup grows by the variables accepted before the first repeated name |
| SoupGroup.Group.FromSoup | src/header/EasyFactorGraph/categoric/Group.h:28-46 | fails exactly on a repeated name; otherwise the soup is the input in argument order |
| SoupGroup.Group.ReplaceVariables | src/header/EasyFactorGraph/categoric/Group.h:48-59 | succeeds exactly for a list of equal length, equal size at each position and unique names; a length mismatch, a size mismatch and a repeated name each give their own error, checked in that order; nothing changes on failure |
| SoupGroup.Group.Size | src/header/EasyFactorGraph/categoric/Group.h:77-81 | the size is the number of combinations of the joint domain and is at least 1 |
| SoupGroup.Group.Equals | src/header/EasyFactorGraph/categoric/Group.h:61-63 | groups are equal exactly when they hold the same variables, whatever the insertion order; equal groups have the same size |
| LegacyGroup.Group.Add | Lib/EFG/Header/categoric/Group.h:31-32 | fails exactly when a same-named variable is a member; otherwise inserts; names stay unique |
| LegacyGroup.Group.Make | Lib/EFG/Header/categoric/Group.h:25-29 | construction from two or more variables fails exactly on a repeated name; otherwise the group is the set of the arguments |
| LegacyGroup.Group.Size | Lib/EFG/Header/categoric/Group.h:40-42 | the loop returns the product of the member domain sizes |
| LegacyGroup.Group.Replace | Lib/EFG/Header/categoric/Group.h:53 | succeeds exactly when the joint sizes agree; on failure the group is unchanged; on success it is the other group's set |
| LegacyGroup.Group.Assign | Lib/EFG/Header/categoric/Group.h:20-23 | assignment of a group of another joint size fails and leaves this group unchanged |
| LegacyGroup.Group.ReplaceWith | Lib/EFG/Header/categoric/Group.h:34-38 | fails with a repeated-variable error on a repeated name, otherwise with a joint-size mismatch on another joint size; on failure nothing changes, otherwise the group becomes the set of the arguments |
| Tables.LookupAfterAssign | Lib/EFG/Header/distribution/Distribution.h:42 | after assigning one combination, it is found with the new value and every other combination keeps its value |
| Tables.UniformSpec | Lib/EFG/Header/distribution/Distribution.h:44 | a table filled over the whole domain holds the value at every in-bounds combination, nothing else, and one entry per combination |
| Tables.UniformAt | Lib/EFG/Header/distribution/Distribution.h:44 | a table filled over the whole domain is found with the value at each combination of the domain |
| Tables.RestrictPicks | Lib/EFG/Header/distribution/Distribution.h:51-53 | the restriction to a sub-group reads, for each of its variables, the index the big combination gives that same variable, and is in bounds |
| Tables.RestrictToSelf | Lib/EFG/Header/distribution/Distribution.h:51-53 | restricting a combination to its own group gives it back |
| Merge.AbsorbSpec | Lib/EFG/Header/distribution/Distribution.h:29 | adding an operand's variables to the union succeeds exactly when no name occurs with two sizes; the union keeps its prefix, has unique names and holds exactly the variables involved |
| Merge.UnionSpec | Lib/EFG/Header/distribution/Distribution.h:29 | the union of all operands succeeds exactly when they agree on every shared variable, and then holds each variable once |
| Merge.AbsorbOnlyConflicts | Lib/EFG/Header/distribution/Distribution.h:29 | absorbing one operand can only fail with a size conflict |
| Merge.AbsorbErrors | Lib/EFG/Header/distribution/Distribution.h:29 | the union can only fail with a size conflict |
| Merge.MergeSucceeds | Lib/EFG/Header/distribution/Distribution.h:28-29 | the merge succeeds exactly when no variable name occurs with two different sizes; its only error is the size conflict |
| Merge.MergeGroup | Lib/EFG/Header/distribution/Distribution.h:28-29 | the merged group has unique names, holds exactly the operands' variables and contains each operand's group |
| Merge.MergeRestrictInBounds | Lib/EFG/Header/distribution/Distribution.h:28-29 | every in-bounds combination of the merged group restricts to an in-bounds combination of each operand |
| Merge.MergeValues | Lib/EFG/Header/distribution/Distribution.h:28-29 | the merged table is well formed, has one entry per combination, and holds at each combination the product of the operands' values at their sub-combinations |
| Merge.MergePairValue | Lib/EFG/Header/distribution/Distribution.h:31-35 | with two operands, each merged value is the first operand's value times the second's, each read at its own sub-combination |
| Merge.MergeUniformPair | tests/Test05-FactorConstruction.cpp:60-79 | merging two operands filled with x and y over their domains gives x * y at every combination |
| Merge.ScenarioShape | tests/Test05-FactorConstruction.cpp:66-76 | a merge over the variables A, B, C of size 2 has three variables and joint size 8 |
| Merge.MergeScenarioSucceeds | tests/Test05-FactorConstruction.cpp:65 | merging the {A,C} and {B,C} distributions succeeds |
| Merge.MergeScenario | tests/Test05-FactorConstruction.cpp:53-80 | that merge has the three variables A, B, C, joint size 8 and eight entries, and is 2 * 0.5 = 1 everywhere |
| Merge.MergeScenarioAsWritten | Lib/EFG/Header/distribution/Distribution.h:61-73 | with the packing as written, the same merge holds only B and C: A is lost and the joint size is 4 |
| Merge.AsWrittenShape | Lib/EFG/Header/distribution/Distribution.h:61-73 | any merge of the operands packed as written has only the two variables B and C, lacks A, and has joint size 4 |
| Conditioning.RemainingSpec | Lib/EFG/Header/distribution/Distribution.h:38 | the remaining group keeps exactly the non-evidence variables, with unique names |
| Conditioning.MarginalizeErrors | Lib/EFG/Header/distribution/Distribution.h:38 | conditioning succeeds exactly when there is one evidence value per evidence variable, every evidence variable belongs to the group, and some combination of the group's joint domain reads those values on the evidence; each error holds exactly when its check is the first to fail, the last one being that no combination of the domain agrees with the evidence |
| Conditioning.AssembleInBounds | Lib/EFG/Header/distribution/Distribution.h:38 | a remaining combination extended with the evidence values is in bounds for the whole group |
| Conditioning.AssembleRestrictsToRest | Lib/EFG/Header/distribution/Distribution.h:38 | the extended combination reads the remaining combination back on the remaining variables |
| Conditioning.AssembleRestrictsToEvidence | Lib/EFG/Header/distribution/Distribution.h:38 | the extended combination reads the evidence values on the evidence variables |
| Conditioning.AssembleUnique | Lib/EFG/Header/distribution/Distribution.h:38 | any combination of the whole group with those two restrictions is the extended one |
| Conditioning.MarginalizeGroup | Lib/EFG/Header/distribution/Distribution.h:38 | the conditioned distribution is over exactly the non-evidence variables, is well formed, and has one entry per remaining combination |
| Conditioning.MarginalValue | Lib/EFG/Header/distribution/Distribution.h:38 | conditioning does not sum: each value is the original value at the full combination that agrees with it and with the evidence |
| Conditioning.MarginalizeIndicator | tests/Test05-FactorConstruction.cpp:82-126 | a table that is 1 exactly where the evidence variables read some values gives, conditioned on evidence, all ones when the evidence equals those values and all zeros otherwise |
| Correlation.SimpleCorrelation | tests/Test05-FactorConstruction.cpp:10-17 | the factor built with the simple correlation tag is over the given group and stores 1 at exactly the combinations of the joint domain whose indices are all equal |
| Correlation.SimpleAntiCorrelation | tests/Test05-FactorConstruction.cpp:10-17 | the factor built with the simple anti-correlation tag is over the given group and stores 1 at exactly the combinations of the joint domain whose indices are not all equal |
| Correlation.CorrelationValues | tests/Test05-FactorConstruction.cpp:29-51 | the correlating factor is 1 where all indices are equal and 0 elsewhere; the anti-correlating one is its complement |
| Correlation.CorrelationWellFormed | tests/Test05-FactorConstruction.cpp:10-17 | both factors are well-formed tables over their group |
| Correlation.CorrelationPartition | tests/Test05-FactorConstruction.cpp:29-51 | the two factors store disjoint sets of combinations whose sizes add up to the joint size |
| Distributions.Distribution.constructor | Lib/EFG/Header/distribution/Distribution.h:23 | a new distribution is over the given group and has no entry |
| Distributions.Distribution.Copy | Lib/EFG/Header/distribution/Distribution.h:25 | the copy has the same group and the same table |
| Distributions.Distribution.Find | Lib/EFG/Header/distribution/Distribution.h:48-49 | the stored value, 0 for a combination without entry, and always 0 outside the joint domain |
| Distributions.Distribution.Clear | Lib/EFG/Header/distribution/Distribution.h:40 | the table is emptied; every combination is then found as 0; the group is unchanged |
| Distributions.Distribution.Add | Lib/EFG/Header/distribution/Distribution.h:42 | the table is updated at one combination, which is then found with the new value; every other combination keeps its value |
| Distributions.Distribution.EmplaceEntireDomain | Lib/EFG/Header/distribution/Distribution.h:44 | every combination of the joint domain is found with the value, and the table has exactly `size()` entries |
| Distributions.Distribution.FindIn | Lib/EFG/Header/distribution/Distribution.h:51-53 | finds an entry exactly when the restriction of the combination to this group has one; the stored combination agrees with the given one on every shared variable; otherwise the not-found result |
| Distributions.Distribution.FindInOwnGroup | Lib/EFG/Header/distribution/Distribution.h:51-53 | searching with the distribution's own group is a plain lookup |
| Distributions.Distribution.Marginalize | Lib/EFG/Header/distribution/Distribution.h:38 | fails exactly as conditioning does; otherwise returns a new well-formed distribution holding the conditioned table |
| Distributions.Distribution.MergeOf | Lib/EFG/Header/distribution/Distribution.h:29 | fails only with a size conflict and exactly when the merge does; otherwise a new well-formed distribution holding the merged table |
| Distributions.Distribution.MergePair | Lib/EFG/Header/distribution/Distribution.h:31-35 | the two-operand constructor as intended (the corrected half of the `pack` finding): it packs both operands in argument order, fails only with a size conflict and exactly when that merge does, and otherwise returns a new well-formed distribution holding the merged table |
| Distributions.Distribution.MergePairAsWritten | Lib/EFG/Header/distribution/Distribution.h:31-35 | the two-operand constructor as written, through `pack` of lines 61-65: the result is exactly the merge of `second` alone, or its error |
| Distributions.MergeTestScenarioAsWritten | Lib/EFG/Header/distribution/Distribution.h:61-65 | through the class and the constructor as written, the test's operands over {A,C} and {B,C} give a distribution over B and C only, without A, of joint size 4 |
| Distributions.MergeTestScenario | tests/Test05-FactorConstruction.cpp:53-80 | two distributions filled with 2 and 0.5 over {A,C} and {B,C} merge into a distribution over A, B, C of joint size 8 that is found as 1 at every combination |

## Left out

- The evaluators (`image::EvaluatorPtr`, basic and exponential) are not part of this model. Values are stored and read as given, which is what the basic evaluator does.
- Values are `real`, not `float`. Only storage, lookup and multiplication occur, so rounding is not modelled.
- Observer notification (`MultiObservable`) is not modelled. The observers of `distr::Group` are kept as a list of the observed variables. Only their number and order are stated.
- `getIterator` and `DistributionIterator` are not part of this model. The accessors `getGroup`, `getVariables` and `getVariablesSet` are read as the fields themselves.
- Variables are compared as values (name and size), and uniqueness is by name; the identity of the shared `VariablePtr` objects is not modelled. `AreAllVarsDifferent` is taken to compare names; its body is not part of this model.
- `size()` returns `std::size_t` in the source. The model uses unbounded `nat`, so overflow of the joint size is not modelled.
- The defaulted copy constructor of the older `Group` (`Lib/EFG/Header/categoric/Group.h:19`) is not modelled separately: it copies the set.
- The bodies of `replaceVariables`, the older `replace(const Group&)`, `add`, `emplaceEntireDomain`, `marginalize` and the merge constructor sit in implementation files that are not part of this model. The model follows the declared contracts:
  - `SoupGroup.Group.ReplaceVariables`: checks the length, then the size at each position, then refuses a repeated name, because the sorted set cannot hold two variables of one name.
  - `LegacyGroup.Group.Replace`: "size mismatch" is read as a mismatch of the joint domain size.
  - A name met with two domain sizes in a merge is a size conflict.
  - `marginalize` reports a wrong number of evidence values, an evidence variable outside the group, and an evidence value beyond its domain.
  - A new `Distribution` over a group starts with no entry.
- The group of a `Distribution` (`Tables.Table.vars`, `Distributions.Distribution.variables`) stands for the set-based `categoric::Group` of `Lib/EFG/Header/categoric/Group.h`, whose `std::set<VariablePtr>` decides the position of each variable in a stored combination. The model uses a list order instead: the caller's order for a new distribution, order of first appearance for a merge, and the original order of the remaining variables for a conditioning. So a merged or conditioned table indexes its variables in an order that may differ from the source's. Likewise the `evidences` of `marginalize` is a set-based group, so the source's `comb` lists the evidence values in `std::set<VariablePtr>` order, while `Conditioning.Marginalize` reads `comb` in the list order of its evidence argument. The contracts state membership and read values variable by variable (`Restrict`), so they do not depend on that order.
- Correlation.SimpleCorrelation and Correlation.SimpleAntiCorrelation: the tag constructors' bodies are not part of this model. The model stores only the entries whose value is 1 and finds every other combination as 0; which entries the source stores is not modelled, only the values found, which are what the correlation tests observe.
- Distributions.Distribution.Add: requires a combination of the joint domain; what the implementation does with any other combination is not part of this model.
- LegacyGroup.Group.Make and LegacyGroup.Group.ReplaceWith require two or more variables, as the source's constructors and variadic `replace` take at least two.
- The variadic merge constructor is modelled for two operands. With three or more, the `pack` recursion as written calls `pack(remaining...)` without the vector; that case is not modelled.
- The samples, the XML constructors and the learning, belief-propagation and Gibbs-sampling code are outside the modelled core.

## Findings

| source | as written | input that shows it | evidently intended | confidence | as-written member | corrected member |
|---|---|---|---|---|---|---|
| Lib/EFG/Header/distribution/Distribution.h:61-65 | `pack(first, second)` creates the vector and calls `pack(packed, second)`, so `first` is never pushed. The only pointer pushed, by the non-template `pack` at line 71, points to the by-value parameter `remaining` of the template at line 61, a copy of `second`. Whether that copy is destroyed when `pack` returns or at the end of the enclosing full-expression is implementation-defined; in the first case the merge constructor at line 29 reads a destroyed object. Where the copy survives, the two-operand merge constructor merges `second` alone; at class level `Distributions.Distribution.MergePairAsWritten` and `Distributions.MergeTestScenarioAsWritten` show the same, against `Distributions.Distribution.MergePair` and `Distributions.MergeTestScenario` | distributions over {A, C} and {B, C} (all of size 2): the result is over {B, C}, joint size 4, and A is missing | both operands pushed in argument order, giving a distribution over {A, B, C} of joint size 8 | not executed | Merge.MergeScenarioAsWritten | Merge.MergeScenario |
