# AutoMapper configuration validator, modelled in Dafny

This project models AutoMapper's `ConfigurationValidator`
(`src/AutoMapper/Configuration/ConfigurationValidator.cs`). The validator is a static checker
that runs over an already-built graph of type maps before anything is mapped. It has three stages.

1. **Duplicate detection** (`AssertConfigurationExpressionIsValid`). This stage is skipped when
   additive type map creation is allowed. Otherwise every type map configuration of every profile,
   with the root profile last, is grouped by its type pair. Every pair declared more than once is
   reported with the names of all profiles that declared it.
2. **The structural screen** (the first half of `AssertConfigurationIsValid`). This stage reports
   every type map that should be checked and either has unmapped destination members or cannot be
   constructed. All of them go into one error, and nothing is walked.
3. **The dry run**:
   - `DryRunTypeMap` and `CheckPropertyMaps` do a recursive walk. One checked set, shared by all
     roots, guards the walk.
   - The registered validators run on every type map reached and on every object mapper found.
   - The member loop stops at the first member whose source type is unknown.
   - The root loop collects one failure per root. It folds them into success, the single failure,
     or an aggregate.

The model has five modules:

- `Model` (model.dfy) holds the data.
  - Type maps live in an arena: `Config.typeMaps`, indexed by `MapId`. A member map records the
    index of the type map that owns it, as `MemberMap.TypeMap` does (`WellFormed`).
  - The collaborators the validator consults are function-typed fields of `Config`:
    `ResolveTypeMap`, `FindMapper`, `IObjectMapper.GetAssociatedTypes`,
    `TypePair.ContainsGenericParameters`, `Type.IsGenericParameter` and `typeof(object)`.
  - A validator is a function from a `ValidationContext` to `Option<Error>`, where `Some(e)`
    means it throws `e`.
  - An exception is an `Outcome` (`Pass` or `Fail(error)`). An `AggregateException` is
    `Aggregate(errors)`.
- `Duplicates` (duplicates.dfy) holds the LINQ pipeline of lines 18-24.
  - `GroupBy` is modelled the way LINQ's lookup builds it: groups in order of first occurrence,
    elements in input order.
  - It is proved equal to an independent filter description, `Matching`.
- `Screen` (screen.dfy) holds the query of lines 35-42.
- `Walk` (walk.dfy) holds the specification of the dry run. Ghost functions thread a `State`: the
  checked set, plus a trace of every context handed to the validators. This file also holds the
  properties proved about the walk.
- `ConfigurationValidator` (validator.dfy) holds the imperative code.
  - `Validate` is a loop.
  - The class `TypeMapWalker` carries the mutable checked set as a field. Its recursive
    `DryRunTypeMap`, its looping `CheckPropertyMaps` and its root loop `DryRunRoots` are each
    proved to compute the `Walk` function.
  - The two entry points are proved equal to the `Walk` specification.

## Model

| member | source | states |
|---|---|---|
| ConfigurationValidator.Validate | src/AutoMapper/Configuration/ConfigurationValidator.cs:7-13 | The validators run in registration order. The outcome is that of the first validator that throws, or success if none throws (`FirstFailure`). |
| Walk.FirstFailure | src/AutoMapper/Configuration/ConfigurationValidator.cs:7-13 | Computes the outcome of running the validators in order until one throws. `Walk.FirstFailureExactly` states its meaning. |
| Walk.FirstFailureExactly | src/AutoMapper/Configuration/ConfigurationValidator.cs:7-13 | A validation run passes if and only if no validator throws on the context. A failure carries the exception of a validator that threw, and every validator registered before it returned normally. |
| Duplicates.Declarations | src/AutoMapper/Configuration/ConfigurationValidator.cs:18-19 | Computes the `SelectMany` over the profiles, profile by profile. `Duplicates.DeclarationsExactly` states what it contains. |
| Duplicates.AddToGroups | src/AutoMapper/Configuration/ConfigurationValidator.cs:20 | Computes one step of LINQ's lookup: the declaration joins the group of its pair, or opens a new last group. `Duplicates.AddToGroupsShape` states the result. |
| Duplicates.GroupByTypes | src/AutoMapper/Configuration/ConfigurationValidator.cs:20 | Computes `GroupBy` on the type pair as the lookup fold over the declarations. `Duplicates.GroupByTypesExactly` proves it equal to the filter `Matching`. |
| Duplicates.Duplicated | src/AutoMapper/Configuration/ConfigurationValidator.cs:21-23 | Computes the `Where(count > 1)` and the two `Select`s over the groups. `Duplicates.DuplicatedExactly` and `Duplicates.DuplicatedDistinct` state its result. |
| Duplicates.DuplicateTypeMapConfigs | src/AutoMapper/Configuration/ConfigurationValidator.cs:18-24 | Computes the whole duplicate query. `Duplicates.DuplicatesReportedExactly` states its result in terms of the profiles' declarations. |
| Duplicates.DeclarationsOf | src/AutoMapper/Configuration/ConfigurationValidator.cs:19 | The `SelectMany` step for one profile yields one (profile, pair) declaration per type map configuration, in order, carrying that profile's name. |
| Duplicates.ProfileNames | src/AutoMapper/Configuration/ConfigurationValidator.cs:22 | The projection to profile names keeps the length and order of the group, and its k-th name is the k-th declaration's profile name. |
| Duplicates.DeclarationsExactly | src/AutoMapper/Configuration/ConfigurationValidator.cs:18-19 | A (profile name, pair) declaration is in the flattened sequence if and only if some profile of the sequence declares that pair. |
| Duplicates.AddToGroupsShape | src/AutoMapper/Configuration/ConfigurationValidator.cs:20 | With distinct keys, adding one declaration appends it to the group of its pair and leaves every other group as it was. If there is no such group, a new group holding only that declaration is added last. |
| Duplicates.AddToGroupsElements | src/AutoMapper/Configuration/ConfigurationValidator.cs:20 | If the groups are exact for some declarations, then after adding one more declaration every group holds exactly the declarations of its key, in input order, and none is empty. |
| Duplicates.AddToGroupsKeys | src/AutoMapper/Configuration/ConfigurationValidator.cs:20 | If the groups are exact for some declarations, then after adding one more declaration every declared pair has a group and the keys are still distinct. |
| Duplicates.GroupByTypesExactly | src/AutoMapper/Configuration/ConfigurationValidator.cs:20 | Grouping by type pair gives distinct keys. Every declared pair has a group, and each group holds exactly the declarations of its pair, in input order (it equals the filter `Matching`). |
| Duplicates.DuplicatedExactly | src/AutoMapper/Configuration/ConfigurationValidator.cs:21-23 | A report is produced if and only if some group has more than one element. The report carries that group's key and the profile names of all its elements. |
| Duplicates.DuplicatedDistinct | src/AutoMapper/Configuration/ConfigurationValidator.cs:20-23 | When the group keys are distinct, no type pair is reported twice. |
| Duplicates.DuplicatesReportedExactly | src/AutoMapper/Configuration/ConfigurationValidator.cs:18-24 | Every reported pair is declared more than once across the profiles, and its report lists the profile name of every declaration of it. Every pair declared more than once is reported, and no pair is reported twice. |
| ConfigurationValidator.AssertConfigurationExpressionIsValid | src/AutoMapper/Configuration/ConfigurationValidator.cs:14-31 | If additive creation is disallowed and some pair is duplicated across the profiles plus the root profile, the call fails with that duplicate report and the rest of the validation is not done. Otherwise, including whenever additive creation is allowed, the result is that of `AssertConfigurationIsValid`. |
| Screen.IsBad | src/AutoMapper/Configuration/ConfigurationValidator.cs:37-40 | The `where` clauses: the map should be checked, and it has unmapped member names or fails constructor validation. |
| Screen.Report | src/AutoMapper/Configuration/ConfigurationValidator.cs:41 | The `select` clause: the map with its unmapped member names and its constructibility flag. |
| Screen.BadTypeMaps | src/AutoMapper/Configuration/ConfigurationValidator.cs:35-42 | Computes the query over the input maps, in input order. `Screen.BadTypeMapsExactly` states its result. |
| Screen.BadTypeMapsExactly | src/AutoMapper/Configuration/ConfigurationValidator.cs:35-42 | A type map is reported if and only if it should be checked and it has unmapped member names or fails constructor validation. Each report carries that map's names and its constructibility flag. The report list is empty exactly when no map is bad. |
| Walk.DryRunTypeMap | src/AutoMapper/Configuration/ConfigurationValidator.cs:70-109 | The walk from a pair (the specification function) only grows the checked set, keeps it within the configuration's maps, and only appends to the trace of validated contexts. |
| Walk.CheckPropertyMaps | src/AutoMapper/Configuration/ConfigurationValidator.cs:110-126 | The member loop from member `i` on has the same monotonicity: the checked set only grows and the validated trace is only extended. |
| Walk.Roots | src/AutoMapper/Configuration/ConfigurationValidator.cs:48-60 | The root loop extends the state it starts from, and it collects at most one failure per root. |
| Walk.ValidateKeepsSound | src/AutoMapper/Configuration/ConfigurationValidator.cs:86-88 | Validating a context for a map not yet checked, while adding that map to the checked set, keeps the checked set equal to the set of maps validated, each validated once. |
| Walk.DryRunKeepsSound | src/AutoMapper/Configuration/ConfigurationValidator.cs:70-109 | The dry run from any pair keeps that invariant: the checked set is exactly the maps handed to the validators, and none is handed to them twice. |
| Walk.CheckPropertyMapsKeepsSound | src/AutoMapper/Configuration/ConfigurationValidator.cs:110-126 | The member loop keeps the same invariant. |
| Walk.RootsValidateEachMapOnce | src/AutoMapper/Configuration/ConfigurationValidator.cs:48-60 | With one checked set created before the loop, every input map ends up checked. Each map is handed to the validators at most once, so a map reached from an earlier root is not validated again from a later root. |
| Walk.DryRunPassMeansValidated | src/AutoMapper/Configuration/ConfigurationValidator.cs:70-109 | When the dry run from a pair passes, every context it handed to the validators passed all of them. |
| Walk.CheckPropertyMapsPassMeansValidated | src/AutoMapper/Configuration/ConfigurationValidator.cs:110-126 | When the member loop passes, every context it validated passed all validators. |
| Walk.RootsPassMeansValidated | src/AutoMapper/Configuration/ConfigurationValidator.cs:50-60 | When no root fails, every context validated by the root loop passed all validators. |
| Walk.DryRunFailureExplained | src/AutoMapper/Configuration/ConfigurationValidator.cs:70-109 | A failure of the dry run has one of three sources. (1) A validator threw on a context this walk validated. (2) It is the failure of a member of the configuration whose own pair leads, through associated pairs without a type map, to a pair with no generic parameters, no type map and no object mapper; the error carries the pair of the member's owning map. (3) This call came through a member without a type map, and the error is that member's failure on a pair leading from this call's pair to such a dead end. |
| Walk.CheckPropertyMapsFailureExplained | src/AutoMapper/Configuration/ConfigurationValidator.cs:110-126 | A failure of the member loop is a validator failure on a context it validated, or the failure of a member of the configuration whose pair leads to a dead end, carrying the pair of the member's owning map. |
| Walk.RootsFailuresExplained | src/AutoMapper/Configuration/ConfigurationValidator.cs:50-60 | Every failure the root loop collects is a validator failure on a context validated in that call, or the failure of a member whose pair leads to a dead end, carrying the pair of the member's owning map. |
| Walk.Rethrow | src/AutoMapper/Configuration/ConfigurationValidator.cs:61-68 | Computes the fold of the collected failures: an aggregate when there are several, the failure itself when there is one, and success otherwise. `Walk.ConfigurationIsValidExactly` states it. |
| Walk.ConfigurationIsValid | src/AutoMapper/Configuration/ConfigurationValidator.cs:32-69 | Computes the screen, then the root loop from a fresh state, then the fold. `Walk.ConfigurationIsValidExactly` states its result. |
| Walk.ConfigurationIsValidExactly | src/AutoMapper/Configuration/ConfigurationValidator.cs:32-69 | If any input map is bad, the call throws the screen's error, whatever the walk would have found. Otherwise the root failures decide the result: zero gives success, one is rethrown as it is, and two or more give an aggregate of all of them in root order. A passing call has checked every input map, validated each map once, and every validator accepted every context. |
| Walk.UnknownSourceTypeEndsMembers | src/AutoMapper/Configuration/ConfigurationValidator.cs:112-123 | Ignored members are skipped. At the first non-ignored member whose source type is a generic parameter or `object`, the member loop passes with the state unchanged, so no later member is walked, resolvable or not. |
| Walk.CheckedMapSkipped | src/AutoMapper/Configuration/ConfigurationValidator.cs:72-85 | A type map already in the checked set is skipped, whether it was passed in as a root or resolved from a member's pair (a cycle back to it): the call passes and the state is unchanged. |
| Walk.UncheckedMapNotTraversed | src/AutoMapper/Configuration/ConfigurationValidator.cs:72-92 | A type map with `ShouldCheckForValid` false, whether passed in or resolved from a member's pair, is still added to the checked set and handed to the validators. The outcome is the validators' outcome, and none of its members is walked. |
| Walk.GenericPairSkipped | src/AutoMapper/Configuration/ConfigurationValidator.cs:72-77 | A member's pair with generic parameters is not resolved: the call passes, and nothing is checked or validated. |
| Walk.MapperFoundFollowsAssociated | src/AutoMapper/Configuration/ConfigurationValidator.cs:97-107 | A pair with no type map but an object mapper is first validated with that mapper. A validator failure ends the call in that state. When the validators pass and the mapper associates a different pair, the walk continues from that pair through the same member. |
| Walk.SelfAssociatedPairStops | src/AutoMapper/Configuration/ConfigurationValidator.cs:102-107 | When the mapper associates no pair, or the pair itself, the call ends after validating the mapper's context, with the validators' outcome: there is no re-entry. |
| Walk.AssociatedCycleNotRanked | src/AutoMapper/Configuration/ConfigurationValidator.cs:104-106 | Two pairs without type maps whose mappers associate each other admit no rank, so the source's unbounded re-entry on such a cycle is outside the model. |
| Walk.UnresolvablePairBlamesOwner | src/AutoMapper/Configuration/ConfigurationValidator.cs:95-101 | A pair without generic parameters that has neither a type map nor an object mapper fails with the pair of the member's owning map (not the pair itself) and that member. The state is left unchanged. |
| ConfigurationValidator.TypeMapWalker.constructor | src/AutoMapper/Configuration/ConfigurationValidator.cs:48 | The walk starts with an empty checked set. |
| ConfigurationValidator.TypeMapWalker.DryRunTypeMap | src/AutoMapper/Configuration/ConfigurationValidator.cs:70-109 | The recursive method, which updates the checked set in place, returns `Walk.DryRunTypeMap`'s outcome and leaves the state it describes. |
| ConfigurationValidator.TypeMapWalker.CheckPropertyMaps | src/AutoMapper/Configuration/ConfigurationValidator.cs:110-126 | The `foreach` with `continue` and an early return computes `Walk.CheckPropertyMaps` from the first member. |
| ConfigurationValidator.TypeMapWalker.DryRunRoots | src/AutoMapper/Configuration/ConfigurationValidator.cs:48-60 | The root loop, sharing one checked set and catching each root's failure, returns the failures and leaves the state of `Walk.Roots`. |
| ConfigurationValidator.AssertConfigurationIsValid | src/AutoMapper/Configuration/ConfigurationValidator.cs:32-69 | The method computes `Walk.ConfigurationIsValid`: the screen, then the dry run from every input map with a fresh checked set, then the fold of the failures. Its properties are `Walk.ConfigurationIsValidExactly`. |

## Left out

- Reflection is not modelled. `Type.IsGenericParameter`, `typeof(object)` and
  `TypePair.ContainsGenericParameters` are given functions of a configuration.
- The bodies of `ResolveTypeMap`, `FindMapper`, `IObjectMapper.GetAssociatedTypes`,
  `TypeMap.GetUnmappedPropertyNames` and `TypeMap.PassesCtorValidation` are not part of this model.
  - The first three are given functions.
  - The last two are stored on each `TypeMap` as their results.
  - As a consequence, the rule that an ignored member never makes its map incomplete is not
    modelled here. That rule is decided by `GetUnmappedPropertyNames`.
- Validator bodies are not modelled. A validator is a pure function that either returns or throws
  one error; side effects of validators are not modelled.
- Exception classes, messages and CLR exception mechanics are not modelled. Each exception the
  validator raises is a constructor of `Error`. A validator's exception is passed on as the value
  the validator returns.
- Type map identity in the `HashSet<TypeMap>` is reference identity. Here it is the map's index in
  the configuration.
- Walk.DryRunTypeMap: the source re-enters on associated type pairs without bound (lines 104-106).
  It only stops re-entering when the associated pair equals the current pair, so it overflows the
  stack both on an endless chain of distinct pairs and on a cycle such as p to q to p
  (`Walk.AssociatedCycleNotRanked`).
  - The model requires a `rank` on pairs that decreases along every such chain (`Ranked`).
    That excludes every configuration with such a chain or cycle.
  - `Ranked` is stated over all pairs, not only the pairs the walk reaches. It therefore also
    excludes configurations whose cycle the walk never reaches, which the source validates
    normally.
- ConfigurationValidator.AssertConfigurationIsValid: the root loop of lines 50-60 is a separate
  method, `TypeMapWalker.DryRunRoots`, rather than being inline. The checked set is created
  before the loop in both.
- Duplicates.GroupByTypesExactly: no lemma states that groups come out in order of first
  occurrence. The model's `GroupByTypes` builds them in that order, as LINQ does, but the proved
  properties are about group contents and not group order.
- The profile and fluent-configuration building API, `EditorBrowsable`, and record-struct equality
  are not modelled.

A type map that fails the structural screen masks every walk failure, because the screen throws
before any root is walked (`Walk.ConfigurationIsValidExactly`, first `ensures`).
