/** ConfigurationValidator (ConfigurationValidator.cs:5-127): validator
    dispatch, the dry run over the type map graph with a checked set shared
    by all roots, the failure-collecting root loop and the two entry points.
    Exceptions are returned as an Outcome. */
module ConfigurationValidator {
  import opened Model
  import opened Duplicates
  import opened Screen
  import Walk

  /** Runs every registered validator on `context`, in registration order,
      stopping at the first that throws. */
  method Validate(validators: seq<Validator>, context: ValidationContext) returns (o: Outcome)
    ensures o == Walk.FirstFailure(validators, context)
  {
    for i := 0 to |validators|
      invariant Walk.FirstFailure(validators, context) == Walk.FirstFailure(validators[i..], context)
    {
      assert validators[i..][1..] == validators[i + 1..];
      var failure := validators[i](context);
      if failure.Some? {
        return Fail(failure.value);
      }
    }
    return Pass;
  }

  /** The walk of one AssertConfigurationIsValid call: the configuration, the
      validators, and the set of type maps checked so far, shared by all roots. */
  class TypeMapWalker {
    const config: Config
    const validators: seq<Validator>
    ghost const rank: TypePair -> nat
    var typeMapsChecked: set<MapId>
    /** Every context handed to the validators so far. */
    ghost var validated: seq<ValidationContext>

    ghost predicate Valid()
      reads this
    {
      WellFormed(config) && Ranked(config, rank) && typeMapsChecked <= Ids(config)
    }

    ghost function State(): Walk.State
      reads this
    {
      Walk.State(typeMapsChecked, validated)
    }

    constructor (config: Config, validators: seq<Validator>, ghost rank: TypePair -> nat)
      requires WellFormed(config) && Ranked(config, rank)
      ensures Valid()
      ensures this.config == config && this.validators == validators && this.rank == rank
      ensures typeMapsChecked == {} && validated == []
    {
      this.config := config;
      this.validators := validators;
      this.rank := rank;
      typeMapsChecked := {};
      validated := [];
    }

    method DryRunTypeMap(types: TypePair, typeMap: Option<MapId>, memberMap: Option<MemberMap>) returns (o: Outcome)
      requires Valid() && Walk.CallShape(config, typeMap, memberMap)
      modifies this
      ensures Valid()
      ensures Walk.Step(o, State()) == Walk.DryRunTypeMap(config, validators, rank, old(State()), types, typeMap, memberMap)
      decreases Ids(config) - typeMapsChecked, 1, rank(types)
    {
      var resolved := typeMap;
      if resolved.None? {
        if config.containsGenericParameters(types) {
          return Pass;
        }
        resolved := config.resolveTypeMap(types);
      }
      if resolved.Some? {
        var m := resolved.value;
        if m in typeMapsChecked {
          return Pass;
        }
        typeMapsChecked := typeMapsChecked + {m};
        var context := ValidationContext(types, memberMap, Some(m), None);
        validated := validated + [context];
        o := Validate(validators, context);
        if o.Fail? {
          return;
        }
        if !config.typeMaps[m].shouldCheckForValid {
          return Pass;
        }
        o := CheckPropertyMaps(m);
      } else {
        var mapperToUse := config.findMapper(types);
        if mapperToUse.None? {
          return Fail(UnmappedMember(config.typeMaps[memberMap.value.typeMap].types, memberMap.value));
        }
        var context := ValidationContext(types, memberMap, None, mapperToUse);
        validated := validated + [context];
        o := Validate(validators, context);
        if o.Fail? {
          return;
        }
        var newTypes := config.getAssociatedTypes(mapperToUse.value, types);
        if newTypes.Some? && newTypes.value != types {
          o := DryRunTypeMap(newTypes.value, None, memberMap);
        }
      }
    }

    method CheckPropertyMaps(m: MapId) returns (o: Outcome)
      requires Valid() && m < |config.typeMaps|
      modifies this
      ensures Valid()
      ensures Walk.Step(o, State()) == Walk.CheckPropertyMaps(config, validators, rank, old(State()), m, 0)
      decreases Ids(config) - typeMapsChecked, 2, 0
    {
      var memberMaps := config.typeMaps[m].memberMaps;
      var i := 0;
      while i < |memberMaps|
        invariant 0 <= i <= |memberMaps|
        invariant Valid() && old(typeMapsChecked) <= typeMapsChecked
        invariant Walk.CheckPropertyMaps(config, validators, rank, old(State()), m, 0)
                  == Walk.CheckPropertyMaps(config, validators, rank, State(), m, i)
      {
        var memberMap := memberMaps[i];
        if memberMap.ignored {
          i := i + 1;
          continue;
        }
        var sourceType := memberMap.sourceType;
        // when the source type is unknown, the remaining members are not walked
        if IsUnknownSourceType(config, sourceType) {
          return Pass;
        }
        o := DryRunTypeMap(TypePair(sourceType, memberMap.destinationType), None, Some(memberMap));
        if o.Fail? {
          return;
        }
        i := i + 1;
      }
      return Pass;
    }

    /** The loop of AssertConfigurationIsValid (lines 50-60): every map is a
        root, tried in order; a root's failure is recorded and the loop goes on. */
    method DryRunRoots(typeMaps: seq<MapId>) returns (configExceptions: seq<Error>)
      requires Valid()
      requires forall k :: 0 <= k < |typeMaps| ==> typeMaps[k] < |config.typeMaps|
      modifies this
      ensures Valid()
      ensures Walk.RootsResult(configExceptions, State()) == Walk.Roots(config, validators, rank, old(State()), typeMaps)
    {
      configExceptions := [];
      ghost var all := Walk.Roots(config, validators, rank, State(), typeMaps);
      Walk.RootsFromStart(config, validators, rank, State(), typeMaps);
      for i := 0 to |typeMaps|
        invariant Valid()
        invariant Walk.RootsFrom(config, validators, rank, all, configExceptions, State(), typeMaps[i..])
      {
        ghost var before, acc := State(), configExceptions;
        var typeMap := typeMaps[i];
        assert typeMaps[i..][0] == typeMap && typeMaps[i..][1..] == typeMaps[i + 1..];
        var e := DryRunTypeMap(config.typeMaps[typeMap].types, Some(typeMap), None);
        Walk.RootsFromNext(config, validators, rank, all, acc, before, typeMaps[i..], e, State(), typeMaps[i + 1..]);
        if e.Fail? {
          configExceptions := configExceptions + [e.error];
        }
        assert configExceptions == acc + (if e.Fail? then [e.error] else []);
      }
      Walk.RootsFromDone(config, validators, rank, all, configExceptions, State());
    }
  }

  /** The screen, then a dry run from every map in `typeMaps` sharing one
      checked set; failures are collected per root and folded into success,
      the one failure, or an aggregate of all of them in root order. */
  method AssertConfigurationIsValid(validators: seq<Validator>, config: Config, ghost rank: TypePair -> nat,
                                    typeMaps: seq<MapId>) returns (o: Outcome)
    requires WellFormed(config) && Ranked(config, rank)
    requires forall k :: 0 <= k < |typeMaps| ==> typeMaps[k] < |config.typeMaps|
    ensures o == Walk.ConfigurationIsValid(config, validators, rank, typeMaps)
  {
    var badTypeMaps := BadTypeMaps(config, typeMaps);
    if |badTypeMaps| > 0 {
      return Fail(Configuration(badTypeMaps));
    }
    var walker := new TypeMapWalker(config, validators, rank);
    var configExceptions := walker.DryRunRoots(typeMaps);
    if |configExceptions| > 1 {
      return Fail(Aggregate(configExceptions));
    }
    if |configExceptions| > 0 {
      return Fail(configExceptions[0]);
    }
    return Pass;
  }

  /** Unless additive type map creation is allowed, a type pair declared more
      than once across the profiles and the root profile fails the whole
      validation before the type maps are looked at. */
  method AssertConfigurationExpressionIsValid(expression: Expression, config: Config, ghost rank: TypePair -> nat,
                                              typeMaps: seq<MapId>) returns (o: Outcome)
    requires WellFormed(config) && Ranked(config, rank)
    requires forall k :: 0 <= k < |typeMaps| ==> typeMaps[k] < |config.typeMaps|
    ensures var duplicates := DuplicateTypeMapConfigs(expression.profiles + [expression.rootProfile]);
      o == if !expression.allowAdditiveTypeMapCreation && |duplicates| > 0
           then Fail(DuplicateTypeMapConfiguration(duplicates))
           else Walk.ConfigurationIsValid(config, expression.validators, rank, typeMaps)
  {
    if !expression.allowAdditiveTypeMapCreation {
      var duplicateTypeMapConfigs := DuplicateTypeMapConfigs(expression.profiles + [expression.rootProfile]);
      if |duplicateTypeMapConfigs| > 0 {
        return Fail(DuplicateTypeMapConfiguration(duplicateTypeMapConfigs));
      }
    }
    o := AssertConfigurationIsValid(expression.validators, config, rank, typeMaps);
  }
}
