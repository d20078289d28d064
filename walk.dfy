/** The dry run over the type map graph (ConfigurationValidator.cs:7-13,
    48-125) as functions that thread the walk's state: the set of type maps
    already checked, and (for the proofs) the contexts handed to the
    validators so far. The class TypeMapWalker is proved to compute these. */
module Walk {
  import opened Model
  import opened Screen

  /** The checked set shared by all roots of one call, and every context the
      validators have been run on, in order. */
  datatype State = State(typeMapsChecked: set<MapId>, validated: seq<ValidationContext>)

  /** What a step of the walk returns or throws, and the state after it. */
  datatype Step = Step(outcome: Outcome, state: State)

  /** What the failure-collecting root loop ends with. */
  datatype RootsResult = RootsResult(configExceptions: seq<Error>, state: State)

  /** The validators run in registration order; the first one that throws ends the run. */
  function FirstFailure(validators: seq<Validator>, context: ValidationContext): Outcome
  {
    if validators == [] then Pass
    else match validators[0](context)
      case Some(e) => Fail(e)
      case None => FirstFailure(validators[1..], context)
  }

  /** `s'` only adds to `s`: more maps checked (all of the configuration), more contexts validated. */
  ghost predicate Extends(c: Config, s: State, s': State)
  {
    && s.typeMapsChecked <= s'.typeMapsChecked <= Ids(c)
    && |s.validated| <= |s'.validated|
    && s'.validated[..|s.validated|] == s.validated
  }

  /** How DryRunTypeMap is called: a known type map, or else the member the walk came through. */
  ghost predicate CallShape(c: Config, typeMap: Option<MapId>, memberMap: Option<MemberMap>)
  {
    && (typeMap.Some? ==> typeMap.value < |c.typeMaps|)
    && (typeMap.None? ==> memberMap.Some?)
    && (memberMap.Some? ==> memberMap.value.typeMap < |c.typeMaps|)
  }

  ghost function DryRunTypeMap(c: Config, validators: seq<Validator>, rank: TypePair -> nat, s: State,
                               types: TypePair, typeMap: Option<MapId>, memberMap: Option<MemberMap>): (r: Step)
    requires WellFormed(c) && Ranked(c, rank) && s.typeMapsChecked <= Ids(c)
    requires CallShape(c, typeMap, memberMap)
    ensures Extends(c, s, r.state)
    decreases Ids(c) - s.typeMapsChecked, 1, rank(types)
  {
    if typeMap.None? && c.containsGenericParameters(types) then Step(Pass, s)
    else
      var resolved := if typeMap.Some? then typeMap else c.resolveTypeMap(types);
      match resolved
      case Some(m) =>
        if m in s.typeMapsChecked then Step(Pass, s)
        else
          var context := ValidationContext(types, memberMap, Some(m), None);
          var s' := State(s.typeMapsChecked + {m}, s.validated + [context]);
          var validation := FirstFailure(validators, context);
          if validation.Fail? then Step(validation, s')
          else if !c.typeMaps[m].shouldCheckForValid then Step(Pass, s')
          else CheckPropertyMaps(c, validators, rank, s', m, 0)
      case None =>
        match c.findMapper(types)
        case None => Step(Fail(UnmappedMember(c.typeMaps[memberMap.value.typeMap].types, memberMap.value)), s)
        case Some(mapper) =>
          var context := ValidationContext(types, memberMap, None, Some(mapper));
          var s' := State(s.typeMapsChecked, s.validated + [context]);
          var validation := FirstFailure(validators, context);
          if validation.Fail? then Step(validation, s')
          else match AssociatedTypes(c, types)
            case None => Step(Pass, s')
            case Some(newTypes) => DryRunTypeMap(c, validators, rank, s', newTypes, None, memberMap)
  }

  /** The members of type map `m` from the `i`-th on. */
  ghost function CheckPropertyMaps(c: Config, validators: seq<Validator>, rank: TypePair -> nat, s: State,
                                   m: MapId, i: nat): (r: Step)
    requires WellFormed(c) && Ranked(c, rank) && s.typeMapsChecked <= Ids(c)
    requires m < |c.typeMaps| && i <= |c.typeMaps[m].memberMaps|
    ensures Extends(c, s, r.state)
    decreases Ids(c) - s.typeMapsChecked, 2, |c.typeMaps[m].memberMaps| - i
  {
    var memberMaps := c.typeMaps[m].memberMaps;
    if i == |memberMaps| then Step(Pass, s)
    else
      var memberMap := memberMaps[i];
      if memberMap.ignored then CheckPropertyMaps(c, validators, rank, s, m, i + 1)
      else if IsUnknownSourceType(c, memberMap.sourceType) then Step(Pass, s)
      else
        var r := DryRunTypeMap(c, validators, rank, s, TypePair(memberMap.sourceType, memberMap.destinationType),
                               None, Some(memberMap));
        if r.outcome.Fail? then r
        else CheckPropertyMaps(c, validators, rank, r.state, m, i + 1)
  }

  /** Every map of `maps` is a root, tried in order with the shared state; a
      root's failure is recorded and the next root is tried. */
  ghost function Roots(c: Config, validators: seq<Validator>, rank: TypePair -> nat, s: State,
                       maps: seq<MapId>): (r: RootsResult)
    requires WellFormed(c) && Ranked(c, rank) && s.typeMapsChecked <= Ids(c)
    requires forall k :: 0 <= k < |maps| ==> maps[k] < |c.typeMaps|
    ensures Extends(c, s, r.state)
    ensures |r.configExceptions| <= |maps|
    decreases |maps|
  {
    if maps == [] then RootsResult([], s)
    else
      var root := DryRunTypeMap(c, validators, rank, s, c.typeMaps[maps[0]].types, Some(maps[0]), None);
      var rest := Roots(c, validators, rank, root.state, maps[1..]);
      RootsResult((if root.outcome.Fail? then [root.outcome.error] else []) + rest.configExceptions, rest.state)
  }

  /** The root loop so far: `acc` collected from the roots already tried,
      `s` the state they left, `maps` the roots still to try, `all` the result
      of the whole loop. */
  ghost predicate RootsFrom(c: Config, validators: seq<Validator>, rank: TypePair -> nat, all: RootsResult,
                            acc: seq<Error>, s: State, maps: seq<MapId>)
  {
    && WellFormed(c) && Ranked(c, rank) && s.typeMapsChecked <= Ids(c)
    && (forall k :: 0 <= k < |maps| ==> maps[k] < |c.typeMaps|)
    && all == RootsResult(acc + Roots(c, validators, rank, s, maps).configExceptions,
                          Roots(c, validators, rank, s, maps).state)
  }

  lemma RootsFromStart(c: Config, validators: seq<Validator>, rank: TypePair -> nat, s: State, maps: seq<MapId>)
    requires WellFormed(c) && Ranked(c, rank) && s.typeMapsChecked <= Ids(c)
    requires forall k :: 0 <= k < |maps| ==> maps[k] < |c.typeMaps|
    ensures RootsFrom(c, validators, rank, Roots(c, validators, rank, s, maps), [], s, maps)
  {
    assert [] + Roots(c, validators, rank, s, maps).configExceptions == Roots(c, validators, rank, s, maps).configExceptions;
  }

  /** Trying the first remaining root, which ends with `outcome` in state
      `s'`, records its failure, if any, and continues from `s'`. */
  lemma RootsFromNext(c: Config, validators: seq<Validator>, rank: TypePair -> nat, all: RootsResult,
                      acc: seq<Error>, s: State, maps: seq<MapId>, outcome: Outcome, s': State, rest: seq<MapId>)
    requires RootsFrom(c, validators, rank, all, acc, s, maps) && maps != [] && rest == maps[1..]
    requires Step(outcome, s') == DryRunTypeMap(c, validators, rank, s, c.typeMaps[maps[0]].types, Some(maps[0]), None)
    ensures RootsFrom(c, validators, rank, all, acc + (if outcome.Fail? then [outcome.error] else []), s', rest)
  {
    var tail := Roots(c, validators, rank, s', rest);
    var head := if outcome.Fail? then [outcome.error] else [];
    assert acc + (head + tail.configExceptions) == (acc + head) + tail.configExceptions;
  }

  lemma RootsFromDone(c: Config, validators: seq<Validator>, rank: TypePair -> nat, all: RootsResult,
                      acc: seq<Error>, s: State)
    requires RootsFrom(c, validators, rank, all, acc, s, [])
    ensures all == RootsResult(acc, s)
  {
    assert acc + [] == acc;
  }

  /** Several failures are thrown as one aggregate; a single one is rethrown as it is. */
  function Rethrow(configExceptions: seq<Error>): Outcome
  {
    if |configExceptions| > 1 then Fail(Aggregate(configExceptions))
    else if |configExceptions| > 0 then Fail(configExceptions[0])
    else Pass
  }

  /** AssertConfigurationIsValid: the screen, then the walk from every root with one fresh state. */
  ghost function ConfigurationIsValid(c: Config, validators: seq<Validator>, rank: TypePair -> nat,
                                      maps: seq<MapId>): Outcome
    requires WellFormed(c) && Ranked(c, rank)
    requires forall k :: 0 <= k < |maps| ==> maps[k] < |c.typeMaps|
  {
    var badTypeMaps := BadTypeMaps(c, maps);
    if |badTypeMaps| > 0 then Fail(Configuration(badTypeMaps))
    else Rethrow(Roots(c, validators, rank, State({}, []), maps).configExceptions)
  }

  // ---------------------------------------------------------------------------
  // Validator dispatch

  /** The run passes exactly when no validator throws; a failure is the
      exception of the first validator, in registration order, that throws. */
  lemma {:induction false} FirstFailureExactly(validators: seq<Validator>, context: ValidationContext)
    ensures FirstFailure(validators, context) == Pass <==>
      forall i :: 0 <= i < |validators| ==> validators[i](context).None?
    ensures FirstFailure(validators, context).Fail? ==>
      exists i :: 0 <= i < |validators| && validators[i](context) == Some(FirstFailure(validators, context).error)
        && forall j :: 0 <= j < i ==> validators[j](context).None?
  {
    if validators != [] && validators[0](context).None? {
      var tail := validators[1..];
      FirstFailureExactly(tail, context);
      if FirstFailure(tail, context).Fail? {
        var i :| 0 <= i < |tail| && tail[i](context) == Some(FirstFailure(tail, context).error)
          && forall j :: 0 <= j < i ==> tail[j](context).None?;
        assert validators[i + 1] == tail[i];
        forall j | 0 <= j < i + 1 ensures validators[j](context).None? {
          if j > 0 { assert validators[j] == tail[j - 1]; }
        }
      } else {
        forall i | 0 <= i < |validators| ensures validators[i](context).None? {
          if i > 0 { assert validators[i] == tail[i - 1]; }
        }
      }
    }
  }

  // ---------------------------------------------------------------------------
  // Each type map is checked, and validated, at most once

  /** The type maps some validated context names. */
  ghost function MapsValidated(v: seq<ValidationContext>): set<MapId>
  {
    set k | 0 <= k < |v| && v[k].typeMap.Some? :: v[k].typeMap.value
  }

  /** No type map is handed to the validators twice. */
  ghost predicate ValidatedOnce(v: seq<ValidationContext>)
  {
    forall i, j :: 0 <= i < j < |v| && v[i].typeMap.Some? ==> v[i].typeMap != v[j].typeMap
  }

  /** The checked set is exactly the set of maps validated, each of them once. */
  ghost predicate Sound(s: State)
  {
    s.typeMapsChecked == MapsValidated(s.validated) && ValidatedOnce(s.validated)
  }

  lemma ValidateKeepsSound(s: State, context: ValidationContext)
    requires Sound(s)
    requires context.typeMap.Some? ==> context.typeMap.value !in s.typeMapsChecked
    ensures Sound(State(s.typeMapsChecked + (if context.typeMap.Some? then {context.typeMap.value} else {}),
                        s.validated + [context]))
  {
    var v := s.validated + [context];
    assert forall k :: 0 <= k < |s.validated| ==> v[k] == s.validated[k];
    var added := if context.typeMap.Some? then {context.typeMap.value} else {};
    assert MapsValidated(v) == MapsValidated(s.validated) + added by {
      forall m | m in MapsValidated(v) ensures m in MapsValidated(s.validated) + added {
        var k :| 0 <= k < |v| && v[k].typeMap.Some? && v[k].typeMap.value == m;
        if k < |s.validated| {
          assert s.validated[k].typeMap.value == m;
        }
      }
      forall m | m in added ensures m in MapsValidated(v) {
        assert v[|s.validated|].typeMap.value == m;
      }
    }
  }

  lemma {:induction false} DryRunKeepsSound(c: Config, validators: seq<Validator>, rank: TypePair -> nat, s: State,
                                            types: TypePair, typeMap: Option<MapId>, memberMap: Option<MemberMap>)
    requires WellFormed(c) && Ranked(c, rank) && s.typeMapsChecked <= Ids(c)
    requires CallShape(c, typeMap, memberMap)
    requires Sound(s)
    ensures Sound(DryRunTypeMap(c, validators, rank, s, types, typeMap, memberMap).state)
    decreases Ids(c) - s.typeMapsChecked, 1, rank(types)
  {
    if !(typeMap.None? && c.containsGenericParameters(types)) {
      var resolved := if typeMap.Some? then typeMap else c.resolveTypeMap(types);
      match resolved
      case Some(m) =>
        if m !in s.typeMapsChecked {
          var context := ValidationContext(types, memberMap, Some(m), None);
          ValidateKeepsSound(s, context);
          var s' := State(s.typeMapsChecked + {m}, s.validated + [context]);
          if FirstFailure(validators, context).Pass? && c.typeMaps[m].shouldCheckForValid {
            CheckPropertyMapsKeepsSound(c, validators, rank, s', m, 0);
          }
        }
      case None =>
        match c.findMapper(types)
        case None =>
        case Some(mapper) =>
          var context := ValidationContext(types, memberMap, None, Some(mapper));
          ValidateKeepsSound(s, context);
          var s' := State(s.typeMapsChecked, s.validated + [context]);
          assert s'.typeMapsChecked == s.typeMapsChecked + {};
          if FirstFailure(validators, context).Pass? && AssociatedTypes(c, types).Some? {
            DryRunKeepsSound(c, validators, rank, s', AssociatedTypes(c, types).value, None, memberMap);
          }
    }
  }

  lemma {:induction false} CheckPropertyMapsKeepsSound(c: Config, validators: seq<Validator>, rank: TypePair -> nat,
                                                       s: State, m: MapId, i: nat)
    requires WellFormed(c) && Ranked(c, rank) && s.typeMapsChecked <= Ids(c)
    requires m < |c.typeMaps| && i <= |c.typeMaps[m].memberMaps|
    requires Sound(s)
    ensures Sound(CheckPropertyMaps(c, validators, rank, s, m, i).state)
    decreases Ids(c) - s.typeMapsChecked, 2, |c.typeMaps[m].memberMaps| - i
  {
    var memberMaps := c.typeMaps[m].memberMaps;
    if i < |memberMaps| {
      var memberMap := memberMaps[i];
      if memberMap.ignored {
        CheckPropertyMapsKeepsSound(c, validators, rank, s, m, i + 1);
      } else if !IsUnknownSourceType(c, memberMap.sourceType) {
        var types := TypePair(memberMap.sourceType, memberMap.destinationType);
        DryRunKeepsSound(c, validators, rank, s, types, None, Some(memberMap));
        var r := DryRunTypeMap(c, validators, rank, s, types, None, Some(memberMap));
        if r.outcome.Pass? {
          CheckPropertyMapsKeepsSound(c, validators, rank, r.state, m, i + 1);
        }
      }
    }
  }

  /** Within one AssertConfigurationIsValid call every input map ends up checked
      and every checked map was handed to the validators exactly once: a map
      reached from an earlier root is not validated again from a later one. */
  lemma {:induction false} RootsValidateEachMapOnce(c: Config, validators: seq<Validator>, rank: TypePair -> nat,
                                                    s: State, maps: seq<MapId>)
    requires WellFormed(c) && Ranked(c, rank) && s.typeMapsChecked <= Ids(c)
    requires forall k :: 0 <= k < |maps| ==> maps[k] < |c.typeMaps|
    requires Sound(s)
    ensures var r := Roots(c, validators, rank, s, maps);
      Sound(r.state) && forall k :: 0 <= k < |maps| ==> maps[k] in r.state.typeMapsChecked
    decreases |maps|
  {
    if maps != [] {
      var root := DryRunTypeMap(c, validators, rank, s, c.typeMaps[maps[0]].types, Some(maps[0]), None);
      DryRunKeepsSound(c, validators, rank, s, c.typeMaps[maps[0]].types, Some(maps[0]), None);
      assert maps[0] in root.state.typeMapsChecked;
      RootsValidateEachMapOnce(c, validators, rank, root.state, maps[1..]);
      var r := Roots(c, validators, rank, s, maps);
      forall k | 0 <= k < |maps| ensures maps[k] in r.state.typeMapsChecked {
        if k > 0 { assert maps[k] == maps[1..][k - 1]; }
      }
    }
  }

  // ---------------------------------------------------------------------------
  // What a passing walk means

  /** Every context validated from index `from` on passed all validators. */
  ghost predicate PassedFrom(validators: seq<Validator>, v: seq<ValidationContext>, from: nat)
  {
    forall k :: from <= k < |v| ==> FirstFailure(validators, v[k]) == Pass
  }

  lemma {:induction false} DryRunPassMeansValidated(c: Config, validators: seq<Validator>, rank: TypePair -> nat, s: State,
                                                    types: TypePair, typeMap: Option<MapId>, memberMap: Option<MemberMap>)
    requires WellFormed(c) && Ranked(c, rank) && s.typeMapsChecked <= Ids(c)
    requires CallShape(c, typeMap, memberMap)
    ensures var r := DryRunTypeMap(c, validators, rank, s, types, typeMap, memberMap);
      r.outcome.Pass? ==> PassedFrom(validators, r.state.validated, |s.validated|)
    decreases Ids(c) - s.typeMapsChecked, 1, rank(types)
  {
    if !(typeMap.None? && c.containsGenericParameters(types)) {
      var resolved := if typeMap.Some? then typeMap else c.resolveTypeMap(types);
      match resolved
      case Some(m) =>
        if m !in s.typeMapsChecked {
          var context := ValidationContext(types, memberMap, Some(m), None);
          var s' := State(s.typeMapsChecked + {m}, s.validated + [context]);
          if FirstFailure(validators, context).Pass? && c.typeMaps[m].shouldCheckForValid {
            CheckPropertyMapsPassMeansValidated(c, validators, rank, s', m, 0);
            var r := CheckPropertyMaps(c, validators, rank, s', m, 0);
            if r.outcome.Pass? {
              assert r.state.validated[|s.validated|] == s'.validated[|s.validated|];
            }
          }
        }
      case None =>
        match c.findMapper(types)
        case None =>
        case Some(mapper) =>
          var context := ValidationContext(types, memberMap, None, Some(mapper));
          var s' := State(s.typeMapsChecked, s.validated + [context]);
          if FirstFailure(validators, context).Pass? && AssociatedTypes(c, types).Some? {
            DryRunPassMeansValidated(c, validators, rank, s', AssociatedTypes(c, types).value, None, memberMap);
            var r := DryRunTypeMap(c, validators, rank, s', AssociatedTypes(c, types).value, None, memberMap);
            if r.outcome.Pass? {
              assert r.state.validated[|s.validated|] == s'.validated[|s.validated|];
            }
          }
    }
  }

  lemma {:induction false} CheckPropertyMapsPassMeansValidated(c: Config, validators: seq<Validator>,
                                                               rank: TypePair -> nat, s: State, m: MapId, i: nat)
    requires WellFormed(c) && Ranked(c, rank) && s.typeMapsChecked <= Ids(c)
    requires m < |c.typeMaps| && i <= |c.typeMaps[m].memberMaps|
    ensures var r := CheckPropertyMaps(c, validators, rank, s, m, i);
      r.outcome.Pass? ==> PassedFrom(validators, r.state.validated, |s.validated|)
    decreases Ids(c) - s.typeMapsChecked, 2, |c.typeMaps[m].memberMaps| - i
  {
    var memberMaps := c.typeMaps[m].memberMaps;
    if i < |memberMaps| {
      var memberMap := memberMaps[i];
      if memberMap.ignored {
        CheckPropertyMapsPassMeansValidated(c, validators, rank, s, m, i + 1);
      } else if !IsUnknownSourceType(c, memberMap.sourceType) {
        var types := TypePair(memberMap.sourceType, memberMap.destinationType);
        DryRunPassMeansValidated(c, validators, rank, s, types, None, Some(memberMap));
        var r := DryRunTypeMap(c, validators, rank, s, types, None, Some(memberMap));
        if r.outcome.Pass? {
          CheckPropertyMapsPassMeansValidated(c, validators, rank, r.state, m, i + 1);
          var r' := CheckPropertyMaps(c, validators, rank, r.state, m, i + 1);
          forall k | |s.validated| <= k < |r'.state.validated| && r'.outcome.Pass?
            ensures FirstFailure(validators, r'.state.validated[k]) == Pass
          {
            if k < |r.state.validated| {
              assert r'.state.validated[..|r.state.validated|][k] == r.state.validated[k];
              assert FirstFailure(validators, r.state.validated[k]) == Pass;
            }
          }
        }
      }
    }
  }

  /** The pair the walk enters for a member: its source and destination types. */
  function MemberPair(memberMap: MemberMap): TypePair
  {
    TypePair(memberMap.sourceType, memberMap.destinationType)
  }

  /** From `p`, through `n` associated pairs of object mappers, each without
      generic parameters and without a type map, the walk reaches a pair that
      has no generic parameters, no type map and no object mapper. */
  ghost predicate DeadEndAfter(c: Config, p: TypePair, n: nat)
    decreases n
  {
    && !c.containsGenericParameters(p)
    && c.resolveTypeMap(p).None?
    && if n == 0 then c.findMapper(p).None?
       else match AssociatedTypes(c, p)
         case None => false
         case Some(q) => DeadEndAfter(c, q, n - 1)
  }

  /** `e` blames a member map of the configuration whose pair leads the walk
      to a dead end, and carries the pair of the type map that owns it. */
  ghost predicate UnresolvedMember(c: Config, e: Error)
  {
    && e.UnmappedMember?
    && (exists m, k :: 0 <= m < |c.typeMaps| && 0 <= k < |c.typeMaps[m].memberMaps|
          && c.typeMaps[m].memberMaps[k] == e.memberMap)
    && e.memberMap.typeMap < |c.typeMaps|
    && e.types == c.typeMaps[e.memberMap.typeMap].types
    && exists n: nat :: DeadEndAfter(c, MemberPair(e.memberMap), n)
  }

  /** Where a failure of the walk comes from: a validator that threw on a
      context validated from index `from` on, or a member pair that leads to
      a pair with neither a type map nor an object mapper. */
  ghost predicate FailureExplained(c: Config, validators: seq<Validator>, v: seq<ValidationContext>, from: nat, e: Error)
  {
    || (exists k :: from <= k < |v| && FirstFailure(validators, v[k]) == Fail(e))
    || UnresolvedMember(c, e)
  }

  lemma ExplainedInLonger(c: Config, validators: seq<Validator>, v: seq<ValidationContext>, v': seq<ValidationContext>,
                          from: nat, e: Error)
    requires |v| <= |v'| && v'[..|v|] == v
    requires FailureExplained(c, validators, v, from, e)
    ensures FailureExplained(c, validators, v', from, e)
  {
    if exists k :: from <= k < |v| && FirstFailure(validators, v[k]) == Fail(e) {
      var k :| from <= k < |v| && FirstFailure(validators, v[k]) == Fail(e);
      assert v'[..|v|][k] == v'[k];
    }
  }

  /** A failure of the dry run from `types` is explained, or, when the walk
      came through a member, it is that member's failure on a pair that leads
      from `types` to a dead end. */
  lemma {:induction false} DryRunFailureExplained(c: Config, validators: seq<Validator>, rank: TypePair -> nat, s: State,
                                                  types: TypePair, typeMap: Option<MapId>, memberMap: Option<MemberMap>)
    requires WellFormed(c) && Ranked(c, rank) && s.typeMapsChecked <= Ids(c)
    requires CallShape(c, typeMap, memberMap)
    ensures var r := DryRunTypeMap(c, validators, rank, s, types, typeMap, memberMap);
      r.outcome.Fail? ==>
        || FailureExplained(c, validators, r.state.validated, |s.validated|, r.outcome.error)
        || (&& typeMap.None? && memberMap.Some?
            && r.outcome.error == UnmappedMember(c.typeMaps[memberMap.value.typeMap].types, memberMap.value)
            && exists n: nat :: DeadEndAfter(c, types, n))
    decreases Ids(c) - s.typeMapsChecked, 1, rank(types)
  {
    var r := DryRunTypeMap(c, validators, rank, s, types, typeMap, memberMap);
    if !(typeMap.None? && c.containsGenericParameters(types)) {
      var resolved := if typeMap.Some? then typeMap else c.resolveTypeMap(types);
      match resolved
      case Some(m) =>
        if m !in s.typeMapsChecked {
          var context := ValidationContext(types, memberMap, Some(m), None);
          var s' := State(s.typeMapsChecked + {m}, s.validated + [context]);
          if FirstFailure(validators, context).Fail? {
            assert s'.validated[|s.validated|] == context;
          } else if c.typeMaps[m].shouldCheckForValid {
            CheckPropertyMapsFailureExplained(c, validators, rank, s', m, 0);
            if r.outcome.Fail? {
              var e := r.outcome.error;
              if exists k :: |s'.validated| <= k < |r.state.validated| && FirstFailure(validators, r.state.validated[k]) == Fail(e) {
                var k :| |s'.validated| <= k < |r.state.validated| && FirstFailure(validators, r.state.validated[k]) == Fail(e);
                assert |s.validated| <= k;
              }
            }
          }
        }
      case None =>
        match c.findMapper(types)
        case None =>
          assert typeMap.None? && memberMap.Some?;
          assert r.outcome.error == UnmappedMember(c.typeMaps[memberMap.value.typeMap].types, memberMap.value);
          assert DeadEndAfter(c, types, 0);
          assert exists n: nat :: DeadEndAfter(c, types, n);
        case Some(mapper) =>
          var context := ValidationContext(types, memberMap, None, Some(mapper));
          var s' := State(s.typeMapsChecked, s.validated + [context]);
          if FirstFailure(validators, context).Fail? {
            assert s'.validated[|s.validated|] == context;
          } else if AssociatedTypes(c, types).Some? {
            var newTypes := AssociatedTypes(c, types).value;
            DryRunFailureExplained(c, validators, rank, s', newTypes, None, memberMap);
            assert r == DryRunTypeMap(c, validators, rank, s', newTypes, None, memberMap);
            if r.outcome.Fail? {
              var e := r.outcome.error;
              if exists k :: |s'.validated| <= k < |r.state.validated| && FirstFailure(validators, r.state.validated[k]) == Fail(e) {
                var k :| |s'.validated| <= k < |r.state.validated| && FirstFailure(validators, r.state.validated[k]) == Fail(e);
                assert |s.validated| <= k;
              }
              if exists n: nat :: DeadEndAfter(c, newTypes, n) {
                var n: nat :| DeadEndAfter(c, newTypes, n);
                assert DeadEndAfter(c, types, n + 1);
                assert exists n': nat :: DeadEndAfter(c, types, n');
              }
            }
          }
    }
  }

  lemma {:induction false} CheckPropertyMapsFailureExplained(c: Config, validators: seq<Validator>,
                                                             rank: TypePair -> nat, s: State, m: MapId, i: nat)
    requires WellFormed(c) && Ranked(c, rank) && s.typeMapsChecked <= Ids(c)
    requires m < |c.typeMaps| && i <= |c.typeMaps[m].memberMaps|
    ensures var r := CheckPropertyMaps(c, validators, rank, s, m, i);
      r.outcome.Fail? ==> FailureExplained(c, validators, r.state.validated, |s.validated|, r.outcome.error)
    decreases Ids(c) - s.typeMapsChecked, 2, |c.typeMaps[m].memberMaps| - i
  {
    var memberMaps := c.typeMaps[m].memberMaps;
    if i < |memberMaps| {
      var memberMap := memberMaps[i];
      if memberMap.ignored {
        CheckPropertyMapsFailureExplained(c, validators, rank, s, m, i + 1);
      } else if !IsUnknownSourceType(c, memberMap.sourceType) {
        var types := TypePair(memberMap.sourceType, memberMap.destinationType);
        DryRunFailureExplained(c, validators, rank, s, types, None, Some(memberMap));
        var r := DryRunTypeMap(c, validators, rank, s, types, None, Some(memberMap));
        if r.outcome.Fail? && r.outcome.error == UnmappedMember(c.typeMaps[memberMap.typeMap].types, memberMap)
           && exists n: nat :: DeadEndAfter(c, types, n) {
          var n: nat :| DeadEndAfter(c, types, n);
          assert c.typeMaps[m].memberMaps[i] == r.outcome.error.memberMap;
          assert DeadEndAfter(c, MemberPair(r.outcome.error.memberMap), n);
        } else if r.outcome.Pass? {
          CheckPropertyMapsFailureExplained(c, validators, rank, r.state, m, i + 1);
          var r' := CheckPropertyMaps(c, validators, rank, r.state, m, i + 1);
          if r'.outcome.Fail? {
            var e := r'.outcome.error;
            if exists k :: |r.state.validated| <= k < |r'.state.validated| && FirstFailure(validators, r'.state.validated[k]) == Fail(e) {
              var k :| |r.state.validated| <= k < |r'.state.validated| && FirstFailure(validators, r'.state.validated[k]) == Fail(e);
              assert |s.validated| <= k;
            }
          }
        }
      }
    }
  }

  /** Every failure the root loop collects is explained by the walk of that
      call: a validator throwing on a context it validated, or an unresolvable
      member pair blamed on its owning map. */
  lemma {:induction false} RootsFailuresExplained(c: Config, validators: seq<Validator>, rank: TypePair -> nat,
                                                  s: State, maps: seq<MapId>)
    requires WellFormed(c) && Ranked(c, rank) && s.typeMapsChecked <= Ids(c)
    requires forall k :: 0 <= k < |maps| ==> maps[k] < |c.typeMaps|
    ensures forall e :: e in Roots(c, validators, rank, s, maps).configExceptions ==>
      FailureExplained(c, validators, Roots(c, validators, rank, s, maps).state.validated, |s.validated|, e)
    decreases |maps|
  {
    if maps != [] {
      var types := c.typeMaps[maps[0]].types;
      var root := DryRunTypeMap(c, validators, rank, s, types, Some(maps[0]), None);
      DryRunFailureExplained(c, validators, rank, s, types, Some(maps[0]), None);
      RootsFailuresExplained(c, validators, rank, root.state, maps[1..]);
      var rest := Roots(c, validators, rank, root.state, maps[1..]);
      assert forall e :: e in rest.configExceptions ==>
        FailureExplained(c, validators, rest.state.validated, |root.state.validated|, e);
      var r := Roots(c, validators, rank, s, maps);
      assert r.configExceptions == (if root.outcome.Fail? then [root.outcome.error] else []) + rest.configExceptions;
      assert r.state == rest.state;
      forall e | e in r.configExceptions ensures FailureExplained(c, validators, r.state.validated, |s.validated|, e) {
        if e in rest.configExceptions {
          var v := rest.state.validated;
          assert FailureExplained(c, validators, v, |root.state.validated|, e);
          if exists k :: |root.state.validated| <= k < |v| && FirstFailure(validators, v[k]) == Fail(e) {
            var k :| |root.state.validated| <= k < |v| && FirstFailure(validators, v[k]) == Fail(e);
            assert |s.validated| <= k;
          }
        } else {
          assert root.outcome.Fail? && e == root.outcome.error;
          assert FailureExplained(c, validators, root.state.validated, |s.validated|, e);
          ExplainedInLonger(c, validators, root.state.validated, rest.state.validated, |s.validated|, e);
        }
      }
    }
  }

  /** When no root fails, every context the root loop validated passed all validators. */
  lemma {:induction false} RootsPassMeansValidated(c: Config, validators: seq<Validator>, rank: TypePair -> nat,
                                                   s: State, maps: seq<MapId>)
    requires WellFormed(c) && Ranked(c, rank) && s.typeMapsChecked <= Ids(c)
    requires forall k :: 0 <= k < |maps| ==> maps[k] < |c.typeMaps|
    ensures Roots(c, validators, rank, s, maps).configExceptions == [] ==>
      PassedFrom(validators, Roots(c, validators, rank, s, maps).state.validated, |s.validated|)
    decreases |maps|
  {
    if maps != [] {
      var types := c.typeMaps[maps[0]].types;
      var root := DryRunTypeMap(c, validators, rank, s, types, Some(maps[0]), None);
      DryRunPassMeansValidated(c, validators, rank, s, types, Some(maps[0]), None);
      RootsPassMeansValidated(c, validators, rank, root.state, maps[1..]);
      var rest := Roots(c, validators, rank, root.state, maps[1..]);
      var r := Roots(c, validators, rank, s, maps);
      if r.configExceptions == [] {
        assert root.outcome.Pass? && rest.configExceptions == [];
        forall k | |s.validated| <= k < |r.state.validated|
          ensures FirstFailure(validators, r.state.validated[k]) == Pass
        {
          if k < |root.state.validated| {
            assert rest.state.validated[..|root.state.validated|][k] == root.state.validated[k];
          }
        }
      }
    }
  }

  /** AssertConfigurationIsValid returns normally exactly when no input map is
      incomplete or unconstructible and no root's walk fails; it then has
      checked every input map and every validator accepted every context. It
      throws the screen's error whenever some map is bad, whatever the walk
      would have found, and otherwise the single walk failure as it is, or an
      aggregate of all of them in root order when there are several. */
  lemma ConfigurationIsValidExactly(c: Config, validators: seq<Validator>, rank: TypePair -> nat, maps: seq<MapId>)
    requires WellFormed(c) && Ranked(c, rank)
    requires forall k :: 0 <= k < |maps| ==> maps[k] < |c.typeMaps|
    ensures (exists k :: 0 <= k < |maps| && IsBad(c.typeMaps[maps[k]])) ==>
      ConfigurationIsValid(c, validators, rank, maps) == Fail(Configuration(BadTypeMaps(c, maps)))
    ensures (forall k :: 0 <= k < |maps| ==> !IsBad(c.typeMaps[maps[k]])) ==>
      var failures := Roots(c, validators, rank, State({}, []), maps).configExceptions;
      && (|failures| == 0 ==> ConfigurationIsValid(c, validators, rank, maps) == Pass)
      && (|failures| == 1 ==> ConfigurationIsValid(c, validators, rank, maps) == Fail(failures[0]))
      && (|failures| > 1 ==> ConfigurationIsValid(c, validators, rank, maps) == Fail(Aggregate(failures)))
    ensures ConfigurationIsValid(c, validators, rank, maps) == Pass ==>
      var r := Roots(c, validators, rank, State({}, []), maps);
      && (forall k :: 0 <= k < |maps| ==> !IsBad(c.typeMaps[maps[k]]) && maps[k] in r.state.typeMapsChecked)
      && PassedFrom(validators, r.state.validated, 0)
      && Sound(r.state)
  {
    BadTypeMapsExactly(c, maps);
    var s := State({}, []);
    assert Sound(s);
    RootsValidateEachMapOnce(c, validators, rank, s, maps);
    RootsPassMeansValidated(c, validators, rank, s, maps);
  }

  // ---------------------------------------------------------------------------
  // The member loop

  /** Members before the first non-ignored member are skipped, and when that
      member's source type is a generic parameter or `object` the loop stops
      there: no later member of the map is walked, resolvable or not. */
  lemma {:induction false} UnknownSourceTypeEndsMembers(c: Config, validators: seq<Validator>, rank: TypePair -> nat,
                                                        s: State, m: MapId, i: nat, j: nat)
    requires WellFormed(c) && Ranked(c, rank) && s.typeMapsChecked <= Ids(c)
    requires m < |c.typeMaps| && i <= j < |c.typeMaps[m].memberMaps|
    requires forall k :: i <= k < j ==> c.typeMaps[m].memberMaps[k].ignored
    requires !c.typeMaps[m].memberMaps[j].ignored && IsUnknownSourceType(c, c.typeMaps[m].memberMaps[j].sourceType)
    ensures CheckPropertyMaps(c, validators, rank, s, m, i) == Step(Pass, s)
    decreases j - i
  {
    if i < j {
      UnknownSourceTypeEndsMembers(c, validators, rank, s, m, i + 1, j);
    }
  }

  /** How a call finds its type map: the one passed in, or else the resolver's
      answer for a pair without generic parameters. */
  ghost predicate FindsTypeMap(c: Config, types: TypePair, typeMap: Option<MapId>, m: MapId)
  {
    if typeMap.Some? then typeMap == Some(m)
    else !c.containsGenericParameters(types) && c.resolveTypeMap(types) == Some(m)
  }

  /** A type map already checked, whether passed in as a root or resolved
      from a member's pair (a cycle back to it), is skipped: the call passes
      and the state is unchanged. */
  lemma CheckedMapSkipped(c: Config, validators: seq<Validator>, rank: TypePair -> nat, s: State,
                          types: TypePair, typeMap: Option<MapId>, memberMap: Option<MemberMap>, m: MapId)
    requires WellFormed(c) && Ranked(c, rank) && s.typeMapsChecked <= Ids(c)
    requires CallShape(c, typeMap, memberMap)
    requires FindsTypeMap(c, types, typeMap, m) && m in s.typeMapsChecked
    ensures DryRunTypeMap(c, validators, rank, s, types, typeMap, memberMap) == Step(Pass, s)
  {
  }

  /** A type map that should not be checked, whether passed in or resolved
      from a member's pair, is still marked checked and handed to the
      validators, but none of its members is walked. */
  lemma UncheckedMapNotTraversed(c: Config, validators: seq<Validator>, rank: TypePair -> nat, s: State,
                                 types: TypePair, typeMap: Option<MapId>, memberMap: Option<MemberMap>, m: MapId)
    requires WellFormed(c) && Ranked(c, rank) && s.typeMapsChecked <= Ids(c)
    requires CallShape(c, typeMap, memberMap)
    requires FindsTypeMap(c, types, typeMap, m) && m !in s.typeMapsChecked
    requires !c.typeMaps[m].shouldCheckForValid
    ensures var context := ValidationContext(types, memberMap, Some(m), None);
      DryRunTypeMap(c, validators, rank, s, types, typeMap, memberMap)
        == Step(FirstFailure(validators, context), State(s.typeMapsChecked + {m}, s.validated + [context]))
  {
  }

  /** A member's pair with generic parameters is not resolved at all: the
      call passes, nothing is checked and nothing is validated. */
  lemma GenericPairSkipped(c: Config, validators: seq<Validator>, rank: TypePair -> nat, s: State,
                           types: TypePair, memberMap: MemberMap)
    requires WellFormed(c) && Ranked(c, rank) && s.typeMapsChecked <= Ids(c)
    requires memberMap.typeMap < |c.typeMaps|
    requires c.containsGenericParameters(types)
    ensures DryRunTypeMap(c, validators, rank, s, types, None, Some(memberMap)) == Step(Pass, s)
  {
  }

  /** A pair with no type map but an object mapper is validated with that
      mapper first; when the validators pass and the mapper associates a
      different pair, the walk continues from that pair through the same member. */
  lemma MapperFoundFollowsAssociated(c: Config, validators: seq<Validator>, rank: TypePair -> nat, s: State,
                                     types: TypePair, memberMap: MemberMap, mapper: MapperId)
    requires WellFormed(c) && Ranked(c, rank) && s.typeMapsChecked <= Ids(c)
    requires memberMap.typeMap < |c.typeMaps|
    requires !c.containsGenericParameters(types) && c.resolveTypeMap(types).None?
    requires c.findMapper(types) == Some(mapper)
    ensures var context := ValidationContext(types, Some(memberMap), None, Some(mapper));
      var s' := State(s.typeMapsChecked, s.validated + [context]);
      var r := DryRunTypeMap(c, validators, rank, s, types, None, Some(memberMap));
      && |s.validated| < |r.state.validated| && r.state.validated[|s.validated|] == context
      && r.state.typeMapsChecked >= s.typeMapsChecked
      && (FirstFailure(validators, context).Fail? ==> r == Step(FirstFailure(validators, context), s'))
      && (FirstFailure(validators, context).Pass? && c.getAssociatedTypes(mapper, types).Some?
          && c.getAssociatedTypes(mapper, types).value != types ==>
            r == DryRunTypeMap(c, validators, rank, s', c.getAssociatedTypes(mapper, types).value, None, Some(memberMap)))
  {
    var context := ValidationContext(types, Some(memberMap), None, Some(mapper));
    var s' := State(s.typeMapsChecked, s.validated + [context]);
    var r := DryRunTypeMap(c, validators, rank, s, types, None, Some(memberMap));
    assert Extends(c, s', r.state);
    assert r.state.validated[..|s'.validated|][|s.validated|] == context;
  }

  /** When the mapper associates no pair, or the pair itself, the walk stops
      after validating the mapper's context: there is no re-entry. */
  lemma SelfAssociatedPairStops(c: Config, validators: seq<Validator>, rank: TypePair -> nat, s: State,
                                types: TypePair, memberMap: MemberMap, mapper: MapperId)
    requires WellFormed(c) && Ranked(c, rank) && s.typeMapsChecked <= Ids(c)
    requires memberMap.typeMap < |c.typeMaps|
    requires !c.containsGenericParameters(types) && c.resolveTypeMap(types).None?
    requires c.findMapper(types) == Some(mapper)
    requires c.getAssociatedTypes(mapper, types).None? || c.getAssociatedTypes(mapper, types) == Some(types)
    ensures var context := ValidationContext(types, Some(memberMap), None, Some(mapper));
      DryRunTypeMap(c, validators, rank, s, types, None, Some(memberMap))
        == Step(FirstFailure(validators, context), State(s.typeMapsChecked, s.validated + [context]))
  {
  }

  /** Two pairs whose mappers associate each other, neither with a type map,
      admit no rank: such configurations are outside the model. */
  lemma AssociatedCycleNotRanked(c: Config, rank: TypePair -> nat, p: TypePair, q: TypePair)
    requires !c.containsGenericParameters(p) && c.resolveTypeMap(p).None? && AssociatedTypes(c, p) == Some(q)
    requires !c.containsGenericParameters(q) && c.resolveTypeMap(q).None? && AssociatedTypes(c, q) == Some(p)
    ensures !Ranked(c, rank)
  {
  }

  /** A pair with neither a type map nor an object mapper fails with the pair
      of the type map that owns the member the walk came through, not the
      pair itself; the state is left as it was. */
  lemma UnresolvablePairBlamesOwner(c: Config, validators: seq<Validator>, rank: TypePair -> nat, s: State,
                                    types: TypePair, memberMap: MemberMap)
    requires WellFormed(c) && Ranked(c, rank) && s.typeMapsChecked <= Ids(c)
    requires memberMap.typeMap < |c.typeMaps|
    requires !c.containsGenericParameters(types) && c.resolveTypeMap(types).None? && c.findMapper(types).None?
    ensures DryRunTypeMap(c, validators, rank, s, types, None, Some(memberMap))
      == Step(Fail(UnmappedMember(c.typeMaps[memberMap.typeMap].types, memberMap)), s)
  {
  }
}
