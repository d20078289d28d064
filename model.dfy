/** The data the configuration validator works on: type pairs, type maps with
    their member maps, the context handed to the registered validators, the
    errors the validator raises, and the collaborators it consults (the type
    map resolver, the object mapper lookup and reflection facts about types),
    which are given as functions. */
module Model {

  datatype Option<+T> = None | Some(value: T)

  /** A CLR type, known only by its identity. */
  type TypeId = string

  /** The identity of a TypeMap: its index in Config.typeMaps. */
  type MapId = nat

  /** The identity of an object mapper returned by FindMapper. */
  type MapperId = nat

  datatype TypePair = TypePair(sourceType: TypeId, destinationType: TypeId)

  /** A destination member of a type map; `typeMap` is the map that owns it. */
  datatype MemberMap = MemberMap(
    name: string,
    ignored: bool,
    sourceType: TypeId,
    destinationType: TypeId,
    typeMap: MapId)

  /** A mapping definition. `unmappedPropertyNames` and `passesCtorValidation`
      are what GetUnmappedPropertyNames and PassesCtorValidation report for it. */
  datatype TypeMap = TypeMap(
    types: TypePair,
    memberMaps: seq<MemberMap>,
    shouldCheckForValid: bool,
    unmappedPropertyNames: seq<string>,
    passesCtorValidation: bool)

  /** What a validator is told: the pair being checked, the member the walk
      arrived through, and either the type map or the object mapper found. */
  datatype ValidationContext = ValidationContext(
    types: TypePair,
    memberMap: Option<MemberMap>,
    typeMap: Option<MapId>,
    objectMapper: Option<MapperId>)

  /** A profile: a name and the type pairs of the type map configurations it declares. */
  datatype Profile = Profile(profileName: string, typeMapConfigs: seq<TypePair>)

  datatype DuplicateConfigErrors = DuplicateConfigErrors(types: TypePair, profileNames: seq<string>)

  datatype TypeMapConfigErrors = TypeMapConfigErrors(
    typeMap: MapId,
    unmappedPropertyNames: seq<string>,
    canConstruct: bool)

  /** The exceptions the validator raises or lets through. */
  datatype Error =
    | DuplicateTypeMapConfiguration(duplicates: seq<DuplicateConfigErrors>)
    | Configuration(badTypeMaps: seq<TypeMapConfigErrors>)
    | UnmappedMember(types: TypePair, memberMap: MemberMap)
    | Aggregate(innerExceptions: seq<Error>)
    | ValidatorFailure(message: string)

  /** Normal completion, or the exception that escaped. */
  datatype Outcome = Pass | Fail(error: Error)

  /** A registered validator callback: None when it returns, Some(e) when it throws e. */
  type Validator = ValidationContext -> Option<Error>

  /** The global configuration expression the validator is built with. */
  datatype Expression = Expression(
    allowAdditiveTypeMapCreation: bool,
    profiles: seq<Profile>,
    rootProfile: Profile,
    validators: seq<Validator>)

  /** The global configuration: every type map it knows, and the lookups the walk calls. */
  datatype Config = Config(
    typeMaps: seq<TypeMap>,
    resolveTypeMap: TypePair -> Option<MapId>,
    findMapper: TypePair -> Option<MapperId>,
    getAssociatedTypes: (MapperId, TypePair) -> Option<TypePair>,
    containsGenericParameters: TypePair -> bool,
    isGenericParameter: TypeId -> bool,
    objectType: TypeId)

  /** The numbers below `n`. */
  ghost function Below(n: nat): (r: set<nat>)
    ensures forall m: nat :: m in r <==> m < n
  {
    if n == 0 then {} else Below(n - 1) + {n - 1}
  }

  /** The identities of all type maps of the configuration. */
  ghost function Ids(c: Config): set<MapId>
  {
    Below(|c.typeMaps|)
  }

  /** The resolver only returns type maps of the configuration, and every
      member map names the type map that owns it. */
  ghost predicate WellFormed(c: Config)
  {
    && (forall p :: c.resolveTypeMap(p).Some? ==> c.resolveTypeMap(p).value < |c.typeMaps|)
    && (forall m, k :: 0 <= m < |c.typeMaps| && 0 <= k < |c.typeMaps[m].memberMaps| ==>
          c.typeMaps[m].memberMaps[k].typeMap == m)
  }

  /** A member whose source type is a generic parameter or `object`. */
  predicate IsUnknownSourceType(c: Config, t: TypeId)
  {
    c.isGenericParameter(t) || t == c.objectType
  }

  /** The pair the walk re-enters on after an object mapper is found for
      `types`: the mapper's associated pair, when there is one and it differs. */
  function AssociatedTypes(c: Config, types: TypePair): Option<TypePair>
  {
    match c.findMapper(types)
    case None => None
    case Some(mapper) =>
      match c.getAssociatedTypes(mapper, types)
      case None => None
      case Some(newTypes) => if newTypes != types then Some(newTypes) else None
  }

  /** The chain of associated pairs the walk follows from a pair that has no
      type map is well-founded: `rank` decreases along it. */
  ghost predicate Ranked(c: Config, rank: TypePair -> nat)
  {
    forall p :: !c.containsGenericParameters(p) && c.resolveTypeMap(p).None? && AssociatedTypes(c, p).Some? ==>
      rank(AssociatedTypes(c, p).value) < rank(p)
  }
}
