/** Duplicate detection (ConfigurationValidator.cs:18-24): every type map
    configuration of every profile, the root profile last, grouped by its type
    pair; a group of more than one declaration is reported with the profile
    names of all its declarations. */
module Duplicates {
  import opened Model

  /** One type map configuration together with the profile that declared it. */
  datatype Declaration = Declaration(profileName: string, types: TypePair)

  /** A group of declarations sharing one type pair, as GroupBy yields it. */
  datatype Grouping = Grouping(key: TypePair, elements: seq<Declaration>)

  /** The declarations of one profile, in order. */
  function DeclarationsOf(p: Profile): (r: seq<Declaration>)
    ensures |r| == |p.typeMapConfigs|
    ensures forall k :: 0 <= k < |r| ==> r[k] == Declaration(p.profileName, p.typeMapConfigs[k])
    decreases |p.typeMapConfigs|
  {
    if p.typeMapConfigs == [] then []
    else [Declaration(p.profileName, p.typeMapConfigs[0])]
         + DeclarationsOf(Profile(p.profileName, p.typeMapConfigs[1..]))
  }

  /** SelectMany over the profiles: every declaration, profile by profile. */
  function Declarations(profiles: seq<Profile>): seq<Declaration>
  {
    if profiles == [] then [] else DeclarationsOf(profiles[0]) + Declarations(profiles[1..])
  }

  /** The declarations are exactly the (profile name, pair) of every type map
      configuration of every profile. */
  lemma {:induction false} DeclarationsExactly(profiles: seq<Profile>)
    ensures forall d :: d in Declarations(profiles) <==>
      exists i, k :: 0 <= i < |profiles| && 0 <= k < |profiles[i].typeMapConfigs|
        && d == Declaration(profiles[i].profileName, profiles[i].typeMapConfigs[k])
  {
    if profiles != [] {
      var tail := profiles[1..];
      DeclarationsExactly(tail);
      var head := DeclarationsOf(profiles[0]);
      forall d ensures d in Declarations(profiles) <==>
        exists i, k :: 0 <= i < |profiles| && 0 <= k < |profiles[i].typeMapConfigs|
          && d == Declaration(profiles[i].profileName, profiles[i].typeMapConfigs[k])
      {
        if d in head {
          var k :| 0 <= k < |head| && head[k] == d;
          assert d == Declaration(profiles[0].profileName, profiles[0].typeMapConfigs[k]);
        } else if d in Declarations(tail) {
          var i, k :| 0 <= i < |tail| && 0 <= k < |tail[i].typeMapConfigs|
            && d == Declaration(tail[i].profileName, tail[i].typeMapConfigs[k]);
          assert tail[i] == profiles[i + 1];
        }
        if exists i, k :: 0 <= i < |profiles| && 0 <= k < |profiles[i].typeMapConfigs|
             && d == Declaration(profiles[i].profileName, profiles[i].typeMapConfigs[k]) {
          var i, k :| 0 <= i < |profiles| && 0 <= k < |profiles[i].typeMapConfigs|
            && d == Declaration(profiles[i].profileName, profiles[i].typeMapConfigs[k]);
          if i == 0 {
            assert head[k] == d;
          } else {
            assert profiles[i] == tail[i - 1];
          }
        }
      }
    }
  }

  /** Adds one element to the groups: into the group of its key, or as a new last group. */
  function AddToGroups(gs: seq<Grouping>, d: Declaration): seq<Grouping>
  {
    if gs == [] then [Grouping(d.types, [d])]
    else if gs[0].key == d.types then [Grouping(gs[0].key, gs[0].elements + [d])] + gs[1..]
    else [gs[0]] + AddToGroups(gs[1..], d)
  }

  /** GroupBy on the type pair: groups in order of first occurrence, each
      group's elements in input order. */
  function GroupByTypes(ds: seq<Declaration>): seq<Grouping>
  {
    if ds == [] then [] else AddToGroups(GroupByTypes(ds[..|ds| - 1]), ds[|ds| - 1])
  }

  /** The declarations of `p`, in input order: the independent description of a group. */
  function Matching(ds: seq<Declaration>, p: TypePair): seq<Declaration>
  {
    if ds == [] then []
    else Matching(ds[..|ds| - 1], p) + (if ds[|ds| - 1].types == p then [ds[|ds| - 1]] else [])
  }

  function ProfileNames(ds: seq<Declaration>): (r: seq<string>)
    ensures |r| == |ds|
    ensures forall k :: 0 <= k < |ds| ==> r[k] == ds[k].profileName
  {
    if ds == [] then [] else [ds[0].profileName] + ProfileNames(ds[1..])
  }

  /** Where(count > 1) and Select(key, profile names). */
  function Duplicated(gs: seq<Grouping>): seq<DuplicateConfigErrors>
  {
    if gs == [] then []
    else (if |gs[0].elements| > 1 then [DuplicateConfigErrors(gs[0].key, ProfileNames(gs[0].elements))] else [])
         + Duplicated(gs[1..])
  }

  /** The duplicate report for the given profiles (the root profile is the last one). */
  function DuplicateTypeMapConfigs(profiles: seq<Profile>): seq<DuplicateConfigErrors>
  {
    Duplicated(GroupByTypes(Declarations(profiles)))
  }

  ghost function Keys(gs: seq<Grouping>): set<TypePair>
  {
    set i | 0 <= i < |gs| :: gs[i].key
  }

  /** `gs` groups `ds` exactly: distinct keys, every declaration's pair has a
      group, and each group holds precisely the declarations of its key. */
  ghost predicate GroupsExactly(gs: seq<Grouping>, ds: seq<Declaration>)
  {
    && (forall i, j :: 0 <= i < j < |gs| ==> gs[i].key != gs[j].key)
    && (forall i :: 0 <= i < |gs| ==> gs[i].elements == Matching(ds, gs[i].key) && gs[i].elements != [])
    && (forall k :: 0 <= k < |ds| ==> ds[k].types in Keys(gs))
  }

  /** A pair no declaration has has no declarations. */
  lemma {:induction false} MatchingNone(ds: seq<Declaration>, p: TypePair)
    requires forall k :: 0 <= k < |ds| ==> ds[k].types != p
    ensures Matching(ds, p) == []
  {
    if ds != [] {
      MatchingNone(ds[..|ds| - 1], p);
    }
  }

  lemma KeysCons(gs: seq<Grouping>)
    requires gs != []
    ensures Keys(gs) == {gs[0].key} + Keys(gs[1..])
  {
    var tail := gs[1..];
    forall p | p in Keys(gs) ensures p in {gs[0].key} + Keys(tail) {
      var i :| 0 <= i < |gs| && gs[i].key == p;
      if i > 0 { assert tail[i - 1].key == p; }
    }
    forall p | p in Keys(tail) ensures p in Keys(gs) {
      var i :| 0 <= i < |tail| && tail[i].key == p;
      assert gs[i + 1].key == p;
    }
  }

  lemma {:induction false} AddToGroupsShape(gs: seq<Grouping>, d: Declaration)
    requires forall i, j :: 0 <= i < j < |gs| ==> gs[i].key != gs[j].key
    ensures var r := AddToGroups(gs, d);
      && |r| == |gs| + (if d.types in Keys(gs) then 0 else 1)
      && (forall i :: 0 <= i < |gs| ==>
            r[i] == Grouping(gs[i].key, gs[i].elements + (if gs[i].key == d.types then [d] else [])))
      && (d.types !in Keys(gs) ==> r[|gs|] == Grouping(d.types, [d]))
  {
    if gs != [] {
      assert gs[0].key in Keys(gs);
      if gs[0].key == d.types {
        forall i | 1 <= i < |gs| ensures gs[i].key != d.types { }
      } else {
        var tail := gs[1..];
        AddToGroupsShape(tail, d);
        KeysCons(gs);
        var r, rest := AddToGroups(gs, d), AddToGroups(tail, d);
        assert r == [gs[0]] + rest;
        forall i | 1 <= i < |gs|
          ensures r[i] == Grouping(gs[i].key, gs[i].elements + (if gs[i].key == d.types then [d] else []))
        {
          assert r[i] == rest[i - 1] && gs[i] == tail[i - 1];
        }
      }
    }
  }

  /** The declarations of a pair, one declaration more. */
  lemma MatchingSnoc(front: seq<Declaration>, d: Declaration, p: TypePair)
    ensures Matching(front + [d], p) == Matching(front, p) + (if d.types == p then [d] else [])
  {
    assert (front + [d])[..|front + [d]| - 1] == front;
  }

  /** After one more declaration, each group holds exactly the declarations of its key. */
  lemma AddToGroupsElements(gs: seq<Grouping>, front: seq<Declaration>, d: Declaration)
    requires GroupsExactly(gs, front)
    ensures var r := AddToGroups(gs, d);
      forall i :: 0 <= i < |r| ==> r[i].elements == Matching(front + [d], r[i].key) && r[i].elements != []
  {
    AddToGroupsShape(gs, d);
    var r := AddToGroups(gs, d);
    forall i | 0 <= i < |r| ensures r[i].elements == Matching(front + [d], r[i].key) && r[i].elements != [] {
      MatchingSnoc(front, d, r[i].key);
      if i >= |gs| {
        forall k | 0 <= k < |front| ensures front[k].types != d.types {
          assert front[k].types in Keys(gs);
        }
        MatchingNone(front, d.types);
      }
    }
  }

  /** After one more declaration, every declared pair still has a group and the keys stay distinct. */
  lemma AddToGroupsKeys(gs: seq<Grouping>, front: seq<Declaration>, d: Declaration)
    requires GroupsExactly(gs, front)
    ensures var r := AddToGroups(gs, d);
      && (forall k :: 0 <= k < |front + [d]| ==> (front + [d])[k].types in Keys(r))
      && (forall i, j :: 0 <= i < j < |r| ==> r[i].key != r[j].key)
  {
    AddToGroupsShape(gs, d);
    var r := AddToGroups(gs, d);
    var ds := front + [d];
    forall k | 0 <= k < |ds| ensures ds[k].types in Keys(r) {
      if k < |front| {
        assert ds[k] == front[k];
        var i :| 0 <= i < |gs| && gs[i].key == ds[k].types;
        assert r[i].key == ds[k].types;
      } else if d.types in Keys(gs) {
        var i :| 0 <= i < |gs| && gs[i].key == d.types;
        assert r[i].key == d.types;
      } else {
        assert r[|gs|].key == d.types;
      }
    }
    forall i, j | 0 <= i < j < |r| ensures r[i].key != r[j].key {
      if j == |gs| {
        assert gs[i].key in Keys(gs);
      }
    }
  }

  /** GroupBy meets its description: the groups are exactly the declarations
      of each distinct type pair, in input order. */
  lemma {:induction false} GroupByTypesExactly(ds: seq<Declaration>)
    ensures GroupsExactly(GroupByTypes(ds), ds)
  {
    if ds != [] {
      var front, d := ds[..|ds| - 1], ds[|ds| - 1];
      assert ds == front + [d];
      GroupByTypesExactly(front);
      AddToGroupsElements(GroupByTypes(front), front, d);
      AddToGroupsKeys(GroupByTypes(front), front, d);
    }
  }

  /** The Where/Select stage keeps exactly the groups with more than one element. */
  lemma {:induction false} DuplicatedExactly(gs: seq<Grouping>)
    ensures forall e :: e in Duplicated(gs) <==>
      exists i :: 0 <= i < |gs| && |gs[i].elements| > 1 && e == DuplicateConfigErrors(gs[i].key, ProfileNames(gs[i].elements))
  {
    if gs != [] {
      var tail := gs[1..];
      DuplicatedExactly(tail);
      forall e ensures e in Duplicated(gs) <==>
        exists i :: 0 <= i < |gs| && |gs[i].elements| > 1 && e == DuplicateConfigErrors(gs[i].key, ProfileNames(gs[i].elements))
      {
        if e in Duplicated(tail) {
          var i :| 0 <= i < |tail| && |tail[i].elements| > 1 && e == DuplicateConfigErrors(tail[i].key, ProfileNames(tail[i].elements));
          assert gs[i + 1] == tail[i];
        }
        if exists i :: 0 <= i < |gs| && |gs[i].elements| > 1 && e == DuplicateConfigErrors(gs[i].key, ProfileNames(gs[i].elements)) {
          var i :| 0 <= i < |gs| && |gs[i].elements| > 1 && e == DuplicateConfigErrors(gs[i].key, ProfileNames(gs[i].elements));
          if i > 0 { assert tail[i - 1] == gs[i]; }
        }
      }
    }
  }

  /** Groups with distinct keys give reports with distinct type pairs. */
  lemma {:induction false} DuplicatedDistinct(gs: seq<Grouping>)
    requires forall i, j :: 0 <= i < j < |gs| ==> gs[i].key != gs[j].key
    ensures forall i, j :: 0 <= i < j < |Duplicated(gs)| ==> Duplicated(gs)[i].types != Duplicated(gs)[j].types
  {
    if gs != [] {
      var tail := gs[1..];
      DuplicatedDistinct(tail);
      DuplicatedExactly(tail);
      var r := Duplicated(gs);
      var rest := Duplicated(tail);
      forall k | 0 <= k < |rest| ensures rest[k].types != gs[0].key {
        assert rest[k] in rest;
        var i :| 0 <= i < |tail| && |tail[i].elements| > 1 && rest[k] == DuplicateConfigErrors(tail[i].key, ProfileNames(tail[i].elements));
        assert tail[i] == gs[i + 1];
      }
      if |gs[0].elements| > 1 {
        assert r == [DuplicateConfigErrors(gs[0].key, ProfileNames(gs[0].elements))] + rest;
        forall i, j | 0 <= i < j < |r| ensures r[i].types != r[j].types {
          assert r[j] == rest[j - 1];
          if i > 0 {
            assert r[i] == rest[i - 1];
            assert rest[i - 1].types != rest[j - 1].types;
          } else {
            assert r[0].types == gs[0].key;
            assert rest[j - 1].types != gs[0].key;
          }
        }
      } else {
        assert r == rest;
      }
    }
  }

  /** With additive creation disallowed, the report names exactly the type pairs
      declared more than once across all profiles, each once, with the profile
      name of every declaration of it in declaration order. */
  lemma DuplicatesReportedExactly(profiles: seq<Profile>)
    ensures forall e :: e in DuplicateTypeMapConfigs(profiles) ==>
      var ds := Declarations(profiles);
      |Matching(ds, e.types)| > 1 && e.profileNames == ProfileNames(Matching(ds, e.types))
    ensures forall k :: 0 <= k < |Declarations(profiles)| && |Matching(Declarations(profiles), Declarations(profiles)[k].types)| > 1 ==>
      exists e :: e in DuplicateTypeMapConfigs(profiles) && e.types == Declarations(profiles)[k].types
    ensures var r := DuplicateTypeMapConfigs(profiles);
      forall i, j :: 0 <= i < j < |r| ==> r[i].types != r[j].types
  {
    var ds := Declarations(profiles);
    var gs := GroupByTypes(ds);
    GroupByTypesExactly(ds);
    DuplicatedExactly(gs);
    DuplicatedDistinct(gs);
    forall e | e in DuplicateTypeMapConfigs(profiles)
      ensures |Matching(ds, e.types)| > 1 && e.profileNames == ProfileNames(Matching(ds, e.types))
    {
      var i :| 0 <= i < |gs| && |gs[i].elements| > 1 && e == DuplicateConfigErrors(gs[i].key, ProfileNames(gs[i].elements));
      assert gs[i].elements == Matching(ds, gs[i].key);
    }
    forall k | 0 <= k < |ds| && |Matching(ds, ds[k].types)| > 1
      ensures exists e :: e in DuplicateTypeMapConfigs(profiles) && e.types == ds[k].types
    {
      var i :| 0 <= i < |gs| && gs[i].key == ds[k].types;
      var e := DuplicateConfigErrors(gs[i].key, ProfileNames(gs[i].elements));
      assert e in Duplicated(gs);
    }
  }
}
