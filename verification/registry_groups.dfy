/** Registry-based groups (src/lib/data/group.py).

    A group exists once `create` has put its gid into the registry set, and
    only registered groups can be modified or resolved. A gid-shaped entry
    whose group is not registered is an ordinary member. */
module RegistryGroups {
  import opened Wrappers
  import opened GroupStore

  /** The registry of gids plus the raw include/exclude sets of each group. */
  datatype Store = Store(registry: set<string>, sets: Sets)

  /** `exists`. */
  predicate Exists(st: Store, name: string) {
    Gid(name) in st.registry
  }

  /** The names of all registered groups. */
  function RegisteredNames(st: Store): (names: set<string>)
    ensures forall name :: Exists(st, name) ==> name in names
  {
    var names := set g | g in st.registry && IsGid(g) :: NameOf(g);
    assert forall name :: Exists(st, name) ==> NameOf(Gid(name)) in names;
    names
  }

  // Group management

  /** `create`: registers `name`; the gid comes back only if it was new. */
  function Create(st: Store, name: string): (out: (Store, Option<string>))
    ensures Exists(out.0, name)
    ensures out.1.Some? <==> !Exists(st, name)
    ensures out.1.Some? ==> IsGid(out.1.value) && NameOf(out.1.value) == name
    ensures out.0.registry == st.registry + {Gid(name)} && out.0.sets == st.sets
  {
    var gid := Gid(name);
    GidRoundTrip(name, gid);
    if gid in st.registry then (st, None)
    else (st.(registry := st.registry + {gid}), Some(gid))
  }

  /** `delete`: unregisters `name` and drops both of its sets; false, with
      nothing changed, if it was not registered. */
  function Delete(st: Store, name: string): (out: (Store, bool))
    ensures out.1 <==> Exists(st, name)
    ensures !Exists(out.0, name)
    ensures !out.1 ==> out.0 == st
    ensures out.1 ==> out.0.registry == st.registry - {Gid(name)}
    ensures out.1 ==> forall r: Relation :: RelOf(out.0.sets, name, r) == {}
    ensures AgreeOutside(st.sets, out.0.sets, {name})
  {
    if !Exists(st, name) then (st, false)
    else (Store(st.registry - {Gid(name)}, st.sets - {name}), true)
  }

  // Modify membership

  /** `add_include` / `add_exclude`: true iff the group is registered and
      `member` was not yet in its `rel` set. */
  function AddMember(st: Store, name: string, rel: Relation, member: string): (out: (Store, bool))
    ensures !Exists(st, name) ==> out == (st, false)
    ensures Exists(st, name) ==> (out.1 <==> member !in RelOf(st.sets, name, rel))
    ensures Exists(st, name) ==> RelOf(out.0.sets, name, rel) == RelOf(st.sets, name, rel) + {member}
    ensures forall other: Relation :: other != rel ==> RelOf(out.0.sets, name, other) == RelOf(st.sets, name, other)
    ensures out.0.registry == st.registry
    ensures AgreeOutside(st.sets, out.0.sets, {name})
  {
    if !Exists(st, name) then (st, false)
    else
      var before := RelOf(st.sets, name, rel);
      (st.(sets := SetRel(st.sets, name, rel, before + {member})), member !in before)
  }

  /** `remove_include` / `remove_exclude`: true iff the group is registered
      and `member` was in its `rel` set. */
  function RemoveMember(st: Store, name: string, rel: Relation, member: string): (out: (Store, bool))
    ensures !Exists(st, name) ==> out == (st, false)
    ensures Exists(st, name) ==> (out.1 <==> member in RelOf(st.sets, name, rel))
    ensures Exists(st, name) ==> RelOf(out.0.sets, name, rel) == RelOf(st.sets, name, rel) - {member}
    ensures forall other: Relation :: other != rel ==> RelOf(out.0.sets, name, other) == RelOf(st.sets, name, other)
    ensures out.0.registry == st.registry
    ensures AgreeOutside(st.sets, out.0.sets, {name})
  {
    if !Exists(st, name) then (st, false)
    else
      var before := RelOf(st.sets, name, rel);
      (st.(sets := SetRel(st.sets, name, rel, before - {member})), member in before)
  }

  // Query

  /** Whether resolution expands entry `m`: it is a gid of a registered group. */
  predicate Expands(st: Store, m: string) {
    IsGid(m) && Exists(st, NameOf(m))
  }

  /** Every entry of a registered group that resolution treats as a member. */
  function PlainEntries(st: Store): (p: set<string>)
    ensures forall x | x in p :: !Expands(st, x)
  {
    set g, x | g in st.sets && Exists(st, g) && x in st.sets[g].includes + st.sets[g].excludes && !Expands(st, x) :: x
  }

  /** The entries of a registered group that resolution does not expand are
      plain entries. */
  lemma DirectEntriesPlain(st: Store, name: string)
    requires Exists(st, name)
    ensures forall x | x in RelOf(st.sets, name, Include) + RelOf(st.sets, name, Exclude) && !Expands(st, x) ::
              x in PlainEntries(st)
  {
    forall x | x in RelOf(st.sets, name, Include) + RelOf(st.sets, name, Exclude) && !Expands(st, x)
      ensures x in PlainEntries(st)
    {
      assert name in st.sets && x in st.sets[name].includes + st.sets[name].excludes;
    }
  }

  /** `_resolve`: like the implicit resolver, but a name already on the path
      or not registered contributes nothing, and only gids of registered
      groups are expanded. */
  function Resolve(st: Store, name: string, visited: set<string>): (r: Resolved)
    decreases RegisteredNames(st) - visited
    ensures name in visited || !Exists(st, name) ==> r == Nothing
    ensures forall x :: x in r.included || x in r.excluded ==> !Expands(st, x)
    ensures r.included + r.excluded <= PlainEntries(st)
  {
    if name in visited || !Exists(st, name) then Nothing
    else
      var seen := visited + {name};
      var inc := RelOf(st.sets, name, Include);
      var exc := RelOf(st.sets, name, Exclude);
      var nested := map m | m in inc + exc && Expands(st, m) :: Resolve(st, NameOf(m), seen);
      DirectEntriesPlain(st, name);
      CombineBounded(inc, exc, nested, PlainEntries(st));
      Combine(inc, exc, nested)
  }


  /** The entries of a group that resolution expands. */
  function GroupEntries(st: Store, name: string): (gs: set<string>)
    ensures forall m :: m in gs <==> (m in RelOf(st.sets, name, Include) || m in RelOf(st.sets, name, Exclude)) && Expands(st, m)
  {
    set m | m in RelOf(st.sets, name, Include) + RelOf(st.sets, name, Exclude) && Expands(st, m)
  }

  /** The nested results `Resolve` combines for a registered group off the path. */
  function Nested(st: Store, name: string, visited: set<string>): (nested: map<string, Resolved>)
    requires name !in visited && Exists(st, name)
    ensures Resolve(st, name, visited)
         == Combine(RelOf(st.sets, name, Include), RelOf(st.sets, name, Exclude), nested)
    ensures nested.Keys == GroupEntries(st, name)
    ensures forall m :: m in nested ==> nested[m] == Resolve(st, NameOf(m), visited + {name})
  {
    var seen := visited + {name};
    map m | m in RelOf(st.sets, name, Include) + RelOf(st.sets, name, Exclude) && Expands(st, m)
      :: Resolve(st, NameOf(m), seen)
  }

  /** `get_members`: included minus excluded; empty for an unknown group. */
  function GetMembers(st: Store, name: string): (m: set<string>)
    ensures forall x :: x in m <==> x in Resolve(st, name, {}).included && x !in Resolve(st, name, {}).excluded
    ensures !Exists(st, name) ==> m == {}
    ensures forall x :: x in m ==> !Expands(st, x)
    ensures m <= PlainEntries(st)
  {
    Resolve(st, name, {}).Members()
  }

  /** `is_member`. */
  predicate IsMember(st: Store, member: string, name: string) {
    member in GetMembers(st, name)
  }

  /** `get_groups`: the registered gids whose group has `member`. */
  function GetGroups(st: Store, member: string): (gids: set<string>)
    ensures gids <= st.registry
    ensures forall name :: Gid(name) in gids <==> Exists(st, name) && IsMember(st, member, name)
  {
    var gids := set g | g in st.registry && IsMember(st, member, NameOf(g));
    assert forall name :: NameOf(Gid(name)) == name;
    gids
  }

  // Properties of resolution

  /** `chain` is an include path of registered groups from `chain[0]` that
      avoids `visited`, never repeats a group, and ends at a group listing `x`
      as an entry that is not expanded. */
  ghost predicate IncludeChain(st: Store, chain: seq<string>, visited: set<string>, x: string) {
    && |chain| > 0
    && (forall i | 0 <= i < |chain| :: chain[i] !in visited && Exists(st, chain[i]))
    && (forall i, j | 0 <= i < j < |chain| :: chain[i] != chain[j])
    && (forall i | 0 <= i < |chain| - 1 :: Gid(chain[i + 1]) in RelOf(st.sets, chain[i], Include))
    && x in RelOf(st.sets, chain[|chain| - 1], Include) && !Expands(st, x)
  }

  lemma ChainCons(st: Store, name: string, visited: set<string>, x: string, m: string, tail: seq<string>)
    requires name !in visited && Exists(st, name)
    requires m in RelOf(st.sets, name, Include) && Expands(st, m)
    requires IncludeChain(st, tail, visited + {name}, x) && tail[0] == NameOf(m)
    ensures IncludeChain(st, [name] + tail, visited, x)
  {
    var chain := [name] + tail;
    GidRoundTrip(NameOf(m), m);
    forall i | 0 <= i < |chain| ensures chain[i] !in visited && Exists(st, chain[i]) {
      if i > 0 { assert chain[i] == tail[i - 1]; }
    }
    forall i, j | 0 <= i < j < |chain| ensures chain[i] != chain[j] {
      assert chain[j] == tail[j - 1];
      if i > 0 { assert chain[i] == tail[i - 1]; }
    }
    forall i | 0 <= i < |chain| - 1 ensures Gid(chain[i + 1]) in RelOf(st.sets, chain[i], Include) {
      if i > 0 { assert chain[i] == tail[i - 1] && chain[i + 1] == tail[i]; }
    }
    assert chain[|chain| - 1] == tail[|tail| - 1];
  }

  lemma SomeChainCons(st: Store, name: string, visited: set<string>, x: string, m: string)
    requires name !in visited && Exists(st, name)
    requires m in RelOf(st.sets, name, Include) && Expands(st, m)
    requires exists tail :: IncludeChain(st, tail, visited + {name}, x) && tail[0] == NameOf(m)
    ensures exists chain :: IncludeChain(st, chain, visited, x) && chain[0] == name
  {
    var tail :| IncludeChain(st, tail, visited + {name}, x) && tail[0] == NameOf(m);
    ChainCons(st, name, visited, x, m, tail);
  }

  lemma ChainTail(st: Store, chain: seq<string>, visited: set<string>, x: string)
    requires IncludeChain(st, chain, visited, x) && |chain| > 1
    ensures IncludeChain(st, chain[1..], visited + {chain[0]}, x)
    ensures Gid(chain[1]) in RelOf(st.sets, chain[0], Include)
  {
    var tail := chain[1..];
    forall i | 0 <= i < |tail| ensures tail[i] !in visited + {chain[0]} && Exists(st, tail[i]) {
      assert tail[i] == chain[i + 1];
    }
    forall i, j | 0 <= i < j < |tail| ensures tail[i] != tail[j] {
      assert tail[i] == chain[i + 1] && tail[j] == chain[j + 1];
    }
    forall i | 0 <= i < |tail| - 1 ensures Gid(tail[i + 1]) in RelOf(st.sets, tail[i], Include) {
      assert tail[i] == chain[i + 1] && tail[i + 1] == chain[i + 2];
    }
    assert tail[|tail| - 1] == chain[|chain| - 1];
  }

  lemma {:induction false} IncludedHasChain(st: Store, name: string, visited: set<string>, x: string)
    requires x in Resolve(st, name, visited).included
    ensures exists chain :: IncludeChain(st, chain, visited, x) && chain[0] == name
    decreases RegisteredNames(st) - visited
  {
    var seen := visited + {name};
    var inc := RelOf(st.sets, name, Include);
    var nested := Nested(st, name, visited);
    if x in inc && x !in nested {
      assert IncludeChain(st, [name], visited, x);
    } else {
      var m :| m in inc && m in nested && x in nested[m].included;
      IncludedHasChain(st, NameOf(m), seen, x);
      SomeChainCons(st, name, visited, x, m);
    }
  }

  lemma {:induction false} ChainIsIncluded(st: Store, chain: seq<string>, visited: set<string>, x: string)
    requires IncludeChain(st, chain, visited, x)
    ensures x in Resolve(st, chain[0], visited).included
    decreases |chain|
  {
    var name := chain[0];
    var inc := RelOf(st.sets, name, Include);
    var nested := Nested(st, name, visited);
    if |chain| == 1 {
      assert x in inc && x !in nested;
    } else {
      var seen := visited + {name};
      var tail := chain[1..];
      ChainTail(st, chain, visited, x);
      ChainIsIncluded(st, tail, seen, x);
      var m := Gid(tail[0]);
      GidRoundTrip(tail[0], m);
      assert m in inc && m in nested && x in nested[m].included;
    }
  }

  /** What resolution includes is exactly what some cycle-free path of
      registered groups reaches as an entry that is not expanded. */
  lemma IncludedIffChain(st: Store, name: string, visited: set<string>, x: string)
    ensures x in Resolve(st, name, visited).included
        <==> exists chain :: IncludeChain(st, chain, visited, x) && chain[0] == name
  {
    if x in Resolve(st, name, visited).included {
      IncludedHasChain(st, name, visited, x);
    }
    if exists chain :: IncludeChain(st, chain, visited, x) && chain[0] == name {
      var chain :| IncludeChain(st, chain, visited, x) && chain[0] == name;
      ChainIsIncluded(st, chain, visited, x);
    }
  }

  /** An entry of a group's own exclude set that is not expanded is never one
      of its members, however it is included. */
  lemma ExcludeWins(st: Store, name: string, visited: set<string>, x: string)
    requires name !in visited && Exists(st, name)
    requires x in RelOf(st.sets, name, Exclude) && !Expands(st, x)
    ensures x in Resolve(st, name, visited).excluded
    ensures x !in Resolve(st, name, visited).Members()
  {
    var nested := Nested(st, name, visited);
  }

  /** A gid entry whose group is not registered is an ordinary member on
      either side. */
  lemma UnregisteredGidIsPlain(st: Store, name: string, visited: set<string>, m: string)
    requires name !in visited && Exists(st, name)
    requires IsGid(m) && !Exists(st, NameOf(m))
    ensures m in RelOf(st.sets, name, Include) ==> m in Resolve(st, name, visited).included
    ensures m in RelOf(st.sets, name, Exclude) ==> m in Resolve(st, name, visited).excluded
  {
    var nested := Nested(st, name, visited);
  }

  /** A nested included group passes up both of its resolved sets. */
  lemma NestedIncludePassesBoth(st: Store, name: string, visited: set<string>, sub: string)
    requires name !in visited && Exists(st, name) && Exists(st, sub)
    requires Gid(sub) in RelOf(st.sets, name, Include)
    ensures Resolve(st, sub, visited + {name}).included <= Resolve(st, name, visited).included
    ensures Resolve(st, sub, visited + {name}).excluded <= Resolve(st, name, visited).excluded
  {
    var nested := Nested(st, name, visited);
    GidRoundTrip(sub, Gid(sub));
    assert Gid(sub) in nested;
  }

  /** A nested excluded group passes up its effective members. */
  lemma NestedExcludePassesMembers(st: Store, name: string, visited: set<string>, sub: string)
    requires name !in visited && Exists(st, name) && Exists(st, sub)
    requires Gid(sub) in RelOf(st.sets, name, Exclude)
    ensures Resolve(st, sub, visited + {name}).Members() <= Resolve(st, name, visited).excluded
  {
    var nested := Nested(st, name, visited);
    GidRoundTrip(sub, Gid(sub));
    assert Gid(sub) in nested;
  }

  /** The excluded set of a registered group comes from exactly three
      sources: unexpanded entries of its own exclude set, the excluded sets
      of its registered included subgroups, and the effective members of its
      registered excluded subgroups. What an excluded subgroup merely
      excludes is not passed up. */
  lemma ExcludedIffSources(st: Store, name: string, visited: set<string>, x: string)
    requires name !in visited && Exists(st, name)
    ensures x in Resolve(st, name, visited).excluded <==>
      || (x in RelOf(st.sets, name, Exclude) && !Expands(st, x))
      || (exists sub :: Exists(st, sub) && Gid(sub) in RelOf(st.sets, name, Include)
                        && x in Resolve(st, sub, visited + {name}).excluded)
      || (exists sub :: Exists(st, sub) && Gid(sub) in RelOf(st.sets, name, Exclude)
                        && x in Resolve(st, sub, visited + {name}).Members())
  {
    if x in Resolve(st, name, visited).excluded {
      ExcludedHasSource(st, name, visited, x);
    }
    if x in RelOf(st.sets, name, Exclude) && !Expands(st, x) {
      ExcludeWins(st, name, visited, x);
    }
    if exists sub :: Exists(st, sub) && Gid(sub) in RelOf(st.sets, name, Include)
                     && x in Resolve(st, sub, visited + {name}).excluded {
      var sub :| Exists(st, sub) && Gid(sub) in RelOf(st.sets, name, Include)
                 && x in Resolve(st, sub, visited + {name}).excluded;
      NestedIncludePassesBoth(st, name, visited, sub);
    }
    if exists sub :: Exists(st, sub) && Gid(sub) in RelOf(st.sets, name, Exclude)
                     && x in Resolve(st, sub, visited + {name}).Members() {
      var sub :| Exists(st, sub) && Gid(sub) in RelOf(st.sets, name, Exclude)
                 && x in Resolve(st, sub, visited + {name}).Members();
      NestedExcludePassesMembers(st, name, visited, sub);
    }
  }

  /** Everything a registered group excludes comes from one of the three
      sources. */
  lemma ExcludedHasSource(st: Store, name: string, visited: set<string>, x: string)
    requires name !in visited && Exists(st, name)
    requires x in Resolve(st, name, visited).excluded
    ensures || (x in RelOf(st.sets, name, Exclude) && !Expands(st, x))
            || (exists sub :: Exists(st, sub) && Gid(sub) in RelOf(st.sets, name, Include)
                              && x in Resolve(st, sub, visited + {name}).excluded)
            || (exists sub :: Exists(st, sub) && Gid(sub) in RelOf(st.sets, name, Exclude)
                              && x in Resolve(st, sub, visited + {name}).Members())
  {
    var nested := Nested(st, name, visited);
    if !(x in RelOf(st.sets, name, Exclude) && !Expands(st, x)) {
      if exists m :: m in RelOf(st.sets, name, Include) && m in nested && x in nested[m].excluded {
        var m :| m in RelOf(st.sets, name, Include) && m in nested && x in nested[m].excluded;
        GidRoundTrip(NameOf(m), m);
        assert Exists(st, NameOf(m)) && Gid(NameOf(m)) in RelOf(st.sets, name, Include);
      } else {
        var m :| m in RelOf(st.sets, name, Exclude) && m in nested && x in nested[m].Members();
        GidRoundTrip(NameOf(m), m);
        assert Exists(st, NameOf(m)) && Gid(NameOf(m)) in RelOf(st.sets, name, Exclude);
      }
    }
  }

  /** A registered group whose only exclude entry is the registered subgroup
      `sub`, and which includes no registered group, excludes exactly the
      effective members of `sub`. */
  lemma ExcludedSubgroupOnlyMembers(st: Store, name: string, visited: set<string>, sub: string)
    requires name !in visited && Exists(st, name) && Exists(st, sub)
    requires RelOf(st.sets, name, Exclude) == {Gid(sub)}
    requires forall m | m in RelOf(st.sets, name, Include) :: !Expands(st, m)
    ensures Resolve(st, name, visited).excluded == Resolve(st, sub, visited + {name}).Members()
  {
    GidRoundTrip(sub, Gid(sub));
    forall other | Gid(other) in RelOf(st.sets, name, Exclude) ensures other == sub {
      GidInjective(other, sub);
    }
    forall other ensures !(Exists(st, other) && Gid(other) in RelOf(st.sets, name, Include)) {
      GidRoundTrip(other, Gid(other));
    }
    forall x ensures x in Resolve(st, name, visited).excluded <==> x in Resolve(st, sub, visited + {name}).Members() {
      ExcludedIffSources(st, name, visited, x);
    }
  }

  /** Resolution below `name` reads only groups off the current path. */
  lemma {:induction false} ResolveFrame(st: Store, st': Store, name: string, visited: set<string>)
    requires st.registry == st'.registry
    requires AgreeOutside(st.sets, st'.sets, visited)
    ensures Resolve(st, name, visited) == Resolve(st', name, visited)
    decreases RegisteredNames(st) - visited
  {
    if name !in visited && Exists(st, name) {
      var seen := visited + {name};
      var nested := Nested(st, name, visited);
      var nested' := Nested(st', name, visited);
      assert RelOf(st.sets, name, Include) == RelOf(st'.sets, name, Include);
      assert RelOf(st.sets, name, Exclude) == RelOf(st'.sets, name, Exclude);
      assert GroupEntries(st, name) == GroupEntries(st', name);
      forall m | m in nested ensures nested[m] == nested'[m] {
        ResolveFrame(st, st', NameOf(m), seen);
      }
      CombineCongruence(RelOf(st.sets, name, Include), RelOf(st.sets, name, Exclude), nested, nested');
    }
  }

  /** The nested results of `name` only read groups other than `name`. */
  lemma NestedFrame(st: Store, st': Store, name: string, visited: set<string>)
    requires name !in visited && Exists(st, name)
    requires st.registry == st'.registry
    requires AgreeOutside(st.sets, st'.sets, {name})
    requires GroupEntries(st, name) == GroupEntries(st', name)
    ensures forall m | m in Nested(st, name, visited) :: Nested(st, name, visited)[m] == Nested(st', name, visited)[m]
  {
    var nested := Nested(st, name, visited);
    var nested' := Nested(st', name, visited);
    assert AgreeOutside(st.sets, st'.sets, visited + {name});
    forall m | m in nested ensures nested[m] == nested'[m] {
      ResolveFrame(st, st', NameOf(m), visited + {name});
    }
  }

  lemma AddPlainIncludeKeepsNested(st: Store, name: string, x: string)
    requires Exists(st, name) && !Expands(st, x)
    ensures Resolve(AddMember(st, name, Include, x).0, name, {})
         == Combine(RelOf(st.sets, name, Include) + {x}, RelOf(st.sets, name, Exclude), Nested(st, name, {}))
  {
    var after := AddMember(st, name, Include, x).0;
    assert GroupEntries(after, name) == GroupEntries(st, name);
    NestedFrame(st, after, name, {});
    CombineCongruence(RelOf(st.sets, name, Include) + {x}, RelOf(st.sets, name, Exclude),
                      Nested(st, name, {}), Nested(after, name, {}));
  }

  /** `add_include` of an entry that is not expanded makes it a member unless
      the group already excludes it; nothing else about the group changes. */
  lemma AddIncludeThenMember(st: Store, name: string, x: string)
    requires Exists(st, name) && !Expands(st, x)
    ensures var after := AddMember(st, name, Include, x).0;
            && Resolve(after, name, {}).included == Resolve(st, name, {}).included + {x}
            && Resolve(after, name, {}).excluded == Resolve(st, name, {}).excluded
            && (IsMember(after, x, name) <==> x !in Resolve(st, name, {}).excluded)
  {
    AddPlainIncludeKeepsNested(st, name, x);
    CombineAddPlainInclude(RelOf(st.sets, name, Include), RelOf(st.sets, name, Exclude), Nested(st, name, {}), x);
  }

  /** `add_exclude` of an entry that is not expanded removes it from the
      members, even while an include entry for it is still present. */
  lemma AddExcludeWins(st: Store, name: string, x: string)
    requires Exists(st, name) && !Expands(st, x)
    ensures !IsMember(AddMember(st, name, Exclude, x).0, x, name)
  {
    ExcludeWins(AddMember(st, name, Exclude, x).0, name, {}, x);
  }

  /** After `delete` the group has no members and belongs to no `get_groups`. */
  lemma DeleteEmpties(st: Store, name: string, member: string)
    ensures GetMembers(Delete(st, name).0, name) == {}
    ensures Gid(name) !in GetGroups(Delete(st, name).0, member)
  {
  }
}
