/** Groups that exist only through their entries (src/core/group.py).

    There is no registry: a group is whatever its include and exclude sets
    say, and a group with no entries is empty. Every gid-shaped entry is
    expanded as a nested group. */
module ImplicitGroups {
  import opened GroupStore

  // Mutators: each returns the new store and the value the source returns.

  /** `add`: puts `member` into the `rel` set of `name`; true iff it was new. */
  function Add(sets: Sets, name: string, member: string, rel: Relation): (out: (Sets, bool))
    ensures out.1 <==> member !in RelOf(sets, name, rel)
    ensures RelOf(out.0, name, rel) == RelOf(sets, name, rel) + {member}
    ensures forall other: Relation :: other != rel ==> RelOf(out.0, name, other) == RelOf(sets, name, other)
    ensures AgreeOutside(sets, out.0, {name})
  {
    (SetRel(sets, name, rel, RelOf(sets, name, rel) + {member}), member !in RelOf(sets, name, rel))
  }

  /** `rm`: takes `member` out of the `rel` set of `name`; true iff it was there. */
  function Rm(sets: Sets, name: string, member: string, rel: Relation): (out: (Sets, bool))
    ensures out.1 <==> member in RelOf(sets, name, rel)
    ensures RelOf(out.0, name, rel) == RelOf(sets, name, rel) - {member}
    ensures forall other: Relation :: other != rel ==> RelOf(out.0, name, other) == RelOf(sets, name, other)
    ensures AgreeOutside(sets, out.0, {name})
  {
    (SetRel(sets, name, rel, RelOf(sets, name, rel) - {member}), member in RelOf(sets, name, rel))
  }

  /** `delete`: drops both sets of `name` and returns how many Redis keys
      went away (a set exists as a key only while it is non-empty). */
  function Delete(sets: Sets, name: string): (out: (Sets, nat))
    ensures forall r: Relation :: RelOf(out.0, name, r) == {}
    ensures AgreeOutside(sets, out.0, {name})
    ensures out.1 <= 2
    ensures out.1 == 0 <==> RelOf(sets, name, Include) == {} && RelOf(sets, name, Exclude) == {}
    ensures out.1 == 2 <==> RelOf(sets, name, Include) != {} && RelOf(sets, name, Exclude) != {}
  {
    var count := (if RelOf(sets, name, Include) != {} then 1 else 0)
               + (if RelOf(sets, name, Exclude) != {} then 1 else 0);
    (sets - {name}, count)
  }

  // Resolution

  /** Every string that some group lists as a plain (non-gid) entry. */
  function PlainEntries(sets: Sets): (p: set<string>)
    ensures forall x | x in p :: !IsGid(x)
  {
    set g, x | g in sets && x in sets[g].includes + sets[g].excludes && !IsGid(x) :: x
  }

  /** The entries of a group that are not gids are plain entries. */
  lemma DirectEntriesPlain(sets: Sets, name: string)
    ensures forall x | x in RelOf(sets, name, Include) + RelOf(sets, name, Exclude) && !IsGid(x) ::
              x in PlainEntries(sets)
  {
    forall x | x in RelOf(sets, name, Include) + RelOf(sets, name, Exclude) && !IsGid(x)
      ensures x in PlainEntries(sets)
    {
      assert name in sets && x in sets[name].includes + sets[name].excludes;
    }
  }

  /** `_resolve`: resolves `name` depth-first. `visited` holds the groups on
      the current path; meeting one of them again cuts the cycle off with
      nothing. Nested included groups pass up both their sets; nested
      excluded groups pass up only their effective members. */
  function Resolve(sets: Sets, name: string, visited: set<string>): (r: Resolved)
    decreases sets.Keys - visited
    ensures name in visited ==> r == Nothing
    ensures forall x :: x in r.included || x in r.excluded ==> !IsGid(x)
    ensures r.included + r.excluded <= PlainEntries(sets)
  {
    if name in visited then Nothing
    else
      var seen := visited + {name};
      var inc := RelOf(sets, name, Include);
      var exc := RelOf(sets, name, Exclude);
      var nested := map m | m in inc + exc && IsGid(m) :: Resolve(sets, NameOf(m), seen);
      DirectEntriesPlain(sets, name);
      CombineBounded(inc, exc, nested, PlainEntries(sets));
      Combine(inc, exc, nested)
  }


  /** The gid-shaped entries of a group: the ones resolution expands. */
  function GroupEntries(sets: Sets, name: string): (gs: set<string>)
    ensures forall m :: m in gs <==> (m in RelOf(sets, name, Include) || m in RelOf(sets, name, Exclude)) && IsGid(m)
  {
    set m | m in RelOf(sets, name, Include) + RelOf(sets, name, Exclude) && IsGid(m)
  }

  /** The nested results `Resolve` combines for a group off the path. */
  function Nested(sets: Sets, name: string, visited: set<string>): (nested: map<string, Resolved>)
    requires name !in visited
    ensures Resolve(sets, name, visited)
         == Combine(RelOf(sets, name, Include), RelOf(sets, name, Exclude), nested)
    ensures nested.Keys == GroupEntries(sets, name)
    ensures forall m :: m in nested ==> nested[m] == Resolve(sets, NameOf(m), visited + {name})
  {
    var seen := visited + {name};
    map m | m in RelOf(sets, name, Include) + RelOf(sets, name, Exclude) && IsGid(m) :: Resolve(sets, NameOf(m), seen)
  }

  /** `members`: the resolved members of `name`. */
  function Members(sets: Sets, name: string): (m: set<string>)
    ensures forall x :: x in m <==> x in Resolve(sets, name, {}).included && x !in Resolve(sets, name, {}).excluded
    ensures forall x :: x in m ==> !IsGid(x)
    ensures m <= PlainEntries(sets)
  {
    Resolve(sets, name, {}).Members()
  }

  /** `has`. */
  predicate Has(sets: Sets, name: string, member: string) {
    member in Members(sets, name)
  }

  // Properties of resolution

  /** A group with no entries resolves to nothing, whatever the path so far. */
  lemma EntrylessGroupIsEmpty(sets: Sets, name: string, visited: set<string>)
    requires RelOf(sets, name, Include) == {} && RelOf(sets, name, Exclude) == {}
    ensures Resolve(sets, name, visited) == Nothing
  {
  }

  /** `chain` is an include path from `chain[0]` that avoids `visited`, never
      repeats a group, and ends at a group listing `x` as a plain entry. */
  ghost predicate IncludeChain(sets: Sets, chain: seq<string>, visited: set<string>, x: string) {
    && |chain| > 0
    && (forall i | 0 <= i < |chain| :: chain[i] !in visited)
    && (forall i, j | 0 <= i < j < |chain| :: chain[i] != chain[j])
    && (forall i | 0 <= i < |chain| - 1 :: Gid(chain[i + 1]) in RelOf(sets, chain[i], Include))
    && x in RelOf(sets, chain[|chain| - 1], Include) && !IsGid(x)
  }

  lemma {:induction false} IncludedHasChain(sets: Sets, name: string, visited: set<string>, x: string)
    requires x in Resolve(sets, name, visited).included
    ensures exists chain :: IncludeChain(sets, chain, visited, x) && chain[0] == name
    decreases sets.Keys - visited
  {
    var seen := visited + {name};
    var inc := RelOf(sets, name, Include);
    var nested := Nested(sets, name, visited);
    if x in inc && x !in nested {
      SingleChain(sets, name, visited, x);
    } else {
      var m :| m in inc && m in nested && x in nested[m].included;
      IncludedHasChain(sets, NameOf(m), seen, x);
      SomeChainCons(sets, name, visited, x, m);
    }
  }

  /** A group listing `x` as a plain include entry is a chain on its own. */
  lemma SingleChain(sets: Sets, name: string, visited: set<string>, x: string)
    requires name !in visited && x in RelOf(sets, name, Include) && !IsGid(x)
    ensures IncludeChain(sets, [name], visited, x)
  {
  }

  /** An include chain from a nested group extends by the group that lists it. */
  lemma ChainCons(sets: Sets, name: string, visited: set<string>, x: string, m: string, tail: seq<string>)
    requires name !in visited
    requires m in RelOf(sets, name, Include) && IsGid(m)
    requires IncludeChain(sets, tail, visited + {name}, x) && tail[0] == NameOf(m)
    ensures IncludeChain(sets, [name] + tail, visited, x)
  {
    var chain := [name] + tail;
    GidRoundTrip(NameOf(m), m);
    forall i | 0 <= i < |chain| ensures chain[i] !in visited {
      if i > 0 { assert chain[i] == tail[i - 1]; }
    }
    forall i, j | 0 <= i < j < |chain| ensures chain[i] != chain[j] {
      assert chain[j] == tail[j - 1];
      if i > 0 { assert chain[i] == tail[i - 1]; }
    }
    forall i | 0 <= i < |chain| - 1 ensures Gid(chain[i + 1]) in RelOf(sets, chain[i], Include) {
      if i > 0 { assert chain[i] == tail[i - 1] && chain[i + 1] == tail[i]; }
    }
    assert chain[|chain| - 1] == tail[|tail| - 1];
  }

  lemma SomeChainCons(sets: Sets, name: string, visited: set<string>, x: string, m: string)
    requires name !in visited
    requires m in RelOf(sets, name, Include) && IsGid(m)
    requires exists tail :: IncludeChain(sets, tail, visited + {name}, x) && tail[0] == NameOf(m)
    ensures exists chain :: IncludeChain(sets, chain, visited, x) && chain[0] == name
  {
    var tail :| IncludeChain(sets, tail, visited + {name}, x) && tail[0] == NameOf(m);
    ChainCons(sets, name, visited, x, m, tail);
  }

  /** Dropping the head of an include chain leaves a chain that also avoids the head. */
  lemma ChainTail(sets: Sets, chain: seq<string>, visited: set<string>, x: string)
    requires IncludeChain(sets, chain, visited, x) && |chain| > 1
    ensures IncludeChain(sets, chain[1..], visited + {chain[0]}, x)
    ensures Gid(chain[1]) in RelOf(sets, chain[0], Include)
  {
    var tail := chain[1..];
    forall i | 0 <= i < |tail| ensures tail[i] !in visited + {chain[0]} {
      assert tail[i] == chain[i + 1];
    }
    forall i, j | 0 <= i < j < |tail| ensures tail[i] != tail[j] {
      assert tail[i] == chain[i + 1] && tail[j] == chain[j + 1];
    }
    forall i | 0 <= i < |tail| - 1 ensures Gid(tail[i + 1]) in RelOf(sets, tail[i], Include) {
      assert tail[i] == chain[i + 1] && tail[i + 1] == chain[i + 2];
    }
    assert tail[|tail| - 1] == chain[|chain| - 1];
  }

  lemma {:induction false} ChainIsIncluded(sets: Sets, chain: seq<string>, visited: set<string>, x: string)
    requires IncludeChain(sets, chain, visited, x)
    ensures x in Resolve(sets, chain[0], visited).included
    decreases |chain|
  {
    var name := chain[0];
    var inc := RelOf(sets, name, Include);
    var nested := Nested(sets, name, visited);
    if |chain| == 1 {
      assert x in inc && x !in nested;
    } else {
      var seen := visited + {name};
      var tail := chain[1..];
      ChainTail(sets, chain, visited, x);
      ChainIsIncluded(sets, tail, seen, x);
      var m := Gid(tail[0]);
      GidRoundTrip(tail[0], m);
      assert m in inc && m in nested && x in nested[m].included;
    }
  }

  /** What resolution includes is exactly what some cycle-free include path
      reaches as a plain entry. */
  lemma IncludedIffChain(sets: Sets, name: string, visited: set<string>, x: string)
    ensures x in Resolve(sets, name, visited).included
        <==> exists chain :: IncludeChain(sets, chain, visited, x) && chain[0] == name
  {
    if x in Resolve(sets, name, visited).included {
      IncludedHasChain(sets, name, visited, x);
    }
    if exists chain :: IncludeChain(sets, chain, visited, x) && chain[0] == name {
      var chain :| IncludeChain(sets, chain, visited, x) && chain[0] == name;
      ChainIsIncluded(sets, chain, visited, x);
    }
  }

  /** A plain entry of a group's own exclude set is never one of its members,
      however it is included. */
  lemma ExcludeWins(sets: Sets, name: string, visited: set<string>, x: string)
    requires name !in visited
    requires x in RelOf(sets, name, Exclude) && !IsGid(x)
    ensures x in Resolve(sets, name, visited).excluded
    ensures x !in Resolve(sets, name, visited).Members()
  {
    var nested := Nested(sets, name, visited);
  }

  /** A nested included group passes up both of its resolved sets. */
  lemma NestedIncludePassesBoth(sets: Sets, name: string, visited: set<string>, sub: string)
    requires name !in visited
    requires Gid(sub) in RelOf(sets, name, Include)
    ensures Resolve(sets, sub, visited + {name}).included <= Resolve(sets, name, visited).included
    ensures Resolve(sets, sub, visited + {name}).excluded <= Resolve(sets, name, visited).excluded
  {
    var nested := Nested(sets, name, visited);
    GidRoundTrip(sub, Gid(sub));
    assert Gid(sub) in nested;
  }

  /** A nested excluded group passes up its effective members. */
  lemma NestedExcludePassesMembers(sets: Sets, name: string, visited: set<string>, sub: string)
    requires name !in visited
    requires Gid(sub) in RelOf(sets, name, Exclude)
    ensures Resolve(sets, sub, visited + {name}).Members() <= Resolve(sets, name, visited).excluded
  {
    var nested := Nested(sets, name, visited);
    GidRoundTrip(sub, Gid(sub));
    assert Gid(sub) in nested;
  }

  /** The excluded set of a group comes from exactly three sources: plain
      entries of its own exclude set, the excluded sets of its included
      subgroups, and the effective members of its excluded subgroups. What
      an excluded subgroup merely excludes is not passed up. */
  lemma ExcludedIffSources(sets: Sets, name: string, visited: set<string>, x: string)
    requires name !in visited
    ensures x in Resolve(sets, name, visited).excluded <==>
      || (x in RelOf(sets, name, Exclude) && !IsGid(x))
      || (exists sub :: Gid(sub) in RelOf(sets, name, Include) && x in Resolve(sets, sub, visited + {name}).excluded)
      || (exists sub :: Gid(sub) in RelOf(sets, name, Exclude) && x in Resolve(sets, sub, visited + {name}).Members())
  {
    if x in Resolve(sets, name, visited).excluded {
      ExcludedHasSource(sets, name, visited, x);
    }
    if x in RelOf(sets, name, Exclude) && !IsGid(x) {
      ExcludeWins(sets, name, visited, x);
    }
    if exists sub :: Gid(sub) in RelOf(sets, name, Include) && x in Resolve(sets, sub, visited + {name}).excluded {
      var sub :| Gid(sub) in RelOf(sets, name, Include) && x in Resolve(sets, sub, visited + {name}).excluded;
      NestedIncludePassesBoth(sets, name, visited, sub);
    }
    if exists sub :: Gid(sub) in RelOf(sets, name, Exclude) && x in Resolve(sets, sub, visited + {name}).Members() {
      var sub :| Gid(sub) in RelOf(sets, name, Exclude) && x in Resolve(sets, sub, visited + {name}).Members();
      NestedExcludePassesMembers(sets, name, visited, sub);
    }
  }

  /** Everything a group excludes comes from one of the three sources. */
  lemma ExcludedHasSource(sets: Sets, name: string, visited: set<string>, x: string)
    requires name !in visited
    requires x in Resolve(sets, name, visited).excluded
    ensures || (x in RelOf(sets, name, Exclude) && !IsGid(x))
            || (exists sub :: Gid(sub) in RelOf(sets, name, Include) && x in Resolve(sets, sub, visited + {name}).excluded)
            || (exists sub :: Gid(sub) in RelOf(sets, name, Exclude) && x in Resolve(sets, sub, visited + {name}).Members())
  {
    var nested := Nested(sets, name, visited);
    if !(x in RelOf(sets, name, Exclude) && !IsGid(x)) {
      if exists m :: m in RelOf(sets, name, Include) && m in nested && x in nested[m].excluded {
        var m :| m in RelOf(sets, name, Include) && m in nested && x in nested[m].excluded;
        GidRoundTrip(NameOf(m), m);
        assert Gid(NameOf(m)) in RelOf(sets, name, Include);
      } else {
        var m :| m in RelOf(sets, name, Exclude) && m in nested && x in nested[m].Members();
        GidRoundTrip(NameOf(m), m);
        assert Gid(NameOf(m)) in RelOf(sets, name, Exclude);
      }
    }
  }

  /** A group whose only exclude entry is the subgroup `sub`, and which
      includes no group, excludes exactly the effective members of `sub`. */
  lemma ExcludedSubgroupOnlyMembers(sets: Sets, name: string, visited: set<string>, sub: string)
    requires name !in visited
    requires RelOf(sets, name, Exclude) == {Gid(sub)}
    requires forall m | m in RelOf(sets, name, Include) :: !IsGid(m)
    ensures Resolve(sets, name, visited).excluded == Resolve(sets, sub, visited + {name}).Members()
  {
    forall other | Gid(other) in RelOf(sets, name, Exclude) ensures other == sub {
      GidInjective(other, sub);
    }
    forall x ensures x in Resolve(sets, name, visited).excluded <==> x in Resolve(sets, sub, visited + {name}).Members() {
      ExcludedIffSources(sets, name, visited, x);
    }
  }

  /** Resolution below `name` reads only groups off the current path, so a
      store that differs only on groups already visited resolves the same. */
  lemma {:induction false} ResolveFrame(sets: Sets, sets': Sets, name: string, visited: set<string>)
    requires AgreeOutside(sets, sets', visited)
    ensures Resolve(sets, name, visited) == Resolve(sets', name, visited)
    decreases sets.Keys - visited
  {
    if name !in visited {
      var seen := visited + {name};
      var nested := Nested(sets, name, visited);
      var nested' := Nested(sets', name, visited);
      assert RelOf(sets, name, Include) == RelOf(sets', name, Include);
      assert RelOf(sets, name, Exclude) == RelOf(sets', name, Exclude);
      forall m | m in nested ensures nested[m] == nested'[m] {
        ResolveFrame(sets, sets', NameOf(m), seen);
      }
      CombineCongruence(RelOf(sets, name, Include), RelOf(sets, name, Exclude), nested, nested');
    }
  }

  /** Adding a plain include to `name` leaves every nested result of `name`
      as it was. */
  lemma AddPlainIncludeKeepsNested(sets: Sets, name: string, x: string)
    requires !IsGid(x)
    ensures Resolve(Add(sets, name, x, Include).0, name, {})
         == Combine(RelOf(sets, name, Include) + {x}, RelOf(sets, name, Exclude), Nested(sets, name, {}))
  {
    var after := Add(sets, name, x, Include).0;
    assert GroupEntries(after, name) == GroupEntries(sets, name);
    NestedFrame(sets, after, name, {});
    CombineCongruence(RelOf(sets, name, Include) + {x}, RelOf(sets, name, Exclude),
                      Nested(sets, name, {}), Nested(after, name, {}));
  }

  /** The nested results of `name` only read groups other than `name`. */
  lemma NestedFrame(sets: Sets, sets': Sets, name: string, visited: set<string>)
    requires name !in visited
    requires AgreeOutside(sets, sets', {name})
    requires GroupEntries(sets, name) == GroupEntries(sets', name)
    ensures forall m | m in Nested(sets, name, visited) :: Nested(sets, name, visited)[m] == Nested(sets', name, visited)[m]
  {
    var nested := Nested(sets, name, visited);
    var nested' := Nested(sets', name, visited);
    assert AgreeOutside(sets, sets', visited + {name});
    forall m | m in nested ensures nested[m] == nested'[m] {
      ResolveFrame(sets, sets', NameOf(m), visited + {name});
    }
  }

  /** Adding a plain include makes it a member unless the group already
      excludes it; nothing else about the group changes. */
  lemma AddIncludeThenHas(sets: Sets, name: string, x: string)
    requires !IsGid(x)
    ensures var after := Add(sets, name, x, Include).0;
            && Resolve(after, name, {}).included == Resolve(sets, name, {}).included + {x}
            && Resolve(after, name, {}).excluded == Resolve(sets, name, {}).excluded
            && (Has(after, name, x) <==> x !in Resolve(sets, name, {}).excluded)
  {
    AddPlainIncludeKeepsNested(sets, name, x);
    CombineAddPlainInclude(RelOf(sets, name, Include), RelOf(sets, name, Exclude), Nested(sets, name, {}), x);
  }

  /** Adding a plain exclude removes it from the members, even while an
      include entry for it is still present. */
  lemma AddExcludeWins(sets: Sets, name: string, x: string)
    requires !IsGid(x)
    ensures !Has(Add(sets, name, x, Exclude).0, name, x)
  {
    ExcludeWins(Add(sets, name, x, Exclude).0, name, {}, x);
  }

  /** After `delete` the group has no members. */
  lemma DeleteEmpties(sets: Sets, name: string)
    ensures Members(Delete(sets, name).0, name) == {}
  {
    EntrylessGroupIsEmpty(Delete(sets, name).0, name, {});
  }
}
