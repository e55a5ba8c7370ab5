/** Tracing how a member relates to an implicit group (`trace` and
    `_trace_paths` in src/core/group.py). */
module GroupTrace {
  import opened GroupStore
  import ImplicitGroups

  /** One step of a path: the group and the relation set it was read from. */
  datatype Step = Step(group: string, relation: Relation)

  /** A path from the queried group down to a group listing the member. */
  type Path = seq<Step>

  datatype Trace = Trace(paths: set<Path>, verdict: bool)

  const Relations: set<Relation> := {Include, Exclude}

  /** The entries of `name` that `_trace_paths` follows, with the relation
      they were found under: gid-shaped entries other than the member. */
  function Followed(sets: Sets, name: string, member: string): (links: set<(Relation, string)>)
    ensures forall r, m :: (r, m) in links <==> m in RelOf(sets, name, r) && m != member && IsGid(m)
  {
    set r, m | r in Relations && m in RelOf(sets, name, r) && m != member && IsGid(m) :: (r, m)
  }

  /** The paths that end at `name` itself: one per relation listing the member. */
  function Ends(sets: Sets, name: string, member: string, steps: Path): (paths: set<Path>)
    ensures forall p :: p in paths <==> exists r :: member in RelOf(sets, name, r) && p == steps + [Step(name, r)]
  {
    set r | r in Relations && member in RelOf(sets, name, r) :: steps + [Step(name, r)]
  }

  /** All paths of all followed links, put together. */
  function Gather(sub: map<(Relation, string), set<Path>>): (paths: set<Path>)
    ensures forall p :: p in paths <==> exists k :: k in sub && p in sub[k]
  {
    set k, p | k in sub && p in sub[k] :: p
  }

  /** `_trace_paths`: every path that extends `steps` from `name`, so each
      result has `steps` as a proper prefix. An entry equal to the member
      ends a path; any other gid-shaped entry is followed unless its group is
      already on the path. */
  function TracePaths(sets: Sets, name: string, member: string, steps: Path, visited: set<string>): (paths: set<Path>)
    decreases sets.Keys - visited
    ensures forall p: Path | p in paths :: steps < p
    ensures forall p: Path | p in paths :: member in RelOf(sets, p[|p| - 1].group, p[|p| - 1].relation)
  {
    if name in visited then {}
    else
      var seen := visited + {name};
      var sub := map k | k in Followed(sets, name, member)
                   :: TracePaths(sets, NameOf(k.1), member, steps + [Step(name, k.0)], seen);
      GatherExtends(sets, name, member, steps, sub);
      Ends(sets, name, member, steps) + Gather(sub)
  }

  /** Paths that extend `steps` by one more step of `name` extend `steps`. */
  lemma GatherExtends(sets: Sets, name: string, member: string, steps: Path, sub: map<(Relation, string), set<Path>>)
    requires forall k | k in sub :: forall p: Path | p in sub[k] ::
      steps + [Step(name, k.0)] < p && member in RelOf(sets, p[|p| - 1].group, p[|p| - 1].relation)
    ensures forall p: Path | p in Gather(sub) ::
      steps < p && member in RelOf(sets, p[|p| - 1].group, p[|p| - 1].relation)
  {
    forall p: Path | p in Gather(sub)
      ensures steps < p && member in RelOf(sets, p[|p| - 1].group, p[|p| - 1].relation)
    {
      var k :| k in sub && p in sub[k];
      assert p[..|steps|] == (steps + [Step(name, k.0)])[..|steps|];
    }
  }

  /** The followed links of a group off the path, each with its paths. */
  function Branches(sets: Sets, name: string, member: string, steps: Path, visited: set<string>)
    : (branches: map<(Relation, string), set<Path>>)
    requires name !in visited
    ensures TracePaths(sets, name, member, steps, visited) == Ends(sets, name, member, steps) + Gather(branches)
    ensures branches.Keys == Followed(sets, name, member)
    ensures forall k | k in branches ::
      branches[k] == TracePaths(sets, NameOf(k.1), member, steps + [Step(name, k.0)], visited + {name})
  {
    var seen := visited + {name};
    map k | k in Followed(sets, name, member)
      :: TracePaths(sets, NameOf(k.1), member, steps + [Step(name, k.0)], seen)
  }

  /** Step `s` leads to group `next`: its set holds the gid of `next`, and
      that gid is not the member being traced. */
  predicate Link(sets: Sets, s: Step, next: string, member: string) {
    Gid(next) in RelOf(sets, s.group, s.relation) && Gid(next) != member
  }

  /** `t` is a trail from `name` to `member` that avoids `visited`: it starts
      at `name`, never repeats a group, every step leads to the next one, and
      the last step's set lists the member itself. */
  ghost predicate Trail(sets: Sets, t: Path, name: string, member: string, visited: set<string>) {
    && |t| > 0
    && t[0].group == name
    && (forall i | 0 <= i < |t| :: t[i].group !in visited)
    && (forall i, j | 0 <= i < j < |t| :: t[i].group != t[j].group)
    && (forall i | 0 <= i < |t| - 1 :: Link(sets, t[i], t[i + 1].group, member))
    && member in RelOf(sets, t[|t| - 1].group, t[|t| - 1].relation)
  }

  lemma TrailCons(sets: Sets, name: string, r: Relation, m: string, member: string, visited: set<string>, tail: Path)
    requires name !in visited
    requires m in RelOf(sets, name, r) && m != member && IsGid(m)
    requires Trail(sets, tail, NameOf(m), member, visited + {name})
    ensures Trail(sets, [Step(name, r)] + tail, name, member, visited)
  {
    var t := [Step(name, r)] + tail;
    GidRoundTrip(NameOf(m), m);
    forall i | 0 <= i < |t| ensures t[i].group !in visited {
      if i > 0 { assert t[i] == tail[i - 1]; }
    }
    forall i, j | 0 <= i < j < |t| ensures t[i].group != t[j].group {
      assert t[j] == tail[j - 1];
      if i > 0 { assert t[i] == tail[i - 1]; }
    }
    forall i | 0 <= i < |t| - 1 ensures Link(sets, t[i], t[i + 1].group, member) {
      if i > 0 { assert t[i] == tail[i - 1] && t[i + 1] == tail[i]; }
    }
    assert t[|t| - 1] == tail[|tail| - 1];
  }

  lemma TrailTail(sets: Sets, t: Path, member: string, visited: set<string>)
    requires |t| > 1 && Trail(sets, t, t[0].group, member, visited)
    ensures Trail(sets, t[1..], t[1].group, member, visited + {t[0].group})
    ensures Link(sets, t[0], t[1].group, member)
  {
    var tail := t[1..];
    forall i | 0 <= i < |tail| ensures tail[i].group !in visited + {t[0].group} {
      assert tail[i] == t[i + 1];
    }
    forall i, j | 0 <= i < j < |tail| ensures tail[i].group != tail[j].group {
      assert tail[i] == t[i + 1] && tail[j] == t[j + 1];
    }
    forall i | 0 <= i < |tail| - 1 ensures Link(sets, tail[i], tail[i + 1].group, member) {
      assert tail[i] == t[i + 1] && tail[i + 1] == t[i + 2];
    }
    assert tail[|tail| - 1] == t[|t| - 1];
  }

  /** Every traced path is `steps` followed by a trail. */
  lemma {:induction false} PathsAreTrails(sets: Sets, name: string, member: string, steps: Path, visited: set<string>, p: Path)
    requires p in TracePaths(sets, name, member, steps, visited)
    ensures |p| > |steps| && p[..|steps|] == steps
    ensures Trail(sets, p[|steps|..], name, member, visited)
    decreases sets.Keys - visited
  {
    var branches := Branches(sets, name, member, steps, visited);
    if p in Ends(sets, name, member, steps) {
      EndIsTrail(sets, name, member, steps, visited, p);
    } else {
      var k :| k in branches && p in branches[k];
      var (r, m) := k;
      var steps' := steps + [Step(name, r)];
      PathsAreTrails(sets, NameOf(m), member, steps', visited + {name}, p);
      PrefixStep(p, steps, Step(name, r));
      TrailCons(sets, name, r, m, member, visited, p[|steps'|..]);
    }
  }

  /** A path that ends at `name` itself is `steps` and a one-step trail. */
  lemma EndIsTrail(sets: Sets, name: string, member: string, steps: Path, visited: set<string>, p: Path)
    requires name !in visited && p in Ends(sets, name, member, steps)
    ensures |p| > |steps| && p[..|steps|] == steps
    ensures Trail(sets, p[|steps|..], name, member, visited)
  {
    var r :| member in RelOf(sets, name, r) && p == steps + [Step(name, r)];
    assert p[..|steps|] == steps;
    assert p[|steps|..] == [Step(name, r)];
  }

  /** Every trail, after `steps`, is a traced path. */
  lemma {:induction false} TrailsArePaths(sets: Sets, t: Path, member: string, steps: Path, visited: set<string>)
    requires |t| > 0 && Trail(sets, t, t[0].group, member, visited)
    ensures steps + t in TracePaths(sets, t[0].group, member, steps, visited)
    decreases |t|
  {
    var name := t[0].group;
    var branches := Branches(sets, name, member, steps, visited);
    if |t| == 1 {
      assert t == [Step(name, t[0].relation)];
      assert steps + t in Ends(sets, name, member, steps);
    } else {
      var tail := t[1..];
      var steps' := steps + [t[0]];
      TrailTail(sets, t, member, visited);
      TrailsArePaths(sets, tail, member, steps', visited + {name});
      var k := (t[0].relation, Gid(t[1].group));
      GidRoundTrip(t[1].group, k.1);
      assert k in branches;
      assert steps' == steps + [Step(name, k.0)];
      ConsShift(steps, t);
    }
  }

  lemma PrefixStep<T>(p: seq<T>, steps: seq<T>, s: T)
    requires |p| > |steps| + 1 && p[..|steps| + 1] == steps + [s]
    ensures p[..|steps|] == steps
    ensures p[|steps|..] == [s] + p[|steps| + 1..]
  {
    assert p[..|steps|] == p[..|steps| + 1][..|steps|];
    assert p[|steps|] == (steps + [s])[|steps|];
  }

  lemma ConsShift<T>(steps: seq<T>, t: seq<T>)
    requires |t| > 0
    ensures steps + t == (steps + [t[0]]) + t[1..]
  {
    assert t == [t[0]] + t[1..];
  }

  /** The paths of a trace from the top are exactly the trails. */
  lemma TracedIffTrail(sets: Sets, name: string, member: string)
    ensures forall p :: p in TracePaths(sets, name, member, [], {}) <==> Trail(sets, p, name, member, {})
  {
    forall p | p in TracePaths(sets, name, member, [], {}) ensures Trail(sets, p, name, member, {}) {
      PathsAreTrails(sets, name, member, [], {}, p);
      assert p[0..] == p;
    }
    forall p | Trail(sets, p, name, member, {}) ensures p in TracePaths(sets, name, member, [], {}) {
      TrailsArePaths(sets, p, member, [], {});
      assert [] + p == p;
    }
  }

  /** `trace`: all paths from `name` to `member`, and the verdict: some path
      ends in an include and none ends in an exclude. */
  function TraceOf(sets: Sets, name: string, member: string): (t: Trace)
    ensures forall p :: p in t.paths <==> Trail(sets, p, name, member, {})
    ensures t.verdict <==>
      && (exists p: Path :: Trail(sets, p, name, member, {}) && p[|p| - 1].relation == Include)
      && !(exists p: Path :: Trail(sets, p, name, member, {}) && p[|p| - 1].relation == Exclude)
  {
    TracedIffTrail(sets, name, member);
    var paths := TracePaths(sets, name, member, [], {});
    var hasInclude := exists p: Path | p in paths :: |p| > 0 && p[|p| - 1].relation == Include;
    var hasExclude := exists p: Path | p in paths :: |p| > 0 && p[|p| - 1].relation == Exclude;
    Trace(paths, hasInclude && !hasExclude)
  }

  /** Every step of the path reads an include set. */
  predicate AllInclude(p: Path) {
    forall i | 0 <= i < |p| :: p[i].relation == Include
  }

  lemma ChainToTrail(sets: Sets, chain: seq<string>, x: string) returns (p: Path)
    requires !IsGid(x) && ImplicitGroups.IncludeChain(sets, chain, {}, x)
    ensures Trail(sets, p, chain[0], x, {}) && AllInclude(p)
  {
    p := seq(|chain|, i requires 0 <= i < |chain| => Step(chain[i], Include));
    forall i | 0 <= i < |p| - 1 ensures Link(sets, p[i], p[i + 1].group, x) {
      GidRoundTrip(chain[i + 1], Gid(chain[i + 1]));
    }
  }

  lemma TrailToChain(sets: Sets, p: Path, name: string, x: string) returns (chain: seq<string>)
    requires !IsGid(x) && Trail(sets, p, name, x, {}) && AllInclude(p)
    ensures ImplicitGroups.IncludeChain(sets, chain, {}, x) && chain[0] == name
  {
    chain := seq(|p|, i requires 0 <= i < |p| => p[i].group);
    assert x in RelOf(sets, chain[|chain| - 1], Include) by {
      assert p[|p| - 1] == Step(chain[|chain| - 1], Include);
    }
    forall i | 0 <= i < |chain| - 1 ensures Gid(chain[i + 1]) in RelOf(sets, chain[i], Include) {
      assert Link(sets, p[i], p[i + 1].group, x);
      assert p[i] == Step(chain[i], Include);
    }
  }

  /** For a plain member, resolution includes it exactly when the trace has
      a path made of include steps only. */
  lemma IncludedIffIncludeOnlyPath(sets: Sets, name: string, x: string)
    requires !IsGid(x)
    ensures x in ImplicitGroups.Resolve(sets, name, {}).included
        <==> exists p: Path :: p in TraceOf(sets, name, x).paths && AllInclude(p)
  {
    ImplicitGroups.IncludedIffChain(sets, name, {}, x);
    if x in ImplicitGroups.Resolve(sets, name, {}).included {
      var chain :| ImplicitGroups.IncludeChain(sets, chain, {}, x) && chain[0] == name;
      var p := ChainToTrail(sets, chain, x);
    }
    if exists p: Path :: p in TraceOf(sets, name, x).paths && AllInclude(p) {
      var p: Path :| p in TraceOf(sets, name, x).paths && AllInclude(p);
      var chain := TrailToChain(sets, p, name, x);
    }
  }

  /** Group A includes x directly and excludes group B, which itself
      excludes x. */
  function DisagreeingSets(): Sets {
    map["A" := Entry({"x"}, {"g:B"}), "B" := Entry({}, {"x"})]
  }

  /** The verdict is not `has`: B has no members, so x stays in A, but the
      trace finds the exclude path A, B and says no. */
  lemma VerdictDiffersFromHas()
    ensures ImplicitGroups.Has(DisagreeingSets(), "A", "x")
    ensures !TraceOf(DisagreeingSets(), "A", "x").verdict
  {
    DisagreeingHas();
    DisagreeingExcludePath();
  }

  lemma DisagreeingHas()
    ensures ImplicitGroups.Has(DisagreeingSets(), "A", "x")
  {
    var sets := DisagreeingSets();
    DisagreeingEntries();
    var nestedA := ImplicitGroups.Nested(sets, "A", {});
    DisagreeingNested(nestedA);
    CombinePlainMember({"x"}, {"g:B"}, nestedA, "x");
  }

  lemma DisagreeingEntries()
    ensures RelOf(DisagreeingSets(), "A", Include) == {"x"}
    ensures RelOf(DisagreeingSets(), "A", Exclude) == {"g:B"}
    ensures ImplicitGroups.GroupEntries(DisagreeingSets(), "A") == {"g:B"}
  {
    assert IsGid("g:B") && !IsGid("x");
  }

  lemma DisagreeingNested(nestedA: map<string, Resolved>)
    requires nestedA == ImplicitGroups.Nested(DisagreeingSets(), "A", {})
    ensures nestedA.Keys == {"g:B"} && nestedA["g:B"].Members() == {}
  {
    DisagreeingEntries();
    DisagreeingSubgroupIsEmpty();
    DisagreeingSubgroupName();
    assert {} + {"A"} == {"A"};
  }

  lemma DisagreeingSubgroupName()
    ensures NameOf("g:B") == "B"
  {
  }

  lemma DisagreeingSubgroupIsEmpty()
    ensures ImplicitGroups.Resolve(DisagreeingSets(), "B", {"A"}).Members() == {}
  {
    var sets := DisagreeingSets();
    assert !IsGid("x");
    var nestedB := ImplicitGroups.Nested(sets, "B", {"A"});
    assert nestedB.Keys == {};
  }

  lemma DisagreeingExcludePath()
    ensures exists p: Path :: Trail(DisagreeingSets(), p, "A", "x", {}) && p[|p| - 1].relation == Exclude
  {
    var sets := DisagreeingSets();
    assert Gid("B") == "g:B";
    var p := [Step("A", Exclude), Step("B", Exclude)];
    assert Link(sets, p[0], p[1].group, "x");
    assert "x" in RelOf(sets, p[1].group, p[1].relation);
    assert forall i, j | 0 <= i < j < |p| :: p[i].group != p[j].group;
    assert Trail(sets, p, "A", "x", {});
  }
}
