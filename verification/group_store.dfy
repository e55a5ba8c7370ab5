/** The Redis store behind both group resolvers, as an immutable value.

    Every group owns two Redis sets, `{gid}/include` and `{gid}/exclude`.
    Redis treats a missing key as the empty set and deletes a set once it
    becomes empty, so the model keeps one `Entry` per group name and reads a
    missing name as two empty sets.

    A group id (gid) is the group name behind the prefix `g:`; entries of the
    include and exclude sets are either member ids or gids. */
module GroupStore {

  /** The prefix that marks a string as a group id. */
  const GidPrefix: string := "g:"

  /** The gid of a group name. */
  function Gid(name: string): (g: string)
    ensures |g| == |name| + |GidPrefix|
    ensures g[..|GidPrefix|] == GidPrefix && g[|GidPrefix|..] == name
  {
    GidPrefix + name
  }

  /** Whether `s` is shaped like a gid. */
  predicate IsGid(s: string) {
    |GidPrefix| <= |s| && s[..|GidPrefix|] == GidPrefix
  }

  /** The group name inside a gid; any other string is returned unchanged. */
  function NameOf(g: string): (name: string)
    ensures IsGid(g) ==> g == GidPrefix + name
    ensures !IsGid(g) ==> name == g
  {
    if IsGid(g) then g[|GidPrefix|..] else g
  }

  /** Encoding a name and decoding it again gives the name back, and every
      gid-shaped string is the encoding of its own name. */
  lemma GidRoundTrip(name: string, g: string)
    ensures IsGid(Gid(name)) && NameOf(Gid(name)) == name
    ensures IsGid(g) ==> Gid(NameOf(g)) == g
  {
  }

  lemma GidInjective(a: string, b: string)
    ensures Gid(a) == Gid(b) <==> a == b
  {
    if Gid(a) == Gid(b) {
      GidRoundTrip(a, Gid(a));
      GidRoundTrip(b, Gid(b));
    }
  }

  /** The two membership relations of a group. */
  datatype Relation = Include | Exclude

  /** The raw include and exclude sets of one group. */
  datatype Entry = Entry(includes: set<string>, excludes: set<string>)
  {
    function Get(rel: Relation): set<string> {
      match rel
      case Include => includes
      case Exclude => excludes
    }

    function With(rel: Relation, s: set<string>): (e: Entry)
      ensures e.Get(rel) == s
      ensures forall other: Relation :: other != rel ==> e.Get(other) == Get(other)
    {
      match rel
      case Include => Entry(s, excludes)
      case Exclude => Entry(includes, s)
    }
  }

  /** The store: group name to its raw sets; an absent name has none. */
  type Sets = map<string, Entry>

  /** The raw `rel` set of group `name` (Redis SMEMBERS). */
  function RelOf(sets: Sets, name: string, rel: Relation): (s: set<string>)
    ensures name !in sets ==> s == {}
  {
    if name in sets then sets[name].Get(rel) else {}
  }

  /** The store after replacing the `rel` set of `name` by `s`. */
  function SetRel(sets: Sets, name: string, rel: Relation, s: set<string>): (sets': Sets)
    ensures RelOf(sets', name, rel) == s
    ensures forall other: Relation :: other != rel ==> RelOf(sets', name, other) == RelOf(sets, name, other)
    ensures forall g :: g != name ==> (g in sets' <==> g in sets)
    ensures forall g, r: Relation :: g != name ==> RelOf(sets', g, r) == RelOf(sets, g, r)
  {
    var e := if name in sets then sets[name] else Entry({}, {});
    sets[name := e.With(rel, s)]
  }

  /** The outcome of resolving a group: who it includes and who it excludes. */
  datatype Resolved = Resolved(included: set<string>, excluded: set<string>)
  {
    /** The effective members: exclusion always wins. */
    function Members(): (m: set<string>)
      ensures m <= included
      ensures m !! excluded
      ensures forall x :: x in included && x !in excluded ==> x in m
    {
      included - excluded
    }
  }

  const Nothing := Resolved({}, {})

  /** Two stores hold the same raw sets for every group outside `frozen`. */
  ghost predicate AgreeOutside(sets: Sets, sets': Sets, frozen: set<string>) {
    forall g, r: Relation :: g !in frozen ==> RelOf(sets, g, r) == RelOf(sets', g, r)
  }

  /** One level of resolution, shared by both resolvers: the entries of
      `inc` and `exc` that are keys of `nested` are groups, already resolved
      to `nested[m]`; every other entry is a plain member. A nested included
      group passes up both of its sets, a nested excluded group only its
      effective members. */
  function Combine(inc: set<string>, exc: set<string>, nested: map<string, Resolved>): (r: Resolved)
    ensures forall x :: x in r.included <==>
      (x in inc && x !in nested) || exists m :: m in inc && m in nested && x in nested[m].included
    ensures forall x :: x in r.excluded <==>
      || (x in exc && x !in nested)
      || (exists m :: m in inc && m in nested && x in nested[m].excluded)
      || (exists m :: m in exc && m in nested && x in nested[m].Members())
  {
    Resolved(
      (set m | m in inc && m !in nested)
        + (set m, x | m in inc && m in nested && x in nested[m].included :: x),
      (set m | m in exc && m !in nested)
        + (set m, x | m in inc && m in nested && x in nested[m].excluded :: x)
        + (set m, x | m in exc && m in nested && x in nested[m].Members() :: x))
  }

  /** `Combine` only looks at the nested results through their values. */
  lemma CombineCongruence(inc: set<string>, exc: set<string>, nested: map<string, Resolved>, nested': map<string, Resolved>)
    requires nested.Keys == nested'.Keys
    requires forall m | m in nested :: nested[m] == nested'[m]
    ensures Combine(inc, exc, nested) == Combine(inc, exc, nested')
  {
    assert nested == nested';
  }

  /** A new plain include entry is added to the included side and changes
      nothing else. */
  lemma CombineAddPlainInclude(inc: set<string>, exc: set<string>, nested: map<string, Resolved>, x: string)
    requires x !in nested
    ensures Combine(inc + {x}, exc, nested).included == Combine(inc, exc, nested).included + {x}
    ensures Combine(inc + {x}, exc, nested).excluded == Combine(inc, exc, nested).excluded
  {
  }

  /** A plain include entry is a member unless something excludes it: it is
      not a plain exclude entry, no nested included group excludes it, and
      no nested excluded group has it as a member. */
  lemma CombinePlainMember(inc: set<string>, exc: set<string>, nested: map<string, Resolved>, x: string)
    requires x in inc && x !in exc && x !in nested
    requires forall m | m in inc && m in nested :: x !in nested[m].excluded
    requires forall m | m in exc && m in nested :: x !in nested[m].Members()
    ensures x in Combine(inc, exc, nested).Members()
  {
  }

  /** One level of resolution stays inside any set that holds the plain
      entries and the results of the nested groups. */
  lemma CombineBounded(inc: set<string>, exc: set<string>, nested: map<string, Resolved>, allowed: set<string>)
    requires forall x | x in inc + exc && x !in nested :: x in allowed
    requires forall m | m in nested :: nested[m].included + nested[m].excluded <= allowed
    ensures Combine(inc, exc, nested).included + Combine(inc, exc, nested).excluded <= allowed
  {
  }
}
