# Group membership, file names and logger ids of `lab`

A Dafny model of the pure logic at the heart of the `lab` repository:

- **Registry groups** (`src/lib/data/group.py`). A group exists once it is
  registered. It owns an include set and an exclude set, whose entries are
  member ids or group ids (`g:<name>`). `get_members` resolves nested groups
  depth-first with a per-path `visited` set, and exclusion wins.
- **Implicit groups with tracing** (`src/core/group.py`). The same rule,
  but a group exists only through its entries. `trace` lists every path from
  a group down to a member and derives a verdict from the paths.
- **`as_filename`** (`src/core/util.py`): the file-system-safe rewrite of a
  string.
- **Logger ids** (`src/core/dutil.py`, `src/core/logger.py`): `a.b.c:name`,
  the two functions that take it apart, the registry that refuses a second
  logger with the same id, and the header line layout.

The Redis store becomes an immutable `map<string, Entry>` from a group name
to its two sets. A missing name reads as two empty sets, as a missing Redis
key does. The registry is a `set<string>` of gids. Every mutator is a pure
function returning the new store together with the value the source returns.
Resolution is a recursive function. Its termination measure is the set of
registered names (or of names with entries) not yet on the path, so cyclic
references are covered.

Modules: `Wrappers` (Option, Result), `GroupStore` (gid encoding, store,
one resolution step shared by both resolvers), `RegistryGroups`,
`ImplicitGroups`, `GroupTrace`, `Filenames`, `LogIds`, `Loggers`.

## Model

| member | source | states |
|---|---|---|
| GroupStore.GidRoundTrip | src/lib/data/group.py:18-33 | `_name(_gid(n)) == n` and `_is_gid(_gid(n))` for every name, and every gid-shaped string is the gid of its own name |
| GroupStore.GidInjective | src/lib/data/group.py:18-20 | two names have the same gid only if they are the same name |
| GroupStore.CombinePlainMember | src/core/group.py:181-194 | a plain include entry is a member unless a plain exclude entry, a nested included group's exclusions or a nested excluded group's members remove it |
| RegistryGroups.Create | src/lib/data/group.py:49-58 | the gid is returned iff the group did not exist; the returned gid decodes to the name; afterwards `exists` (`RegistryGroups.Exists`, src/lib/data/group.py:75-77) holds and the include/exclude sets are untouched |
| RegistryGroups.Delete | src/lib/data/group.py:61-72 | true iff the group was registered; false leaves the store unchanged; afterwards it is unregistered, both its sets are empty, and no other group's sets change |
| RegistryGroups.AddMember | src/lib/data/group.py:88-107 | an unregistered group gives false with the store unchanged; otherwise true iff the member was new to that set, which now holds it; the other relation, the other groups and the registry are unchanged |
| RegistryGroups.RemoveMember | src/lib/data/group.py:110-129 | an unregistered group gives false with the store unchanged; otherwise true iff the member was present, and it is gone afterwards; nothing else changes |
| RegistryGroups.Resolve | src/lib/data/group.py:160-204 | terminates on any store; a name on the path or not registered resolves to nothing; the result holds only entries that resolution does not expand, all taken from registered groups' sets |
| RegistryGroups.GetMembers | src/lib/data/group.py:145-157 | an entry is a member iff it is resolved as included and not as excluded; an unregistered name has no members; members are never expanded entries and always come from some registered group's sets |
| RegistryGroups.GetGroups | src/lib/data/group.py:207-219 | the result is a subset of the registry, and a group's gid is in it iff the group exists and `is_member` (`RegistryGroups.IsMember`, membership in `get_members`) holds for it |
| RegistryGroups.IncludedIffChain | src/lib/data/group.py:182-192 | an entry is in the resolved included set iff a cycle-free chain of registered groups, linked by include entries, leads from the group to a group listing the entry as a plain include |
| RegistryGroups.ExcludeWins | src/lib/data/group.py:194-203 | a plain entry of a group's own exclude set is excluded and never a member, however it is included |
| RegistryGroups.UnregisteredGidIsPlain | src/lib/data/group.py:184-202 | a gid entry whose group is not registered is kept as an ordinary entry on the include and on the exclude side |
| RegistryGroups.NestedIncludePassesBoth | src/lib/data/group.py:186-189 | a nested included group passes up both its included and its excluded set |
| RegistryGroups.NestedExcludePassesMembers | src/lib/data/group.py:198-200 | a nested excluded group passes up its effective members to the excluded set |
| RegistryGroups.ExcludedIffSources | src/lib/data/group.py:182-204 | an entry is excluded iff it is an unexpanded entry of the group's own exclude set, excluded by a registered included subgroup, or an effective member of a registered excluded subgroup; what an excluded subgroup only excludes is not passed up |
| RegistryGroups.ExcludedSubgroupOnlyMembers | src/lib/data/group.py:194-200 | a group whose one exclude entry is a registered subgroup, and which includes no registered group, excludes exactly that subgroup's effective members |
| RegistryGroups.ResolveFrame | src/lib/data/group.py:168-178 | resolution reads only groups off the current path: stores that agree outside `visited` resolve alike |
| RegistryGroups.AddIncludeThenMember | src/lib/data/group.py:88-96 | `add_include` of a plain entry adds exactly that entry to the resolved included set, leaves the excluded set alone, and makes it a member iff it was not excluded |
| RegistryGroups.AddExcludeWins | src/lib/data/group.py:99-107 | after `add_exclude` of a plain entry, it is not a member |
| RegistryGroups.DeleteEmpties | src/lib/data/group.py:61-72 | after `delete` the group has no members and its gid is in no `get_groups` result |
| ImplicitGroups.Add | src/core/group.py:90-95 | true iff the member was new to the set; afterwards the set holds it; the other relation and every other group are unchanged |
| ImplicitGroups.Rm | src/core/group.py:98-103 | true iff the member was present; afterwards it is absent; nothing else changes |
| ImplicitGroups.Delete | src/core/group.py:106-114 | both sets of the group are empty afterwards and other groups are untouched; the count is 0 to 2, 0 iff both sets were empty and 2 iff both were not |
| ImplicitGroups.Resolve | src/core/group.py:171-196 | terminates on any store; a name already on the path resolves to nothing; the result holds only plain (non-gid) entries found in some group's sets |
| ImplicitGroups.Members | src/core/group.py:117-125 | an entry is a member iff it is resolved as included and not as excluded; members are plain entries listed by some group; `has` (`ImplicitGroups.Has`) is membership in this set |
| ImplicitGroups.EntrylessGroupIsEmpty | src/core/group.py:8 | a group with no entries resolves to nothing |
| ImplicitGroups.IncludedIffChain | src/core/group.py:181-187 | an entry is in the resolved included set iff a cycle-free chain of include entries leads from the group to a group listing it as a plain include |
| ImplicitGroups.ExcludeWins | src/core/group.py:189-194 | a plain entry of a group's own exclude set is excluded and never a member |
| ImplicitGroups.NestedIncludePassesBoth | src/core/group.py:182-185 | a nested included group passes up both of its resolved sets |
| ImplicitGroups.NestedExcludePassesMembers | src/core/group.py:190-192 | a nested excluded group passes up its effective members to the excluded set |
| ImplicitGroups.ExcludedIffSources | src/core/group.py:181-196 | an entry is excluded iff it is a plain entry of the group's own exclude set, excluded by an included subgroup, or an effective member of an excluded subgroup; what an excluded subgroup only excludes is not passed up |
| ImplicitGroups.ExcludedSubgroupOnlyMembers | src/core/group.py:189-194 | a group whose one exclude entry is a subgroup, and which includes no group, excludes exactly that subgroup's effective members |
| ImplicitGroups.ResolveFrame | src/core/group.py:173-177 | stores that agree on every group off the path resolve alike |
| ImplicitGroups.AddIncludeThenHas | src/core/group.py:90-95 | adding a plain include adds exactly that entry to the resolved included set, keeps the excluded set, and makes `has` true iff it was not excluded |
| ImplicitGroups.AddExcludeWins | src/core/group.py:90-95 | after adding a plain exclude, `has` is false |
| ImplicitGroups.DeleteEmpties | src/core/group.py:106-120 | after `delete` the group has no members |
| GroupTrace.TracePaths | src/core/group.py:145-168 | every traced path has the steps so far as a proper prefix, and its last step's set lists the member |
| GroupTrace.TracedIffTrail | src/core/group.py:145-168 | the traced paths are exactly the trails: start at the group, never repeat a group, each step's set holds the next group's gid, and the last step's set lists the member |
| GroupTrace.TraceOf | src/core/group.py:128-142 | the paths are exactly the trails, and the verdict is true iff some trail ends in an include step and none ends in an exclude step |
| GroupTrace.IncludedIffIncludeOnlyPath | src/core/group.py:134-187 | a plain member is in the resolved included set iff the trace has a path made of include steps only |
| GroupTrace.VerdictDiffersFromHas | src/core/group.py:138-141 | `trace`'s verdict is not `has`: when A includes x and excludes group B, and B excludes x, `has(A, x)` holds but the verdict is false |
| Filenames.TwoPassesAreOne | src/core/util.py:83-86 | the two `re.sub` passes (`Filenames.Squeeze`, one run-squeezing pass each) act like a single pass replacing every maximal run of characters other than letters, digits and `-` by one `_` |
| Filenames.CollapseShape | src/core/util.py:83-86 | after the rewrites every character is a letter, digit, `-` or `_`; there is no `__`; the letters, digits and `-` of the input survive in order |
| Filenames.StripShape | src/core/util.py:89 | `.strip("_")` (`Filenames.Strip`, a `TrimStart` then a `TrimEnd`) keeps that shape and those characters, and leaves nothing exactly when the input had no letter, digit or `-` |
| Filenames.TrimStart | src/core/util.py:89 | the result is a suffix of the input, everything removed is the strip character, and the result does not start with it |
| Filenames.TrimEnd | src/core/util.py:89 | the result is a prefix of the input, everything removed is the strip character, and the result does not end with it |
| Filenames.AsFilename | src/core/util.py:63-94 | a result uses only `[A-Za-z0-9_-]`, has no `__`, does not start or end with `_`, and keeps exactly the input's letters, digits and `-` in order; `ValueError` iff the input has none of them |
| Filenames.AsFilenameIsCollapse | src/core/util.py:83-92 | the result is the single-pass collapse with leading and trailing `_` stripped, or `ValueError` when that is empty; this fixes where every `_` goes |
| Filenames.FixedPoints | src/core/util.py:83-92 | a string comes back unchanged iff it is already a safe name |
| Filenames.Idempotent | src/core/util.py:83-92 | applying `as_filename` to its own output changes nothing |
| Filenames.ExampleModelName | test/core/test_util.py:16-17 | `"openai/gpt-4.1"` becomes `"openai_gpt-4_1"` |
| Filenames.ExampleHyphen | test/core/test_util.py:20-23 | `"mistral‑ai"` (non-ASCII hyphen) becomes `"mistral_ai"` |
| Filenames.ExampleSlashes | test/core/test_util.py:26-27 | `"///hello///"` becomes `"hello"` |
| Filenames.ExampleBangs | test/core/test_util.py:30-31 | `"hello!!world"` becomes `"hello_world"` |
| Filenames.ExampleInvalid | test/core/test_util.py:34-36 | three emoji give `ValueError` |
| LogIds.Split | src/core/dutil.py:11 | `str.split` with one character never returns an empty list, and no piece contains the separator |
| LogIds.SplitFirst | src/core/dutil.py:11 | the first piece of a split is the longest prefix free of the separator |
| LogIds.SplitLast | src/core/dutil.py:16 | the last piece of a split is the longest suffix free of the separator |
| LogIds.SplitCount | src/core/dutil.py:11-16 | a split has one piece more than the string has separators |
| LogIds.JoinSplit | src/core/dutil.py:11 | joining the pieces of a split (`LogIds.Join`, `str.join`) gives the string back |
| LogIds.SplitJoin | src/core/dutil.py:11-23 | splitting a join (`LogIds.Join`, the `str.join` of line 23) of separator-free pieces gives the pieces back |
| LogIds.LogSpace | src/core/dutil.py:9-11 | at least one part; no part holds `.` or `:`; the parts joined by `.` are the id's prefix up to its first `:` |
| LogIds.LogName | src/core/dutil.py:14-16 | no `:` in the name; it is the id's suffix after its last `:`, or the whole id when the id has no `:` |
| LogIds.ProduceLogId | src/core/dutil.py:19-28 | the id starts with the first logspace part and ends with `:` followed by the name |
| LogIds.RoundTrip | src/core/dutil.py:9-28 | for a non-empty logspace with no `.` or `:` in its parts, and a name without `:`, both split functions recover what the id was built from |
| LogIds.ReverseRoundTrip | src/core/dutil.py:9-28 | an id with exactly one `:` is rebuilt from its own logspace and name |
| LogIds.EmptyLogSpace | src/core/dutil.py:9-28 | an empty logspace gives `:name`, which splits back to the logspace `[""]`, whatever the name holds |
| Loggers.Namespace | src/core/logger.py:91-95 | every part is the non-empty `namespace_part` of some class in the method resolution order, and there are at most as many parts as classes |
| Loggers.SubclassNamespace | src/core/logger.py:91-95 | a subclass appends its own part after its ancestors' parts, or inherits their namespace when it has none |
| Loggers.LoggerId | src/core/logger.py:97-98 | the id ends with `:` and then the log name |
| Loggers.LoggerIdRoundTrip | src/core/logger.py:97-98 | a log name without `:` comes back out of the id for every class hierarchy; a non-empty namespace whose parts hold no `.` or `:` comes back too |
| Loggers.DistinctNamesDistinctIds | src/core/logger.py:97-101 | two loggers of one class clash iff their names are equal |
| Loggers.Register | src/core/logger.py:99-101 | an id already present is refused and the registry is unchanged; a fresh id is added, maps to the new logger, and every other entry stays |
| Loggers.NewLogger | src/core/logger.py:91-101 | creation is refused iff the computed id is taken |
| Loggers.SecondLoggerRefused | test/core/test_logger.py:21-26 | a second logger with the same class and name is refused, leaving the registry as the first left it |
| Loggers.Header | src/core/logger.py:209-218 | the header starts with `left`, ends with `right`, and is `max_linelen` long, or the lengths of `left` and `right` plus three when that is longer |
| Loggers.HeaderMiddle | src/core/logger.py:213-217 | with room for three spaces the gap holds only spaces and the header is exactly `max_linelen` long; otherwise the gap is exactly the separator `Bar` (space, vertical bar, space) |

## Left out

- Redis itself: connections, pipelines and the key layout (`{gid}/include`, `LOGID_SUBKEY_SEPARATOR`). The store is an immutable map, and a missing key is an empty set.
- The gid prefix is fixed at `g:`. `src/lib/data/group.py` builds it from `GID_PREFIX` and `GID_SEPARATOR`, which `src/core/environment.py` does not define; the module docstrings give `g:groupname`. `get_obj_id`, `obj_in_namespace` and `obj2name`, used by `src/core/group.py`, are not part of this model; they are taken to be the same prefix encoding.
- `LOGSPACE_DELIMITER` and `LOGSPACE_LOGNAME_SEPARATOR` are fixed at their defaults `.` and `:` (src/core/environment.py:67-87); they are configurable in the source.
- Logging side effects: the warnings in both `_resolve` functions, loguru sinks, decorators and the `header` record field.
- The per-group `_log` loggers of `src/core/group.py`. As written they would not log but raise: `_log` builds `_GroupLogger(logname=name)` (src/core/group.py:68), while `Logger.__init__` requires the keyword-only argument `log_name` (src/core/logger.py:80), which `logname=` does not supply, so every `_log` call raises `TypeError`. Read literally, `add` and `rm` raise after a successful SADD/SREM, `delete` raises after a non-zero DEL, and `_resolve` raises on every cycle instead of returning two empty sets. The model gives the evidently intended results: the returned value of each mutator and the empty pair on a cycle. The logger test (test/core/test_logger.py:24) passes `logname=` too; Loggers.SecondLoggerRefused models what it evidently checks, the refusal of a second logger with the same id.
- `list_all`, `get_include`, `get_exclude` and `gid` in `src/lib/data/group.py` are plain reads of the store (`Store.registry`, `RelOf`, `Gid`) and have no members of their own.
- GroupTrace.TraceOf: `_trace_paths` returns a list in Redis iteration order; the model returns the set of paths. The paths are pairwise distinct, so only the order is lost.
- LogIds.ProduceLogId: the source passes the three pieces through `multiline(..., continuous=True)`. None of the `multiline` definitions in the source takes `continuous`, so the id is modelled as the plain concatenation `join(".", logspace) + ":" + name`, which is what `src/core/logger.py:98` builds.
- Filenames.ExampleHyphen: the test string `"mistral‑ai/mixtral‑8x7b‑inst/💡"` is covered only through its first segment `"mistral‑ai"`. The contract of `AsFilename` fixes the full result's letters, digits and `-` and its shape, but not where the `_` go; only `AsFilenameIsCollapse` fixes those, and it is not evaluated on the full string.
- Loggers.Header: `right` is taken as given. Its construction from `relpath`, `:` and `str(line)` is string formatting of record fields.
- Loggers.Namespace: the class hierarchy is given as the sequence of each class's own `namespace_part` (`None` when absent), most derived first, as `__mro__` lists it. Python's truthiness test on the part is modelled as "present and non-empty".
- Concurrency: the logger tests also race threads, processes and tasks for the same id; the model is sequential.
- Everything else in the repository (weighted groups, the game engine, priority queues, counters, LLM clients, UI) is outside this model.
