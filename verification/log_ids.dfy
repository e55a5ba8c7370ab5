/** Logger ids (src/core/dutil.py): a logspace joined by '.', then ':',
    then the logger name, and the two functions that take an id apart. */
module LogIds {

  /** `LOGSPACE_DELIMITER` at its default. */
  const Delimiter: char := '.'

  /** `LOGSPACE_LOGNAME_SEPARATOR` at its default. */
  const Separator: char := ':'

  // Python's str.split and str.join for a one-character separator

  /** `s.split(c)`: the pieces between occurrences of `c`; never empty. */
  function Split(s: string, c: char): (parts: seq<string>)
    ensures |parts| >= 1
    ensures forall i | 0 <= i < |parts| :: c !in parts[i]
    decreases |s|
  {
    if |s| == 0 then [""]
    else
      var rest := Split(s[1..], c);
      if s[0] == c then [""] + rest
      else [[s[0]] + rest[0]] + rest[1..]
  }

  /** The first piece is the longest prefix free of `c`. */
  lemma {:induction false} SplitFirst(s: string, c: char)
    ensures var first := Split(s, c)[0];
            && |first| <= |s| && first == s[..|first|]
            && (|first| < |s| ==> s[|first|] == c)
    decreases |s|
  {
    if |s| > 0 && s[0] != c {
      SplitFirst(s[1..], c);
    }
  }

  /** The last piece is the longest suffix free of `c`. */
  lemma {:induction false} SplitLast(s: string, c: char)
    ensures var parts := Split(s, c);
            var last := parts[|parts| - 1];
            && |last| <= |s| && last == s[|s| - |last|..]
            && (|last| < |s| ==> s[|s| - |last| - 1] == c)
    decreases |s|
  {
    if |s| > 0 {
      var rest := Split(s[1..], c);
      var parts := Split(s, c);
      var last := rest[|rest| - 1];
      SplitLast(s[1..], c);
      if s[0] != c && |rest| == 1 {
        SplitSingle(s, c);
      } else {
        assert parts[|parts| - 1] == last;
        assert s[1..][|s| - 1 - |last|..] == s[|s| - |last|..];
        if |last| < |s| - 1 {
          assert s[1..][|s| - 1 - |last| - 1] == s[|s| - |last| - 1];
        } else if s[0] != c {
          JoinSplit(s[1..], c);
          JoinLongerThanLast(rest, c);
          assert false;
        }
      }
    }
  }

  /** A string whose tail splits into one piece, and whose head is not `c`,
      is a single piece. */
  lemma SplitSingle(s: string, c: char)
    requires |s| > 0 && s[0] != c && |Split(s[1..], c)| == 1
    ensures Split(s, c) == [s]
  {
    var rest := Split(s[1..], c);
    JoinSplit(s[1..], c);
    assert rest[0] == s[1..];
    assert [s[0]] + s[1..] == s;
  }

  /** Joining two or more parts gives something longer than the last one. */
  lemma {:induction false} JoinLongerThanLast(parts: seq<string>, c: char)
    requires |parts| > 1
    ensures |Join(parts, c)| > |parts[|parts| - 1]|
    decreases |parts|
  {
    if |parts| > 2 {
      JoinLongerThanLast(parts[1..], c);
    }
  }

  /** `c.join(parts)`. */
  function Join(parts: seq<string>, c: char): (s: string)
    ensures |parts| > 0 ==> parts[0] <= s
    decreases |parts|
  {
    if |parts| == 0 then ""
    else if |parts| == 1 then parts[0]
    else parts[0] + [c] + Join(parts[1..], c)
  }

  lemma {:induction false} JoinSplit(s: string, c: char)
    ensures Join(Split(s, c), c) == s
    decreases |s|
  {
    if |s| > 0 {
      var rest := Split(s[1..], c);
      JoinSplit(s[1..], c);
      if s[0] == c {
        assert Split(s, c)[1..] == rest;
      } else {
        var parts := Split(s, c);
        assert parts[1..] == rest[1..];
        if |rest| > 1 {
          assert Join(rest, c) == rest[0] + [c] + Join(rest[1..], c);
        }
      }
    }
  }

  /** Splitting at the first `c`, when `a` is free of it. */
  lemma {:induction false} SplitAt(a: string, b: string, c: char)
    requires c !in a
    ensures Split(a + [c] + b, c) == [a] + Split(b, c)
    decreases |a|
  {
    var s := a + [c] + b;
    if |a| == 0 {
      assert s == [c] + b;
      assert s[1..] == b;
    } else {
      assert s[1..] == a[1..] + [c] + b;
      SplitAt(a[1..], b, c);
      assert [a[0]] + a[1..] == a;
    }
  }

  lemma {:induction false} SplitFree(s: string, c: char)
    requires c !in s
    ensures Split(s, c) == [s]
    decreases |s|
  {
    if |s| > 0 {
      SplitFree(s[1..], c);
      assert [s[0]] + s[1..] == s;
    }
  }

  lemma {:induction false} SplitJoin(parts: seq<string>, c: char)
    requires |parts| >= 1
    requires forall i | 0 <= i < |parts| :: c !in parts[i]
    ensures Split(Join(parts, c), c) == parts
    decreases |parts|
  {
    if |parts| == 1 {
      SplitFree(parts[0], c);
    } else {
      SplitJoin(parts[1..], c);
      SplitAt(parts[0], Join(parts[1..], c), c);
      assert [parts[0]] + parts[1..] == parts;
    }
  }

  /** A character absent from every part and from the separator is absent
      from the joined string. */
  lemma {:induction false} JoinAvoids(parts: seq<string>, c: char, x: char)
    requires x != c
    requires forall i | 0 <= i < |parts| :: x !in parts[i]
    ensures x !in Join(parts, c)
    decreases |parts|
  {
    if |parts| > 1 {
      JoinAvoids(parts[1..], c, x);
    }
  }

  /** `s.split(c)` has one piece more than `s` has occurrences of `c`. */
  lemma {:induction false} SplitCount(s: string, c: char)
    ensures |Split(s, c)| == multiset(s)[c] + 1
    decreases |s|
  {
    if |s| > 0 {
      SplitCount(s[1..], c);
      assert s == [s[0]] + s[1..];
      assert multiset(s) == multiset([s[0]]) + multiset(s[1..]);
    }
  }

  // The logger-id functions

  /** `logid2logspace`: the text before the first ':', split on '.'. */
  function LogSpace(id: string): (space: seq<string>)
    ensures |space| >= 1
    ensures forall i | 0 <= i < |space| :: Delimiter !in space[i] && Separator !in space[i]
    ensures var head := Join(space, Delimiter);
            && |head| <= |id| && head == id[..|head|]
            && (|head| < |id| ==> id[|head|] == Separator)
  {
    var head := Split(id, Separator)[0];
    var space := Split(head, Delimiter);
    SplitFirst(id, Separator);
    JoinSplit(head, Delimiter);
    forall i | 0 <= i < |space| ensures Separator !in space[i] {
      JoinAvoidsPart(space, Delimiter, i, Separator);
    }
    space
  }

  /** A character absent from the joined string is absent from each part. */
  lemma {:induction false} JoinAvoidsPart(parts: seq<string>, c: char, i: nat, x: char)
    requires i < |parts| && x !in Join(parts, c)
    ensures x !in parts[i]
    decreases |parts|
  {
    if i > 0 {
      JoinAvoidsPart(parts[1..], c, i - 1, x);
    }
  }

  /** `logid2logname`: the text after the last ':', or the whole id when it
      has none. */
  function LogName(id: string): (name: string)
    ensures Separator !in name
    ensures |name| <= |id| && name == id[|id| - |name|..]
    ensures |name| < |id| ==> id[|id| - |name| - 1] == Separator
    ensures Separator !in id ==> name == id
  {
    var parts := Split(id, Separator);
    SplitLast(id, Separator);
    if Separator !in id then
      SplitFree(id, Separator);
      parts[|parts| - 1]
    else
      parts[|parts| - 1]
  }

  /** `produce_logid`. */
  function ProduceLogId(space: seq<string>, name: string): (id: string)
    ensures |space| > 0 ==> space[0] <= id
    ensures |id| >= |name| + 1 && id[|id| - |name|..] == name
    ensures id[|id| - |name| - 1] == Separator
  {
    var id := Join(space, Delimiter) + [Separator] + name;
    assert id[|id| - |name|..] == name;
    id
  }

  /** The name of a produced id comes back whatever the logspace holds,
      provided the name itself has no ':'. */
  lemma LogNameOfProduced(space: seq<string>, name: string)
    requires Separator !in name
    ensures LogName(ProduceLogId(space, name)) == name
  {
    var id := ProduceLogId(space, name);
    var got := LogName(id);
  }

  /** Splitting a produced id gives back its logspace and name, provided no
      part contains a '.' or a ':' and the name contains no ':'. */
  lemma RoundTrip(space: seq<string>, name: string)
    requires |space| >= 1
    requires forall i | 0 <= i < |space| :: Delimiter !in space[i] && Separator !in space[i]
    requires Separator !in name
    ensures LogSpace(ProduceLogId(space, name)) == space
    ensures LogName(ProduceLogId(space, name)) == name
  {
    var head := Join(space, Delimiter);
    JoinAvoids(space, Delimiter, Separator);
    SplitAt(head, name, Separator);
    SplitFree(name, Separator);
    assert Split(ProduceLogId(space, name), Separator) == [head, name];
    SplitJoin(space, Delimiter);
  }

  /** An id with exactly one ':' is the id produced from its own parts. */
  lemma ReverseRoundTrip(id: string)
    requires multiset(id)[Separator] == 1
    ensures ProduceLogId(LogSpace(id), LogName(id)) == id
  {
    var parts := Split(id, Separator);
    SplitCount(id, Separator);
    JoinSplit(id, Separator);
    assert Join(parts, Separator) == parts[0] + [Separator] + parts[1];
    JoinSplit(parts[0], Delimiter);
  }

  /** With an empty logspace the id starts with ':' and splits back to the
      one empty part, not to the empty list. */
  lemma EmptyLogSpace(name: string)
    ensures ProduceLogId([], name) == [Separator] + name
    ensures LogSpace(ProduceLogId([], name)) == [""]
  {
    SplitAt("", name, Separator);
    assert [Separator] + name == "" + [Separator] + name;
  }
}
