/** `as_filename` (src/core/util.py): any string becomes a file-system-safe
    name over the alphabet `[A-Za-z0-9_-]`, or an error when nothing of the
    input survives. */
module Filenames {
  import opened Wrappers

  datatype Error = InvalidName(name: string)

  // Character classes

  predicate IsAsciiAlnum(c: char) {
    'A' <= c <= 'Z' || 'a' <= c <= 'z' || '0' <= c <= '9'
  }

  /** The characters the sanitiser keeps as they are: letters, digits, '-'. */
  predicate IsKept(c: char) {
    IsAsciiAlnum(c) || c == '-'
  }

  /** The alphabet of the output: kept characters and '_'. */
  predicate IsSafe(c: char) {
    IsKept(c) || c == '_'
  }

  /** What the first rewrite replaces (`[^A-Za-z0-9_-]`). */
  predicate IsUnsafe(c: char) {
    !IsSafe(c)
  }

  /** What the second rewrite collapses (`_`). */
  predicate IsUnderscore(c: char) {
    c == '_'
  }

  /** Everything that is not kept: the union of the two rewrites' classes. */
  predicate IsDropped(c: char) {
    !IsKept(c)
  }

  predicate AllSafe(s: string) {
    forall i | 0 <= i < |s| :: IsSafe(s[i])
  }

  predicate NoDoubleUnderscore(s: string) {
    forall i | 0 <= i < |s| - 1 :: !(s[i] == '_' && s[i + 1] == '_')
  }

  /** A name `as_filename` can return. */
  predicate IsSafeName(s: string) {
    && |s| > 0
    && AllSafe(s)
    && NoDoubleUnderscore(s)
    && s[0] != '_'
    && s[|s| - 1] != '_'
  }

  /** The kept characters of `s`, in order. On a string of safe characters
      this is the string with every '_' deleted. */
  function Kept(s: string): (k: string)
    ensures |k| <= |s|
    ensures forall i | 0 <= i < |k| :: IsKept(k[i])
  {
    if |s| == 0 then []
    else (if IsKept(s[0]) then [s[0]] else []) + Kept(s[1..])
  }

  lemma {:induction false} KeptAppend(a: string, b: string)
    ensures Kept(a + b) == Kept(a) + Kept(b)
    decreases |a|
  {
    if |a| > 0 {
      assert (a + b)[1..] == a[1..] + b;
      KeptAppend(a[1..], b);
    } else {
      assert a + b == b;
    }
  }

  lemma {:induction false} KeptOfUnderscores(s: string)
    requires forall i | 0 <= i < |s| :: s[i] == '_'
    ensures Kept(s) == []
    decreases |s|
  {
    if |s| > 0 {
      KeptOfUnderscores(s[1..]);
    }
  }

  // The rewrites

  /** One `re.sub(<class>+, "_", s)`: every maximal run of characters of the
      class becomes a single '_'. `inRun` says the previous input character
      was already in a replaced run. */
  function Squeeze(s: string, inClass: char -> bool, inRun: bool): (r: string)
    ensures |r| <= |s|
    decreases |s|
  {
    if |s| == 0 then []
    else if inClass(s[0]) then
      (if inRun then [] else ['_']) + Squeeze(s[1..], inClass, true)
    else [s[0]] + Squeeze(s[1..], inClass, false)
  }

  /** The single rewrite the two passes amount to: every maximal run of
      characters that are not kept becomes one '_'. */
  function Collapse(s: string, inRun: bool): (r: string)
    ensures |r| <= |s|
    decreases |s|
  {
    if |s| == 0 then []
    else if IsDropped(s[0]) then
      (if inRun then [] else ['_']) + Collapse(s[1..], true)
    else [s[0]] + Collapse(s[1..], false)
  }

  /** `s.lstrip(c)`. */
  function TrimStart(s: string, c: char): (t: string)
    ensures |t| <= |s| && t == s[|s| - |t|..]
    ensures forall i | 0 <= i < |s| - |t| :: s[i] == c
    ensures |t| == 0 || t[0] != c
    decreases |s|
  {
    if |s| > 0 && s[0] == c then TrimStart(s[1..], c) else s
  }

  /** `s.rstrip(c)`. */
  function TrimEnd(s: string, c: char): (t: string)
    ensures |t| <= |s| && t == s[..|t|]
    ensures forall i | |t| <= i < |s| :: s[i] == c
    ensures |t| == 0 || t[|t| - 1] != c
    decreases |s|
  {
    if |s| > 0 && s[|s| - 1] == c then TrimEnd(s[..|s| - 1], c) else s
  }

  /** `s.strip(c)`. */
  function Strip(s: string, c: char): (t: string)
    ensures |t| == 0 || (t[0] != c && t[|t| - 1] != c)
  {
    var left := TrimStart(s, c);
    var t := TrimEnd(left, c);
    assert |t| > 0 ==> t[0] == left[0];
    t
  }

  /** The two rewrites of the source act like a single one that replaces
      every maximal run of characters that are not kept by one '_'. */
  lemma {:induction false} TwoPassesAreOne(s: string, unsafeRun: bool, underscoreRun: bool)
    requires unsafeRun ==> underscoreRun
    ensures Squeeze(Squeeze(s, IsUnsafe, unsafeRun), IsUnderscore, underscoreRun)
         == Collapse(s, underscoreRun)
    decreases |s|
  {
    if |s| > 0 {
      var first := Squeeze(s, IsUnsafe, unsafeRun);
      var rest := Squeeze(s[1..], IsUnsafe, IsUnsafe(s[0]));
      var tail := Collapse(s[1..], IsDropped(s[0]));
      TwoPassesAreOne(s[1..], IsUnsafe(s[0]), IsDropped(s[0]));
      if IsUnsafe(s[0]) && unsafeRun {
        assert first == rest;
      } else if IsUnsafe(s[0]) || s[0] == '_' {
        assert first == ['_'] + rest;
        assert first[1..] == rest;
        assert Squeeze(first, IsUnderscore, underscoreRun)
            == (if underscoreRun then [] else ['_']) + Squeeze(rest, IsUnderscore, true);
      } else {
        assert first == [s[0]] + rest;
        assert first[1..] == rest;
        assert Squeeze(first, IsUnderscore, underscoreRun) == [s[0]] + Squeeze(rest, IsUnderscore, false);
      }
    }
  }

  /** What a single pass produces: safe characters, no "__", and the kept
      characters of the input, in order. */
  lemma CollapseShape(s: string, inRun: bool)
    ensures var r := Collapse(s, inRun);
            && AllSafe(r)
            && NoDoubleUnderscore(r)
            && (inRun && |r| > 0 ==> r[0] != '_')
            && Kept(r) == Kept(s)
  {
    CollapseSafe(s, inRun);
    CollapseKept(s, inRun);
  }

  lemma {:induction false} CollapseSafe(s: string, inRun: bool)
    ensures var r := Collapse(s, inRun);
            && AllSafe(r)
            && NoDoubleUnderscore(r)
            && (inRun && |r| > 0 ==> r[0] != '_')
    decreases |s|
  {
    if |s| > 0 {
      var rest := Collapse(s[1..], IsDropped(s[0]));
      CollapseSafe(s[1..], IsDropped(s[0]));
      var head := if IsDropped(s[0]) then (if inRun then [] else ['_']) else [s[0]];
      var r := head + rest;
      assert r == Collapse(s, inRun);
      forall i | 0 <= i < |r| - 1 ensures !(r[i] == '_' && r[i + 1] == '_') {
        if |head| == 1 && i == 0 {
          assert r[1] == rest[0];
        } else {
          assert r[i] == rest[i - |head|] && r[i + 1] == rest[i + 1 - |head|];
        }
      }
    }
  }

  lemma {:induction false} CollapseKept(s: string, inRun: bool)
    ensures Kept(Collapse(s, inRun)) == Kept(s)
    decreases |s|
  {
    if |s| > 0 {
      var rest := Collapse(s[1..], IsDropped(s[0]));
      CollapseKept(s[1..], IsDropped(s[0]));
      var head := if IsDropped(s[0]) then (if inRun then [] else ['_']) else [s[0]];
      assert head + rest == Collapse(s, inRun);
      KeptAppend(head, rest);
    }
  }

  /** Stripping '_' from a single pass's output keeps its shape and its kept
      characters, and leaves nothing exactly when nothing was kept. */
  lemma StripShape(r: string)
    requires AllSafe(r) && NoDoubleUnderscore(r)
    ensures var t := Strip(r, '_');
            && AllSafe(t)
            && NoDoubleUnderscore(t)
            && Kept(t) == Kept(r)
            && (|t| == 0 <==> Kept(r) == [])
  {
    var left := TrimStart(r, '_');
    var t := TrimEnd(left, '_');
    StripKept(r);
    StripSlice(r);
    if |t| > 0 {
      assert t[0] != '_' && IsSafe(t[0]);
      assert Kept(t) == [t[0]] + Kept(t[1..]);
    }
  }

  /** Strip removes only '_', so it keeps the kept characters. */
  lemma StripKept(r: string)
    ensures Kept(Strip(r, '_')) == Kept(r)
  {
    TrimStartKept(r);
    TrimEndKept(TrimStart(r, '_'));
  }

  lemma TrimStartKept(r: string)
    ensures Kept(TrimStart(r, '_')) == Kept(r)
  {
    var left := TrimStart(r, '_');
    var k := |r| - |left|;
    assert r == r[..k] + left;
    KeptOfUnderscores(r[..k]);
    KeptAppend(r[..k], left);
  }

  lemma TrimEndKept(r: string)
    ensures Kept(TrimEnd(r, '_')) == Kept(r)
  {
    var t := TrimEnd(r, '_');
    assert r == t + r[|t|..];
    KeptOfUnderscores(r[|t|..]);
    KeptAppend(t, r[|t|..]);
  }

  /** Strip returns a slice of its input. */
  lemma StripSlice(r: string)
    requires AllSafe(r) && NoDoubleUnderscore(r)
    ensures AllSafe(Strip(r, '_')) && NoDoubleUnderscore(Strip(r, '_'))
  {
    var left := TrimStart(r, '_');
    var t := TrimEnd(left, '_');
    var k := |r| - |left|;
    forall i | 0 <= i < |t| ensures t[i] == r[k + i] {
      assert t[i] == left[i];
    }
  }

  /** `as_filename(name)`: the two rewrites, then the strip; `ValueError`
      when the result is empty. */
  function AsFilename(name: string): (r: Result<string, Error>)
    ensures r.Ok? ==> IsSafeName(r.value)
    ensures r.Ok? ==> Kept(r.value) == Kept(name)
    ensures r.Err? <==> Kept(name) == []
    ensures r.Err? ==> r.error == InvalidName(name)
  {
    var out := Squeeze(Squeeze(name, IsUnsafe, false), IsUnderscore, false);
    TwoPassesAreOne(name, false, false);
    CollapseShape(name, false);
    StripShape(out);
    var stripped := Strip(out, '_');
    if |stripped| == 0 then Err(InvalidName(name)) else Ok(stripped)
  }

  // Fixed points and idempotence

  lemma {:induction false} CollapseKeepsSafe(s: string, inRun: bool)
    requires AllSafe(s) && NoDoubleUnderscore(s)
    requires inRun && |s| > 0 ==> s[0] != '_'
    ensures Collapse(s, inRun) == s
    decreases |s|
  {
    if |s| > 0 {
      assert AllSafe(s[1..]) && NoDoubleUnderscore(s[1..]);
      assert s[0] == '_' && |s| > 1 ==> s[1] != '_';
      CollapseKeepsSafe(s[1..], IsDropped(s[0]));
      assert s == [s[0]] + s[1..];
    }
  }

  /** `as_filename` returns its input unchanged exactly on safe names. */
  lemma FixedPoints(s: string)
    ensures AsFilename(s) == Ok(s) <==> IsSafeName(s)
  {
    if IsSafeName(s) {
      TwoPassesAreOne(s, false, false);
      CollapseKeepsSafe(s, false);
      assert TrimStart(s, '_') == s;
      assert TrimEnd(s, '_') == s;
    }
  }

  /** `as_filename` is idempotent on its own output. */
  lemma Idempotent(name: string)
    requires AsFilename(name).Ok?
    ensures AsFilename(AsFilename(name).value) == AsFilename(name)
  {
    FixedPoints(AsFilename(name).value);
  }

  // Evaluation steps of the single rewrite, used by the examples below:
  // input position `i` produces output from position `j` on.

  lemma KeepAt(s: string, i: nat, inRun: bool, q: string, j: nat)
    requires i < |s| && j < |q| && IsKept(s[i]) && q[j] == s[i]
    requires Collapse(s[i + 1..], false) == q[j + 1..]
    ensures Collapse(s[i..], inRun) == q[j..]
  {
    assert s[i..][1..] == s[i + 1..];
    assert q[j..] == [q[j]] + q[j + 1..];
  }

  lemma OpenRunAt(s: string, i: nat, q: string, j: nat)
    requires i < |s| && j < |q| && IsDropped(s[i]) && q[j] == '_'
    requires Collapse(s[i + 1..], true) == q[j + 1..]
    ensures Collapse(s[i..], false) == q[j..]
  {
    assert s[i..][1..] == s[i + 1..];
    assert q[j..] == [q[j]] + q[j + 1..];
  }

  lemma InRunAt(s: string, i: nat, q: string, j: nat)
    requires i < |s| && j <= |q| && IsDropped(s[i])
    requires Collapse(s[i + 1..], true) == q[j..]
    ensures Collapse(s[i..], true) == q[j..]
  {
    assert s[i..][1..] == s[i + 1..];
  }

  /** `as_filename` in terms of the single rewrite. */
  lemma AsFilenameIsCollapse(name: string)
    ensures var t := Strip(Collapse(name, false), '_');
            AsFilename(name) == if |t| == 0 then Err(InvalidName(name)) else Ok(t)
  {
    TwoPassesAreOne(name, false, false);
  }

  /** Examples from the source's tests: a model name. */
  lemma ExampleModelName()
    ensures AsFilename("openai/gpt-4.1") == Ok("openai_gpt-4_1")
  {
    AsFilenameIsCollapse("openai/gpt-4.1");
    ExampleModelNameCollapsed();
    ExampleModelNameStripped();
  }

  lemma ExampleModelNameCollapsed1()
    ensures Collapse("openai/gpt-4.1"[10..], false) == "openai_gpt-4_1"[10..]
  {
    var s, q := "openai/gpt-4.1", "openai_gpt-4_1";
    KeepAt(s, 13, true, q, 13);
    OpenRunAt(s, 12, q, 12);
    KeepAt(s, 11, false, q, 11);
    KeepAt(s, 10, false, q, 10);
  }

  lemma ExampleModelNameCollapsed2()
    ensures Collapse("openai/gpt-4.1"[6..], false) == "openai_gpt-4_1"[6..]
  {
    var s, q := "openai/gpt-4.1", "openai_gpt-4_1";
    ExampleModelNameCollapsed1();
    KeepAt(s, 9, false, q, 9);
    KeepAt(s, 8, false, q, 8);
    KeepAt(s, 7, true, q, 7);
    OpenRunAt(s, 6, q, 6);
  }

  lemma ExampleModelNameCollapsed3()
    ensures Collapse("openai/gpt-4.1"[2..], false) == "openai_gpt-4_1"[2..]
  {
    var s, q := "openai/gpt-4.1", "openai_gpt-4_1";
    ExampleModelNameCollapsed2();
    KeepAt(s, 5, false, q, 5);
    KeepAt(s, 4, false, q, 4);
    KeepAt(s, 3, false, q, 3);
    KeepAt(s, 2, false, q, 2);
  }

  lemma ExampleModelNameCollapsed()
    ensures Collapse("openai/gpt-4.1", false) == "openai_gpt-4_1"
  {
    var s, q := "openai/gpt-4.1", "openai_gpt-4_1";
    ExampleModelNameCollapsed3();
    KeepAt(s, 1, false, q, 1);
    KeepAt(s, 0, false, q, 0);
    assert s[0..] == s && q[0..] == q;
  }

  lemma ExampleModelNameStripped()
    ensures Strip("openai_gpt-4_1", '_') == "openai_gpt-4_1"
  {
    var q := "openai_gpt-4_1";
    assert q[0..] == q;
    assert TrimStart(q[0..], '_') == q[0..];
    var w := q[0..];
    assert w[..14] == w;
    assert TrimEnd(w[..14], '_') == w[..14];
    assert w[..14] == "openai_gpt-4_1";
  }

  /** Leading and trailing runs disappear. */
  lemma ExampleSlashes()
    ensures AsFilename("///hello///") == Ok("hello")
  {
    AsFilenameIsCollapse("///hello///");
    ExampleSlashesCollapsed();
    ExampleSlashesStripped();
  }

  lemma ExampleSlashesCollapsed1()
    ensures Collapse("///hello///"[7..], false) == "_hello_"[5..]
  {
    var s, q := "///hello///", "_hello_";
    InRunAt(s, 10, q, 7);
    InRunAt(s, 9, q, 7);
    OpenRunAt(s, 8, q, 6);
    KeepAt(s, 7, false, q, 5);
  }

  lemma ExampleSlashesCollapsed2()
    ensures Collapse("///hello///"[3..], true) == "_hello_"[1..]
  {
    var s, q := "///hello///", "_hello_";
    ExampleSlashesCollapsed1();
    KeepAt(s, 6, false, q, 4);
    KeepAt(s, 5, false, q, 3);
    KeepAt(s, 4, false, q, 2);
    KeepAt(s, 3, true, q, 1);
  }

  lemma ExampleSlashesCollapsed()
    ensures Collapse("///hello///", false) == "_hello_"
  {
    var s, q := "///hello///", "_hello_";
    ExampleSlashesCollapsed2();
    InRunAt(s, 2, q, 1);
    InRunAt(s, 1, q, 1);
    OpenRunAt(s, 0, q, 0);
    assert s[0..] == s && q[0..] == q;
  }

  lemma ExampleSlashesStripped()
    ensures Strip("_hello_", '_') == "hello"
  {
    var q := "_hello_";
    assert q[0..] == q;
    assert TrimStart(q[0..], '_') == TrimStart(q[1..], '_');
    assert TrimStart(q[1..], '_') == q[1..];
    var w := q[1..];
    assert w[..6] == w;
    assert TrimEnd(w[..6], '_') == TrimEnd(w[..5], '_');
    assert TrimEnd(w[..5], '_') == w[..5];
    assert w[..5] == "hello";
  }

  /** A run of symbols becomes one '_'. */
  lemma ExampleBangs()
    ensures AsFilename("hello!!world") == Ok("hello_world")
  {
    AsFilenameIsCollapse("hello!!world");
    ExampleBangsCollapsed();
    ExampleBangsStripped();
  }

  lemma ExampleBangsCollapsed1()
    ensures Collapse("hello!!world"[8..], false) == "hello_world"[7..]
  {
    var s, q := "hello!!world", "hello_world";
    KeepAt(s, 11, false, q, 10);
    KeepAt(s, 10, false, q, 9);
    KeepAt(s, 9, false, q, 8);
    KeepAt(s, 8, false, q, 7);
  }

  lemma ExampleBangsCollapsed2()
    ensures Collapse("hello!!world"[4..], false) == "hello_world"[4..]
  {
    var s, q := "hello!!world", "hello_world";
    ExampleBangsCollapsed1();
    KeepAt(s, 7, true, q, 6);
    InRunAt(s, 6, q, 6);
    OpenRunAt(s, 5, q, 5);
    KeepAt(s, 4, false, q, 4);
  }

  lemma ExampleBangsCollapsed()
    ensures Collapse("hello!!world", false) == "hello_world"
  {
    var s, q := "hello!!world", "hello_world";
    ExampleBangsCollapsed2();
    KeepAt(s, 3, false, q, 3);
    KeepAt(s, 2, false, q, 2);
    KeepAt(s, 1, false, q, 1);
    KeepAt(s, 0, false, q, 0);
    assert s[0..] == s && q[0..] == q;
  }

  lemma ExampleBangsStripped()
    ensures Strip("hello_world", '_') == "hello_world"
  {
    var q := "hello_world";
    assert q[0..] == q;
    assert TrimStart(q[0..], '_') == q[0..];
    var w := q[0..];
    assert w[..11] == w;
    assert TrimEnd(w[..11], '_') == w[..11];
    assert w[..11] == "hello_world";
  }

  /** A non-ASCII hyphen (U+2011) is not kept. */
  lemma ExampleHyphen()
    ensures AsFilename("mistral\U{2011}ai") == Ok("mistral_ai")
  {
    AsFilenameIsCollapse("mistral\U{2011}ai");
    ExampleHyphenCollapsed();
    ExampleHyphenStripped();
  }

  lemma ExampleHyphenCollapsed1()
    ensures Collapse("mistral\U{2011}ai"[6..], false) == "mistral_ai"[6..]
  {
    var s, q := "mistral\U{2011}ai", "mistral_ai";
    KeepAt(s, 9, false, q, 9);
    KeepAt(s, 8, true, q, 8);
    OpenRunAt(s, 7, q, 7);
    KeepAt(s, 6, false, q, 6);
  }

  lemma ExampleHyphenCollapsed2()
    ensures Collapse("mistral\U{2011}ai"[2..], false) == "mistral_ai"[2..]
  {
    var s, q := "mistral\U{2011}ai", "mistral_ai";
    ExampleHyphenCollapsed1();
    KeepAt(s, 5, false, q, 5);
    KeepAt(s, 4, false, q, 4);
    KeepAt(s, 3, false, q, 3);
    KeepAt(s, 2, false, q, 2);
  }

  lemma ExampleHyphenCollapsed()
    ensures Collapse("mistral\U{2011}ai", false) == "mistral_ai"
  {
    var s, q := "mistral\U{2011}ai", "mistral_ai";
    ExampleHyphenCollapsed2();
    KeepAt(s, 1, false, q, 1);
    KeepAt(s, 0, false, q, 0);
    assert s[0..] == s && q[0..] == q;
  }

  lemma ExampleHyphenStripped()
    ensures Strip("mistral_ai", '_') == "mistral_ai"
  {
    var q := "mistral_ai";
    assert q[0..] == q;
    assert TrimStart(q[0..], '_') == q[0..];
    var w := q[0..];
    assert w[..10] == w;
    assert TrimEnd(w[..10], '_') == w[..10];
    assert w[..10] == "mistral_ai";
  }

  /** Nothing of the input is kept: `ValueError`. */
  lemma ExampleInvalid()
    ensures AsFilename("\U{1F4A1}\U{1F4A1}\U{1F4A1}") == Err(InvalidName("\U{1F4A1}\U{1F4A1}\U{1F4A1}"))
  {
  }
}
