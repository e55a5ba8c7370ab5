/** The pure parts of `Logger` (src/core/logger.py): the id a logger gets
    from its class hierarchy and name, the registry that refuses a second
    logger with the same id, and the header line layout. */
module Loggers {
  import opened Wrappers
  import LogIds

  // Logger ids

  /** What a class contributes to the namespace: its own `namespace_part`
      attribute when it defines a non-empty one. */
  function Part(namespacePart: Option<string>): (p: seq<string>)
    ensures |p| <= 1
    ensures |p| == 1 <==> namespacePart.Some? && namespacePart.value != ""
    ensures |p| == 1 ==> namespacePart == Some(p[0])
  {
    if namespacePart.Some? && namespacePart.value != "" then [namespacePart.value] else []
  }

  /** The namespace of a logger whose class has method resolution order
      `mro` (most derived class first): the non-empty parts, base first,
      each one the part of some class in `mro`. */
  function Namespace(mro: seq<Option<string>>): (ns: seq<string>)
    ensures |ns| <= |mro|
    ensures forall i | 0 <= i < |ns| :: ns[i] != "" && Some(ns[i]) in mro
    decreases |mro|
  {
    if |mro| == 0 then []
    else Part(mro[|mro| - 1]) + Namespace(mro[..|mro| - 1])
  }

  /** A subclass that defines a non-empty part extends its parent's namespace
      by that part; one that does not inherits the namespace unchanged. */
  lemma {:induction false} SubclassNamespace(part: Option<string>, mro: seq<Option<string>>)
    ensures Namespace([part] + mro) == Namespace(mro) + Part(part)
    decreases |mro|
  {
    var longer := [part] + mro;
    if |mro| == 0 {
      assert longer[..0] == [];
    } else {
      var init := mro[..|mro| - 1];
      assert longer[|longer| - 1] == mro[|mro| - 1];
      assert longer[..|longer| - 1] == [part] + init;
      SubclassNamespace(part, init);
      calc {
        Namespace(longer);
        Part(mro[|mro| - 1]) + Namespace([part] + init);
        Part(mro[|mro| - 1]) + (Namespace(init) + Part(part));
        (Part(mro[|mro| - 1]) + Namespace(init)) + Part(part);
        Namespace(mro) + Part(part);
      }
    }
  }

  /** The logger id: the namespace joined by '.', ':', the log name. */
  function LoggerId(mro: seq<Option<string>>, logName: string): (id: string)
    ensures EndsWithName(id, logName)
  {
    LogIds.ProduceLogId(Namespace(mro), logName)
  }

  /** `id` ends with ':' and then `logName`. */
  predicate EndsWithName(id: string, logName: string) {
    && |id| >= |logName| + 1
    && id[|id| - |logName|..] == logName
    && id[|id| - |logName| - 1] == LogIds.Separator
  }

  /** The log name comes back out of the id whenever it holds no ':'; the
      namespace does too when it is not empty and no part holds a '.' or a
      ':'. */
  lemma LoggerIdRoundTrip(mro: seq<Option<string>>, logName: string)
    requires LogIds.Separator !in logName
    ensures LogIds.LogName(LoggerId(mro, logName)) == logName
    ensures && |Namespace(mro)| > 0
            && (forall i | 0 <= i < |Namespace(mro)| ::
                  LogIds.Delimiter !in Namespace(mro)[i] && LogIds.Separator !in Namespace(mro)[i])
            ==> LogIds.LogSpace(LoggerId(mro, logName)) == Namespace(mro)
  {
    var ns := Namespace(mro);
    if |ns| > 0 && forall i | 0 <= i < |ns| :: LogIds.Delimiter !in ns[i] && LogIds.Separator !in ns[i] {
      LogIds.RoundTrip(ns, logName);
    } else {
      LogIds.LogNameOfProduced(ns, logName);
    }
  }

  /** Two loggers of the same class get the same id exactly when they have
      the same name: both ids share the namespace and the ':' before it. */
  lemma DistinctNamesDistinctIds(mro: seq<Option<string>>, a: string, b: string)
    ensures LoggerId(mro, a) == LoggerId(mro, b) <==> a == b
  {
  }

  // The registry of live loggers

  datatype Error = DuplicateId(id: string)

  /** Registering a logger under `id`: refused, with the registry unchanged,
      when the id is taken; otherwise the id maps to the new logger and every
      other entry stays. */
  function Register<L>(loggers: map<string, L>, id: string, logger: L): (out: (map<string, L>, Option<Error>))
    ensures out.1.Some? <==> id in loggers
    ensures out.1.Some? ==> out.0 == loggers && out.1.value == DuplicateId(id)
    ensures out.1.None? ==> id in out.0 && out.0[id] == logger
    ensures out.1.None? ==> out.0.Keys == loggers.Keys + {id}
    ensures forall k | k in loggers :: k in out.0 && out.0[k] == loggers[k]
  {
    if id in loggers then (loggers, Some(DuplicateId(id)))
    else (loggers[id := logger], None)
  }

  /** Creating a logger: its id, then registration. */
  function NewLogger<L>(loggers: map<string, L>, mro: seq<Option<string>>, logName: string, logger: L)
    : (out: (map<string, L>, Option<Error>))
    ensures out.1.Some? <==> LoggerId(mro, logName) in loggers
    ensures out.1.None? ==> LoggerId(mro, logName) in out.0 && out.0[LoggerId(mro, logName)] == logger
    ensures out.1.Some? ==> out.0 == loggers
  {
    Register(loggers, LoggerId(mro, logName), logger)
  }

  /** A second logger of the same class and name is refused, whatever the
      registry held before. */
  lemma SecondLoggerRefused<L>(loggers: map<string, L>, mro: seq<Option<string>>, logName: string, first: L, second: L)
    ensures var after := NewLogger(loggers, mro, logName, first).0;
            && NewLogger(after, mro, logName, second).1 == Some(DuplicateId(LoggerId(mro, logName)))
            && NewLogger(after, mro, logName, second).0 == after
  {
  }

  // The header line

  /** What goes between the two halves when they do not leave room. */
  const Bar: string := " | "

  function Max(a: int, b: int): int {
    if a < b then b else a
  }

  predicate AllSpaces(s: string) {
    forall i | 0 <= i < |s| :: s[i] == ' '
  }

  /** `_patch_header`: `left` and `right` pushed apart to `maxLineLen`
      characters with spaces, or joined by " | " when fewer than three spaces
      would fit. */
  function Header(left: string, right: string, maxLineLen: int): (h: string)
    ensures |h| >= |left| + |right| && h[..|left|] == left && h[|h| - |right|..] == right
    ensures |h| == Max(maxLineLen, |left| + |right| + |Bar|)
  {
    var spaces := maxLineLen - |left| - |right|;
    if spaces < |Bar| then left + Bar + right
    else
      var h := left + Spaces(spaces) + right;
      assert h[..|left|] == left && h[|h| - |right|..] == right;
      h
  }

  function Spaces(n: nat): (s: string)
    ensures |s| == n && AllSpaces(s)
  {
    if n == 0 then "" else [' '] + Spaces(n - 1)
  }

  /** Between `left` and `right` the header holds only spaces when there is
      room for at least three, and exactly " | " otherwise. */
  lemma HeaderMiddle(left: string, right: string, maxLineLen: int)
    ensures var h := Header(left, right, maxLineLen);
            var middle := h[|left|..|h| - |right|];
            && h == left + middle + right
            && (maxLineLen - |left| - |right| >= |Bar| ==> |middle| >= |Bar| && AllSpaces(middle) && |h| == maxLineLen)
            && (maxLineLen - |left| - |right| < |Bar| ==> middle == Bar)
  {
    var h := Header(left, right, maxLineLen);
    var middle := h[|left|..|h| - |right|];
    assert h == h[..|left|] + middle + h[|h| - |right|..];
  }
}
