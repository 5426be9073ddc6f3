/**
 * The line the default debug logger writes, shared verbatim by
 * `utility::Factory::createLogger(std::ostream&)` and
 * `CreateFunctions::createLogger(std::ostream&)`:
 * `<level> <type> validation layer: <message>`, where an unrecognised
 * severity or type leaves its field empty.
 */
module LoggerLine {

  // VkDebugUtilsMessageSeverityFlagBitsEXT
  const SEVERITY_VERBOSE: nat := 0x1
  const SEVERITY_INFO: nat := 0x10
  const SEVERITY_WARNING: nat := 0x100
  const SEVERITY_ERROR: nat := 0x1000
  const SEVERITY_MAX_ENUM: nat := 0x7FFF_FFFF

  // VkDebugUtilsMessageTypeFlagBitsEXT
  const TYPE_GENERAL: nat := 0x1
  const TYPE_VALIDATION: nat := 0x2
  const TYPE_PERFORMANCE: nat := 0x4
  const TYPE_MAX_ENUM: nat := 0x7FFF_FFFF

  const Marker := "validation layer:"

  function Level(severity: nat): string {
    if severity == SEVERITY_VERBOSE then "[VERBOSE]"
    else if severity == SEVERITY_INFO then "[INFO]"
    else if severity == SEVERITY_WARNING then "[WARNING]"
    else if severity == SEVERITY_ERROR then "[ERROR]"
    else if severity == SEVERITY_MAX_ENUM then "[MAX]"
    else ""
  }

  function TypeName(messageType: nat): string {
    if messageType == TYPE_GENERAL then "(GENERAL)"
    else if messageType == TYPE_VALIDATION then "(VALIDATION)"
    else if messageType == TYPE_PERFORMANCE then "(PERFORMANCE)"
    else if messageType == TYPE_MAX_ENUM then "(MAX)"
    else ""
  }

  /** No field name contains a space. */
  predicate NoSpace(s: string) {
    forall i :: 0 <= i < |s| ==> s[i] != ' '
  }

  /** The logger's line, without the trailing `std::endl`. */
  function Line(severity: nat, messageType: nat, message: string): (r: string)
    ensures |r| == |Level(severity)| + |TypeName(messageType)| + |Marker| + 3 + |message|
    ensures r[|r| - |message|..] == message
    ensures (Level(severity) == "") <==> r[0] == ' '
  {
    Level(severity) + " " + TypeName(messageType) + " " + Marker + " " + message
  }

  /** The text before the first space (all of `s` if there is none). */
  function UpToSpace(s: string): (r: string)
    ensures |r| <= |s| && r == s[..|r|] && NoSpace(r)
    ensures |r| < |s| ==> s[|r|] == ' '
    decreases |s|
  {
    if |s| == 0 || s[0] == ' ' then "" else [s[0]] + UpToSpace(s[1..])
  }

  /** Reading up to the first space recovers a space-free prefix. */
  lemma {:induction false} UpToSpaceOfPrefix(p: string, rest: string)
    requires NoSpace(p)
    ensures UpToSpace(p + " " + rest) == p
    decreases |p|
  {
    if |p| > 0 {
      assert (p + " " + rest)[1..] == p[1..] + " " + rest;
      UpToSpaceOfPrefix(p[1..], rest);
    } else {
      assert (p + " " + rest)[0] == ' ';
    }
  }

  /** Splits a line back into level, type and message. */
  function Parse(line: string): (r: (string, string, string)) {
    var level := UpToSpace(line);
    var afterLevel := if |level| < |line| then line[|level| + 1..] else "";
    var kind := UpToSpace(afterLevel);
    var afterKind := if |kind| < |afterLevel| then afterLevel[|kind| + 1..] else "";
    var skip := |Marker| + 1;
    (level, kind, if skip <= |afterKind| then afterKind[skip..] else "")
  }

  lemma FieldsHaveNoSpace(severity: nat, messageType: nat)
    ensures NoSpace(Level(severity)) && NoSpace(TypeName(messageType))
  {
  }

  /** Splitting `p + " " + rest` at its first space, for a space-free `p`. */
  lemma SplitAtSpace(p: string, rest: string)
    requires NoSpace(p)
    ensures var s := p + " " + rest;
      UpToSpace(s) == p && |p| < |s| && s[|p| + 1..] == rest
  {
    UpToSpaceOfPrefix(p, rest);
    assert (p + " " + rest)[|p| + 1..] == rest;
  }

  /** Parsing splits off two space-free fields and drops the marker from the rest. */
  lemma ParseFields(level: string, kind: string, tail: string)
    requires NoSpace(level) && NoSpace(kind)
    ensures Parse(level + " " + (kind + " " + tail)) == (level, kind, if |Marker| + 1 <= |tail| then tail[|Marker| + 1..] else "")
  {
    SplitAtSpace(level, kind + " " + tail);
    SplitAtSpace(kind, tail);
  }

  /** Parsing undoes the joining, for space-free level and type fields. */
  lemma ParseJoined(level: string, kind: string, message: string)
    requires NoSpace(level) && NoSpace(kind)
    ensures Parse(level + " " + kind + " " + Marker + " " + message) == (level, kind, message)
  {
    var tail := Marker + " " + message;
    assert level + " " + kind + " " + Marker + " " + message == level + " " + (kind + " " + tail);
    ParseFields(level, kind, tail);
    assert tail[|Marker| + 1..] == message;
  }

  /** Every line reads back as the level, type and message it was built from. */
  lemma ParseLine(severity: nat, messageType: nat, message: string)
    ensures Parse(Line(severity, messageType, message)) == (Level(severity), TypeName(messageType), message)
  {
    FieldsHaveNoSpace(severity, messageType);
    ParseJoined(Level(severity), TypeName(messageType), message);
  }

  /** Hence the line determines its fields: different fields, different lines. */
  lemma LineInjective(s1: nat, t1: nat, m1: string, s2: nat, t2: nat, m2: string)
    requires Line(s1, t1, m1) == Line(s2, t2, m2)
    ensures Level(s1) == Level(s2) && TypeName(t1) == TypeName(t2) && m1 == m2
  {
    ParseLine(s1, t1, m1);
    ParseLine(s2, t2, m2);
  }
}
