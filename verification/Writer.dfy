/** Writer and PrettyWriter (rapidjson/writer.h, rapidjson/prettywriter.h): the level stack that
    decides commas, colons and line breaks, string escaping, and the text of a whole tree. */
module Writer {
  import opened Json
  import opened Streams
  import opened Decimal
  import E = Encodings

  /** Writer prints compactly; PrettyWriter indents, with arrays on one line or not. */
  datatype Style = Compact | Pretty(indentChar: byte, indentCharCount: nat, singleLineArray: bool)

  /** The source asserts that the indent character is whitespace. */
  predicate ProperStyle(style: Style) {
    style.Pretty? ==>
      style.indentChar == ' ' as int || style.indentChar == '\t' as int || style.indentChar == '\n' as int ||
      style.indentChar == '\r' as int
  }

  /** unicode: the target encoding supports Unicode (UTF-8); otherwise it is ASCII.
      validate: kWriteValidateEncodingFlag. */
  datatype Target = Target(unicode: bool, validate: bool)

  /** dtoa prints a double. */
  datatype Settings = Settings(style: Style, target: Target, dtoa: bytes -> bytes)

  // ----- strings -----

  const BACKSLASH: byte := 0x5C
  const QUOTE: byte := 0x22
  const LETTER_U: byte := 'u' as int

  /** The table hexDigits. */
  function HexDigit(d: nat): byte
    requires d < 16
  {
    if d < 10 then '0' as int + d else 'A' as int + (d - 10)
  }

  function HexText(u: nat): bytes
    requires u < 0x1_0000
  {
    [HexDigit(u / 0x1000), HexDigit(u / 0x100 % 0x10), HexDigit(u / 0x10 % 0x10), HexDigit(u % 0x10)]
  }

  /** The table escape[256]. */
  function Escape(c: byte): byte {
    if c == 0x08 then 'b' as int
    else if c == 0x09 then 't' as int
    else if c == 0x0A then 'n' as int
    else if c == 0x0C then 'f' as int
    else if c == 0x0D then 'r' as int
    else if c < 0x20 then LETTER_U
    else if c == QUOTE || c == BACKSLASH then c
    else 0
  }

  /** One byte of a string that is not transcoded. */
  function ByteText(c: byte): bytes {
    if Escape(c) == 0 then [c]
    else if Escape(c) == LETTER_U then
      [BACKSLASH, LETTER_U, HexDigit(0), HexDigit(0), HexDigit(c / 0x10), HexDigit(c % 0x10)]
    else [BACKSLASH, Escape(c)]
  }

  /** Unicode escaping: one \u escape, or two for a surrogate pair. */
  function CodepointText(u: nat): bytes
    requires E.IsScalar(u)
  {
    if u <= 0xFFFF then [BACKSLASH, LETTER_U] + HexText(u)
    else
      var v := u - 0x1_0000;
      [BACKSLASH, LETTER_U] + HexText(v / 0x400 + 0xD800) + [BACKSLASH, LETTER_U] + HexText(v % 0x400 + 0xDC00)
  }

  /** What a write puts, and whether it succeeds. */
  datatype Written = Written(text: bytes, ok: bool)

  /** The loop of WriteString from p, without the closing quote; the text of a failure leaves out the
      sequence that was refused. */
  function StringText(s: bytes, p: nat, target: Target): Written
    requires p <= |s|
    decreases |s| - p
  {
    if p == |s| then Written([], true)
    else if !target.unicode && s[p] >= 0x80 then
      var d := E.Decode(s, p);
      E.DecodeExactly(s, p);
      if !d.ok then Written([], false)
      else
        var rest := StringText(s, p + d.taken, target);
        Written(CodepointText(d.codepoint) + rest.text, rest.ok)
    else if Validates(s[p], target) then
      var d := E.Decode(s, p);
      E.DecodeIsRfc(s, p);
      if !d.ok then Written([], false)
      else
        var rest := StringText(s, p + d.taken, target);
        Written(s[p..p + d.taken] + rest.text, rest.ok)
    else
      var rest := StringText(s, p + 1, target);
      Written(ByteText(s[p]) + rest.text, rest.ok)
  }

  /** The character goes through Validate: to ASCII it is a single byte anyway. */
  predicate Validates(c: byte, target: Target) { target.unicode && target.validate && Escape(c) == 0 }

  /** WriteString. A failure leaves the string without its closing quote. */
  function QuotedText(s: bytes, target: Target): Written {
    var inner := StringText(s, 0, target);
    if inner.ok then Written([QUOTE] + inner.text + [QUOTE], true) else Written([QUOTE] + inner.text, false)
  }

  /** WriteString meets a sequence that reaches past the terminator of the string. */
  predicate WriteOverruns(s: bytes, p: nat, target: Target)
    requires p <= |s|
    decreases |s| - p
  {
    if p == |s| then false
    else if (!target.unicode && s[p] >= 0x80) || Validates(s[p], target) then
      var d := E.Decode(s, p);
      E.DecodeIsRfc(s, p);
      if d.ok then WriteOverruns(s, p + d.taken, target) else p + d.taken > |s| + 1
    else WriteOverruns(s, p + 1, target)
  }

  // ----- the level stack -----

  /** level_stack_, the innermost level first. */
  datatype Levels = Root | Level(valueCount: nat, inArray: bool, outer: Levels)

  function Depth(levels: Levels): nat { if levels.Root? then 0 else 1 + Depth(levels.outer) }

  datatype State = State(levels: Levels, hasRoot: bool, written: bytes)

  const NEWLINE: bytes := ['\n' as int]
  const SPACE: bytes := [' ' as int]
  const COMMA: bytes := [',' as int]
  const COLON: bytes := [':' as int]

  /** WriteIndent at the given depth. */
  function Indent(style: Style, depth: nat): bytes
    requires style.Pretty?
  {
    seq(depth * style.indentCharCount, _ => style.indentChar)
  }

  /** The whitespace in front of an element, a member's name and a member's value. */
  function ElementGap(style: Style, depth: nat, first: bool): bytes {
    if style.Compact? then []
    else if style.singleLineArray then (if first then [] else SPACE)
    else NEWLINE + Indent(style, depth)
  }

  function NameGap(style: Style, depth: nat): bytes {
    if style.Compact? then [] else NEWLINE + Indent(style, depth)
  }

  function ValueGap(style: Style): bytes { if style.Compact? then [] else SPACE }

  /** The whitespace in front of a closing bracket. */
  function EndGap(style: Style, depth: nat, inArray: bool, empty: bool): bytes {
    if style.Compact? || empty || (inArray && style.singleLineArray) then [] else NEWLINE + Indent(style, depth)
  }

  /** Prefix and PrettyPrefix: what they put in front of a value or a name. */
  function Prefix(style: Style, levels: Levels): bytes {
    if levels.Root? then []
    else if levels.inArray then
      (if levels.valueCount > 0 then COMMA else []) + ElementGap(style, Depth(levels), levels.valueCount == 0)
    else if levels.valueCount % 2 == 0 then
      (if levels.valueCount > 0 then COMMA else []) + NameGap(style, Depth(levels))
    else COLON + ValueGap(style)
  }

  /** The assertions of Prefix: one root only, and names are strings. */
  predicate Expects(st: State, isString: bool) {
    if st.levels.Root? then !st.hasRoot
    else st.levels.inArray || st.levels.valueCount % 2 == 1 || isString
  }

  /** level->valueCount++, or hasRoot_ = true at the root. */
  function Counted(st: State): State {
    if st.levels.Root? then st.(hasRoot := true)
    else st.(levels := st.levels.(valueCount := st.levels.valueCount + 1))
  }

  function Put(st: State, text: bytes): State { st.(written := st.written + text) }

  /** A value that takes one call: Prefix, then its text. */
  function PutValue(c: Settings, st: State, text: bytes): State {
    Put(Counted(st), Prefix(c.style, st.levels) + text)
  }

  function PutStart(c: Settings, st: State, inArray: bool): State {
    var st' := PutValue(c, st, if inArray then ['[' as int] else ['{' as int]);
    st'.(levels := Level(0, inArray, st'.levels))
  }

  /** The assertions of EndObject and EndArray. */
  predicate CanEnd(st: State, inArray: bool) {
    st.levels.Level? && st.levels.inArray == inArray && (inArray || st.levels.valueCount % 2 == 0)
  }

  function PutEnd(c: Settings, st: State, inArray: bool): State
    requires CanEnd(st, inArray)
  {
    var outer := st.levels.outer;
    Put(st.(levels := outer),
        EndGap(c.style, Depth(outer), inArray, st.levels.valueCount == 0) + if inArray then [']' as int]
        else ['}' as int])
  }

  /** The text of an event that is a value by itself, or a name. */
  function ScalarText(c: Settings, e: Event): Written
    requires !e.StartObject? && !e.StartArray? && !e.EndObject? && !e.EndArray?
  {
    match e
    case Null => Written(['n' as int, 'u' as int, 'l' as int, 'l' as int], true)
    case Bool(true) => Written(['t' as int, 'r' as int, 'u' as int, 'e' as int], true)
    case Bool(false) => Written(['f' as int, 'a' as int, 'l' as int, 's' as int, 'e' as int], true)
    case Integer(_, n) => Written(IntText(n), true)
    case Double(l) => Written(c.dtoa(l), true)
    case String(s) => QuotedText(s, c.target)
    case Key(s) => QuotedText(s, c.target)
  }

  /** The asserted condition of a handler call. */
  predicate CanHandle(st: State, e: Event) {
    match e
    case EndObject(_) => CanEnd(st, false)
    case EndArray(_) => CanEnd(st, true)
    case _ => Expects(st, e.String? || e.Key?)
  }

  /** A handler call, and what it returns. */
  function Handle(c: Settings, st: State, e: Event): (State, bool)
    requires CanHandle(st, e)
  {
    match e
    case StartObject => (PutStart(c, st, false), true)
    case StartArray => (PutStart(c, st, true), true)
    case EndObject(_) => (PutEnd(c, st, false), true)
    case EndArray(_) => (PutEnd(c, st, true), true)
    case _ =>
      var w := ScalarText(c, e);
      (PutValue(c, st, w.text), w.ok)
  }

  /** The events one after the other, until a call returns false; None when an assertion fails. */
  function Run(c: Settings, st: State, events: seq<Event>): Option<(State, bool)>
    decreases |events|
  {
    if events == [] then Some((st, true))
    else if !CanHandle(st, events[0]) then None
    else
      var r := Handle(c, st, events[0]);
      if r.1 then Run(c, r.0, events[1..]) else Some(r)
  }

  // ----- the text of a tree -----

  /** The text of a value that stands inside depth containers. */
  function Print(c: Settings, v: Value, depth: nat): bytes {
    match v
    case VNull => ScalarText(c, Null).text
    case VBool(b) => ScalarText(c, Bool(b)).text
    case VInt(n) => IntText(n)
    case VDouble(l) => c.dtoa(l)
    case VString(s) => QuotedText(s, c.target).text
    case VArray(es) =>
      ['[' as int] + PrintElements(c, es, depth + 1, true) + EndGap(c.style, depth, true, es == []) + [']' as int]
    case VObject(ms) =>
      ['{' as int] + PrintMembers(c, ms, depth + 1, true) + EndGap(c.style, depth, false, ms == []) + ['}' as int]
  }

  function Separator(first: bool): bytes { if first then [] else COMMA }

  function PrintElements(c: Settings, es: seq<Value>, depth: nat, first: bool): bytes {
    if es == [] then []
    else
      Separator(first) + ElementGap(c.style, depth, first) + Print(c, es[0], depth) +
      PrintElements(c, es[1..], depth, false)
  }

  function PrintMembers(c: Settings, ms: seq<Member>, depth: nat, first: bool): bytes {
    if ms == [] then []
    else
      Separator(first) + NameGap(c.style, depth) + QuotedText(ms[0].name, c.target).text
      + COLON + ValueGap(c.style) + Print(c, ms[0].value, depth) + PrintMembers(c, ms[1..], depth, false)
  }

  /** Every string and name of the value can be written in the target encoding. */
  predicate Writable(v: Value, target: Target) {
    match v
    case VString(s) => QuotedText(s, target).ok
    case VArray(es) => ElementsWritable(es, target)
    case VObject(ms) => MembersWritable(ms, target)
    case _ => true
  }

  predicate ElementsWritable(es: seq<Value>, target: Target) {
    es == [] || (Writable(es[0], target) && ElementsWritable(es[1..], target))
  }

  predicate MembersWritable(ms: seq<Member>, target: Target) {
    ms == [] || (QuotedText(ms[0].name, target).ok && Writable(ms[0].value, target) && MembersWritable(ms[1..], target))
  }
}
