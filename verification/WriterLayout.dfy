/** The layout of what Writer and PrettyWriter (rapidjson/prettywriter.h) write, told line by line. */
module WriterLayout {
  import opened Json
  import opened Decimal
  import opened Writer

  /** A line: the number of containers open around it, and what stands behind its margin. */
  datatype Line = Line(depth: nat, content: bytes)

  /** indentCharCount characters for every open container. */
  function Margin(style: Style, depth: nat): bytes
    requires style.Pretty?
  {
    if depth == 0 then [] else Margin(style, depth - 1) + seq(style.indentCharCount, _ => style.indentChar)
  }

  /** The lines that follow another one. */
  function Following(style: Style, ls: seq<Line>): bytes
    requires style.Pretty?
  {
    if ls == [] then [] else ['\n' as int] + Margin(style, ls[0].depth) + ls[0].content + Following(style, ls[1..])
  }

  /** The text of some lines; the margin of the first is already there. */
  function Text(style: Style, ls: seq<Line>): bytes
    requires style.Pretty? && ls != []
  {
    ls[0].content + Following(style, ls[1..])
  }

  /** The last line of a and the first of b are one. */
  function Glue(a: seq<Line>, b: seq<Line>): (r: seq<Line>)
    requires a != [] && b != []
    ensures r != [] && r[0].depth == a[0].depth
  {
    var last := a[|a| - 1];
    a[..|a| - 1] + [Line(last.depth, last.content + b[0].content)] + b[1..]
  }

  predicate IsAscii(text: string) { forall i :: 0 <= i < |text| ==> text[i] as int < 0x80 }

  function Ascii(text: string): (w: bytes)
    requires IsAscii(text)
    ensures |w| == |text| && forall i :: 0 <= i < |text| ==> w[i] == text[i] as int
  {
    if text == "" then [] else [text[0] as int] + Ascii(text[1..])
  }

  function One(depth: nat, text: string): (r: seq<Line>)
    requires IsAscii(text)
    ensures r != [] && r[0].depth == depth
  {
    [Line(depth, Ascii(text))]
  }

  /** The lines of a value: brackets, members and the elements of an array each begin a line, unless the
      container is empty or arrays stand on one line. */
  function Lines(c: Settings, v: Value, depth: nat): (r: seq<Line>)
    requires c.style.Pretty?
    ensures r != [] && r[0].depth == depth
    decreases v, 1
  {
    match v
    case VArray(es) =>
      if es == [] then One(depth, "[]")
      else if c.style.singleLineArray then Glue(Glue(One(depth, "["), Row(c, es, depth + 1)), One(depth, "]"))
      else One(depth, "[") + ElementLines(c, es, depth + 1) + One(depth, "]")
    case VObject(ms) =>
      if ms == [] then One(depth, "{}")
      else One(depth, "{") + MemberLines(c, ms, depth + 1) + One(depth, "}")
    case VNull => One(depth, "null")
    case VBool(b) => One(depth, if b then "true" else "false")
    case VInt(n) => [Line(depth, IntText(n))]
    case VDouble(l) => [Line(depth, c.dtoa(l))]
    case VString(s) => [Line(depth, QuotedText(s, c.target).text)]
  }

  /** Elements on one line. */
  function Row(c: Settings, es: seq<Value>, depth: nat): (r: seq<Line>)
    requires c.style.Pretty? && es != []
    ensures r != []
    decreases es, 0
  {
    var first := Lines(c, es[0], depth);
    if |es| == 1 then first else Glue(Glue(first, One(depth, ", ")), Row(c, es[1..], depth))
  }

  function ElementLines(c: Settings, es: seq<Value>, depth: nat): (r: seq<Line>)
    requires c.style.Pretty? && es != []
    ensures r != [] && r[0].depth == depth
    decreases es, 0
  {
    var first := Lines(c, es[0], depth);
    if |es| == 1 then first else Glue(first, One(depth, ",")) + ElementLines(c, es[1..], depth)
  }

  function MemberLines(c: Settings, ms: seq<Member>, depth: nat): (r: seq<Line>)
    requires c.style.Pretty? && ms != []
    ensures r != [] && r[0].depth == depth
    decreases ms, 0
  {
    var name := [Line(depth, QuotedText(ms[0].name, c.target).text)];
    var first := Glue(Glue(name, One(depth, ": ")), Lines(c, ms[0].value, depth));
    if |ms| == 1 then first else Glue(first, One(depth, ",")) + MemberLines(c, ms[1..], depth)
  }

  // ----- lines and text -----

  lemma {:induction false} FollowingAppend(style: Style, a: seq<Line>, b: seq<Line>)
    requires style.Pretty?
    ensures Following(style, a + b) == Following(style, a) + Following(style, b)
  {
    if a == [] {
      assert a + b == b;
    } else {
      assert (a + b)[1..] == a[1..] + b;
      FollowingAppend(style, a[1..], b);
    }
  }

  lemma TextAppend(style: Style, a: seq<Line>, b: seq<Line>)
    requires style.Pretty? && a != [] && b != []
    ensures Text(style, a + b) == Text(style, a) + NEWLINE + Margin(style, b[0].depth) + Text(style, b)
  {
    assert (a + b)[1..] == a[1..] + b;
    FollowingAppend(style, a[1..], b);
    hide Margin;
  }

  lemma TextGlue(style: Style, a: seq<Line>, b: seq<Line>)
    requires style.Pretty? && a != [] && b != []
    ensures Text(style, Glue(a, b)) == Text(style, a) + Text(style, b)
  {
    var last := a[|a| - 1];
    var m := Line(last.depth, last.content + b[0].content);
    if |a| == 1 {
      assert Glue(a, b) == [m] + b[1..];
    } else {
      var mid := a[1..|a| - 1];
      assert Glue(a, b)[1..] == mid + ([m] + b[1..]);
      assert a[1..] == mid + [last];
      FollowingAppend(style, mid, [m] + b[1..]);
      FollowingAppend(style, mid, [last]);
      OneFollowing(style, last, []);
      OneFollowing(style, m, b[1..]);
      assert [last] + [] == [last];
    }
  }

  lemma OneFollowing(style: Style, l: Line, ls: seq<Line>)
    requires style.Pretty?
    ensures Following(style, [l] + ls) == ['\n' as int] + Margin(style, l.depth) + l.content + Following(style, ls)
    ensures Following(style, []) == []
  {
    assert ([l] + ls)[1..] == ls;
  }

  lemma {:induction false} MarginIsIndent(style: Style, depth: nat)
    requires style.Pretty?
    ensures Margin(style, depth) == Indent(style, depth)
  {
    if depth > 0 {
      MarginIsIndent(style, depth - 1);
      assert depth * style.indentCharCount == (depth - 1) * style.indentCharCount + style.indentCharCount;
    }
  }

  lemma TextOne(style: Style, depth: nat, text: string)
    requires style.Pretty? && IsAscii(text)
    ensures |Text(style, One(depth, text))| == |text|
    ensures forall i :: 0 <= i < |text| ==> Text(style, One(depth, text))[i] == text[i] as int
  {
  }

  // ----- the layout -----

  lemma OneLine(style: Style, depth: nat, w: bytes)
    requires style.Pretty?
    ensures Text(style, [Line(depth, w)]) == w
  {
  }

  /** The marks of a layout as the writer puts them. */
  lemma Marks(style: Style, d: nat)
    requires style.Pretty?
    ensures Text(style, One(d, "[")) == ['[' as int] && Text(style, One(d, "]")) == [']' as int]
    ensures Text(style, One(d, "{")) == ['{' as int] && Text(style, One(d, "}")) == ['}' as int]
    ensures Text(style, One(d, ",")) == COMMA && Text(style, One(d, ", ")) == COMMA + SPACE
    ensures Text(style, One(d, ": ")) == COLON + SPACE
    ensures Text(style, One(d, "[]")) == ['[' as int, ']' as int]
    ensures Text(style, One(d, "{}")) == ['{' as int, '}' as int]
  {
    hide Text, One;
    Mark(style, d, "[", ['[' as int]);
    Mark(style, d, "]", [']' as int]);
    Mark(style, d, "{", ['{' as int]);
    Mark(style, d, "}", ['}' as int]);
    Mark(style, d, ",", COMMA);
    Mark(style, d, ", ", COMMA + SPACE);
    Mark(style, d, ": ", COLON + SPACE);
    Mark(style, d, "[]", ['[' as int, ']' as int]);
    Mark(style, d, "{}", ['{' as int, '}' as int]);
  }

  lemma Mark(style: Style, d: nat, text: string, w: bytes)
    requires style.Pretty? && IsAscii(text) && |w| == |text| && forall i :: 0 <= i < |w| ==> w[i] == text[i] as int
    ensures Text(style, One(d, text)) == w
  {
  }

  lemma ScalarIsLine(c: Settings, v: Value, depth: nat)
    requires c.style.Pretty? && !v.VArray? && !v.VObject?
    ensures Text(c.style, Lines(c, v, depth)) == Print(c, v, depth)
  {
    hide Text, One, IntText, QuotedText;
    match v
    case VNull => TextOne(c.style, depth, "null");
    case VBool(b) => TextOne(c.style, depth, if b then "true" else "false");
    case VInt(n) => OneLine(c.style, depth, IntText(n));
    case VDouble(l) => OneLine(c.style, depth, c.dtoa(l));
    case VString(s) => OneLine(c.style, depth, QuotedText(s, c.target).text);
  }

  /** What the PrettyWriter writes of a value are its lines, each behind its margin. */
  lemma {:induction false} PrintIsLines(c: Settings, v: Value, depth: nat)
    requires c.style.Pretty?
    ensures Text(c.style, Lines(c, v, depth)) == Print(c, v, depth)
    decreases v, 2
  {
    hide Print, Lines, Text;
    if v.VArray? {
      ArrayIsLines(c, v.elements, depth);
    } else if v.VObject? {
      ObjectIsLines(c, v.members, depth);
    } else {
      ScalarIsLine(c, v, depth);
    }
  }

  lemma {:induction false} ArrayIsLines(c: Settings, es: seq<Value>, depth: nat)
    requires c.style.Pretty?
    ensures Text(c.style, Lines(c, VArray(es), depth)) == Print(c, VArray(es), depth)
    decreases es, 3
  {
    hide PrintElements, ElementLines, Row, Text, One, Glue, Indent, Margin;
    Marks(c.style, depth);
    if es == [] {
      assert PrintElements(c, es, depth + 1, true) == [] by { NothingPrinted(c, depth + 1); }
    } else if c.style.singleLineArray {
      RowIsText(c, es, depth + 1, true);
      TextGlue(c.style, One(depth, "["), Row(c, es, depth + 1));
      TextGlue(c.style, Glue(One(depth, "["), Row(c, es, depth + 1)), One(depth, "]"));
    } else {
      ElementsAreLines(c, es, depth + 1, true);
      MarginIsIndent(c.style, depth);
      var ls := ElementLines(c, es, depth + 1);
      TextAppend(c.style, One(depth, "["), ls);
      TextAppend(c.style, One(depth, "[") + ls, One(depth, "]"));
    }
  }

  lemma NothingPrinted(c: Settings, depth: nat)
    ensures PrintElements(c, [], depth, true) == [] && PrintMembers(c, [], depth, true) == []
  {
  }

  lemma PrintFirst(c: Settings, es: seq<Value>, depth: nat, first: bool)
    requires es != []
    ensures PrintElements(c, es, depth, first) ==
            Separator(first) + ElementGap(c.style, depth, first) + Print(c, es[0], depth) +
            (if |es| == 1 then [] else PrintElements(c, es[1..], depth, false))
  {
    hide Print, Separator, ElementGap;
    if |es| == 1 { assert es[1..] == []; }
  }

  lemma Regroup(a: bytes, b: bytes, c: bytes, d: bytes)
    ensures a + b + (c + d) == a + (b + c + d)
  {
  }

  lemma {:induction false} RowIsText(c: Settings, es: seq<Value>, depth: nat, first: bool)
    requires c.style.Pretty? && c.style.singleLineArray && es != []
    ensures PrintElements(c, es, depth, first) ==
            (if first then [] else COMMA + SPACE) + Text(c.style, Row(c, es, depth))
    decreases es, 2
  {
    hide Print, PrintElements, Lines, Text, One, Glue;
    PrintIsLines(c, es[0], depth);
    PrintFirst(c, es, depth, first);
    Marks(c.style, depth);
    var ls, w := Lines(c, es[0], depth), Print(c, es[0], depth);
    if |es| > 1 {
      RowIsText(c, es[1..], depth, false);
      var tail := Row(c, es[1..], depth);
      TextGlue(c.style, ls, One(depth, ", "));
      TextGlue(c.style, Glue(ls, One(depth, ", ")), tail);
      Regroup(if first then [] else COMMA + SPACE, w, COMMA + SPACE, Text(c.style, tail));
    }
  }

  lemma {:induction false} ElementsAreLines(c: Settings, es: seq<Value>, depth: nat, first: bool)
    requires c.style.Pretty? && !c.style.singleLineArray && es != []
    ensures PrintElements(c, es, depth, first) ==
            Separator(first) + (NEWLINE + Margin(c.style, depth)) + Text(c.style, ElementLines(c, es, depth))
    decreases es, 2
  {
    hide Print, PrintElements, Lines, Text, One, Glue, Indent, Margin, Separator;
    PrintIsLines(c, es[0], depth);
    PrintFirst(c, es, depth, first);
    MarginIsIndent(c.style, depth);
    var ls, w, gap := Lines(c, es[0], depth), Print(c, es[0], depth), NEWLINE + Margin(c.style, depth);
    if |es| > 1 {
      ElementsAreLines(c, es[1..], depth, false);
      Continues(c.style, depth, ls, ElementLines(c, es[1..], depth), Separator(first) + gap);
    }
  }

  /** Lines, a comma and further lines. */
  lemma Continues(style: Style, depth: nat, ls: seq<Line>, rest: seq<Line>, lead: bytes)
    requires style.Pretty? && ls != [] && rest != [] && rest[0].depth == depth
    ensures lead + Text(style, ls) + (Separator(false) + (NEWLINE + Margin(style, depth)) + Text(style, rest)) ==
            lead + Text(style, Glue(ls, One(depth, ",")) + rest)
  {
    Marks(style, depth);
    hide Text, One, Glue, Margin;
    var m := NEWLINE + Margin(style, depth);
    TextGlue(style, ls, One(depth, ","));
    TextAppend(style, Glue(ls, One(depth, ",")), rest);
    var w, t := Text(style, ls), Text(style, rest);
    assert w + COMMA + NEWLINE + Margin(style, depth) + t == w + (COMMA + m + t);
    Regroup(lead, w, COMMA + m + t, []);
  }

  lemma {:induction false} ObjectIsLines(c: Settings, ms: seq<Member>, depth: nat)
    requires c.style.Pretty?
    ensures Text(c.style, Lines(c, VObject(ms), depth)) == Print(c, VObject(ms), depth)
    decreases ms, 3
  {
    hide PrintMembers, MemberLines, Text, One, Glue, Indent, Margin;
    Marks(c.style, depth);
    if ms == [] {
      assert PrintMembers(c, ms, depth + 1, true) == [] by { NothingPrinted(c, depth + 1); }
    } else {
      MembersAreLines(c, ms, depth + 1, true);
      MarginIsIndent(c.style, depth);
      var ls := MemberLines(c, ms, depth + 1);
      TextAppend(c.style, One(depth, "{"), ls);
      TextAppend(c.style, One(depth, "{") + ls, One(depth, "}"));
    }
  }

  lemma PrintFirstMember(c: Settings, ms: seq<Member>, depth: nat, first: bool)
    requires c.style.Pretty? && ms != []
    ensures PrintMembers(c, ms, depth, first) ==
            Separator(first) + NameGap(c.style, depth) +
            (QuotedText(ms[0].name, c.target).text + (COLON + SPACE) + Print(c, ms[0].value, depth)) +
            (if |ms| == 1 then [] else PrintMembers(c, ms[1..], depth, false))
  {
    hide Print, Separator, NameGap, QuotedText;
    if |ms| == 1 { assert ms[1..] == []; }
    var lead, name, w := Separator(first) + NameGap(c.style, depth), QuotedText(ms[0].name, c.target).text,
                         Print(c, ms[0].value, depth);
    InTwo(lead, name, COLON, SPACE, w);
  }

  lemma InTwo(lead: bytes, name: bytes, a: bytes, b: bytes, w: bytes)
    ensures lead + name + a + b + w == lead + (name + (a + b) + w)
  {
  }

  /** The lines of one member. */
  lemma {:induction false} MemberIsLines(c: Settings, m: Member, depth: nat)
    requires c.style.Pretty?
    ensures var name := QuotedText(m.name, c.target).text;
            Text(c.style, Glue(Glue([Line(depth, name)], One(depth, ": ")), Lines(c, m.value, depth))) ==
              name + (COLON + SPACE) + Print(c, m.value, depth)
    decreases m, 3
  {
    hide Print, Lines, Text, One, Glue, QuotedText;
    var name := QuotedText(m.name, c.target).text;
    PrintIsLines(c, m.value, depth);
    Marks(c.style, depth);
    OneLine(c.style, depth, name);
    TextGlue(c.style, [Line(depth, name)], One(depth, ": "));
    TextGlue(c.style, Glue([Line(depth, name)], One(depth, ": ")), Lines(c, m.value, depth));
  }

  lemma {:induction false} MembersAreLines(c: Settings, ms: seq<Member>, depth: nat, first: bool)
    requires c.style.Pretty? && ms != []
    ensures PrintMembers(c, ms, depth, first) ==
            Separator(first) + (NEWLINE + Margin(c.style, depth)) + Text(c.style, MemberLines(c, ms, depth))
    decreases ms, 2
  {
    hide Print, PrintMembers, Lines, Text, One, Glue, Indent, Margin, QuotedText, Separator;
    PrintFirstMember(c, ms, depth, first);
    MemberIsLines(c, ms[0], depth);
    MarginIsIndent(c.style, depth);
    var name := [Line(depth, QuotedText(ms[0].name, c.target).text)];
    var one := Glue(Glue(name, One(depth, ": ")), Lines(c, ms[0].value, depth));
    if |ms| > 1 {
      MembersAreLines(c, ms[1..], depth, false);
      Continues(c.style, depth, one, MemberLines(c, ms[1..], depth),
                Separator(first) + (NEWLINE + Margin(c.style, depth)));
    }
  }

  // ----- without layout -----

  /** The text of a tree with nothing between its tokens. */
  function Flat(c: Settings, v: Value): bytes
    decreases v, 1
  {
    match v
    case VNull => Ascii("null")
    case VBool(b) => Ascii(if b then "true" else "false")
    case VInt(n) => IntText(n)
    case VDouble(l) => c.dtoa(l)
    case VString(s) => QuotedText(s, c.target).text
    case VArray(es) => Ascii("[") + FlatElements(c, es) + Ascii("]")
    case VObject(ms) => Ascii("{") + FlatMembers(c, ms) + Ascii("}")
  }

  function FlatElements(c: Settings, es: seq<Value>): bytes
    decreases es, 0
  {
    if es == [] then [] else if |es| == 1 then Flat(c, es[0])
      else Flat(c, es[0]) + Ascii(",") + FlatElements(c, es[1..])
  }

  function FlatMembers(c: Settings, ms: seq<Member>): bytes
    decreases ms, 0
  {
    if ms == [] then []
    else
      var one := QuotedText(ms[0].name, c.target).text + Ascii(":") + Flat(c, ms[0].value);
      if |ms| == 1 then one else one + Ascii(",") + FlatMembers(c, ms[1..])
  }

  lemma FlatMarks()
    ensures Ascii("null") == ['n' as int, 'u' as int, 'l' as int, 'l' as int]
    ensures Ascii("true") == ['t' as int, 'r' as int, 'u' as int, 'e' as int]
    ensures Ascii("false") == ['f' as int, 'a' as int, 'l' as int, 's' as int, 'e' as int]
    ensures Ascii("[") == ['[' as int] && Ascii("]") == [']' as int]
    ensures Ascii("{") == ['{' as int] && Ascii("}") == ['}' as int]
    ensures Ascii(",") == COMMA && Ascii(":") == COLON
  {
  }

  /** The Writer puts nothing between the tokens. */
  lemma {:induction false} PrintIsFlat(c: Settings, v: Value, depth: nat)
    requires c.style.Compact?
    ensures Print(c, v, depth) == Flat(c, v)
    decreases v, 1
  {
    FlatMarks();
    hide Ascii, IntText, QuotedText, PrintElements, PrintMembers, FlatElements, FlatMembers;
    if v.VArray? {
      ElementsAreFlat(c, v.elements, depth + 1, true);
    } else if v.VObject? {
      MembersAreFlat(c, v.members, depth + 1, true);
    }
  }

  lemma {:induction false} ElementsAreFlat(c: Settings, es: seq<Value>, depth: nat, first: bool)
    requires c.style.Compact?
    ensures PrintElements(c, es, depth, first) == (if es == [] then [] else Separator(first)) + FlatElements(c, es)
    decreases es, 0
  {
    FlatMarks();
    hide Ascii, Print, Flat;
    if es != [] {
      PrintIsFlat(c, es[0], depth);
      ElementsAreFlat(c, es[1..], depth, false);
    }
  }

  lemma {:induction false} MembersAreFlat(c: Settings, ms: seq<Member>, depth: nat, first: bool)
    requires c.style.Compact?
    ensures PrintMembers(c, ms, depth, first) == (if ms == [] then [] else Separator(first)) + FlatMembers(c, ms)
    decreases ms, 0
  {
    hide Print, Flat, QuotedText;
    if ms != [] {
      PrintIsFlat(c, ms[0].value, depth);
      MembersAreFlat(c, ms[1..], depth, false);
      FirstFlat(c, ms, depth, first);
    }
  }

  lemma FirstFlat(c: Settings, ms: seq<Member>, depth: nat, first: bool)
    requires c.style.Compact? && ms != [] && Print(c, ms[0].value, depth) == Flat(c, ms[0].value)
    requires PrintMembers(c, ms[1..], depth, false) == (if |ms| == 1 then [] else COMMA) + FlatMembers(c, ms[1..])
    ensures PrintMembers(c, ms, depth, first) == Separator(first) + FlatMembers(c, ms)
  {
    hide *;
    var name, w := QuotedText(ms[0].name, c.target).text, Print(c, ms[0].value, depth);
    PrintedMember(c, ms, depth, first);
    FlatMember(c, ms);
    Regroup(Separator(first), name + COLON + w, if |ms| == 1 then [] else COMMA, FlatMembers(c, ms[1..]));
  }

  lemma PrintedMember(c: Settings, ms: seq<Member>, depth: nat, first: bool)
    requires c.style.Compact? && ms != []
    ensures PrintMembers(c, ms, depth, first) ==
            Separator(first) + (QuotedText(ms[0].name, c.target).text + COLON + Print(c, ms[0].value, depth)) +
            PrintMembers(c, ms[1..], depth, false)
  {
    hide Print, QuotedText, Separator;
    var lead, name, w := Separator(first), QuotedText(ms[0].name, c.target).text, Print(c, ms[0].value, depth);
    assert lead + NameGap(c.style, depth) == lead;
    InTwo(lead, name, COLON, ValueGap(c.style), w);
    assert COLON + ValueGap(c.style) == COLON;
  }

  lemma FlatMember(c: Settings, ms: seq<Member>)
    requires ms != []
    ensures FlatMembers(c, ms) == (QuotedText(ms[0].name, c.target).text + COLON + Flat(c, ms[0].value)) +
            (if |ms| == 1 then [] else COMMA) + FlatMembers(c, ms[1..])
  {
    FlatMarks();
    hide Ascii, Flat, QuotedText;
    if |ms| == 1 { assert ms[1..] == []; }
  }
}
