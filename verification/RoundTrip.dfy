/** Reading undoes writing: the reader, with its real string and number parsers, takes the text
    of a tree apart into the events of that tree. */
module RoundTrip {
  import opened Json
  import opened Counts
  import opened WriterStrings
  import E = Encodings
  import S = Strings
  import N = Numbers
  import W = Writer
  import R = Reader

  // ----- the reader's scalar parsers -----

  /** ParseString of the text from the quote at p. */
  function ReadString(text: bytes, p: nat, validate: bool): Option<(nat, bytes)> {
    if p >= |text| then None
    else
      var d := S.DecodeString(text, p + 1, validate);
      if d.Done? then Some((d.next, d.str)) else None
  }

  function ReadNumber(text: bytes, p: nat, tooBig: bytes -> bool): Option<(nat, Event)> {
    var r := N.ReadNumber(text, p, tooBig);
    if r.Number? then Some((r.next, r.event)) else None
  }

  /** A reader with the parsers of Strings and Numbers. */
  ghost predicate Concrete(c: R.Config, validate: bool, tooBig: bytes -> bool) {
    && (forall p: nat :: c.parseString(p) == ReadString(c.text, p, validate))
    && (forall p: nat :: c.parseNumber(p) == ReadNumber(c.text, p, tooBig))
  }

  function Config(text: bytes, flags: R.Flags, validate: bool, tooBig: bytes -> bool,
                  accepts: seq<Event> -> bool): R.Config {
    R.Config(text, flags, (p: nat) => ReadString(text, p, validate), (p: nat) => ReadNumber(text, p, tooBig), accepts)
  }

  lemma ConfigIsConcrete(text: bytes, flags: R.Flags, validate: bool, tooBig: bytes -> bool,
                         accepts: seq<Event> -> bool)
    ensures Concrete(Config(text, flags, validate, tooBig, accepts), validate, tooBig)
  {
  }

  lemma NumberInside(text: bytes, p: nat, tooBig: bytes -> bool)
    requires ReadNumber(text, p, tooBig).Some?
    ensures p < ReadNumber(text, p, tooBig).value.0 <= |text|
    ensures p < |text| && (N.IsMinusOrDigit(text[p]))
  {
    hide N.ExpFrac, N.IntegerEvent, N.Shift, N.Val;
  }

  /** These parsers are proper: they read something and stay inside the text. */
  lemma ConcreteIsProper(c: R.Config, validate: bool, tooBig: bytes -> bool)
    requires Concrete(c, validate, tooBig)
    ensures R.Proper(c)
  {
    forall p: nat | c.parseString(p).Some?
      ensures p < c.parseString(p).value.0 <= |c.text|
    {
      S.DecodeStringBounds(c.text, p + 1, validate);
    }
    forall p: nat | c.parseNumber(p).Some?
      ensures p < c.parseNumber(p).value.0 <= |c.text| && !R.StartsNoValue(R.Peek(c, p))
    {
      hide ReadNumber;
      NumberInside(c.text, p, tooBig);
    }
  }

  // ----- gaps -----

  predicate AllSpace(g: bytes) { forall i :: 0 <= i < |g| ==> R.IsSpace(g[i]) }

  /** Neither whitespace nor the start of a comment. */
  predicate Solid(b: byte) { !R.IsSpace(b) && b != '/' as int }

  lemma {:induction false} SkipSpaces(c: R.Config, p: nat, n: nat)
    requires p + n <= |c.text| && !R.IsSpace(R.Peek(c, p + n))
    requires forall i :: p <= i < p + n ==> R.IsSpace(c.text[i])
    ensures R.SkipWhitespace(c, p) == p + n
    decreases n
  {
    if n > 0 { SkipSpaces(c, p + 1, n - 1); }
  }

  lemma SkipGap(c: R.Config, p: nat, g: bytes)
    requires E.HasAt(c.text, p, g) && AllSpace(g) && Solid(R.Peek(c, p + |g|))
    ensures p <= |c.text| && R.Skip(c, p) == R.Skipped(p + |g|, true)
  {
    forall i | p <= i < p + |g|
      ensures R.IsSpace(c.text[i])
    {
      HasByte(c.text, p, g, i - p);
    }
    SkipSpaces(c, p, |g|);
  }

  lemma GapsAreSpace(style: W.Style, depth: nat, inArray: bool, flag: bool)
    requires W.ProperStyle(style)
    ensures AllSpace(W.ElementGap(style, depth, flag)) && AllSpace(W.NameGap(style, depth))
    ensures AllSpace(W.ValueGap(style)) && AllSpace(W.EndGap(style, depth, inArray, flag))
  {
  }

  // ----- values -----

  /** The domain: no doubles; for a reader that validates, well-formed strings. */
  predicate Plain(v: Value, validate: bool) {
    match v
    case VDouble(_) => false
    case VString(s) => validate ==> E.WellFormed(s, 0)
    case VArray(es) => PlainElements(es, validate)
    case VObject(ms) => PlainMembers(ms, validate)
    case _ => true
  }

  predicate PlainElements(es: seq<Value>, validate: bool) {
    es == [] || (Plain(es[0], validate) && PlainElements(es[1..], validate))
  }

  predicate PlainMembers(ms: seq<Member>, validate: bool) {
    ms == [] ||
    ((validate ==> E.WellFormed(ms[0].name, 0)) && Plain(ms[0].value, validate) && PlainMembers(ms[1..], validate))
  }

  /** A reader with the real scalar parsers and a handler that goes on. */
  ghost predicate Ready(c: R.Config, s: W.Settings, validate: bool, tooBig: bytes -> bool) {
    Concrete(c, validate, tooBig) && (forall t :: c.accepts(t)) && W.ProperStyle(s.style)
  }

  lemma ReadyIsProper(c: R.Config, s: W.Settings, validate: bool, tooBig: bytes -> bool)
    requires Ready(c, s, validate, tooBig)
    ensures R.Proper(c) && forall t :: c.accepts(t)
  {
    ConcreteIsProper(c, validate, tooBig);
  }

  /** What starts a value is no whitespace, no comment and no closing bracket. */
  lemma PrintStarts(s: W.Settings, v: Value, depth: nat, validate: bool)
    requires Plain(v, validate)
    ensures var w := W.Print(s, v, depth);
            |w| > 0 && Solid(w[0]) && w[0] != ']' as int && w[0] != '}' as int && w[0] != 0
  {
    if v.VInt? { StartsInteger(v.value); }
    hide W.PrintElements, W.PrintMembers, W.EndGap, W.StringText;
  }

  lemma StartsInteger(n: int)
    ensures var w := Decimal.IntText(n);
            |w| > 0 && (Decimal.IsDigit(w[0]) || w[0] == '-' as int)
  {
    if n >= 0 { Decimal.DigitsRoundTrip(n); }
  }

  // ----- scalars -----

  lemma KeywordBack(c: R.Config, p: nat, trace: seq<Event>, word: bytes, e: Event)
    requires word != [] && E.HasAt(c.text, p, word) && (forall t :: c.accepts(t))
    ensures R.ParseKeyword(c, p, trace, word, e) == R.Ok(p + |word|, trace + [e])
  {
  }

  lemma StringBack(c: R.Config, s: W.Settings, validate: bool, tooBig: bytes -> bool, str: bytes, p: nat,
                   trace: seq<Event>, isKey: bool)
    requires Ready(c, s, validate, tooBig) && R.Proper(c)
    requires W.QuotedText(str, s.target).ok && (validate ==> E.WellFormed(str, 0))
    requires E.HasAt(c.text, p, W.QuotedText(str, s.target).text)
    ensures R.Peek(c, p) == W.QUOTE
    ensures R.ParseString(c, p, trace, isKey) ==
            R.Ok(p + |W.QuotedText(str, s.target).text|, trace + [if isKey then Key(str) else String(str)])
  {
    hide S.DecodeString, W.QuotedText;
    QuotedBack(str, s.target, c.text, p, validate);
  }

  lemma NumberBack(c: R.Config, s: W.Settings, validate: bool, tooBig: bytes -> bool, n: integer, p: nat,
                   trace: seq<Event>)
    requires Ready(c, s, validate, tooBig) && R.Proper(c)
    requires E.HasAt(c.text, p, Decimal.IntText(n)) && EndsNumber(R.Peek(c, p + |Decimal.IntText(n)|))
    ensures R.ParseNumber(c, p, trace) == R.Ok(p + |Decimal.IntText(n)|, trace + [Integer(ReadKind(n), n)])
  {
    hide N.ReadNumber, Decimal.IntText;
    IntegerBack(c.text, p, n, tooBig);
  }

  /** The text of v stands at p, and what follows does not continue a number. */
  ghost predicate Printed(c: R.Config, s: W.Settings, v: Value, depth: nat, p: nat) {
    E.HasAt(c.text, p, W.Print(s, v, depth)) && EndsNumber(R.Peek(c, p + |W.Print(s, v, depth)|))
  }

  lemma {:induction false} ReadScalar(c: R.Config, s: W.Settings, validate: bool, tooBig: bytes -> bool,
                                      v: Value, depth: nat, p: nat, trace: seq<Event>)
    requires Ready(c, s, validate, tooBig) && R.Proper(c) && Plain(v, validate) && W.Writable(v, s.target)
    requires !v.VArray? && !v.VObject? && Printed(c, s, v, depth, p)
    ensures p <= |c.text| &&
            R.ParseValue(c, p, trace) == R.Ok(p + |W.Print(s, v, depth)|, trace + Reported(v, ReadKind))
  {
    hide W.QuotedText, R.ParseKeyword, R.ParseString, R.ParseNumber, R.ParseObject, R.ParseArray, Decimal.IntText,
         Ready, R.Proper;
    ReadyStyle(c, s, validate, tooBig);
    HasByte(c.text, p, W.Print(s, v, depth), 0) by { PrintStarts(s, v, depth, validate); }
    if v.VString? {
      StringBack(c, s, validate, tooBig, v.str, p, trace, false);
    } else if v.VInt? {
      StartsInteger(v.value);
      NumberBack(c, s, validate, tooBig, v.value, p, trace);
    } else if v.VNull? {
      KeywordBack(c, p, trace, R.NULL_TEXT, Null);
    } else if v.VBool? {
      KeywordBack(c, p, trace, if v.b then R.TRUE_TEXT else R.FALSE_TEXT, Bool(v.b));
    }
  }

  // ----- arrays -----

  /** What follows an element: the other elements, a gap and the bracket. */
  function ElementsTail(s: W.Settings, es: seq<Value>, depth: nat, gap: bytes): bytes {
    W.PrintElements(s, es, depth, false) + gap + [']' as int]
  }

  lemma ElementsTailMore(s: W.Settings, es: seq<Value>, depth: nat, gap: bytes)
    requires es != []
    ensures ElementsTail(s, es, depth, gap) ==
            W.COMMA + W.ElementGap(s.style, depth, false) +
            (W.Print(s, es[0], depth) + ElementsTail(s, es[1..], depth, gap))
  {
    hide W.Print, W.ElementGap;
  }

  /** A text behind a gap: the gap is skipped, and the text's first character stands there. */
  lemma SkipTo(c: R.Config, p: nat, gap: bytes, w: bytes)
    requires E.HasAt(c.text, p, gap + w) && AllSpace(gap) && |w| > 0 && Solid(w[0])
    ensures p <= |c.text| && R.Skip(c, p) == R.Skipped(p + |gap|, true)
    ensures E.HasAt(c.text, p + |gap|, w) && R.Peek(c, p + |gap|) == w[0] && p + |gap| < |c.text|
  {
    HasSplit(c.text, p, gap, w);
    HasByte(c.text, p + |gap|, w, 0);
    SkipGap(c, p, gap);
  }

  /** What follows an element in the text does not continue a number. */
  lemma TailEndsNumber(c: R.Config, s: W.Settings, es: seq<Value>, depth: nat, gap: bytes, p: nat)
    requires AllSpace(gap) && E.HasAt(c.text, p, ElementsTail(s, es, depth, gap))
    ensures EndsNumber(R.Peek(c, p))
  {
    var w := ElementsTail(s, es, depth, gap);
    HasByte(c.text, p, w, 0);
    if es != [] {
      ElementsTailMore(s, es, depth, gap);
    } else {
      assert w == gap + [']' as int];
    }
  }

  /** The counters wrap around like the count. */
  lemma CountUp(count: nat)
    ensures R.Inc(Low(count)) == Low(count + 1)
  {
  }

  lemma ElementEventsStep(trace: seq<Event>, es: seq<Value>)
    requires es != []
    ensures trace + Reported(es[0], ReadKind) + ReportedElements(es[1..], ReadKind) ==
            trace + ReportedElements(es, ReadKind)
  {
    hide Reported;
  }

  /** The loop of ParseArray from the element at p on. */
  lemma {:induction false} ReadElements(c: R.Config, s: W.Settings, validate: bool, tooBig: bytes -> bool,
                                        es: seq<Value>, depth: nat, gap: bytes, p: nat, trace: seq<Event>, count: nat)
    requires Ready(c, s, validate, tooBig) && R.Proper(c) && PlainElements(es, validate) &&
             W.ElementsWritable(es, s.target)
    requires es != [] && AllSpace(gap)
    requires E.HasAt(c.text, p, W.Print(s, es[0], depth) + ElementsTail(s, es[1..], depth, gap))
    ensures p <= |c.text|
    ensures R.ParseElements(c, p, trace, Low(count)) ==
            R.Ok(p + |W.Print(s, es[0], depth)| + |ElementsTail(s, es[1..], depth, gap)|,
                 trace + ReportedElements(es, ReadKind) + [EndArray(Low(count + |es|))])
    decreases es, 0
  {
    hide W.Print, W.ElementGap, ElementsTail, Reported, Plain, W.Writable, R.ParseValue, R.Skip, E.HasAt,
         R.AfterElement, Ready, R.Proper, AllSpace;
    var rest := es[1..];
    var first, tail := W.Print(s, es[0], depth), ElementsTail(s, rest, depth, gap);
    HasSplit(c.text, p, first, tail);
    var p1 := p + |first|;
    TailEndsNumber(c, s, rest, depth, gap, p1);
    ReadValue(c, s, validate, tooBig, es[0], depth, p, trace);
    var t1 := trace + Reported(es[0], ReadKind);
    CountUp(count);
    ReadTail(c, s, validate, tooBig, rest, depth, gap, p1, t1, count + 1);
    ElementEventsStep(trace, es);
  }

  /** A comma, a gap and the text behind it. */
  lemma CommaAt(c: R.Config, p: nat, gap: bytes, w: bytes)
    requires E.HasAt(c.text, p, W.COMMA + gap + w) && AllSpace(gap) && |w| > 0 && Solid(w[0])
    ensures p < |c.text| && R.Peek(c, p) == ',' as int && R.Skip(c, p) == R.Skipped(p, true)
    ensures R.Skip(c, p + 1) == R.Skipped(p + 1 + |gap|, true)
    ensures E.HasAt(c.text, p + 1 + |gap|, w) && R.Peek(c, p + 1 + |gap|) == w[0] && p + 1 + |gap| < |c.text|
  {
    hide R.Skip, R.Peek, E.HasAt;
    assert W.COMMA + gap + w == [] + (W.COMMA + (gap + w));
    SkipTo(c, p, [], W.COMMA + (gap + w));
    HasSplit(c.text, p, W.COMMA, gap + w);
    SkipTo(c, p + 1, gap, w);
  }

  /** From the end of an element on. */
  lemma {:induction false} ReadTail(c: R.Config, s: W.Settings, validate: bool, tooBig: bytes -> bool,
                                    es: seq<Value>, depth: nat, gap: bytes, p: nat, trace: seq<Event>, count: nat)
    requires Ready(c, s, validate, tooBig) && R.Proper(c) && PlainElements(es, validate) &&
             W.ElementsWritable(es, s.target)
    requires AllSpace(gap)
    requires E.HasAt(c.text, p, ElementsTail(s, es, depth, gap))
    ensures p <= |c.text| && R.Skip(c, p).ok
    ensures R.AfterElement(c, R.Skip(c, p).pos, trace, Low(count)) ==
            R.Ok(p + |ElementsTail(s, es, depth, gap)|,
                 trace + ReportedElements(es, ReadKind) + [EndArray(Low(count + |es|))])
    decreases es, 1
  {
    hide W.Print, W.ElementGap, Reported, Plain, W.Writable, R.Skip, E.HasAt, R.ParseElements, R.Peek, Ready, AllSpace,
         Solid, R.Proper;
    ReadyStyle(c, s, validate, tooBig);
    if es == [] {
      ReadTailEnd(c, s, depth, gap, p, trace, count);
      assert trace + [] + [EndArray(Low(count))] == trace + [EndArray(Low(count))];
    } else {
      ElementsTailMore(s, es, depth, gap);
      hide ElementsTail;
      var g := W.ElementGap(s.style, depth, false);
      var w := W.Print(s, es[0], depth) + ElementsTail(s, es[1..], depth, gap);
      PrintStarts(s, es[0], depth, validate) by { assert Plain(es[0], validate); }
      GapsAreSpace(s.style, depth, true, false);
      CommaAt(c, p, g, w);
      ReadElements(c, s, validate, tooBig, es, depth, gap, p + 1 + |g|, trace, count);
    }
  }

  lemma ReadTailEnd(c: R.Config, s: W.Settings, depth: nat, gap: bytes, p: nat, trace: seq<Event>, count: nat)
    requires R.Proper(c) && (forall t :: c.accepts(t)) && AllSpace(gap)
    requires E.HasAt(c.text, p, ElementsTail(s, [], depth, gap))
    ensures p <= |c.text| && R.Skip(c, p).ok
    ensures R.AfterElement(c, R.Skip(c, p).pos, trace, Low(count)) ==
            R.Ok(p + |ElementsTail(s, [], depth, gap)|, trace + [EndArray(Low(count))])
  {
    hide R.Skip, E.HasAt, R.ParseElements, AllSpace;
    var bracket: bytes := [']' as int];
    assert ElementsTail(s, [], depth, gap) == gap + bracket;
    SkipTo(c, p, gap, bracket);
  }

  lemma ReadyStyle(c: R.Config, s: W.Settings, validate: bool, tooBig: bytes -> bool)
    requires Ready(c, s, validate, tooBig)
    ensures W.ProperStyle(s.style) && forall t :: c.accepts(t)
  {
  }

  /** PrintElements from the first element on. */
  lemma ArrayText(s: W.Settings, es: seq<Value>, depth: nat)
    ensures var gap := W.EndGap(s.style, depth, true, es == []);
            W.Print(s, VArray(es), depth) ==
            ['[' as int] + if es == [] then [']' as int] else
              W.ElementGap(s.style, depth + 1, true) +
              (W.Print(s, es[0], depth + 1) + ElementsTail(s, es[1..], depth + 1, gap))
  {
    hide W.ElementGap;
  }

  /** An opening bracket, a gap and the text behind it. */
  lemma OpenAt(c: R.Config, p: nat, open: byte, gap: bytes, w: bytes)
    requires E.HasAt(c.text, p, [open] + (gap + w)) && AllSpace(gap) && |w| > 0 && Solid(w[0])
    ensures p < |c.text| && R.Peek(c, p) == open
    ensures R.Skip(c, p + 1) == R.Skipped(p + 1 + |gap|, true)
    ensures E.HasAt(c.text, p + 1 + |gap|, w) && R.Peek(c, p + 1 + |gap|) == w[0] && p + 1 + |gap| < |c.text|
  {
    hide R.Skip, R.Peek, E.HasAt;
    HasSplit(c.text, p, [open], gap + w);
    HasByteHere(c, p, [open]);
    SkipTo(c, p + 1, gap, w);
  }

  lemma ReadEmptyArray(c: R.Config, s: W.Settings, depth: nat, p: nat, trace: seq<Event>)
    requires R.Proper(c) && (forall t :: c.accepts(t)) && E.HasAt(c.text, p, W.Print(s, VArray([]), depth))
    ensures p < |c.text| && R.Peek(c, p) == '[' as int
    ensures R.ParseArray(c, p, trace) ==
            R.Ok(p + |W.Print(s, VArray([]), depth)|, trace + Reported(VArray([]), ReadKind))
  {
    hide W.Print, R.Skip, E.HasAt, R.ParseElements, R.Peek;
    ArrayText(s, [], depth);
    var bracket: bytes := [']' as int];
    assert [] + bracket == bracket;
    OpenAt(c, p, '[' as int, [], bracket);
    assert trace + [StartArray] + [EndArray(0)] == trace + ([StartArray] + [] + [EndArray(0)]);
  }

  lemma {:induction false} ReadArray(c: R.Config, s: W.Settings, validate: bool, tooBig: bytes -> bool,
                                     es: seq<Value>, depth: nat, p: nat, trace: seq<Event>)
    requires Ready(c, s, validate, tooBig) && R.Proper(c) && PlainElements(es, validate) &&
             W.ElementsWritable(es, s.target)
    requires E.HasAt(c.text, p, W.Print(s, VArray(es), depth))
    ensures p < |c.text| && R.Peek(c, p) == '[' as int
    ensures R.ParseArray(c, p, trace) ==
            R.Ok(p + |W.Print(s, VArray(es), depth)|, trace + Reported(VArray(es), ReadKind))
    decreases es, 2
  {
    hide W.Print, W.ElementGap, ElementsTail, Plain, W.Writable, R.Skip, E.HasAt, R.ParseElements, W.EndGap, R.Peek,
         Ready, AllSpace, Solid, R.Proper, W.ElementsWritable, ReportedElements;
    ReadyStyle(c, s, validate, tooBig);
    if es == [] {
      ReadEmptyArray(c, s, depth, p, trace);
    } else {
      ArrayText(s, es, depth);
      var gap := W.EndGap(s.style, depth, true, false);
      var g := W.ElementGap(s.style, depth + 1, true);
      var w := W.Print(s, es[0], depth + 1) + ElementsTail(s, es[1..], depth + 1, gap);
      var t := trace + [StartArray];
      GapsAreSpace(s.style, depth + 1, true, true);
      GapsAreSpace(s.style, depth, true, false);
      PrintStarts(s, es[0], depth + 1, validate) by { assert Plain(es[0], validate); }
      OpenAt(c, p, '[' as int, g, w);
      ReadElements(c, s, validate, tooBig, es, depth + 1, gap, p + 1 + |g|, t, 0);
      Enclosed(trace, [StartArray], ReportedElements(es, ReadKind), [EndArray(Low(|es|))]);
    }
  }

  lemma Enclosed(trace: seq<Event>, a: seq<Event>, b: seq<Event>, e: seq<Event>)
    ensures trace + a + b + e == trace + (a + b + e)
  {
  }

  lemma HasByteHere(c: R.Config, p: nat, w: bytes)
    requires E.HasAt(c.text, p, w) && |w| > 0
    ensures p < |c.text| && R.Peek(c, p) == w[0]
  {
    HasByte(c.text, p, w, 0);
  }

  // ----- objects -----

  /** A member's text behind its gap. */
  function MemberText(s: W.Settings, m: Member, depth: nat): bytes {
    W.QuotedText(m.name, s.target).text + (W.COLON + (W.ValueGap(s.style) + W.Print(s, m.value, depth)))
  }

  function MembersTail(s: W.Settings, ms: seq<Member>, depth: nat, gap: bytes): bytes {
    W.PrintMembers(s, ms, depth, false) + gap + ['}' as int]
  }

  lemma MembersTailMore(s: W.Settings, ms: seq<Member>, depth: nat, gap: bytes)
    requires ms != []
    ensures MembersTail(s, ms, depth, gap) ==
            W.COMMA + W.NameGap(s.style, depth) + (MemberText(s, ms[0], depth) + MembersTail(s, ms[1..], depth, gap))
  {
    hide W.Print, W.NameGap, W.ValueGap, W.QuotedText;
  }

  lemma MembersTailEndsNumber(c: R.Config, s: W.Settings, ms: seq<Member>, depth: nat, gap: bytes, p: nat)
    requires AllSpace(gap) && E.HasAt(c.text, p, MembersTail(s, ms, depth, gap))
    ensures EndsNumber(R.Peek(c, p))
  {
    var w := MembersTail(s, ms, depth, gap);
    HasByte(c.text, p, w, 0);
    if ms != [] {
      MembersTailMore(s, ms, depth, gap);
    } else {
      assert w == gap + ['}' as int];
    }
  }

  lemma QuoteStarts(s: W.Settings, m: Member, depth: nat)
    ensures var w := MemberText(s, m, depth); |w| > 0 && w[0] == W.QUOTE
  {
  }

  /** Where the tail of the members leaves the stream in front of a comma or bracket. */
  lemma MembersTailSkips(c: R.Config, s: W.Settings, ms: seq<Member>, depth: nat, gap: bytes, p: nat)
    requires AllSpace(gap) && E.HasAt(c.text, p, MembersTail(s, ms, depth, gap))
    ensures p <= |c.text| && R.Skip(c, p).ok
    ensures R.Skip(c, p).pos == if ms == [] then p + |gap| else p
  {
    if ms == [] {
      assert MembersTail(s, ms, depth, gap) == gap + ['}' as int];
      SkipTo(c, p, gap, ['}' as int]);
    } else {
      MembersTailMore(s, ms, depth, gap);
      var w := MembersTail(s, ms, depth, gap);
      assert w == [] + w;
      SkipTo(c, p, [], w);
    }
  }

  /** Where the parts of a member stand. */
  lemma MemberAt(c: R.Config, s: W.Settings, m: Member, depth: nat, tail: bytes, p: nat, validate: bool)
    requires W.ProperStyle(s.style) && Plain(m.value, validate) && E.HasAt(c.text, p, MemberText(s, m, depth) + tail)
    ensures var name, g, value := W.QuotedText(m.name, s.target).text, W.ValueGap(s.style), W.Print(s, m.value, depth);
            var p1 := p + |name|;
            var p2 := p1 + 1 + |g|;
            && E.HasAt(c.text, p, name)
            && p1 < |c.text| && R.Skip(c, p1) == R.Skipped(p1, true) && R.Peek(c, p1) == ':' as int
            && R.Skip(c, p1 + 1) == R.Skipped(p2, true)
            && E.HasAt(c.text, p2, value) && E.HasAt(c.text, p2 + |value|, tail) &&
               p2 + |value| == p + |MemberText(s, m, depth)|
  {
    hide W.Print, W.ValueGap, Plain, R.Skip, E.HasAt, W.QuotedText, R.Peek, AllSpace, Solid;
    var name, g, value := W.QuotedText(m.name, s.target).text, W.ValueGap(s.style), W.Print(s, m.value, depth);
    HasSplit(c.text, p, MemberText(s, m, depth), tail);
    HasSplit(c.text, p, name, W.COLON + (g + value));
    var p1 := p + |name|;
    ColonAt(c, p1, g + value);
    GapsAreSpace(s.style, depth, true, true);
    PrintStarts(s, m.value, depth, validate);
    SkipTo(c, p1 + 1, g, value);
  }

  lemma ColonAt(c: R.Config, p: nat, rest: bytes)
    requires E.HasAt(c.text, p, W.COLON + rest)
    ensures p < |c.text| && R.Skip(c, p) == R.Skipped(p, true) && R.Peek(c, p) == ':' as int &&
            E.HasAt(c.text, p + 1, rest)
  {
    hide R.Skip, E.HasAt;
    MarksAreSolid();
    assert [] + (W.COLON + rest) == W.COLON + rest;
    SkipTo(c, p, [], W.COLON + rest);
    HasSplit(c.text, p, W.COLON, rest);
  }

  /** One member: its key and its value are delivered, and the gap behind it is skipped. */
  lemma {:induction false} ReadMember(c: R.Config, s: W.Settings, validate: bool, tooBig: bytes -> bool,
                                      m: Member, rest: seq<Member>, depth: nat, gap: bytes, p: nat, trace: seq<Event>)
    requires Ready(c, s, validate, tooBig) && R.Proper(c) && Plain(m.value, validate) && W.Writable(m.value, s.target)
    requires W.QuotedText(m.name, s.target).ok && (validate ==> E.WellFormed(m.name, 0)) && AllSpace(gap)
    requires E.HasAt(c.text, p, MemberText(s, m, depth) + MembersTail(s, rest, depth, gap))
    ensures var p1 := p + |MemberText(s, m, depth)|;
            && p <= |c.text| && p1 <= |c.text|
            && E.HasAt(c.text, p1, MembersTail(s, rest, depth, gap))
            && R.Skip(c, p1).ok
            && R.ParseMember(c, p, trace) ==
               R.Ok(R.Skip(c, p1).pos, trace + ([Key(m.name)] + Reported(m.value, ReadKind)))
    decreases m, 5
  {
    hide W.Print, W.ValueGap, MembersTail, MemberText, Reported, Plain, W.Writable, R.ParseValue, R.ParseString, R.Skip,
         E.HasAt,
         W.QuotedText, R.Peek, Ready, R.Proper, AllSpace, Solid;
    ReadyStyle(c, s, validate, tooBig);
    var tail := MembersTail(s, rest, depth, gap);
    MemberAt(c, s, m, depth, tail, p, validate);
    StringBack(c, s, validate, tooBig, m.name, p, trace, true);
    var t1 := trace + [Key(m.name)];
    var p2 := p + |W.QuotedText(m.name, s.target).text| + 1 + |W.ValueGap(s.style)|;
    MembersTailEndsNumber(c, s, rest, depth, gap, p2 + |W.Print(s, m.value, depth)|);
    ReadValue(c, s, validate, tooBig, m.value, depth, p2, t1);
    MembersTailSkips(c, s, rest, depth, gap, p2 + |W.Print(s, m.value, depth)|);
    Glue(trace, [Key(m.name)], Reported(m.value, ReadKind));
  }

  lemma MemberEventsStep(trace: seq<Event>, ms: seq<Member>)
    requires ms != []
    ensures trace + ([Key(ms[0].name)] + Reported(ms[0].value, ReadKind)) + ReportedMembers(ms[1..], ReadKind) ==
            trace + ReportedMembers(ms, ReadKind)
  {
    hide Reported;
    var own, rest := [Key(ms[0].name)] + Reported(ms[0].value, ReadKind), ReportedMembers(ms[1..], ReadKind);
    assert ReportedMembers(ms, ReadKind) == own + rest;
    hide ReportedMembers;
    Glue(trace, own, rest);
  }

  /** The loop of ParseObject from the member at p on. */
  lemma {:induction false} ReadMembers(c: R.Config, s: W.Settings, validate: bool, tooBig: bytes -> bool,
                                       ms: seq<Member>, depth: nat, gap: bytes, p: nat, trace: seq<Event>, count: nat)
    requires Ready(c, s, validate, tooBig) && R.Proper(c) && PlainMembers(ms, validate) &&
             W.MembersWritable(ms, s.target)
    requires ms != [] && AllSpace(gap)
    requires E.HasAt(c.text, p, MemberText(s, ms[0], depth) + MembersTail(s, ms[1..], depth, gap))
    ensures p <= |c.text|
    ensures R.ParseMembers(c, p, trace, Low(count)) ==
            R.Ok(p + |MemberText(s, ms[0], depth)| + |MembersTail(s, ms[1..], depth, gap)|,
                 trace + ReportedMembers(ms, ReadKind) + [EndObject(Low(count + |ms|))])
    decreases ms, 0
  {
    hide MemberText, MembersTail, Reported, Plain, W.Writable, R.ParseMember, R.Skip, E.HasAt, R.AfterMember, Ready,
         R.Proper, AllSpace;
    var rest := ms[1..];
    ReadMember(c, s, validate, tooBig, ms[0], rest, depth, gap, p, trace);
    var p1 := p + |MemberText(s, ms[0], depth)|;
    var own := [Key(ms[0].name)] + Reported(ms[0].value, ReadKind);
    var t1 := trace + own;
    CountUp(count);
    ReadMembersTail(c, s, validate, tooBig, rest, depth, gap, p1, t1, count + 1);
    MemberEventsStep(trace, ms);
    hide ReportedMembers;
  }

  lemma {:induction false} ReadMembersTail(c: R.Config, s: W.Settings, validate: bool, tooBig: bytes -> bool,
                                           ms: seq<Member>, depth: nat, gap: bytes, p: nat, trace: seq<Event>,
                                           count: nat)
    requires Ready(c, s, validate, tooBig) && R.Proper(c) && PlainMembers(ms, validate) &&
             W.MembersWritable(ms, s.target)
    requires AllSpace(gap)
    requires E.HasAt(c.text, p, MembersTail(s, ms, depth, gap))
    ensures p <= |c.text| && R.Skip(c, p).ok
    ensures R.AfterMember(c, R.Skip(c, p).pos, trace, Low(count)) ==
            R.Ok(p + |MembersTail(s, ms, depth, gap)|,
                 trace + ReportedMembers(ms, ReadKind) + [EndObject(Low(count + |ms|))])
    decreases ms, 1
  {
    hide MemberText, W.NameGap, Reported, Plain, W.Writable, R.Skip, E.HasAt, R.ParseMembers, R.Peek, Ready, AllSpace,
         Solid, R.Proper;
    ReadyStyle(c, s, validate, tooBig);
    if ms == [] {
      ReadMembersEnd(c, s, depth, gap, p, trace, count);
      assert trace + [] + [EndObject(Low(count))] == trace + [EndObject(Low(count))];
    } else {
      MembersTailMore(s, ms, depth, gap);
      hide MembersTail;
      var g := W.NameGap(s.style, depth);
      var w := MemberText(s, ms[0], depth) + MembersTail(s, ms[1..], depth, gap);
      QuoteStarts(s, ms[0], depth);
      GapsAreSpace(s.style, depth, true, false);
      CommaAt(c, p, g, w) by { MarksAreSolid(); }
      ReadMembers(c, s, validate, tooBig, ms, depth, gap, p + 1 + |g|, trace, count);
    }
  }

  lemma MarksAreSolid()
    ensures Solid(W.QUOTE) && Solid(':' as int) && AllSpace([])
  {
  }

  lemma ReadMembersEnd(c: R.Config, s: W.Settings, depth: nat, gap: bytes, p: nat, trace: seq<Event>, count: nat)
    requires R.Proper(c) && (forall t :: c.accepts(t)) && AllSpace(gap)
    requires E.HasAt(c.text, p, MembersTail(s, [], depth, gap))
    ensures p <= |c.text| && R.Skip(c, p).ok
    ensures R.AfterMember(c, R.Skip(c, p).pos, trace, Low(count)) ==
            R.Ok(p + |MembersTail(s, [], depth, gap)|, trace + [EndObject(Low(count))])
  {
    hide R.Skip, E.HasAt, R.ParseMembers, AllSpace;
    var bracket: bytes := ['}' as int];
    assert MembersTail(s, [], depth, gap) == gap + bracket;
    SkipTo(c, p, gap, bracket);
  }

  lemma ObjectText(s: W.Settings, ms: seq<Member>, depth: nat)
    ensures var gap := W.EndGap(s.style, depth, false, ms == []);
            W.Print(s, VObject(ms), depth) ==
            ['{' as int] + if ms == [] then ['}' as int] else
              W.NameGap(s.style, depth + 1) +
              (MemberText(s, ms[0], depth + 1) + MembersTail(s, ms[1..], depth + 1, gap))
  {
    hide W.NameGap, W.ValueGap, W.QuotedText;
    if ms != [] { hide W.EndGap; }
  }

  lemma ReadEmptyObject(c: R.Config, s: W.Settings, depth: nat, p: nat, trace: seq<Event>)
    requires R.Proper(c) && (forall t :: c.accepts(t)) && E.HasAt(c.text, p, W.Print(s, VObject([]), depth))
    ensures p < |c.text| && R.Peek(c, p) == '{' as int
    ensures R.ParseObject(c, p, trace) ==
            R.Ok(p + |W.Print(s, VObject([]), depth)|, trace + Reported(VObject([]), ReadKind))
  {
    hide W.Print, R.Skip, E.HasAt, R.ParseMembers, R.Peek;
    ObjectText(s, [], depth);
    var bracket: bytes := ['}' as int];
    assert [] + bracket == bracket;
    OpenAt(c, p, '{' as int, [], bracket);
    assert trace + [StartObject] + [EndObject(0)] == trace + ([StartObject] + [] + [EndObject(0)]);
  }

  lemma {:induction false} ReadObject(c: R.Config, s: W.Settings, validate: bool, tooBig: bytes -> bool,
                                      ms: seq<Member>, depth: nat, p: nat, trace: seq<Event>)
    requires Ready(c, s, validate, tooBig) && R.Proper(c) && PlainMembers(ms, validate) &&
             W.MembersWritable(ms, s.target)
    requires E.HasAt(c.text, p, W.Print(s, VObject(ms), depth))
    ensures p < |c.text| && R.Peek(c, p) == '{' as int
    ensures R.ParseObject(c, p, trace) ==
            R.Ok(p + |W.Print(s, VObject(ms), depth)|, trace + Reported(VObject(ms), ReadKind))
    decreases ms, 2
  {
    hide W.Print, W.NameGap, MemberText, MembersTail, PlainMembers, W.MembersWritable, R.Skip, E.HasAt, R.ParseMembers,
         W.EndGap,
         R.Peek, Ready, AllSpace, R.Proper, ReportedMembers;
    ReadyStyle(c, s, validate, tooBig);
    if ms == [] {
      ReadEmptyObject(c, s, depth, p, trace);
    } else {
      ObjectText(s, ms, depth);
      var gap := W.EndGap(s.style, depth, false, false);
      var g := W.NameGap(s.style, depth + 1);
      var w := MemberText(s, ms[0], depth + 1) + MembersTail(s, ms[1..], depth + 1, gap);
      var t := trace + [StartObject];
      GapsAreSpace(s.style, depth + 1, true, true);
      GapsAreSpace(s.style, depth, false, false);
      QuoteStarts(s, ms[0], depth + 1);
      OpenAt(c, p, '{' as int, g, w);
      ReadMembers(c, s, validate, tooBig, ms, depth + 1, gap, p + 1 + |g|, t, 0);
      Enclosed(trace, [StartObject], ReportedMembers(ms, ReadKind), [EndObject(Low(|ms|))]);
    }
  }

  // ----- whole texts -----

  /** The recursive parser reads the text of a value as the events of that value, its counts in 32 bits. */
  lemma {:induction false} ReadValue(c: R.Config, s: W.Settings, validate: bool, tooBig: bytes -> bool,
                                     v: Value, depth: nat, p: nat, trace: seq<Event>)
    requires Ready(c, s, validate, tooBig) && R.Proper(c) && Plain(v, validate) && W.Writable(v, s.target)
    requires Printed(c, s, v, depth, p)
    ensures p <= |c.text| &&
            R.ParseValue(c, p, trace) == R.Ok(p + |W.Print(s, v, depth)|, trace + Reported(v, ReadKind))
    decreases v, 3
  {
    if !v.VArray? && !v.VObject? {
      ReadScalar(c, s, validate, tooBig, v, depth, p, trace);
    } else {
      hide W.Print, R.ParseArray, R.ParseObject, Reported, Ready;
      if v.VArray? {
        ReadArray(c, s, validate, tooBig, v.elements, depth, p, trace);
      } else {
        ReadObject(c, s, validate, tooBig, v.members, depth, p, trace);
      }
    }
  }

  /** For every tree without doubles, whatever the style, the target encoding and the parse flags:
      the reader accepts the text the writer prints and reports exactly the events of the tree, its
      counts in 32 bits. */
  lemma ReadingUndoesWriting(v: Value, s: W.Settings, flags: R.Flags, validate: bool, tooBig: bytes -> bool)
    requires W.ProperStyle(s.style) && Plain(v, validate) && W.Writable(v, s.target)
    ensures var c := Config(W.Print(s, v, 0), flags, validate, tooBig, _ => true);
            R.Proper(c) && R.Parse(c) == R.Ok(|c.text|, Reported(v, ReadKind))
  {
    var c := Config(W.Print(s, v, 0), flags, validate, tooBig, _ => true);
    ConfigIsConcrete(c.text, flags, validate, tooBig, _ => true);
    assert c.text == W.Print(s, v, 0) && forall t :: c.accepts(t);
    ReadText(c, v, s, validate, tooBig);
  }

  lemma ReadText(c: R.Config, v: Value, s: W.Settings, validate: bool, tooBig: bytes -> bool)
    requires Ready(c, s, validate, tooBig) && Plain(v, validate) && W.Writable(v, s.target) &&
             c.text == W.Print(s, v, 0)
    ensures R.Proper(c) && R.Parse(c) == R.Ok(|c.text|, Reported(v, ReadKind))
  {
    hide R.ParseValue, W.Print, Reported, R.Skip, Ready, R.Proper, Plain, W.Writable, AllSpace;
    ReadyIsProper(c, s, validate, tooBig);
    PrintStarts(s, v, 0, validate);
    MarksAreSolid();
    assert c.text[0..|c.text|] == c.text;
    assert c.text == [] + c.text;
    SkipTo(c, 0, [], c.text);
    ReadValue(c, s, validate, tooBig, v, 0, 0, []);
    assert [] + Reported(v, ReadKind) == Reported(v, ReadKind);
    SkipAtEnd(c);
  }

  lemma SkipAtEnd(c: R.Config)
    ensures R.Skip(c, |c.text|) == R.Skipped(|c.text|, true)
  {
  }
}
