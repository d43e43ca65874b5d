/** The three parsers of rapidjson/reader.h as functions: the recursive-descent parser,
    the table-driven iterative parser and the pull parser. They share the scalar parsers
    (ParseString, ParseNumber), which are parameters here; Strings and Numbers model them. */
module Reader {
  import opened Json

  datatype Flags = Flags(comments: bool, trailingCommas: bool, stopWhenDone: bool)

  /** One parse: the text, the flags, the scalar parsers and the handler.
      A scalar parser gives the position behind what it read and what it read.
      A handler answers after every event; what it answers may depend on all events so far. */
  datatype Config = Config(
    text: bytes,
    flags: Flags,
    parseString: nat -> Option<(nat, bytes)>,
    parseNumber: nat -> Option<(nat, Event)>,
    accepts: seq<Event> -> bool)

  /** Peek: the code unit at p; the text is followed by a null character. */
  function Peek(c: Config, p: nat): byte { if p < |c.text| then c.text[p] else 0 }

  /** The characters no value starts with: the end of the text, closing brackets, comma and colon. */
  predicate StartsNoValue(b: byte) {
    b == 0 || b == ']' as int || b == '}' as int || b == ',' as int || b == ':' as int
  }

  /** Scalar parsers read something, stay inside the text, and a number starts with none of
      the structural characters nor with the terminating null. */
  ghost predicate Proper(c: Config) {
    && (forall p: nat :: c.parseString(p).Some? ==> p < c.parseString(p).value.0 <= |c.text|)
    && (forall p: nat :: c.parseNumber(p).Some? ==>
          && p < c.parseNumber(p).value.0 <= |c.text|
          && !StartsNoValue(Peek(c, p)))
  }

  /** Where a parse ends. Err carries no position: the parsers report failures differently. */
  datatype Result = Ok(pos: nat, trace: seq<Event>) | Err(trace: seq<Event>)

  function Deliver(c: Config, pos: nat, trace: seq<Event>, e: Event): Result {
    if c.accepts(trace + [e]) then Ok(pos, trace + [e]) else Err(trace + [e])
  }

  // ----- whitespace and comments -----

  datatype Skipped = Skipped(pos: nat, ok: bool)

  predicate IsSpace(b: byte) { b == ' ' as int || b == '\n' as int || b == '\r' as int || b == '\t' as int }

  function SkipWhitespace(c: Config, p: nat): (q: nat)
    requires p <= |c.text|
    ensures p <= q <= |c.text|
    decreases |c.text| - p
  {
    if p < |c.text| && IsSpace(c.text[p]) then SkipWhitespace(c, p + 1) else p
  }

  /** SkipWhitespaceAndComments. A comment error leaves the stream where it was noticed. */
  function Skip(c: Config, p: nat): (r: Skipped)
    requires p <= |c.text|
    ensures p <= r.pos <= |c.text|
  {
    var q := SkipWhitespace(c, p);
    if c.flags.comments then SkipComments(c, q) else Skipped(q, true)
  }

  function SkipComments(c: Config, p: nat): (r: Skipped)
    requires p <= |c.text|
    ensures p <= r.pos <= |c.text|
    decreases |c.text| - p
  {
    if Peek(c, p) != '/' as int then Skipped(p, true)
    else
      var r := Comment(c, p);
      if r.ok then SkipComments(c, SkipWhitespace(c, r.pos)) else r
  }

  /** One comment. */
  function Comment(c: Config, p: nat): (r: Skipped)
    requires p < |c.text|
    ensures p < r.pos <= |c.text|
  {
    if Peek(c, p + 1) == '*' as int then BlockComment(c, p + 2)
    else if Peek(c, p + 1) == '/' as int then Skipped(LineComment(c, p + 2), true)
    else Skipped(p + 1, false)
  }

  /** The rest of a block comment; an unterminated one is an error. */
  function BlockComment(c: Config, p: nat): (r: Skipped)
    requires p <= |c.text|
    ensures p <= r.pos <= |c.text|
    decreases |c.text| - p
  {
    if Peek(c, p) == 0 then Skipped(p, false)
    else if Peek(c, p) == '*' as int && Peek(c, p + 1) == '/' as int then Skipped(p + 2, true)
    else BlockComment(c, p + 1)
  }

  /** The rest of a line comment, with its newline. */
  function LineComment(c: Config, p: nat): (q: nat)
    requires p <= |c.text|
    ensures p <= q <= |c.text|
    decreases |c.text| - p
  {
    if Peek(c, p) == 0 then p
    else if Peek(c, p) == '\n' as int then p + 1
    else LineComment(c, p + 1)
  }

  // ----- the recursive-descent parser -----

  /** ++memberCount and ++elementCount on a 32-bit SizeType. */
  function Inc(count: nat): nat { (count + 1) % 0x1_0000_0000 }

  /** ParseNull, ParseTrue, ParseFalse. */
  function ParseKeyword(c: Config, p: nat, trace: seq<Event>, word: bytes, e: Event): (r: Result)
    requires word != []
    ensures r.Ok? ==> p < r.pos <= |c.text|
  {
    if p + |word| <= |c.text| && c.text[p..p + |word|] == word then Deliver(c, p + |word|, trace, e) else Err(trace)
  }

  /** ParseString and the String or Key event. */
  function ParseString(c: Config, p: nat, trace: seq<Event>, isKey: bool): (r: Result)
    requires Proper(c)
    ensures r.Ok? ==> p < r.pos <= |c.text|
  {
    match c.parseString(p)
    case None => Err(trace)
    case Some((next, s)) => Deliver(c, next, trace, if isKey then Key(s) else String(s))
  }

  function ParseNumber(c: Config, p: nat, trace: seq<Event>): (r: Result)
    requires Proper(c)
    ensures r.Ok? ==> p < r.pos <= |c.text|
  {
    match c.parseNumber(p)
    case None => Err(trace)
    case Some((next, e)) => Deliver(c, next, trace, e)
  }

  const NULL_TEXT: bytes := ['n' as int, 'u' as int, 'l' as int, 'l' as int]
  const TRUE_TEXT: bytes := ['t' as int, 'r' as int, 'u' as int, 'e' as int]
  const FALSE_TEXT: bytes := ['f' as int, 'a' as int, 'l' as int, 's' as int, 'e' as int]

  function ParseValue(c: Config, p: nat, trace: seq<Event>): (r: Result)
    requires Proper(c) && p <= |c.text|
    ensures r.Ok? ==> p < r.pos <= |c.text|
    decreases |c.text| - p, 1
  {
    var b := Peek(c, p);
    if b == 'n' as int then ParseKeyword(c, p, trace, NULL_TEXT, Null)
    else if b == 't' as int then ParseKeyword(c, p, trace, TRUE_TEXT, Bool(true))
    else if b == 'f' as int then ParseKeyword(c, p, trace, FALSE_TEXT, Bool(false))
    else if b == '"' as int then ParseString(c, p, trace, false)
    else if b == '{' as int then ParseObject(c, p, trace)
    else if b == '[' as int then ParseArray(c, p, trace)
    else ParseNumber(c, p, trace)
  }

  function ParseObject(c: Config, p: nat, trace: seq<Event>): (r: Result)
    requires Proper(c) && p < |c.text|
    ensures r.Ok? ==> p < r.pos <= |c.text|
    decreases |c.text| - p, 0
  {
    match Deliver(c, p + 1, trace, StartObject)
    case Err(t) => Err(t)
    case Ok(p1, t) =>
      var s := Skip(c, p1);
      if !s.ok then Err(t)
      else if Peek(c, s.pos) == '}' as int then Deliver(c, s.pos + 1, t, EndObject(0))
      else ParseMembers(c, s.pos, t, 0)
  }

  /** The loop of ParseObject. */
  function ParseMembers(c: Config, p: nat, trace: seq<Event>, memberCount: nat): (r: Result)
    requires Proper(c) && p <= |c.text|
    ensures r.Ok? ==> p < r.pos <= |c.text|
    decreases |c.text| - p, 3
  {
    match ParseMember(c, p, trace)
    case Err(t) => Err(t)
    case Ok(p1, t1) => AfterMember(c, p1, t1, Inc(memberCount))
  }

  /** One member, up to the comma or bracket that follows it. */
  function ParseMember(c: Config, p: nat, trace: seq<Event>): (r: Result)
    requires Proper(c) && p <= |c.text|
    ensures r.Ok? ==> p < r.pos <= |c.text|
    decreases |c.text| - p, 2
  {
    if Peek(c, p) != '"' as int then Err(trace)
    else match ParseString(c, p, trace, true)
      case Err(t) => Err(t)
      case Ok(p1, t1) =>
        var s1 := Skip(c, p1);
        if !s1.ok || Peek(c, s1.pos) != ':' as int then Err(t1)
        else
          var s2 := Skip(c, s1.pos + 1);
          if !s2.ok then Err(t1)
          else match ParseValue(c, s2.pos, t1)
            case Err(t) => Err(t)
            case Ok(p2, t2) =>
              var s3 := Skip(c, p2);
              if !s3.ok then Err(t2) else Ok(s3.pos, t2)
  }

  /** The switch at the end of the member loop. */
  function AfterMember(c: Config, p: nat, trace: seq<Event>, memberCount: nat): (r: Result)
    requires Proper(c) && p <= |c.text|
    ensures r.Ok? ==> p < r.pos <= |c.text|
    decreases |c.text| - p, 0
  {
    if Peek(c, p) == ',' as int then
      var s := Skip(c, p + 1);
      if !s.ok then Err(trace)
      else if c.flags.trailingCommas && Peek(c, s.pos) == '}' as int then
        Deliver(c, s.pos + 1, trace, EndObject(memberCount))
      else ParseMembers(c, s.pos, trace, memberCount)
    else if Peek(c, p) == '}' as int then Deliver(c, p + 1, trace, EndObject(memberCount))
    else Err(trace)
  }

  function ParseArray(c: Config, p: nat, trace: seq<Event>): (r: Result)
    requires Proper(c) && p < |c.text|
    ensures r.Ok? ==> p < r.pos <= |c.text|
    decreases |c.text| - p, 0
  {
    match Deliver(c, p + 1, trace, StartArray)
    case Err(t) => Err(t)
    case Ok(p1, t) =>
      var s := Skip(c, p1);
      if !s.ok then Err(t)
      else if Peek(c, s.pos) == ']' as int then Deliver(c, s.pos + 1, t, EndArray(0))
      else ParseElements(c, s.pos, t, 0)
  }

  /** The loop of ParseArray. */
  function ParseElements(c: Config, p: nat, trace: seq<Event>, elementCount: nat): (r: Result)
    requires Proper(c) && p <= |c.text|
    ensures r.Ok? ==> p < r.pos <= |c.text|
    decreases |c.text| - p, 2
  {
    match ParseValue(c, p, trace)
    case Err(t) => Err(t)
    case Ok(p1, t1) =>
      var s := Skip(c, p1);
      if !s.ok then Err(t1)
      else AfterElement(c, s.pos, t1, Inc(elementCount))
  }

  function AfterElement(c: Config, p: nat, trace: seq<Event>, elementCount: nat): (r: Result)
    requires Proper(c) && p <= |c.text|
    ensures r.Ok? ==> p < r.pos <= |c.text|
    decreases |c.text| - p, 0
  {
    if Peek(c, p) == ',' as int then
      var s := Skip(c, p + 1);
      if !s.ok then Err(trace)
      else if c.flags.trailingCommas && Peek(c, s.pos) == ']' as int then
        Deliver(c, s.pos + 1, trace, EndArray(elementCount))
      else ParseElements(c, s.pos, trace, elementCount)
    else if Peek(c, p) == ']' as int then Deliver(c, p + 1, trace, EndArray(elementCount))
    else Err(trace)
  }

  /** GenericReader::Parse without the iterative flag. */
  function Parse(c: Config): Result
    requires Proper(c)
  {
    var s := Skip(c, 0);
    if !s.ok || Peek(c, s.pos) == 0 then Err([])
    else match ParseValue(c, s.pos, [])
      case Err(t) => Err(t)
      case Ok(p, t) =>
        if c.flags.stopWhenDone then Ok(p, t)
        else
          var s' := Skip(c, p);
          if !s'.ok || Peek(c, s'.pos) != 0 then Err(t) else Ok(s'.pos, t)
  }

  // ----- the iterative parser -----

  datatype State =
    | Finish | Error | Start
    | ObjectInitial | MemberKey | MemberValue | ObjectFinish
    | ArrayInitial | Element | ArrayFinish
    | SingleValue
    | ElementDelimiter | MemberDelimiter | KeyValueDelimiter

  datatype Token =
    | LeftBracket | RightBracket | LeftCurlyBracket | RightCurlyBracket
    | Comma | Colon | StringToken | FalseToken | TrueToken | NullToken | NumberToken

  function Tokenize(b: byte): Token {
    if b == '[' as int then LeftBracket
    else if b == ']' as int then RightBracket
    else if b == '{' as int then LeftCurlyBracket
    else if b == '}' as int then RightCurlyBracket
    else if b == ',' as int then Comma
    else if b == ':' as int then Colon
    else if b == '"' as int then StringToken
    else if b == 'f' as int then FalseToken
    else if b == 't' as int then TrueToken
    else if b == 'n' as int then NullToken
    else NumberToken
  }

  predicate IsScalarToken(t: Token) {
    t.StringToken? || t.FalseToken? || t.TrueToken? || t.NullToken? || t.NumberToken?
  }

  /** The table G of Predict, row by row. */
  function Predict(s: State, t: Token): State {
    match s
    case Start =>
      if t.LeftBracket? then ArrayInitial else if t.LeftCurlyBracket? then ObjectInitial
      else if IsScalarToken(t) then SingleValue else Error
    case ObjectInitial =>
      if t.RightCurlyBracket? then ObjectFinish else if t.StringToken? then MemberKey else Error
    case MemberKey =>
      if t.Colon? then KeyValueDelimiter else Error
    case MemberValue =>
      if t.RightCurlyBracket? then ObjectFinish else if t.Comma? then MemberDelimiter else Error
    case ArrayInitial =>
      if t.LeftBracket? then ArrayInitial else if t.RightBracket? then ArrayFinish
      else if t.LeftCurlyBracket? then ObjectInitial else if IsScalarToken(t) then Element else Error
    case Element =>
      if t.RightBracket? then ArrayFinish else if t.Comma? then ElementDelimiter else Error
    case ElementDelimiter =>
      if t.LeftBracket? then ArrayInitial else if t.RightBracket? then ArrayFinish
      else if t.LeftCurlyBracket? then ObjectInitial else if IsScalarToken(t) then Element else Error
    case MemberDelimiter =>
      if t.RightCurlyBracket? then ObjectFinish else if t.StringToken? then MemberKey else Error
    case KeyValueDelimiter =>
      if t.LeftBracket? then ArrayInitial else if t.LeftCurlyBracket? then ObjectInitial
      else if IsScalarToken(t) then MemberValue else Error
    case _ => Error
  }

  /** stack_: for every open container the state to return to and the count of what has been read. */
  datatype Stack = Empty | Frame(state: State, count: nat, below: Stack)

  /** The iterative parser between two tokens. */
  datatype Iter = Iter(state: State, stack: Stack, pos: nat, trace: seq<Event>)

  predicate InContainer(s: State) {
    !s.Finish? && !s.Error? && !s.Start? && !s.SingleValue? && !s.ObjectFinish? && !s.ArrayFinish?
  }

  /** The outermost container returns to Start, every other to the state behind a value. */
  predicate Returns(s: Stack) {
    match s
    case Empty => true
    case Frame(n, _, Empty) => n == Start
    case Frame(n, _, below) => (n == Element || n == MemberValue) && Returns(below)
  }

  /** A frame is on the stack for every open container. */
  predicate Framed(it: Iter) {
    && Returns(it.stack)
    && (InContainer(it.state) <==> it.stack != Empty)
    && it.state != SingleValue && it.state != ObjectFinish && it.state != ArrayFinish && it.state != Error
  }

  /** Transit's outcome: the next state, or the error state with what was delivered. */
  datatype Moved = Moved(next: Iter) | Stopped(trace: seq<Event>)

  predicate ExpectsValue(s: State) {
    s == Start || s == ArrayInitial || s == ElementDelimiter || s == KeyValueDelimiter
  }

  /** The state a value read in state s leads to (the frame Transit pushes for a container). */
  function After(s: State): State {
    if s == ArrayInitial || s == ElementDelimiter then Element
    else if s == KeyValueDelimiter then MemberValue
    else s
  }

  /** Transit. hasError is parseResult_ before the call: a scalar is followed by a look at it. */
  function Transit(c: Config, it: Iter, dst: State, hasError: bool): (m: Moved)
    requires Proper(c) && Framed(it) && it.pos <= |c.text| && dst == Predict(it.state, Tokenize(Peek(c, it.pos)))
    ensures m.Moved? ==> Framed(m.next) && it.pos < m.next.pos <= |c.text|
  {
    if dst == Error then Stopped(it.trace)
    else if dst == ObjectInitial then Opened(c, it, dst, StartObject)
    else if dst == ArrayInitial then Opened(c, it, dst, StartArray)
    else if dst == MemberKey then
      Scalar(it, dst, if hasError then Err(it.trace) else ParseString(c, it.pos, it.trace, true), hasError)
    else if dst == KeyValueDelimiter then Moved(it.(state := dst, pos := it.pos + 1))
    else if dst == MemberValue || dst == Element then Scalar(it, dst, ScalarValue(c, it, hasError), hasError)
    else if dst == MemberDelimiter || dst == ElementDelimiter then
      Moved(Counted(it).(state := dst, pos := it.pos + 1))
    else if dst == ObjectFinish then
      if !c.flags.trailingCommas && it.state == MemberDelimiter then Stopped(it.trace)
      else Closed(c, if it.state == MemberValue then Counted(it) else it, true)
    else if dst == ArrayFinish then
      if !c.flags.trailingCommas && it.state == ElementDelimiter then Stopped(it.trace)
      else Closed(c, if it.state == Element then Counted(it) else it, false)
    else Scalar(it, Finish, ScalarValue(c, it, hasError), hasError)   // SingleValue
  }

  /** ParseValue on a scalar token. After an earlier error ParseString returns before its event;
      the other scalars are reported all the same. */
  function ScalarValue(c: Config, it: Iter, hasError: bool): Result
    requires Proper(c) && it.pos <= |c.text|
  {
    if hasError && Peek(c, it.pos) == '"' as int then Err(it.trace) else ParseValue(c, it.pos, it.trace)
  }

  function Scalar(it: Iter, next: State, r: Result, hasError: bool): Moved {
    match r
    case Err(t) => Stopped(t)
    case Ok(p, t) => if hasError then Stopped(t) else Moved(it.(state := next, pos := p, trace := t))
  }

  function Opened(c: Config, it: Iter, dst: State, e: Event): (m: Moved)
    requires Framed(it) && InContainer(dst)
    requires ExpectsValue(it.state)
    ensures m.Moved? ==> Framed(m.next) && m.next.pos == it.pos + 1
  {
    match Deliver(c, it.pos + 1, it.trace, e)
    case Err(t) => Stopped(t)
    case Ok(p, t) => Moved(Iter(dst, Frame(After(it.state), 0, it.stack), p, t))
  }

  function Counted(it: Iter): Iter
    requires it.stack.Frame?
  {
    it.(stack := it.stack.(count := Inc(it.stack.count)))
  }

  function Closed(c: Config, it: Iter, isObject: bool): (m: Moved)
    requires Framed(it) && it.stack.Frame?
    ensures m.Moved? ==> Framed(m.next) && m.next.pos == it.pos + 1
  {
    var n := it.stack.count;
    match Deliver(c, it.pos + 1, it.trace, if isObject then EndObject(n) else EndArray(n))
    case Err(t) => Stopped(t)
    case Ok(p, t) => Moved(Iter(if it.stack.state == Start then Finish else it.stack.state, it.stack.below, p, t))
  }

  /** The loop of IterativeParse; blanks before the token are already skipped. */
  function IterativeLoop(c: Config, it: Iter): Result
    requires Proper(c) && Framed(it) && it.pos <= |c.text|
    decreases |c.text| - it.pos, 0
  {
    if Peek(c, it.pos) == 0 then
      if it.state == Finish then Ok(it.pos, it.trace) else Err(it.trace)
    else match Transit(c, it, Predict(it.state, Tokenize(Peek(c, it.pos))), false)
      case Stopped(t) => Err(t)
      case Moved(next) => Continue(c, next)
  }

  /** The end of the loop body: stop when done, or skip to the next token. */
  function Continue(c: Config, it: Iter): Result
    requires Proper(c) && Framed(it) && it.pos <= |c.text|
    decreases |c.text| - it.pos, 1
  {
    if c.flags.stopWhenDone && it.state == Finish then Ok(it.pos, it.trace)
    else
      var s := Skip(c, it.pos);
      if !s.ok then Err(it.trace) else IterativeLoop(c, it.(pos := s.pos))
  }

  function IterativeParse(c: Config): Result
    requires Proper(c)
  {
    var s := Skip(c, 0);
    if !s.ok then Err([]) else IterativeLoop(c, Iter(Start, Empty, s.pos, []))
  }

  // ----- the pull parser -----

  /** The reader between two calls of IterativeParseNext; error is parseResult_. */
  datatype Pull = Pull(it: Iter, error: bool)

  datatype Called = Called(state: Pull, ok: bool)

  predicate IsDelimiter(s: State) { s == ElementDelimiter || s == MemberDelimiter || s == KeyValueDelimiter }

  /** IterativeParseNext. */
  function Next(c: Config, s: Pull): (r: Called)
    requires Proper(c) && Framed(s.it) && s.it.pos <= |c.text|
    ensures Framed(r.state.it) && s.it.pos <= r.state.it.pos <= |c.text|
    ensures r.ok && s.it.state != Finish ==> s.it.pos < r.state.it.pos
    decreases |c.text| - s.it.pos
  {
    var it := s.it;
    if Peek(c, it.pos) == 0 then
      if it.state == Finish then Called(s, true) else Called(s.(error := true), false)
    else
      var k := Skip(c, it.pos);
      var hasError := s.error || !k.ok;
      var at := it.(pos := k.pos);
      var dst := Predict(it.state, Tokenize(Peek(c, k.pos)));
      match Transit(c, at, dst, hasError)
      case Stopped(t) => Called(Pull(at.(trace := t), true), false)
      case Moved(next) =>
        if next.state == Finish then
          if c.flags.stopWhenDone then Called(Pull(next, hasError), true)
          else
            var k' := Skip(c, next.pos);
            var rest := Peek(c, k'.pos) != 0;
            Called(Pull(next.(pos := k'.pos), hasError || !k'.ok || rest), !rest)
        else if IsDelimiter(dst) then Next(c, Pull(next, hasError))
        else Called(Pull(next, hasError), true)
  }

  /** Calling IterativeParseNext until the parse is complete or a call returns false. */
  function PullLoop(c: Config, s: Pull): Result
    requires Proper(c) && Framed(s.it) && s.it.pos <= |c.text|
    decreases |c.text| - s.it.pos
  {
    if s.it.state == Finish then if s.error then Err(s.it.trace) else Ok(s.it.pos, s.it.trace)
    else
      var r := Next(c, s);
      if r.ok then PullLoop(c, r.state) else Err(r.state.it.trace)
  }

  function PullParse(c: Config): Result
    requires Proper(c)
  {
    PullLoop(c, Pull(Iter(Start, Empty, 0, []), false))
  }
}
