/** The language of JSON texts, as sections 2 to 5 of RFC 8259 word it, with the comments and the trailing
    comma that the flags of rapidjson/reader.h add; and Parse accepting exactly that language. */
module ReaderLanguage {
  import opened Json
  import opened Counts
  import opened Reader

  /** What a text denotes, with every scalar as the event it is reported with. */
  datatype Tree = Leaf(scalar: Event) | Elements(elements: seq<Tree>) | Fields(fields: seq<Field>)

  datatype Field = Field(name: bytes, tree: Tree)

  /** The events of a tree; a container ends with the count of its children in 32 bits. */
  function Told(t: Tree): seq<Event> {
    match t
    case Leaf(e) => [e]
    case Elements(ts) => [StartArray] + ToldElements(ts) + [EndArray(Low(|ts|))]
    case Fields(fs) => [StartObject] + ToldFields(fs) + [EndObject(Low(|fs|))]
  }

  function ToldElements(ts: seq<Tree>): seq<Event> {
    if ts == [] then [] else Told(ts[0]) + ToldElements(ts[1..])
  }

  function ToldFields(fs: seq<Field>): seq<Event> {
    if fs == [] then [] else [Key(fs[0].name)] + Told(fs[0].tree) + ToldFields(fs[1..])
  }

  // ----- the grammar -----

  /** The text ends at its last character or at a null character. */
  predicate AtEnd(c: Config, p: nat) { p == |c.text| || (p < |c.text| && c.text[p] == 0) }

  /** The character b stands at p. */
  predicate Has(c: Config, p: nat, b: char) { p < |c.text| && c.text[p] == b as int }

  predicate HasTwo(c: Config, p: nat, a: char, b: char) { Has(c, p, a) && Has(c, p + 1, b) }

  /** The word stands from p to q. */
  predicate HasWord(c: Config, p: nat, q: nat, word: string) {
    q == p + |word| <= |c.text| && forall i :: 0 <= i < |word| ==> c.text[p + i] == word[i] as int
  }

  /** Space, horizontal tab, line feed or carriage return. */
  predicate HasBlank(c: Config, p: nat) {
    p < |c.text| && (c.text[p] == 0x20 || c.text[p] == 0x09 || c.text[p] == 0x0A || c.text[p] == 0x0D)
  }

  predicate NoNull(c: Config, p: nat, q: nat) { q <= |c.text| && forall i :: p <= i < q ==> c.text[i] != 0 }

  /** A comment from a solidus and an asterisk to the first asterisk and solidus behind them. */
  predicate IsBlockComment(c: Config, p: nat, q: nat) {
    && p + 4 <= q <= |c.text| && HasTwo(c, p, '/', '*') && HasTwo(c, q - 2, '*', '/')
    && NoNull(c, p, q) && forall i :: p + 2 <= i < q - 2 ==> !HasTwo(c, i, '*', '/')
  }

  /** A comment from two solidi through the end of the line, or to the end of the text. */
  predicate IsLineComment(c: Config, p: nat, q: nat) {
    && p + 2 <= q <= |c.text| && HasTwo(c, p, '/', '/') && NoNull(c, p, q)
    && ((p + 2 < q && c.text[q - 1] == 0x0A && NoLineFeed(c, p + 2, q - 1)) ||
        (AtEnd(c, q) && NoLineFeed(c, p + 2, q)))
  }

  predicate NoLineFeed(c: Config, p: nat, q: nat)
    requires q <= |c.text|
  {
    forall i :: p <= i < q ==> c.text[i] != 0x0A
  }

  predicate IsComment(c: Config, p: nat, q: nat) { IsBlockComment(c, p, q) || IsLineComment(c, p, q) }

  /** Blanks from p to q, and comments if the flag allows them. */
  ghost predicate Blanks(c: Config, p: nat, q: nat)
    decreases |c.text| - p
  {
    || p == q
    || (HasBlank(c, p) && Blanks(c, p + 1, q))
    || (c.flags.comments && exists m: nat :: p < m <= |c.text| && IsComment(c, p, m) && Blanks(c, m, q))
  }

  /** A string, a number or one of the three literal names. */
  ghost predicate IsScalar(c: Config, p: nat, q: nat, e: Event) {
    || (HasWord(c, p, q, "null") && e == Null)
    || (HasWord(c, p, q, "true") && e == Bool(true))
    || (HasWord(c, p, q, "false") && e == Bool(false))
    || (Has(c, p, '"') && e.String? && c.parseString(p) == Some((q, e.str)))
    || (StartsNumber(c, p) && c.parseNumber(p) == Some((q, e)))
  }

  predicate StartsNumber(c: Config, p: nat) {
    p < |c.text| && (c.text[p] == '-' as int || '0' as int <= c.text[p] <= '9' as int)
  }

  /** A value from p to q. */
  ghost predicate IsValue(c: Config, p: nat, q: nat, t: Tree)
    decreases t, 0
  {
    p < q <= |c.text| &&
    match t
    case Leaf(e) => IsScalar(c, p, q, e)
    case Elements(ts) => Has(c, p, '[') && Has(c, q - 1, ']') && AreElements(c, p + 1, q - 1, ts)
    case Fields(fs) => Has(c, p, '{') && Has(c, q - 1, '}') && AreFields(c, p + 1, q - 1, fs)
  }

  /** What stands between the brackets of an array. */
  ghost predicate AreElements(c: Config, p: nat, q: nat, ts: seq<Tree>)
    decreases ts, 2
  {
    if ts == [] then Blanks(c, p, q) else exists a: nat :: Blanks(c, p, a) && Listed(c, a, q, ts)
  }

  /** Values with a comma behind each but the last, and behind the last one too if the flag allows it. */
  ghost predicate Listed(c: Config, p: nat, q: nat, ts: seq<Tree>)
    requires ts != []
    decreases ts, 1
  {
    exists b: nat, d: nat :: IsValue(c, p, b, ts[0]) && Blanks(c, b, d) &&
      if |ts| == 1 then EndsList(c, d, q)
      else Has(c, d, ',') && exists a: nat :: Blanks(c, d + 1, a) && Listed(c, a, q, ts[1..])
  }

  /** Behind the last child. */
  ghost predicate EndsList(c: Config, p: nat, q: nat) {
    p == q || (c.flags.trailingCommas && Has(c, p, ',') && Blanks(c, p + 1, q))
  }

  ghost predicate AreFields(c: Config, p: nat, q: nat, fs: seq<Field>)
    decreases fs, 2
  {
    if fs == [] then Blanks(c, p, q) else exists a: nat :: Blanks(c, p, a) && Joined(c, a, q, fs)
  }

  ghost predicate Joined(c: Config, p: nat, q: nat, fs: seq<Field>)
    requires fs != []
    decreases fs, 1
  {
    exists b: nat, d: nat :: IsField(c, p, b, fs[0]) && Blanks(c, b, d) &&
      if |fs| == 1 then EndsList(c, d, q)
      else Has(c, d, ',') && exists a: nat :: Blanks(c, d + 1, a) && Joined(c, a, q, fs[1..])
  }

  /** A name, a colon and a value. */
  ghost predicate IsField(c: Config, p: nat, q: nat, f: Field)
    decreases f, 0
  {
    Has(c, p, '"') &&
    exists a: nat, d: nat, e: nat :: c.parseString(p) == Some((a, f.name)) && Blanks(c, a, d) &&
      Has(c, d, ':') && Blanks(c, d + 1, e) && IsValue(c, e, q, f.tree)
  }

  /** A whole text: one value with blanks around it. A parse that stops when done ends behind the value. */
  ghost predicate IsText(c: Config, q: nat, t: Tree) {
    exists a: nat, b: nat :: Blanks(c, 0, a) && IsValue(c, a, b, t) &&
      if c.flags.stopWhenDone then q == b else Blanks(c, b, q) && AtEnd(c, q)
  }

  /** Scalar parsers that take no number without a minus sign or a digit in front. */
  ghost predicate Scalars(c: Config) {
    Proper(c) && forall p: nat :: c.parseNumber(p).Some? ==> StartsNumber(c, p)
  }

  // ----- blanks and comments -----

  lemma {:induction false} BlockExactly(c: Config, p: nat, q: nat)
    requires p <= |c.text|
    ensures BlockComment(c, p) == Skipped(q, true) <==>
            && p + 2 <= q <= |c.text| && HasTwo(c, q - 2, '*', '/') && NoNull(c, p, q)
            && forall i :: p <= i < q - 2 ==> !HasTwo(c, i, '*', '/')
    decreases |c.text| - p
  {
    if Peek(c, p) != 0 && !(Peek(c, p) == '*' as int && Peek(c, p + 1) == '/' as int) {
      BlockExactly(c, p + 1, q);
      assert !HasTwo(c, p, '*', '/');
    } else if Peek(c, p) != 0 {
      assert HasTwo(c, p, '*', '/');
    }
  }

  lemma {:induction false} LineExactly(c: Config, p: nat, q: nat)
    requires p <= |c.text|
    ensures LineComment(c, p) == q <==>
            && p <= q <= |c.text| && NoNull(c, p, q)
            && ((p < q && c.text[q - 1] == 0x0A && NoLineFeed(c, p, q - 1)) || (AtEnd(c, q) && NoLineFeed(c, p, q)))
    decreases |c.text| - p
  {
    if Peek(c, p) != 0 && Peek(c, p) != '\n' as int { LineExactly(c, p + 1, q); }
  }

  lemma CommentExactly(c: Config, p: nat, q: nat)
    requires Has(c, p, '/')
    ensures Comment(c, p) == Skipped(q, true) <==> IsComment(c, p, q)
  {
    if Has(c, p + 1, '*') {
      BlockExactly(c, p + 2, q);
      assert HasTwo(c, p, '/', '*');
    } else if Has(c, p + 1, '/') {
      LineExactly(c, p + 2, q);
      assert HasTwo(c, p, '/', '/');
    }
  }

  lemma CommentStarts(c: Config, p: nat, q: nat)
    requires IsComment(c, p, q)
    ensures Has(c, p, '/') && p < q <= |c.text|
  {
  }

  /** Neither a blank nor the start of a comment: what blanks end before. */
  predicate Solid(c: Config, p: nat) { p <= |c.text| && !HasBlank(c, p) && !Has(c, p, '/') }

  lemma {:induction false} SkipIsBlanks(c: Config, p: nat)
    requires p <= |c.text| && Skip(c, p).ok
    ensures Blanks(c, p, Skip(c, p).pos)
    decreases |c.text| - p
  {
    if HasBlank(c, p) {
      SkipIsBlanks(c, p + 1);
    } else if c.flags.comments && Has(c, p, '/') {
      var m := Comment(c, p).pos;
      CommentExactly(c, p, m);
      SkipIsBlanks(c, m);
    }
  }

  lemma {:induction false} BlanksAreSkipped(c: Config, p: nat, q: nat)
    requires p <= |c.text| && Blanks(c, p, q) && Solid(c, q)
    ensures Skip(c, p) == Skipped(q, true)
    decreases |c.text| - p
  {
    if p == q {
    } else if HasBlank(c, p) && Blanks(c, p + 1, q) {
      BlanksAreSkipped(c, p + 1, q);
    } else {
      var m: nat :| p < m <= |c.text| && IsComment(c, p, m) && Blanks(c, m, q);
      CommentStarts(c, p, m);
      CommentExactly(c, p, m);
      BlanksAreSkipped(c, m, q);
    }
  }

  lemma {:induction false} BlanksInside(c: Config, p: nat, q: nat)
    requires p <= |c.text| && Blanks(c, p, q)
    ensures p <= q <= |c.text|
    decreases |c.text| - p
  {
    if p != q && HasBlank(c, p) && Blanks(c, p + 1, q) {
      BlanksInside(c, p + 1, q);
    } else if p != q {
      var m: nat :| p < m <= |c.text| && IsComment(c, p, m) && Blanks(c, m, q);
      BlanksInside(c, m, q);
    }
  }

  // ----- every text of the language is accepted -----

  /** The handler lets the parse go on after every event. */
  ghost predicate GoesOn(c: Config) { Scalars(c) && forall w: seq<Event> :: c.accepts(w) }

  lemma WordRead(c: Config, p: nat, q: nat, trace: seq<Event>, word: string, key: bytes, e: Event)
    requires GoesOn(c) && HasWord(c, p, q, word) && key != []
    requires |key| == |word| && forall i :: 0 <= i < |word| ==> key[i] == word[i] as int
    ensures ParseKeyword(c, p, trace, key, e) == Ok(q, trace + [e])
  {
    assert forall i :: 0 <= i < |word| ==> c.text[p..q][i] == c.text[p + i];
  }

  lemma ScalarRead(c: Config, p: nat, q: nat, e: Event, trace: seq<Event>)
    requires GoesOn(c) && p <= |c.text| && IsScalar(c, p, q, e)
    ensures ParseValue(c, p, trace) == Ok(q, trace + [e])
  {
    hide ParseKeyword;
    if HasWord(c, p, q, "null") && e == Null {
      assert c.text[p + 0] == "null"[0] as int;
      WordRead(c, p, q, trace, "null", NULL_TEXT, Null);
    } else if HasWord(c, p, q, "true") && e == Bool(true) {
      assert c.text[p + 0] == "true"[0] as int;
      WordRead(c, p, q, trace, "true", TRUE_TEXT, Bool(true));
    } else if HasWord(c, p, q, "false") && e == Bool(false) {
      assert c.text[p + 0] == "false"[0] as int;
      WordRead(c, p, q, trace, "false", FALSE_TEXT, Bool(false));
    }
  }

  /** A value begins with no blank, solidus, comma or closing bracket. */
  predicate Begins(c: Config, p: nat) { Solid(c, p) && !StartsNoValue(Peek(c, p)) }

  lemma ScalarBegins(c: Config, p: nat, q: nat, e: Event)
    requires IsScalar(c, p, q, e)
    ensures Begins(c, p)
  {
    assert HasWord(c, p, q, "null") ==> c.text[p + 0] == "null"[0] as int;
    assert HasWord(c, p, q, "true") ==> c.text[p + 0] == "true"[0] as int;
    assert HasWord(c, p, q, "false") ==> c.text[p + 0] == "false"[0] as int;
  }

  lemma ValueBegins(c: Config, p: nat, q: nat, t: Tree)
    requires IsValue(c, p, q, t)
    ensures p < q <= |c.text| && Begins(c, p)
  {
    hide IsScalar, AreElements, AreFields;
    if t.Leaf? { ScalarBegins(c, p, q, t.scalar); }
  }

  lemma {:induction false} ValueRead(c: Config, p: nat, q: nat, t: Tree, trace: seq<Event>)
    requires GoesOn(c) && IsValue(c, p, q, t)
    ensures p <= |c.text| && ParseValue(c, p, trace) == Ok(q, trace + Told(t))
    decreases t, 0
  {
    hide IsScalar, AreElements, AreFields, ParseElements, ParseMembers, Skip, ToldElements, ToldFields;
    match t
    case Leaf(e) => ScalarRead(c, p, q, e, trace);
    case Elements(ts) => ArrayRead(c, p, q, ts, trace);
    case Fields(fs) => ObjectRead(c, p, q, fs, trace);
  }

  lemma {:induction false} ArrayRead(c: Config, p: nat, q: nat, ts: seq<Tree>, trace: seq<Event>)
    requires GoesOn(c) && p < q <= |c.text| && Has(c, q - 1, ']') && AreElements(c, p + 1, q - 1, ts)
    ensures ParseArray(c, p, trace) ==
            Ok(q, trace + ([StartArray] + ToldElements(ts) + [EndArray(Low(|ts|))]))
    decreases ts, 2
  {
    hide Listed, ParseElements, Blanks, Skip, Told;
    var t := trace + [StartArray];
    if ts == [] {
      BlanksAreSkipped(c, p + 1, q - 1);
      assert t + [EndArray(0)] == trace + ([StartArray] + [] + [EndArray(0)]);
    } else {
      var a: nat :| Blanks(c, p + 1, a) && Listed(c, a, q - 1, ts);
      ListedRead(c, a, q - 1, ts, t, 0);
      BlanksAreSkipped(c, p + 1, a);
      assert t + ToldElements(ts) + [EndArray(Low(|ts|))] ==
             trace + ([StartArray] + ToldElements(ts) + [EndArray(Low(|ts|))]);
    }
  }

  lemma MarkIsSolid(c: Config, p: nat, mark: char)
    requires Has(c, p, mark) && mark != ' ' && mark != '\t' && mark != '\n' && mark != '\r' && mark != '/'
    ensures Solid(c, p) && p < |c.text|
  {
  }

  lemma ListedParts(c: Config, p: nat, q: nat, ts: seq<Tree>) returns (b: nat, d: nat, a: nat)
    requires ts != [] && Listed(c, p, q, ts) && Solid(c, q)
    ensures IsValue(c, p, b, ts[0]) && Blanks(c, b, d) && Solid(c, d)
    ensures if |ts| == 1 then EndsList(c, d, q) else Has(c, d, ',') && Blanks(c, d + 1, a) && Listed(c, a, q, ts[1..])
  {
    hide IsValue, Blanks;
    b, d :| IsValue(c, p, b, ts[0]) && Blanks(c, b, d) &&
      if |ts| == 1 then EndsList(c, d, q)
      else Has(c, d, ',') && exists a: nat :: Blanks(c, d + 1, a) && Listed(c, a, q, ts[1..]);
    a := 0;
    if |ts| > 1 { a :| Blanks(c, d + 1, a) && Listed(c, a, q, ts[1..]); }
  }

  lemma {:induction false} ListedRead(c: Config, p: nat, q: nat, ts: seq<Tree>, trace: seq<Event>, n: nat)
    requires GoesOn(c) && Has(c, q, ']') && ts != [] && Listed(c, p, q, ts)
    ensures Begins(c, p)
    ensures ParseElements(c, p, trace, Low(n)) ==
            Ok(q + 1, trace + ToldElements(ts) + [EndArray(Low(n + |ts|))])
    decreases ts, 1
  {
    hide *;
    MarkIsSolid(c, q, ']');
    var b, d, a := ListedParts(c, p, q, ts);
    ValueBegins(c, p, b, ts[0]);
    ValueRead(c, p, b, ts[0], trace);
    var t1, m := trace + Told(ts[0]), n + 1;
    ElementThen(c, p, b, d, trace, t1, n);
    if |ts| == 1 {
      ListEndRead(c, d, q, t1, m);
      ToldFirst(ts);
    } else {
      ListedRead(c, a, q, ts[1..], t1, m);
      AfterElementMore(c, d, a, t1, m);
      ToldFirst(ts);
      assert t1 + ToldElements(ts[1..]) == trace + ToldElements(ts);
    }
  }

  lemma ToldFirst(ts: seq<Tree>)
    requires ts != []
    ensures ToldElements(ts) == Told(ts[0]) + ToldElements(ts[1..])
    ensures |ts| == 1 ==> ToldElements(ts) == Told(ts[0])
  {
    if |ts| == 1 { assert ts[1..] == []; }
    hide Told;
  }

  lemma ElementThen(c: Config, p: nat, b: nat, d: nat, trace: seq<Event>, t1: seq<Event>, n: nat)
    requires GoesOn(c) && p <= |c.text| && b <= |c.text| && Blanks(c, b, d) && Solid(c, d)
    requires ParseValue(c, p, trace) == Ok(b, t1)
    ensures ParseElements(c, p, trace, Low(n)) == AfterElement(c, d, t1, Low(n + 1))
  {
    hide ParseValue, Blanks, Skip, AfterElement, Solid;
    BlanksAreSkipped(c, b, d);
    assert Inc(Low(n)) == Low(n + 1);
  }

  lemma AfterElementMore(c: Config, d: nat, a: nat, trace: seq<Event>, m: nat)
    requires GoesOn(c) && Has(c, d, ',') && Blanks(c, d + 1, a) && Begins(c, a)
    ensures AfterElement(c, d, trace, Low(m)) == ParseElements(c, a, trace, Low(m))
  {
    BlanksAreSkipped(c, d + 1, a);
    hide Skip, ParseElements;
  }

  lemma ListEndRead(c: Config, d: nat, q: nat, trace: seq<Event>, m: nat)
    requires GoesOn(c) && Has(c, q, ']') && Solid(c, d) && EndsList(c, d, q)
    ensures AfterElement(c, d, trace, Low(m)) == Ok(q + 1, trace + [EndArray(Low(m))])
  {
    hide Skip, ParseElements, Blanks;
    if d != q { BlanksAreSkipped(c, d + 1, q); }
  }

  lemma {:induction false} ObjectRead(c: Config, p: nat, q: nat, fs: seq<Field>, trace: seq<Event>)
    requires GoesOn(c) && p < q <= |c.text| && Has(c, q - 1, '}') && AreFields(c, p + 1, q - 1, fs)
    ensures ParseObject(c, p, trace) ==
            Ok(q, trace + ([StartObject] + ToldFields(fs) + [EndObject(Low(|fs|))]))
    decreases fs, 2
  {
    hide Joined, ParseMembers, Blanks, Skip, Told;
    var t := trace + [StartObject];
    if fs == [] {
      BlanksAreSkipped(c, p + 1, q - 1);
      assert t + [EndObject(0)] == trace + ([StartObject] + [] + [EndObject(0)]);
    } else {
      var a: nat :| Blanks(c, p + 1, a) && Joined(c, a, q - 1, fs);
      JoinedRead(c, a, q - 1, fs, t, 0);
      BlanksAreSkipped(c, p + 1, a);
      assert t + ToldFields(fs) + [EndObject(Low(|fs|))] ==
             trace + ([StartObject] + ToldFields(fs) + [EndObject(Low(|fs|))]);
    }
  }

  lemma JoinedParts(c: Config, p: nat, q: nat, fs: seq<Field>) returns (b: nat, d: nat, a: nat)
    requires fs != [] && Joined(c, p, q, fs) && Solid(c, q)
    ensures IsField(c, p, b, fs[0]) && Blanks(c, b, d) && Solid(c, d)
    ensures if |fs| == 1 then EndsList(c, d, q) else Has(c, d, ',') && Blanks(c, d + 1, a) && Joined(c, a, q, fs[1..])
  {
    hide IsField, Blanks;
    b, d :| IsField(c, p, b, fs[0]) && Blanks(c, b, d) &&
      if |fs| == 1 then EndsList(c, d, q)
      else Has(c, d, ',') && exists a: nat :: Blanks(c, d + 1, a) && Joined(c, a, q, fs[1..]);
    a := 0;
    if |fs| > 1 { a :| Blanks(c, d + 1, a) && Joined(c, a, q, fs[1..]); }
  }

  lemma {:induction false} JoinedRead(c: Config, p: nat, q: nat, fs: seq<Field>, trace: seq<Event>, n: nat)
    requires GoesOn(c) && Has(c, q, '}') && fs != [] && Joined(c, p, q, fs)
    ensures Has(c, p, '"')
    ensures ParseMembers(c, p, trace, Low(n)) ==
            Ok(q + 1, trace + ToldFields(fs) + [EndObject(Low(n + |fs|))])
    decreases fs, 1
  {
    hide *;
    MarkIsSolid(c, q, '}');
    var b, d, a := JoinedParts(c, p, q, fs);
    FieldRead(c, p, b, d, fs[0], trace);
    var t1, m := trace + ([Key(fs[0].name)] + Told(fs[0].tree)), n + 1;
    MarkIsSolid(c, p, '"');
    FieldThen(c, p, d, trace, t1, n);
    if |fs| == 1 {
      FieldsEndRead(c, d, q, t1, m);
      ToldFirstField(fs);
    } else {
      JoinedRead(c, a, q, fs[1..], t1, m);
      AfterMemberMore(c, d, a, t1, m);
      ToldFirstField(fs);
      assert t1 + ToldFields(fs[1..]) == trace + ToldFields(fs);
    }
  }

  lemma ToldFirstField(fs: seq<Field>)
    requires fs != []
    ensures ToldFields(fs) == [Key(fs[0].name)] + Told(fs[0].tree) + ToldFields(fs[1..])
    ensures |fs| == 1 ==> ToldFields(fs) == [Key(fs[0].name)] + Told(fs[0].tree)
  {
    if |fs| == 1 { assert fs[1..] == []; }
    hide Told;
  }

  lemma FieldThen(c: Config, p: nat, d: nat, trace: seq<Event>, t1: seq<Event>, n: nat)
    requires GoesOn(c) && p <= |c.text| && ParseMember(c, p, trace) == Ok(d, t1)
    ensures ParseMembers(c, p, trace, Low(n)) == AfterMember(c, d, t1, Low(n + 1))
  {
    hide ParseMember, AfterMember;
    assert Inc(Low(n)) == Low(n + 1);
  }

  lemma AfterMemberMore(c: Config, d: nat, a: nat, trace: seq<Event>, m: nat)
    requires GoesOn(c) && Has(c, d, ',') && Blanks(c, d + 1, a) && Has(c, a, '"')
    ensures AfterMember(c, d, trace, Low(m)) == ParseMembers(c, a, trace, Low(m))
  {
    BlanksAreSkipped(c, d + 1, a);
    hide Skip, ParseMembers;
  }

  lemma FieldsEndRead(c: Config, d: nat, q: nat, trace: seq<Event>, m: nat)
    requires GoesOn(c) && Has(c, q, '}') && Solid(c, d) && EndsList(c, d, q)
    ensures AfterMember(c, d, trace, Low(m)) == Ok(q + 1, trace + [EndObject(Low(m))])
  {
    hide Skip, ParseMembers, Blanks;
    if d != q { BlanksAreSkipped(c, d + 1, q); }
  }

  lemma {:induction false} FieldRead(c: Config, p: nat, b: nat, q: nat, f: Field, trace: seq<Event>)
    requires GoesOn(c) && IsField(c, p, b, f) && Blanks(c, b, q) && Solid(c, q)
    ensures Has(c, p, '"')
    ensures ParseMember(c, p, trace) == Ok(q, trace + ([Key(f.name)] + Told(f.tree)))
    decreases f, 0
  {
    hide *;
    var a, d, e := FieldParts(c, p, b, f);
    var t := trace + [Key(f.name)];
    ValueBegins(c, e, b, f.tree);
    ValueRead(c, e, b, f.tree, t);
    MemberThen(c, p, a, d, e, b, q, f.name, trace, t + Told(f.tree));
    assert t + Told(f.tree) == trace + ([Key(f.name)] + Told(f.tree));
  }

  lemma FieldParts(c: Config, p: nat, b: nat, f: Field) returns (a: nat, d: nat, e: nat)
    requires IsField(c, p, b, f)
    ensures Has(c, p, '"') && c.parseString(p) == Some((a, f.name)) && Blanks(c, a, d)
    ensures Has(c, d, ':') && Blanks(c, d + 1, e) && IsValue(c, e, b, f.tree)
  {
    hide IsValue, Blanks;
    a, d, e :| c.parseString(p) == Some((a, f.name)) && Blanks(c, a, d) &&
      Has(c, d, ':') && Blanks(c, d + 1, e) && IsValue(c, e, b, f.tree);
  }

  lemma MemberThen(c: Config, p: nat, a: nat, d: nat, e: nat, b: nat, q: nat, name: bytes, trace: seq<Event>,
                   t: seq<Event>)
    requires GoesOn(c) && Has(c, p, '"') && c.parseString(p) == Some((a, name)) && Blanks(c, a, d)
    requires Has(c, d, ':') && Blanks(c, d + 1, e) && Begins(c, e) && b <= |c.text| && Blanks(c, b, q) && Solid(c, q)
    requires ParseValue(c, e, trace + [Key(name)]) == Ok(b, t)
    ensures ParseMember(c, p, trace) == Ok(q, t)
  {
    hide ParseValue, Blanks, Skip;
    BlanksAreSkipped(c, a, d);
    BlanksAreSkipped(c, d + 1, e);
    BlanksAreSkipped(c, b, q);
  }

  // ----- every accepted text is in the language -----

  lemma WordSpelled(c: Config, p: nat, trace: seq<Event>, word: string, key: bytes, e: Event)
    requires key != [] && ParseKeyword(c, p, trace, key, e).Ok?
    requires |key| == |word| && forall i :: 0 <= i < |word| ==> key[i] == word[i] as int
    ensures HasWord(c, p, p + |word|, word) && ParseKeyword(c, p, trace, key, e) == Ok(p + |word|, trace + [e])
  {
    var w := c.text[p..p + |word|];
    assert forall i :: 0 <= i < |word| ==> w[i] == c.text[p + i];
  }

  lemma ScalarSpelled(c: Config, p: nat, trace: seq<Event>) returns (e: Event)
    requires Scalars(c) && p <= |c.text| && ParseValue(c, p, trace).Ok? && !Has(c, p, '[') && !Has(c, p, '{')
    ensures var r := ParseValue(c, p, trace);
            p < r.pos <= |c.text| && IsScalar(c, p, r.pos, e) && r.trace == trace + [e]
  {
    hide ParseKeyword;
    if Has(c, p, 'n') {
      WordSpelled(c, p, trace, "null", NULL_TEXT, Null);
      e := Null;
    } else if Has(c, p, 't') {
      WordSpelled(c, p, trace, "true", TRUE_TEXT, Bool(true));
      e := Bool(true);
    } else if Has(c, p, 'f') {
      WordSpelled(c, p, trace, "false", FALSE_TEXT, Bool(false));
      e := Bool(false);
    } else if Has(c, p, '"') {
      e := String(c.parseString(p).value.1);
    } else {
      e := c.parseNumber(p).value.1;
    }
  }

  lemma {:induction false} ValueSpelled(c: Config, p: nat, trace: seq<Event>) returns (t: Tree)
    requires Scalars(c) && p <= |c.text| && ParseValue(c, p, trace).Ok?
    ensures var r := ParseValue(c, p, trace); IsValue(c, p, r.pos, t) && r.trace == trace + Told(t)
    decreases |c.text| - p, 1
  {
    hide IsScalar, AreElements, AreFields, ParseArray, ParseObject, ParseKeyword, ParseString, ParseNumber, Skip;
    if Has(c, p, '[') {
      var ts := ArraySpelled(c, p, trace);
      t := Elements(ts);
    } else if Has(c, p, '{') {
      var fs := ObjectSpelled(c, p, trace);
      t := Fields(fs);
    } else {
      hide ParseValue;
      var e := ScalarSpelled(c, p, trace);
      t := Leaf(e);
    }
  }

  lemma {:induction false} ArraySpelled(c: Config, p: nat, trace: seq<Event>) returns (ts: seq<Tree>)
    requires Scalars(c) && p < |c.text| && ParseArray(c, p, trace).Ok?
    ensures var r := ParseArray(c, p, trace);
            p + 1 < r.pos && Has(c, r.pos - 1, ']') && AreElements(c, p + 1, r.pos - 1, ts) &&
            r.trace == trace + ([StartArray] + ToldElements(ts) + [EndArray(Low(|ts|))])
    decreases |c.text| - p, 0
  {
    hide Listed, ParseElements, Blanks, Skip, Told;
    var t, a := trace + [StartArray], Skip(c, p + 1).pos;
    SkipIsBlanks(c, p + 1);
    ts := [];
    if Peek(c, a) != ']' as int { ts := ElementsSpelled(c, a, t, 0); }
    assert t + ToldElements(ts) + [EndArray(Low(|ts|))] ==
           trace + ([StartArray] + ToldElements(ts) + [EndArray(Low(|ts|))]);
  }

  lemma {:induction false} ElementsSpelled(c: Config, p: nat, trace: seq<Event>, n: nat) returns (ts: seq<Tree>)
    requires Scalars(c) && p <= |c.text| && ParseElements(c, p, trace, Low(n)).Ok?
    ensures var r := ParseElements(c, p, trace, Low(n));
            p < r.pos && Has(c, r.pos - 1, ']') && ts != [] && Listed(c, p, r.pos - 1, ts) &&
            r.trace == trace + ToldElements(ts) + [EndArray(Low(n + |ts|))]
    decreases |c.text| - p, 2
  {
    hide ParseValue, Blanks, Skip, Told, AfterElement, IsValue, ToldElements, Listed, Scalars;
    assert Proper(c) by { ScalarsAreProper(c); }
    hide Proper;
    var t := ValueSpelled(c, p, trace);
    var r1 := ParseValue(c, p, trace);
    var d := Skip(c, r1.pos).pos;
    SkipIsBlanks(c, r1.pos);
    assert Inc(Low(n)) == Low(n + 1);
    var rest := MoreSpelled(c, d, r1.trace, n + 1);
    var q := ParseElements(c, p, trace, Low(n)).pos - 1;
    ts := [t] + rest;
    assert ts[1..] == rest;
    ListedIf(c, p, r1.pos, d, q, ts);
    ToldFirst(ts);
    assert trace + Told(t) + ToldElements(rest) == trace + ToldElements(ts);
  }

  lemma ScalarsAreProper(c: Config)
    requires Scalars(c)
    ensures Proper(c)
  {
  }

  lemma ListedIf(c: Config, p: nat, b: nat, d: nat, q: nat, ts: seq<Tree>)
    requires ts != [] && IsValue(c, p, b, ts[0]) && Blanks(c, b, d)
    requires if |ts| == 1 then EndsList(c, d, q) else IsMore(c, d, q, ts[1..])
    ensures Listed(c, p, q, ts)
  {
    hide IsValue, Blanks;
  }

  /** A comma and further elements. */
  ghost predicate IsMore(c: Config, d: nat, q: nat, ts: seq<Tree>)
    requires ts != []
  {
    Has(c, d, ',') && exists a: nat :: Blanks(c, d + 1, a) && Listed(c, a, q, ts)
  }

  lemma {:induction false} MoreSpelled(c: Config, d: nat, trace: seq<Event>, n: nat) returns (ts: seq<Tree>)
    requires Scalars(c) && d <= |c.text| && AfterElement(c, d, trace, Low(n)).Ok?
    ensures var r := AfterElement(c, d, trace, Low(n));
            d < r.pos && Has(c, r.pos - 1, ']') &&
            (if ts == [] then EndsList(c, d, r.pos - 1) else IsMore(c, d, r.pos - 1, ts)) &&
            r.trace == trace + ToldElements(ts) + [EndArray(Low(n + |ts|))]
    decreases |c.text| - d, 0
  {
    hide ParseElements, Blanks, Skip, Told, Listed;
    ts := [];
    assert trace + [] == trace;
    if Has(c, d, ',') {
      var a := Skip(c, d + 1).pos;
      SkipIsBlanks(c, d + 1);
      if !(c.flags.trailingCommas && Peek(c, a) == ']' as int) { ts := ElementsSpelled(c, a, trace, n); }
    }
  }

  lemma {:induction false} ObjectSpelled(c: Config, p: nat, trace: seq<Event>) returns (fs: seq<Field>)
    requires Scalars(c) && p < |c.text| && ParseObject(c, p, trace).Ok?
    ensures var r := ParseObject(c, p, trace);
            p + 1 < r.pos && Has(c, r.pos - 1, '}') && AreFields(c, p + 1, r.pos - 1, fs) &&
            r.trace == trace + ([StartObject] + ToldFields(fs) + [EndObject(Low(|fs|))])
    decreases |c.text| - p, 0
  {
    hide Joined, ParseMembers, Blanks, Skip, Told;
    var t, a := trace + [StartObject], Skip(c, p + 1).pos;
    SkipIsBlanks(c, p + 1);
    fs := [];
    if Peek(c, a) != '}' as int { fs := FieldsSpelled(c, a, t, 0); }
    assert t + ToldFields(fs) + [EndObject(Low(|fs|))] ==
           trace + ([StartObject] + ToldFields(fs) + [EndObject(Low(|fs|))]);
  }

  lemma {:induction false} FieldsSpelled(c: Config, p: nat, trace: seq<Event>, n: nat) returns (fs: seq<Field>)
    requires Scalars(c) && p <= |c.text| && ParseMembers(c, p, trace, Low(n)).Ok?
    ensures var r := ParseMembers(c, p, trace, Low(n));
            p < r.pos && Has(c, r.pos - 1, '}') && fs != [] && Joined(c, p, r.pos - 1, fs) &&
            r.trace == trace + ToldFields(fs) + [EndObject(Low(n + |fs|))]
    decreases |c.text| - p, 3
  {
    hide ParseMember, Blanks, Told, AfterMember, IsField, ToldFields, Joined, Scalars;
    assert Proper(c) by { ScalarsAreProper(c); }
    hide Proper;
    var b, f := FieldSpelled(c, p, trace);
    var r1 := ParseMember(c, p, trace);
    assert Inc(Low(n)) == Low(n + 1);
    var rest := MoreFieldsSpelled(c, r1.pos, r1.trace, n + 1);
    var q := ParseMembers(c, p, trace, Low(n)).pos - 1;
    fs := [f] + rest;
    assert fs[1..] == rest;
    JoinedIf(c, p, b, r1.pos, q, fs);
    ToldFirstField(fs);
    assert trace + ([Key(f.name)] + Told(f.tree)) + ToldFields(rest) == trace + ToldFields(fs);
  }

  lemma JoinedIf(c: Config, p: nat, b: nat, d: nat, q: nat, fs: seq<Field>)
    requires fs != [] && IsField(c, p, b, fs[0]) && Blanks(c, b, d)
    requires if |fs| == 1 then EndsList(c, d, q) else AreMore(c, d, q, fs[1..])
    ensures Joined(c, p, q, fs)
  {
    hide IsField, Blanks;
  }

  /** A comma and further members. */
  ghost predicate AreMore(c: Config, d: nat, q: nat, fs: seq<Field>)
    requires fs != []
  {
    Has(c, d, ',') && exists a: nat :: Blanks(c, d + 1, a) && Joined(c, a, q, fs)
  }

  lemma {:induction false} MoreFieldsSpelled(c: Config, d: nat, trace: seq<Event>, n: nat) returns (fs: seq<Field>)
    requires Scalars(c) && d <= |c.text| && AfterMember(c, d, trace, Low(n)).Ok?
    ensures var r := AfterMember(c, d, trace, Low(n));
            d < r.pos && Has(c, r.pos - 1, '}') &&
            (if fs == [] then EndsList(c, d, r.pos - 1) else AreMore(c, d, r.pos - 1, fs)) &&
            r.trace == trace + ToldFields(fs) + [EndObject(Low(n + |fs|))]
    decreases |c.text| - d, 0
  {
    hide ParseMembers, Blanks, Skip, Told, Joined;
    fs := [];
    assert trace + [] == trace;
    if Has(c, d, ',') {
      var a := Skip(c, d + 1).pos;
      SkipIsBlanks(c, d + 1);
      if !(c.flags.trailingCommas && Peek(c, a) == '}' as int) { fs := FieldsSpelled(c, a, trace, n); }
    }
  }

  lemma {:induction false} FieldSpelled(c: Config, p: nat, trace: seq<Event>) returns (b: nat, f: Field)
    requires Scalars(c) && p <= |c.text| && ParseMember(c, p, trace).Ok?
    ensures var r := ParseMember(c, p, trace);
            p < r.pos && IsField(c, p, b, f) && Blanks(c, b, r.pos) &&
            r.trace == trace + ([Key(f.name)] + Told(f.tree))
    decreases |c.text| - p, 2
  {
    hide ParseValue, Blanks, Skip, Told, IsValue;
    var r1 := ParseString(c, p, trace, true);
    var name := c.parseString(p).value.1;
    var d := Skip(c, r1.pos).pos;
    SkipIsBlanks(c, r1.pos);
    var e := Skip(c, d + 1).pos;
    SkipIsBlanks(c, d + 1);
    var t := ValueSpelled(c, e, r1.trace);
    b := ParseValue(c, e, r1.trace).pos;
    SkipIsBlanks(c, b);
    f := Field(name, t);
    assert IsField(c, p, b, f);
    assert trace + [Key(name)] + Told(t) == trace + ([Key(name)] + Told(t));
  }

  // ----- whole texts -----

  /** An accepted parse, whatever the handler, reports the events of a text of the language. */
  lemma AcceptedIsText(c: Config) returns (t: Tree)
    requires Scalars(c) && Parse(c).Ok?
    ensures IsText(c, Parse(c).pos, t) && Parse(c).trace == Told(t)
  {
    hide ParseValue, Skip, Blanks, Told, IsValue;
    var a := Skip(c, 0).pos;
    SkipIsBlanks(c, 0);
    t := ValueSpelled(c, a, []);
    var b := ParseValue(c, a, []).pos;
    if !c.flags.stopWhenDone { SkipIsBlanks(c, b); }
    assert [] + Told(t) == Told(t);
    assert IsText(c, Parse(c).pos, t);
  }

  lemma TextIsAccepted(c: Config, q: nat, t: Tree)
    requires GoesOn(c) && IsText(c, q, t)
    ensures Parse(c) == Ok(q, Told(t))
  {
    hide ParseValue, Skip, Blanks, Told, IsValue;
    var a: nat, b: nat :| Blanks(c, 0, a) && IsValue(c, a, b, t) &&
      if c.flags.stopWhenDone then q == b else Blanks(c, b, q) && AtEnd(c, q);
    ValueBegins(c, a, b, t);
    ValueRead(c, a, b, t, []);
    BlanksAreSkipped(c, 0, a);
    assert [] + Told(t) == Told(t);
    if !c.flags.stopWhenDone { BlanksAreSkipped(c, b, q); }
  }

  /** Parse, under a handler that goes on, accepts exactly the texts of the language, ends where the text
      ends and reports the events of its tree. */
  lemma ParseExactly(c: Config, q: nat, w: seq<Event>)
    requires GoesOn(c)
    ensures Parse(c) == Ok(q, w) <==> exists t: Tree :: IsText(c, q, t) && w == Told(t)
  {
    hide Parse, IsText, Told;
    if Parse(c) == Ok(q, w) {
      var t := AcceptedIsText(c);
    }
    if t: Tree :| IsText(c, q, t) && w == Told(t) {
      TextIsAccepted(c, q, t);
    }
  }
}
