/** A handler that stops a parse (rapidjson/reader.h): it gets the events of the text up to the first one
    that it refuses, and the parse ends there. */
module ReaderHandler {
  import opened Json
  import opened Reader

  /** The same parse with a handler that refuses nothing. */
  function GoingOn(c: Config): Config { c.(accepts := (_: seq<Event>) => true) }

  /** The handler refuses the event that ends w[..k], and no event between n and it. */
  ghost predicate Refuses(c: Config, w: seq<Event>, n: nat, k: nat) {
    n < k <= |w| && !c.accepts(w[..k]) && forall i :: n < i < k ==> c.accepts(w[..i])
  }

  /** r is the outcome `full` of the parse that goes on, from `trace`, or its start up to the first refusal. */
  ghost predicate Follows(c: Config, trace: seq<Event>, full: Result, r: Result) {
    && trace <= full.trace
    && (forall k: nat :: Refuses(c, full.trace, |trace|, k) ==> r == Err(full.trace[..k]))
    && ((forall k: nat :: !Refuses(c, full.trace, |trace|, k)) ==> r == full)
  }

  /** Where an event is refused, there is a first one. */
  lemma {:induction false} FirstRefusal(c: Config, w: seq<Event>, n: nat, k: nat) returns (j: nat)
    requires n < k <= |w| && !c.accepts(w[..k])
    ensures j <= k && Refuses(c, w, n, j)
    decreases k
  {
    if i :| n < i < k && !c.accepts(w[..i]) {
      j := FirstRefusal(c, w, n, i);
    } else {
      j := k;
    }
  }

  lemma Delivered(c: Config, pos: nat, trace: seq<Event>, e: Event)
    ensures Follows(c, trace, Deliver(GoingOn(c), pos, trace, e), Deliver(c, pos, trace, e))
  {
    var w := trace + [e];
    assert w[..|w|] == w;
    if !c.accepts(w) { assert Refuses(c, w, |trace|, |w|); }
    forall k: nat | Refuses(c, w, |trace|, k)
      ensures k == |w|
    {
    }
  }

  lemma Nothing(c: Config, trace: seq<Event>, r: Result)
    requires r.trace == trace
    ensures Follows(c, trace, r, r)
  {
  }

  /** One part of a parse behind the other. */
  lemma Chained(c: Config, trace: seq<Event>, full: Result, r: Result, full2: Result, r2: Result)
    requires Follows(c, trace, full, r) && full.Ok? && Follows(c, full.trace, full2, r2)
    ensures Follows(c, trace, full2, if r.Ok? then r2 else Err(r.trace))
  {
    var w, w2 := full.trace, full2.trace;
    forall i | 0 <= i <= |w|
      ensures w2[..i] == w[..i]
    {
    }
    forall k: nat
      ensures k <= |w| ==> (Refuses(c, w2, |trace|, k) <==> Refuses(c, w, |trace|, k))
    {
    }
    if k: nat :| |trace| < k <= |w| && !c.accepts(w[..k]) {
      var j := FirstRefusal(c, w, |trace|, k);
      assert Refuses(c, w2, |trace|, j);
    } else {
      assert r == full;
      forall k: nat
        ensures Refuses(c, w2, |trace|, k) <==> Refuses(c, w2, |w|, k)
      {
        if Refuses(c, w2, |w|, k) {
          forall i | |trace| < i < k ensures c.accepts(w2[..i]) { if i <= |w| { assert w2[..i] == w[..i]; } }
        }
      }
    }
  }

  // ----- the handler has no part in blanks -----

  lemma {:induction false} SameWhitespace(c: Config, p: nat)
    requires p <= |c.text|
    ensures SkipWhitespace(GoingOn(c), p) == SkipWhitespace(c, p)
    decreases |c.text| - p
  {
    if p < |c.text| { SameWhitespace(c, p + 1); }
  }

  lemma {:induction false} SameBlock(c: Config, p: nat)
    requires p <= |c.text|
    ensures BlockComment(GoingOn(c), p) == BlockComment(c, p)
    decreases |c.text| - p
  {
    if p < |c.text| { SameBlock(c, p + 1); }
  }

  lemma {:induction false} SameLine(c: Config, p: nat)
    requires p <= |c.text|
    ensures LineComment(GoingOn(c), p) == LineComment(c, p)
    decreases |c.text| - p
  {
    if p < |c.text| { SameLine(c, p + 1); }
  }

  lemma SameComment(c: Config, p: nat)
    requires p < |c.text|
    ensures Comment(GoingOn(c), p) == Comment(c, p)
  {
    if p + 2 <= |c.text| {
      SameBlock(c, p + 2);
      SameLine(c, p + 2);
    }
  }

  lemma {:induction false} SameComments(c: Config, p: nat)
    requires p <= |c.text|
    ensures SkipComments(GoingOn(c), p) == SkipComments(c, p)
    decreases |c.text| - p
  {
    if Peek(c, p) == '/' as int {
      SameComment(c, p);
      var r := Comment(c, p);
      SameWhitespace(c, r.pos);
      if r.ok { SameComments(c, SkipWhitespace(c, r.pos)); }
    }
  }

  lemma SameSkip(c: Config, p: nat)
    requires p <= |c.text|
    ensures Skip(GoingOn(c), p) == Skip(c, p)
  {
    SameWhitespace(c, p);
    SameComments(c, SkipWhitespace(c, p));
  }

  // ----- the parsers -----

  lemma SameProper(c: Config)
    requires Proper(c)
    ensures Proper(GoingOn(c))
  {
  }

  lemma KeywordFollows(c: Config, p: nat, trace: seq<Event>, word: bytes, e: Event)
    requires word != []
    ensures Follows(c, trace, ParseKeyword(GoingOn(c), p, trace, word, e), ParseKeyword(c, p, trace, word, e))
  {
    hide Follows;
    Delivered(c, p + |word|, trace, e);
    Nothing(c, trace, Err(trace));
  }

  lemma StringFollows(c: Config, p: nat, trace: seq<Event>, isKey: bool)
    requires Proper(c) && Proper(GoingOn(c))
    ensures Follows(c, trace, ParseString(GoingOn(c), p, trace, isKey), ParseString(c, p, trace, isKey))
  {
    hide Follows;
    Nothing(c, trace, Err(trace));
    if c.parseString(p).Some? {
      var (next, s) := c.parseString(p).value;
      Delivered(c, next, trace, if isKey then Key(s) else String(s));
    }
  }

  lemma NumberFollows(c: Config, p: nat, trace: seq<Event>)
    requires Proper(c) && Proper(GoingOn(c))
    ensures Follows(c, trace, ParseNumber(GoingOn(c), p, trace), ParseNumber(c, p, trace))
  {
    hide Follows;
    Nothing(c, trace, Err(trace));
    if c.parseNumber(p).Some? {
      var (next, e) := c.parseNumber(p).value;
      Delivered(c, next, trace, e);
    }
  }

  lemma {:induction false} ValueFollows(c: Config, p: nat, trace: seq<Event>)
    requires Proper(c) && Proper(GoingOn(c)) && p <= |c.text|
    ensures Follows(c, trace, ParseValue(GoingOn(c), p, trace), ParseValue(c, p, trace))
    decreases |c.text| - p, 1
  {
    hide Follows, ParseKeyword, ParseString, ParseNumber, ParseObject, ParseArray;
    KeywordFollows(c, p, trace, NULL_TEXT, Null);
    KeywordFollows(c, p, trace, TRUE_TEXT, Bool(true));
    KeywordFollows(c, p, trace, FALSE_TEXT, Bool(false));
    StringFollows(c, p, trace, false);
    NumberFollows(c, p, trace);
    if Peek(c, p) == '{' as int { ObjectFollows(c, p, trace); }
    if Peek(c, p) == '[' as int { ArrayFollows(c, p, trace); }
  }

  lemma {:induction false} ObjectFollows(c: Config, p: nat, trace: seq<Event>)
    requires Proper(c) && Proper(GoingOn(c)) && p < |c.text|
    ensures Follows(c, trace, ParseObject(GoingOn(c), p, trace), ParseObject(c, p, trace))
    decreases |c.text| - p, 0
  {
    hide Follows, ParseMembers, Skip;
    var t, s := trace + [StartObject], Skip(c, p + 1);
    Delivered(c, p + 1, trace, StartObject);
    SameSkip(c, p + 1);
    Nothing(c, t, Err(t));
    Delivered(c, s.pos + 1, t, EndObject(0));
    var first, go := Deliver(c, p + 1, trace, StartObject), Deliver(GoingOn(c), p + 1, trace, StartObject);
    if !s.ok {
      Chained(c, trace, go, first, Err(t), Err(t));
    } else if Peek(c, s.pos) == '}' as int {
      Chained(c, trace, go, first, Deliver(GoingOn(c), s.pos + 1, t, EndObject(0)),
              Deliver(c, s.pos + 1, t, EndObject(0)));
    } else {
      MembersFollow(c, s.pos, t, 0);
      Chained(c, trace, go, first, ParseMembers(GoingOn(c), s.pos, t, 0), ParseMembers(c, s.pos, t, 0));
    }
  }

  lemma {:induction false} MembersFollow(c: Config, p: nat, trace: seq<Event>, n: nat)
    requires Proper(c) && Proper(GoingOn(c)) && p <= |c.text|
    ensures Follows(c, trace, ParseMembers(GoingOn(c), p, trace, n), ParseMembers(c, p, trace, n))
    decreases |c.text| - p, 3
  {
    hide Follows, ParseMember, AfterMember, Proper;
    MemberFollows(c, p, trace);
    var go := ParseMember(GoingOn(c), p, trace);
    if go.Ok? {
      AfterMemberFollows(c, go.pos, go.trace, Inc(n));
      Chained(c, trace, go, ParseMember(c, p, trace), AfterMember(GoingOn(c), go.pos, go.trace, Inc(n)),
              AfterMember(c, go.pos, go.trace, Inc(n)));
    }
    FollowsOk(c, trace, go, ParseMember(c, p, trace));
  }

  /** What is accepted is the whole of the other parse; where that fails, so does this. */
  lemma FollowsOk(c: Config, trace: seq<Event>, full: Result, r: Result)
    requires Follows(c, trace, full, r)
    ensures r.Ok? ==> r == full
    ensures r.Err? && full.Ok? ==> r.trace != full.trace || !c.accepts(r.trace)
  {
  }

  lemma {:induction false} MemberFollows(c: Config, p: nat, trace: seq<Event>)
    requires Proper(c) && Proper(GoingOn(c)) && p <= |c.text|
    ensures Follows(c, trace, ParseMember(GoingOn(c), p, trace), ParseMember(c, p, trace))
    decreases |c.text| - p, 2
  {
    hide Follows, Skip, ParseValue;
    Nothing(c, trace, Err(trace));
    if Peek(c, p) == '"' as int {
      StringFollows(c, p, trace, true);
      hide ParseString;
      var first, go := ParseString(c, p, trace, true), ParseString(GoingOn(c), p, trace, true);
      FollowsOk(c, trace, go, first);
      if go.Ok? {
        ValueOfMemberFollows(c, go.pos, go.trace);
        hide ValueOfMember, Proper;
        Chained(c, trace, go, first, ValueOfMember(GoingOn(c), go.pos, go.trace),
                ValueOfMember(c, go.pos, go.trace));
        MemberInTwo(c, p, trace);
        MemberInTwo(GoingOn(c), p, trace);
      }
    }
  }

  /** A member behind its name. */
  function ValueOfMember(c: Config, p: nat, trace: seq<Event>): Result
    requires Proper(c) && p <= |c.text|
  {
    var s1 := Skip(c, p);
    if !s1.ok || Peek(c, s1.pos) != ':' as int then Err(trace)
    else
      var s2 := Skip(c, s1.pos + 1);
      if !s2.ok then Err(trace)
      else match ParseValue(c, s2.pos, trace)
        case Err(t) => Err(t)
        case Ok(p2, t2) =>
          var s3 := Skip(c, p2);
          if !s3.ok then Err(t2) else Ok(s3.pos, t2)
  }

  lemma MemberInTwo(c: Config, p: nat, trace: seq<Event>)
    requires Proper(c) && p <= |c.text| && Peek(c, p) == '"' as int
    ensures var r := ParseString(c, p, trace, true);
            ParseMember(c, p, trace) == if r.Ok? then ValueOfMember(c, r.pos, r.trace) else r
  {
    hide Skip, ParseValue, ParseString;
  }

  lemma {:induction false} ValueOfMemberFollows(c: Config, p: nat, trace: seq<Event>)
    requires Proper(c) && Proper(GoingOn(c)) && p <= |c.text|
    ensures Follows(c, trace, ValueOfMember(GoingOn(c), p, trace), ValueOfMember(c, p, trace))
    decreases |c.text| - p, 2
  {
    hide Follows, Skip, ParseValue;
    Nothing(c, trace, Err(trace));
    SameSkip(c, p);
    var s1 := Skip(c, p);
    if s1.ok && Peek(c, s1.pos) == ':' as int {
      SameSkip(c, s1.pos + 1);
      var s2 := Skip(c, s1.pos + 1);
      if s2.ok {
        ValueFollows(c, s2.pos, trace);
        var r, go := ParseValue(c, s2.pos, trace), ParseValue(GoingOn(c), s2.pos, trace);
        FollowsOk(c, trace, go, r);
        if go.Ok? {
          SameSkip(c, go.pos);
          var s3 := Skip(c, go.pos);
          var last := if s3.ok then Ok(s3.pos, go.trace) else Err(go.trace);
          Nothing(c, go.trace, last);
          Chained(c, trace, go, r, last, last);
        }
      }
    }
  }

  lemma {:induction false} AfterMemberFollows(c: Config, p: nat, trace: seq<Event>, n: nat)
    requires Proper(c) && Proper(GoingOn(c)) && p <= |c.text|
    ensures Follows(c, trace, AfterMember(GoingOn(c), p, trace, n), AfterMember(c, p, trace, n))
    decreases |c.text| - p, 0
  {
    hide Follows, Skip, ParseMembers;
    Nothing(c, trace, Err(trace));
    Delivered(c, p + 1, trace, EndObject(n));
    if Peek(c, p) == ',' as int {
      SameSkip(c, p + 1);
      var s := Skip(c, p + 1);
      Delivered(c, s.pos + 1, trace, EndObject(n));
      if s.ok { MembersFollow(c, s.pos, trace, n); }
    }
  }

  lemma {:induction false} ArrayFollows(c: Config, p: nat, trace: seq<Event>)
    requires Proper(c) && Proper(GoingOn(c)) && p < |c.text|
    ensures Follows(c, trace, ParseArray(GoingOn(c), p, trace), ParseArray(c, p, trace))
    decreases |c.text| - p, 0
  {
    hide Follows, ParseElements, Skip;
    var t, s := trace + [StartArray], Skip(c, p + 1);
    Delivered(c, p + 1, trace, StartArray);
    SameSkip(c, p + 1);
    Nothing(c, t, Err(t));
    Delivered(c, s.pos + 1, t, EndArray(0));
    var first, go := Deliver(c, p + 1, trace, StartArray), Deliver(GoingOn(c), p + 1, trace, StartArray);
    if !s.ok {
      Chained(c, trace, go, first, Err(t), Err(t));
    } else if Peek(c, s.pos) == ']' as int {
      Chained(c, trace, go, first, Deliver(GoingOn(c), s.pos + 1, t, EndArray(0)),
              Deliver(c, s.pos + 1, t, EndArray(0)));
    } else {
      ElementsFollow(c, s.pos, t, 0);
      Chained(c, trace, go, first, ParseElements(GoingOn(c), s.pos, t, 0), ParseElements(c, s.pos, t, 0));
    }
  }

  lemma {:induction false} ElementsFollow(c: Config, p: nat, trace: seq<Event>, n: nat)
    requires Proper(c) && Proper(GoingOn(c)) && p <= |c.text|
    ensures Follows(c, trace, ParseElements(GoingOn(c), p, trace, n), ParseElements(c, p, trace, n))
    decreases |c.text| - p, 2
  {
    hide Follows, ParseValue, AfterElement, Skip;
    ValueFollows(c, p, trace);
    var r, go := ParseValue(c, p, trace), ParseValue(GoingOn(c), p, trace);
    FollowsOk(c, trace, go, r);
    if go.Ok? {
      SameSkip(c, go.pos);
      var s := Skip(c, go.pos);
      if s.ok {
        AfterElementFollows(c, s.pos, go.trace, Inc(n));
        Chained(c, trace, go, r, AfterElement(GoingOn(c), s.pos, go.trace, Inc(n)),
                AfterElement(c, s.pos, go.trace, Inc(n)));
      } else {
        Nothing(c, go.trace, Err(go.trace));
        Chained(c, trace, go, r, Err(go.trace), Err(go.trace));
      }
    }
  }

  lemma {:induction false} AfterElementFollows(c: Config, p: nat, trace: seq<Event>, n: nat)
    requires Proper(c) && Proper(GoingOn(c)) && p <= |c.text|
    ensures Follows(c, trace, AfterElement(GoingOn(c), p, trace, n), AfterElement(c, p, trace, n))
    decreases |c.text| - p, 0
  {
    hide Follows, Skip, ParseElements;
    Nothing(c, trace, Err(trace));
    Delivered(c, p + 1, trace, EndArray(n));
    if Peek(c, p) == ',' as int {
      SameSkip(c, p + 1);
      var s := Skip(c, p + 1);
      Delivered(c, s.pos + 1, trace, EndArray(n));
      if s.ok { ElementsFollow(c, s.pos, trace, n); }
    }
  }

  /** A parse is the parse of the same text with a handler that goes on, up to the first event that the
      handler refuses: with that event as its last one it fails, and without any it is the same. */
  lemma ParseFollows(c: Config)
    requires Proper(c)
    ensures Proper(GoingOn(c)) && Follows(c, [], Parse(GoingOn(c)), Parse(c))
  {
    hide Follows, Skip, ParseValue;
    SameProper(c);
    Nothing(c, [], Err([]));
    SameSkip(c, 0);
    var s := Skip(c, 0);
    if s.ok {
      ValueFollows(c, s.pos, []);
      var r, go := ParseValue(c, s.pos, []), ParseValue(GoingOn(c), s.pos, []);
      FollowsOk(c, [], go, r);
      if go.Ok? {
        SameSkip(c, go.pos);
        var s2 := Skip(c, go.pos);
        var last := if c.flags.stopWhenDone then go
                    else if !s2.ok || Peek(c, s2.pos) != 0 then Err(go.trace) else Ok(s2.pos, go.trace);
        Nothing(c, go.trace, last);
        Chained(c, [], go, r, last, last);
      }
    }
  }
}
