/** GenericReader in its own form: a stream cursor, a handler's event log, the parse result
    and the state stack, updated in place by the loops of the source. */
module ReaderMachine {
  import opened Json
  import R = Reader

  class GenericReader {
    const c: R.Config
    var pos: nat              // the input stream
    var trace: seq<Event>     // what the handler has received
    var error: bool           // parseResult_
    var stack: R.Stack        // stack_
    var state: R.State        // state_, the pull parser's position in the grammar

    constructor (config: R.Config)
      ensures c == config && Pulling() == R.Pull(R.Iter(R.Start, R.Empty, 0, []), false)
    {
      c := config;
      pos, trace, error, stack, state := 0, [], false, R.Empty, R.Start;
    }

    predicate InText()
      reads this
    {
      pos <= |c.text|
    }

    /** The outcome of a parsing method: an error, or the cursor behind what was read. */
    ghost predicate Reached(r: R.Result)
      reads this
    {
      trace == r.trace && if r.Ok? then !error && pos == r.pos else error
    }

    /** The same for a scalar, which can also be read after an earlier error. */
    ghost predicate ReachedFrom(r: R.Result, hadError: bool)
      reads this
    {
      trace == r.trace && if r.Ok? then error == hadError && pos == r.pos else error
    }

    function At(s: R.State): R.Iter
      reads this
    {
      R.Iter(s, stack, pos, trace)
    }

    function Pulling(): R.Pull
      reads this
    {
      R.Pull(At(state), error)
    }

    function Peek(): byte
      reads this
    {
      R.Peek(c, pos)
    }

    method Consume(ch: byte) returns (taken: bool)
      requires InText() && ch != 0
      modifies `pos
      ensures InText() && taken == (R.Peek(c, old(pos)) == ch) && pos == if taken then old(pos) + 1 else old(pos)
    {
      taken := Peek() == ch;
      if taken { pos := pos + 1; }
    }

    method CallHandler(e: Event) returns (ok: bool)
      modifies `trace
      ensures trace == old(trace) + [e] && ok == c.accepts(trace)
    {
      trace := trace + [e];
      ok := c.accepts(trace);
    }

    method SkipWhitespace()
      requires InText()
      modifies `pos
      ensures InText() && pos == R.SkipWhitespace(c, old(pos))
    {
      while pos < |c.text| && R.IsSpace(c.text[pos])
        invariant InText() && R.SkipWhitespace(c, pos) == R.SkipWhitespace(c, old(pos))
        decreases |c.text| - pos
      {
        pos := pos + 1;
      }
    }

    method SkipBlockComment() returns (ok: bool)
      requires InText()
      modifies `pos
      ensures InText() && R.Skipped(pos, ok) == R.BlockComment(c, old(pos))
    {
      while true
        invariant InText() && R.BlockComment(c, pos) == R.BlockComment(c, old(pos))
        decreases |c.text| - pos
      {
        if Peek() == 0 { return false; }
        var star := Consume('*' as int);
        if star {
          var slash := Consume('/' as int);
          if slash { return true; }
        } else {
          pos := pos + 1;
        }
      }
    }

    method SkipLineComment()
      requires InText()
      modifies `pos
      ensures InText() && pos == R.LineComment(c, old(pos))
    {
      while Peek() != 0
        invariant InText() && R.LineComment(c, pos) == R.LineComment(c, old(pos))
        decreases |c.text| - pos
      {
        pos := pos + 1;
        if c.text[pos - 1] == '\n' as int { return; }
      }
    }

    method SkipComment() returns (ok: bool)
      requires InText() && Peek() == '/' as int
      modifies `pos
      ensures InText() && R.Skipped(pos, ok) == R.Comment(c, old(pos))
    {
      pos := pos + 1;
      var star := Consume('*' as int);
      if star {
        ok := SkipBlockComment();
      } else {
        ok := Consume('/' as int);
        if ok { SkipLineComment(); }
      }
    }

    method SkipWhitespaceAndComments()
      requires InText()
      modifies `pos, `error
      ensures InText() && var s := R.Skip(c, old(pos)); pos == s.pos && error == (old(error) || !s.ok)
    {
      SkipWhitespace();
      if c.flags.comments {
        ghost var whole := R.SkipComments(c, pos);
        while Peek() == '/' as int
          invariant InText() && error == old(error)
          invariant R.SkipComments(c, pos) == whole
          decreases |c.text| - pos
        {
          hide R.Comment;
          var ok := SkipComment();
          if !ok {
            error := true;
            return;
          }
          SkipWhitespace();
        }
      }
    }

    // ----- the recursive-descent parser -----

    method ParseKeyword(word: bytes, e: Event)
      requires InText() && word != [] && Peek() == word[0] != 0 && forall i :: 0 <= i < |word| ==> word[i] != 0
      modifies `pos, `trace, `error
      ensures InText() && ReachedFrom(R.ParseKeyword(c, old(pos), old(trace), word, e), old(error))
    {
      ghost var start := pos;
      pos := pos + 1;
      var i := 1;
      var same := true;
      while i < |word| && same
        decreases |word| - i, same
        invariant InText() && 1 <= i <= |word| && error == old(error) && trace == old(trace)
        invariant same ==> pos == start + i && c.text[start..pos] == word[..i]
        invariant !same ==> !(start + |word| <= |c.text| && c.text[start..start + |word|] == word)
      {
        same := Consume(word[i]);
        if same {
          assert c.text[start..pos] == c.text[start..pos - 1] + [word[i]];
          i := i + 1;
        } else {
          assert start + |word| <= |c.text| ==> c.text[start..start + |word|][i] == c.text[start + i];
        }
      }
      if same {
        assert word[..i] == word;
        var ok := CallHandler(e);
        if !ok { error := true; }
      } else {
        error := true;
      }
    }

    method ParseString(isKey: bool)
      requires R.Proper(c) && InText()
      modifies `pos, `trace, `error
      ensures InText()
      ensures if old(error) then error && trace == old(trace)
              else Reached(R.ParseString(c, old(pos), old(trace), isKey))
    {
      match c.parseString(pos) {
        case None => error := true;
        case Some((next, s)) =>
          pos := next;
          if error { return; }
          var ok := CallHandler(if isKey then Key(s) else String(s));
          error := !ok;
      }
    }

    method ParseNumber()
      requires R.Proper(c) && InText()
      modifies `pos, `trace, `error
      ensures InText() && ReachedFrom(R.ParseNumber(c, old(pos), old(trace)), old(error))
    {
      match c.parseNumber(pos) {
        case None => error := true;
        case Some((next, e)) =>
          pos := next;
          var ok := CallHandler(e);
          if !ok { error := true; }
      }
    }

    method ParseValue()
      requires R.Proper(c) && InText()
      requires error ==> R.IsScalarToken(R.Tokenize(Peek()))
      modifies `pos, `trace, `error
      ensures InText() && ReachedFrom(R.ScalarValue(c, old(At(state)), old(error)), old(error))
      decreases |c.text| - pos, 1
    {
      var b := Peek();
      if b == 'n' as int {
        ParseKeyword(R.NULL_TEXT, Null);
      } else if b == 't' as int {
        ParseKeyword(R.TRUE_TEXT, Bool(true));
      } else if b == 'f' as int {
        ParseKeyword(R.FALSE_TEXT, Bool(false));
      } else if b == '"' as int {
        ParseString(false);
      } else if b == '{' as int {
        ParseObject();
      } else if b == '[' as int {
        ParseArray();
      } else {
        ParseNumber();
      }
    }

    /** One turn of ParseObject's loop, up to the comma or bracket. */
    method ParseMember()
      requires R.Proper(c) && InText() && !error
      modifies `pos, `trace, `error
      ensures InText() && Reached(R.ParseMember(c, old(pos), old(trace)))
      decreases |c.text| - pos, 2
    {
      hide R.ParseValue, R.ParseString, R.Skip;
      if Peek() != '"' as int { error := true; return; }
      ParseString(true);
      if error { return; }
      SkipWhitespaceAndComments();
      if error { return; }
      var colon := Consume(':' as int);
      if !colon { error := true; return; }
      SkipWhitespaceAndComments();
      if error { return; }
      ParseValue();
      if error { return; }
      SkipWhitespaceAndComments();
    }

    method ParseObject()
      requires R.Proper(c) && InText() && !error && Peek() == '{' as int
      modifies `pos, `trace, `error
      ensures InText() && Reached(R.ParseObject(c, old(pos), old(trace)))
      decreases |c.text| - pos, 0
    {
      hide R.ParseValue, R.ParseMember, R.Skip;
      ghost var start := pos;
      pos := pos + 1;
      var ok := CallHandler(StartObject);
      if !ok { error := true; return; }
      SkipWhitespaceAndComments();
      if error { return; }
      var empty := Consume('}' as int);
      if empty {
        ok := CallHandler(EndObject(0));
        error := !ok;
        return;
      }
      ParseMembers(0);
    }

    /** The loop of ParseObject. */
    method ParseMembers(count: nat)
      requires R.Proper(c) && InText() && !error
      modifies `pos, `trace, `error
      ensures InText() && Reached(R.ParseMembers(c, old(pos), old(trace), count))
      decreases |c.text| - pos, 3
    {
      hide R.ParseValue, R.ParseMember, R.Skip, R.Inc;
      var memberCount := count;
      while true
        invariant InText() && old(pos) <= pos && !error
        invariant R.ParseMembers(c, pos, trace, memberCount) == R.ParseMembers(c, old(pos), old(trace), count)
        decreases |c.text| - pos
      {
        ParseMember();
        if error { return; }
        memberCount := R.Inc(memberCount);
        if Peek() == ',' as int {
          pos := pos + 1;
          SkipWhitespaceAndComments();
          if error { return; }
        } else if Peek() == '}' as int {
          pos := pos + 1;
          var ok := CallHandler(EndObject(memberCount));
          error := !ok;
          return;
        } else {
          error := true;
          return;
        }
        if c.flags.trailingCommas {
          if Peek() == '}' as int {
            var ok := CallHandler(EndObject(memberCount));
            if !ok { error := true; return; }
            pos := pos + 1;
            return;
          }
        }
      }
    }

    method ParseArray()
      requires R.Proper(c) && InText() && !error && Peek() == '[' as int
      modifies `pos, `trace, `error
      ensures InText() && Reached(R.ParseArray(c, old(pos), old(trace)))
      decreases |c.text| - pos, 0
    {
      hide R.ParseValue, R.Skip;
      pos := pos + 1;
      var ok := CallHandler(StartArray);
      if !ok { error := true; return; }
      SkipWhitespaceAndComments();
      if error { return; }
      var empty := Consume(']' as int);
      if empty {
        ok := CallHandler(EndArray(0));
        error := !ok;
        return;
      }
      ParseElements(0);
    }

    /** The loop of ParseArray. */
    method ParseElements(count: nat)
      requires R.Proper(c) && InText() && !error
      modifies `pos, `trace, `error
      ensures InText() && Reached(R.ParseElements(c, old(pos), old(trace), count))
      decreases |c.text| - pos, 3
    {
      hide R.ParseValue, R.Skip, R.Inc;
      var elementCount := count;
      while true
        invariant InText() && old(pos) <= pos && !error
        invariant R.ParseElements(c, pos, trace, elementCount) == R.ParseElements(c, old(pos), old(trace), count)
        decreases |c.text| - pos
      {
        ParseValue();
        if error { return; }
        elementCount := R.Inc(elementCount);
        SkipWhitespaceAndComments();
        if error { return; }
        var comma := Consume(',' as int);
        if comma {
          SkipWhitespaceAndComments();
          if error { return; }
        } else {
          var close := Consume(']' as int);
          if !close { error := true; return; }
          var ok := CallHandler(EndArray(elementCount));
          error := !ok;
          return;
        }
        if c.flags.trailingCommas {
          if Peek() == ']' as int {
            var ok := CallHandler(EndArray(elementCount));
            if !ok { error := true; return; }
            pos := pos + 1;
            return;
          }
        }
      }
    }

    /** Parse without kParseIterativeFlag. */
    method Parse()
      requires R.Proper(c) && Pulling() == R.Pull(R.Iter(R.Start, R.Empty, 0, []), false)
      modifies `pos, `trace, `error
      ensures InText() && Reached(R.Parse(c))
    {
      SkipWhitespaceAndComments();
      if error { return; }
      if Peek() == 0 { error := true; return; }
      ParseValue();
      if error { return; }
      if !c.flags.stopWhenDone {
        SkipWhitespaceAndComments();
        if error { return; }
        if Peek() != 0 { error := true; }
      }
    }

    // ----- the iterative parser -----

    /** Transit: the handler is called and the stacks are changed; the error state is returned
        for an unexpected token, a failed scalar and a handler that stops. */
    method Transit(src: R.State, dst: R.State) returns (next: R.State)
      requires R.Proper(c) && InText() && R.Framed(At(src)) && dst == R.Predict(src, R.Tokenize(Peek()))
      modifies `pos, `trace, `error, `stack
      ensures var m := R.Transit(c, old(At(src)), dst, old(error));
              InText() && if m.Moved? then At(next) == m.next && error == old(error)
              else next == R.Error && trace == m.trace
    {
      hide R.ParseValue, R.ParseString, R.Inc;
      next := dst;
      if dst == R.Error {
      } else if dst == R.ObjectInitial || dst == R.ArrayInitial {
        next := TransitOpen(src, dst);
      } else if dst == R.MemberKey {
        ParseString(true);
        if error { next := R.Error; }
      } else if dst == R.KeyValueDelimiter {
        pos := pos + 1;
      } else if dst == R.MemberDelimiter || dst == R.ElementDelimiter {
        pos := pos + 1;
        stack := stack.(count := R.Inc(stack.count));
      } else if dst == R.ObjectFinish || dst == R.ArrayFinish {
        next := TransitClose(src, dst == R.ObjectFinish);
      } else {
        ScalarDst(src, dst, Peek());
        ParseValue();
        if error { next := R.Error; } else if dst == R.SingleValue { next := R.Finish; }
      }
    }

    lemma ScalarDst(src: R.State, dst: R.State, b: byte)
      requires dst == R.Predict(src, R.Tokenize(b))
      requires dst == R.SingleValue || dst == R.Element || dst == R.MemberValue
      ensures R.IsScalarToken(R.Tokenize(b))
    {
    }

    method TransitOpen(src: R.State, dst: R.State) returns (next: R.State)
      requires InText() && pos < |c.text| && R.Framed(At(src)) && R.ExpectsValue(src)
      requires dst == R.ObjectInitial || dst == R.ArrayInitial
      modifies `pos, `trace, `error, `stack
      ensures var m := R.Opened(c, old(At(src)), dst, if dst == R.ObjectInitial then StartObject else StartArray);
              InText() && if m.Moved? then At(next) == m.next && error == old(error)
              else next == R.Error && trace == m.trace
    {
      stack := R.Frame(R.After(src), 0, stack);
      var hr := CallHandler(if dst == R.ObjectInitial then StartObject else StartArray);
      if !hr {
        error := true;
        return R.Error;
      }
      pos := pos + 1;
      return dst;
    }

    method TransitClose(src: R.State, isObject: bool) returns (next: R.State)
      requires R.Proper(c) && InText() && pos < |c.text| && R.Framed(At(src))
      requires (if isObject then R.ObjectFinish else R.ArrayFinish) == R.Predict(src, R.Tokenize(Peek()))
      modifies `pos, `trace, `error, `stack
      ensures var m := R.Transit(c, old(At(src)), if isObject then R.ObjectFinish else R.ArrayFinish, old(error));
              InText() && if m.Moved? then At(next) == m.next && error == old(error)
              else next == R.Error && trace == m.trace
    {
      hide R.ParseValue, R.ParseString, R.Inc;
      if !c.flags.trailingCommas && src == (if isObject then R.MemberDelimiter else R.ElementDelimiter) {
        error := true;
        return R.Error;
      }
      var n := stack.count;
      if src == (if isObject then R.MemberValue else R.Element) { n := R.Inc(n); }
      next := stack.state;
      stack := stack.below;
      if next == R.Start { next := R.Finish; }
      var hr := CallHandler(if isObject then EndObject(n) else EndArray(n));
      if !hr {
        error := true;
        return R.Error;
      }
      pos := pos + 1;
    }

    /** Parse with kParseIterativeFlag. */
    method IterativeParse()
      requires R.Proper(c) && Pulling() == R.Pull(R.Iter(R.Start, R.Empty, 0, []), false)
      modifies this
      ensures Reached(R.IterativeParse(c))
    {
      hide R.Transit, R.Skip;
      var s := R.Start;
      SkipWhitespaceAndComments();
      if error { return; }
      while Peek() != 0
        invariant InText() && R.Framed(At(s)) && !error
        invariant R.IterativeLoop(c, At(s)) == R.IterativeParse(c)
        decreases |c.text| - pos
      {
        var n := R.Predict(s, R.Tokenize(Peek()));
        var d := Transit(s, n);
        if d == R.Error {
          error := true;   // HandleError
          return;
        }
        s := d;
        if c.flags.stopWhenDone && s == R.Finish { return; }
        SkipWhitespaceAndComments();
        if error { return; }
      }
      if s != R.Finish { error := true; }
    }

    /** One call of the pull parser. */
    method IterativeParseNext() returns (ok: bool)
      requires R.Proper(c) && InText() && R.Framed(At(state))
      modifies this
      ensures InText() && var r := R.Next(c, old(Pulling()));
              ok == r.ok && trace == r.state.it.trace && error == r.state.error
      ensures ok ==> Pulling() == R.Next(c, old(Pulling())).state
    {
      hide R.Transit, R.Skip;
      while Peek() != 0
        invariant InText() && R.Framed(At(state))
        invariant R.Next(c, Pulling()) == R.Next(c, old(Pulling()))
        decreases |c.text| - pos
      {
        SkipWhitespaceAndComments();
        var n := R.Predict(state, R.Tokenize(Peek()));
        var d := Transit(state, n);
        if d == R.Error {
          error := true;   // HandleError
          return false;
        }
        state := d;
        if d == R.Finish {
          if !c.flags.stopWhenDone {
            SkipWhitespaceAndComments();
            if Peek() != 0 {
              error := true;   // HandleError
              return false;
            }
          }
          return true;
        }
        if !R.IsDelimiter(n) { return true; }
      }
      if state != R.Finish {
        error := true;   // HandleError
        return false;
      }
      return true;
    }
  }
}
