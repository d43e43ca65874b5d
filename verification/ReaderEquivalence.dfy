/** The three parsers agree: same events in the same order with the same counts, same
    verdict, for every text, flag set, scalar parser and handler. */
module ReaderEquivalence {
  import opened Json
  import opened Reader

  /** The iterative parser when the innermost open container has been closed at p. */
  function Resume(it: Iter, p: nat, trace: seq<Event>): Iter
    requires it.stack.Frame?
  {
    Iter(if it.stack.state == Start then Finish else it.stack.state, it.stack.below, p, trace)
  }

  /** Going on after a part of the input that the recursive parser reads with one call. */
  function Then(c: Config, r: Result, it: Iter): Result
    requires Proper(c) && (r.Ok? ==> Framed(it) && it.pos <= |c.text|)
  {
    match r
    case Err(t) => Err(t)
    case Ok(_, _) => Continue(c, it)
  }

  /** The parser behind a value that was read in it's state. */
  function Behind(it: Iter, r: Result): Iter {
    match r
    case Err(_) => it
    case Ok(p, t) => it.(state := if it.state == Start then Finish else After(it.state), pos := p, trace := t)
  }

  function Closing(it: Iter, r: Result): Iter
    requires it.stack.Frame?
  {
    match r
    case Err(_) => it
    case Ok(p, t) => Resume(it, p, t)
  }

  lemma ResumeFramed(it: Iter, p: nat, trace: seq<Event>)
    requires Framed(it) && it.stack.Frame?
    ensures Framed(Resume(it, p, trace))
  {
  }

  lemma NoValueHere(c: Config, p: nat, trace: seq<Event>)
    requires Proper(c) && p <= |c.text|
    requires StartsNoValue(Peek(c, p))
    ensures ParseValue(c, p, trace) == Err(trace)
  {
    assert c.parseNumber(p).None?;
  }

  lemma {:induction false} ValueStep(c: Config, it: Iter)
    requires Proper(c) && Framed(it) && it.pos <= |c.text| && ExpectsValue(it.state)
    requires Peek(c, it.pos) != 0
    requires Peek(c, it.pos) == ']' as int ==> it.state != ArrayInitial && it.state != ElementDelimiter
    ensures var r := ParseValue(c, it.pos, it.trace);
            (r.Ok? ==> Framed(Behind(it, r))) && IterativeLoop(c, it) == Then(c, r, Behind(it, r))
    decreases |c.text| - it.pos, 2
  {
    hide ParseValue, IterativeLoop, Continue, Transit;
    if Peek(c, it.pos) == '{' as int || Peek(c, it.pos) == '[' as int {
      ContainerStep(c, it);
    } else if StartsNoValue(Peek(c, it.pos)) {
      NoValueHere(c, it.pos, it.trace);
      LoopRefuses(c, it);
    } else {
      ScalarStep(c, it);
    }
  }

  lemma {:induction false} ContainerStep(c: Config, it: Iter)
    requires Proper(c) && Framed(it) && it.pos <= |c.text| && ExpectsValue(it.state)
    requires Peek(c, it.pos) == '{' as int || Peek(c, it.pos) == '[' as int
    ensures var r := ParseValue(c, it.pos, it.trace);
            (r.Ok? ==> Framed(Behind(it, r))) && IterativeLoop(c, it) == Then(c, r, Behind(it, r))
    decreases |c.text| - it.pos, 1
  {
    hide IterativeLoop, Continue, Transit, ParseObject, ParseArray, Proper, Framed, Skip;
    if Peek(c, it.pos) == '{' as int {
      ObjectStep(c, it);
    } else {
      ArrayStep(c, it);
    }
  }

  /** A scalar is parsed by both with the same call. */
  lemma ScalarStep(c: Config, it: Iter)
    requires Proper(c) && Framed(it) && it.pos <= |c.text| && ExpectsValue(it.state)
    requires IsScalarToken(Tokenize(Peek(c, it.pos))) && Peek(c, it.pos) != 0
    ensures var r := ParseValue(c, it.pos, it.trace);
            (r.Ok? ==> Framed(Behind(it, r))) && IterativeLoop(c, it) == Then(c, r, Behind(it, r))
  {
    hide ParseValue, IterativeLoop, Continue, Proper;
    LoopStep(c, it, Predict(it.state, Tokenize(Peek(c, it.pos))));
  }

  /** What the loop does with Transit's outcome. */
  function Settle(c: Config, m: Moved): Result
    requires Proper(c) && (m.Moved? ==> Framed(m.next) && m.next.pos <= |c.text|)
  {
    match m
    case Stopped(t) => Err(t)
    case Moved(next) => Continue(c, next)
  }

  lemma LoopStep(c: Config, it: Iter, dst: State)
    requires Proper(c) && Framed(it) && it.pos <= |c.text|
    requires Peek(c, it.pos) != 0 && dst == Predict(it.state, Tokenize(Peek(c, it.pos)))
    ensures IterativeLoop(c, it) == Settle(c, Transit(c, it, dst, false))
  {
  }

  lemma LoopEnd(c: Config, it: Iter)
    requires Proper(c) && Framed(it) && it.pos <= |c.text| && Peek(c, it.pos) == 0
    ensures IterativeLoop(c, it) == if it.state == Finish then Ok(it.pos, it.trace) else Err(it.trace)
  {
  }

  lemma ContinueStep(c: Config, it: Iter)
    requires Proper(c) && Framed(it) && it.pos <= |c.text| && it.state != Finish
    ensures var s := Skip(c, it.pos);
            Continue(c, it) == if s.ok then IterativeLoop(c, it.(pos := s.pos)) else Err(it.trace)
  {
  }

  /** A token that the state does not expect, or a closing token that Transit refuses. */
  lemma LoopRefuses(c: Config, it: Iter)
    requires Proper(c) && Framed(it) && it.pos <= |c.text|
    requires Peek(c, it.pos) == 0 ==> it.state != Finish
    requires Peek(c, it.pos) != 0 ==>
               var dst := Predict(it.state, Tokenize(Peek(c, it.pos)));
               dst == Error ||
               (!c.flags.trailingCommas && ((dst == ObjectFinish && it.state == MemberDelimiter) ||
                                            (dst == ArrayFinish && it.state == ElementDelimiter)))
    ensures IterativeLoop(c, it) == Err(it.trace)
  {
  }

  lemma LoopOpens(c: Config, it: Iter, isObject: bool)
    requires Proper(c) && Framed(it) && it.pos <= |c.text| && ExpectsValue(it.state)
    requires Peek(c, it.pos) == if isObject then '{' as int else '[' as int
    ensures var r := Deliver(c, it.pos + 1, it.trace, if isObject then StartObject else StartArray);
            var dst := if isObject then ObjectInitial else ArrayInitial;
            var next := if r.Ok? then Iter(dst, Frame(After(it.state), 0, it.stack), r.pos, r.trace) else it;
            (r.Ok? ==> Framed(next)) && IterativeLoop(c, it) == Then(c, r, next)
  {
    hide IterativeLoop, Continue, Transit, Proper, Returns;
    TransitOpens(c, it, isObject);
    LoopStep(c, it, if isObject then ObjectInitial else ArrayInitial);
    hide Predict, Tokenize;
    OpenedFramed(it);
  }

  lemma TransitOpens(c: Config, it: Iter, isObject: bool)
    requires Proper(c) && Framed(it) && it.pos <= |c.text| && ExpectsValue(it.state)
    requires Peek(c, it.pos) == if isObject then '{' as int else '[' as int
    ensures var dst := if isObject then ObjectInitial else ArrayInitial;
            && dst == Predict(it.state, Tokenize(Peek(c, it.pos)))
            && Transit(c, it, dst, false) == Opened(c, it, dst, if isObject then StartObject else StartArray)
  {
    hide Proper, Opened, Returns;
  }

  lemma OpenedFramed(it: Iter)
    requires Framed(it) && ExpectsValue(it.state)
    ensures Returns(Frame(After(it.state), 0, it.stack))
  {
  }

  predicate Closable(c: Config, s: State, isObject: bool) {
    if isObject then s == ObjectInitial || s == MemberValue || (c.flags.trailingCommas && s == MemberDelimiter)
    else s == ArrayInitial || s == Element || (c.flags.trailingCommas && s == ElementDelimiter)
  }

  /** The count the End event carries. */
  function FinalCount(it: Iter): nat
    requires it.stack.Frame?
  {
    if it.state == MemberValue || it.state == Element then Inc(it.stack.count) else it.stack.count
  }

  lemma TransitCloses(c: Config, it: Iter, isObject: bool)
    requires Proper(c) && Framed(it) && it.pos <= |c.text| && Closable(c, it.state, isObject)
    requires Peek(c, it.pos) == if isObject then '}' as int else ']' as int
    ensures var dst := if isObject then ObjectFinish else ArrayFinish;
            var counted := if it.state == MemberValue || it.state == Element then Counted(it) else it;
            && dst == Predict(it.state, Tokenize(Peek(c, it.pos)))
            && Transit(c, it, dst, false) == Closed(c, counted, isObject)
  {
    hide Inc;
  }

  lemma ClosedResumes(c: Config, it: Iter, isObject: bool)
    requires Framed(it) && it.stack.Frame?
    ensures var counted := if it.state == MemberValue || it.state == Element then Counted(it) else it;
            var n := FinalCount(it);
            var r := Deliver(c, it.pos + 1, it.trace, if isObject then EndObject(n) else EndArray(n));
            && (r.Ok? ==> Framed(Closing(it, r)))
            && Closed(c, counted, isObject) == if r.Ok? then Moved(Closing(it, r)) else Stopped(r.trace)
  {
    hide Inc;
    ResumeFramed(it, it.pos + 1, it.trace + [if isObject then EndObject(FinalCount(it)) else EndArray(FinalCount(it))]);
  }

  /** A closing token: the End event with the count, and the state the frame held. */
  lemma LoopCloses(c: Config, it: Iter, isObject: bool)
    requires Proper(c) && Framed(it) && it.pos <= |c.text| && Closable(c, it.state, isObject)
    requires Peek(c, it.pos) == if isObject then '}' as int else ']' as int
    ensures var n := FinalCount(it);
            var r := Deliver(c, it.pos + 1, it.trace, if isObject then EndObject(n) else EndArray(n));
            (r.Ok? ==> Framed(Closing(it, r))) && IterativeLoop(c, it) == Then(c, r, Closing(it, r))
  {
    hide IterativeLoop, Continue, Transit, Closed, Counted;
    TransitCloses(c, it, isObject);
    ClosedResumes(c, it, isObject);
    LoopStep(c, it, if isObject then ObjectFinish else ArrayFinish);
  }

  /** A comma inside a container: count what was read and move on. */
  lemma LoopDelimits(c: Config, it: Iter)
    requires Proper(c) && Framed(it) && it.pos <= |c.text| && Peek(c, it.pos) == ',' as int
    requires it.state == Element || it.state == MemberValue
    ensures var next := Delimited(it);
            && Framed(next) && next.stack.count == Inc(it.stack.count)
            && next.stack.below == it.stack.below && next.stack.state == it.stack.state
            && IterativeLoop(c, it) == Continue(c, next)
  {
    hide IterativeLoop, Continue;
    LoopStep(c, it, Delimited(it).state);
  }

  function Delimited(it: Iter): Iter
    requires it.stack.Frame?
  {
    Counted(it).(state := if it.state == Element then ElementDelimiter else MemberDelimiter, pos := it.pos + 1)
  }

  lemma {:induction false} ArrayStep(c: Config, it: Iter)
    requires Proper(c) && Framed(it) && it.pos <= |c.text| && ExpectsValue(it.state)
    requires Peek(c, it.pos) == '[' as int
    ensures var r := ParseArray(c, it.pos, it.trace);
            (r.Ok? ==> Framed(Behind(it, r))) && IterativeLoop(c, it) == Then(c, r, Behind(it, r))
    decreases |c.text| - it.pos, 0
  {
    hide Inc, IterativeLoop, Continue, Transit, ParseElements, ParseValue, Skip, Proper, Predict, Tokenize, Returns;
    LoopOpens(c, it, false);
    var r := Deliver(c, it.pos + 1, it.trace, StartArray);
    if r.Ok? {
      var next := Iter(ArrayInitial, Frame(After(it.state), 0, it.stack), r.pos, r.trace);
      ContinueStep(c, next);
      var s := Skip(c, r.pos);
      if s.ok {
        var in_ := next.(pos := s.pos);
        if Peek(c, s.pos) == ']' as int {
          LoopCloses(c, in_, false);
        } else {
          ElementsStep(c, in_);
        }
      }
    }
  }

  lemma {:induction false} ElementsStep(c: Config, it: Iter)
    requires Proper(c) && Framed(it) && it.pos <= |c.text|
    requires it.state == ArrayInitial || it.state == ElementDelimiter
    requires Peek(c, it.pos) == ']' as int ==> it.state == ElementDelimiter && !c.flags.trailingCommas
    ensures var r := ParseElements(c, it.pos, it.trace, it.stack.count);
            (r.Ok? ==> Framed(Closing(it, r))) && IterativeLoop(c, it) == Then(c, r, Closing(it, r))
    decreases |c.text| - it.pos, 3
  {
    hide IterativeLoop, Continue, Transit, AfterElement, ParseValue, Skip;
    if Peek(c, it.pos) == 0 || Peek(c, it.pos) == ']' as int {
      NoValueHere(c, it.pos, it.trace);
      LoopRefuses(c, it);
    } else {
      ValueStep(c, it);
      var r := ParseValue(c, it.pos, it.trace);
      if r.Ok? {
        ContinueStep(c, Behind(it, r));
        var s := Skip(c, r.pos);
        if s.ok {
          AfterElementStep(c, Behind(it, r).(pos := s.pos));
        }
      }
    }
  }

  lemma {:induction false} AfterElementStep(c: Config, it: Iter)
    requires Proper(c) && Framed(it) && it.pos <= |c.text| && it.state == Element
    ensures var r := AfterElement(c, it.pos, it.trace, Inc(it.stack.count));
            (r.Ok? ==> Framed(Closing(it, r))) && IterativeLoop(c, it) == Then(c, r, Closing(it, r))
    decreases |c.text| - it.pos, 2
  {
    hide IterativeLoop, Continue, Transit, ParseElements, Skip, Inc;
    if Peek(c, it.pos) == ',' as int {
      ElementCommaStep(c, it);
    } else if Peek(c, it.pos) == ']' as int {
      LoopCloses(c, it, false);
    } else {
      LoopRefuses(c, it);
    }
  }

  /** Behind an element, at a comma. */
  lemma {:induction false} ElementCommaStep(c: Config, it: Iter)
    requires Proper(c) && Framed(it) && it.pos <= |c.text| && it.state == Element && Peek(c, it.pos) == ',' as int
    ensures var r := AfterElement(c, it.pos, it.trace, Inc(it.stack.count));
            (r.Ok? ==> Framed(Closing(it, r))) && IterativeLoop(c, it) == Then(c, r, Closing(it, r))
    decreases |c.text| - it.pos, 1
  {
    hide IterativeLoop, Continue, Transit, ParseElements, Skip, Inc, Proper, Predict, Tokenize, Returns;
    LoopDelimits(c, it);
    var next := Delimited(it);
    ContinueStep(c, next);
    var s := Skip(c, next.pos);
    if s.ok {
      if c.flags.trailingCommas && Peek(c, s.pos) == ']' as int {
        LoopCloses(c, next.(pos := s.pos), false);
      } else {
        ElementsStep(c, next.(pos := s.pos));
      }
    }
  }

  lemma {:induction false} ObjectStep(c: Config, it: Iter)
    requires Proper(c) && Framed(it) && it.pos <= |c.text| && ExpectsValue(it.state)
    requires Peek(c, it.pos) == '{' as int
    ensures var r := ParseObject(c, it.pos, it.trace);
            (r.Ok? ==> Framed(Behind(it, r))) && IterativeLoop(c, it) == Then(c, r, Behind(it, r))
    decreases |c.text| - it.pos, 0
  {
    hide Inc, IterativeLoop, Continue, Transit, ParseMembers, ParseValue, Skip, Proper, Predict, Tokenize, Returns;
    LoopOpens(c, it, true);
    var r := Deliver(c, it.pos + 1, it.trace, StartObject);
    if r.Ok? {
      var next := Iter(ObjectInitial, Frame(After(it.state), 0, it.stack), r.pos, r.trace);
      ContinueStep(c, next);
      var s := Skip(c, r.pos);
      if s.ok {
        var in_ := next.(pos := s.pos);
        if Peek(c, s.pos) == '}' as int {
          LoopCloses(c, in_, true);
        } else {
          MembersStep(c, in_);
        }
      }
    }
  }

  /** From the colon to the end of the member loop. */
  function AfterKey(c: Config, p: nat, trace: seq<Event>, memberCount: nat): (r: Result)
    requires Proper(c) && p <= |c.text|
    ensures r.Ok? ==> p < r.pos <= |c.text|
  {
    if Peek(c, p) != ':' as int then Err(trace)
    else
      var s2 := Skip(c, p + 1);
      if !s2.ok then Err(trace)
      else match ParseValue(c, s2.pos, trace)
        case Err(t) => Err(t)
        case Ok(p2, t2) =>
          var s3 := Skip(c, p2);
          if !s3.ok then Err(t2) else AfterMember(c, s3.pos, t2, Inc(memberCount))
  }

  lemma MembersUnfold(c: Config, p: nat, trace: seq<Event>, memberCount: nat)
    requires Proper(c) && p <= |c.text|
    ensures var k := ParseString(c, p, trace, true);
            var s := if k.Ok? then Skip(c, k.pos) else Skipped(0, false);
            ParseMembers(c, p, trace, memberCount) ==
              if Peek(c, p) != '"' as int then Err(trace)
              else if k.Err? || !s.ok then Err(k.trace)
              else AfterKey(c, s.pos, k.trace, memberCount)
  {
    hide ParseValue, AfterMember, Skip;
  }

  lemma {:induction false} MembersStep(c: Config, it: Iter)
    requires Proper(c) && Framed(it) && it.pos <= |c.text|
    requires it.state == ObjectInitial || it.state == MemberDelimiter
    requires Peek(c, it.pos) == '}' as int ==> it.state == MemberDelimiter && !c.flags.trailingCommas
    ensures var r := ParseMembers(c, it.pos, it.trace, it.stack.count);
            (r.Ok? ==> Framed(Closing(it, r))) && IterativeLoop(c, it) == Then(c, r, Closing(it, r))
    decreases |c.text| - it.pos, 3
  {
    hide IterativeLoop, Continue, ParseMembers, AfterKey, Skip, ParseString;
    MembersUnfold(c, it.pos, it.trace, it.stack.count);
    if Peek(c, it.pos) == '"' as int {
      LoopStep(c, it, MemberKey);
      var k := ParseString(c, it.pos, it.trace, true);
      if k.Ok? {
        var next := it.(state := MemberKey, pos := k.pos, trace := k.trace);
        ContinueStep(c, next);
        var s := Skip(c, k.pos);
        if s.ok {
          AfterKeyStep(c, next.(pos := s.pos));
        }
      }
    } else {
      LoopRefuses(c, it);
    }
  }

  lemma {:induction false} AfterKeyStep(c: Config, it: Iter)
    requires Proper(c) && Framed(it) && it.pos <= |c.text| && it.state == MemberKey
    ensures var r := AfterKey(c, it.pos, it.trace, it.stack.count);
            (r.Ok? ==> Framed(Closing(it, r))) && IterativeLoop(c, it) == Then(c, r, Closing(it, r))
    decreases |c.text| - it.pos, 2
  {
    hide IterativeLoop, Continue, AfterMember, ParseValue, Skip;
    if Peek(c, it.pos) == ':' as int {
      LoopStep(c, it, KeyValueDelimiter);
      var next := it.(state := KeyValueDelimiter, pos := it.pos + 1);
      ContinueStep(c, next);
      var s := Skip(c, next.pos);
      if s.ok {
        MemberValueStep(c, next.(pos := s.pos));
      }
    } else {
      LoopRefuses(c, it);
    }
  }

  lemma {:induction false} MemberValueStep(c: Config, it: Iter)
    requires Proper(c) && Framed(it) && it.pos <= |c.text| && it.state == KeyValueDelimiter
    ensures var v := ParseValue(c, it.pos, it.trace);
            var s := if v.Ok? then Skip(c, v.pos) else Skipped(0, false);
            var r := if v.Err? then v else if !s.ok then Err(v.trace)
              else AfterMember(c, s.pos, v.trace, Inc(it.stack.count));
            (r.Ok? ==> Framed(Closing(it, r))) && IterativeLoop(c, it) == Then(c, r, Closing(it, r))
    decreases |c.text| - it.pos, 3
  {
    hide IterativeLoop, Continue, Transit, AfterMember, ParseValue, Skip;
    if Peek(c, it.pos) == 0 {
      NoValueHere(c, it.pos, it.trace);
      LoopRefuses(c, it);
    } else {
      ValueStep(c, it);
      var r := ParseValue(c, it.pos, it.trace);
      if r.Ok? {
        ContinueStep(c, Behind(it, r));
        var s := Skip(c, r.pos);
        if s.ok { AfterMemberStep(c, Behind(it, r).(pos := s.pos)); }
      }
    }
  }

  lemma {:induction false} AfterMemberStep(c: Config, it: Iter)
    requires Proper(c) && Framed(it) && it.pos <= |c.text| && it.state == MemberValue
    ensures var r := AfterMember(c, it.pos, it.trace, Inc(it.stack.count));
            (r.Ok? ==> Framed(Closing(it, r))) && IterativeLoop(c, it) == Then(c, r, Closing(it, r))
    decreases |c.text| - it.pos, 1
  {
    hide IterativeLoop, Continue, Transit, ParseMembers, Skip, Inc;
    if Peek(c, it.pos) == ',' as int {
      MemberCommaStep(c, it);
    } else if Peek(c, it.pos) == '}' as int {
      LoopCloses(c, it, true);
    } else {
      LoopRefuses(c, it);
    }
  }

  /** Behind a member, at a comma. */
  lemma {:induction false} MemberCommaStep(c: Config, it: Iter)
    requires Proper(c) && Framed(it) && it.pos <= |c.text| && it.state == MemberValue && Peek(c, it.pos) == ',' as int
    ensures var r := AfterMember(c, it.pos, it.trace, Inc(it.stack.count));
            (r.Ok? ==> Framed(Closing(it, r))) && IterativeLoop(c, it) == Then(c, r, Closing(it, r))
    decreases |c.text| - it.pos, 0
  {
    hide IterativeLoop, Continue, Transit, ParseMembers, Skip, Inc, Proper, Predict, Tokenize, Returns;
    LoopDelimits(c, it);
    var next := Delimited(it);
    ContinueStep(c, next);
    var s := Skip(c, next.pos);
    if s.ok {
      if c.flags.trailingCommas && Peek(c, s.pos) == '}' as int {
        LoopCloses(c, next.(pos := s.pos), true);
      } else {
        MembersStep(c, next.(pos := s.pos));
      }
    }
  }

  /** The iterative parser and the recursive parser agree on everything but error codes. */
  lemma IterativeIsRecursive(c: Config)
    requires Proper(c)
    ensures IterativeParse(c) == Parse(c)
  {
    hide ParseValue;
    var s := Skip(c, 0);
    if s.ok && Peek(c, s.pos) != 0 {
      ValueStep(c, Iter(Start, Empty, s.pos, []));
      var r := ParseValue(c, s.pos, []);
      if r.Ok? && !c.flags.stopWhenDone { AfterRoot(c, Iter(Finish, Empty, r.pos, r.trace)); }
    }
  }

  /** After the root only blanks may follow. */
  lemma AfterRoot(c: Config, it: Iter)
    requires Proper(c) && Framed(it) && it.pos <= |c.text| && it.state == Finish && !c.flags.stopWhenDone
    ensures var s := Skip(c, it.pos);
            Continue(c, it) == if !s.ok || Peek(c, s.pos) != 0 then Err(it.trace) else Ok(s.pos, it.trace)
  {
    hide Skip;
    var s := Skip(c, it.pos);
    if s.ok && Peek(c, s.pos) != 0 { LoopRefuses(c, it.(pos := s.pos)); }
  }
}
