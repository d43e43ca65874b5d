/** The pull parser: one event for every call, and together the events of the one-shot parser.
    It does not look at a comment error after skipping (rapidjson/reader.h, line 621), so the
    agreement holds exactly when comments are not enabled. */
module ReaderPull {
  import opened Json
  import opened Reader
  import opened ReaderEquivalence

  /** Every move but a delimiter delivers exactly one event. */
  ghost predicate OneMore(before: seq<Event>, after: seq<Event>) {
    |after| == |before| + 1 && before <= after
  }

  lemma ScalarDelivers(c: Config, p: nat, trace: seq<Event>)
    requires Proper(c) && p <= |c.text| && IsScalarToken(Tokenize(Peek(c, p)))
    ensures var r := ParseValue(c, p, trace); r.Ok? ==> OneMore(trace, r.trace)
  {
  }

  lemma TransitDelivers(c: Config, it: Iter, dst: State, hasError: bool)
    requires Proper(c) && Framed(it) && it.pos <= |c.text| && dst == Predict(it.state, Tokenize(Peek(c, it.pos)))
    ensures var m := Transit(c, it, dst, hasError);
            m.Moved? ==> if IsDelimiter(dst) then m.next.trace == it.trace && m.next.state == dst
                         else OneMore(it.trace, m.next.trace)
  {
    hide ParseValue;
    if IsScalarToken(Tokenize(Peek(c, it.pos))) {
      ScalarDelivers(c, it.pos, it.trace);
    }
  }

  lemma PlainSkip(c: Config, p: nat)
    requires p <= |c.text| && !c.flags.comments
    ensures Skip(c, p).ok
    ensures Peek(c, p) == 0 ==> Skip(c, p).pos == p
  {
  }

  /** The one-shot parser from where the pull parser stands. */
  function Rest(c: Config, it: Iter): Result
    requires Proper(c) && Framed(it) && it.pos <= |c.text|
  {
    IterativeLoop(c, it.(pos := Skip(c, it.pos).pos))
  }

  /** What one call of IterativeParseNext promises. */
  ghost predicate CallDone(c: Config, s: Pull, r: Called)
    requires Proper(c) && Framed(s.it) && s.it.pos <= |c.text| && Framed(r.state.it) && r.state.it.pos <= |c.text|
  {
    if !r.ok then Rest(c, s.it) == Err(r.state.it.trace)
    else
      && !r.state.error
      && OneMore(s.it.trace, r.state.it.trace)
      && Rest(c, s.it) == if r.state.it.state == Finish then Ok(r.state.it.pos, r.state.it.trace)
         else Rest(c, r.state.it)
  }

  lemma {:induction false} NextIsLoop(c: Config, s: Pull)
    requires Proper(c) && Framed(s.it) && s.it.pos <= |c.text| && s.it.state != Finish
    requires !c.flags.comments && !s.error
    ensures CallDone(c, s, Next(c, s))
    decreases |c.text| - s.it.pos
  {
    hide Transit, IterativeLoop, Continue, Skip;
    PlainSkip(c, s.it.pos);
    var k := Skip(c, s.it.pos);
    var at := s.it.(pos := k.pos);
    var dst := Predict(at.state, Tokenize(Peek(c, k.pos)));
    if Peek(c, s.it.pos) == 0 {
      LoopEnd(c, s.it);
    } else if Peek(c, k.pos) == 0 {
      LoopEnd(c, at);
      EndOfText(c, at);
    } else {
      LoopStep(c, at, dst);
      TransitDelivers(c, at, dst, false);
      var m := Transit(c, at, dst, false);
      if m.Moved? {
        PlainSkip(c, m.next.pos);
        if m.next.state != Finish {
          ContinueStep(c, m.next);
          if IsDelimiter(dst) { NextIsLoop(c, Pull(m.next, false)); }
        } else if c.flags.stopWhenDone {
          StopsWhenDone(c, m.next);
        } else {
          AfterRoot(c, m.next);
        }
      }
    }
  }

  lemma StopsWhenDone(c: Config, it: Iter)
    requires Proper(c) && Framed(it) && it.pos <= |c.text| && it.state == Finish && c.flags.stopWhenDone
    ensures Continue(c, it) == Ok(it.pos, it.trace)
  {
  }

  /** At the end of the text no token can be read: Tokenize gives a number, and there is none. */
  lemma EndOfText(c: Config, it: Iter)
    requires Proper(c) && Framed(it) && it.pos <= |c.text| && Peek(c, it.pos) == 0
    ensures Transit(c, it, Predict(it.state, Tokenize(Peek(c, it.pos))), false) == Stopped(it.trace)
  {
    NoValueHere(c, it.pos, it.trace);
  }

  lemma {:induction false} PullLoopIsLoop(c: Config, s: Pull)
    requires Proper(c) && Framed(s.it) && s.it.pos <= |c.text| && s.it.state != Finish
    requires !c.flags.comments && !s.error
    ensures PullLoop(c, s) == Rest(c, s.it)
    decreases |c.text| - s.it.pos
  {
    hide Next, IterativeLoop, Skip;
    NextIsLoop(c, s);
    var r := Next(c, s);
    if r.ok && r.state.it.state != Finish { PullLoopIsLoop(c, r.state); }
  }

  /** Without the comments flag, pulling event after event is the one-shot parse. */
  lemma PullIsIterative(c: Config)
    requires Proper(c) && !c.flags.comments
    ensures PullParse(c) == IterativeParse(c)
  {
    hide IterativeLoop, PullLoop, Skip;
    PlainSkip(c, 0);
    PullLoopIsLoop(c, Pull(Iter(Start, Empty, 0, []), false));
  }

  /** "/[" with comments enabled: the one-shot parser stops at the broken comment, the pull
      parser goes on and reports the start of an array. */
  lemma CommentErrorIsPulledOver(flags: Flags)
    requires flags.comments
    ensures exists c: Config :: c.flags == flags && Proper(c) &&
              PullParse(c) == Err([StartArray]) && IterativeParse(c) == Err([])
  {
    var c := Config(['/' as int, '[' as int], flags, _ => None, _ => None, _ => true);
    assert Skip(c, 0) == Skipped(1, false);
    var start := Pull(Iter(Start, Empty, 0, []), false);
    var next := Iter(ArrayInitial, Frame(Start, 0, Empty), 2, [StartArray]);
    assert Opened(c, start.it.(pos := 1), ArrayInitial, StartArray) == Moved(next);
    assert Next(c, start) == Called(Pull(next, true), true);
    assert Next(c, Pull(next, true)) == Called(Pull(next, true), false);
    assert PullLoop(c, Pull(next, true)) == Err([StartArray]);
  }

  /** The exact condition, over all texts, scalar parsers and handlers. */
  lemma PullAgreesExactlyWithoutComments(flags: Flags)
    ensures !flags.comments <==>
            forall c: Config :: c.flags == flags && Proper(c) ==> PullParse(c) == IterativeParse(c)
  {
    if flags.comments {
      CommentErrorIsPulledOver(flags);
    } else {
      forall c: Config | c.flags == flags && Proper(c)
        ensures PullParse(c) == IterativeParse(c)
      {
        PullIsIterative(c);
      }
    }
  }
}
