/** URI fragments against section 6 of RFC 6901, which decodes the percent triplets first and then
    parses the pointer. Parse (rapidjson/pointer.h) does both in one pass. */
module PointerFragment {
  import opened Json
  import opened Streams
  import opened Pointer
  import E = Encodings
  import M = PointerMachine

  /** The fragment from i on with its percent triplets decoded. */
  function Decoded(s: bytes, i: nat): bytes
    decreases if i <= |s| then |s| - i else 0
  {
    if i >= |s| then []
    else match Triplet(s, i)
      case Some(b) => [b] + Decoded(s, i + 3)
      case None => [s[i]] + Decoded(s, i + 1)
  }

  /** Some triplet from i on decodes to a slash. */
  predicate EncodesSlash(s: bytes, i: nat)
    decreases if i <= |s| then |s| - i else 0
  {
    i < |s| && match Triplet(s, i)
               case Some(b) => b == SLASH || EncodesSlash(s, i + 3)
               case None => EncodesSlash(s, i + 1)
  }

  /** d continues at j as the decoded fragment does at i. */
  predicate Follows(d: bytes, j: nat, s: bytes, i: nat) { j <= |d| && d[j..] == Decoded(s, i) }

  lemma FollowsOne(d: bytes, j: nat, s: bytes, i: nat)
    requires Follows(d, j, s, i) && i < |s|
    ensures j < |d|
    ensures match Triplet(s, i)
            case Some(b) => d[j] == b && Follows(d, j + 1, s, i + 3)
            case None => d[j] == s[i] && Follows(d, j + 1, s, i + 1)
  {
    hide Triplet;
    assert d[j] == d[j..][0] && d[j + 1..] == d[j..][1..];
  }

  lemma {:induction false} FollowsMany(d: bytes, j: nat, s: bytes, i: nat, n: nat)
    requires Follows(d, j, s, i) && i <= |s| && Triplets(s, i, n).Some? && !EncodesSlash(s, i)
    ensures j + n <= |d| && d[j..j + n] == Triplets(s, i, n).value && Follows(d, j + n, s, i + 3 * n)
    ensures !EncodesSlash(s, i + 3 * n)
    decreases n
  {
    hide Triplet, Follows;
    if n > 0 {
      assert i < |s| by { M.TripletHasNoSlash(s, i); }
      FollowsOne(d, j, s, i);
      FollowsMany(d, j + 1, s, i + 3, n - 1);
      assert d[j..j + n] == [d[j]] + d[j + 1..j + n];
    } else {
      assert d[j..j] == [] by { assert j <= |d| by { FollowsInside(d, j, s, i); } }
    }
  }

  lemma FollowsInside(d: bytes, j: nat, s: bytes, i: nat)
    requires Follows(d, j, s, i)
    ensures j <= |d| && (i >= |s| ==> j == |d|)
  {
    assert i >= |s| ==> |d[j..]| == 0;
  }

  // ----- one name -----

  /** Bytes beyond ASCII are taken one by one. */
  lemma {:induction false} PlainBytes(d: bytes, j: nat, n: nat)
    requires j + n <= |d| && forall k :: j <= k < j + n ==> d[k] >= 0x80
    ensures ParseName(d, j, false) == Prepend(d[j..j + n], ParseName(d, j + n, false))
    decreases n
  {
    if n > 0 {
      PlainBytes(d, j + 1, n - 1);
      M.PrependTwice([d[j]], d[j + 1..j + n], ParseName(d, j + n, false));
      assert d[j..j + n] == [d[j]] + d[j + 1..j + n];
    } else {
      M.NothingPut(ParseName(d, j, false));
    }
  }

  lemma SequenceIsHigh(w: bytes)
    requires |w| > 1 && E.Decode(w, 0).ok && E.Decode(w, 0).taken == |w|
    ensures forall k :: 0 <= k < |w| ==> w[k] >= 0x80
  {
    E.DecodeIsRfc(w, 0);
    hide E.Decode;
  }

  /** The character c, whose encoding ends in front of i, and an escape it may begin. */
  lemma EscapeDecoded(d: bytes, j: nat, s: bytes, i: nat, c: byte) returns (j': nat)
    requires j < |d| && d[j] == c && c != SLASH && Follows(d, j + 1, s, i)
    requires EscapeRound(s, i, c).Emit? && i <= |s| && !EncodesSlash(s, i)
    ensures var r := EscapeRound(s, i, c);
            && Follows(d, j', s, r.next) && !EncodesSlash(s, r.next)
            && ParseName(d, j, false) == Prepend(r.codeunits, ParseName(d, j', false))
  {
    j' := j + 1;
    if c == TILDE {
      assert Triplet(s, i).None?;
      FollowsOne(d, j + 1, s, i);
      j' := j + 2;
    }
  }

  /** A round of the fragment is a round, or several, of the decoded text. */
  lemma RoundDecoded(d: bytes, j: nat, s: bytes, i: nat) returns (j': nat)
    requires i < |s| && s[i] != SLASH && NextRound(s, i, true).Emit?
    requires Follows(d, j, s, i) && !EncodesSlash(s, i)
    ensures var r := NextRound(s, i, true);
            && Follows(d, j', s, r.next) && !EncodesSlash(s, r.next)
            && ParseName(d, j, false) == Prepend(r.codeunits, ParseName(d, j', false))
  {
    hide EscapeRound, ParseName, Prepend, Follows;
    if s[i] != PERCENT {
      assert Triplet(s, i).None?;
      FollowsOne(d, j, s, i);
      j' := EscapeDecoded(d, j, s, i + 1, s[i]);
    } else {
      j' := PercentDecoded(d, j, s, i);
    }
  }

  lemma PercentDecoded(d: bytes, j: nat, s: bytes, i: nat) returns (j': nat)
    requires i < |s| && s[i] == PERCENT && PercentRound(s, i).Emit?
    requires Follows(d, j, s, i) && !EncodesSlash(s, i)
    ensures var r := PercentRound(s, i);
            && Follows(d, j', s, r.next) && !EncodesSlash(s, r.next)
            && ParseName(d, j, false) == Prepend(r.codeunits, ParseName(d, j', false))
  {
    hide Triplet, Triplets, EscapeRound, ParseName, Prepend, Follows, E.Decode, SequenceTakes;
    var b := Triplet(s, i).value;
    var n := SequenceTakes(b);
    if n == 1 {
      M.TripletHasNoSlash(s, i);
      FollowsOne(d, j, s, i);
      j' := EscapeDecoded(d, j, s, i + 3, b);
    } else {
      var w := Triplets(s, i, n).value;
      FollowsMany(d, j, s, i, n);
      TakesOfSequence(s, i, n);
      SequenceIsHigh(w);
      assert forall k :: j <= k < j + n ==> d[k] == d[j..j + n][k - j];
      PlainBytes(d, j, n);
      j' := j + n;
    }
  }

  lemma TakesOfSequence(s: bytes, i: nat, n: nat)
    requires Triplet(s, i).Some? && n == SequenceTakes(Triplet(s, i).value) > 1 && Triplets(s, i, n).Some?
    ensures |Triplets(s, i, n).value| == n && E.Decode(Triplets(s, i, n).value, 0).taken == n
  {
    hide Triplet, E.Decode;
    TakesByFirst(Triplets(s, i, n).value, 0);
  }

  lemma {:induction false} NameDecoded(d: bytes, j: nat, s: bytes, i: nat) returns (j': nat)
    requires i <= |s| && ParseName(s, i, true).Named? && Follows(d, j, s, i) && !EncodesSlash(s, i)
    ensures var n := ParseName(s, i, true);
            && i <= n.next <= |s| && Follows(d, j', s, n.next) && !EncodesSlash(s, n.next)
            && ParseName(d, j, false) == Named(j', n.name)
    decreases |s| - i
  {
    hide NextRound, Follows, EncodesSlash;
    FollowsInside(d, j, s, i);
    j' := j;
    if i < |s| && s[i] == SLASH {
      assert Triplet(s, i).None?;
      FollowsOne(d, j, s, i);
    } else if i < |s| {
      var r := NextRound(s, i, true);
      RoundAdvances(s, i, true);
      var mid := RoundDecoded(d, j, s, i);
      j' := NameDecoded(d, mid, s, r.next);
    }
  }

  // ----- all names -----

  lemma {:induction false} TokensDecoded(d: bytes, j: nat, s: bytes, i: nat)
    requires i <= |s| && (i < |s| ==> s[i] == SLASH) && ParseTokens(s, i, true).Tokens?
    requires Follows(d, j, s, i) && !EncodesSlash(s, i)
    ensures j <= |d| && ParseTokens(d, j, false) == ParseTokens(s, i, true)
    decreases |s| - i
  {
    hide ParseName, IndexOf, Follows;
    FollowsInside(d, j, s, i);
    if i < |s| {
      assert Triplet(s, i).None?;
      FollowsOne(d, j, s, i);
      FollowsInside(d, j + 1, s, i + 1);
      var n := ParseName(s, i + 1, true);
      NameInside(s, i + 1, true);
      var j' := NameDecoded(d, j + 1, s, i + 1);
      NameInside(d, j + 1, false);
      TokensDecoded(d, j', s, n.next);
    }
  }

  // ----- counting slashes -----

  lemma {:induction false} NameHasNoSlash(s: bytes, i: nat, uri: bool)
    requires i <= |s| && ParseName(s, i, uri).Named?
    ensures M.Slashes(s, i) == M.Slashes(s, ParseName(s, i, uri).next)
    decreases |s| - i
  {
    hide NextRound;
    if i < |s| && s[i] != SLASH {
      M.RoundHasNoSlash(s, i, uri);
      NameHasNoSlash(s, NextRound(s, i, uri).next, uri);
    }
  }

  /** There are as many tokens as slashes. */
  lemma {:induction false} TokensCount(s: bytes, i: nat, uri: bool)
    requires i <= |s| && (i < |s| ==> s[i] == SLASH) && ParseTokens(s, i, uri).Tokens?
    ensures |ParseTokens(s, i, uri).tokens| == M.Slashes(s, i)
    decreases |s| - i
  {
    hide ParseName, IndexOf;
    if i < |s| {
      NameInside(s, i + 1, uri);
      NameHasNoSlash(s, i + 1, uri);
      TokensCount(s, ParseName(s, i + 1, uri).next, uri);
    }
  }

  lemma {:induction false} SlashesShift(b: byte, w: bytes, k: nat)
    requires k <= |w|
    ensures M.Slashes([b] + w, k + 1) == M.Slashes(w, k)
    decreases |w| - k
  {
    if k < |w| {
      assert ([b] + w)[k + 1] == w[k];
      SlashesShift(b, w, k + 1);
    }
  }

  /** Decoding leaves the slashes and may add others. */
  lemma {:induction false} SlashesDecoded(s: bytes, i: nat)
    requires i <= |s|
    ensures M.Slashes(Decoded(s, i), 0) >= M.Slashes(s, i)
    ensures EncodesSlash(s, i) ==> M.Slashes(Decoded(s, i), 0) > M.Slashes(s, i)
    decreases |s| - i
  {
    if i < |s| {
      var k := if Triplet(s, i).Some? then i + 3 else i + 1;
      if Triplet(s, i).Some? {
        M.TripletHasNoSlash(s, i);
        M.NoSlashes(s, i, i + 3);
      }
      hide Triplet;
      SlashesDecoded(s, k);
      SlashesShift(if Triplet(s, i).Some? then Triplet(s, i).value else s[i], Decoded(s, k), 0);
    }
  }

  // ----- whole fragments -----

  /** What stands behind the hash sign of the fragment. */
  function Fragment(t: bytes): bytes { [HASH] + t }

  /** An accepted fragment is parsed as decoding first would have it exactly when no triplet decodes to
      a slash: the code keeps such a slash inside its token. */
  lemma DecodingFirstExactly(t: bytes)
    requires Parse(Fragment(t)).Tokens?
    ensures Parse(Fragment(t)) == Parse(Decoded(Fragment(t), 1)) <==> !EncodesSlash(Fragment(t), 1)
  {
    hide ParseTokens;
    var s := Fragment(t);
    var d := Decoded(s, 1);
    DecodedStart(s);
    assert Parse(d) == ParseTokens(d, 0, false);
    if EncodesSlash(s, 1) {
      SlashesDecoded(s, 1);
      TokensCount(s, 1, true);
      if Parse(d).Tokens? { TokensCount(d, 0, false); }
    } else {
      assert d[0..] == d;
      TokensDecoded(d, 0, s, 1);
    }
  }

  lemma DecodedStart(s: bytes)
    requires s != [] && (|s| > 1 ==> s[1] == SLASH)
    ensures var d := Decoded(s, 1); d != [] ==> d[0] == SLASH
  {
    assert |s| > 1 ==> Triplet(s, 1).None?;
  }

  /** "#/%2F" is one token, where decoding first gives two. */
  lemma EncodedSlashStays(t: bytes)
    requires t == [SLASH, PERCENT, '2' as int, 'F' as int]
    ensures Parse(Fragment(t)) == Tokens([Token([SLASH], INVALID_INDEX)])
    ensures Decoded(Fragment(t), 1) == [SLASH, SLASH]
  {
    var s, slash := Fragment(t), SLASH;
    assert Triplet(s, 2) == Some(slash) && Triplet(s, 1).None?;
    assert Decoded(s, 5) == [];
    assert SequenceTakes(slash) == 1 && Triplets(s, 5, 0) == Some([]) && [slash] + [] == [slash];
    assert Triplets(s, 2, 1) == Some([slash]);
    assert E.Decode([slash], 0).ok;
    assert NextRound(s, 2, true) == Emit(5, [slash]);
    hide Triplet, Triplets, NextRound, E.Decode, SequenceTakes;
    assert ParseName(s, 5, true) == Named(5, []);
    assert ParseName(s, 2, true) == Named(5, [slash]);
    assert ParseTokens(s, 5, true) == Tokens([]);
    assert IndexOf([slash]) == INVALID_INDEX;
  }

  /** "#/~%30" is refused, where decoding first gives the name "~". */
  lemma EncodedEscapeIsRefused(t: bytes)
    requires t == [SLASH, TILDE, PERCENT, '3' as int, '0' as int]
    ensures Parse(Fragment(t)) == Failed(InvalidEscape, 3)
    ensures Decoded(Fragment(t), 1) == [SLASH, TILDE, '0' as int]
    ensures Parse(Decoded(Fragment(t), 1)) == Tokens([Token([TILDE], INVALID_INDEX)])
  {
    var s, tilde := Fragment(t), TILDE;
    var zero: byte := '0' as int;
    assert Triplet(s, 3) == Some(zero) && Triplet(s, 1).None? && Triplet(s, 2).None?;
    assert Decoded(s, 6) == [];
    assert Decoded(s, 3) == [zero];
    assert Decoded(s, 2) == [tilde, zero];
    assert NextRound(s, 2, true) == Fail(InvalidEscape, 3);
    assert ParseName(s, 2, true) == BadName(InvalidEscape, 3);
    var d := Decoded(s, 1);
    assert d == [SLASH, tilde, zero];
    hide Decoded, Triplet;
    assert NextRound(d, 1, false) == Emit(3, [tilde]);
    assert ParseName(d, 3, false) == Named(3, []);
    assert ParseName(d, 1, false) == Named(3, [tilde]);
    assert ParseTokens(d, 3, false) == Tokens([]);
    assert IndexOf([tilde]) == INVALID_INDEX;
  }
}
