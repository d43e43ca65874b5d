/** JSON Pointer text (rapidjson/pointer.h): Parse and Stringify, in string form and in URI
    fragment form (sections 3, 4 and 6 of RFC 6901). */
module Pointer {
  import opened Json
  import opened Streams
  import opened Decimal
  import E = Encodings
  import S = Strings
  import W = Writer

  const INVALID_INDEX: nat := 0xFFFF_FFFF

  datatype Token = Token(name: bytes, index: nat)

  datatype Error = TokenMustBeginWithSolidus | InvalidEscape | InvalidPercentEncoding | CharacterMustPercentEncode

  datatype Parsed = Tokens(tokens: seq<Token>) | Failed(error: Error, offset: nat)

  const TILDE: byte := '~' as int
  const SLASH: byte := '/' as int
  const PERCENT: byte := '%' as int
  const HASH: byte := '#' as int

  // ----- indices -----

  predicate AllDigits(name: bytes) { forall i :: 0 <= i < |name| ==> IsDigit(name[i]) }

  /** A token that can be an index: digits, without a leading zero. */
  predicate IsNumber(name: bytes) { name != [] && AllDigits(name) && (|name| > 1 ==> name[0] != '0' as int) }

  /** The conversion loop from the j-th digit on, in 32 bits; m < n is its overflow test. */
  function ToIndex(name: bytes, j: nat, n: nat): (r: nat)
    requires AllDigits(name) && j <= |name| && n <= UINT32_MAX
    ensures r <= UINT32_MAX
    decreases |name| - j
  {
    if j == |name| then n
    else
      var m := (n * 10 + (name[j] - '0' as int)) % 0x1_0000_0000;
      if m < n then INVALID_INDEX else ToIndex(name, j + 1, m)
  }

  function IndexOf(name: bytes): nat { if IsNumber(name) then ToIndex(name, 0, 0) else INVALID_INDEX }

  lemma {:induction false} ValueNotNegative(ds: bytes)
    requires AllDigits(ds)
    ensures ValueOf(ds) >= 0
  {
    if ds != [] { ValueNotNegative(ds[..|ds| - 1]); }
  }

  /** As long as the value fits 32 bits the loop has it. */
  lemma {:induction false} ToIndexSkips(name: bytes, j: nat)
    requires AllDigits(name) && j <= |name| && ValueOf(name[..j]) <= UINT32_MAX
    ensures 0 <= ValueOf(name[..j]) && ToIndex(name, 0, 0) == ToIndex(name, j, ValueOf(name[..j]))
  {
    ValueNotNegative(name[..j]);
    if j > 0 {
      assert name[..j][..j - 1] == name[..j - 1];
      ValueNotNegative(name[..j - 1]);
      ToIndexSkips(name, j - 1);
    } else {
      assert name[..0] == [];
    }
  }

  /** The index of a number token is its value exactly when the value fits 32 bits (where the
      largest one is the mark of an invalid index). */
  lemma IndexExactly(name: bytes)
    requires IsNumber(name)
    ensures IndexOf(name) == ValueOf(name) <==> ValueOf(name) <= UINT32_MAX
  {
    if ValueOf(name) <= UINT32_MAX {
      assert name[..|name|] == name;
      ToIndexSkips(name, |name|);
    }
  }

  /** The value of the first j digits, as the 32-bit loop has it. */
  function Prefix32(name: bytes, j: nat): nat
    requires j <= |name| && AllDigits(name)
  {
    ValueNotNegative(name[..j]);
    ValueOf(name[..j]) % 0x1_0000_0000
  }

  /** The guard of the overflow test at the k-th digit: the wrapped value gets smaller. */
  predicate Drops(name: bytes, k: nat)
    requires k < |name| && AllDigits(name)
  {
    Prefix32(name, k + 1) < Prefix32(name, k)
  }

  lemma WrapsOn(v: nat, d: nat)
    ensures (v % 0x1_0000_0000 * 10 + d) % 0x1_0000_0000 == (10 * v + d) % 0x1_0000_0000
  {
    assert 10 * v + d == v % 0x1_0000_0000 * 10 + d + v / 0x1_0000_0000 * 10 * 0x1_0000_0000;
    WrapsOff(v % 0x1_0000_0000 * 10 + d, v / 0x1_0000_0000 * 10);
  }

  lemma {:induction false} WrapsOff(x: nat, k: nat)
    ensures (x + k * 0x1_0000_0000) % 0x1_0000_0000 == x % 0x1_0000_0000
  {
    if k > 0 { WrapsOff(x, k - 1); }
  }

  lemma NextPrefix(name: bytes, j: nat)
    requires AllDigits(name) && j < |name|
    ensures Prefix32(name, j + 1) == (Prefix32(name, j) * 10 + (name[j] - '0' as int)) % 0x1_0000_0000
  {
    assert name[..j + 1][..j] == name[..j];
    ValueNotNegative(name[..j]);
    WrapsOn(ValueOf(name[..j]), name[j] - '0' as int);
  }

  lemma {:induction false} LoopExactly(name: bytes, j: nat)
    requires AllDigits(name) && j <= |name|
    ensures ToIndex(name, j, Prefix32(name, j)) ==
            if exists k :: j <= k < |name| && Drops(name, k) then INVALID_INDEX else Prefix32(name, |name|)
    decreases |name| - j
  {
    hide Prefix32;
    if j < |name| {
      NextPrefix(name, j);
      LoopExactly(name, j + 1);
      assert Drops(name, j) <==> Prefix32(name, j + 1) < Prefix32(name, j);
      assert (exists k :: j <= k < |name| && Drops(name, k)) <==>
             Drops(name, j) || exists k :: j + 1 <= k < |name| && Drops(name, k);
    }
  }

  /** What every number token, of any length, gets for an index: the invalid one exactly when the
      wrapped value drops at some digit, or ends on the mark itself; otherwise the value modulo 2^32. */
  lemma IndexOfEveryNumber(name: bytes)
    requires IsNumber(name)
    ensures var dropped := exists k :: 0 <= k < |name| && Drops(name, k);
            && 0 <= ValueOf(name)
            && (IndexOf(name) == INVALID_INDEX <==> dropped || ValueOf(name) % 0x1_0000_0000 == INVALID_INDEX)
            && (IndexOf(name) != INVALID_INDEX ==> IndexOf(name) == ValueOf(name) % 0x1_0000_0000)
  {
    assert name[..0] == [] && name[..|name|] == name;
    ValueNotNegative(name);
    assert Prefix32(name, |name|) == ValueOf(name) % 0x1_0000_0000;
    assert Prefix32(name, 0) == 0;
    assert IndexOf(name) == ToIndex(name, 0, 0);
    hide ValueOf, ToIndex, IndexOf, Prefix32, Drops, IsNumber;
    LoopExactly(name, 0);
  }

  /** The documentation promises an invalid index for a number beyond SizeType; it gets one exactly
      when the wrapped value drops at some digit, or ends on the mark. */
  lemma OverflowIsCaughtExactly(name: bytes)
    requires IsNumber(name) && ValueOf(name) > UINT32_MAX
    ensures IndexOf(name) == INVALID_INDEX <==>
            (exists k :: 0 <= k < |name| && Drops(name, k)) || ValueOf(name) % 0x1_0000_0000 == INVALID_INDEX
  {
    hide *;
    IndexOfEveryNumber(name);
  }

  /** A zero at j that the overflow test lets through. */
  lemma ZeroPasses(name: bytes, j: nat, n: nat)
    requires AllDigits(name) && j < |name| && name[j] == '0' as int && n <= n * 10 % 0x1_0000_0000 <= UINT32_MAX
    ensures ToIndex(name, j, n) == ToIndex(name, j + 1, n * 10 % 0x1_0000_0000)
  {
  }

  lemma AtEnd(name: bytes, n: nat)
    requires AllDigits(name) && n <= UINT32_MAX
    ensures ToIndex(name, |name|, n) == n
  {
  }

  lemma LastDigit(n: nat)
    requires n >= 10
    ensures var w := Digits(n);
            |w| > 1 && w[..|w| - 1] == Digits(n / 10) && w[|w| - 1] == '0' as int + n % 10
  {
    DigitsRoundTrip(n / 10);
    assert Digits(n)[..|Digits(n)| - 1] == Digits(n / 10);
  }

  /** Five thousand million is missed at its last digit, and taken for the index 705032704. */
  lemma OverflowIsMissed(name: bytes)
    requires name == Digits(5000000000)
    ensures IsNumber(name) && ValueOf(name) == 5000000000 && IndexOf(name) == 705032704
  {
    hide Digits, ValueOf, ToIndex;
    DigitsRoundTrip(5000000000);
    DigitsRoundTrip(500000000);
    LastDigit(5000000000);
    var j := |name| - 1;
    ToIndexSkips(name, j);
    ZeroPasses(name, j, 500000000);
    AtEnd(name, 705032704);
  }

  /** Fifty thousand million is missed too, although it leaves 32 bits before its last digit. */
  lemma OverflowIsMissedEarlier(name: bytes)
    requires name == Digits(50000000000)
    ensures IsNumber(name) && ValueOf(name) == 50000000000 && IndexOf(name) == 2755359744
  {
    hide Digits, ValueOf, ToIndex;
    DigitsRoundTrip(50000000000);
    DigitsRoundTrip(500000000);
    LastDigit(50000000000);
    LastDigit(5000000000);
    var j := |name| - 2;
    assert name[..j + 1][..j] == name[..j];
    ToIndexSkips(name, j);
    ZeroPasses(name, j, 500000000);
    ZeroPasses(name, j + 1, 705032704);
    AtEnd(name, 2755359744);
  }

  // ----- parsing -----

  /** NeedPercentEncode: not an unreserved character of section 2.3 of RFC 3986. */
  predicate NeedPercentEncode(c: byte) {
    !(('0' as int <= c <= '9' as int) || ('A' as int <= c <= 'Z' as int) || ('a' as int <= c <= 'z' as int)
      || c == '-' as int || c == '.' as int || c == '_' as int || c == TILDE)
  }

  /** A %XY triplet at i, inside the source. */
  function Triplet(s: bytes, i: nat): Option<byte> {
    if i + 3 > |s| || s[i] != PERCENT then None
    else
      var high, low := S.HexValue(s[i + 1]), S.HexValue(s[i + 2]);
      if high.None? || low.None? || high.value * 0x10 + low.value >= 0x100 then None
        else Some(high.value * 0x10 + low.value)
  }

  /** n triplets at i, one behind the other. */
  function Triplets(s: bytes, i: nat, n: nat): (r: Option<bytes>)
    ensures r.Some? ==> |r.value| == n && (n > 0 ==> i + 3 * n <= |s|)
    decreases n
  {
    if n == 0 then Some([])
    else
      var first, rest := Triplet(s, i), Triplets(s, i + 3, n - 1);
      if first.None? || rest.None? then None else Some([first.value] + rest.value)
  }

  /** How many bytes Validate takes for a sequence that begins with b. */
  function SequenceTakes(b: byte): (n: nat)
    ensures 1 <= n <= 4
  {
    E.Decode([b], 0).taken
  }

  /** How many bytes Decode takes depends on the first byte only. */
  lemma TakesByFirst(s: bytes, p: nat)
    requires p < |s|
    ensures E.Decode(s, p).taken == SequenceTakes(s[p])
  {
    hide E.InRange, E.GetRange, E.LeadBits, E.AddBits;
  }

  /** One round of the inner loop: some bytes of the name, or an error and its offset. */
  datatype Round = Emit(next: nat, codeunits: bytes) | Fail(error: Error, offset: nat)

  /** The character c whose encoding ended in front of i: a tilde starts an escape. */
  function EscapeRound(s: bytes, i: nat, c: byte): Round {
    if c != TILDE then Emit(i, [c])
    else if i < |s| && s[i] == '0' as int then Emit(i + 1, [TILDE])
    else if i < |s| && s[i] == '1' as int then Emit(i + 1, [SLASH])
    else Fail(InvalidEscape, i)
  }

  /** A percent sign in a URI fragment: a sequence of UTF-8, of which a single byte counts as a character. */
  function PercentRound(s: bytes, i: nat): Round {
    match Triplet(s, i)
    case None => Fail(InvalidPercentEncoding, i)
    case Some(b) =>
      var n := SequenceTakes(b);
      match Triplets(s, i, n)
      case None => Fail(InvalidPercentEncoding, i)
      case Some(w) =>
        if !E.Decode(w, 0).ok then Fail(InvalidPercentEncoding, i)
        else if n == 1 then EscapeRound(s, i + 3, b)
        else Emit(i + 3 * n, w)
  }

  function NextRound(s: bytes, i: nat, uri: bool): Round
    requires i < |s|
  {
    if uri && s[i] == PERCENT then PercentRound(s, i)
    else if uri && NeedPercentEncode(s[i]) then Fail(CharacterMustPercentEncode, i)
    else EscapeRound(s, i + 1, s[i])
  }

  lemma RoundAdvances(s: bytes, i: nat, uri: bool)
    requires i < |s| && NextRound(s, i, uri).Emit?
    ensures var r := NextRound(s, i, uri); i < r.next <= |s| && 1 <= |r.codeunits| <= r.next - i
  {
    hide S.HexValue, E.Decode;
  }

  /** The rest of a name up to the next slash or the end. */
  datatype Name = Named(next: nat, name: bytes) | BadName(error: Error, offset: nat)

  function ParseName(s: bytes, i: nat, uri: bool): Name
    requires i <= |s|
    decreases |s| - i
  {
    if i == |s| || s[i] == SLASH then Named(i, [])
    else match NextRound(s, i, uri)
      case Fail(error, offset) => BadName(error, offset)
      case Emit(next, codeunits) =>
        RoundAdvances(s, i, uri);
        Prepend(codeunits, ParseName(s, next, uri))
  }

  function Prepend(w: bytes, n: Name): Name { if n.Named? then Named(n.next, w + n.name) else n }

  lemma {:induction false} NameInside(s: bytes, i: nat, uri: bool)
    requires i <= |s| && ParseName(s, i, uri).Named?
    ensures var n := ParseName(s, i, uri);
            i <= n.next <= |s| && (n.next < |s| ==> s[n.next] == SLASH) && |n.name| <= n.next - i
    decreases |s| - i
  {
    hide NextRound;
    if i < |s| && s[i] != SLASH {
      RoundAdvances(s, i, uri);
      NameInside(s, NextRound(s, i, uri).next, uri);
    }
  }

  /** The outer loop from i, where a slash stands unless the source has ended. */
  function ParseTokens(s: bytes, i: nat, uri: bool): Parsed
    requires i <= |s|
    decreases |s| - i
  {
    if i == |s| then Tokens([])
    else match ParseName(s, i + 1, uri)
      case BadName(error, offset) => Failed(error, offset)
      case Named(next, name) =>
        NameInside(s, i + 1, uri);
        match ParseTokens(s, next, uri)
        case Failed(error, offset) => Failed(error, offset)
        case Tokens(rest) => Tokens([Token(name, IndexOf(name))] + rest)
  }

  function Parse(s: bytes): Parsed {
    var uri := At(s, 0, 0) == HASH;
    var i := if uri then 1 else 0;
    if i != |s| && s[i] != SLASH then Failed(TokenMustBeginWithSolidus, i) else ParseTokens(s, i, uri)
  }

  // ----- reading behind the source -----

  /** Where the percent-decoding stream stands behind one Take at p; behind a failed one it stays at
      the character that is wrong. */
  function TakeFrom(s: bytes, p: nat): nat {
    if Triplet(s, p).Some? then p + 3
    else if p + 3 > |s| || s[p] != PERCENT then p
    else if S.HexValue(s[p + 1]).None? then p + 1
    else p + 2
  }

  function AfterTakes(s: bytes, p: nat, n: nat): nat {
    if n == 0 then p else TakeFrom(s, AfterTakes(s, p, n - 1))
  }

  /** One of n Takes from i finds the stream at the end of the source. */
  predicate EndsBefore(s: bytes, i: nat, n: nat) { exists k :: 0 <= k < n && AfterTakes(s, i, k) == |s| }

  /** The source ends before all bytes of the percent sequence at i have been taken. */
  predicate CutOff(s: bytes, i: nat) {
    Triplet(s, i).Some? && EndsBefore(s, i, SequenceTakes(Triplet(s, i).value))
  }

  /** Parse meets such a sequence in the name at i. */
  predicate NameReadsEnd(s: bytes, i: nat, uri: bool)
    requires i <= |s|
    decreases |s| - i
  {
    i < |s| && s[i] != SLASH &&
    ((uri && s[i] == PERCENT && CutOff(s, i)) ||
     (NextRound(s, i, uri).Emit? &&
      (RoundAdvances(s, i, uri);
       NameReadsEnd(s, NextRound(s, i, uri).next, uri))))
  }

  predicate TokensReadEnd(s: bytes, i: nat, uri: bool)
    requires i <= |s|
    decreases |s| - i
  {
    i < |s| &&
    (NameReadsEnd(s, i + 1, uri) ||
     (ParseName(s, i + 1, uri).Named? &&
      (NameInside(s, i + 1, uri);
       TokensReadEnd(s, ParseName(s, i + 1, uri).next, uri))))
  }

  /** Parse reads the character behind the source: it looks at the first one of an empty source, and for
      a percent sign where a sequence has been cut off. */
  predicate ReadsEnd(s: bytes) {
    s == [] ||
    (var uri := s[0] == HASH;
     var i := if uri then 1 else 0;
     (i < |s| ==> s[i] == SLASH) && TokensReadEnd(s, i, uri))
  }

  /** Parse of a source with what lies behind it in memory. Behind an empty source a hash sign is taken
      for the start of a URI fragment. */
  function ParseSource(s: bytes, behind: bytes): Parsed {
    if s == [] && At(behind, 0, 0) == HASH then
      if At(behind, 1, 0) == SLASH then Tokens([]) else Failed(TokenMustBeginWithSolidus, 1)
    else Parse(s)
  }

  /** So the documentation's promise, that the source need not be null-terminated, is kept exactly for
      sources that are not empty, and for the empty one unless a hash sign and no slash lie behind it. */
  lemma BehindMattersExactly(s: bytes, behind: bytes)
    ensures ParseSource(s, behind) == Parse(s) <==> s != [] || At(behind, 0, 0) != HASH || At(behind, 1, 0) == SLASH
  {
  }

  /** "#/%E2": the sequence is cut off behind its first triplet. */
  lemma CutOffIsRead(s: bytes)
    requires s == [HASH, SLASH, PERCENT, 'E' as int, '2' as int]
    ensures ReadsEnd(s) && Parse(s) == Failed(InvalidPercentEncoding, 2)
  {
    var lead: byte := 0xE2;
    assert Triplet(s, 2) == Some(lead);
    assert SequenceTakes(lead) == 3 by { E.TypeMeans(lead); }
    assert Triplet(s, 5).None?;
    assert Triplets(s, 5, 2).None?;
    assert Triplets(s, 2, 3).None?;
    assert NextRound(s, 2, true) == Fail(InvalidPercentEncoding, 2);
    assert AfterTakes(s, 2, 0) == 2;
    assert AfterTakes(s, 2, 1) == 5;
    assert CutOff(s, 2);
  }

  // ----- stringifying -----

  function PercentEncode(w: bytes): bytes {
    if w == [] then [] else [PERCENT, W.HexDigit(w[0] / 0x10), W.HexDigit(w[0] % 0x10)] + PercentEncode(w[1..])
  }

  /** What Stringify puts for a name from its j-th code unit on; None when it is no UTF-8. */
  function NameText(name: bytes, j: nat, uri: bool): Option<bytes>
    requires j <= |name|
    decreases |name| - j
  {
    if j == |name| then Some([])
    else if name[j] == TILDE then Prefixed([TILDE, '0' as int], NameText(name, j + 1, uri))
    else if name[j] == SLASH then Prefixed([TILDE, '1' as int], NameText(name, j + 1, uri))
    else if uri && NeedPercentEncode(name[j]) then
      var d := E.Decode(name, j);
      E.DecodeExactly(name, j);
      if !d.ok then None
      else Prefixed(PercentEncode(name[j..j + d.taken]), NameText(name, j + d.taken, uri))
    else Prefixed([name[j]], NameText(name, j + 1, uri))
  }

  /** Stringify meets a sequence that reaches past the terminator of the name. */
  predicate NameOverruns(name: bytes, j: nat, uri: bool)
    requires j <= |name|
    decreases |name| - j
  {
    if j == |name| then false
    else if uri && NeedPercentEncode(name[j]) then
      var d := E.Decode(name, j);
      E.DecodeIsRfc(name, j);
      if d.ok then NameOverruns(name, j + d.taken, uri) else j + d.taken > |name| + 1
    else NameOverruns(name, j + 1, uri)
  }

  /** F0 in front of the terminator of a name. */
  lemma LeadByteOverruns(name: bytes)
    requires name == [0xF0]
    ensures NameOverruns(name, 0, true) && NameText(name, 0, true).None?
  {
    S.LeadByteTakesFour(name);
    hide E.Decode;
  }

  function Prefixed(w: bytes, rest: Option<bytes>): Option<bytes> {
    if rest.None? then None else Some(w + rest.value)
  }

  function TokensText(ts: seq<Token>, uri: bool): Option<bytes> {
    if ts == [] then Some([])
    else
      var first, rest := NameText(ts[0].name, 0, uri), TokensText(ts[1..], uri);
      if first.None? || rest.None? then None else Some([SLASH] + first.value + rest.value)
  }

  /** Stringify; None when it returns false. */
  function Stringify(ts: seq<Token>, uri: bool): Option<bytes> {
    Prefixed(if uri then [HASH] else [], TokensText(ts, uri))
  }
}
