/** The language of JSON texts with the strings of section 7 and the numbers of section 6 of RFC 8259 in it:
    what a reader (rapidjson/reader.h) with its own scalar parsers accepts. */
module ReaderText {
  import opened Json
  import opened Reader
  import S = Strings
  import SP = StringSpelling
  import NT = NumberText
  import N = Numbers
  import RT = RoundTrip
  import L = ReaderLanguage

  /** A string from p to q: a quotation mark, spellings, and a quotation mark. */
  ghost predicate IsString(text: bytes, p: nat, q: nat, str: bytes, validate: bool) {
    p + 2 <= q <= |text| && text[q - 1] == S.QUOTE && SP.SpellsAll(text[p + 1..q - 1], str, validate)
  }

  ghost predicate IsNumber(text: bytes, p: nat, q: nat, e: Event, tooBig: bytes -> bool) {
    exists a: nat, b: nat, d: nat :: NT.IsRead(text, p, a, b, d, q, e, tooBig)
  }

  /** The scalar parsers take exactly the strings and the numbers. */
  lemma ScalarsExactly(c: Config, validate: bool, tooBig: bytes -> bool)
    requires RT.Concrete(c, validate, tooBig)
    ensures L.Scalars(c)
    ensures forall p: nat, q: nat, s: bytes :: c.parseString(p) == Some((q, s)) <==> IsString(c.text, p, q, s, validate)
    ensures forall p: nat, q: nat, e: Event :: c.parseNumber(p) == Some((q, e)) <==> IsNumber(c.text, p, q, e, tooBig)
  {
    hide NT.IsRead, N.ReadNumber, SP.SpellsAll, S.DecodeString;
    RT.ConcreteIsProper(c, validate, tooBig);
    forall p: nat, q: nat, s: bytes
      ensures c.parseString(p) == Some((q, s)) <==> IsString(c.text, p, q, s, validate)
    {
      if p < |c.text| { SP.StringExactly(c.text, p + 1, q, s, validate); }
    }
    forall p: nat, q: nat, e: Event
      ensures c.parseNumber(p) == Some((q, e)) <==> IsNumber(c.text, p, q, e, tooBig)
    {
      NT.NumberExactly(c.text, p, q, e, tooBig);
    }
    forall p: nat | c.parseNumber(p).Some?
      ensures L.StartsNumber(c, p)
    {
      RT.NumberInside(c.text, p, tooBig);
    }
  }

  /** A reader accepts exactly the JSON texts that its flags allow, and reports their trees. */
  lemma ReaderExactly(text: bytes, flags: Flags, validate: bool, tooBig: bytes -> bool, q: nat, w: seq<Event>)
    ensures var c := RT.Config(text, flags, validate, tooBig, _ => true);
            && L.Scalars(c) && c.text == text && c.flags == flags
            && (forall p: nat, k: nat, s: bytes ::
                  c.parseString(p) == Some((k, s)) <==> IsString(text, p, k, s, validate))
            && (forall p: nat, k: nat, e: Event ::
                  c.parseNumber(p) == Some((k, e)) <==> IsNumber(text, p, k, e, tooBig))
            && (Parse(c) == Ok(q, w) <==> exists t: L.Tree :: L.IsText(c, q, t) && w == L.Told(t))
  {
    hide Parse, L.IsText, L.Told, IsString, IsNumber, L.Scalars;
    var c := RT.Config(text, flags, validate, tooBig, _ => true);
    RT.ConfigIsConcrete(text, flags, validate, tooBig, _ => true);
    ScalarsExactly(c, validate, tooBig);
    L.ParseExactly(c, q, w);
  }
}
