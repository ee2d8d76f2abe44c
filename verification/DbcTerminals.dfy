// Reading back the single terminals of the grammar: marks, numbers, names and quoted strings.
module DbcTerminals {
  import Bits
  import opened DbcTypes
  import opened Numerals
  import opened NumberFormat
  import opened DbcGrammar

  //
  // Skipping, marks, whole numbers and names
  //

  predicate Solid(c: char) { !IsSpace(c) && c != '/' }

  lemma NothingToSkip(k: Skipper, s: string)
    requires s == [] || (if k == Blanks then !IsBlank(s[0]) else Solid(s[0]))
    ensures Skip(k, s) == Ok((), s)
  {
  }

  lemma SkipsSpace(k: Skipper, s: string)
    ensures Skip(k, " " + s) == Skip(k, s)
  {
    assert (" " + s)[1..] == s;
    assert SkipOne(k, " " + s) == Ok((), s);
  }

  lemma LitRead(k: Skipper, c: char, tail: string)
    requires Solid(c)
    ensures Lit(k, c, [c] + tail) == Ok((), tail)
  {
    NothingToSkip(k, [c] + tail);
  }

  lemma OneOfRead(k: Skipper, c: char, d: char, x: char, tail: string)
    requires Solid(x) && (x == c || x == d)
    ensures OneOf(k, c, d, [x] + tail) == Ok(x, tail)
  {
    NothingToSkip(k, [x] + tail);
  }

  lemma UintRead(k: Skipper, n: nat, tail: string)
    requires n < Bits.TWO_64 && (tail != [] ==> !IsDigit(tail[0]))
    ensures Uint(k, Decimal(n) + tail) == Ok(n, tail)
  {
    NothingToSkip(k, Decimal(n) + tail);
    DigitsStop(Decimal(n), tail);
    DecimalRead(n);
  }

  lemma {:induction false} NameStops(name: string, tail: string)
    requires (forall i | 0 <= i < |name| :: IdentifierPart(name[i])) && (tail != [] ==> !IdentifierPart(tail[0]))
    ensures LeadingName(name + tail) == name && AfterName(name + tail) == tail
  {
    if name == [] {
      assert name + tail == tail;
    } else {
      assert (name + tail)[1..] == name[1..] + tail;
      NameStops(name[1..], tail);
      assert [name[0]] + name[1..] == name;
    }
  }

  lemma {:induction false} IdentifierRead(k: Skipper, name: string, tail: string)
    requires IsIdentifier(name) && (tail != [] ==> !IdentifierPart(tail[0]))
    ensures Identifier(k, name + tail) == Ok(name, tail)
  {
    var text := name + tail;
    NothingToSkip(k, text);
    assert text[1..] == name[1..] + tail && text[0] == name[0];
    NameStops(name[1..], tail);
    assert [name[0]] + name[1..] == name;
  }

  //
  // Numbers
  //

  predicate EndsNumber(tail: string) {
    tail != [] ==> !IsDigit(tail[0]) && tail[0] != '.' && tail[0] != 'e' && tail[0] != 'E'
  }

  lemma {:induction false} ExponentDigitsRead(digits: string, tail: string)
    requires digits != [] && AllDigits(digits) && EndsNumber(tail)
    ensures Exponent(['e', '-'] + (digits + tail)) == (0 - NumberOf(digits), tail)
    ensures Exponent(['e', '+'] + (digits + tail)) == (NumberOf(digits), tail)
  {
    var rest := digits + tail;
    DigitsStop(digits, tail);
    assert (['e', '-'] + rest)[2..] == rest && (['e', '+'] + rest)[2..] == rest;
  }

  lemma {:induction false} TwoDigitsRead(n: nat)
    ensures NumberOf(TwoDigits(n)) == n
  {
    DecimalRead(n);
    if n < 10 {
      assert TwoDigits(n)[..1] == "0" && "0"[..0] == [];
    }
  }

  lemma {:induction false} ExponentRead(e: int, tail: string)
    requires EndsNumber(tail)
    ensures Exponent(ExponentText(e, tail)) == (e, tail)
  {
    if e != 0 {
      var digits := TwoDigits(if e < 0 then -e else e);
      TwoDigitsRead(if e < 0 then -e else e);
      ExponentDigitsRead(digits, tail);
      assert "e-" + (digits + tail) == ['e', '-'] + (digits + tail);
      assert "e+" + (digits + tail) == ['e', '+'] + (digits + tail);
    }
  }

  lemma {:induction false} WholeRead(whole: string, rest: string)
    requires AllDigits(whole) && (rest != [] ==> !IsDigit(rest[0]) && rest[0] != '.')
    ensures Digits(whole + rest) == Mantissa(whole, [], rest)
  {
    DigitsStop(whole, rest);
  }

  lemma {:induction false} PointRead(whole: string, fraction: string, rest: string)
    requires AllDigits(whole) && AllDigits(fraction) && (rest != [] ==> !IsDigit(rest[0]))
    ensures Digits(whole + (['.'] + (fraction + rest))) == Mantissa(whole, fraction, rest)
  {
    DigitsStop(whole, ['.'] + (fraction + rest));
    assert (['.'] + (fraction + rest))[1..] == fraction + rest;
    DigitsStop(fraction, rest);
  }

  lemma {:induction false} DigitsRead(p: Printed, rest: string)
    requires WellPrinted(p) && (rest != [] ==> !IsDigit(rest[0]) && rest[0] != '.')
    ensures Digits(p.whole + FractionText(p.fraction, rest)) == Mantissa(p.whole, p.fraction, rest)
  {
    if p.fraction == [] {
      WholeRead(p.whole, rest);
    } else {
      assert "." + (p.fraction + rest) == ['.'] + (p.fraction + rest);
      PointRead(p.whole, p.fraction, rest);
    }
  }

  function NumeralOf(p: Printed, tail: string): Numeral
    requires WellPrinted(p)
  {
    Numeral(NumberOf(p.whole + p.fraction), p.exponent - |p.fraction|, tail)
  }

  lemma {:induction false} UnsignedRead(p: Printed, tail: string)
    requires WellPrinted(p) && EndsNumber(tail)
    ensures UnsignedReal(Joined(p, tail)) == Some(NumeralOf(p, tail))
  {
    var rest := ExponentText(p.exponent, tail);
    ExponentRead(p.exponent, tail);
    assert (rest != [] && rest[0] == 'e') || rest == tail;
    DigitsRead(p, rest);
  }

  function NumeralValue(n: Numeral, negative: bool): real {
    var v := Scale(n.digits as real, n.exponent);
    if negative then -v else v
  }

  lemma {:induction false} PlainReal(k: Skipper, text: string, n: Numeral)
    requires text != [] && IsDigit(text[0]) && UnsignedReal(text) == Some(n)
    ensures Real(k, text) == Ok(NumeralValue(n, false), n.rest)
  {
    NothingToSkip(k, text);
  }

  lemma {:induction false} NegatedReal(k: Skipper, text: string, u: string, n: Numeral)
    requires UnsignedReal(u) == Some(n) && text == ['-'] + u
    ensures Real(k, text) == Ok(NumeralValue(n, true), n.rest)
  {
    NothingToSkip(k, text);
    assert text[1..] == u;
  }

  lemma {:induction false} JoinedStarts(p: Printed, tail: string)
    requires WellPrinted(p)
    ensures Joined(p, tail) != [] && IsDigit(Joined(p, tail)[0])
  {
    assert Joined(p, tail)[0] == p.whole[0];
  }

  lemma {:induction false} SignRead(k: Skipper, negative: bool, u: string, n: Numeral)
    requires u != [] && IsDigit(u[0]) && UnsignedReal(u) == Some(n)
    ensures Real(k, if negative then ['-'] + u else u) == Ok(NumeralValue(n, negative), n.rest)
  {
    if negative { NegatedReal(k, ['-'] + u, u, n); } else { PlainReal(k, u, n); }
  }

  lemma {:induction false} ShownIsNumeral(s: Shown, tail: string)
    requires WellPrinted(s.parts)
    ensures ShownValue(s) == NumeralValue(NumeralOf(s.parts, tail), s.negative)
  {
  }

  lemma {:induction false} ShownRead(k: Skipper, s: Shown, tail: string)
    requires WellPrinted(s.parts) && EndsNumber(tail)
    ensures Real(k, ShownText(s, tail)) == Ok(ShownValue(s), tail)
  {
    JoinedStarts(s.parts, tail);
    UnsignedRead(s.parts, tail);
    SignRead(k, s.negative, Joined(s.parts, tail), NumeralOf(s.parts, tail));
    ShownIsNumeral(s, tail);
  }

  // A printed number is read back as the number it was rounded to.
  lemma {:induction false} NumberRead(k: Skipper, x: real, tail: string)
    requires EndsNumber(tail)
    ensures Real(k, NumberText(x, tail)) == Ok(Rounded(x), tail)
  {
    ShownMeans(x);
    ShownRead(k, ShownAs(x), tail);
  }

  lemma LineEndRead(tail: string)
    ensures LineEnd(Blanks, "\n" + tail) == Ok((), tail)
  {
    NothingToSkip(Blanks, "\n" + tail);
  }

  //
  // Quoted strings
  //

  // No quote, no two adjacent backslashes, no backslash at the end.
  predicate QuoteSafe(s: string) {
    && (forall i | 0 <= i < |s| :: s[i] != '"')
    && (forall i | 0 <= i < |s| - 1 :: !(s[i] == '\\' && s[i + 1] == '\\'))
    && (s != [] ==> s[|s| - 1] != '\\')
  }

  // What becomes of a string printed between quotes: read to its own closing quote, read only to an earlier one,
  // or read on beyond it, the closing quote being taken for an escaped one.
  datatype Reading = Whole(value: string) | Early(value: string, rest: string) | Runs(value: string)

  function QuotedReading(s: string): Reading {
    if s == [] then Whole([])
    else if s[0] == '"' then Early([], s[1..])
    else if s[0] == '\\' && |s| == 1 then Runs(['"'])
    else if s[0] == '\\' && (s[1] == '\\' || s[1] == '"') then Prefixed(s[1], QuotedReading(s[2..]))
    else Prefixed(s[0], QuotedReading(s[1..]))
  }

  function Prefixed(c: char, r: Reading): Reading {
    r.(value := [c] + r.value)
  }

  function ReadOn(value: string, r: Parse<string>): Parse<string> {
    if r.Ok? then Ok(value + r.value, r.rest) else r
  }

  // What is read of a string printed between quotes, whatever follows.
  lemma {:induction false} QuotedBodyIs(s: string, tail: string)
    ensures QuotedBody(s + ("\"" + tail))
            == match QuotedReading(s)
               case Whole(value) => Ok(value, tail)
               case Early(value, rest) => Ok(value, rest + ("\"" + tail))
               case Runs(value) => ReadOn(value, QuotedBody(tail))
    decreases |s|
  {
    var text := s + ("\"" + tail);
    if s == [] {
      assert text == "\"" + tail;
    } else if s[0] == '"' {
      assert text[1..] == s[1..] + ("\"" + tail);
    } else if s[0] == '\\' && |s| == 1 {
      assert text[1] == '"' && text[2..] == tail;
    } else if s[0] == '\\' && (s[1] == '\\' || s[1] == '"') {
      assert text[1] == s[1] && text[2..] == s[2..] + ("\"" + tail);
      QuotedBodyIs(s[2..], tail);
      PrefixedRuns(s[1], QuotedReading(s[2..]), QuotedBody(tail));
    } else {
      assert text[1..] == s[1..] + ("\"" + tail) && (|s| > 1 ==> text[1] == s[1]);
      QuotedBodyIs(s[1..], tail);
      PrefixedRuns(s[0], QuotedReading(s[1..]), QuotedBody(tail));
    }
  }

  lemma PrefixedRuns(c: char, r: Reading, more: Parse<string>)
    ensures more.Ok? ==> Prefixed(c, r).value + more.value == [c] + (r.value + more.value)
  {
  }

  // Two backslashes come back as one; a quote ends the string early; a backslash at the end takes the quote with it.
  lemma UnsafeReadings()
    ensures QuotedReading("\\\\") == Whole("\\") && QuotedReading("a\" R\n") == Early("a", " R\n")
    ensures QuotedReading("a\\") == Runs("a\"")
  {
    assert "\\\\"[2..] == [] && "a\" R\n"[1..] == "\" R\n" && "\" R\n"[1..] == " R\n" && "a\\"[1..] == "\\";
    assert QuotedReading("\" R\n") == Early([], " R\n");
  }

  lemma {:induction false} ReadingIsShort(s: string)
    ensures |QuotedReading(s).value| <= |s|
    ensures QuotedReading(s).Early? ==> |QuotedReading(s).value| < |s|
    decreases |s|
  {
    if s == [] || s[0] == '"' || (s[0] == '\\' && |s| == 1) {
    } else if s[0] == '\\' && (s[1] == '\\' || s[1] == '"') {
      ReadingIsShort(s[2..]);
    } else {
      ReadingIsShort(s[1..]);
    }
  }

  // A string is read back as itself exactly when it is quote-safe.
  lemma {:induction false} SafeReading(s: string)
    ensures QuotedReading(s) == Whole(s) <==> QuoteSafe(s)
    decreases |s|
  {
    if s == [] || s[0] == '"' || (s[0] == '\\' && |s| == 1) {
    } else if s[0] == '\\' && (s[1] == '\\' || s[1] == '"') {
      ReadingIsShort(s[2..]);
    } else {
      SafeReading(s[1..]);
      UnsafeRest(s);
      assert s == [s[0]] + s[1..];
    }
  }

  lemma UnsafeRest(s: string)
    requires s != [] && s[0] != '"' && (s[0] == '\\' ==> |s| > 1 && s[1] != '\\')
    ensures QuoteSafe(s) <==> QuoteSafe(s[1..])
  {
    if QuoteSafe(s[1..]) {
      forall i | 0 <= i < |s| ensures s[i] != '"' { if i > 0 { assert s[1..][i - 1] == s[i]; } }
      forall i | 0 <= i < |s| - 1 ensures !(s[i] == '\\' && s[i + 1] == '\\') {
        if i > 0 { assert s[1..][i - 1] == s[i] && s[1..][i] == s[i + 1]; }
      }
    }
  }

  // What is read beyond the closing quote does not start the string printed, not even behind backslashes left
  // over from escapes.
  lemma {:induction false} RunsElsewhere(s: string, slashes: string)
    requires QuotedReading(s).Runs? && forall i | 0 <= i < |slashes| :: slashes[i] == '\\'
    ensures !(QuotedReading(s).value <= slashes + s)
    decreases |s|
  {
    var v := QuotedReading(s).value;
    if s[0] == '\\' && |s| == 1 {
      assert (slashes + s)[0] == '\\' && v[0] == '"';
    } else if s[0] == '\\' && s[1] == '\\' {
      RunsElsewhere(s[2..], slashes + ['\\']);
      assert (slashes + s)[1..] == slashes + ['\\'] + s[2..];
      assert v[1..] == QuotedReading(s[2..]).value;
    } else if s[0] == '\\' && s[1] == '"' {
      assert (slashes + s)[0] == '\\' && v[0] == '"';
    } else if s[0] == '\\' || slashes == [] {
      RunsElsewhere(s[1..], slashes);
      assert (slashes + s)[1..] == slashes + s[1..];
      assert v[1..] == QuotedReading(s[1..]).value;
    } else {
      assert (slashes + s)[0] == '\\' && v[0] == s[0];
    }
  }

  // A printed string is read back as itself, whatever follows, exactly when it is quote-safe.
  lemma QuotedBodyRead(s: string, tail: string)
    ensures QuoteSafe(s) ==> QuotedBody(s + ("\"" + tail)) == Ok(s, tail)
    ensures !QuoteSafe(s) ==> !(QuotedBody(s + ("\"" + tail)).Ok? && QuotedBody(s + ("\"" + tail)).value == s)
  {
    QuotedBodyIs(s, tail);
    SafeReading(s);
    ReadingIsShort(s);
    if QuotedReading(s).Runs? {
      RunsElsewhere(s, []);
      assert [] + s == s;
      if QuotedBody(tail).Ok? { PrefixOfBoth(QuotedReading(s).value, QuotedBody(tail).value); }
    }
  }

  lemma PrefixOfBoth(a: string, b: string)
    ensures a <= a + b
  {
  }

  lemma QuotedStringIs(k: Skipper, s: string, tail: string)
    ensures var text := "\"" + (s + ("\"" + tail));
            QuotedString(k, text) == FromStart(QuotedBody(s + ("\"" + tail)), text)
  {
    var text := "\"" + (s + ("\"" + tail));
    NothingToSkip(k, text);
    assert text[1..] == s + ("\"" + tail);
  }

  lemma QuotedStringRead(k: Skipper, s: string, tail: string)
    ensures var r := QuotedString(k, "\"" + (s + ("\"" + tail)));
            && (QuoteSafe(s) ==> r == Ok(s, tail))
            && (!QuoteSafe(s) ==> !(r.Ok? && r.value == s))
            && (QuotedReading(s).Whole? ==> r == Ok(QuotedReading(s).value, tail))
  {
    QuotedStringIs(k, s, tail);
    QuotedBodyRead(s, tail);
    QuotedBodyIs(s, tail);
  }
}
