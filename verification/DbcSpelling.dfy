// How the words of a DBC file may be spelled, with any spaces and comments between them, and that the terminals of the
// grammar accept these spellings and no others.
module DbcSpelling {
  import opened DbcGrammar
  import opened DbcTypes
  import opened Numerals

  //
  // Spaces and comments
  //

  // The inside of a block comment: nested comments open and close.
  datatype Piece = Plain(c: char) | Opens | Closes

  datatype GapItem = Space(c: char) | LineComment(text: string, eol: string) | BlockComment(pieces: seq<Piece>)

  function PiecesText(ps: seq<Piece>, tail: string): string {
    if ps == [] then tail
    else
      var rest := PiecesText(ps[1..], tail);
      match ps[0]
      case Plain(c) => [c] + rest
      case Opens => ['/', '*'] + rest
      case Closes => ['*', '/'] + rest
  }

  function GapText(g: seq<GapItem>, tail: string): string {
    if g == [] then tail
    else
      var rest := GapText(g[1..], tail);
      match g[0]
      case Space(c) => [c] + rest
      case LineComment(text, eol) => ['/', '/'] + (text + (eol + rest))
      case BlockComment(ps) => ['/', '*'] + PiecesText(ps, rest)
  }

  predicate Begins(s: string, c: char, d: char) {
    |s| >= 2 && s[0] == c && s[1] == d
  }

  // The pieces close `depth` open comments, the last one of them at their end.
  predicate Nests(ps: seq<Piece>, depth: nat, tail: string) {
    if depth == 0 then ps == []
    else
      && ps != []
      && match ps[0]
         case Plain(c) =>
           var text := PiecesText(ps, tail);
           !Begins(text, '/', '*') && !Begins(text, '*', '/') && Nests(ps[1..], depth, tail)
         case Opens => Nests(ps[1..], depth + 1, tail)
         case Closes => Nests(ps[1..], depth - 1, tail)
  }

  // The ends of a line in front of a text: a carriage return and a line feed belong together.
  predicate EndsLine(eol: string, rest: string) {
    eol == "\n" || eol == "\r\n" || (eol == "\r" && !(rest != [] && rest[0] == '\n')) || (eol == "" && rest == [])
  }

  predicate SpaceCode(k: Skipper, c: char) {
    c as int == 32 || c as int == 9 || (k == Everything && 10 <= c as int <= 13)
  }

  predicate ValidGap(k: Skipper, g: seq<GapItem>, tail: string) {
    if g == [] then true
    else
      var rest := GapText(g[1..], tail);
      && ValidGap(k, g[1..], tail)
      && match g[0]
         case Space(c) => SpaceCode(k, c)
         case LineComment(text, eol) =>
           && k == Everything && EndsLine(eol, rest)
           && forall i | 0 <= i < |text| :: text[i] != '\n' && text[i] != '\r'
         case BlockComment(ps) => k == Everything && Nests(ps, 1, rest)
  }

  predicate StartsGap(k: Skipper, t: string) {
    t != [] && (SpaceCode(k, t[0]) || (k == Everything && (Begins(t, '/', '/') || Begins(t, '/', '*'))))
  }

  // s is t behind any number of spaces and closed comments, and t starts with neither.
  ghost predicate Gap(k: Skipper, s: string, t: string) {
    !StartsGap(k, t) && exists g :: ValidGap(k, g, t) && s == GapText(g, t)
  }

  lemma {:induction false} BlockRead(ps: seq<Piece>, depth: nat, tail: string)
    requires Nests(ps, depth, tail)
    ensures AfterBlock(PiecesText(ps, tail), depth) == Some(tail)
    decreases |ps|
  {
    if depth == 0 {
    } else {
      var text, rest := PiecesText(ps, tail), PiecesText(ps[1..], tail);
      match ps[0] {
        case Plain(_) =>
          BlockRead(ps[1..], depth, tail);
          assert text[1..] == rest;
          OpenIsNotEmpty(ps[1..], depth, tail);
        case Opens =>
          BlockRead(ps[1..], depth + 1, tail);
          assert text[2..] == rest;
        case Closes =>
          BlockRead(ps[1..], depth - 1, tail);
          assert text[2..] == rest;
      }
    }
  }

  lemma {:induction false} OpenIsNotEmpty(ps: seq<Piece>, depth: nat, tail: string)
    requires Nests(ps, depth, tail) && depth > 0
    ensures PiecesText(ps, tail) != []
  {
  }

  lemma {:induction false} LineRead(text: string, eol: string, rest: string)
    requires EndsLine(eol, rest) && forall i | 0 <= i < |text| :: text[i] != '\n' && text[i] != '\r'
    ensures AfterLine(text + (eol + rest)) == rest
  {
    var s := text + (eol + rest);
    if text == [] {
      assert s == eol + rest;
      if eol == "\r\n" { assert s[2..] == rest; } else if eol != "" { assert s[1..] == rest; }
    } else {
      assert s[1..] == text[1..] + (eol + rest);
      LineRead(text[1..], eol, rest);
    }
  }

  lemma {:induction false} GapRead(k: Skipper, g: seq<GapItem>, t: string)
    requires ValidGap(k, g, t) && !StartsGap(k, t)
    ensures Skip(k, GapText(g, t)) == Ok((), t)
    decreases |g|
  {
    var s := GapText(g, t);
    if g == [] {
    } else {
      var rest := GapText(g[1..], t);
      GapRead(k, g[1..], t);
      ItemRead(k, g, t);
      SkipStep(k, s, rest);
    }
  }

  lemma {:induction false} ItemRead(k: Skipper, g: seq<GapItem>, t: string)
    requires g != [] && ValidGap(k, g, t)
    ensures SkipOne(k, GapText(g, t)) == Ok((), GapText(g[1..], t))
  {
    var s, rest := GapText(g, t), GapText(g[1..], t);
    match g[0] {
      case Space(c) => assert s[1..] == rest;
      case LineComment(text, eol) =>
        assert s[2..] == text + (eol + rest);
        LineRead(text, eol, rest);
      case BlockComment(ps) =>
        assert s[2..] == PiecesText(ps, rest);
        BlockRead(ps, 1, rest);
    }
  }

  lemma {:induction false} SkipStep(k: Skipper, s: string, rest: string)
    requires SkipOne(k, s) == Ok((), rest)
    ensures Skip(k, s) == Skip(k, rest)
  {
  }

  // What was skipped inside a comment, as its pieces.
  lemma {:induction false} BlockTaken(s: string, depth: nat, t: string) returns (ps: seq<Piece>)
    requires AfterBlock(s, depth) == Some(t)
    ensures Nests(ps, depth, t) && s == PiecesText(ps, t)
    decreases |s|
  {
    if depth == 0 {
      ps := [];
    } else if Begins(s, '/', '*') {
      var qs := BlockTaken(s[2..], depth + 1, t);
      ps := [Opens] + qs;
      assert ps[1..] == qs && s == ['/', '*'] + s[2..];
    } else if Begins(s, '*', '/') {
      var qs := BlockTaken(s[2..], depth - 1, t);
      ps := [Closes] + qs;
      assert ps[1..] == qs && s == ['*', '/'] + s[2..];
    } else {
      var qs := BlockTaken(s[1..], depth, t);
      ps := [Plain(s[0])] + qs;
      assert ps[1..] == qs && s == [s[0]] + s[1..];
    }
  }

  lemma {:induction false} LineTaken(s: string) returns (text: string, eol: string)
    ensures s == text + (eol + AfterLine(s)) && EndsLine(eol, AfterLine(s))
    ensures forall i | 0 <= i < |text| :: text[i] != '\n' && text[i] != '\r'
  {
    if s == [] {
      text, eol := [], "";
    } else if s[0] == '\n' {
      text, eol := [], "\n";
    } else if s[0] == '\r' {
      text, eol := [], if |s| > 1 && s[1] == '\n' then "\r\n" else "\r";
    } else {
      var more;
      more, eol := LineTaken(s[1..]);
      text := [s[0]] + more;
    }
  }

  // What was skipped, as its items.
  lemma {:induction false} GapTaken(k: Skipper, s: string) returns (g: seq<GapItem>)
    requires Skip(k, s).Ok?
    ensures ValidGap(k, g, Skip(k, s).rest) && s == GapText(g, Skip(k, s).rest) && !StartsGap(k, Skip(k, s).rest)
    decreases |s|
  {
    var one := SkipOne(k, s);
    if one.Ok? {
      var t := Skip(k, s).rest;
      var h := GapTaken(k, one.rest);
      var item := ItemTaken(k, s);
      g := [item] + h;
      assert g[1..] == h;
      ItemThen(k, item, h, s, one.rest, t);
    } else {
      g := [];
    }
  }

  ghost predicate IsItem(k: Skipper, item: GapItem, s: string, rest: string) {
    match item
    case Space(c) => SpaceCode(k, c) && s == [c] + rest
    case LineComment(text, eol) =>
      && k == Everything && EndsLine(eol, rest) && s == ['/', '/'] + (text + (eol + rest))
      && forall i | 0 <= i < |text| :: text[i] != '\n' && text[i] != '\r'
    case BlockComment(ps) => k == Everything && Nests(ps, 1, rest) && s == ['/', '*'] + PiecesText(ps, rest)
  }

  lemma {:induction false} ItemTaken(k: Skipper, s: string) returns (item: GapItem)
    requires SkipOne(k, s).Ok?
    ensures IsItem(k, item, s, SkipOne(k, s).rest)
  {
    if k == Blanks || IsSpace(s[0]) {
      item := Space(s[0]);
    } else if s[1] == '/' {
      var text, eol := LineTaken(s[2..]);
      item := LineComment(text, eol);
    } else {
      var ps := BlockTaken(s[2..], 1, SkipOne(k, s).rest);
      item := BlockComment(ps);
    }
  }

  lemma {:induction false} ItemThen(k: Skipper, item: GapItem, h: seq<GapItem>, s: string, rest: string, t: string)
    requires IsItem(k, item, s, rest) && ValidGap(k, h, t) && rest == GapText(h, t)
    ensures ValidGap(k, [item] + h, t) && s == GapText([item] + h, t)
  {
    assert ([item] + h)[1..] == h;
  }

  // The skipper skips spaces and closed comments, all of them and nothing else.
  lemma {:induction false} SkipIff(k: Skipper, s: string, t: string)
    ensures Skip(k, s) == Ok((), t) <==> Gap(k, s, t)
    ensures Skip(k, s).Ok? && Skip(k, s).rest == t <==> Gap(k, s, t)
  {
    if Skip(k, s).Ok? && Skip(k, s).rest == t {
      var g := GapTaken(k, s);
    }
    if Gap(k, s, t) {
      var g :| ValidGap(k, g, t) && s == GapText(g, t);
      GapRead(k, g, t);
    }
  }

  //
  // Marks, whole numbers and names
  //

  lemma {:induction false} LitIff(k: Skipper, c: char, s: string, rest: string)
    ensures Lit(k, c, s) == Ok((), rest) <==> Gap(k, s, [c] + rest)
  {
    SkipIff(k, s, [c] + rest);
    assert ([c] + rest)[1..] == rest;
    if Lit(k, c, s) == Ok((), rest) { assert Skip(k, s).rest == [c] + rest; }
  }

  lemma {:induction false} OneOfIff(k: Skipper, c: char, d: char, x: char, s: string, rest: string)
    ensures OneOf(k, c, d, s) == Ok(x, rest) <==> (x == c || x == d) && Gap(k, s, [x] + rest)
  {
    SkipIff(k, s, [x] + rest);
    assert ([x] + rest)[1..] == rest;
    if OneOf(k, c, d, s) == Ok(x, rest) { assert Skip(k, s).rest == [x] + rest; }
  }

  // Any digits, zeros in front included, of a number below 2^64
  ghost predicate Whole(k: Skipper, s: string, n: nat, rest: string) {
    exists digits :: Gap(k, s, digits + rest) && SpellsWhole(digits, n, rest)
  }

  ghost predicate SpellsWhole(digits: string, n: nat, rest: string) {
    && digits != [] && AllDigits(digits) && NumberOf(digits) == n < 0x1_0000_0000_0000_0000
    && (rest != [] ==> !IsDigit(rest[0]))
  }

  lemma {:induction false} DigitsTaken(s: string)
    ensures s == LeadingDigits(s) + AfterDigits(s) && (AfterDigits(s) != [] ==> !IsDigit(AfterDigits(s)[0]))
  {
    if s != [] && IsDigit(s[0]) {
      DigitsTaken(s[1..]);
      assert s == [s[0]] + s[1..];
    } else {
    }
  }

  lemma {:induction false} UintIff(k: Skipper, s: string, n: nat, rest: string)
    ensures Uint(k, s) == Ok(n, rest) <==> Whole(k, s, n, rest)
  {
    if Uint(k, s) == Ok(n, rest) {
      var t := Skip(k, s).rest;
      DigitsTaken(t);
      SkipIff(k, s, LeadingDigits(t) + rest);
      assert SpellsWhole(LeadingDigits(t), n, rest);
    }
    if Whole(k, s, n, rest) {
      var digits :| Gap(k, s, digits + rest) && SpellsWhole(digits, n, rest);
      SkipIff(k, s, digits + rest);
      WholeGiven(digits, n, rest);
    }
  }

  lemma {:induction false} WholeGiven(digits: string, n: nat, rest: string)
    requires SpellsWhole(digits, n, rest)
    ensures LeadingDigits(digits + rest) == digits && AfterDigits(digits + rest) == rest
  {
    DigitsStop(digits, rest);
  }

  // A letter or underscore, then letters, digits and underscores
  predicate LetterCode(c: char) {
    'a' as int <= c as int <= 'z' as int || 'A' as int <= c as int <= 'Z' as int || c == '_'
  }

  predicate NameCode(c: char) {
    LetterCode(c) || '0' as int <= c as int <= '9' as int
  }

  predicate SpellsName(name: string, rest: string) {
    && name != [] && LetterCode(name[0]) && (forall i | 0 <= i < |name| :: NameCode(name[i]))
    && (rest != [] ==> !NameCode(rest[0]))
  }

  ghost predicate Name(k: Skipper, s: string, name: string, rest: string) {
    Gap(k, s, name + rest) && SpellsName(name, rest)
  }

  lemma {:induction false} NameTaken(s: string)
    ensures s == LeadingName(s) + AfterName(s) && (AfterName(s) != [] ==> !NameCode(AfterName(s)[0]))
    ensures forall i | 0 <= i < |LeadingName(s)| :: NameCode(LeadingName(s)[i])
  {
    if s != [] && IdentifierPart(s[0]) {
      NameTaken(s[1..]);
      assert s == [s[0]] + s[1..];
    } else {
    }
  }

  lemma {:induction false} NameGiven(name: string, rest: string)
    requires (forall i | 0 <= i < |name| :: NameCode(name[i])) && (rest != [] ==> !NameCode(rest[0]))
    ensures LeadingName(name + rest) == name && AfterName(name + rest) == rest
  {
    if name == [] {
      assert name + rest == rest;
    } else {
      assert (name + rest)[1..] == name[1..] + rest;
      NameGiven(name[1..], rest);
      assert [name[0]] + name[1..] == name;
    }
  }

  lemma {:induction false} IdentifierIff(k: Skipper, s: string, name: string, rest: string)
    ensures Identifier(k, s) == Ok(name, rest) <==> Name(k, s, name, rest)
  {
    if Identifier(k, s) == Ok(name, rest) {
      var t := Skip(k, s).rest;
      NameRestored(t, name, rest);
      SkipIff(k, s, name + rest);
    }
    if Name(k, s, name, rest) {
      SkipIff(k, s, name + rest);
      NameReadBack(name, rest);
    }
  }

  lemma {:induction false} NameRestored(t: string, name: string, rest: string)
    requires t != [] && IdentifierStart(t[0]) && name == [t[0]] + LeadingName(t[1..]) && rest == AfterName(t[1..])
    ensures t == name + rest && SpellsName(name, rest)
  {
    NameTaken(t[1..]);
    assert t == [t[0]] + t[1..];
  }

  lemma {:induction false} NameReadBack(name: string, rest: string)
    requires SpellsName(name, rest)
    ensures var t := name + rest;
            IdentifierStart(t[0]) && [t[0]] + LeadingName(t[1..]) == name && AfterName(t[1..]) == rest
  {
    assert (name + rest)[1..] == name[1..] + rest;
    NameGiven(name[1..], rest);
    assert [name[0]] + name[1..] == name;
  }

  // A name, or no name where one could start
  ghost predicate OptionalName(k: Skipper, s: string, name: Option<string>, rest: string) {
    match name
    case Some(n) => Name(k, s, n, rest)
    case None => Gap(k, s, rest) && (rest != [] ==> !LetterCode(rest[0]))
  }

  lemma {:induction false} OptionalIdentifierIff(k: Skipper, s: string, name: Option<string>, rest: string)
    ensures OptionalIdentifier(k, s) == Ok(name, rest) <==> OptionalName(k, s, name, rest)
  {
    match name {
      case Some(n) => IdentifierIff(k, s, n, rest);
      case None => SkipIff(k, s, rest);
    }
  }

  //
  // Real numbers
  //

  datatype ExponentSpelling = NoExponent | Exponential(letter: char, sign: string, digits: string)
  datatype RealSpelling =
    RealSpelling(sign: string, whole: string, point: bool, fraction: string, exponent: ExponentSpelling)

  function ExponentSpelled(e: ExponentSpelling, rest: string): string {
    match e
    case NoExponent => rest
    case Exponential(letter, sign, digits) => [letter] + (sign + (digits + rest))
  }

  function UnsignedSpelled(r: RealSpelling, rest: string): string {
    var exponent := ExponentSpelled(r.exponent, rest);
    r.whole + (if r.point then ['.'] + (r.fraction + exponent) else exponent)
  }

  function RealSpelled(r: RealSpelling, rest: string): string {
    r.sign + UnsignedSpelled(r, rest)
  }

  predicate IsSign(sign: string) {
    sign == "" || sign == "-" || sign == "+"
  }

  // An exponent starts here: the letter, perhaps a sign, a digit
  predicate StartsExponent(s: string) {
    && |s| >= 2 && (s[0] == 'e' || s[0] == 'E')
    && (IsDigit(s[1]) || (|s| >= 3 && (s[1] == '-' || s[1] == '+') && IsDigit(s[2])))
  }

  predicate StartsDigit(s: string) {
    s != [] && IsDigit(s[0])
  }

  predicate ValidExponent(e: ExponentSpelling, rest: string) {
    match e
    case NoExponent => !StartsExponent(rest)
    case Exponential(letter, sign, digits) =>
      (letter == 'e' || letter == 'E') && IsSign(sign) && digits != [] && AllDigits(digits) && !StartsDigit(rest)
  }

  // An optional sign, digits before or after a point, and an optional exponent; the longest such text
  predicate ValidReal(r: RealSpelling, rest: string) {
    var exponent := ExponentSpelled(r.exponent, rest);
    && IsSign(r.sign) && AllDigits(r.whole) && AllDigits(r.fraction) && (r.whole != [] || r.fraction != [])
    && (!r.point ==> r.fraction == [] && !(exponent != [] && exponent[0] == '.'))
    && !StartsDigit(exponent) && ValidExponent(r.exponent, rest)
  }

  function ExponentValue(e: ExponentSpelling): int
    requires e.Exponential? ==> AllDigits(e.digits)
  {
    match e
    case NoExponent => 0
    case Exponential(_, sign, digits) => if sign == "-" then 0 - NumberOf(digits) else NumberOf(digits)
  }

  function RealValue(r: RealSpelling): real
    requires AllDigits(r.whole) && AllDigits(r.fraction) && (r.exponent.Exponential? ==> AllDigits(r.exponent.digits))
  {
    var v := Scale(NumberOf(r.whole + r.fraction) as real, ExponentValue(r.exponent) - |r.fraction|);
    if r.sign == "-" then -v else v
  }

  ghost predicate RealNumber(k: Skipper, s: string, v: real, rest: string) {
    exists r :: Gap(k, s, RealSpelled(r, rest)) && SpellsReal(r, v, rest)
  }

  ghost predicate SpellsReal(r: RealSpelling, v: real, rest: string) {
    ValidReal(r, rest) && RealValue(r) == v
  }

  lemma {:induction false} ExponentGiven(e: ExponentSpelling, rest: string)
    requires ValidExponent(e, rest)
    ensures Exponent(ExponentSpelled(e, rest)) == (ExponentValue(e), rest)
  {
    var s := ExponentSpelled(e, rest);
    match e {
      case NoExponent => NoExponentThere(rest);
      case Exponential(letter, sign, digits) =>
        DigitsStop(digits, rest);
        var more := digits + rest;
        if sign == "" {
          assert s[1..] == more;
        } else {
          assert s[1] == sign[0] && s[2..] == more;
        }
    }
  }

  lemma {:induction false} NoExponentThere(s: string)
    ensures !StartsExponent(s) <==> Exponent(s) == (0, s)
    ensures !StartsExponent(s) ==> Exponent(s) == (0, s)
  {
  }

  lemma {:induction false} ExponentTaken(s: string) returns (e: ExponentSpelling)
    requires !StartsDigit(s)
    ensures ValidExponent(e, Exponent(s).1) && s == ExponentSpelled(e, Exponent(s).1)
    ensures ExponentValue(e) == Exponent(s).0
  {
    if StartsExponent(s) {
      var signed := s[1] == '-' || s[1] == '+';
      var digits := if signed then s[2..] else s[1..];
      DigitsTaken(digits);
      e := Exponential(s[0], if signed then [s[1]] else "", LeadingDigits(digits));
      if signed { assert s == [s[0]] + ([s[1]] + digits); } else { assert s == [s[0]] + ("" + digits); }
    } else {
      NoExponentThere(s);
      e := NoExponent;
    }
  }

  // The digits around the point, given a spelling.
  lemma {:induction false} MantissaGiven(r: RealSpelling, rest: string)
    requires ValidReal(r, rest)
    ensures Digits(UnsignedSpelled(r, rest)) == Mantissa(r.whole, r.fraction, ExponentSpelled(r.exponent, rest))
  {
    var exponent := ExponentSpelled(r.exponent, rest);
    if r.point {
      var more := r.fraction + exponent;
      DigitsStop(r.whole, ['.'] + more);
      DigitsStop(r.fraction, exponent);
      assert (['.'] + more)[1..] == more;
    } else {
      DigitsStop(r.whole, exponent);
    }
  }

  lemma {:induction false} UnsignedGiven(r: RealSpelling, rest: string)
    requires ValidReal(r, rest)
    ensures UnsignedReal(UnsignedSpelled(r, rest))
            == Some(Numeral(NumberOf(r.whole + r.fraction), ExponentValue(r.exponent) - |r.fraction|, rest))
  {
    MantissaGiven(r, rest);
    ExponentGiven(r.exponent, rest);
  }

  lemma {:induction false} UnsignedTaken(u: string, sign: string) returns (r: RealSpelling)
    requires UnsignedReal(u).Some? && IsSign(sign)
    ensures r.sign == sign && ValidReal(r, UnsignedReal(u).value.rest)
    ensures u == UnsignedSpelled(r, UnsignedReal(u).value.rest)
    ensures UnsignedReal(u).value.digits == NumberOf(r.whole + r.fraction)
    ensures UnsignedReal(u).value.exponent == ExponentValue(r.exponent) - |r.fraction|
  {
    var m := Digits(u);
    var point := MantissaTaken(u);
    var e := ExponentTaken(m.rest);
    r := RealSpelling(sign, m.whole, point, m.fraction, e);
  }

  lemma {:induction false} MantissaTaken(u: string) returns (point: bool)
    ensures var m := Digits(u);
            && u == m.whole + (if point then ['.'] + (m.fraction + m.rest) else m.rest) && !StartsDigit(m.rest)
            && (!point ==> m.fraction == [] && !(m.rest != [] && m.rest[0] == '.'))
  {
    var after := AfterDigits(u);
    point := StartsWith(after, '.');
    DigitsTaken(u);
    if point {
      DigitsTaken(after[1..]);
      assert after == ['.'] + after[1..];
    }
  }

  lemma {:induction false} SignedGiven(r: RealSpelling, rest: string)
    requires ValidReal(r, rest)
    ensures var t := RealSpelled(r, rest);
            && (StartsWith(t, '-') <==> r.sign == "-") && (StartsWith(t, '+') <==> r.sign == "+")
            && (if StartsWith(t, '-') || StartsWith(t, '+') then t[1..] else t) == UnsignedSpelled(r, rest)
  {
    var u := UnsignedSpelled(r, rest);
    assert u != [] && (IsDigit(u[0]) || u[0] == '.') by {
      if r.whole != [] { assert u[0] == r.whole[0]; } else { assert r.point && u[0] == '.'; }
    }
    if r.sign == "" { assert r.sign + u == u; } else { assert (r.sign + u)[1..] == u; }
  }

  // Any spelling of a number, behind any gap, is read as that number, and nothing else is.
  lemma {:induction false} RealIff(k: Skipper, s: string, v: real, rest: string)
    ensures Real(k, s) == Ok(v, rest) <==> RealNumber(k, s, v, rest)
  {
    if Real(k, s) == Ok(v, rest) {
      var r := SignedTaken(Skip(k, s).rest);
      SkipIff(k, s, RealSpelled(r, rest));
      assert SpellsReal(r, v, rest);
    }
    if RealNumber(k, s, v, rest) {
      var r :| Gap(k, s, RealSpelled(r, rest)) && SpellsReal(r, v, rest);
      SkipIff(k, s, RealSpelled(r, rest));
      SignedRead(r, rest);
    }
  }

  lemma {:induction false} SignedTaken(t: string) returns (r: RealSpelling)
    requires SignedReal(t).Ok?
    ensures SpellsReal(r, SignedReal(t).value, SignedReal(t).rest) && t == RealSpelled(r, SignedReal(t).rest)
  {
    var signed := StartsWith(t, '-') || StartsWith(t, '+');
    var sign := if signed then [t[0]] else "";
    var u := if signed then t[1..] else t;
    assert t == sign + u && IsSign(sign) && (sign == "-" <==> StartsWith(t, '-'));
    r := UnsignedTaken(u, sign);
    SignedValue(t, u, r);
  }

  lemma {:induction false} SignedValue(t: string, u: string, r: RealSpelling)
    requires u == if StartsWith(t, '-') || StartsWith(t, '+') then t[1..] else t
    requires UnsignedReal(u).Some? && (r.sign == "-" <==> StartsWith(t, '-'))
    requires AllDigits(r.whole) && AllDigits(r.fraction) && (r.exponent.Exponential? ==> AllDigits(r.exponent.digits))
    requires UnsignedReal(u).value.digits == NumberOf(r.whole + r.fraction)
    requires UnsignedReal(u).value.exponent == ExponentValue(r.exponent) - |r.fraction|
    ensures SignedReal(t) == Ok(RealValue(r), UnsignedReal(u).value.rest)
  {
  }

  lemma {:induction false} SignedRead(r: RealSpelling, rest: string)
    requires ValidReal(r, rest)
    ensures SignedReal(RealSpelled(r, rest)) == Ok(RealValue(r), rest)
  {
    SignedGiven(r, rest);
    UnsignedGiven(r, rest);
    SignedFrom(RealSpelled(r, rest), UnsignedSpelled(r, rest), r, rest);
  }

  lemma {:induction false} SignedFrom(t: string, u: string, r: RealSpelling, rest: string)
    requires AllDigits(r.whole) && AllDigits(r.fraction) && (r.exponent.Exponential? ==> AllDigits(r.exponent.digits))
    requires StartsWith(t, '-') <==> r.sign == "-"
    requires u == if StartsWith(t, '-') || StartsWith(t, '+') then t[1..] else t
    requires UnsignedReal(u)
             == Some(Numeral(NumberOf(r.whole + r.fraction), ExponentValue(r.exponent) - |r.fraction|, rest))
    ensures SignedReal(t) == Ok(RealValue(r), rest)
  {
  }

  // An upper-case exponent with a sign and zeros in front, as in tests/test_files/dbc/multiplex_2.dbc
  lemma {:induction false} UpperCaseExponent(k: Skipper, rest: string)
    requires !StartsDigit(rest)
    ensures Real(k, "3.4E+038" + rest) == Ok(Scale(34.0, 37), rest)
  {
    var r := RealSpelling("", "3", true, "4", Exponential('E', "+", "038"));
    SmallNumerals();
    assert "3" + "4" == "34";
    assert "E" + ("+" + ("038" + rest)) == "E+038" + rest && "." + ("4" + ("E+038" + rest)) == ".4E+038" + rest;
    assert RealSpelled(r, rest) == "3.4E+038" + rest;
    SignedRead(r, rest);
    assert !StartsGap(k, "3.4E+038" + rest) by { assert ("3.4E+038" + rest)[0] == '3'; }
    assert GapText([], "3.4E+038" + rest) == "3.4E+038" + rest && ValidGap(k, [], "3.4E+038" + rest);
    SkipIff(k, "3.4E+038" + rest, "3.4E+038" + rest);
  }

  lemma {:induction false} SmallNumerals()
    ensures NumberOf("34") == 34 && NumberOf("038") == 38
  {
    assert "34"[..1] == "3" && "3"[..0] == [];
    assert "038"[..2] == "03" && "03"[..1] == "0" && "0"[..0] == [];
  }

  //
  // Quoted strings
  //

  datatype QuotedChar = Itself(c: char) | Escaped(c: char)

  function QuotedSpelled(qs: seq<QuotedChar>, rest: string): string {
    if qs == [] then ['"'] + rest
    else
      match qs[0]
      case Itself(c) => [c] + QuotedSpelled(qs[1..], rest)
      case Escaped(c) => ['\\', c] + QuotedSpelled(qs[1..], rest)
  }

  // A quote is escaped, a backslash may be; a backslash in front of either escapes it.
  predicate ValidQuoted(qs: seq<QuotedChar>, rest: string) {
    if qs == [] then true
    else
      && ValidQuoted(qs[1..], rest)
      && match qs[0]
         case Itself(c) =>
           var next := QuotedSpelled(qs[1..], rest);
           c != '"' && !(c == '\\' && (next[0] == '\\' || next[0] == '"'))
         case Escaped(c) => c == '\\' || c == '"'
  }

  function QuotedValue(qs: seq<QuotedChar>): string {
    seq(|qs|, i requires 0 <= i < |qs| => qs[i].c)
  }

  ghost predicate SpellsQuoted(qs: seq<QuotedChar>, v: string, rest: string) {
    ValidQuoted(qs, rest) && QuotedValue(qs) == v
  }

  ghost predicate Quoted(k: Skipper, s: string, v: string, rest: string) {
    exists qs :: Gap(k, s, ['"'] + QuotedSpelled(qs, rest)) && SpellsQuoted(qs, v, rest)
  }

  lemma {:induction false} QuotedGiven(qs: seq<QuotedChar>, rest: string)
    requires ValidQuoted(qs, rest)
    ensures QuotedBody(QuotedSpelled(qs, rest)) == Ok(QuotedValue(qs), rest)
    decreases |qs|
  {
    var s := QuotedSpelled(qs, rest);
    if qs == [] {
      assert s[1..] == rest && QuotedValue(qs) == [];
    } else {
      var more := QuotedSpelled(qs[1..], rest);
      QuotedGiven(qs[1..], rest);
      assert QuotedValue(qs) == [qs[0].c] + QuotedValue(qs[1..]);
      if qs[0].Escaped? { assert s[2..] == more; } else { assert s[1..] == more; }
    }
  }

  lemma {:induction false} QuotedTaken(s: string) returns (qs: seq<QuotedChar>)
    requires QuotedBody(s).Ok?
    ensures ValidQuoted(qs, QuotedBody(s).rest) && QuotedValue(qs) == QuotedBody(s).value
    ensures s == QuotedSpelled(qs, QuotedBody(s).rest)
    decreases |s|
  {
    if s[0] == '"' {
      qs := [];
      assert s == ['"'] + s[1..];
    } else if s[0] == '\\' && |s| > 1 && (s[1] == '\\' || s[1] == '"') {
      var more := QuotedTaken(s[2..]);
      qs := [Escaped(s[1])] + more;
      assert qs[1..] == more && s == ['\\', s[1]] + s[2..];
      assert QuotedValue(qs) == [s[1]] + QuotedValue(more);
    } else {
      var more := QuotedTaken(s[1..]);
      qs := [Itself(s[0])] + more;
      assert qs[1..] == more && s == [s[0]] + s[1..];
      assert QuotedValue(qs) == [s[0]] + QuotedValue(more);
    }
  }

  lemma {:induction false} QuotedIff(k: Skipper, s: string, v: string, rest: string)
    ensures QuotedString(k, s) == Ok(v, rest) <==> Quoted(k, s, v, rest)
  {
    if QuotedString(k, s) == Ok(v, rest) {
      var t := Skip(k, s).rest;
      var qs := QuotedTaken(t[1..]);
      assert t == ['"'] + t[1..];
      SkipIff(k, s, ['"'] + QuotedSpelled(qs, rest));
      assert SpellsQuoted(qs, v, rest);
    }
    if Quoted(k, s, v, rest) {
      var qs :| Gap(k, s, ['"'] + QuotedSpelled(qs, rest)) && SpellsQuoted(qs, v, rest);
      SkipIff(k, s, ['"'] + QuotedSpelled(qs, rest));
      assert (['"'] + QuotedSpelled(qs, rest))[1..] == QuotedSpelled(qs, rest);
      QuotedGiven(qs, rest);
    }
  }

  //
  // Ends of lines and keywords
  //

  ghost predicate LineEnds(k: Skipper, s: string, rest: string) {
    exists eol :: Gap(k, s, eol + rest) && EndsLine(eol, rest)
  }

  lemma {:induction false} LineEndIff(s: string, rest: string)
    ensures LineEnd(Blanks, s) == Ok((), rest) <==> LineEnds(Blanks, s, rest)
  {
    if LineEnd(Blanks, s) == Ok((), rest) {
      var t := Skip(Blanks, s).rest;
      var eol := EndTaken(t, rest);
      SkipIff(Blanks, s, eol + rest);
    }
    if LineEnds(Blanks, s, rest) {
      var eol :| Gap(Blanks, s, eol + rest) && EndsLine(eol, rest);
      SkipIff(Blanks, s, eol + rest);
      EndGiven(eol, rest);
    }
  }

  // What is left behind the end of a line that a text starts with
  predicate EndsHere(t: string, rest: string) {
    if t == [] then rest == t
    else if t[0] == '\n' then rest == t[1..]
    else t[0] == '\r' && rest == if |t| > 1 && t[1] == '\n' then t[2..] else t[1..]
  }

  lemma {:induction false} EndTaken(t: string, rest: string) returns (eol: string)
    requires EndsHere(t, rest)
    ensures t == eol + rest && EndsLine(eol, rest)
  {
    eol := if t == [] then "" else if t[0] == '\n' then "\n" else if |t| > 1 && t[1] == '\n' then "\r\n" else "\r";
  }

  lemma {:induction false} EndGiven(eol: string, rest: string)
    requires EndsLine(eol, rest)
    ensures EndsHere(eol + rest, rest)
  {
    if eol == "\r\n" { assert (eol + rest)[2..] == rest; } else if eol != "" { assert (eol + rest)[1..] == rest; }
  }

  // Blanks, then any of the three line ends
  lemma {:induction false} LineEndAfterBlanks(blanks: string, eol: string, tail: string)
    requires forall i | 0 <= i < |blanks| :: blanks[i] == ' ' || blanks[i] == '\t'
    requires eol == "\n" || eol == "\r\n" || (eol == "\r" && !(tail != [] && tail[0] == '\n'))
    ensures LineEnd(Blanks, blanks + (eol + tail)) == Ok((), tail)
  {
    var t := eol + tail;
    BlanksSkipped(blanks, t);
    assert t[0] == eol[0];
    assert Skip(Blanks, t) == Ok((), t);
    if eol == "\r\n" { assert t[1] == '\n' && t[2..] == tail; } else { assert t[1..] == tail; }
  }

  lemma {:induction false} BlanksSkipped(blanks: string, t: string)
    requires forall i | 0 <= i < |blanks| :: blanks[i] == ' ' || blanks[i] == '\t'
    ensures Skip(Blanks, blanks + t) == Skip(Blanks, t)
  {
    if blanks == [] {
      assert blanks + t == t;
    } else {
      assert (blanks + t)[1..] == blanks[1..] + t;
      BlanksSkipped(blanks[1..], t);
      SkipStep(Blanks, blanks + t, blanks[1..] + t);
    }
  }

  // The keyword and one space
  ghost predicate Keyworded(keyword: string, s: string, rest: string) {
    exists c :: SpaceCode(Everything, c) && Gap(Everything, s, keyword + ([c] + rest))
  }

  lemma {:induction false} KeywordIff(keyword: string, s: string, rest: string)
    ensures Keyword(keyword, s) == Ok((), rest) <==> Keyworded(keyword, s, rest)
  {
    if Keyword(keyword, s) == Ok((), rest) {
      var t := Skip(Everything, s).rest;
      KeywordTaken(keyword, t);
      SkipIff(Everything, s, keyword + ([t[|keyword|]] + rest));
    }
    if Keyworded(keyword, s, rest) {
      var c :| SpaceCode(Everything, c) && Gap(Everything, s, keyword + ([c] + rest));
      var t := keyword + ([c] + rest);
      SkipIff(Everything, s, t);
      assert keyword <= t && t[|keyword|] == c && t[|keyword| + 1..] == rest;
    }
  }

  lemma KeywordTaken(keyword: string, t: string)
    requires keyword <= t && |keyword| < |t|
    ensures t == keyword + ([t[|keyword|]] + t[|keyword| + 1..])
  {
  }

  // The keyword of a message and one space or comment
  ghost predicate MessageKeyworded(s: string, rest: string) {
    exists item, more :: IsItem(Everything, item, more, rest) && Gap(Everything, s, "BO_" + more)
  }

  lemma {:induction false} MessageKeywordIff(s: string, rest: string)
    ensures MessageKeyword(s).Ok? && MessageKeyword(s).rest == rest <==> MessageKeyworded(s, rest)
  {
    if MessageKeyword(s).Ok? && MessageKeyword(s).rest == rest {
      var t := Skip(Everything, s).rest;
      var item := ItemTaken(Everything, t[3..]);
      assert t == "BO_" + t[3..];
      SkipIff(Everything, s, "BO_" + t[3..]);
    }
    if MessageKeyworded(s, rest) {
      var item, more :| IsItem(Everything, item, more, rest) && Gap(Everything, s, "BO_" + more);
      SkipIff(Everything, s, "BO_" + more);
      assert ("BO_" + more)[3..] == more;
      ItemGiven(item, more, rest);
    }
  }

  lemma {:induction false} ItemGiven(item: GapItem, s: string, rest: string)
    requires IsItem(Everything, item, s, rest)
    ensures SkipOne(Everything, s) == Ok((), rest)
  {
    match item {
      case Space(c) => assert s[1..] == rest;
      case LineComment(text, eol) =>
        assert s[2..] == text + (eol + rest);
        LineRead(text, eol, rest);
      case BlockComment(ps) =>
        assert s[2..] == PiecesText(ps, rest);
        BlockRead(ps, 1, rest);
    }
  }
}
