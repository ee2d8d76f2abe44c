// The message and signal rules of the DBC grammar: a recursive-descent reading of its combinators over the
// text still to be parsed.
module DbcGrammar {
  import Bits
  import opened DbcTypes
  import opened Numerals

  // Fail: no match; the text is left at `at`. Throw: an expectation (`>`) was not met, at `at`; the nearest
  // enclosing rule that has an error handler turns it into Fail.
  datatype Parse<+T> = Ok(value: T, rest: string) | Fail(at: string) | Throw(at: string) {
    // The text still to be parsed.
    function Left(): string {
      match this
      case Ok(_, rest) => rest
      case Fail(at) => at
      case Throw(at) => at
    }

    predicate IsFailure() { !Ok? }

    function PropagateFailure<U>(): Parse<U>
      requires !Ok?
    {
      match this
      case Fail(at) => Fail(at)
      case Throw(at) => Throw(at)
    }

    function Extract(): (T, string)
      requires Ok?
    {
      (value, rest)
    }
  }

  function Expect<T>(p: Parse<T>): Parse<T> {
    match p
    case Fail(at) => Throw(at)
    case _ => p
  }

  // `left >> right` fails as a whole where it began.
  function FromStart<T>(p: Parse<T>, start: string): Parse<T> {
    match p
    case Fail(_) => Fail(start)
    case _ => p
  }

  //
  // Skipping
  //

  datatype Skipper = Everything | Blanks

  predicate IsBlank(c: char) { c == ' ' || c == '\t' }

  predicate IsSpace(c: char) {
    c == ' ' || c == '\t' || c == '\n' || c == '\r' || c == '\U{0B}' || c == '\U{0C}'
  }

  // The text after a line comment, its line end included.
  function AfterLine(s: string): (rest: string)
    ensures |rest| <= |s|
  {
    if s == [] then s
    else if s[0] == '\n' then s[1..]
    else if s[0] == '\r' then (if |s| > 1 && s[1] == '\n' then s[2..] else s[1..])
    else AfterLine(s[1..])
  }

  // The text after a block comment that is `depth` levels deep, if it is closed.
  function AfterBlock(s: string, depth: nat): (rest: Option<string>)
    ensures rest.Some? ==> |rest.value| <= |s|
    decreases |s|
  {
    if depth == 0 then Some(s)
    else if |s| < 2 then None
    else if s[0] == '/' && s[1] == '*' then AfterBlock(s[2..], depth + 1)
    else if s[0] == '*' && s[1] == '/' then AfterBlock(s[2..], depth - 1)
    else AfterBlock(s[1..], depth)
  }

  // One step of the skipper: a space, a line comment or a block comment. An open block comment throws.
  function SkipOne(k: Skipper, s: string): (r: Parse<()>)
    ensures |r.Left()| <= |s| && (r.Ok? ==> |r.rest| < |s|)
  {
    if k == Blanks then (if s != [] && IsBlank(s[0]) then Ok((), s[1..]) else Fail(s))
    else if s != [] && IsSpace(s[0]) then Ok((), s[1..])
    else if |s| >= 2 && s[0] == '/' && s[1] == '/' then Ok((), AfterLine(s[2..]))
    else if |s| >= 2 && s[0] == '/' && s[1] == '*' then
      match AfterBlock(s[2..], 1)
      case Some(rest) => Ok((), rest)
      case None => Throw(s)
    else Fail(s)
  }

  // Skips as much as it can; the only failure is the throw of an open block comment.
  function Skip(k: Skipper, s: string): (r: Parse<()>)
    ensures !r.Fail? && |r.Left()| <= |s|
    decreases |s|
  {
    match SkipOne(k, s)
    case Ok(_, rest) => Skip(k, rest)
    case Fail(_) => Ok((), s)
    case Throw(at) => Throw(at)
  }

  //
  // Terminals; each skips first
  //

  function Lit(k: Skipper, c: char, s: string): (r: Parse<()>)
    ensures |r.Left()| <= |s| && (r.Ok? ==> |r.rest| < |s|)
  {
    var (_, t) :- Skip(k, s);
    if t != [] && t[0] == c then Ok((), t[1..]) else Fail(t)
  }

  // One of two characters.
  function OneOf(k: Skipper, c: char, d: char, s: string): (r: Parse<char>)
    ensures |r.Left()| <= |s|
  {
    var (_, t) :- Skip(k, s);
    if t != [] && (t[0] == c || t[0] == d) then Ok(t[0], t[1..]) else Fail(t)
  }

  // uint64
  function Uint(k: Skipper, s: string): (r: Parse<nat>)
    ensures |r.Left()| <= |s|
  {
    var (_, t) :- Skip(k, s);
    var digits := LeadingDigits(t);
    if digits == [] || NumberOf(digits) >= Bits.TWO_64 then Fail(t) else Ok(NumberOf(digits), AfterDigits(t))
  }

  predicate IdentifierStart(c: char) { 'a' <= c <= 'z' || 'A' <= c <= 'Z' || c == '_' }

  predicate IdentifierPart(c: char) { IdentifierStart(c) || IsDigit(c) }

  predicate IsIdentifier(s: string) {
    s != [] && IdentifierStart(s[0]) && forall i | 0 <= i < |s| :: IdentifierPart(s[i])
  }

  // The part of a name a text starts with, and the text after it.
  function LeadingName(s: string): string {
    if s != [] && IdentifierPart(s[0]) then [s[0]] + LeadingName(s[1..]) else []
  }

  function AfterName(s: string): (rest: string)
    ensures |rest| <= |s|
  {
    if s != [] && IdentifierPart(s[0]) then AfterName(s[1..]) else s
  }

  function Identifier(k: Skipper, s: string): (r: Parse<string>)
    ensures |r.Left()| <= |s| && (r.Ok? ==> |r.rest| < |s|)
  {
    var (_, t) :- Skip(k, s);
    if t != [] && IdentifierStart(t[0]) then Ok([t[0]] + LeadingName(t[1..]), AfterName(t[1..])) else Fail(t)
  }

  // `-C_identifier`
  function OptionalIdentifier(k: Skipper, s: string): (r: Parse<Option<string>>)
    ensures |r.Left()| <= |s|
  {
    match Identifier(k, s)
    case Ok(name, rest) => Ok(Some(name), rest)
    case Fail(at) => Ok(None, at)
    case Throw(at) => Throw(at)
  }

  // The characters of a quoted string up to its closing quote, a backslash before a quote or a backslash
  // standing for that character.
  function QuotedBody(s: string): (r: Parse<string>)
    ensures |r.Left()| <= |s|
  {
    if s == [] then Fail(s)
    else if s[0] == '"' then Ok([], s[1..])
    else if s[0] == '\\' && |s| > 1 && (s[1] == '\\' || s[1] == '"') then
      var (value, rest) :- QuotedBody(s[2..]);
      Ok([s[1]] + value, rest)
    else
      var (value, rest) :- QuotedBody(s[1..]);
      Ok([s[0]] + value, rest)
  }

  function QuotedString(k: Skipper, s: string): (r: Parse<string>)
    ensures |r.Left()| <= |s|
  {
    var (_, t) :- Skip(k, s);
    if t != [] && t[0] == '"' then FromStart(QuotedBody(t[1..]), t) else Fail(t)
  }

  // The exponent after a mantissa, 0 when there is none, and the text after it.
  function Exponent(s: string): (r: (int, string))
    ensures |r.1| <= |s|
  {
    if |s| >= 2 && (s[0] == 'e' || s[0] == 'E') then
      var digits := if s[1] == '-' || s[1] == '+' then s[2..] else s[1..];
      var n := LeadingDigits(digits);
      if n == [] then (0, s)
      else (if s[1] == '-' then 0 - NumberOf(n) else NumberOf(n), AfterDigits(digits))
    else (0, s)
  }

  // The digits before and after a point, and the text after them.
  datatype Mantissa = Mantissa(whole: string, fraction: string, rest: string)

  function Digits(u: string): (m: Mantissa)
    ensures AllDigits(m.whole) && AllDigits(m.fraction) && |m.rest| <= |u|
  {
    var rest := AfterDigits(u);
    if StartsWith(rest, '.') then Mantissa(LeadingDigits(u), LeadingDigits(rest[1..]), AfterDigits(rest[1..]))
    else Mantissa(LeadingDigits(u), [], rest)
  }

  // An unsigned number digits * 10^exponent and the text after it.
  datatype Numeral = Numeral(digits: nat, exponent: int, rest: string)

  // Digits, a fraction and an exponent.
  function UnsignedReal(u: string): (r: Option<Numeral>)
    ensures r.Some? ==> |r.value.rest| <= |u|
  {
    var m := Digits(u);
    if m.whole == [] && m.fraction == [] then None
    else
      var (e, rest) := Exponent(m.rest);
      Some(Numeral(NumberOf(m.whole + m.fraction), e - |m.fraction|, rest))
  }

  predicate StartsWith(s: string, c: char) { s != [] && s[0] == c }

  function WithSign(t: string, number: Option<Numeral>): Parse<real> {
    match number
    case None => Fail(t)
    case Some(Numeral(digits, exponent, rest)) =>
      var value := Scale(digits as real, exponent);
      Ok(if StartsWith(t, '-') then -value else value, rest)
  }

  function SignedReal(t: string): (r: Parse<real>)
    ensures |r.Left()| <= |t|
  {
    WithSign(t, UnsignedReal(if StartsWith(t, '-') || StartsWith(t, '+') then t[1..] else t))
  }

  // double_: a sign and an unsigned number
  function Real(k: Skipper, s: string): (r: Parse<real>)
    ensures |r.Left()| <= |s|
  {
    var (_, t) :- Skip(k, s);
    SignedReal(t)
  }

  // eol | eoi
  function LineEnd(k: Skipper, s: string): (r: Parse<()>)
    ensures |r.Left()| <= |s|
  {
    var (_, t) :- Skip(k, s);
    if t == [] then Ok((), t)
    else if t[0] == '\n' then Ok((), t[1..])
    else if t[0] == '\r' then Ok((), if |t| > 1 && t[1] == '\n' then t[2..] else t[1..])
    else Fail(t)
  }

  //
  // Signals
  //

  datatype GSignal = GSignal(
    name: string, multiplexerIndicator: Option<string>, startBit: nat, signalSize: nat, byteOrder: char,
    valueType: char, factor: real, offset: real, minimum: real, maximum: real, unit: string,
    receivers: seq<string>)

  // lexeme[lit(keyword) >> omit[space]]
  function Keyword(keyword: string, s: string): (r: Parse<()>)
    ensures |r.Left()| <= |s| && (r.Ok? ==> |r.rest| < |s|)
  {
    var (_, t) :- Skip(Everything, s);
    if keyword <= t && |keyword| < |t| && IsSpace(t[|keyword|]) then Ok((), t[|keyword| + 1..]) else Fail(s)
  }

  // signal_name > multiplexer_indicator > ':'
  function HeaderRule(s: string): (r: Parse<(string, Option<string>)>)
    ensures |r.Left()| <= |s|
  {
    var (name, s) :- Expect(Identifier(Everything, s));
    var (mux, s) :- Expect(OptionalIdentifier(Everything, s));
    var (_, s) :- Expect(Lit(Everything, ':', s));
    Ok((name, mux), s)
  }

  // start_bit > '|' > signal_size
  function SizeRule(s: string): (r: Parse<(nat, nat)>)
    ensures |r.Left()| <= |s|
  {
    var (startBit, s) :- Expect(Uint(Everything, s));
    var (_, s) :- Expect(Lit(Everything, '|', s));
    var (signalSize, s) :- Expect(Uint(Everything, s));
    Ok((startBit, signalSize), s)
  }

  // '@' > byte_order > value_type
  function OrderRule(s: string): (r: Parse<(char, char)>)
    ensures |r.Left()| <= |s|
  {
    var (_, s) :- Expect(Lit(Everything, '@', s));
    var (byteOrder, s) :- Expect(OneOf(Everything, '0', '1', s));
    var (valueType, s) :- Expect(OneOf(Everything, '-', '+', s));
    Ok((byteOrder, valueType), s)
  }

  // open > number
  function MarkedNumber(mark: char, s: string): (r: Parse<real>)
    ensures |r.Left()| <= |s|
  {
    var (_, s) :- Expect(Lit(Everything, mark, s));
    Expect(Real(Everything, s))
  }

  // open > number > separator > number > close
  function Numbers(open: char, separator: char, close: char, s: string): (r: Parse<(real, real)>)
    ensures |r.Left()| <= |s|
  {
    var (first, s) :- MarkedNumber(open, s);
    var (second, s) :- MarkedNumber(separator, s);
    var (_, s) :- Expect(Lit(Everything, close, s));
    Ok((first, second), s)
  }

  // The receivers after the first one: *(',' >> receiver)
  function MoreReceivers(s: string): (r: Parse<seq<string>>)
    ensures |r.Left()| <= |s|
    decreases |s|
  {
    match Lit(Blanks, ',', s)
    case Fail(_) => Ok([], s)
    case Throw(at) => Throw(at)
    case Ok(_, t) =>
      match Identifier(Blanks, t)
      case Fail(_) => Ok([], s)
      case Throw(at) => Throw(at)
      case Ok(name, u) =>
        var (names, rest) :- MoreReceivers(u);
        Ok([name] + names, rest)
  }

  // unit >> skip(blank)[(receiver % ',') > (eol | eoi)]
  function UnitAndReceivers(s: string): (r: Parse<(string, seq<string>)>)
    ensures |r.Left()| <= |s|
  {
    var (unit, t) :- QuotedString(Everything, s);
    var (first, t) :- FromStart(Identifier(Blanks, t), s);
    var (more, t) :- MoreReceivers(t);
    var (_, t) :- Expect(LineEnd(Blanks, t));
    Ok((unit, [first] + more), t)
  }

  function PlacementRule(s: string): (r: Parse<((string, Option<string>), (nat, nat), (char, char))>)
    ensures |r.Left()| <= |s|
  {
    var (header, s) :- HeaderRule(s);
    var (sizes, s) :- SizeRule(s);
    var (orders, s) :- OrderRule(s);
    Ok((header, sizes, orders), s)
  }

  function SignalBody(s: string): (r: Parse<GSignal>)
    ensures |r.Left()| <= |s|
  {
    var ((header, sizes, orders), s) :- PlacementRule(s);
    var (scale, s) :- Numbers('(', ',', ')', s);
    var (range, s) :- Numbers('[', '|', ']', s);
    var (last, s) :- Expect(UnitAndReceivers(s));
    Ok(GSignal(header.0, header.1, sizes.0, sizes.1, orders.0, orders.1, scale.0, scale.1, range.0, range.1,
               last.0, last.1), s)
  }

  // The signal rule has an error handler: a failed expectation only ends the list of signals, where it is.
  function SignalRule(s: string): (r: Parse<GSignal>)
    ensures !r.Throw? && |r.Left()| <= |s| && (r.Ok? ==> |r.rest| < |s|)
  {
    match Keyword("SG_", s)
    case Ok(_, t) =>
      (match SignalBody(t)
       case Throw(at) => Fail(at)
       case r => r)
    case Fail(at) => Fail(at)
    case Throw(at) => Fail(at)
  }

  // *signal: the signals and the text after them; it always succeeds.
  function Signals(s: string): (r: (seq<GSignal>, string))
    ensures |r.1| <= |s|
    decreases |s|
  {
    match SignalRule(s)
    case Ok(signal, t) =>
      var (signals, rest) := Signals(t);
      ([signal] + signals, rest)
    case Fail(at) => ([], at)
  }

  //
  // Messages
  //

  datatype GMessage = GMessage(id: nat, name: string, size: nat, transmitter: string, signals: seq<GSignal>)

  // lexeme[lit("BO_") >> omit[skipper]]
  function MessageKeyword(s: string): (r: Parse<()>)
    ensures |r.Left()| <= |s| && (r.Ok? ==> |r.rest| < |s|)
  {
    var (_, t) :- Skip(Everything, s);
    if "BO_" <= t then FromStart(SkipOne(Everything, t[3..]), s) else Fail(s)
  }

  // message_id > message_name > ':' > message_size > skip(blank)[transmitter > (eol | eoi)]
  function MessageHeader(s: string): (r: Parse<(nat, string, nat, string)>)
    ensures |r.Left()| <= |s|
  {
    var (id, s) :- Expect(Uint(Everything, s));
    var (name, s) :- Expect(Identifier(Everything, s));
    var (_, s) :- Expect(Lit(Everything, ':', s));
    var (size, s) :- Expect(Uint(Everything, s));
    var (transmitter, s) :- Expect(Identifier(Blanks, s));
    var (_, s) :- Expect(LineEnd(Blanks, s));
    Ok((id, name, size, transmitter), s)
  }

  // The message rule has no error handler: a failed expectation goes on to the network rule, which gives up.
  function MessageRule(s: string): (r: Parse<GMessage>)
    ensures |r.Left()| <= |s| && (r.Ok? ==> |r.rest| < |s|)
  {
    var (_, s) :- MessageKeyword(s);
    var (header, s) :- MessageHeader(s);
    var (signals, s) := Signals(s);
    Ok(GMessage(header.0, header.1, header.2, header.3, signals), s)
  }

  // *message
  function Messages(s: string): (r: Parse<seq<GMessage>>)
    ensures |r.Left()| <= |s|
    decreases |s|
  {
    match MessageRule(s)
    case Ok(message, t) =>
      var (messages, rest) :- Messages(t);
      Ok([message] + messages, rest)
    case Fail(at) => Ok([], at)
    case Throw(at) => Throw(at)
  }
}
