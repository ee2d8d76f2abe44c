// Printing the messages of a network and parsing the text again.
module DbcRoundTrip {
  import Bits
  import opened DbcTypes
  import opened Numerals
  import opened SignalLayout
  import opened NetworkEquality
  import opened NumberFormat
  import opened DbcGrammar
  import opened DbcTerminals
  import opened DbcPrinter

  //
  // From the parsed signals and messages to those of the network
  //

  // std::atoi on the digits of a multiplexer value; undefined when they exceed an int.
  function Atoi(s: string): Option<nat> {
    var n := NumberOf(LeadingDigits(s));
    if n < 0x8000_0000 then Some(n) else None
  }

  function ConvertMultiplexer(indicator: Option<string>): Option<(Multiplexer, nat)> {
    match indicator
    case None => Some((NoMux, 0))
    case Some(m) =>
      if m == "" then None
      else if m[..1] == "M" then Some((MuxSwitch, 0))
      else
        match Atoi(m[1..])
        case None => None
        case Some(v) => Some((MuxValue, v))
  }

  // The network's signal for a parsed one, apart from what other sections of the file say about it.
  function ConvertSignal(g: GSignal): Option<Signal> {
    match ConvertMultiplexer(g.multiplexerIndicator)
    case None => None
    case Some((indicator, switchValue)) =>
      Some(Signal(g.name, indicator, switchValue, g.startBit, g.signalSize,
                  if g.byteOrder == '0' then BigEndian else LittleEndian,
                  if g.valueType == '+' then Unsigned else Signed,
                  g.factor, g.offset, g.minimum, g.maximum, g.unit, g.receivers, [], [], "", Integer, []))
  }

  function ConvertSignals(gs: seq<GSignal>): Option<seq<Signal>> {
    if gs == [] then Some([])
    else
      match (ConvertSignal(gs[0]), ConvertSignals(gs[1..]))
      case (Some(s), Some(rest)) => Some([s] + rest)
      case _ => None
  }

  function ConvertMessage(g: GMessage): Option<Message> {
    match ConvertSignals(g.signals)
    case None => None
    case Some(signals) => Some(Message(g.id, g.name, g.size, g.transmitter, [], signals, [], "", []))
  }

  function ConvertMessages(gs: seq<GMessage>): Option<seq<Message>> {
    if gs == [] then Some([])
    else
      match (ConvertMessage(gs[0]), ConvertMessages(gs[1..]))
      case (Some(m), Some(rest)) => Some([m] + rest)
      case _ => None
  }

  //
  // What the section says of a network
  //

  // A signal without what other sections say about it.
  function Core(s: Signal): Signal {
    s.(multiplexerSwitchValue := if s.multiplexerIndicator == MuxValue then s.multiplexerSwitchValue else 0,
       attributeValues := [], valueEncodingDescriptions := [], comment := "", extendedValueType := Integer,
       signalMultiplexerValues := [])
  }

  function CoreSignals(signals: seq<Signal>): seq<Signal> {
    seq(|signals|, i requires 0 <= i < |signals| => Core(signals[i]))
  }

  function CoreMessage(m: Message): Message {
    m.(messageTransmitters := [], signals := CoreSignals(m.signals), attributeValues := [], comment := "",
       signalGroups := [])
  }

  function CoreMessages(messages: seq<Message>): seq<Message> {
    seq(|messages|, i requires 0 <= i < |messages| => CoreMessage(messages[i]))
  }

  predicate WellNamed(s: Signal) {
    && IsIdentifier(s.name)
    && (forall r | r in s.receivers :: IsIdentifier(r))
    && s.startBit < Bits.TWO_64 && s.bitSize < Bits.TWO_64
    && (s.multiplexerIndicator == MuxValue ==> s.multiplexerSwitchValue < 0x8000_0000)
  }

  predicate WellNamedMessage(m: Message) {
    && IsIdentifier(m.name) && IsIdentifier(m.transmitter)
    && m.id < Bits.TWO_64 && m.messageSize < Bits.TWO_64
    && forall s | s in m.signals :: WellNamed(s)
  }

  // No number of the signal has more than six significant digits.
  predicate PrintsExactly(s: Signal) {
    && Rounded(s.factor) == s.factor && Rounded(s.offset) == s.offset
    && Rounded(s.minimum) == s.minimum && Rounded(s.maximum) == s.maximum
  }

  predicate Readable(s: Signal) {
    s.receivers != [] && QuoteSafe(s.unit) && PrintsExactly(s)
  }

  // The unit's closing quote is read as its end.
  predicate Tidy(s: Signal) {
    QuotedReading(s.unit).Whole?
  }

  // What comes back of a signal: its unit unescaped, its numbers rounded to six digits.
  function AsRead(s: Signal): Signal {
    AsParsed(s, QuotedReading(s.unit).value, s.receivers)
  }

  function AsParsed(s: Signal, unit: string, receivers: seq<string>): Signal {
    Core(s).(factor := Rounded(s.factor), offset := Rounded(s.offset), minimum := Rounded(s.minimum),
             maximum := Rounded(s.maximum), unit := unit, receivers := receivers)
  }

  lemma ReadableComesBack(s: Signal)
    ensures Readable(s) <==> Tidy(s) && s.receivers != [] && AsRead(s) == Core(s)
  {
    SafeReading(s.unit);
  }

  //
  // The parts of a signal
  //

  function Indicator(s: Signal): Option<string> {
    match s.multiplexerIndicator
    case NoMux => None
    case MuxSwitch => Some("M")
    case MuxValue => Some("m" + Decimal(s.multiplexerSwitchValue))
  }

  lemma IndicatorConverts(s: Signal)
    requires WellNamed(s)
    ensures ConvertMultiplexer(Indicator(s)) == Some((Core(s).multiplexerIndicator, Core(s).multiplexerSwitchValue))
  {
    if s.multiplexerIndicator == MuxValue {
      var digits := Decimal(s.multiplexerSwitchValue);
      assert ("m" + digits)[1..] == digits && digits + [] == digits;
      assert ("m" + digits)[..1] == "m" && "m"[0] != "M"[0];
      DigitsStop(digits, []);
      DecimalRead(s.multiplexerSwitchValue);
      assert digits[..|digits|] == digits;
    }
  }

  lemma NamedIndicator(name: string, tail: string)
    requires IsIdentifier(name)
    ensures OptionalIdentifier(Everything, " " + (name + (" " + tail))) == Ok(Some(name), " " + tail)
  {
    SkipsSpace(Everything, name + (" " + tail));
    IdentifierRead(Everything, name, " " + tail);
  }

  lemma MuxRead(s: Signal, tail: string)
    requires WellNamed(s) && tail != [] && tail[0] == ':'
    ensures OptionalIdentifier(Everything, " " + MuxText(s, tail)).Ok?
    ensures OptionalIdentifier(Everything, " " + MuxText(s, tail)).value == Indicator(s)
    ensures Skip(Everything, OptionalIdentifier(Everything, " " + MuxText(s, tail)).rest) == Ok((), tail)
  {
    NothingToSkip(Everything, tail);
    SkipsSpace(Everything, tail);
    match s.multiplexerIndicator {
      case NoMux =>
      case MuxSwitch =>
        assert MuxText(s, tail) == "M" + (" " + tail);
        NamedIndicator("M", tail);
      case MuxValue =>
        var name := "m" + Decimal(s.multiplexerSwitchValue);
        assert MuxText(s, tail) == name + (" " + tail) by {
          Regroup("m", Decimal(s.multiplexerSwitchValue), " " + tail);
        }
        assert IsIdentifier(name);
        NamedIndicator(name, tail);
    }
  }

  lemma KeywordRead(s: Signal, tail: string)
    ensures Keyword("SG_", HeaderText(s, tail)) == Ok((), HeaderText(s, tail)[5..])
    ensures HeaderText(s, tail)[5..] == s.name + (" " + MuxText(s, ":" + tail))
  {
    var text := HeaderText(s, tail);
    assert SkipOne(Everything, text) == Ok((), text[1..]);
    NothingToSkip(Everything, text[1..]);
    assert text[1..][..3] == "SG_" && text[1..][4..] == text[5..];
  }

  lemma HeaderRead(s: Signal, tail: string)
    requires WellNamed(s)
    ensures HeaderRule(s.name + (" " + MuxText(s, ":" + tail))) == Ok((s.name, Indicator(s)), tail)
  {
    IdentifierRead(Everything, s.name, " " + MuxText(s, ":" + tail));
    MuxRead(s, ":" + tail);
  }

  lemma SizeRead(a: nat, b: nat, tail: string)
    requires a < Bits.TWO_64 && b < Bits.TWO_64 && (tail != [] ==> !IsDigit(tail[0]))
    ensures SizeRule(" " + (Decimal(a) + ("|" + (Decimal(b) + tail)))) == Ok((a, b), tail)
  {
    var t2 := Decimal(b) + tail;
    var t1 := ['|'] + t2;
    SkipsSpace(Everything, Decimal(a) + t1);
    UintRead(Everything, a, t1);
    LitRead(Everything, '|', t2);
    UintRead(Everything, b, tail);
  }

  lemma OrderRead(s: Signal, tail: string)
    ensures OrderRule(OrderText(s, tail)) == Ok((OrderChar(s), TypeChar(s)), tail)
  {
    LitRead(Everything, '@', [OrderChar(s)] + ([TypeChar(s)] + tail));
    OneOfRead(Everything, '0', '1', OrderChar(s), [TypeChar(s)] + tail);
    OneOfRead(Everything, '-', '+', TypeChar(s), tail);
  }

  lemma MarkedNumberRead(mark: char, x: real, tail: string)
    requires Solid(mark) && EndsNumber(tail)
    ensures MarkedNumber(mark, [mark] + NumberText(x, tail)) == Ok(Rounded(x), tail)
  {
    LitRead(Everything, mark, NumberText(x, tail));
    NumberRead(Everything, x, tail);
  }

  lemma NumbersChain(open: char, separator: char, close: char, s0: string, s1: string, s2: string, s3: string,
                     first: real, second: real)
    requires MarkedNumber(open, s0) == Ok(first, s1) && MarkedNumber(separator, s1) == Ok(second, s2)
    requires Lit(Everything, close, s2) == Ok((), s3)
    ensures Numbers(open, separator, close, s0) == Ok((first, second), s3)
  {
  }

  lemma MarkAfterSpace(mark: char, s: string)
    ensures MarkedNumber(mark, " " + s) == MarkedNumber(mark, s)
  {
    SkipsSpace(Everything, s);
  }

  lemma FirstNumberRead(open: char, x: real, tail: string)
    requires Solid(open) && EndsNumber(tail)
    ensures MarkedNumber(open, " " + ([open] + NumberText(x, tail))) == Ok(Rounded(x), tail)
  {
    MarkAfterSpace(open, [open] + NumberText(x, tail));
    MarkedNumberRead(open, x, tail);
  }

  lemma MarkEndsNumber(mark: char, tail: string)
    requires mark in ",)|]"
    ensures EndsNumber([mark] + tail)
  {
  }

  // Two numbers between marks that end the numbers before them
  lemma {:induction false} MarkedPairRead(
    open: char, first: real, separator: char, second: real, close: char, tail: string)
    requires Solid(open) && Solid(separator) && Solid(close)
    requires EndsNumber([close] + tail) && EndsNumber([separator] + NumberText(second, [close] + tail))
    ensures Numbers(open, separator, close, NumbersText(open, first, separator, second, close, tail))
            == Ok((Rounded(first), Rounded(second)), tail)
  {
    var t2 := [close] + tail;
    var t1 := [separator] + NumberText(second, t2);
    var t0 := " " + ([open] + NumberText(first, t1));
    assert MarkedNumber(open, t0) == Ok(Rounded(first), t1) by { FirstNumberRead(open, first, t1); }
    assert MarkedNumber(separator, t1) == Ok(Rounded(second), t2) by { MarkedNumberRead(separator, second, t2); }
    assert Lit(Everything, close, t2) == Ok((), tail) by { LitRead(Everything, close, tail); }
    NumbersChain(open, separator, close, t0, t1, t2, tail, Rounded(first), Rounded(second));
  }

  lemma {:induction false} NumbersRead(
    open: char, first: real, separator: char, second: real, close: char, tail: string)
    requires open in "([" && separator in ",|" && close in ")]"
    ensures Numbers(open, separator, close, NumbersText(open, first, separator, second, close, tail))
            == Ok((Rounded(first), Rounded(second)), tail)
  {
    MarkEndsNumber(separator, NumberText(second, [close] + tail));
    MarkEndsNumber(close, tail);
    MarkedPairRead(open, first, separator, second, close, tail);
  }

  lemma MoreReceiversStep(s: string, t: string, u: string, name: string, names: seq<string>, rest: string)
    requires Lit(Blanks, ',', s) == Ok((), t) && Identifier(Blanks, t) == Ok(name, u)
    requires MoreReceivers(u) == Ok(names, rest)
    ensures MoreReceivers(s) == Ok([name] + names, rest)
  {
  }

  function AfterReceiver(names: seq<string>, tail: string): string {
    if names == [] then "\n" + tail else ", " + JoinedReceivers(names, "\n" + tail)
  }

  lemma JoinedFromFirst(names: seq<string>, tail: string)
    requires names != []
    ensures JoinedReceivers(names, "\n" + tail) == names[0] + AfterReceiver(names[1..], tail)
  {
  }

  lemma ReceiverRead(name: string, names: seq<string>, tail: string)
    requires IsIdentifier(name)
    ensures Identifier(Blanks, " " + (name + AfterReceiver(names, tail))) == Ok(name, AfterReceiver(names, tail))
  {
    var after := AfterReceiver(names, tail);
    assert after[0] == '\n' || after[0] == ',';
    NameRead(Blanks, name, after);
  }

  lemma CommaRead(tail: string)
    ensures Lit(Blanks, ',', ", " + tail) == Ok((), " " + tail)
  {
    assert ", " + tail == [','] + (" " + tail);
    LitRead(Blanks, ',', " " + tail);
  }

  lemma {:induction false} MoreReceiversRead(names: seq<string>, tail: string)
    requires forall r | r in names :: IsIdentifier(r)
    ensures MoreReceivers(AfterReceiver(names, tail)) == Ok(names, "\n" + tail)
    decreases |names|
  {
    if names == [] {
      NothingToSkip(Blanks, "\n" + tail);
    } else {
      var after := AfterReceiver(names[1..], tail);
      var t := " " + (names[0] + after);
      assert Lit(Blanks, ',', AfterReceiver(names, tail)) == Ok((), t) by {
        JoinedFromFirst(names, tail);
        CommaRead(names[0] + after);
      }
      assert Identifier(Blanks, t) == Ok(names[0], after) by { ReceiverRead(names[0], names[1..], tail); }
      assert MoreReceivers(after) == Ok(names[1..], "\n" + tail) by { MoreReceiversRead(names[1..], tail); }
      MoreReceiversStep(AfterReceiver(names, tail), t, after, names[0], names[1..], "\n" + tail);
      assert [names[0]] + names[1..] == names;
    }
  }

  lemma ReceiversRead(names: seq<string>, tail: string)
    requires names != [] && forall r | r in names :: IsIdentifier(r)
    ensures var r := Identifier(Blanks, " " + JoinedReceivers(names, "\n" + tail));
            r.Ok? && r.value == names[0] && MoreReceivers(r.rest) == Ok(names[1..], "\n" + tail)
  {
    JoinedFromFirst(names, tail);
    ReceiverRead(names[0], names[1..], tail);
    MoreReceiversRead(names[1..], tail);
  }

  function AfterUnit(s: Signal, tail: string): string {
    if s.receivers == [] then "\n" + tail else " " + JoinedReceivers(s.receivers, "\n" + tail)
  }

  lemma AfterUnitRead(s: Signal, tail: string)
    requires WellNamed(s)
    ensures s.receivers == [] ==> Identifier(Blanks, AfterUnit(s, tail)).Fail?
    ensures s.receivers != [] ==>
              var r := Identifier(Blanks, AfterUnit(s, tail));
              r.Ok? && r.value == s.receivers[0] && MoreReceivers(r.rest) == Ok(s.receivers[1..], "\n" + tail)
  {
    if s.receivers == [] {
      NothingToSkip(Blanks, "\n" + tail);
    } else {
      ReceiversRead(s.receivers, tail);
    }
  }

  lemma UnitChain(s: Signal, text: string, after: string, end: string, tail: string)
    requires Tidy(s) ==> QuotedString(Everything, text) == Ok(QuotedReading(s.unit).value, after)
    requires !Tidy(s) ==>
               !(QuotedString(Everything, text).Ok? && QuotedString(Everything, text).value == s.unit)
    requires s.receivers == [] ==> Identifier(Blanks, after).Fail?
    requires s.receivers != [] ==>
               var r := Identifier(Blanks, after);
               r.Ok? && r.value == s.receivers[0] && MoreReceivers(r.rest) == Ok(s.receivers[1..], end)
    requires LineEnd(Blanks, end) == Ok((), tail)
    ensures LastOutcome(s, UnitAndReceivers(text), tail)
  {
    if !Tidy(s) {
      OtherUnit(text, s.unit);
    } else if s.receivers == [] {
      NoReceiver(text, after, QuotedReading(s.unit).value);
    } else {
      assert [s.receivers[0]] + s.receivers[1..] == s.receivers;
      UnitStep(text, after, Identifier(Blanks, after).rest, end, tail, QuotedReading(s.unit).value,
               s.receivers[0], s.receivers[1..]);
    }
  }

  // What is read of the unit and the receivers of s.
  predicate LastOutcome(s: Signal, r: Parse<(string, seq<string>)>, tail: string) {
    && (Tidy(s) && s.receivers != [] ==> r == Ok((QuotedReading(s.unit).value, s.receivers), tail))
    && (Tidy(s) && s.receivers == [] ==> !r.Ok?)
    && (!Tidy(s) ==> !(r.Ok? && r.value.0 == s.unit))
  }

  lemma OtherUnit(text: string, unit: string)
    requires !(QuotedString(Everything, text).Ok? && QuotedString(Everything, text).value == unit)
    ensures !(UnitAndReceivers(text).Ok? && UnitAndReceivers(text).value.0 == unit)
  {
  }

  lemma UnitStep(text: string, after: string, more: string, end: string, tail: string, unit: string, first: string,
                 names: seq<string>)
    requires QuotedString(Everything, text) == Ok(unit, after) && Identifier(Blanks, after) == Ok(first, more)
    requires MoreReceivers(more) == Ok(names, end) && LineEnd(Blanks, end) == Ok((), tail)
    ensures UnitAndReceivers(text) == Ok((unit, [first] + names), tail)
  {
  }

  lemma NoReceiver(text: string, after: string, unit: string)
    requires QuotedString(Everything, text) == Ok(unit, after) && Identifier(Blanks, after).Fail?
    ensures !UnitAndReceivers(text).Ok?
  {
  }

  lemma QuotedAfterSpace(k: Skipper, s: string)
    ensures QuotedString(k, " " + s).Ok? == QuotedString(k, s).Ok?
    ensures QuotedString(k, s).Ok? ==> QuotedString(k, " " + s) == QuotedString(k, s)
  {
    SkipsSpace(k, s);
  }

  lemma {:induction false} UnitRead(unit: string, text: string, after: string)
    requires text == " " + ("\"" + (unit + ("\"" + after)))
    ensures var r := QuotedString(Everything, text);
            && (QuotedReading(unit).Whole? ==> r == Ok(QuotedReading(unit).value, after))
            && (!QuotedReading(unit).Whole? ==> !(r.Ok? && r.value == unit))
  {
    QuotedAfterSpace(Everything, "\"" + (unit + ("\"" + after)));
    QuotedStringRead(Everything, unit, after);
    SafeReading(unit);
  }

  lemma LastRead(s: Signal, tail: string)
    requires WellNamed(s)
    ensures LastOutcome(s, UnitAndReceivers(LastText(s, tail)), tail)
  {
    var after := AfterUnit(s, tail);
    assert LastText(s, tail) == " " + ("\"" + (s.unit + ("\"" + after)));
    UnitRead(s.unit, LastText(s, tail), after);
    AfterUnitRead(s, tail);
    LineEndRead(tail);
    UnitChain(s, LastText(s, tail), after, "\n" + tail, tail);
  }

  //
  // Signals
  //

  predicate BodyParts(s: Signal, s0: string, s1: string, s2: string, s3: string, s4: string, s5: string) {
    && HeaderRule(s0) == Ok((s.name, Indicator(s)), s1) && SizeRule(s1) == Ok((s.startBit, s.bitSize), s2)
    && OrderRule(s2) == Ok((OrderChar(s), TypeChar(s)), s3)
    && Numbers('(', ',', ')', s3) == Ok((Rounded(s.factor), Rounded(s.offset)), s4)
    && Numbers('[', '|', ']', s4) == Ok((Rounded(s.minimum), Rounded(s.maximum)), s5)
  }

  // The parsed signal with everything but unit and receivers as it was printed.
  function Parsed(s: Signal, unit: string, receivers: seq<string>): GSignal {
    GSignal(s.name, Indicator(s), s.startBit, s.bitSize, OrderChar(s), TypeChar(s), Rounded(s.factor),
            Rounded(s.offset), Rounded(s.minimum), Rounded(s.maximum), unit, receivers)
  }

  lemma ParsedConverts(s: Signal, unit: string, receivers: seq<string>)
    requires WellNamed(s)
    ensures ConvertSignal(Parsed(s, unit, receivers)) == Some(AsParsed(s, unit, receivers))
  {
    IndicatorConverts(s);
  }

  lemma BodyChain(s: Signal, s0: string, s1: string, s2: string, s3: string, s4: string, s5: string)
    ensures BodyParts(s, s0, s1, s2, s3, s4, s5) ==>
              var last := UnitAndReceivers(s5);
              if last.Ok? then SignalBody(s0) == Ok(Parsed(s, last.value.0, last.value.1), last.rest)
              else SignalBody(s0).Throw?
  {
  }

  lemma RuleChain(s: Signal, text: string, body: string, last: Parse<(string, seq<string>)>)
    requires Keyword("SG_", text) == Ok((), body)
    requires if last.Ok? then SignalBody(body) == Ok(Parsed(s, last.value.0, last.value.1), last.rest)
             else SignalBody(body).Throw?
    ensures if last.Ok? then SignalRule(text) == Ok(Parsed(s, last.value.0, last.value.1), last.rest)
            else SignalRule(text).Fail?
  {
  }

  // What is read of the unit and the receivers of a printed signal decides what is read of the signal.
  lemma SignalIsRead(s: Signal, tail: string)
    requires WellNamed(s)
    ensures var last := UnitAndReceivers(LastText(s, tail));
            if last.Ok? then SignalRule(SignalText(s) + tail) == Ok(Parsed(s, last.value.0, last.value.1), last.rest)
            else SignalRule(SignalText(s) + tail).Fail?
  {
    var last := LastText(s, tail);
    var range := RangeText(s, last);
    var scale := ScaleText(s, range);
    var layout := LayoutText(s, scale);
    var body := s.name + (" " + MuxText(s, ":" + layout));
    HeaderRead(s, layout);
    SizeRead(s.startBit, s.bitSize, OrderText(s, scale));
    OrderRead(s, scale);
    NumbersRead('(', s.factor, ',', s.offset, ')', range);
    NumbersRead('[', s.minimum, '|', s.maximum, ']', last);
    BodyChain(s, body, layout, OrderText(s, scale), scale, range, last);
    SignalTail(s, tail);
    KeywordRead(s, layout);
    RuleChain(s, SignalText(s) + tail, body, UnitAndReceivers(last));
  }

  // What is read of a printed signal: itself, unescaped and rounded, if its unit ends at its own quote and it has a
  // receiver; nothing, if it has none; otherwise a signal with another unit, or nothing.
  lemma SignalRead(s: Signal, tail: string)
    requires WellNamed(s)
    ensures var r := SignalRule(SignalText(s) + tail);
            && (Tidy(s) && s.receivers != [] ==>
                  r.Ok? && r.rest == tail && ConvertSignal(r.value) == Some(AsRead(s)))
            && (Tidy(s) && s.receivers == [] ==> r.Fail?)
            && (!Tidy(s) ==> !(r.Ok? && r.value.unit == s.unit))
  {
    LastRead(s, tail);
    SignalIsRead(s, tail);
    ParsedConverts(s, QuotedReading(s.unit).value, s.receivers);
  }

  // A printed signal comes back the same exactly when it has a receiver, a quote-safe unit and short numbers.
  lemma SignalComesBack(s: Signal, tail: string)
    requires WellNamed(s)
    ensures var r := SignalRule(SignalText(s) + tail);
            && (Readable(s) ==> r.Ok? && r.rest == tail && ConvertSignal(r.value) == Some(Core(s)))
            && (!Readable(s) ==> !(r.Ok? && ConvertSignal(r.value) == Some(Core(s))))
  {
    SignalRead(s, tail);
    ReadableComesBack(s);
  }

  //
  // Lists of signals
  //

  lemma CoreSignalsSplit(signals: seq<Signal>)
    requires signals != []
    ensures CoreSignals(signals) == [Core(signals[0])] + CoreSignals(signals[1..])
  {
  }

  predicate AllReadable(signals: seq<Signal>) {
    forall i | 0 <= i < |signals| :: Readable(signals[i])
  }

  lemma AllReadableSplit(signals: seq<Signal>)
    requires signals != []
    ensures AllReadable(signals) <==> Readable(signals[0]) && AllReadable(signals[1..])
  {
    if Readable(signals[0]) && AllReadable(signals[1..]) {
      forall i | 0 <= i < |signals| ensures Readable(signals[i]) {
        if i > 0 { assert signals[1..][i - 1] == signals[i]; }
      }
    }
  }

  // One round of the signal list: the first signal decides, then the others do.
  lemma SignalsChain(text: string, after: string, first: Signal, others: seq<Signal>, tail: string)
    requires Readable(first) ==> SignalRule(text).Ok? && SignalRule(text).rest == after
                                 && ConvertSignal(SignalRule(text).value) == Some(Core(first))
    requires !Readable(first) ==> !(SignalRule(text).Ok? && ConvertSignal(SignalRule(text).value) == Some(Core(first)))
    requires AllReadable(others) ==> Signals(after).1 == tail
                                     && ConvertSignals(Signals(after).0) == Some(CoreSignals(others))
    requires !AllReadable(others) ==> ConvertSignals(Signals(after).0) != Some(CoreSignals(others))
    ensures var r := Signals(text);
            if Readable(first) && AllReadable(others)
            then r.1 == tail && ConvertSignals(r.0) == Some([Core(first)] + CoreSignals(others))
            else ConvertSignals(r.0) != Some([Core(first)] + CoreSignals(others))
  {
    var rule := SignalRule(text);
    if rule.Ok? {
      var more := Signals(rule.rest);
      assert ([rule.value] + more.0)[0] == rule.value && ([rule.value] + more.0)[1..] == more.0;
      var converted := ConvertSignals(more.0);
      if ConvertSignal(rule.value).Some? && converted.Some? {
        assert ([ConvertSignal(rule.value).value] + converted.value)[0] == ConvertSignal(rule.value).value;
        assert ([ConvertSignal(rule.value).value] + converted.value)[1..] == converted.value;
        assert ([Core(first)] + CoreSignals(others))[1..] == CoreSignals(others);
      }
    }
  }

  lemma {:induction false} SignalsRead(signals: seq<Signal>, tail: string)
    requires (forall s | s in signals :: WellNamed(s)) && Keyword("SG_", tail) == Fail(tail)
    ensures var r := Signals(SignalsText(signals) + tail);
            if AllReadable(signals) then r.1 == tail && ConvertSignals(r.0) == Some(CoreSignals(signals))
            else ConvertSignals(r.0) != Some(CoreSignals(signals))
    decreases |signals|
  {
    if signals == [] {
      assert "" + tail == tail && CoreSignals(signals) == [];
    } else {
      var after := SignalsText(signals[1..]) + tail;
      Regroup(SignalText(signals[0]), SignalsText(signals[1..]), tail);
      SignalComesBack(signals[0], after);
      SignalsRead(signals[1..], tail);
      CoreSignalsSplit(signals);
      AllReadableSplit(signals);
      SignalsChain(SignalText(signals[0]) + after, after, signals[0], signals[1..], tail);
    }
  }

  predicate AllTidy(signals: seq<Signal>) {
    forall s | s in signals :: Tidy(s)
  }

  predicate AllReceived(signals: seq<Signal>) {
    forall s | s in signals :: s.receivers != []
  }

  // What comes back of a list of signals: those before the first one without receivers.
  function ReadSignals(signals: seq<Signal>): seq<Signal> {
    if signals == [] || signals[0].receivers == [] then [] else [AsRead(signals[0])] + ReadSignals(signals[1..])
  }

  lemma SignalsStep(text: string, after: string, first: Signal, others: seq<Signal>)
    requires if first.receivers == [] then SignalRule(text).Fail?
             else SignalRule(text).Ok? && SignalRule(text).rest == after
                  && ConvertSignal(SignalRule(text).value) == Some(AsRead(first))
                  && ConvertSignals(Signals(after).0) == Some(ReadSignals(others))
    ensures ConvertSignals(Signals(text).0)
            == Some(if first.receivers == [] then [] else [AsRead(first)] + ReadSignals(others))
    ensures first.receivers != [] ==> Signals(text).1 == Signals(after).1
  {
    var rule := SignalRule(text);
    if rule.Ok? {
      var more := Signals(rule.rest);
      assert ([rule.value] + more.0)[0] == rule.value && ([rule.value] + more.0)[1..] == more.0;
    }
  }

  // Signals whose units end at their own quotes come back unescaped and rounded, up to the first one that has no
  // receiver; there the list ends.
  lemma {:induction false} SignalsReadAs(signals: seq<Signal>, tail: string)
    requires (forall s | s in signals :: WellNamed(s)) && AllTidy(signals) && Keyword("SG_", tail) == Fail(tail)
    ensures ConvertSignals(Signals(SignalsText(signals) + tail).0) == Some(ReadSignals(signals))
    ensures AllReceived(signals) ==> Signals(SignalsText(signals) + tail).1 == tail
    decreases |signals|
  {
    if signals == [] {
      assert "" + tail == tail;
    } else {
      var after := SignalsText(signals[1..]) + tail;
      Regroup(SignalText(signals[0]), SignalsText(signals[1..]), tail);
      SignalRead(signals[0], after);
      SignalsReadAs(signals[1..], tail);
      SignalsStep(SignalText(signals[0]) + after, after, signals[0], signals[1..]);
    }
  }

  //
  // Messages
  //

  lemma MessageKeywordText(text: string, after: string)
    requires text == "BO_ " + after
    ensures MessageKeyword(text) == Ok((), after) && Keyword("SG_", text) == Fail(text)
  {
    NothingToSkip(Everything, text);
    assert text[3..] == " " + after && (" " + after)[1..] == after;
    assert text[0] == 'B' && "SG_"[0] == 'S';
  }

  function TransmitterText(m: Message, tail: string): string { " " + (m.transmitter + ("\n" + tail)) }

  function SizeText(m: Message, tail: string): string { " " + (Decimal(m.messageSize) + tail) }

  function NameText(m: Message, tail: string): string { " " + (m.name + (":" + tail)) }

  function IdText(m: Message, tail: string): string { Decimal(m.id) + tail }

  lemma MessageChain(m: Message, s0: string, s1: string, s2: string, s3: string, s4: string, s5: string, s6: string)
    ensures Uint(Everything, s0) == Ok(m.id, s1) && Identifier(Everything, s1) == Ok(m.name, s2)
            && Lit(Everything, ':', s2) == Ok((), s3) && Uint(Everything, s3) == Ok(m.messageSize, s4)
            && Identifier(Blanks, s4) == Ok(m.transmitter, s5) && LineEnd(Blanks, s5) == Ok((), s6)
            ==> MessageHeader(s0) == Ok((m.id, m.name, m.messageSize, m.transmitter), s6)
  {
  }

  lemma NameRead(k: Skipper, name: string, tail: string)
    requires IsIdentifier(name) && tail != [] && !IdentifierPart(tail[0])
    ensures Identifier(k, " " + (name + tail)) == Ok(name, tail)
  {
    SkipsSpace(k, name + tail);
    IdentifierRead(k, name, tail);
  }

  lemma SpacedUintRead(n: nat, tail: string)
    requires n < Bits.TWO_64 && tail != [] && !IsDigit(tail[0])
    ensures Uint(Everything, " " + (Decimal(n) + tail)) == Ok(n, tail)
  {
    SkipsSpace(Everything, Decimal(n) + tail);
    UintRead(Everything, n, tail);
  }

  lemma MessageHeaderRead(m: Message, tail: string)
    requires WellNamedMessage(m)
    ensures MessageHeader(IdText(m, NameText(m, SizeText(m, TransmitterText(m, tail)))))
            == Ok((m.id, m.name, m.messageSize, m.transmitter), tail)
  {
    var transmitter := TransmitterText(m, tail);
    var size := SizeText(m, transmitter);
    var name := NameText(m, size);
    assert Uint(Everything, IdText(m, name)) == Ok(m.id, name) by { UintRead(Everything, m.id, name); }
    assert Identifier(Everything, name) == Ok(m.name, ":" + size) by { NameRead(Everything, m.name, ":" + size); }
    assert Lit(Everything, ':', ":" + size) == Ok((), size) by { LitRead(Everything, ':', size); }
    assert Uint(Everything, size) == Ok(m.messageSize, transmitter) by { SpacedUintRead(m.messageSize, transmitter); }
    assert Identifier(Blanks, transmitter) == Ok(m.transmitter, "\n" + tail) by {
      NameRead(Blanks, m.transmitter, "\n" + tail);
    }
    LineEndRead(tail);
    MessageChain(m, IdText(m, name), name, ":" + size, size, transmitter, "\n" + tail, tail);
  }

  function HeaderFields(m: Message, tail: string): string {
    IdText(m, NameText(m, SizeText(m, TransmitterText(m, tail))))
  }

  lemma ColonSpace(tail: string)
    ensures ":" + (" " + tail) == ": " + tail
  {
  }

  lemma HeaderSplit(m: Message, tail: string)
    ensures MessageHeaderText(m, tail) == "BO_ " + HeaderFields(m, tail)
  {
    ColonSpace(Decimal(m.messageSize) + TransmitterText(m, tail));
  }

  lemma MessageTail(m: Message, tail: string)
    ensures MessageText(m) + tail == "BO_ " + HeaderFields(m, SignalsText(m.signals) + tail)
  {
    var rest := SignalsText(m.signals) + tail;
    assert MessageText(m) + tail == MessageHeaderText(m, "") + rest by {
      Regroup(MessageHeaderText(m, ""), SignalsText(m.signals), tail);
    }
    assert MessageHeaderText(m, "") + rest == MessageHeaderText(m, "" + rest) by { MessageHeaderTail(m, "", rest); }
    assert "" + rest == rest;
    HeaderSplit(m, rest);
  }

  function WithSignals(header: (nat, string, nat, string), signals: seq<GSignal>): GMessage {
    GMessage(header.0, header.1, header.2, header.3, signals)
  }

  lemma RuleFromParts(text: string, fields: string, header: (nat, string, nat, string), rest: string)
    ensures MessageKeyword(text) == Ok((), fields) && MessageHeader(fields) == Ok(header, rest)
            ==> MessageRule(text) == Ok(WithSignals(header, Signals(rest).0), Signals(rest).1)
  {
  }

  lemma MessageConverts(m: Message, signals: seq<GSignal>)
    ensures ConvertMessage(GMessage(m.id, m.name, m.messageSize, m.transmitter, signals)) == Some(CoreMessage(m))
            <==> ConvertSignals(signals) == Some(CoreSignals(m.signals))
  {
  }

  lemma MessageStartRead(m: Message, tail: string)
    requires WellNamedMessage(m)
    ensures var signals := Signals(SignalsText(m.signals) + tail);
            MessageRule(MessageText(m) + tail)
            == Ok(WithSignals((m.id, m.name, m.messageSize, m.transmitter), signals.0), signals.1)
  {
    var rest := SignalsText(m.signals) + tail;
    var fields := HeaderFields(m, rest);
    MessageTail(m, tail);
    MessageKeywordText(MessageText(m) + tail, fields);
    assert MessageHeader(fields) == Ok((m.id, m.name, m.messageSize, m.transmitter), rest) by {
      MessageHeaderRead(m, rest);
    }
    RuleFromParts(MessageText(m) + tail, fields, (m.id, m.name, m.messageSize, m.transmitter), rest);
  }

  lemma MessageRead(m: Message, tail: string)
    requires WellNamedMessage(m) && Keyword("SG_", tail) == Fail(tail)
    ensures var r := MessageRule(MessageText(m) + tail);
            if AllReadable(m.signals) then r.Ok? && r.rest == tail && ConvertMessage(r.value) == Some(CoreMessage(m))
            else !(r.Ok? && ConvertMessage(r.value) == Some(CoreMessage(m)))
  {
    MessageStartRead(m, tail);
    SignalsRead(m.signals, tail);
    MessageConverts(m, Signals(SignalsText(m.signals) + tail).0);
  }

  function AsReadMessage(m: Message): Message {
    CoreMessage(m).(signals := ReadSignals(m.signals))
  }

  lemma MessageReadAs(m: Message, tail: string)
    requires WellNamedMessage(m) && Keyword("SG_", tail) == Fail(tail) && AllTidy(m.signals) && AllReceived(m.signals)
    ensures var r := MessageRule(MessageText(m) + tail);
            r.Ok? && r.rest == tail && ConvertMessage(r.value) == Some(AsReadMessage(m))
  {
    var rest := SignalsText(m.signals) + tail;
    MessageStartRead(m, tail);
    SignalsReadAs(m.signals, tail);
  }

  lemma CoreMessagesSplit(messages: seq<Message>)
    requires messages != []
    ensures CoreMessages(messages) == [CoreMessage(messages[0])] + CoreMessages(messages[1..])
  {
  }

  predicate EveryReadable(messages: seq<Message>) {
    forall i | 0 <= i < |messages| :: AllReadable(messages[i].signals)
  }

  lemma EveryReadableSplit(messages: seq<Message>)
    requires messages != []
    ensures EveryReadable(messages) <==> AllReadable(messages[0].signals) && EveryReadable(messages[1..])
  {
    if AllReadable(messages[0].signals) && EveryReadable(messages[1..]) {
      forall i | 0 <= i < |messages| ensures AllReadable(messages[i].signals) {
        if i > 0 { assert messages[1..][i - 1] == messages[i]; }
      }
    }
  }

  // The text after the section starts neither a signal nor a message.
  predicate EndsSection(rest: string) {
    Keyword("SG_", rest) == Fail(rest) && MessageKeyword(rest) == Fail(rest)
  }

  ghost predicate ReadsBack(text: string, messages: seq<Message>) {
    Messages(text).Ok? && ConvertMessages(Messages(text).value) == Some(CoreMessages(messages))
  }

  lemma MessagesChain(text: string, after: string, first: Message, others: seq<Message>, rest: string)
    requires if AllReadable(first.signals)
             then MessageRule(text).Ok? && MessageRule(text).rest == after
                  && ConvertMessage(MessageRule(text).value) == Some(CoreMessage(first))
             else !(MessageRule(text).Ok? && ConvertMessage(MessageRule(text).value) == Some(CoreMessage(first)))
    requires ReadsBack(after, others) <==> EveryReadable(others)
    requires EveryReadable(others) ==> Messages(after).rest == rest
    ensures Messages(text).Ok?
            && ConvertMessages(Messages(text).value) == Some([CoreMessage(first)] + CoreMessages(others))
            <==> AllReadable(first.signals) && EveryReadable(others)
    ensures AllReadable(first.signals) && EveryReadable(others) ==> Messages(text).rest == rest
  {
    var rule := MessageRule(text);
    if rule.Ok? && Messages(rule.rest).Ok? {
      var more := Messages(rule.rest);
      assert ([rule.value] + more.value)[0] == rule.value && ([rule.value] + more.value)[1..] == more.value;
      var converted := ConvertMessages(more.value);
      if ConvertMessage(rule.value).Some? && converted.Some? {
        assert ([ConvertMessage(rule.value).value] + converted.value)[0] == ConvertMessage(rule.value).value;
        assert ([ConvertMessage(rule.value).value] + converted.value)[1..] == converted.value;
        assert ([CoreMessage(first)] + CoreMessages(others))[1..] == CoreMessages(others);
      }
    }
  }

  lemma SectionStart(messages: seq<Message>, rest: string)
    requires EndsSection(rest)
    ensures Keyword("SG_", MessagesText(messages) + rest) == Fail(MessagesText(messages) + rest)
  {
    if messages == [] {
      assert "" + rest == rest;
    } else {
      var m, after := messages[0], MessagesText(messages[1..]) + rest;
      assert MessagesText(messages) + rest == MessageText(m) + after by {
        Regroup(MessageText(m), MessagesText(messages[1..]), rest);
      }
      MessageTail(m, after);
      MessageKeywordText(MessageText(m) + after, HeaderFields(m, SignalsText(m.signals) + after));
    }
  }

  // Printing the messages of a network and parsing the text gives the same messages and signals back, and leaves
  // the rest of the file, exactly when every signal has a receiver, a quote-safe unit and numbers of at most six
  // digits.
  lemma {:induction false} SectionRoundTrip(messages: seq<Message>, rest: string)
    requires (forall m | m in messages :: WellNamedMessage(m)) && EndsSection(rest)
    ensures ReadsBack(MessagesText(messages) + rest, messages) <==> EveryReadable(messages)
    ensures EveryReadable(messages) ==> Messages(MessagesText(messages) + rest).rest == rest
    decreases |messages|
  {
    if messages == [] {
      assert "" + rest == rest && CoreMessages(messages) == [];
    } else {
      var after := MessagesText(messages[1..]) + rest;
      Regroup(MessageText(messages[0]), MessagesText(messages[1..]), rest);
      SectionStart(messages[1..], rest);
      MessageRead(messages[0], after);
      SectionRoundTrip(messages[1..], rest);
      CoreMessagesSplit(messages);
      EveryReadableSplit(messages);
      MessagesChain(MessageText(messages[0]) + after, after, messages[0], messages[1..], rest);
    }
  }

  function ReadMessages(messages: seq<Message>): seq<Message> {
    if messages == [] then [] else [AsReadMessage(messages[0])] + ReadMessages(messages[1..])
  }

  lemma MessagesStep(text: string, after: string, first: Message, others: seq<Message>)
    ensures && MessageRule(text).Ok? && MessageRule(text).rest == after && Messages(after).Ok?
            && ConvertMessage(MessageRule(text).value) == Some(AsReadMessage(first))
            && ConvertMessages(Messages(after).value) == Some(ReadMessages(others))
            ==>
              && Messages(text).Ok? && Messages(text).rest == Messages(after).rest
              && ConvertMessages(Messages(text).value) == Some([AsReadMessage(first)] + ReadMessages(others))
  {
    var rule, more := MessageRule(text), Messages(after);
    if rule.Ok? && more.Ok? {
      assert ([rule.value] + more.value)[0] == rule.value && ([rule.value] + more.value)[1..] == more.value;
    }
  }

  // Otherwise, if only every unit ends at its own quote and every signal has a receiver, the section is read to its
  // end, and what comes back are the same messages with the units unescaped and the numbers rounded to six digits.
  lemma {:induction false} SectionReadsAs(messages: seq<Message>, rest: string)
    requires (forall m | m in messages :: WellNamedMessage(m) && AllTidy(m.signals) && AllReceived(m.signals))
    requires EndsSection(rest)
    ensures var r := Messages(MessagesText(messages) + rest);
            r.Ok? && r.rest == rest && ConvertMessages(r.value) == Some(ReadMessages(messages))
    decreases |messages|
  {
    if messages == [] {
      assert "" + rest == rest;
    } else {
      var after := MessagesText(messages[1..]) + rest;
      Regroup(MessageText(messages[0]), MessagesText(messages[1..]), rest);
      SectionStart(messages[1..], rest);
      MessageReadAs(messages[0], after);
      SectionReadsAs(messages[1..], rest);
      MessagesStep(MessageText(messages[0]) + after, after, messages[0], messages[1..]);
    }
  }

  // How the sections that can follow the messages start in a printed file; attributes start on a new line.
  const LATER_SECTIONS: seq<string> :=
    ["BO_TX_BU_ ", "EV_ ", "ENVVAR_DATA_ ", "VAL_TABLE_ ", "CM_ ", "\nBA_DEF_ ", "\nBA_DEF_DEF_ ", "\nBA_ ", "VAL_ ",
     "SIG_GROUP_ ", "SIG_VALTYPE_ ", "SG_MUL_VAL_ "]

  // Each of them ends the list of signals and the list of messages, and so does the end of the file.
  lemma LaterSectionsEnd(section: string, text: string)
    requires section in LATER_SECTIONS
    ensures EndsSection(section + text)
  {
    if section[0] == '\n' {
      LineEnds(section, text);
    } else {
      KeywordEnds(section, text);
    }
  }

  lemma FileEnds()
    ensures EndsSection("")
  {
  }

  // Neither the keyword of a signal nor that of a message.
  predicate OtherKeyword(keyword: string) {
    |keyword| > 3 && Solid(keyword[0]) && (Solid(keyword[3]) || (keyword[1] != 'G' && keyword[1] != 'O'))
  }

  lemma KeywordEnds(keyword: string, text: string)
    requires OtherKeyword(keyword)
    ensures EndsSection(keyword + text)
  {
    var rest := keyword + text;
    assert rest[0] == keyword[0] && rest[1] == keyword[1] && rest[3] == keyword[3];
    NothingToSkip(Everything, rest);
    assert "SG_"[1] == 'G' && "BO_"[1] == 'O';
    assert rest[3..][0] == rest[3];
  }

  lemma LineEnds(line: string, text: string)
    requires line != [] && line[0] == '\n' && OtherKeyword(line[1..])
    ensures EndsSection(line + text)
  {
    var rest := line[1..] + text;
    assert (line + text)[1..] == rest;
    KeywordEnds(line[1..], text);
    NothingToSkip(Everything, rest);
  }
}
