// Reading any text, printing what was read and reading that again.
module DbcReparse {
  import Bits
  import opened DbcTypes
  import opened NetworkEquality
  import opened DbcGrammar
  import opened DbcTerminals
  import opened DbcPrinter
  import opened DbcRoundTrip

  //
  // What the grammar guarantees of every signal and message it accepts
  //

  predicate AllIdentifiers(names: seq<string>) {
    forall i | 0 <= i < |names| :: IsIdentifier(names[i])
  }

  predicate WellParsed(g: GSignal) {
    && IsIdentifier(g.name) && g.startBit < Bits.TWO_64 && g.signalSize < Bits.TWO_64
    && g.byteOrder in "01" && g.valueType in "-+"
    && (g.multiplexerIndicator.Some? ==> IsIdentifier(g.multiplexerIndicator.value))
    && g.receivers != [] && AllIdentifiers(g.receivers)
  }

  predicate AllWellParsed(gs: seq<GSignal>) {
    forall i | 0 <= i < |gs| :: WellParsed(gs[i])
  }

  predicate WellParsedMessage(g: GMessage) {
    && g.id < Bits.TWO_64 && IsIdentifier(g.name) && g.size < Bits.TWO_64 && IsIdentifier(g.transmitter)
    && AllWellParsed(g.signals)
  }

  predicate EveryWellParsed(gs: seq<GMessage>) {
    forall i | 0 <= i < |gs| :: WellParsedMessage(gs[i])
  }

  lemma {:induction false} LeadingNameParts(s: string)
    ensures forall i | 0 <= i < |LeadingName(s)| :: IdentifierPart(LeadingName(s)[i])
  {
    if s == [] || !IdentifierPart(s[0]) {
    } else {
      LeadingNameParts(s[1..]);
    }
  }

  lemma IdentifierParsed(k: Skipper, s: string)
    ensures Identifier(k, s).Ok? ==> IsIdentifier(Identifier(k, s).value)
  {
    if Identifier(k, s).Ok? {
      var t := Skip(k, s).rest;
      LeadingNameParts(t[1..]);
    }
  }

  lemma {:induction false} MoreReceiversParsed(s: string)
    ensures MoreReceivers(s).Ok? ==> AllIdentifiers(MoreReceivers(s).value)
    decreases |s|
  {
    var comma := Lit(Blanks, ',', s);
    if comma.Ok? {
      var name := Identifier(Blanks, comma.rest);
      IdentifierParsed(Blanks, comma.rest);
      if name.Ok? { MoreReceiversParsed(name.rest); }
    }
  }

  lemma UnitAndReceiversParsed(s: string)
    ensures UnitAndReceivers(s).Ok? ==>
              UnitAndReceivers(s).value.1 != [] && AllIdentifiers(UnitAndReceivers(s).value.1)
  {
    var unit := QuotedString(Everything, s);
    if unit.Ok? {
      var first := Identifier(Blanks, unit.rest);
      IdentifierParsed(Blanks, unit.rest);
      if first.Ok? { MoreReceiversParsed(first.rest); }
    }
  }

  lemma HeaderParsed(s: string)
    ensures HeaderRule(s).Ok? ==>
              IsIdentifier(HeaderRule(s).value.0)
              && (HeaderRule(s).value.1.Some? ==> IsIdentifier(HeaderRule(s).value.1.value))
  {
    var name := Identifier(Everything, s);
    IdentifierParsed(Everything, s);
    if name.Ok? { IdentifierParsed(Everything, name.rest); }
  }

  lemma SizesParsed(s: string)
    ensures SizeRule(s).Ok? ==> SizeRule(s).value.0 < Bits.TWO_64 && SizeRule(s).value.1 < Bits.TWO_64
  {
  }

  lemma OrdersParsed(s: string)
    ensures OrderRule(s).Ok? ==> OrderRule(s).value.0 in "01" && OrderRule(s).value.1 in "-+"
  {
  }

  lemma PlacementParsed(s: string)
    ensures PlacementRule(s).Ok? ==>
              var (header, sizes, orders) := PlacementRule(s).value;
              && IsIdentifier(header.0) && (header.1.Some? ==> IsIdentifier(header.1.value))
              && sizes.0 < Bits.TWO_64 && sizes.1 < Bits.TWO_64 && orders.0 in "01" && orders.1 in "-+"
  {
    if PlacementRule(s).Ok? {
      HeaderParsed(s);
      SizesParsed(HeaderRule(s).rest);
      OrdersParsed(SizeRule(HeaderRule(s).rest).rest);
    }
  }

  lemma SignalBodyParsed(s: string)
    ensures SignalBody(s).Ok? ==> WellParsed(SignalBody(s).value)
  {
    if SignalBody(s).Ok? {
      var scale := PlacementRule(s).rest;
      var range := Numbers('(', ',', ')', scale).rest;
      PlacementParsed(s);
      UnitAndReceiversParsed(Numbers('[', '|', ']', range).rest);
    }
  }

  lemma {:induction false} SignalsParsed(s: string)
    ensures AllWellParsed(Signals(s).0)
    decreases |s|
  {
    var rule := SignalRule(s);
    if rule.Ok? {
      SignalBodyParsed(Keyword("SG_", s).rest);
      SignalsParsed(rule.rest);
    }
  }

  lemma MessageHeaderParsed(s: string)
    ensures MessageHeader(s).Ok? ==>
              var h := MessageHeader(s).value;
              h.0 < Bits.TWO_64 && IsIdentifier(h.1) && h.2 < Bits.TWO_64 && IsIdentifier(h.3)
  {
    var id := Uint(Everything, s);
    if id.Ok? {
      IdentifierParsed(Everything, id.rest);
      var name := Identifier(Everything, id.rest);
      if name.Ok? {
        var colon := Lit(Everything, ':', name.rest);
        if colon.Ok? {
          var size := Uint(Everything, colon.rest);
          if size.Ok? { IdentifierParsed(Blanks, size.rest); }
        }
      }
    }
  }

  // Whatever the text, every message and signal read from it has identifiers for names, sizes of 64 bits, one
  // of the two marks for byte order and for sign, and at least one receiver.
  lemma {:induction false} MessagesParsed(s: string)
    ensures Messages(s).Ok? ==> EveryWellParsed(Messages(s).value)
    decreases |s|
  {
    var rule := MessageRule(s);
    if rule.Ok? {
      var fields := MessageKeyword(s).rest;
      MessageHeaderParsed(fields);
      SignalsParsed(MessageHeader(fields).rest);
      MessagesParsed(rule.rest);
    }
  }

  //
  // The network's objects made from them
  //

  lemma SignalConverted(g: GSignal, s: Signal)
    requires WellParsed(g) && ConvertSignal(g) == Some(s)
    ensures Core(s) == s && s.receivers != [] && WellNamed(s)
  {
  }

  predicate AllExact(signals: seq<Signal>) {
    forall i | 0 <= i < |signals| :: PrintsExactly(signals[i])
  }

  predicate AllQuoteSafe(signals: seq<Signal>) {
    forall i | 0 <= i < |signals| :: QuoteSafe(signals[i].unit)
  }

  lemma AllSplit(signals: seq<Signal>)
    requires signals != []
    ensures AllQuoteSafe(signals) <==> QuoteSafe(signals[0].unit) && AllQuoteSafe(signals[1..])
    ensures AllExact(signals) <==> PrintsExactly(signals[0]) && AllExact(signals[1..])
  {
    assert signals == [signals[0]] + signals[1..];
  }

  lemma {:induction false} SignalsConverted(gs: seq<GSignal>, signals: seq<Signal>)
    requires AllWellParsed(gs) && ConvertSignals(gs) == Some(signals)
    ensures CoreSignals(signals) == signals && forall s | s in signals :: WellNamed(s)
    ensures AllReadable(signals) <==> AllQuoteSafe(signals) && AllExact(signals)
    decreases |gs|
  {
    if gs == [] {
    } else {
      var first, others := ConvertSignal(gs[0]).value, ConvertSignals(gs[1..]).value;
      assert signals == [first] + others && signals[1..] == others;
      SignalConverted(gs[0], first);
      SignalsConverted(gs[1..], others);
      CoreSignalsSplit(signals);
      AllReadableSplit(signals);
      AllSplit(signals);
    }
  }

  predicate EveryExact(messages: seq<Message>) {
    forall i | 0 <= i < |messages| :: AllExact(messages[i].signals)
  }

  predicate EveryQuoteSafe(messages: seq<Message>) {
    forall i | 0 <= i < |messages| :: AllQuoteSafe(messages[i].signals)
  }

  lemma EverySplit(messages: seq<Message>)
    requires messages != []
    ensures EveryQuoteSafe(messages) <==> AllQuoteSafe(messages[0].signals) && EveryQuoteSafe(messages[1..])
    ensures EveryExact(messages) <==> AllExact(messages[0].signals) && EveryExact(messages[1..])
  {
    assert messages == [messages[0]] + messages[1..];
  }

  lemma MessageConverted(g: GMessage, m: Message)
    requires WellParsedMessage(g) && ConvertMessage(g) == Some(m)
    ensures CoreMessage(m) == m && WellNamedMessage(m)
    ensures AllReadable(m.signals) <==> AllQuoteSafe(m.signals) && AllExact(m.signals)
  {
    SignalsConverted(g.signals, m.signals);
  }

  lemma {:induction false} MessagesConverted(gs: seq<GMessage>, messages: seq<Message>)
    requires EveryWellParsed(gs) && ConvertMessages(gs) == Some(messages)
    ensures CoreMessages(messages) == messages && forall m | m in messages :: WellNamedMessage(m)
    ensures EveryReadable(messages) <==> EveryQuoteSafe(messages) && EveryExact(messages)
    decreases |gs|
  {
    if gs == [] {
    } else {
      var first, others := ConvertMessage(gs[0]).value, ConvertMessages(gs[1..]).value;
      assert messages == [first] + others && messages[1..] == others;
      MessageConverted(gs[0], first);
      MessagesConverted(gs[1..], others);
      CoreMessagesSplit(messages);
      EveryReadableSplit(messages);
      EverySplit(messages);
    }
  }

  // The messages read from any text whatever, printed and read again, are the same messages exactly when every
  // unit is quote-safe and no number has more than six digits.
  lemma ReparseIsStable(text: string, rest: string)
    requires EndsSection(rest)
    ensures var first := Messages(text);
            var messages := if first.Ok? then ConvertMessages(first.value) else None;
            messages.Some? ==>
              var again := Messages(MessagesText(messages.value) + rest);
              && (again.Ok? && ConvertMessages(again.value) == messages
                  <==> EveryQuoteSafe(messages.value) && EveryExact(messages.value))
              && (EveryQuoteSafe(messages.value) && EveryExact(messages.value) ==> again.rest == rest)
  {
    var first := Messages(text);
    if first.Ok? && ConvertMessages(first.value).Some? {
      var messages := ConvertMessages(first.value).value;
      MessagesParsed(text);
      MessagesConverted(first.value, messages);
      SectionRoundTrip(messages, rest);
    }
  }
}
