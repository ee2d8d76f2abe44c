// What a text of messages, however it is spelled, becomes in the network.
module DbcReading {
  import opened DbcTypes
  import opened Numerals
  import opened SignalLayout
  import opened NetworkEquality
  import opened DbcGrammar
  import opened DbcSpelling
  import opened DbcLanguage
  import opened DbcRoundTrip

  //
  // Multiplexer indicators
  //

  // No indicator: not multiplexed. A name that starts with an upper-case M: the switch. Any other name, whatever its
  // first letter: the value the digits behind that letter spell, which must fit an int; what follows them is ignored.
  ghost predicate Indicates(m: Option<string>, kind: Multiplexer, value: nat) {
    match m
    case None => kind == NoMux && value == 0
    case Some(name) =>
      && name != []
      && if name[0] == 'M' then kind == MuxSwitch && value == 0
         else
           kind == MuxValue && exists digits, tail :: name[1..] == digits + tail && SpellsInt(digits, value, tail)
  }

  ghost predicate SpellsInt(digits: string, value: nat, tail: string) {
    AllDigits(digits) && !StartsDigit(tail) && NumberOf(digits) == value < 0x8000_0000
  }

  lemma {:induction false} IndicatesIff(m: Option<string>, kind: Multiplexer, value: nat)
    ensures ConvertMultiplexer(m) == Some((kind, value)) <==> Indicates(m, kind, value)
  {
    if m.Some? && m.value != [] && m.value[0] != 'M' {
      var text := m.value[1..];
      if ConvertMultiplexer(m) == Some((kind, value)) {
        DigitsTaken(text);
        assert SpellsInt(LeadingDigits(text), value, AfterDigits(text));
      }
      if Indicates(m, kind, value) {
        var digits, tail :| text == digits + tail && SpellsInt(digits, value, tail);
        DigitsStop(digits, tail);
      }
    }
  }

  // m3M, as one of the repository's test files has it, stands for the switch value 3.
  lemma ExtendedIndicator()
    ensures ConvertMultiplexer(Some("m3M")) == Some((MuxValue, 3))
  {
    assert "m3M"[1..] == "3" + "M";
    assert NumberOf("3") == 3;
    assert SpellsInt("3", 3, "M");
    IndicatesIff(Some("m3M"), MuxValue, 3);
  }

  //
  // Signals and messages
  //

  // The network's signal for a parsed one: byte order 0 is big endian and 1 little endian, + is unsigned and - signed.
  ghost predicate Becomes(g: GSignal, s: Signal) {
    && s.name == g.name && Indicates(g.multiplexerIndicator, s.multiplexerIndicator, s.multiplexerSwitchValue)
    && s.startBit == g.startBit && s.bitSize == g.signalSize
    && s.byteOrder == (if g.byteOrder == '0' then BigEndian else LittleEndian)
    && s.valueType == (if g.valueType == '+' then Unsigned else Signed)
    && s.factor == g.factor && s.offset == g.offset && s.minimum == g.minimum && s.maximum == g.maximum
    && s.unit == g.unit && s.receivers == g.receivers
    && s.attributeValues == [] && s.valueEncodingDescriptions == [] && s.comment == ""
    && s.extendedValueType == Integer && s.signalMultiplexerValues == []
  }

  ghost predicate AllBecome(gs: seq<GSignal>, signals: seq<Signal>) {
    |signals| == |gs| && forall i | 0 <= i < |gs| :: Becomes(gs[i], signals[i])
  }

  ghost predicate MessageBecomes(g: GMessage, m: Message) {
    && m.id == g.id && m.name == g.name && m.messageSize == g.size && m.transmitter == g.transmitter
    && AllBecome(g.signals, m.signals)
    && m.messageTransmitters == [] && m.attributeValues == [] && m.comment == "" && m.signalGroups == []
  }

  ghost predicate AllMessagesBecome(gs: seq<GMessage>, messages: seq<Message>) {
    |messages| == |gs| && forall i | 0 <= i < |gs| :: MessageBecomes(gs[i], messages[i])
  }

  lemma {:induction false} BecomesIff(g: GSignal, s: Signal)
    ensures ConvertSignal(g) == Some(s) <==> Becomes(g, s)
  {
    IndicatesIff(g.multiplexerIndicator, s.multiplexerIndicator, s.multiplexerSwitchValue);
  }

  lemma {:induction false} AllBecomeIff(gs: seq<GSignal>, signals: seq<Signal>)
    ensures ConvertSignals(gs) == Some(signals) <==> AllBecome(gs, signals)
  {
    if gs != [] && signals != [] {
      BecomesIff(gs[0], signals[0]);
      AllBecomeIff(gs[1..], signals[1..]);
      assert [signals[0]] + signals[1..] == signals;
      assert AllBecome(gs, signals) <==> Becomes(gs[0], signals[0]) && AllBecome(gs[1..], signals[1..]) by {
        if Becomes(gs[0], signals[0]) && AllBecome(gs[1..], signals[1..]) {
          forall i | 0 <= i < |gs| ensures Becomes(gs[i], signals[i]) {
            if i > 0 { assert gs[i] == gs[1..][i - 1] && signals[i] == signals[1..][i - 1]; }
          }
        }
        if AllBecome(gs, signals) {
          forall i | 0 <= i < |gs| - 1 ensures Becomes(gs[1..][i], signals[1..][i]) {
            assert Becomes(gs[i + 1], signals[i + 1]);
          }
        }
      }
    }
  }

  lemma {:induction false} MessageBecomesIff(g: GMessage, m: Message)
    ensures ConvertMessage(g) == Some(m) <==> MessageBecomes(g, m)
  {
    AllBecomeIff(g.signals, m.signals);
  }

  lemma {:induction false} AllMessagesBecomeIff(gs: seq<GMessage>, messages: seq<Message>)
    ensures ConvertMessages(gs) == Some(messages) <==> AllMessagesBecome(gs, messages)
  {
    if gs != [] && messages != [] {
      MessageBecomesIff(gs[0], messages[0]);
      AllMessagesBecomeIff(gs[1..], messages[1..]);
      assert [messages[0]] + messages[1..] == messages;
      assert AllMessagesBecome(gs, messages)
             <==> MessageBecomes(gs[0], messages[0]) && AllMessagesBecome(gs[1..], messages[1..]) by {
        if MessageBecomes(gs[0], messages[0]) && AllMessagesBecome(gs[1..], messages[1..]) {
          forall i | 0 <= i < |gs| ensures MessageBecomes(gs[i], messages[i]) {
            if i > 0 { assert gs[i] == gs[1..][i - 1] && messages[i] == messages[1..][i - 1]; }
          }
        }
        if AllMessagesBecome(gs, messages) {
          forall i | 0 <= i < |gs| - 1 ensures MessageBecomes(gs[1..][i], messages[1..][i]) {
            assert MessageBecomes(gs[i + 1], messages[i + 1]);
          }
        }
      }
    }
  }

  //
  // Sections
  //

  // The text spells messages that become these.
  ghost predicate Reads(text: string, messages: seq<Message>, rest: string) {
    exists gs :: MessagesOf(text, gs, rest) && AllMessagesBecome(gs, messages)
  }

  // A section of messages is loaded as exactly the messages it spells, whatever its gaps, line ends, comments and
  // spellings of numbers and strings, and whether or not it was ever printed.
  lemma {:induction false} LoadedIff(text: string, messages: seq<Message>, rest: string)
    ensures Messages(text).Ok? && Messages(text).rest == rest && ConvertMessages(Messages(text).value) == Some(messages)
            <==> Reads(text, messages, rest)
  {
    var r := Messages(text);
    if r.Ok? && r.rest == rest && ConvertMessages(r.value) == Some(messages) {
      MessagesIff(text, r.value, rest);
      AllMessagesBecomeIff(r.value, messages);
    }
    if Reads(text, messages, rest) {
      var gs :| MessagesOf(text, gs, rest) && AllMessagesBecome(gs, messages);
      MessagesIff(text, gs, rest);
      AllMessagesBecomeIff(gs, messages);
    }
  }
}
