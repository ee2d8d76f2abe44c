// The signals and messages of the DBC language, said as relations between a text, what it spells and the text after
// it, and that the grammar reads exactly these.
module DbcLanguage {
  import opened DbcGrammar
  import opened DbcSpelling
  import opened DbcTypes

  // c, behind spaces and comments
  ghost predicate Mark(k: Skipper, s: string, c: char, rest: string) {
    Gap(k, s, [c] + rest)
  }

  lemma {:induction false} MarkIff(k: Skipper, s: string, c: char, rest: string)
    ensures Lit(k, c, s) == Ok((), rest) <==> Mark(k, s, c, rest)
  {
    LitIff(k, c, s, rest);
  }

  // one of two characters
  ghost predicate Choice(s: string, x: char, c: char, d: char, rest: string) {
    (x == c || x == d) && Gap(Everything, s, [x] + rest)
  }

  lemma {:induction false} ChoiceIff(s: string, x: char, c: char, d: char, rest: string)
    ensures OneOf(Everything, c, d, s) == Ok(x, rest) <==> Choice(s, x, c, d, rest)
  {
    OneOfIff(Everything, c, d, x, s, rest);
  }

  //
  // The parts of a signal
  //

  // name, an optional multiplexer indicator, a colon
  ghost predicate HeaderOf(s: string, name: string, mux: Option<string>, rest: string) {
    exists s1, s2 ::
      Name(Everything, s, name, s1) && OptionalName(Everything, s1, mux, s2) && Mark(Everything, s2, ':', rest)
  }

  lemma HeaderIff(s: string, name: string, mux: Option<string>, rest: string)
    ensures HeaderRule(s) == Ok((name, mux), rest) <==> HeaderOf(s, name, mux, rest)
  {
    if HeaderRule(s) == Ok((name, mux), rest) {
      var s1 := Identifier(Everything, s).rest;
      var s2 := OptionalIdentifier(Everything, s1).rest;
      IdentifierIff(Everything, s, name, s1);
      OptionalIdentifierIff(Everything, s1, mux, s2);
      MarkIff(Everything, s2, ':', rest);
    }
    if HeaderOf(s, name, mux, rest) {
      var s1, s2 :|
        Name(Everything, s, name, s1) && OptionalName(Everything, s1, mux, s2) && Mark(Everything, s2, ':', rest);
      IdentifierIff(Everything, s, name, s1);
      OptionalIdentifierIff(Everything, s1, mux, s2);
      MarkIff(Everything, s2, ':', rest);
    }
  }

  // start bit, a bar, size
  ghost predicate SizesOf(s: string, startBit: nat, size: nat, rest: string) {
    exists s1, s2 ::
      Whole(Everything, s, startBit, s1) && Mark(Everything, s1, '|', s2) && Whole(Everything, s2, size, rest)
  }

  lemma SizesIff(s: string, startBit: nat, size: nat, rest: string)
    ensures SizeRule(s) == Ok((startBit, size), rest) <==> SizesOf(s, startBit, size, rest)
  {
    if SizeRule(s) == Ok((startBit, size), rest) {
      var s1 := Uint(Everything, s).rest;
      var s2 := Lit(Everything, '|', s1).rest;
      UintIff(Everything, s, startBit, s1);
      MarkIff(Everything, s1, '|', s2);
      UintIff(Everything, s2, size, rest);
    }
    if SizesOf(s, startBit, size, rest) {
      var s1, s2 :|
        Whole(Everything, s, startBit, s1) && Mark(Everything, s1, '|', s2) && Whole(Everything, s2, size, rest);
      UintIff(Everything, s, startBit, s1);
      MarkIff(Everything, s1, '|', s2);
      UintIff(Everything, s2, size, rest);
    }
  }

  // an at sign, 0 or 1 for the byte order, + or - for the sign
  ghost predicate OrdersOf(s: string, byteOrder: char, valueType: char, rest: string) {
    exists s1, s2 ::
      Mark(Everything, s, '@', s1) && Choice(s1, byteOrder, '0', '1', s2) && Choice(s2, valueType, '-', '+', rest)
  }

  lemma {:induction false} OrdersIff(s: string, byteOrder: char, valueType: char, rest: string)
    ensures OrderRule(s) == Ok((byteOrder, valueType), rest) <==> OrdersOf(s, byteOrder, valueType, rest)
  {
    if OrderRule(s) == Ok((byteOrder, valueType), rest) {
      var s1 := Lit(Everything, '@', s).rest;
      var s2 := OneOf(Everything, '0', '1', s1).rest;
      MarkIff(Everything, s, '@', s1);
      ChoiceIff(s1, byteOrder, '0', '1', s2);
      ChoiceIff(s2, valueType, '-', '+', rest);
    }
    if OrdersOf(s, byteOrder, valueType, rest) {
      var s1, s2 :|
        Mark(Everything, s, '@', s1) && Choice(s1, byteOrder, '0', '1', s2) && Choice(s2, valueType, '-', '+', rest);
      MarkIff(Everything, s, '@', s1);
      ChoiceIff(s1, byteOrder, '0', '1', s2);
      ChoiceIff(s2, valueType, '-', '+', rest);
      OrdersChain(s, s1, s2, byteOrder, valueType, rest);
    }
  }

  lemma {:induction false} OrdersChain(
    s: string, s1: string, s2: string, byteOrder: char, valueType: char, rest: string)
    requires Lit(Everything, '@', s) == Ok((), s1)
    requires OneOf(Everything, '0', '1', s1) == Ok(byteOrder, s2)
    requires OneOf(Everything, '-', '+', s2) == Ok(valueType, rest)
    ensures OrderRule(s) == Ok((byteOrder, valueType), rest)
  {
  }

  // a mark and a number
  ghost predicate MarkedOf(mark: char, s: string, x: real, rest: string) {
    exists s1 :: Mark(Everything, s, mark, s1) && RealNumber(Everything, s1, x, rest)
  }

  lemma {:induction false} MarkedIff(mark: char, s: string, x: real, rest: string)
    ensures MarkedNumber(mark, s) == Ok(x, rest) <==> MarkedOf(mark, s, x, rest)
  {
    if MarkedNumber(mark, s) == Ok(x, rest) {
      var s1 := Lit(Everything, mark, s).rest;
      MarkIff(Everything, s, mark, s1);
      RealIff(Everything, s1, x, rest);
    }
    if MarkedOf(mark, s, x, rest) {
      var s1 :| Mark(Everything, s, mark, s1) && RealNumber(Everything, s1, x, rest);
      MarkIff(Everything, s, mark, s1);
      RealIff(Everything, s1, x, rest);
    }
  }

  // two numbers between three marks
  ghost predicate PairOf(open: char, separator: char, close: char, s: string, x: real, y: real, rest: string) {
    exists s1, s2 :: MarkedOf(open, s, x, s1) && MarkedOf(separator, s1, y, s2) && Mark(Everything, s2, close, rest)
  }

  lemma {:induction false} PairIff(
    open: char, separator: char, close: char, s: string, x: real, y: real, rest: string)
    ensures Numbers(open, separator, close, s) == Ok((x, y), rest) <==> PairOf(open, separator, close, s, x, y, rest)
  {
    if Numbers(open, separator, close, s) == Ok((x, y), rest) {
      var s1, s2 := PairParts(open, separator, close, s, x, y, rest);
      MarkedIff(open, s, x, s1);
      MarkedIff(separator, s1, y, s2);
      MarkIff(Everything, s2, close, rest);
    }
    if PairOf(open, separator, close, s, x, y, rest) {
      var s1, s2 :|
        MarkedOf(open, s, x, s1) && MarkedOf(separator, s1, y, s2) && Mark(Everything, s2, close, rest);
      MarkedIff(open, s, x, s1);
      MarkedIff(separator, s1, y, s2);
      MarkIff(Everything, s2, close, rest);
      PairChain(open, separator, close, s, s1, s2, x, y, rest);
    }
  }

  lemma {:induction false} PairParts(
    open: char, separator: char, close: char, s: string, x: real, y: real, rest: string)
    returns (s1: string, s2: string)
    requires Numbers(open, separator, close, s) == Ok((x, y), rest)
    ensures MarkedNumber(open, s) == Ok(x, s1) && MarkedNumber(separator, s1) == Ok(y, s2)
    ensures Lit(Everything, close, s2) == Ok((), rest)
  {
    s1 := MarkedNumber(open, s).rest;
    s2 := MarkedNumber(separator, s1).rest;
  }

  lemma {:induction false} PairChain(
    open: char, separator: char, close: char, s: string, s1: string, s2: string, x: real, y: real, rest: string)
    requires MarkedNumber(open, s) == Ok(x, s1) && MarkedNumber(separator, s1) == Ok(y, s2)
    requires Lit(Everything, close, s2) == Ok((), rest)
    ensures Numbers(open, separator, close, s) == Ok((x, y), rest)
  {
  }

  // commas and names up to the end of the line
  ghost predicate MoreReceiversOf(s: string, names: seq<string>, rest: string)
    decreases |names|
  {
    if names == [] then LineEnds(Blanks, s, rest)
    else exists s1, s2 ::
      Mark(Blanks, s, ',', s1) && Name(Blanks, s1, names[0], s2) && MoreReceiversOf(s2, names[1..], rest)
  }

  ghost predicate MoreThenEnd(s: string, names: seq<string>, rest: string) {
    var more := MoreReceivers(s);
    more.Ok? && more.value == names && LineEnd(Blanks, more.rest) == Ok((), rest)
  }

  lemma {:induction false} MoreReceiversIff(s: string, names: seq<string>, rest: string)
    ensures MoreThenEnd(s, names, rest) <==> MoreReceiversOf(s, names, rest)
    decreases |names|
  {
    if MoreThenEnd(s, names, rest) { MoreReceiversTaken(s, names, rest); }
    if MoreReceiversOf(s, names, rest) { MoreReceiversGiven(s, names, rest); }
  }

  lemma {:induction false} MoreReceiversTaken(s: string, names: seq<string>, rest: string)
    requires MoreThenEnd(s, names, rest)
    ensures MoreReceiversOf(s, names, rest)
    decreases |names|
  {
    if names == [] {
      NoMore(s);
      LineEndIff(s, rest);
    } else {
      var s1 := Lit(Blanks, ',', s).rest;
      var s2 := Identifier(Blanks, s1).rest;
      MarkIff(Blanks, s, ',', s1);
      IdentifierIff(Blanks, s1, names[0], s2);
      MoreReceiversTaken(s2, names[1..], rest);
    }
  }

  lemma {:induction false} NoMore(s: string)
    ensures MoreReceivers(s).Ok? && MoreReceivers(s).value == [] ==> MoreReceivers(s).rest == s
  {
  }

  lemma {:induction false} MoreReceiversGiven(s: string, names: seq<string>, rest: string)
    requires MoreReceiversOf(s, names, rest)
    ensures MoreThenEnd(s, names, rest)
    decreases |names|
  {
    if names == [] {
      LineEndIff(s, rest);
      LineEndIsNoComma(s);
    } else {
      var s1, s2 :| Mark(Blanks, s, ',', s1) && Name(Blanks, s1, names[0], s2) && MoreReceiversOf(s2, names[1..], rest);
      MarkIff(Blanks, s, ',', s1);
      IdentifierIff(Blanks, s1, names[0], s2);
      MoreReceiversGiven(s2, names[1..], rest);
      MoreStep(s, s1, s2, names, rest);
    }
  }

  lemma {:induction false} MoreStep(s: string, s1: string, s2: string, names: seq<string>, rest: string)
    requires names != [] && Lit(Blanks, ',', s) == Ok((), s1) && Identifier(Blanks, s1) == Ok(names[0], s2)
    requires MoreThenEnd(s2, names[1..], rest)
    ensures MoreThenEnd(s, names, rest)
  {
    assert [names[0]] + names[1..] == names;
  }

  lemma {:induction false} LineEndIsNoComma(s: string)
    requires LineEnd(Blanks, s).Ok?
    ensures MoreReceivers(s) == Ok([], s)
  {
  }

  // the unit in quotes, then one or more names separated by commas, all on one line
  ghost predicate LastOf(s: string, unit: string, receivers: seq<string>, rest: string) {
    && receivers != []
    && exists s1, s2 ::
         && Quoted(Everything, s, unit, s1) && Name(Blanks, s1, receivers[0], s2)
         && MoreReceiversOf(s2, receivers[1..], rest)
  }

  lemma {:induction false} LastIff(s: string, unit: string, receivers: seq<string>, rest: string)
    ensures UnitAndReceivers(s) == Ok((unit, receivers), rest) <==> LastOf(s, unit, receivers, rest)
  {
    if UnitAndReceivers(s) == Ok((unit, receivers), rest) {
      var s1, s2 := LastParts(s, unit, receivers, rest);
      QuotedIff(Everything, s, unit, s1);
      IdentifierIff(Blanks, s1, receivers[0], s2);
      MoreReceiversIff(s2, receivers[1..], rest);
    }
    if LastOf(s, unit, receivers, rest) {
      var s1, s2 :|
        Quoted(Everything, s, unit, s1) && Name(Blanks, s1, receivers[0], s2)
        && MoreReceiversOf(s2, receivers[1..], rest);
      QuotedIff(Everything, s, unit, s1);
      IdentifierIff(Blanks, s1, receivers[0], s2);
      MoreReceiversIff(s2, receivers[1..], rest);
      LastChain(s, unit, receivers, s1, s2, rest);
    }
  }

  lemma {:induction false} LastParts(s: string, unit: string, receivers: seq<string>, rest: string)
    returns (s1: string, s2: string)
    requires UnitAndReceivers(s) == Ok((unit, receivers), rest)
    ensures receivers != []
    ensures QuotedString(Everything, s) == Ok(unit, s1) && Identifier(Blanks, s1) == Ok(receivers[0], s2)
    ensures MoreThenEnd(s2, receivers[1..], rest)
  {
    s1 := QuotedString(Everything, s).rest;
    s2 := Identifier(Blanks, s1).rest;
    assert receivers[1..] == MoreReceivers(s2).value;
    LineEndValue(MoreReceivers(s2).rest, rest);
  }

  lemma {:induction false} LastChain(
    s: string, unit: string, receivers: seq<string>, s1: string, s2: string, rest: string)
    requires receivers != []
    requires QuotedString(Everything, s) == Ok(unit, s1) && Identifier(Blanks, s1) == Ok(receivers[0], s2)
    requires MoreThenEnd(s2, receivers[1..], rest)
    ensures UnitAndReceivers(s) == Ok((unit, receivers), rest)
  {
    assert [receivers[0]] + receivers[1..] == receivers;
  }

  lemma LineEndValue(s: string, rest: string)
    requires LineEnd(Blanks, s).Ok? && LineEnd(Blanks, s).rest == rest
    ensures LineEnd(Blanks, s) == Ok((), rest)
  {
  }

  //
  // Signals
  //

  ghost predicate BodyOf(s: string, g: GSignal, rest: string) {
    exists s1, s2, s3 ::
      && HeaderOf(s, g.name, g.multiplexerIndicator, s1) && SizesOf(s1, g.startBit, g.signalSize, s2)
      && OrdersOf(s2, g.byteOrder, g.valueType, s3) && TailOf(s3, g, rest)
  }

  ghost predicate TailOf(s: string, g: GSignal, rest: string) {
    exists s1, s2 ::
      && PairOf('(', ',', ')', s, g.factor, g.offset, s1) && PairOf('[', '|', ']', s1, g.minimum, g.maximum, s2)
      && LastOf(s2, g.unit, g.receivers, rest)
  }

  // One signal, however it is spelled: its keyword, its name and multiplexer indicator, its place, its byte order and
  // sign, its factor and offset, its minimum and maximum, its unit and its receivers.
  ghost predicate SignalOf(s: string, g: GSignal, rest: string) {
    exists s1 :: Keyworded("SG_", s, s1) && BodyOf(s1, g, rest)
  }

  // The signal rule after the byte order and the sign
  function TailRule(s: string): Parse<((real, real), (real, real), (string, seq<string>))> {
    var (scale, s) :- Numbers('(', ',', ')', s);
    var (range, s) :- Numbers('[', '|', ']', s);
    var (last, s) :- Expect(UnitAndReceivers(s));
    Ok((scale, range, last), s)
  }

  lemma {:induction false} TailTaken(s: string, g: GSignal, rest: string)
    requires TailRule(s) == Ok(((g.factor, g.offset), (g.minimum, g.maximum), (g.unit, g.receivers)), rest)
    ensures TailOf(s, g, rest)
  {
    var s1 := Numbers('(', ',', ')', s).rest;
    var s2 := Numbers('[', '|', ']', s1).rest;
    PairIff('(', ',', ')', s, g.factor, g.offset, s1);
    PairIff('[', '|', ']', s1, g.minimum, g.maximum, s2);
    LastIff(s2, g.unit, g.receivers, rest);
  }

  lemma {:induction false} TailGiven(s: string, g: GSignal, rest: string)
    requires TailOf(s, g, rest)
    ensures TailRule(s) == Ok(((g.factor, g.offset), (g.minimum, g.maximum), (g.unit, g.receivers)), rest)
  {
    var s1, s2 :|
      && PairOf('(', ',', ')', s, g.factor, g.offset, s1) && PairOf('[', '|', ']', s1, g.minimum, g.maximum, s2)
      && LastOf(s2, g.unit, g.receivers, rest);
    PairIff('(', ',', ')', s, g.factor, g.offset, s1);
    PairIff('[', '|', ']', s1, g.minimum, g.maximum, s2);
    LastIff(s2, g.unit, g.receivers, rest);
  }

  // The signal's first fields
  ghost predicate Placed(s: string, g: GSignal, rest: string) {
    && PlacementRule(s).Ok? && PlacementRule(s).rest == rest
    && PlacementRule(s).value
       == ((g.name, g.multiplexerIndicator), (g.startBit, g.signalSize), (g.byteOrder, g.valueType))
  }

  lemma {:induction false} PlacedTaken(s: string, g: GSignal, s3: string, rest: string)
    requires Placed(s, g, s3) && TailOf(s3, g, rest)
    ensures BodyOf(s, g, rest)
  {
    var s1, s2 := PlacedParts(s, g, s3);
    HeaderIff(s, g.name, g.multiplexerIndicator, s1);
    SizesIff(s1, g.startBit, g.signalSize, s2);
    OrdersIff(s2, g.byteOrder, g.valueType, s3);
  }

  lemma {:induction false} PlacedParts(s: string, g: GSignal, s3: string) returns (s1: string, s2: string)
    requires Placed(s, g, s3)
    ensures HeaderRule(s) == Ok((g.name, g.multiplexerIndicator), s1)
    ensures SizeRule(s1) == Ok((g.startBit, g.signalSize), s2)
    ensures OrderRule(s2) == Ok((g.byteOrder, g.valueType), s3)
  {
    s1 := HeaderRule(s).rest;
    s2 := SizeRule(s1).rest;
  }

  lemma {:induction false} PlacedGiven(s: string, g: GSignal, rest: string) returns (s3: string)
    requires BodyOf(s, g, rest)
    ensures Placed(s, g, s3) && TailOf(s3, g, rest)
  {
    var s1, s2, s4 :|
      && HeaderOf(s, g.name, g.multiplexerIndicator, s1) && SizesOf(s1, g.startBit, g.signalSize, s2)
      && OrdersOf(s2, g.byteOrder, g.valueType, s4) && TailOf(s4, g, rest);
    HeaderIff(s, g.name, g.multiplexerIndicator, s1);
    SizesIff(s1, g.startBit, g.signalSize, s2);
    OrdersIff(s2, g.byteOrder, g.valueType, s4);
    s3 := s4;
  }

  function Assembled(
    p: ((string, Option<string>), (nat, nat), (char, char)), q: ((real, real), (real, real), (string, seq<string>)))
    : GSignal {
    GSignal(p.0.0, p.0.1, p.1.0, p.1.1, p.2.0, p.2.1, q.0.0, q.0.1, q.1.0, q.1.1, q.2.0, q.2.1)
  }

  // The body is the first fields and then the tail.
  lemma {:induction false} BodyByTail(s: string)
    requires SignalBody(s).Ok?
    ensures PlacementRule(s).Ok? && TailRule(PlacementRule(s).rest).Ok?
  {
  }

  lemma {:induction false} BodyFromTail(s: string)
    requires PlacementRule(s).Ok? && TailRule(PlacementRule(s).rest).Ok?
    ensures var p, q := PlacementRule(s), TailRule(PlacementRule(s).rest);
            SignalBody(s) == Ok(Assembled(p.value, q.value), q.rest)
  {
  }

  lemma {:induction false} BodyIff(s: string, g: GSignal, rest: string)
    ensures SignalBody(s) == Ok(g, rest) <==> BodyOf(s, g, rest)
  {
    if SignalBody(s) == Ok(g, rest) {
      BodyByTail(s);
      BodyFromTail(s);
      var p := PlacementRule(s);
      TailTaken(p.rest, g, rest);
      PlacedTaken(s, g, p.rest, rest);
    }
    if BodyOf(s, g, rest) {
      var s3 := PlacedGiven(s, g, rest);
      TailGiven(s3, g, rest);
      BodyFromTail(s);
    }
  }

  // The signal rule reads every spelling of a signal as that signal, and reads nothing else.
  lemma {:induction false} SignalIff(s: string, g: GSignal, rest: string)
    ensures SignalRule(s) == Ok(g, rest) <==> SignalOf(s, g, rest)
  {
    if SignalRule(s) == Ok(g, rest) {
      var s1 := Keyword("SG_", s).rest;
      KeywordValue("SG_", s);
      KeywordIff("SG_", s, s1);
      BodyIff(s1, g, rest);
    }
    if SignalOf(s, g, rest) {
      var s1 :| Keyworded("SG_", s, s1) && BodyOf(s1, g, rest);
      KeywordIff("SG_", s, s1);
      BodyIff(s1, g, rest);
    }
  }

  lemma {:induction false} KeywordValue(keyword: string, s: string)
    ensures Keyword(keyword, s).Ok? ==> Keyword(keyword, s) == Ok((), Keyword(keyword, s).rest)
  {
  }

  // No signal starts here: nothing but closed comments and spaces in front of a text without the keyword
  ghost predicate NoSignal(s: string) {
    exists t :: Gap(Everything, s, t) && !("SG_" <= t && |t| > 3 && SpaceCode(Everything, t[3]))
  }

  // The list of signals stops where no signal is: before a text without the keyword, or inside a broken signal.
  ghost predicate Stops(s: string, rest: string) {
    SignalRule(s) == Fail(rest)
  }

  // The list stops exactly where no signal is spelled.
  lemma {:induction false} StopsIff(s: string)
    ensures (exists rest :: Stops(s, rest)) <==> !(exists g, rest :: SignalOf(s, g, rest))
  {
    if SignalRule(s).Ok? {
      SignalIff(s, SignalRule(s).value, SignalRule(s).rest);
    } else {
      assert Stops(s, SignalRule(s).at);
      forall g, rest ensures !SignalOf(s, g, rest) { SignalIff(s, g, rest); }
    }
  }

  // Before a text without the keyword it takes nothing.
  lemma {:induction false} NothingTaken(s: string)
    requires NoSignal(s)
    ensures Stops(s, s)
  {
    var t :| Gap(Everything, s, t) && !("SG_" <= t && |t| > 3 && SpaceCode(Everything, t[3]));
    SkipIff(Everything, s, t);
    assert Keyword("SG_", s) == Fail(s);
  }

  ghost predicate SignalsOf(s: string, gs: seq<GSignal>, rest: string)
    decreases |gs|
  {
    if gs == [] then Stops(s, rest) else exists t :: SignalOf(s, gs[0], t) && SignalsOf(t, gs[1..], rest)
  }

  // The signals of a list are those that follow one another up to the first text that is not a signal.
  lemma {:induction false} SignalsIff(s: string, gs: seq<GSignal>, rest: string)
    ensures Signals(s) == (gs, rest) <==> SignalsOf(s, gs, rest)
    decreases |s|
  {
    SignalsStep(s);
    var one := SignalRule(s);
    if gs != [] {
      forall t ensures SignalOf(s, gs[0], t) <==> one == Ok(gs[0], t) { SignalIff(s, gs[0], t); }
      if one.Ok? {
        SignalsIff(one.rest, gs[1..], rest);
        MoreSignals(one.value, Signals(one.rest), gs, rest);
      }
    }
  }

  lemma {:induction false} MoreSignals(g: GSignal, more: (seq<GSignal>, string), gs: seq<GSignal>, rest: string)
    requires gs != []
    ensures ([g] + more.0, more.1) == (gs, rest) <==> g == gs[0] && more == (gs[1..], rest)
  {
    assert [gs[0]] + gs[1..] == gs;
    assert ([g] + more.0)[1..] == more.0;
  }

  lemma {:induction false} SignalsStep(s: string)
    ensures var one := SignalRule(s);
            Signals(s) == if one.Ok? then ([one.value] + Signals(one.rest).0, Signals(one.rest).1) else ([], one.at)
  {
  }

  //
  // Messages
  //

  // the number, the name, a colon
  ghost predicate NamedOf(s: string, id: nat, name: string, rest: string) {
    exists s1, s2 :: Whole(Everything, s, id, s1) && Name(Everything, s1, name, s2) && Mark(Everything, s2, ':', rest)
  }

  // the number, the name, a colon, the size, the transmitter, the end of the line
  ghost predicate MessageHeaderOf(s: string, m: GMessage, rest: string) {
    exists s1 :: NamedOf(s, m.id, m.name, s1) && SizeAndSender(s1, m, rest)
  }

  ghost predicate SizeAndSender(s: string, m: GMessage, rest: string) {
    exists s1, s2 ::
      Whole(Everything, s, m.size, s1) && Name(Blanks, s1, m.transmitter, s2) && LineEnds(Blanks, s2, rest)
  }

  // One message: its keyword, its line and its signals
  ghost predicate MessageOf(s: string, m: GMessage, rest: string) {
    exists s1, s2 :: MessageKeyworded(s, s1) && MessageHeaderOf(s1, m, s2) && SignalsOf(s2, m.signals, rest)
  }

  // The rule of the header after the colon
  function SenderRule(s: string): Parse<(nat, string)> {
    var (size, s) :- Expect(Uint(Everything, s));
    var (transmitter, s) :- Expect(Identifier(Blanks, s));
    var (_, s) :- Expect(LineEnd(Blanks, s));
    Ok((size, transmitter), s)
  }

  function NamedRule(s: string): Parse<(nat, string)> {
    var (id, s) :- Expect(Uint(Everything, s));
    var (name, s) :- Expect(Identifier(Everything, s));
    var (_, s) :- Expect(Lit(Everything, ':', s));
    Ok((id, name), s)
  }

  lemma {:induction false} HeaderBySender(s: string)
    requires MessageHeader(s).Ok?
    ensures NamedRule(s).Ok? && SenderRule(NamedRule(s).rest).Ok?
  {
  }

  lemma {:induction false} HeaderFromSender(s: string)
    requires NamedRule(s).Ok? && SenderRule(NamedRule(s).rest).Ok?
    ensures var named, sender := NamedRule(s), SenderRule(NamedRule(s).rest);
            MessageHeader(s) == Ok((named.value.0, named.value.1, sender.value.0, sender.value.1), sender.rest)
  {
  }

  lemma {:induction false} SenderIff(s: string, m: GMessage, rest: string)
    ensures SenderRule(s) == Ok((m.size, m.transmitter), rest) <==> SizeAndSender(s, m, rest)
  {
    if SenderRule(s) == Ok((m.size, m.transmitter), rest) {
      var s1 := Uint(Everything, s).rest;
      var s2 := Identifier(Blanks, s1).rest;
      UintIff(Everything, s, m.size, s1);
      IdentifierIff(Blanks, s1, m.transmitter, s2);
      LineEndValue(s2, rest);
      LineEndIff(s2, rest);
    }
    if SizeAndSender(s, m, rest) {
      var s1, s2 :|
        Whole(Everything, s, m.size, s1) && Name(Blanks, s1, m.transmitter, s2) && LineEnds(Blanks, s2, rest);
      UintIff(Everything, s, m.size, s1);
      IdentifierIff(Blanks, s1, m.transmitter, s2);
      LineEndIff(s2, rest);
    }
  }

  lemma {:induction false} NamedIff(s: string, id: nat, name: string, rest: string)
    ensures NamedRule(s) == Ok((id, name), rest) <==> NamedOf(s, id, name, rest)
  {
    if NamedRule(s) == Ok((id, name), rest) {
      var s1 := Uint(Everything, s).rest;
      var s2 := Identifier(Everything, s1).rest;
      UintIff(Everything, s, id, s1);
      IdentifierIff(Everything, s1, name, s2);
      MarkIff(Everything, s2, ':', rest);
    }
    if NamedOf(s, id, name, rest) {
      var s1, s2 :| Whole(Everything, s, id, s1) && Name(Everything, s1, name, s2) && Mark(Everything, s2, ':', rest);
      UintIff(Everything, s, id, s1);
      IdentifierIff(Everything, s1, name, s2);
      MarkIff(Everything, s2, ':', rest);
    }
  }

  lemma {:induction false} MessageHeaderIff(s: string, m: GMessage, rest: string)
    ensures MessageHeader(s) == Ok((m.id, m.name, m.size, m.transmitter), rest) <==> MessageHeaderOf(s, m, rest)
  {
    if MessageHeader(s) == Ok((m.id, m.name, m.size, m.transmitter), rest) {
      HeaderBySender(s);
      HeaderFromSender(s);
      var s1 := NamedRule(s).rest;
      NamedIff(s, m.id, m.name, s1);
      SenderIff(s1, m, rest);
    }
    if MessageHeaderOf(s, m, rest) {
      var s1 :| NamedOf(s, m.id, m.name, s1) && SizeAndSender(s1, m, rest);
      NamedIff(s, m.id, m.name, s1);
      SenderIff(s1, m, rest);
      HeaderFromSender(s);
    }
  }

  // The message rule reads every spelling of a message as that message, and reads nothing else.
  lemma {:induction false} MessageIff(s: string, m: GMessage, rest: string)
    ensures MessageRule(s) == Ok(m, rest) <==> MessageOf(s, m, rest)
  {
    if MessageRule(s) == Ok(m, rest) {
      var s1 := MessageKeyword(s).rest;
      var s2 := MessageHeader(s1).rest;
      MessageKeywordIff(s, s1);
      MessageHeaderIff(s1, m, s2);
      SignalsIff(s2, m.signals, rest);
    }
    if MessageOf(s, m, rest) {
      var s1, s2 :| MessageKeyworded(s, s1) && MessageHeaderOf(s1, m, s2) && SignalsOf(s2, m.signals, rest);
      MessageKeywordIff(s, s1);
      MessageHeaderIff(s1, m, s2);
      SignalsIff(s2, m.signals, rest);
    }
  }

  // No message starts here
  ghost predicate NoMessage(s: string) {
    exists t :: Gap(Everything, s, t) && !("BO_" <= t && StartsGap(Everything, t[3..]))
  }

  ghost predicate MessagesOf(s: string, ms: seq<GMessage>, rest: string)
    decreases |ms|
  {
    if ms == [] then rest == s && NoMessage(s)
    else exists t :: MessageOf(s, ms[0], t) && MessagesOf(t, ms[1..], rest)
  }

  lemma {:induction false} NoMessageIff(s: string)
    ensures MessageRule(s).Fail? <==> NoMessage(s)
    ensures MessageRule(s).Fail? ==> MessageRule(s).at == s
  {
    if Skip(Everything, s).Ok? {
      var t := Skip(Everything, s).rest;
      SkipIff(Everything, s, t);
      if "BO_" <= t { FailsAfterKeyword(t[3..]); }
    }
    if NoMessage(s) {
      var t :| Gap(Everything, s, t) && !("BO_" <= t && StartsGap(Everything, t[3..]));
      SkipIff(Everything, s, t);
    }
    HeaderNeverFails(MessageKeyword(s).Left());
  }

  lemma {:induction false} FailsAfterKeyword(s: string)
    ensures SkipOne(Everything, s).Fail? <==> !StartsGap(Everything, s)
  {
  }

  lemma {:induction false} HeaderNeverFails(s: string)
    ensures !MessageHeader(s).Fail?
  {
  }

  // A section of messages is read exactly as it is spelled, with any gaps and any spelling of its numbers; a section
  // that is not spelled as messages up to a text without their keyword makes the whole file fail.
  lemma {:induction false} MessagesIff(s: string, ms: seq<GMessage>, rest: string)
    ensures Messages(s) == Ok(ms, rest) <==> MessagesOf(s, ms, rest)
    decreases |s|
  {
    var one := MessageRule(s);
    MessagesStep(s);
    NoMessageIff(s);
    if one.Ok? {
      if ms != [] {
        MessagesIff(one.rest, ms[1..], rest);
        assert [ms[0]] + ms[1..] == ms;
        forall t ensures MessageOf(s, ms[0], t) <==> one == Ok(ms[0], t) { MessageIff(s, ms[0], t); }
      }
    } else if ms != [] {
      forall t ensures !MessageOf(s, ms[0], t) { MessageIff(s, ms[0], t); }
    }
  }

  lemma {:induction false} MessagesStep(s: string)
    ensures var one := MessageRule(s);
            match one
            case Ok(m, t) =>
              var more := Messages(t);
              if more.Ok? then Messages(s) == Ok([m] + more.value, more.rest) else Messages(s) == more
            case Fail(at) => Messages(s) == Ok([], at)
            case Throw(_) => Messages(s) == Throw(one.at)
  {
  }

  lemma {:induction false} SectionFails(s: string)
    ensures Messages(s).Throw? <==> !(exists ms, rest :: MessagesOf(s, ms, rest))
  {
    var r := Messages(s);
    if r.Ok? {
      MessagesIff(s, r.value, r.rest);
    } else {
      forall ms, rest ensures !MessagesOf(s, ms, rest) { MessagesIff(s, ms, rest); }
      NeverFails(s);
    }
  }

  lemma {:induction false} NeverFails(s: string)
    ensures !Messages(s).Fail?
    decreases |s|
  {
    var one := MessageRule(s);
    MessagesStep(s);
    if one.Ok? { NeverFails(one.rest); }
  }
}
