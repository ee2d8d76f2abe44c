// Printing messages and signals as DBC text.
module DbcPrinter {
  import opened Numerals
  import opened NumberFormat
  import opened SignalLayout
  import opened NetworkEquality

  //
  // The text of a signal, in front of a tail
  //

  function MuxText(s: Signal, tail: string): string {
    match s.multiplexerIndicator
    case NoMux => tail
    case MuxSwitch => "M " + tail
    case MuxValue => "m" + (Decimal(s.multiplexerSwitchValue) + (" " + tail))
  }

  function HeaderText(s: Signal, tail: string): string {
    "\tSG_ " + (s.name + (" " + MuxText(s, ":" + tail)))
  }

  function OrderChar(s: Signal): char {
    if s.byteOrder == BigEndian then '0' else '1'
  }

  function TypeChar(s: Signal): char {
    if s.valueType == Unsigned then '+' else '-'
  }

  function OrderText(s: Signal, tail: string): string {
    "@" + ([OrderChar(s)] + ([TypeChar(s)] + tail))
  }

  function LayoutText(s: Signal, tail: string): string {
    " " + (Decimal(s.startBit) + ("|" + (Decimal(s.bitSize) + OrderText(s, tail))))
  }

  function NumbersText(open: char, first: real, separator: char, second: real, close: char, tail: string): string {
    " " + ([open] + NumberText(first, [separator] + NumberText(second, [close] + tail)))
  }

  function JoinedReceivers(names: seq<string>, tail: string): string
    requires names != []
  {
    if |names| == 1 then names[0] + tail else names[0] + (", " + JoinedReceivers(names[1..], tail))
  }

  function LastText(s: Signal, tail: string): string {
    " \"" + (s.unit + ("\"" + (if s.receivers == [] then "\n" + tail
                               else " " + JoinedReceivers(s.receivers, "\n" + tail))))
  }

  function ScaleText(s: Signal, tail: string): string {
    NumbersText('(', s.factor, ',', s.offset, ')', tail)
  }

  function RangeText(s: Signal, tail: string): string {
    NumbersText('[', s.minimum, '|', s.maximum, ']', tail)
  }

  function SignalText(s: Signal): string {
    HeaderText(s, "") + (LayoutText(s, "") + (ScaleText(s, "") + (RangeText(s, "") + LastText(s, ""))))
  }

  function SignalsText(signals: seq<Signal>): string {
    if signals == [] then "" else SignalText(signals[0]) + SignalsText(signals[1..])
  }

  function MessageHeaderText(m: Message, tail: string): string {
    "BO_ " + (Decimal(m.id) + (" " + (m.name + (": "
      + (Decimal(m.messageSize) + (" " + (m.transmitter + ("\n" + tail))))))))
  }

  function MessageText(m: Message): string {
    MessageHeaderText(m, "") + SignalsText(m.signals)
  }

  function MessagesText(messages: seq<Message>): string {
    if messages == [] then "" else MessageText(messages[0]) + MessagesText(messages[1..])
  }

  //
  // The tail can be cut off
  //

  lemma {:induction false} ReceiversTail(names: seq<string>, a: string, b: string)
    requires names != []
    ensures JoinedReceivers(names, a + b) == JoinedReceivers(names, a) + b
  {
    if |names| == 1 {
    } else {
      ReceiversTail(names[1..], a, b);
    }
  }

  lemma LastTail(s: Signal, a: string, b: string)
    ensures LastText(s, a + b) == LastText(s, a) + b
  {
    assert "\n" + (a + b) == ("\n" + a) + b;
    if s.receivers != [] { ReceiversTail(s.receivers, "\n" + a, b); }
  }

  lemma NumberTail(x: real, a: string, b: string)
    ensures NumberText(x, a + b) == NumberText(x, a) + b
  {
    JoinedTail(ShownAs(x).parts, a, b);
  }

  lemma JoinedTail(p: Printed, a: string, b: string)
    ensures Joined(p, a + b) == Joined(p, a) + b
  {
    ExponentTail(p.exponent, a, b);
    FractionTail(p.fraction, ExponentText(p.exponent, a), b);
  }

  lemma ExponentTail(e: int, a: string, b: string)
    ensures ExponentText(e, a + b) == ExponentText(e, a) + b
  {
    var digits := if e < 0 then TwoDigits(-e) else TwoDigits(e);
    Regroup(digits, a, b);
    Regroup("e-", digits + a, b);
    Regroup("e+", digits + a, b);
  }

  lemma FractionTail(fraction: string, a: string, b: string)
    ensures FractionText(fraction, a + b) == FractionText(fraction, a) + b
  {
  }

  lemma NumbersTail(open: char, first: real, separator: char, second: real, close: char, a: string, b: string)
    ensures NumbersText(open, first, separator, second, close, a + b)
            == NumbersText(open, first, separator, second, close, a) + b
  {
    var rest := [close] + a;
    var inner := [separator] + NumberText(second, rest);
    assert NumberText(second, [close] + (a + b)) == NumberText(second, rest) + b by {
      Regroup([close], a, b);
      NumberTail(second, rest, b);
    }
    assert NumberText(first, inner + b) == NumberText(first, inner) + b by { NumberTail(first, inner, b); }
    Regroup([separator], NumberText(second, rest), b);
    MarkedTail(open, NumberText(first, inner), b);
  }

  lemma MarkedTail(mark: char, text: string, b: string)
    ensures " " + ([mark] + (text + b)) == (" " + ([mark] + text)) + b
  {
  }

  lemma LayoutTail(s: Signal, a: string, b: string)
    ensures LayoutText(s, a + b) == LayoutText(s, a) + b
  {
  }

  lemma HeaderTail(s: Signal, a: string, b: string)
    ensures HeaderText(s, a + b) == HeaderText(s, a) + b
  {
    assert ":" + (a + b) == (":" + a) + b;
  }

  lemma MessageHeaderTail(m: Message, a: string, b: string)
    ensures MessageHeaderText(m, a + b) == MessageHeaderText(m, a) + b
  {
  }

  // The text of a signal in front of a tail, as one piece after another.
  lemma SignalTail(s: Signal, tail: string)
    ensures SignalText(s) + tail
            == HeaderText(s, LayoutText(s, ScaleText(s, RangeText(s, LastText(s, tail)))))
  {
    var last, range := LastText(s, tail), RangeText(s, LastText(s, tail));
    var scale := ScaleText(s, range);
    LastTail(s, "", tail);
    NumbersTail('[', s.minimum, '|', s.maximum, ']', "", last);
    NumbersTail('(', s.factor, ',', s.offset, ')', "", range);
    LayoutTail(s, "", scale);
    HeaderTail(s, "", LayoutText(s, scale));
    assert "" + tail == tail && "" + last == last && "" + range == range && "" + scale == scale;
    assert "" + LayoutText(s, scale) == LayoutText(s, scale);
    FiveThenTail(HeaderText(s, ""), LayoutText(s, ""), ScaleText(s, ""), RangeText(s, ""), LastText(s, ""), tail);
  }

  lemma FiveThenTail(a: string, b: string, c: string, d: string, e: string, tail: string)
    ensures (a + (b + (c + (d + e)))) + tail == a + (b + (c + (d + (e + tail))))
  {
    assert (d + e) + tail == d + (e + tail);
    assert (c + (d + e)) + tail == c + ((d + e) + tail);
    assert (b + (c + (d + e))) + tail == b + ((c + (d + e)) + tail);
    assert (a + (b + (c + (d + e)))) + tail == a + ((b + (c + (d + e))) + tail);
  }

  //
  // The line of a signal, piece by piece
  //

  function Concat(pieces: seq<string>): string {
    if pieces == [] then "" else pieces[0] + Concat(pieces[1..])
  }

  lemma {:induction false} ConcatThree(a: string, b: string, c: string, rest: seq<string>)
    ensures Concat([a, b, c] + rest) == a + (b + (c + Concat(rest)))
  {
    ConcatOne(c, rest);
    ConcatOne(b, [c] + rest);
    ConcatOne(a, [b] + ([c] + rest));
    assert [a, b, c] + rest == [a] + ([b] + ([c] + rest));
  }

  lemma {:induction false} ConcatOne(a: string, rest: seq<string>)
    ensures Concat([a] + rest) == a + Concat(rest)
  {
    assert ([a] + rest)[1..] == rest;
  }

  lemma {:induction false} ConcatAppend(ps: seq<string>, qs: seq<string>)
    ensures Concat(ps + qs) == Concat(ps) + Concat(qs)
  {
    if ps == [] {
      assert ps + qs == qs;
    } else {
      assert (ps + qs)[1..] == ps[1..] + qs;
      ConcatAppend(ps[1..], qs);
    }
  }

  function MuxPieces(s: Signal): seq<string> {
    match s.multiplexerIndicator
    case NoMux => []
    case MuxSwitch => ["M", " "]
    case MuxValue => ["m", Decimal(s.multiplexerSwitchValue), " "]
  }

  function HeaderPieces(s: Signal): seq<string> {
    ["\tSG_ ", s.name, " "] + (MuxPieces(s) + [":"])
  }

  function LayoutPieces(s: Signal): seq<string> {
    [" ", Decimal(s.startBit), "|"] + [Decimal(s.bitSize), "@", if s.byteOrder == BigEndian then "0" else "1"]
    + [if s.valueType == Unsigned then "+" else "-"]
  }

  function PairPieces(open: string, first: real, separator: string, second: real, close: string): seq<string> {
    [" ", open, NumberText(first, "")] + [separator, NumberText(second, ""), close]
  }

  function LastPieces(s: Signal): seq<string> {
    [" \"", s.unit, "\""] + ReceiverPieces(s.receivers)
  }

  function ReceiverPieces(receivers: seq<string>): seq<string> {
    if receivers == [] then ["\n"] else [" ", JoinedReceivers(receivers, ""), "\n"]
  }

  lemma {:induction false} HeaderIsPieces(s: Signal)
    ensures HeaderText(s, "") == Concat(HeaderPieces(s))
  {
    ConcatThree("\tSG_ ", s.name, " ", MuxPieces(s) + [":"]);
    assert Concat([":"]) == ":" + "" by { ConcatOne(":", []); assert [":"] + [] == [":"]; }
    match s.multiplexerIndicator {
      case NoMux => assert MuxPieces(s) + [":"] == [":"];
      case MuxSwitch =>
        ConcatOne(" ", [":"]);
        ConcatOne("M", [" "] + [":"]);
        assert ["M", " "] + [":"] == ["M"] + ([" "] + [":"]);
        assert "M" + (" " + ":") == "M " + ":";
      case MuxValue => ConcatThree("m", Decimal(s.multiplexerSwitchValue), " ", [":"]);
    }
  }

  lemma {:induction false} LayoutIsPieces(s: Signal)
    ensures LayoutText(s, "") == Concat(LayoutPieces(s))
  {
    var order := if s.byteOrder == BigEndian then "0" else "1";
    var sign := if s.valueType == Unsigned then "+" else "-";
    assert [sign] + [] == [sign];
    ConcatOne(sign, []);
    ConcatThree(Decimal(s.bitSize), "@", order, [sign]);
    ConcatThree(" ", Decimal(s.startBit), "|", [Decimal(s.bitSize), "@", order] + [sign]);
    assert LayoutPieces(s) == [" ", Decimal(s.startBit), "|"] + ([Decimal(s.bitSize), "@", order] + [sign]);
    assert [OrderChar(s)] == order && [TypeChar(s)] == sign;
  }

  lemma {:induction false} PairIsPieces(open: char, first: real, separator: char, second: real, close: char)
    ensures NumbersText(open, first, separator, second, close, "")
            == Concat(PairPieces([open], first, [separator], second, [close]))
  {
    var x, y := NumberText(first, ""), NumberText(second, "");
    NumberTail(second, "", [close] + "");
    NumberTail(first, "", [separator] + (y + ([close] + "")));
    assert [[separator], y, [close]] + [] == [[separator], y, [close]];
    ConcatThree([separator], y, [close], []);
    ConcatThree(" ", [open], x, [[separator], y, [close]]);
    assert "" + ([close] + "") == [close] + "";
    assert "" + ([separator] + (y + ([close] + ""))) == [separator] + (y + ([close] + ""));
  }

  lemma {:induction false} LastIsPieces(s: Signal)
    ensures LastText(s, "") == Concat(LastPieces(s))
  {
    ConcatThree(" \"", s.unit, "\"", ReceiverPieces(s.receivers));
    if s.receivers == [] {
      ConcatOne("\n", []);
      assert ["\n"] + [] == ["\n"];
    } else {
      var joined := JoinedReceivers(s.receivers, "");
      ReceiversTail(s.receivers, "", "\n" + "");
      assert "" + ("\n" + "") == "\n" + "";
      assert [" ", joined, "\n"] + [] == [" ", joined, "\n"];
      ConcatThree(" ", joined, "\n", []);
    }
  }

  // The line of a signal holds these pieces, in this order and with nothing between them.
  lemma {:induction false} SignalLine(s: Signal)
    ensures SignalText(s)
            == Concat(["\tSG_ ", s.name, " "] + (MuxPieces(s) + [":"])
                      + ([" ", Decimal(s.startBit), "|"]
                         + [Decimal(s.bitSize), "@", if s.byteOrder == BigEndian then "0" else "1"]
                         + [if s.valueType == Unsigned then "+" else "-"])
                      + ([" ", "(", NumberText(s.factor, "")] + [",", NumberText(s.offset, ""), ")"])
                      + ([" ", "[", NumberText(s.minimum, "")] + ["|", NumberText(s.maximum, ""), "]"])
                      + ([" \"", s.unit, "\""] + ReceiverPieces(s.receivers)))
  {
    HeaderIsPieces(s);
    LayoutIsPieces(s);
    PairIsPieces('(', s.factor, ',', s.offset, ')');
    PairIsPieces('[', s.minimum, '|', s.maximum, ']');
    LastIsPieces(s);
    ConcatFive(HeaderPieces(s), LayoutPieces(s), PairPieces("(", s.factor, ",", s.offset, ")"),
               PairPieces("[", s.minimum, "|", s.maximum, "]"), LastPieces(s));
  }

  lemma {:induction false} MessageLine(m: Message)
    ensures MessageHeaderText(m, "")
            == Concat(["BO_ ", Decimal(m.id), " "]
                      + ([m.name, ": ", Decimal(m.messageSize)] + [" ", m.transmitter, "\n"]))
  {
    assert [" ", m.transmitter, "\n"] + [] == [" ", m.transmitter, "\n"];
    ConcatThree(" ", m.transmitter, "\n", []);
    ConcatThree(m.name, ": ", Decimal(m.messageSize), [" ", m.transmitter, "\n"]);
    ConcatThree("BO_ ", Decimal(m.id), " ", [m.name, ": ", Decimal(m.messageSize)] + [" ", m.transmitter, "\n"]);
  }

  lemma {:induction false} ConcatFive(
    a: seq<string>, b: seq<string>, c: seq<string>, d: seq<string>, e: seq<string>)
    ensures Concat(a + b + c + d + e) == Concat(a) + (Concat(b) + (Concat(c) + (Concat(d) + Concat(e))))
  {
    assert a + b + c + d + e == a + (b + (c + (d + e)));
    ConcatAppend(d, e);
    ConcatAppend(c, d + e);
    ConcatAppend(b, c + (d + e));
    ConcatAppend(a, b + (c + (d + e)));
  }

  //
  // The printers
  //

  // The receivers, each followed by a comma and a space, then the last two characters erased.
  method ReceiverList(names: seq<string>) returns (receivers: string)
    requires names != []
    ensures receivers == JoinedReceivers(names, "")
  {
    receivers := "";
    for i := 0 to |names|
      invariant i == 0 ==> receivers == ""
      invariant i > 0 ==> receivers == JoinedReceivers(names[..i], "") + ", "
    {
      if i > 0 { ReceiversAppend(names[..i], names[i]); }
      assert names[..i + 1] == names[..i] + [names[i]];
      receivers := receivers + names[i] + ", ";
    }
    assert names[..|names|] == names;
    receivers := receivers[..|receivers| - 1];
    receivers := receivers[..|receivers| - 1];
  }

  lemma {:induction false} ReceiversAppend(names: seq<string>, name: string)
    requires names != []
    ensures JoinedReceivers(names + [name], "") == JoinedReceivers(names, "") + ", " + name
  {
    assert (names + [name])[1..] == names[1..] + [name];
    if |names| == 1 {
      assert (names + [name])[1..] == [name];
      assert JoinedReceivers([name], "") == name;
    } else {
      ReceiversAppend(names[1..], name);
    }
  }

  method PrintSignal(os: string, s: Signal) returns (out: string)
    ensures out == os + SignalText(s)
  {
    var header := PrintHeader(s);
    var layout := PrintLayout(s);
    var scale := PrintNumbers('(', s.factor, ',', s.offset, ')');
    var range := PrintNumbers('[', s.minimum, '|', s.maximum, ']');
    var last := PrintLast(s);
    out := os + header + layout + scale + range + last;
    SixParts(os, header, layout, scale, range, last);
  }

  lemma SixParts(a: string, b: string, c: string, d: string, e: string, f: string)
    ensures a + b + c + d + e + f == a + (b + (c + (d + (e + f))))
  {
    assert a + b + c + d + e + f == a + b + c + d + (e + f);
    assert a + b + c + d + (e + f) == a + b + c + (d + (e + f));
    assert a + b + c + (d + (e + f)) == a + b + (c + (d + (e + f)));
  }

  method PrintHeader(s: Signal) returns (out: string)
    ensures out == HeaderText(s, "")
  {
    out := "\tSG_ " + s.name + " ";
    match s.multiplexerIndicator {
      case MuxSwitch => out := out + "M ";
      case MuxValue => out := out + "m" + Decimal(s.multiplexerSwitchValue) + " ";
      case NoMux =>
    }
    out := out + ":";
  }

  method PrintLayout(s: Signal) returns (out: string)
    ensures out == LayoutText(s, "")
  {
    out := " " + Decimal(s.startBit) + "|" + Decimal(s.bitSize) + "@";
    match s.byteOrder {
      case BigEndian => out := out + "0";
      case LittleEndian => out := out + "1";
    }
    match s.valueType {
      case Unsigned => out := out + "+";
      case Signed => out := out + "-";
    }
  }

  method PrintNumbers(open: char, first: real, separator: char, second: real, close: char) returns (out: string)
    ensures out == NumbersText(open, first, separator, second, close, "")
  {
    out := " " + [open] + NumberText(first, "") + [separator] + NumberText(second, "") + [close];
    NumbersInARow(open, first, separator, second, close);
    SixParts(" ", [open], NumberText(first, ""), [separator], NumberText(second, ""), [close]);
  }

  lemma NumberThen(x: real, tail: string)
    ensures NumberText(x, tail) == NumberText(x, "") + tail
  {
    assert "" + tail == tail;
    NumberTail(x, "", tail);
  }

  lemma NumbersInARow(open: char, first: real, separator: char, second: real, close: char)
    ensures NumbersText(open, first, separator, second, close, "")
            == " " + ([open] + (NumberText(first, "") + ([separator] + (NumberText(second, "") + [close]))))
  {
    assert [close] + "" == [close];
    NumberThen(second, [close]);
    NumberThen(first, [separator] + (NumberText(second, "") + [close]));
  }

  method PrintLast(s: Signal) returns (out: string)
    ensures out == LastText(s, "")
  {
    out := " \"" + s.unit + "\"";
    if s.receivers != [] {
      var receivers := ReceiverList(s.receivers);
      ReceiversTail(s.receivers, "", "\n" + "");
      assert "" + ("\n" + "") == "\n" + "";
      out := out + " " + receivers;
    }
    out := out + "\n";
  }

  lemma Regroup(a: string, b: string, c: string)
    ensures a + b + c == a + (b + c)
  {
  }

  method PrintMessage(os: string, m: Message) returns (out: string)
    ensures out == os + MessageText(m)
  {
    var header := PrintMessageHeader(m);
    out := PrintSignals(os + header, m.signals);
    Regroup(os, header, SignalsText(m.signals));
  }

  method PrintSignals(os: string, signals: seq<Signal>) returns (out: string)
    ensures out == os + SignalsText(signals)
  {
    out := os;
    for i := 0 to |signals|
      invariant out + SignalsText(signals[i..]) == os + SignalsText(signals)
    {
      Regroup(out, SignalText(signals[i]), SignalsText(signals[i + 1..]));
      assert signals[i..][1..] == signals[i + 1..];
      out := PrintSignal(out, signals[i]);
    }
  }

  method PrintMessageHeader(m: Message) returns (out: string)
    ensures out == MessageHeaderText(m, "")
  {
    out := "BO_ " + Decimal(m.id) + " " + m.name + ": " + Decimal(m.messageSize) + " " + m.transmitter + "\n";
  }

  method PrintMessages(messages: seq<Message>) returns (out: string)
    ensures out == MessagesText(messages)
  {
    out := "";
    for i := 0 to |messages|
      invariant out + MessagesText(messages[i..]) == MessagesText(messages)
    {
      Regroup(out, MessageText(messages[i]), MessagesText(messages[i + 1..]));
      assert messages[i..][1..] == messages[i + 1..];
      out := PrintMessage(out, messages[i]);
    }
  }
}
