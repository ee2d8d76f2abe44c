// The C text of a decoder and a conversion, and what a reader of C makes of it.
module GeneratedText {
  import opened Bits
  import opened CReader
  import opened CText
  import opened DbcGrammar
  import opened DbcTerminals
  import opened DbcTypes
  import opened Numerals
  import opened NumberFormat
  import opened SignalLayout
  import opened NetworkToC

  // What is emitted for a signal
  datatype CFunction = CFunction(name: string, code: seq<Stmt>, factor: real, offset: real)

  //
  // The text, as tokens; the layout in lines and columns is not part of it
  //

  function Unsigned64(n: nat): Token {
    Literal(Decimal(n) + "ull")
  }

  function Offset(n: nat): Token {
    Literal(Decimal(n))
  }

  function StmtTokens(s: Stmt): seq<Token> {
    match s
    case LoadFirst => [Data, Assign, DereferencedCast, WordPointer, Open, Nbytes, Close, Semicolon]
    case LoadWord(offset) =>
      [Data, Assign, DereferencedCast, WordPointer, Open, AddressCast, BytePointer, Open, Nbytes, Close,
       OpenIndex, Offset(offset), CloseIndex, Close, Semicolon]
    case LoadTail(offset) =>
      [Uint64, Data1, Assign, PlainCast, BytePointer, Open, Nbytes, Close,
       OpenIndex, Offset(offset), Plus, Offset(8), CloseIndex, Semicolon]
    case NativeToBig => [Data, Assign, ToBig, Open, Data, Close, Semicolon]
    case NativeToLittle => [Data, Assign, ToLittle, Open, Data, Close, Semicolon]
    case ShiftRight(n) => [Data, ShiftRightBy, Unsigned64(n), Semicolon]
    case ShiftLeft(n) => [Data, ShiftLeftBy, Unsigned64(n), Semicolon]
    case Mask(m) => [Data, AndWith, Unsigned64(m), Semicolon]
    case TailMask(m) => [Data1, AndWith, Unsigned64(m), Semicolon]
    case TailShiftLeft(n) => [Data1, ShiftLeftBy, Unsigned64(n), Semicolon]
    case TailShiftRight(n) => [Data1, ShiftRightBy, Unsigned64(n), Semicolon]
    case OrTail => [Data, OrWith, Data1, Semicolon]
    case OrTailStray => [Data, OrWith, Data1, Semicolon, Close]
    case ExtendSign(m) =>
      [IfKey, Open, Data, Ampersand, Unsigned64(m), Close, Begin, Data, OrWith, Unsigned64(m), Semicolon, End]
    case Return => [ReturnKey, Data, Semicolon]
  }

  function CodeTokens(code: seq<Stmt>): seq<Token> {
    if code == [] then [] else StmtTokens(code[0]) + CodeTokens(code[1..])
  }

  function HeadTokens(name: string): seq<Token> {
    [Uint64, Decoder(name), Open, ConstKey, VoidPointer, Nbytes, Close, Begin, Uint64, Data, Semicolon]
  }

  function ConversionTokens(name: string, factor: string, offset: string): seq<Token> {
    [DoubleKey, Conversion(name), Open, Uint64, ValueName, Close, Begin, ReturnKey, ValueName, Times,
     Literal(factor), Plus, Literal(offset), Semicolon, End]
  }

  function TailTokens(f: CFunction): seq<Token> {
    ConversionTokens(f.name, NumberText(f.factor, ""), NumberText(f.offset, ""))
  }

  function FunctionTokens(f: CFunction): seq<Token> {
    HeadTokens(f.name) + (CodeTokens(f.code) + ([End] + TailTokens(f)))
  }

  function FileTokens(fs: seq<CFunction>): seq<Token> {
    if fs == [] then [] else FunctionTokens(fs[0]) + FileTokens(fs[1..])
  }

  //
  // The words, character by character
  //

  function WordsOf(tokens: seq<Token>): (words: seq<string>)
    ensures |words| == |tokens|
  {
    seq(|tokens|, i requires 0 <= i < |tokens| => TokenText(tokens[i]))
  }

  lemma {:induction false} LoadWords(n: nat)
    ensures WordsOf(StmtTokens(LoadFirst))
            == ["data", "=", "*reinterpret_cast<const", "uint64_t*>", "(", "nbytes", ")", ";"]
    ensures WordsOf(StmtTokens(LoadWord(n)))
            == ["data", "=", "*reinterpret_cast<const", "uint64_t*>", "(", "&reinterpret_cast<const", "uint8_t*>", "(",
                "nbytes", ")", "[", Decimal(n), "]", ")", ";"]
  {
  }

  lemma {:induction false} LoadTailWords(n: nat)
    ensures WordsOf(StmtTokens(LoadTail(n)))
            == ["uint64_t", "data1", "=", "reinterpret_cast<const", "uint8_t*>", "(", "nbytes", ")",
                "[", Decimal(n), "+", "8", "]", ";"]
  {
    DecimalEight();
  }

  lemma DecimalEight()
    ensures Decimal(8) == "8"
  {
  }

  lemma {:induction false} SwapWords()
    ensures WordsOf(StmtTokens(NativeToBig)) == ["data", "=", "dbcppp_native_to_big", "(", "data", ")", ";"]
    ensures WordsOf(StmtTokens(NativeToLittle)) == ["data", "=", "dbcppp_native_to_little", "(", "data", ")", ";"]
  {
  }

  lemma {:induction false} FourWords(a: Token, b: Token, c: Token, d: Token)
    ensures WordsOf([a, b, c, d]) == [TokenText(a), TokenText(b), TokenText(c), TokenText(d)]
  {
  }

  lemma {:induction false} UpdateWords(n: nat)
    ensures WordsOf(StmtTokens(ShiftRight(n))) == ["data", ">>=", Decimal(n) + "ull", ";"]
    ensures WordsOf(StmtTokens(ShiftLeft(n))) == ["data", "<<=", Decimal(n) + "ull", ";"]
    ensures n < TWO_64 ==> WordsOf(StmtTokens(Mask(n))) == ["data", "&=", Decimal(n) + "ull", ";"]
  {
    FourWords(Data, ShiftRightBy, Unsigned64(n), Semicolon);
    FourWords(Data, ShiftLeftBy, Unsigned64(n), Semicolon);
    FourWords(Data, AndWith, Unsigned64(n), Semicolon);
  }

  lemma {:induction false} TailUpdateWords(n: nat)
    ensures n < TWO_64 ==> WordsOf(StmtTokens(TailMask(n))) == ["data1", "&=", Decimal(n) + "ull", ";"]
    ensures WordsOf(StmtTokens(TailShiftLeft(n))) == ["data1", "<<=", Decimal(n) + "ull", ";"]
    ensures WordsOf(StmtTokens(TailShiftRight(n))) == ["data1", ">>=", Decimal(n) + "ull", ";"]
  {
    FourWords(Data1, AndWith, Unsigned64(n), Semicolon);
    FourWords(Data1, ShiftLeftBy, Unsigned64(n), Semicolon);
    FourWords(Data1, ShiftRightBy, Unsigned64(n), Semicolon);
  }

  lemma {:induction false} OrTailWords()
    ensures WordsOf(StmtTokens(OrTail)) == ["data", "|=", "data1", ";"]
    ensures WordsOf(StmtTokens(OrTailStray)) == ["data", "|=", "data1", ";", ")"]
  {
    FourWords(Data, OrWith, Data1, Semicolon);
  }

  lemma {:induction false} EndWords(m: u64)
    ensures WordsOf(StmtTokens(ExtendSign(m)))
            == ["if", "(", "data", "&", Decimal(m) + "ull", ")", "{", "data", "|=", Decimal(m) + "ull", ";", "}"]
    ensures WordsOf(StmtTokens(Return)) == ["return", "data", ";"]
  {
  }

  lemma {:induction false} HeadWords(name: string)
    ensures WordsOf(HeadTokens(name))
            == ["uint64_t", "dbcppp_decode_" + name, "(", "const", "void*", "nbytes", ")", "{",
                "uint64_t", "data", ";"]
  {
  }

  lemma {:induction false} ConversionWords(name: string, factor: string, offset: string)
    ensures WordsOf(ConversionTokens(name, factor, offset))
            == ["double", "dbcppp_rawToPhys_" + name, "(", "uint64_t", "value", ")", "{",
                "return", "value", "*", factor, "+", offset, ";", "}"]
  {
  }

  //
  // Reading the statements back
  //

  lemma {:induction false} OffsetRead(n: nat)
    ensures ReadIndex(Offset(n)) == Some(n)
  {
    DigitsStop(Decimal(n), []);
    assert Decimal(n) + [] == Decimal(n);
    DecimalRead(n);
  }

  lemma {:induction false} Unsigned64Read(n: nat)
    ensures ReadOperand(Unsigned64(n)) == Some(Number(n))
  {
    assert "ull"[0] == 'u';
    DigitsStop(Decimal(n), "ull");
    DecimalRead(n);
  }

  // The statement that is read does to every frame and state what the emitted one does.
  ghost predicate SameEffect(c: CStmt, s: Stmt) {
    forall frame: seq<byte>, st: State :: Execute(c, frame, st) == Step(s, frame, st)
  }

  ghost predicate ReadsAs(ts: seq<Token>, s: Stmt, rest: seq<Token>) {
    ReadStmt(ts).Some? && ReadStmt(ts).value.1 == rest && SameEffect(ReadStmt(ts).value.0, s)
  }

  lemma {:induction false} LoadFirstRead(rest: seq<Token>)
    ensures ReadsAs(StmtTokens(LoadFirst) + rest, LoadFirst, rest)
  {
    var ts := StmtTokens(LoadFirst) + rest;
    assert ts[..8] == FIRST_WORD && ts[8..] == rest && ts[0] == Data && ts[2] == DereferencedCast;
    assert SameEffect(LoadWordAt(0), LoadFirst);
  }

  lemma {:induction false} LoadWordEffect(offset: nat)
    ensures SameEffect(LoadWordAt(offset), LoadWord(offset))
  {
  }

  lemma {:induction false} LoadWordRead(offset: nat, rest: seq<Token>)
    ensures ReadsAs(StmtTokens(LoadWord(offset)) + rest, LoadWord(offset), rest)
  {
    var ts := StmtTokens(LoadWord(offset)) + rest;
    OffsetRead(offset);
    assert ts[..11] == WORD_AT && ts[0] == Data && ts[2] == DereferencedCast && ts[5] == AddressCast;
    var more := ts[11..];
    assert more == [Offset(offset), CloseIndex, Close, Semicolon] + rest;
    assert more[1..] == [CloseIndex, Close, Semicolon] + rest && more[1..][3..] == rest;
    LoadWordEffect(offset);
  }

  lemma {:induction false} LoadTailEffect(offset: nat)
    ensures SameEffect(LoadByteAt(offset + 8), LoadTail(offset))
  {
  }

  lemma {:induction false} LoadTailRead(offset: nat, rest: seq<Token>)
    ensures ReadsAs(StmtTokens(LoadTail(offset)) + rest, LoadTail(offset), rest)
  {
    var ts := StmtTokens(LoadTail(offset)) + rest;
    OffsetRead(offset);
    OffsetRead(8);
    assert ts[..9] == BYTE_AT && ts[0] == Uint64;
    var more := ts[9..];
    assert more == [Offset(offset), Plus, Offset(8), CloseIndex, Semicolon] + rest;
    assert more[3..] == [CloseIndex, Semicolon] + rest && more[3..][2..] == rest;
    LoadTailEffect(offset);
  }

  lemma {:induction false} SwapRead(s: Stmt, rest: seq<Token>)
    requires s.NativeToBig? || s.NativeToLittle?
    ensures ReadsAs(StmtTokens(s) + rest, s, rest)
  {
    var ts := StmtTokens(s) + rest;
    assert ts[..7] == StmtTokens(s) && ts[7..] == rest && ts[0] == Data && ts[1] == Assign;
    assert SameEffect(Swap(s.NativeToBig?), s);
  }

  lemma {:induction false} UpdateTokensRead(v: Token, op: Token, arg: Token, rest: seq<Token>)
    requires ReadVariable(v).Some? && ReadOperator(op).Some? && ReadOperand(arg).Some?
    ensures ReadStmt([v, op, arg, Semicolon] + rest)
            == Some((Update(ReadVariable(v).value, ReadOperator(op).value, ReadOperand(arg).value), rest))
  {
    var ts := [v, op, arg, Semicolon] + rest;
    assert ts[..4] == [v, op, arg, Semicolon] && ts[4..] == rest;
  }

  lemma {:induction false} WordUpdateEffect(s: Stmt, op: Operator, n: nat)
    requires match s
             case ShiftRight(k) => op == ShiftsRight && n == k
             case ShiftLeft(k) => op == ShiftsLeft && n == k
             case Mask(m) => op == Ands && n == m
             case _ => false
    ensures SameEffect(Update(Word, op, Number(n)), s)
  {
  }

  lemma {:induction false} TailUpdateEffect(s: Stmt, op: Operator, n: nat)
    requires match s
             case TailShiftRight(k) => op == ShiftsRight && n == k
             case TailShiftLeft(k) => op == ShiftsLeft && n == k
             case TailMask(m) => op == Ands && n == m
             case _ => false
    ensures SameEffect(Update(Tail, op, Number(n)), s)
  {
  }

  lemma {:induction false} WordUpdateRead(s: Stmt, rest: seq<Token>)
    requires s.ShiftRight? || s.ShiftLeft? || s.Mask?
    ensures ReadsAs(StmtTokens(s) + rest, s, rest)
  {
    var n := match s case ShiftRight(n) => n case ShiftLeft(n) => n case Mask(m) => m;
    var op := match s case ShiftRight(_) => ShiftRightBy case ShiftLeft(_) => ShiftLeftBy case Mask(_) => AndWith;
    Unsigned64Read(n);
    UpdateTokensRead(Data, op, Unsigned64(n), rest);
    WordUpdateEffect(s, ReadOperator(op).value, n);
  }

  lemma {:induction false} OrTailRead(rest: seq<Token>)
    ensures ReadsAs(StmtTokens(OrTail) + rest, OrTail, rest)
  {
    UpdateTokensRead(Data, OrWith, Data1, rest);
    assert SameEffect(Update(Word, Ors, Contents(Tail)), OrTail);
  }

  lemma {:induction false} TailUpdateRead(s: Stmt, rest: seq<Token>)
    requires s.TailMask? || s.TailShiftLeft? || s.TailShiftRight?
    ensures ReadsAs(StmtTokens(s) + rest, s, rest)
  {
    var n := match s case TailShiftRight(n) => n case TailShiftLeft(n) => n case TailMask(m) => m;
    var op :=
      match s case TailShiftRight(_) => ShiftRightBy case TailShiftLeft(_) => ShiftLeftBy case TailMask(_) => AndWith;
    Unsigned64Read(n);
    UpdateTokensRead(Data1, op, Unsigned64(n), rest);
    TailUpdateEffect(s, ReadOperator(op).value, n);
  }

  lemma {:induction false} ExtendSignEffect(m: u64)
    ensures SameEffect(IfAny(m, m), ExtendSign(m))
  {
  }

  lemma {:induction false} IfTokensRead(bits: Token, n: nat, rest: seq<Token>)
    requires ReadOperand(bits) == Some(Number(n))
    ensures ReadIf([bits, Close, Begin, Data, OrWith, bits, Semicolon, End] + rest) == Some((IfAny(n, n), rest))
  {
    var more := [bits, Close, Begin, Data, OrWith, bits, Semicolon, End] + rest;
    assert more[1..][..4] == [Close, Begin, Data, OrWith] && more[8..] == rest;
  }

  lemma {:induction false} IfStarts(more: seq<Token>)
    ensures ReadStmt([IfKey, Open, Data, Ampersand] + more) == ReadIf(more)
  {
    var ts := [IfKey, Open, Data, Ampersand] + more;
    assert ts[1..4] == [Open, Data, Ampersand] && ts[4..] == more;
  }

  lemma {:induction false} ExtendSignTokens(m: u64, rest: seq<Token>)
    ensures var bits := Unsigned64(m);
            StmtTokens(ExtendSign(m)) + rest
            == [IfKey, Open, Data, Ampersand] + ([bits, Close, Begin, Data, OrWith, bits, Semicolon, End] + rest)
  {
  }

  lemma {:induction false} ExtendSignRead(m: u64, rest: seq<Token>)
    ensures ReadsAs(StmtTokens(ExtendSign(m)) + rest, ExtendSign(m), rest)
  {
    var bits := Unsigned64(m);
    Unsigned64Read(m);
    ExtendSignTokens(m, rest);
    IfTokensRead(bits, m, rest);
    IfStarts([bits, Close, Begin, Data, OrWith, bits, Semicolon, End] + rest);
    ExtendSignEffect(m);
  }

  lemma {:induction false} ReturnRead(rest: seq<Token>)
    ensures ReadsAs(StmtTokens(Return) + rest, Return, rest)
  {
    var ts := StmtTokens(Return) + rest;
    assert ts[0] == ReturnKey && ts[1..][..2] == [Data, Semicolon] && ts[3..] == rest;
    assert SameEffect(ReturnData, Return);
  }

  // Every statement but the one with the stray parenthesis is read as what it does.
  lemma {:induction false} StmtRead(s: Stmt, rest: seq<Token>)
    requires s != OrTailStray
    ensures ReadsAs(StmtTokens(s) + rest, s, rest)
  {
    match s {
      case LoadFirst => LoadFirstRead(rest);
      case LoadWord(offset) => LoadWordRead(offset, rest);
      case LoadTail(offset) => LoadTailRead(offset, rest);
      case NativeToBig | NativeToLittle => SwapRead(s, rest);
      case ExtendSign(m) => ExtendSignRead(m, rest);
      case Return => ReturnRead(rest);
      case TailMask(_) | TailShiftLeft(_) | TailShiftRight(_) => TailUpdateRead(s, rest);
      case OrTail => OrTailRead(rest);
      case _ => WordUpdateRead(s, rest);
    }
  }

  // That one is read without its parenthesis, which then starts no statement.
  lemma {:induction false} StrayRead(rest: seq<Token>)
    ensures ReadBody(StmtTokens(OrTailStray) + rest).None?
  {
    OrTailRead([Close] + rest);
    assert StmtTokens(OrTailStray) + rest == StmtTokens(OrTail) + ([Close] + rest);
    assert (StmtTokens(OrTail) + ([Close] + rest))[0] == Data;
    CloseRead(rest);
    BodyFails(StmtTokens(OrTail) + ([Close] + rest), [Close] + rest);
  }

  lemma {:induction false} CloseRead(rest: seq<Token>)
    ensures ReadStmt([Close] + rest).None? && ReadBody([Close] + rest).None?
  {
    assert ([Close] + rest)[0] == Close;
  }

  lemma {:induction false} BodyFails(ts: seq<Token>, more: seq<Token>)
    requires ts != [] && ts[0] != End && ReadStmt(ts).Some? && ReadStmt(ts).value.1 == more && ReadBody(more).None?
    ensures ReadBody(ts).None?
  {
  }

  // The statements read do, one after another, what the emitted ones do.
  ghost predicate SameEffects(body: seq<CStmt>, code: seq<Stmt>) {
    |body| == |code| && forall i | 0 <= i < |body| :: SameEffect(body[i], code[i])
  }

  lemma {:induction false} SameRun(body: seq<CStmt>, code: seq<Stmt>, frame: seq<byte>)
    requires SameEffects(body, code)
    ensures ExecuteAll(body, frame) == Run(code, frame)
    decreases |code|
  {
    if code == [] {
    } else {
      var n := |code| - 1;
      SameRun(body[..n], code[..n], frame);
      assert SameEffect(body[n], code[n]);
    }
  }

  // The text of a decoder, up to its closing brace, is read as a body that does what its code does, unless it holds
  // the stray parenthesis; then it is not read at all.
  lemma {:induction false} CodeRead(code: seq<Stmt>, rest: seq<Token>)
    ensures var r := ReadBody(CodeTokens(code) + ([End] + rest));
            if Parses(code) then r.Some? && r.value.1 == rest && SameEffects(r.value.0, code) else r.None?
    decreases |code|
  {
    var end := [End] + rest;
    if code == [] {
      assert CodeTokens(code) + end == end && end[1..] == rest;
    } else {
      var after := CodeTokens(code[1..]) + end;
      Joins(StmtTokens(code[0]), CodeTokens(code[1..]), end);
      ParsesFirst(code);
      if code[0] == OrTailStray {
        StrayRead(after);
      } else {
        StmtRead(code[0], after);
        StartsStatement(code[0], after);
        CodeRead(code[1..], rest);
        BodyStep(StmtTokens(code[0]) + after, after, code);
      }
    }
  }

  lemma Joins(a: seq<Token>, b: seq<Token>, c: seq<Token>)
    ensures (a + b) + c == a + (b + c)
  {
  }

  lemma ParsesFirst(code: seq<Stmt>)
    requires code != []
    ensures Parses(code) <==> code[0] != OrTailStray && Parses(code[1..])
  {
    assert code == [code[0]] + code[1..];
  }

  lemma {:induction false} StartsStatement(s: Stmt, after: seq<Token>)
    ensures (StmtTokens(s) + after)[0] != End
  {
  }

  lemma {:induction false} BodyStep(ts: seq<Token>, after: seq<Token>, code: seq<Stmt>)
    requires code != [] && ts != [] && ts[0] != End && ReadsAs(ts, code[0], after)
    ensures ReadBody(after).None? ==> ReadBody(ts).None?
    ensures ReadBody(after).Some? && SameEffects(ReadBody(after).value.0, code[1..]) ==>
              ReadBody(ts).Some? && ReadBody(ts).value.1 == ReadBody(after).value.1
              && SameEffects(ReadBody(ts).value.0, code)
  {
    if ReadBody(after).Some? && SameEffects(ReadBody(after).value.0, code[1..]) {
      var s, body := ReadStmt(ts).value.0, ReadBody(after).value.0;
      forall i | 0 <= i < |code| ensures SameEffect(([s] + body)[i], code[i]) {
        if i > 0 { assert SameEffect(body[i - 1], code[1..][i - 1]); }
      }
    }
  }

  //
  // Reading the functions back
  //

  lemma {:induction false} HeadRead(name: string, rest: seq<Token>)
    ensures ReadHead(HeadTokens(name) + rest) == Some((name, rest))
  {
    var ts := HeadTokens(name) + rest;
    assert ts[2..11] == [Open, ConstKey, VoidPointer, Nbytes, Close, Begin, Uint64, Data, Semicolon];
    assert ts[11..] == rest;
  }

  lemma {:induction false} RealLiteralRead(x: real)
    ensures RealLiteral(NumberText(x, "")) == Some(Rounded(x))
  {
    ShownMeans(x);
    ShownLiteralRead(ShownAs(x));
  }

  lemma {:induction false} ShownLiteralRead(s: Shown)
    requires WellPrinted(s.parts)
    ensures RealLiteral(ShownText(s, "")) == Some(ShownValue(s))
  {
    var u, n := Joined(s.parts, ""), NumeralOf(s.parts, "");
    assert ShownValue(s) == NumeralValue(n, s.negative) && n.rest == [];
    assert u != [] && IsDigit(u[0]) by { JoinedStarts(s.parts, ""); }
    assert UnsignedReal(u) == Some(n) by { UnsignedRead(s.parts, ""); }
    if s.negative { NegativeLiteral(ShownText(s, ""), u, n); } else { PositiveLiteral(u, n); }
  }

  lemma {:induction false} PositiveLiteral(text: string, n: Numeral)
    requires text != [] && IsDigit(text[0]) && UnsignedReal(text) == Some(n) && n.rest == []
    ensures RealLiteral(text) == Some(NumeralValue(n, false))
  {
  }

  lemma {:induction false} NegativeLiteral(text: string, u: string, n: Numeral)
    requires text == ['-'] + u && UnsignedReal(u) == Some(n) && n.rest == []
    ensures RealLiteral(text) == Some(NumeralValue(n, true))
  {
    assert text[1..] == u;
  }

  lemma {:induction false} RealLiteralPlain(x: real)
    ensures PlainToken(Literal(NumberText(x, "")))
  {
    var s := ShownAs(x);
    ShownMeans(x);
    JoinedStarts(s.parts, "");
    JoinedPlain(s.parts);
    PlainWithSign(Joined(s.parts, ""), s.negative);
  }

  lemma {:induction false} PlainWithSign(u: string, negative: bool)
    requires u != [] && IsDigit(u[0]) && Plain(u)
    ensures PlainToken(Literal(if negative then ['-'] + u else u))
  {
  }

  lemma {:induction false} JoinedPlain(p: Printed)
    requires WellPrinted(p)
    ensures Plain(Joined(p, ""))
  {
    assert Plain(ExponentText(p.exponent, ""));
    assert Plain(FractionText(p.fraction, ExponentText(p.exponent, "")));
  }

  lemma {:induction false} ConversionTokensRead(name: string, factor: string, offset: string, x: real, y: real,
                                                rest: seq<Token>)
    requires RealLiteral(factor) == Some(x) && RealLiteral(offset) == Some(y)
    ensures ReadConversion(ConversionTokens(name, factor, offset) + rest) == Some((name, x, y, rest))
  {
    var ts := ConversionTokens(name, factor, offset) + rest;
    assert ts[..15] == ConversionTokens(name, factor, offset) && ts[15..] == rest;
  }

  lemma {:induction false} ConversionRead(f: CFunction, rest: seq<Token>)
    ensures ReadConversion(TailTokens(f) + rest) == Some((f.name, Rounded(f.factor), Rounded(f.offset), rest))
  {
    RealLiteralRead(f.factor);
    RealLiteralRead(f.offset);
    ConversionTokensRead(f.name, NumberText(f.factor, ""), NumberText(f.offset, ""), Rounded(f.factor),
                         Rounded(f.offset), rest);
  }

  // What is read of a function: its name twice, a body that does what its code does, and its numbers as printed.
  ghost predicate FunctionMeans(c: CFunctions, f: CFunction) {
    && c.decoder == f.name && c.conversion == f.name && SameEffects(c.body, f.code)
    && c.factor == Rounded(f.factor) && c.offset == Rounded(f.offset)
  }

  lemma {:induction false} FunctionRead(f: CFunction, rest: seq<Token>)
    ensures var r := ReadFunctions(FunctionTokens(f) + rest);
            if Parses(f.code) then r.Some? && r.value.1 == rest && FunctionMeans(r.value.0, f) else r.None?
  {
    var tail := TailTokens(f) + rest;
    var body := CodeTokens(f.code) + ([End] + tail);
    assert FunctionTokens(f) + rest == HeadTokens(f.name) + body by {
      Joins(HeadTokens(f.name), CodeTokens(f.code) + ([End] + TailTokens(f)), rest);
      Joins(CodeTokens(f.code), [End] + TailTokens(f), rest);
      Joins([End], TailTokens(f), rest);
    }
    HeadRead(f.name, body);
    CodeRead(f.code, tail);
    ConversionRead(f, rest);
    FunctionStep(FunctionTokens(f) + rest, body, tail, f, rest);
  }

  lemma {:induction false} FunctionStep(ts: seq<Token>, body: seq<Token>, tail: seq<Token>, f: CFunction,
                                        rest: seq<Token>)
    requires ReadHead(ts) == Some((f.name, body))
    requires if Parses(f.code) then ReadBody(body).Some? && ReadBody(body).value.1 == tail
                                    && SameEffects(ReadBody(body).value.0, f.code)
             else ReadBody(body).None?
    requires ReadConversion(tail) == Some((f.name, Rounded(f.factor), Rounded(f.offset), rest))
    ensures var r := ReadFunctions(ts);
            if Parses(f.code) then r.Some? && r.value.1 == rest && FunctionMeans(r.value.0, f) else r.None?
  {
  }

  ghost predicate FileMeans(cs: seq<CFunctions>, fs: seq<CFunction>) {
    |cs| == |fs| && forall i | 0 <= i < |fs| :: FunctionMeans(cs[i], fs[i])
  }

  // A file is read exactly when each of its decoders is, and then as what its functions mean.
  lemma {:induction false} FileRead(fs: seq<CFunction>)
    ensures var r := ReadFile(FileTokens(fs));
            && (r.Some? <==> forall f | f in fs :: Parses(f.code))
            && (r.Some? ==> FileMeans(r.value, fs))
    decreases |fs|
  {
    if fs == [] {
    } else {
      FunctionRead(fs[0], FileTokens(fs[1..]));
      FileRead(fs[1..]);
      FileStep(FileTokens(fs), FileTokens(fs[1..]), fs);
    }
  }

  lemma {:induction false} FileStep(ts: seq<Token>, after: seq<Token>, fs: seq<CFunction>)
    requires fs != [] && ts != []
    requires var r := ReadFunctions(ts);
             if Parses(fs[0].code) then r.Some? && r.value.1 == after && FunctionMeans(r.value.0, fs[0]) else r.None?
    requires ReadFile(after).Some? <==> forall f | f in fs[1..] :: Parses(f.code)
    requires ReadFile(after).Some? ==> FileMeans(ReadFile(after).value, fs[1..])
    ensures ReadFile(ts).Some? <==> forall f | f in fs :: Parses(f.code)
    ensures ReadFile(ts).Some? ==> FileMeans(ReadFile(ts).value, fs)
  {
    FirstParses(fs);
    if ReadFile(ts).Some? { FirstMeans(ReadFunctions(ts).value.0, ReadFile(after).value, fs); }
  }

  lemma FirstParses(fs: seq<CFunction>)
    requires fs != []
    ensures (forall f | f in fs :: Parses(f.code)) <==> Parses(fs[0].code) && forall f | f in fs[1..] :: Parses(f.code)
  {
    assert fs == [fs[0]] + fs[1..];
  }

  lemma FirstMeans(c: CFunctions, cs: seq<CFunctions>, fs: seq<CFunction>)
    requires fs != [] && FunctionMeans(c, fs[0]) && FileMeans(cs, fs[1..])
    ensures FileMeans([c] + cs, fs)
  {
    forall i | 0 <= i < |fs| ensures FunctionMeans(([c] + cs)[i], fs[i]) {
      if i > 0 { assert FunctionMeans(cs[i - 1], fs[1..][i - 1]); }
    }
  }

  //
  // Parentheses
  //

  // Every parenthesis closed was open, `depth` of them from before, and every open one is closed.
  predicate Nested(tokens: seq<Token>, depth: nat) {
    if tokens == [] then depth == 0
    else
      match tokens[0]
      case Open => Nested(tokens[1..], depth + 1)
      case Close => depth > 0 && Nested(tokens[1..], depth - 1)
      case _ => Nested(tokens[1..], depth)
  }

  // Balanced text can be put in front, at any depth.
  lemma {:induction false} NestedThen(a: seq<Token>, b: seq<Token>, depth: nat, more: nat)
    requires Nested(a, depth)
    ensures Nested(a + b, depth + more) == Nested(b, more)
    decreases |a|
  {
    if a == [] {
      assert a + b == b;
    } else {
      assert (a + b)[1..] == a[1..] + b;
      match a[0] {
        case Open => NestedThen(a[1..], b, depth + 1, more);
        case Close => NestedThen(a[1..], b, depth - 1, more);
        case _ => NestedThen(a[1..], b, depth, more);
      }
    }
  }

  predicate Flat(tokens: seq<Token>) {
    Open !in tokens && Close !in tokens
  }

  lemma {:induction false} FlatNested(tokens: seq<Token>)
    requires Flat(tokens)
    ensures Nested(tokens, 0)
  {
    if tokens == [] {
    } else {
      assert tokens[0] in tokens;
      FlatNested(tokens[1..]);
    }
  }

  lemma {:induction false} PairNested(before: seq<Token>, inner: seq<Token>, after: seq<Token>)
    requires Flat(before) && Nested(inner, 0) && Flat(after)
    ensures Nested(before + ([Open] + (inner + ([Close] + after))), 0)
  {
    var end := [Close] + after;
    FlatNested(before);
    NestedThen(before, [Open] + (inner + end), 0, 0);
    assert ([Open] + (inner + end))[1..] == inner + end && end[1..] == after;
    NestedThen(inner, end, 0, 1);
    FlatNested(after);
  }

  // One pair of parentheses, at positions i and j.
  lemma {:induction false} OnePairNested(ts: seq<Token>, i: nat, j: nat)
    requires i < j < |ts| && ts[i] == Open && ts[j] == Close
    requires Flat(ts[..i]) && Flat(ts[i + 1..j]) && Flat(ts[j + 1..])
    ensures Nested(ts, 0)
  {
    assert ts == ts[..i] + ([Open] + (ts[i + 1..j] + ([Close] + ts[j + 1..])));
    FlatNested(ts[i + 1..j]);
    PairNested(ts[..i], ts[i + 1..j], ts[j + 1..]);
  }

  lemma {:induction false} LoadWordNested(offset: nat)
    ensures Nested(StmtTokens(LoadWord(offset)), 0)
  {
    var ts := StmtTokens(LoadWord(offset));
    var inner := ts[5..13];
    assert inner
           == [AddressCast, BytePointer] + ([Open] + ([Nbytes] + ([Close] + [OpenIndex, Offset(offset), CloseIndex])));
    FlatNested([Nbytes]);
    PairNested([AddressCast, BytePointer], [Nbytes], [OpenIndex, Offset(offset), CloseIndex]);
    assert ts == ts[..4] + ([Open] + (inner + ([Close] + ts[14..])));
    PairNested(ts[..4], inner, ts[14..]);
  }

  lemma {:induction false} StmtNested(s: Stmt)
    requires s != OrTailStray
    ensures Nested(StmtTokens(s), 0)
  {
    match s {
      case LoadFirst => OnePairNested(StmtTokens(s), 4, 6);
      case LoadTail(_) => LoadTailNested(s);
      case NativeToBig | NativeToLittle => SwapNested(s);
      case ExtendSign(_) => ExtendSignNested(s);
      case LoadWord(offset) => LoadWordNested(offset);
      case _ => UpdateFlat(s);
    }
  }

  lemma {:induction false} LoadTailNested(s: Stmt)
    requires s.LoadTail?
    ensures Nested(StmtTokens(s), 0)
  {
    OnePairNested(StmtTokens(s), 5, 7);
  }

  lemma {:induction false} SwapNested(s: Stmt)
    requires s.NativeToBig? || s.NativeToLittle?
    ensures Nested(StmtTokens(s), 0)
  {
    OnePairNested(StmtTokens(s), 3, 5);
  }

  lemma {:induction false} ExtendSignNested(s: Stmt)
    requires s.ExtendSign?
    ensures Nested(StmtTokens(s), 0)
  {
    OnePairNested(StmtTokens(s), 1, 5);
  }

  lemma {:induction false} UpdateFlat(s: Stmt)
    requires |StmtTokens(s)| <= 4
    ensures Nested(StmtTokens(s), 0)
  {
    FlatNested(StmtTokens(s));
  }

  lemma {:induction false} StrayIsNot(rest: seq<Token>)
    ensures !Nested(StmtTokens(OrTailStray) + rest, 0)
  {
    var flat, closing := [Data, OrWith, Data1, Semicolon], [Close] + rest;
    assert StmtTokens(OrTailStray) + rest == flat + closing;
    FlatNested(flat);
    NestedThen(flat, closing, 0, 0);
  }

  lemma {:induction false} StmtThen(s: Stmt, after: seq<Token>)
    ensures Nested(StmtTokens(s) + after, 0) <==> s != OrTailStray && Nested(after, 0)
  {
    if s == OrTailStray {
      StrayIsNot(after);
    } else {
      StmtNested(s);
      NestedThen(StmtTokens(s), after, 0, 0);
    }
  }

  // The text of a decoder is balanced exactly when it has no stray parenthesis, and no text after it can mend that.
  lemma {:induction false} CodeNested(code: seq<Stmt>, rest: seq<Token>)
    ensures Nested(CodeTokens(code) + rest, 0) <==> Parses(code) && Nested(rest, 0)
    decreases |code|
  {
    if code == [] {
      assert CodeTokens(code) + rest == rest;
    } else {
      CodeNested(code[1..], rest);
      StmtThen(code[0], CodeTokens(code[1..]) + rest);
      Joins(StmtTokens(code[0]), CodeTokens(code[1..]), rest);
      ParsesFirst(code);
    }
  }

  lemma {:induction false} HeadNested(name: string)
    ensures Nested(HeadTokens(name), 0)
  {
    OnePairNested(HeadTokens(name), 2, 6);
  }

  lemma {:induction false} TailNested(f: CFunction)
    ensures Nested([End] + TailTokens(f), 0)
  {
    OnePairNested(TailTokens(f), 2, 5);
    FlatNested([End]);
    NestedThen([End], TailTokens(f), 0, 0);
  }

  lemma {:induction false} FunctionNested(f: CFunction, rest: seq<Token>)
    ensures Nested(FunctionTokens(f) + rest, 0) <==> Parses(f.code) && Nested(rest, 0)
  {
    var tail := [End] + TailTokens(f);
    HeadNested(f.name);
    TailNested(f);
    CodeNested(f.code, tail + rest);
    BetweenNested(HeadTokens(f.name), CodeTokens(f.code), tail, rest);
  }

  lemma {:induction false} BetweenNested(head: seq<Token>, code: seq<Token>, tail: seq<Token>, rest: seq<Token>)
    requires Nested(head, 0) && Nested(tail, 0)
    ensures Nested((head + (code + tail)) + rest, 0) <==> Nested(code + (tail + rest), 0)
    ensures Nested(tail + rest, 0) <==> Nested(rest, 0)
  {
    Joins(head, code + tail, rest);
    Joins(code, tail, rest);
    NestedThen(head, code + (tail + rest), 0, 0);
    NestedThen(tail, rest, 0, 0);
  }

  lemma {:induction false} FileNested(fs: seq<CFunction>)
    ensures Nested(FileTokens(fs), 0) <==> forall f | f in fs :: Parses(f.code)
    decreases |fs|
  {
    if fs == [] {
    } else {
      FunctionNested(fs[0], FileTokens(fs[1..]));
      FileNested(fs[1..]);
      FirstParses(fs);
    }
  }

  //
  // The characters
  //

  lemma {:induction false} FileAppend(fs: seq<CFunction>, f: CFunction)
    ensures TextOf(FileTokens(fs + [f])) == TextOf(FileTokens(fs)) + TextOf(FunctionTokens(f))
  {
    FileTokensAppend(fs, f);
    TextAppend(FileTokens(fs), FunctionTokens(f));
  }

  lemma {:induction false} FileTokensAppend(fs: seq<CFunction>, f: CFunction)
    ensures FileTokens(fs + [f]) == FileTokens(fs) + FunctionTokens(f)
    decreases |fs|
  {
    if fs == [] {
      assert [] + [f] == [f] && FunctionTokens(f) + FileTokens([]) == FunctionTokens(f);
    } else {
      assert (fs + [f])[1..] == fs[1..] + [f];
      FileTokensAppend(fs[1..], f);
    }
  }

  lemma {:induction false} TextAppend(a: seq<Token>, b: seq<Token>)
    ensures TextOf(a + b) == TextOf(a) + TextOf(b)
    decreases |a|
  {
    if a == [] {
      assert a + b == b && "" + TextOf(b) == TextOf(b);
    } else {
      assert (a + b)[1..] == a[1..] + b;
      TextAppend(a[1..], b);
      Regroup(" ", TextOf(a[1..]), TextOf(b));
      Regroup(TokenText(a[0]), " " + TextOf(a[1..]), TextOf(b));
    }
  }

  lemma Regroup(a: string, b: string, c: string)
    ensures (a + b) + c == a + (b + c)
  {
  }

  lemma {:induction false} CodePlain(code: seq<Stmt>)
    ensures forall t | t in CodeTokens(code) :: PlainToken(t)
  {
    if code == [] {
    } else {
      StmtPlain(code[0]);
      CodePlain(code[1..]);
    }
  }

  lemma {:induction false} StmtPlain(s: Stmt)
    ensures forall t | t in StmtTokens(s) :: PlainToken(t)
  {
    match s {
      case LoadFirst | LoadWord(_) | LoadTail(_) => LoadPlain(s);
      case NativeToBig | NativeToLittle | Return | OrTail | OrTailStray =>
      case _ => NumberedPlain(s);
    }
  }

  lemma {:induction false} LoadPlain(s: Stmt)
    requires s.LoadFirst? || s.LoadWord? || s.LoadTail?
    ensures forall t | t in StmtTokens(s) :: PlainToken(t)
  {
    if s != LoadFirst { NumberPlain(s.offset); }
    NumberPlain(8);
  }

  lemma {:induction false} NumberedPlain(s: Stmt)
    requires s.ShiftRight? || s.ShiftLeft? || s.Mask? || s.TailMask? || s.TailShiftLeft? || s.TailShiftRight?
             || s.ExtendSign?
    ensures forall t | t in StmtTokens(s) :: PlainToken(t)
  {
    NumberPlain(if s.Mask? || s.TailMask? || s.ExtendSign? then s.mask else s.amount);
  }

  lemma NumberPlain(n: nat)
    ensures PlainToken(Offset(n)) && PlainToken(Unsigned64(n))
  {
    assert Plain("ull");
  }

  lemma {:induction false} TailPlain(f: CFunction)
    requires Plain(f.name)
    ensures forall t | t in TailTokens(f) :: PlainToken(t)
  {
    RealLiteralPlain(f.factor);
    RealLiteralPlain(f.offset);
  }

  lemma {:induction false} FunctionPlain(f: CFunction)
    requires Plain(f.name)
    ensures forall t | t in FunctionTokens(f) :: PlainToken(t)
  {
    CodePlain(f.code);
    TailPlain(f);
    assert forall t | t in HeadTokens(f.name) :: PlainToken(t);
    InConcatenation(HeadTokens(f.name), CodeTokens(f.code), [End] + TailTokens(f));
  }

  lemma InConcatenation(a: seq<Token>, b: seq<Token>, c: seq<Token>)
    ensures forall t :: t in a + (b + c) <==> t in a || t in b || t in c
  {
  }

  lemma {:induction false} FilePlain(fs: seq<CFunction>)
    requires forall f | f in fs :: Plain(f.name)
    ensures forall t | t in FileTokens(fs) :: PlainToken(t)
  {
    if fs == [] {
    } else {
      FunctionPlain(fs[0]);
      FilePlain(fs[1..]);
    }
  }

  // The characters written are read as what the functions mean, exactly when every decoder has its parentheses right.
  lemma {:induction false} TextMeansFile(fs: seq<CFunction>)
    requires forall f | f in fs :: Plain(f.name)
    ensures var r := ReadFile(Tokens(TextOf(FileTokens(fs))));
            && (r.Some? <==> forall f | f in fs :: Parses(f.code))
            && (r.Some? ==> FileMeans(r.value, fs))
  {
    FilePlain(fs);
    TextRead(FileTokens(fs));
    FileRead(fs);
  }
}
