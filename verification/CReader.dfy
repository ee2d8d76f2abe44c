// What the generated C text does: a reader of its declarations and statements, and their execution on a frame.
module CReader {
  import opened Bits
  import opened DbcGrammar
  import opened DbcTypes
  import opened Numerals
  import opened SignalLayout
  import opened NetworkToC
  import opened CText

  datatype Variable = Word | Tail
  datatype Operator = ShiftsRight | ShiftsLeft | Ands | Ors
  datatype Operand = Number(n: nat) | Contents(v: Variable)

  datatype CStmt =
    | LoadWordAt(offset: nat)                    // data = *(const uint64_t*)&nbytes[offset];
    | LoadByteAt(offset: nat)                    // data1 = nbytes[offset];
    | Swap(big: bool)                            // data = dbcppp_native_to_...(data);
    | Update(v: Variable, op: Operator, arg: Operand)
    | IfAny(test: nat, bits: nat)                // if (data & test) { data |= bits; }
    | ReturnData

  // A function for decoding and one for converting.
  datatype CFunctions = CFunctions(decoder: string, body: seq<CStmt>, conversion: string, factor: real, offset: real)

  //
  // Literals
  //

  function Ull(text: string): Option<nat> {
    if LeadingDigits(text) != [] && AfterDigits(text) == "ull" then Some(NumberOf(LeadingDigits(text))) else None
  }

  function Index(text: string): Option<nat> {
    if LeadingDigits(text) != [] && AfterDigits(text) == [] then Some(NumberOf(LeadingDigits(text))) else None
  }

  function RealLiteral(text: string): Option<real> {
    match UnsignedReal(if StartsWith(text, '-') then text[1..] else text)
    case None => None
    case Some(Numeral(digits, exponent, rest)) =>
      if rest != [] then None
      else Some(if StartsWith(text, '-') then -Scale(digits as real, exponent) else Scale(digits as real, exponent))
  }

  //
  // Statements
  //

  function ReadVariable(t: Token): Option<Variable> {
    match t
    case Data => Some(Word)
    case Data1 => Some(Tail)
    case _ => None
  }

  function ReadOperator(t: Token): Option<Operator> {
    match t
    case ShiftRightBy => Some(ShiftsRight)
    case ShiftLeftBy => Some(ShiftsLeft)
    case AndWith => Some(Ands)
    case OrWith => Some(Ors)
    case _ => None
  }

  function ReadOperand(t: Token): Option<Operand> {
    match t
    case Literal(text) => (match Ull(text) case Some(n) => Some(Number(n)) case None => None)
    case Data => Some(Contents(Word))
    case Data1 => Some(Contents(Tail))
    case _ => None
  }

  // variable op= operand ;
  function ReadUpdate(ts: seq<Token>): Option<CStmt>
    requires |ts| == 4
  {
    match (ReadVariable(ts[0]), ReadOperator(ts[1]), ReadOperand(ts[2]))
    case (Some(v), Some(op), Some(arg)) => if ts[3] == Semicolon then Some(Update(v, op, arg)) else None
    case _ => None
  }

  // * reinterpret_cast < const uint64_t* > ( nbytes ) ;
  const FIRST_WORD: seq<Token> := [Data, Assign, DereferencedCast, WordPointer, Open, Nbytes, Close, Semicolon]

  // * reinterpret_cast < const uint64_t* > ( & reinterpret_cast < const uint8_t* > ( nbytes ) [
  const WORD_AT: seq<Token> :=
    [Data, Assign, DereferencedCast, WordPointer, Open, AddressCast, BytePointer, Open, Nbytes, Close, OpenIndex]

  // uint64_t data1 = reinterpret_cast < const uint8_t* > ( nbytes ) [
  const BYTE_AT: seq<Token> :=
    [Uint64, Data1, Assign, PlainCast, BytePointer, Open, Nbytes, Close, OpenIndex]

  function ReadIndex(t: Token): Option<nat> {
    if t.Literal? then Index(t.text) else None
  }

  function ReadStmt(ts: seq<Token>): (r: Option<(CStmt, seq<Token>)>)
    ensures r.Some? ==> |r.value.1| < |ts|
  {
    if |ts| < 3 then None
    else
      match ts[0]
      case ReturnKey => if [Data, Semicolon] <= ts[1..] then Some((ReturnData, ts[3..])) else None
      case IfKey => if |ts| >= 4 && ts[1..4] == [Open, Data, Ampersand] then ReadIf(ts[4..]) else None
      case Uint64 => if BYTE_AT <= ts then ReadByteAt(ts[9..]) else None
      case _ =>
        if ts[1] == Assign then ReadAssignment(ts)
        else if |ts| >= 4 && ReadUpdate(ts[..4]).Some? then Some((ReadUpdate(ts[..4]).value, ts[4..]))
        else None
  }

  // data = ...
  function ReadAssignment(ts: seq<Token>): (r: Option<(CStmt, seq<Token>)>)
    requires |ts| >= 3
    ensures r.Some? ==> |r.value.1| < |ts|
  {
    match ts[2]
    case ToBig =>
      if [Data, Assign, ToBig, Open, Data, Close, Semicolon] <= ts then Some((Swap(true), ts[7..])) else None
    case ToLittle =>
      if [Data, Assign, ToLittle, Open, Data, Close, Semicolon] <= ts then Some((Swap(false), ts[7..])) else None
    case _ =>
      if |ts| >= 8 && ts[5] == Nbytes then (if FIRST_WORD <= ts then Some((LoadWordAt(0), ts[8..])) else None)
      else if WORD_AT <= ts then ReadWordAt(ts[11..])
      else None
  }

  // offset ] ) ;
  function ReadWordAt(ts: seq<Token>): (r: Option<(CStmt, seq<Token>)>)
    ensures r.Some? ==> |r.value.1| <= |ts|
  {
    if |ts| >= 4 && ReadIndex(ts[0]).Some? && [CloseIndex, Close, Semicolon] <= ts[1..]
    then Some((LoadWordAt(ReadIndex(ts[0]).value), ts[1..][3..])) else None
  }

  // offset + offset ] ;
  function ReadByteAt(ts: seq<Token>): (r: Option<(CStmt, seq<Token>)>)
    ensures r.Some? ==> |r.value.1| <= |ts|
  {
    if |ts| >= 5 && ReadIndex(ts[0]).Some? && ts[1] == Plus && ReadIndex(ts[2]).Some?
       && [CloseIndex, Semicolon] <= ts[3..]
    then Some((LoadByteAt(ReadIndex(ts[0]).value + ReadIndex(ts[2]).value), ts[3..][2..])) else None
  }

  // test ) { data |= bits ; }
  function ReadIf(ts: seq<Token>): (r: Option<(CStmt, seq<Token>)>)
    ensures r.Some? ==> |r.value.1| <= |ts|
  {
    if |ts| >= 8 && ReadOperand(ts[0]).Some? && ReadOperand(ts[0]).value.Number?
       && [Close, Begin, Data, OrWith] <= ts[1..]
       && ReadOperand(ts[5]).Some? && ReadOperand(ts[5]).value.Number? && ts[6] == Semicolon && ts[7] == End
    then Some((IfAny(ReadOperand(ts[0]).value.n, ReadOperand(ts[5]).value.n), ts[8..])) else None
  }

  // Statements up to the closing brace
  function ReadBody(ts: seq<Token>): (r: Option<(seq<CStmt>, seq<Token>)>)
    ensures r.Some? ==> |r.value.1| < |ts|
    decreases |ts|
  {
    if ts != [] && ts[0] == End then Some(([], ts[1..]))
    else
      match ReadStmt(ts)
      case None => None
      case Some((s, more)) =>
        match ReadBody(more)
        case None => None
        case Some((body, rest)) => Some(([s] + body, rest))
  }

  //
  // Functions
  //

  // uint64_t name(const void* nbytes) { uint64_t data;
  function ReadHead(ts: seq<Token>): (r: Option<(string, seq<Token>)>)
    ensures r.Some? ==> |r.value.1| < |ts|
  {
    if |ts| >= 11 && ts[0] == Uint64 && ts[1].Decoder?
       && ts[2..11] == [Open, ConstKey, VoidPointer, Nbytes, Close, Begin, Uint64, Data, Semicolon]
    then Some((ts[1].name, ts[11..])) else None
  }

  // double name(uint64_t value) { return value * factor + offset; }
  function ReadConversion(ts: seq<Token>): (r: Option<(string, real, real, seq<Token>)>)
    ensures r.Some? ==> |r.value.3| < |ts|
  {
    if |ts| >= 15 && ts[1].Conversion? && ts[10].Literal? && ts[12].Literal?
       && RealLiteral(ts[10].text).Some? && RealLiteral(ts[12].text).Some?
       && ts[..15] == [DoubleKey, ts[1], Open, Uint64, ValueName, Close, Begin, ReturnKey, ValueName, Times, ts[10],
                       Plus, ts[12], Semicolon, End]
    then Some((ts[1].name, RealLiteral(ts[10].text).value, RealLiteral(ts[12].text).value, ts[15..])) else None
  }

  function ReadFunctions(ts: seq<Token>): (r: Option<(CFunctions, seq<Token>)>)
    ensures r.Some? ==> |r.value.1| < |ts|
  {
    match ReadHead(ts)
    case None => None
    case Some((decoder, t)) =>
      match ReadBody(t)
      case None => None
      case Some((body, u)) =>
        match ReadConversion(u)
        case None => None
        case Some((conversion, factor, offset, rest)) =>
          Some((CFunctions(decoder, body, conversion, factor, offset), rest))
  }

  function ReadFile(ts: seq<Token>): Option<seq<CFunctions>>
    decreases |ts|
  {
    if ts == [] then Some([])
    else
      match ReadFunctions(ts)
      case None => None
      case Some((f, rest)) =>
        match ReadFile(rest)
        case None => None
        case Some(fs) => Some([f] + fs)
  }

  //
  // Execution
  //

  function Operate(op: Operator, x: u64, n: nat): Option<u64> {
    match op
    case ShiftsRight => if n < 64 then Some(Shr64(x, n)) else None
    case ShiftsLeft => if n < 64 then Some(Shl(x, n)) else None
    case Ands => if n < TWO_64 then Some(And64(x, n)) else None
    case Ors => if n < TWO_64 then Some(Or64(x, n)) else None
  }

  function Execute(s: CStmt, frame: seq<byte>, st: State): State {
    match st
    case Returned(_) => st
    case Undefined => st
    case Running(data, data1) =>
      match s
      case LoadWordAt(i) => if i + 8 <= |frame| then Running(Load64(frame, i), data1) else Undefined
      case LoadByteAt(i) => if i < |frame| then Running(data, frame[i]) else Undefined
      case Swap(big) => if big then Running(MacroBswap64(data), data1) else st
      case Update(v, op, arg) =>
        var n: nat := match arg case Number(n) => n case Contents(w) => if w == Word then data else data1;
        (match Operate(op, if v == Word then data else data1, n)
         case None => Undefined
         case Some(x) => if v == Word then Running(x, data1) else Running(data, x))
      case IfAny(test, bits) =>
        if test < TWO_64 && bits < TWO_64 then (if And64(data, test) != 0 then Running(Or64(data, bits), data1) else st)
        else Undefined
      case ReturnData => Returned(data)
  }

  function ExecuteAll(body: seq<CStmt>, frame: seq<byte>): State {
    if body == [] then Running(0, 0) else Execute(body[|body| - 1], frame, ExecuteAll(body[..|body| - 1], frame))
  }
}
