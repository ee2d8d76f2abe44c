// C text as words with a space after each, and the tokens that the words stand for.
module CText {
  import opened Numerals

  datatype Token =
    | Data | Data1 | ValueName | Nbytes
    | Assign | ShiftRightBy | ShiftLeftBy | AndWith | OrWith
    | Ampersand | Plus | Times
    | Open | Close | OpenIndex | CloseIndex | Begin | End | Semicolon
    | IfKey | ReturnKey
    | DereferencedCast | AddressCast | PlainCast | WordPointer | BytePointer
    | ToBig | ToLittle
    | Uint64 | DoubleKey | ConstKey | VoidPointer
    | Decoder(name: string) | Conversion(name: string) | Literal(text: string)

  function TokenText(t: Token): string {
    match t
    case Data => "data"
    case Data1 => "data1"
    case ValueName => "value"
    case Nbytes => "nbytes"
    case Assign => "="
    case ShiftRightBy => ">>="
    case ShiftLeftBy => "<<="
    case AndWith => "&="
    case OrWith => "|="
    case Ampersand => "&"
    case Plus => "+"
    case Times => "*"
    case Open => "("
    case Close => ")"
    case OpenIndex => "["
    case CloseIndex => "]"
    case Begin => "{"
    case End => "}"
    case Semicolon => ";"
    case IfKey => "if"
    case ReturnKey => "return"
    case DereferencedCast => "*reinterpret_cast<const"
    case AddressCast => "&reinterpret_cast<const"
    case PlainCast => "reinterpret_cast<const"
    case WordPointer => "uint64_t*>"
    case BytePointer => "uint8_t*>"
    case ToBig => "dbcppp_native_to_big"
    case ToLittle => "dbcppp_native_to_little"
    case Uint64 => "uint64_t"
    case DoubleKey => "double"
    case ConstKey => "const"
    case VoidPointer => "void*"
    case Decoder(name) => "dbcppp_decode_" + name
    case Conversion(name) => "dbcppp_rawToPhys_" + name
    case Literal(text) => text
  }

  function TextOf(tokens: seq<Token>): string {
    if tokens == [] then "" else TokenText(tokens[0]) + (" " + TextOf(tokens[1..]))
  }

  //
  // Reading the words
  //

  function FirstWord(s: string): string {
    if s == [] || s[0] == ' ' then [] else [s[0]] + FirstWord(s[1..])
  }

  function AfterWord(s: string): (rest: string)
    ensures s != [] ==> |rest| < |s|
    ensures |rest| <= |s|
  {
    if s == [] then [] else if s[0] == ' ' then s[1..] else AfterWord(s[1..])
  }

  predicate Plain(word: string) {
    forall i | 0 <= i < |word| :: word[i] != ' '
  }

  // The token a word stands for
  function Lex(w: string): Token {
    if |w| == 1 then LexMark(w)
    else if |w| <= 3 then LexOperator(w)
    else if w[0] == 'd' then LexD(w)
    else if |w| <= 6 then LexWord(w)
    else LexType(w)
  }

  function LexMark(w: string): Token
    requires |w| == 1
  {
    match w[0]
    case '=' => Assign
    case '&' => Ampersand
    case '+' => Plus
    case '*' => Times
    case '(' => Open
    case ')' => Close
    case '[' => OpenIndex
    case ']' => CloseIndex
    case '{' => Begin
    case '}' => End
    case ';' => Semicolon
    case _ => Literal(w)
  }

  function LexOperator(w: string): Token {
    if w == ">>=" then ShiftRightBy
    else if w == "<<=" then ShiftLeftBy
    else if w == "&=" then AndWith
    else if w == "|=" then OrWith
    else if w == "if" then IfKey
    else Literal(w)
  }

  function LexD(w: string): Token {
    if |w| <= 6 then
      (if w == "data" then Data else if w == "data1" then Data1 else if w == "double" then DoubleKey else Literal(w))
    else if "dbcppp_decode_" <= w then Decoder(w[14..])
    else if "dbcppp_rawToPhys_" <= w then Conversion(w[17..])
    else if w == "dbcppp_native_to_big" then ToBig
    else if w == "dbcppp_native_to_little" then ToLittle
    else Literal(w)
  }

  function LexWord(w: string): Token {
    if w == "value" then ValueName
    else if w == "nbytes" then Nbytes
    else if w == "return" then ReturnKey
    else if w == "const" then ConstKey
    else if w == "void*" then VoidPointer
    else Literal(w)
  }

  function LexType(w: string): Token {
    if w == "uint64_t" then Uint64
    else if w == "uint64_t*>" then WordPointer
    else if w == "uint8_t*>" then BytePointer
    else if w == "reinterpret_cast<const" then PlainCast
    else if w == "*reinterpret_cast<const" then DereferencedCast
    else if w == "&reinterpret_cast<const" then AddressCast
    else Literal(w)
  }

  function Tokens(text: string): seq<Token>
    decreases |text|
  {
    if text == [] then [] else [Lex(FirstWord(text))] + Tokens(AfterWord(text))
  }

  // Numbers, and names without spaces
  predicate PlainToken(t: Token) {
    match t
    case Decoder(name) => Plain(name)
    case Conversion(name) => Plain(name)
    case Literal(text) => Plain(text) && text != [] && (IsDigit(text[0]) || text[0] == '-')
    case _ => true
  }

  lemma MarksRead()
    ensures Lex("=") == Assign && Lex("&") == Ampersand && Lex("+") == Plus && Lex("*") == Times
    ensures Lex("(") == Open && Lex(")") == Close && Lex("[") == OpenIndex && Lex("]") == CloseIndex
    ensures Lex("{") == Begin && Lex("}") == End && Lex(";") == Semicolon
    ensures Plain("=") && Plain("&") && Plain("+") && Plain("*") && Plain("(") && Plain(")") && Plain("[") && Plain("]")
            && Plain("{") && Plain("}") && Plain(";")
  {
  }

  lemma OperatorsRead()
    ensures Lex(">>=") == ShiftRightBy && Lex("<<=") == ShiftLeftBy && Lex("&=") == AndWith && Lex("|=") == OrWith
    ensures Lex("if") == IfKey
    ensures Plain(">>=") && Plain("<<=") && Plain("&=") && Plain("|=") && Plain("if")
  {
    assert ">>="[0] == '>' && "<<="[0] == '<' && "&="[0] == '&' && "|="[0] == '|' && "if"[0] == 'i';
  }

  lemma VariablesRead()
    ensures Lex("data") == Data && Lex("data1") == Data1 && Lex("double") == DoubleKey
    ensures Plain("data") && Plain("data1") && Plain("double")
  {
    assert "data"[0] == 'd' && "data1"[0] == 'd' && "double"[0] == 'd';
    assert |"data"| == 4 && |"data1"| == 5 && |"double"| == 6;
  }

  lemma WordsRead()
    ensures Lex("value") == ValueName && Lex("nbytes") == Nbytes && Lex("return") == ReturnKey
    ensures Lex("const") == ConstKey && Lex("void*") == VoidPointer
    ensures Plain("value") && Plain("nbytes") && Plain("return") && Plain("const") && Plain("void*")
  {
    assert "value"[0] == 'v' && "nbytes"[0] == 'n' && "return"[0] == 'r' && "const"[0] == 'c' && "void*"[1] == 'o';
  }

  lemma TypesRead()
    ensures Lex("uint64_t") == Uint64 && Lex("uint64_t*>") == WordPointer && Lex("uint8_t*>") == BytePointer
    ensures Plain("uint64_t") && Plain("uint64_t*>") && Plain("uint8_t*>")
  {
    assert |"uint64_t"| == 8 && |"uint64_t*>"| == 10 && |"uint8_t*>"| == 9;
    assert "uint64_t"[0] == 'u' && "uint64_t*>"[0] == 'u' && "uint8_t*>"[0] == 'u';
  }

  lemma CastsRead()
    ensures Lex("reinterpret_cast<const") == PlainCast && Lex("*reinterpret_cast<const") == DereferencedCast
    ensures Lex("&reinterpret_cast<const") == AddressCast
    ensures Plain("reinterpret_cast<const") && Plain("*reinterpret_cast<const") && Plain("&reinterpret_cast<const")
  {
    assert |"reinterpret_cast<const"| == 22 && |"*reinterpret_cast<const"| == 23 && |"&reinterpret_cast<const"| == 23;
    assert "reinterpret_cast<const"[0] == 'r' && "*reinterpret_cast<const"[0] == '*';
    assert "&reinterpret_cast<const"[0] == '&';
  }

  lemma CallsRead()
    ensures Lex("dbcppp_native_to_big") == ToBig && Lex("dbcppp_native_to_little") == ToLittle
    ensures Plain("dbcppp_native_to_big") && Plain("dbcppp_native_to_little")
  {
    assert |"dbcppp_native_to_big"| == 20 && |"dbcppp_native_to_little"| == 23;
    assert "dbcppp_native_to_big"[7] == 'n' && "dbcppp_native_to_little"[7] == 'n';
    assert "dbcppp_decode_"[7] == 'd' && "dbcppp_rawToPhys_"[7] == 'r';
  }

  lemma {:induction false} NamesRead(name: string)
    ensures Lex("dbcppp_decode_" + name) == Decoder(name) && Lex("dbcppp_rawToPhys_" + name) == Conversion(name)
    ensures Plain(name) ==> Plain("dbcppp_decode_" + name) && Plain("dbcppp_rawToPhys_" + name)
  {
    var d, c := "dbcppp_decode_" + name, "dbcppp_rawToPhys_" + name;
    assert |"dbcppp_decode_"| == 14 && |"dbcppp_rawToPhys_"| == 17;
    assert d[0] == 'd' && d[7] == "dbcppp_decode_"[7] == 'd' && d[14..] == name;
    assert c[0] == 'd' && c[7] == "dbcppp_rawToPhys_"[7] == 'r' && c[17..] == name;
  }

  lemma LiteralsRead(text: string)
    requires text != [] && (IsDigit(text[0]) || text[0] == '-')
    ensures Lex(text) == Literal(text)
  {
  }

  // A token is recovered from its text, which is one word.
  lemma {:induction false} LexRead(t: Token)
    requires PlainToken(t)
    ensures Lex(TokenText(t)) == t && Plain(TokenText(t))
  {
    match t {
      case Assign | Ampersand | Plus | Times | Open | Close | OpenIndex | CloseIndex | Begin | End | Semicolon =>
        MarksRead();
      case ShiftRightBy | ShiftLeftBy | AndWith | OrWith | IfKey => OperatorsRead();
      case Data | Data1 | DoubleKey => VariablesRead();
      case ValueName | Nbytes | ReturnKey | ConstKey | VoidPointer => WordsRead();
      case Uint64 | WordPointer | BytePointer => TypesRead();
      case PlainCast | DereferencedCast | AddressCast => CastsRead();
      case ToBig | ToLittle => CallsRead();
      case Decoder(name) => NamesRead(name);
      case Conversion(name) => NamesRead(name);
      case Literal(text) => LiteralsRead(text);
    }
  }

  lemma {:induction false} WordRead(word: string, rest: string)
    requires Plain(word)
    ensures FirstWord(word + (" " + rest)) == word && AfterWord(word + (" " + rest)) == rest
  {
    var s := word + (" " + rest);
    if word == [] {
      assert s == " " + rest && s[1..] == rest;
    } else {
      assert s[1..] == word[1..] + (" " + rest);
      WordRead(word[1..], rest);
      assert [word[0]] + word[1..] == word;
    }
  }

  // The tokens are recovered from the characters.
  lemma {:induction false} TextRead(tokens: seq<Token>)
    requires forall i | 0 <= i < |tokens| :: PlainToken(tokens[i])
    ensures Tokens(TextOf(tokens)) == tokens
  {
    if tokens == [] {
    } else {
      LexRead(tokens[0]);
      WordRead(TokenText(tokens[0]), TextOf(tokens[1..]));
      TextRead(tokens[1..]);
      assert [tokens[0]] + tokens[1..] == tokens;
    }
  }
}
