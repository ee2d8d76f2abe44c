// The file the C generator writes: one decoder and one conversion for every signal of a network.
module GeneratedFile {
  import opened Bits
  import opened CReader
  import opened CText
  import opened GeneratedText
  import opened NetworkToC
  import opened Numerals
  import opened NumberFormat
  import opened SignalCodec
  import opened SignalLayout

  datatype Message = Message(name: string, id: u64, signals: seq<NamedSignal>)
  datatype NamedSignal = NamedSignal(name: string, factor: real, offset: real, impl: SignalImpl)

  //
  // The generator
  //

  function FunctionName(message: string, id: nat, signal: string): string {
    message + ("_" + (Decimal(id) + ("_" + signal)))
  }

  // The signals of a network in the order the generator visits them, with their message.
  ghost function Visited(msgs: seq<Message>): seq<(Message, NamedSignal)> {
    if msgs == [] then []
    else
      var m := msgs[|msgs| - 1];
      Visited(msgs[..|msgs| - 1]) + VisitedIn(m, m.signals)
  }

  ghost function VisitedIn(m: Message, signals: seq<NamedSignal>): seq<(Message, NamedSignal)> {
    seq(|signals|, i requires 0 <= i < |signals| => (m, signals[i]))
  }

  ghost predicate AllValid(msgs: seq<Message>)
    reads set m, s | m in msgs && s in m.signals :: s.impl
  {
    forall m, s | m in msgs && s in m.signals :: s.impl.Valid()
  }

  // The order is that of the messages, and within a message that of its signals.
  lemma {:induction false} VisitedInOrder(msgs: seq<Message>, more: seq<Message>)
    ensures Visited(msgs + more) == Visited(msgs) + Visited(more)
    ensures forall m: Message :: Visited([m]) == VisitedIn(m, m.signals) && |Visited([m])| == |m.signals|
    ensures forall m: Message, i | 0 <= i < |m.signals| :: VisitedIn(m, m.signals)[i] == (m, m.signals[i])
    decreases |more|
  {
    forall m: Message ensures Visited([m]) == VisitedIn(m, m.signals) { assert [m][..0] == []; }
    if more == [] {
      assert msgs + more == msgs;
    } else {
      var n := |more| - 1;
      VisitedInOrder(msgs, more[..n]);
      assert (msgs + more)[..|msgs + more| - 1] == msgs + more[..n];
    }
  }

  // A function for the signal of a message, with a faithful decoder.
  ghost predicate FunctionOf(v: (Message, NamedSignal), f: CFunction) {
    && f.name == FunctionName(v.0.name, v.0.id, v.1.name)
    && f.factor == v.1.factor && f.offset == v.1.offset
    && v.1.impl.desc.Valid() && Faithful(v.1.impl.desc, f.code)
  }

  // One function for each visited signal, in order.
  ghost predicate Generated(visited: seq<(Message, NamedSignal)>, out: seq<CFunction>) {
    |out| == |visited| && forall i | 0 <= i < |out| :: FunctionOf(visited[i], out[i])
  }

  // The parentheses of the generated file are balanced exactly when no signal is little-endian over nine bytes.
  lemma FileParsesIff(visited: seq<(Message, NamedSignal)>, out: seq<CFunction>)
    requires Generated(visited, out)
    ensures Nested(FileTokens(out), 0)
            <==> (forall v | v in visited :: v.1.impl.desc.Valid()
                                             && (FitsOneWord(v.1.impl.desc) || v.1.impl.desc.byteOrder == BigEndian))
  {
    FileNested(out);
    if forall f | f in out :: Parses(f.code) {
      forall v | v in visited
        ensures v.1.impl.desc.Valid() && (FitsOneWord(v.1.impl.desc) || v.1.impl.desc.byteOrder == BigEndian)
      {
        var i :| 0 <= i < |visited| && visited[i] == v;
        assert FunctionOf(visited[i], out[i]) && out[i] in out;
      }
    } else {
      var f :| f in out && !Parses(f.code);
      var i :| 0 <= i < |out| && out[i] == f;
      assert FunctionOf(visited[i], out[i]) && visited[i] in visited;
    }
  }

  // What a reader of C makes of the functions of a signal: their names, a decoder that returns what Decode returns on
  // every frame long enough (for a Float in one word: its low bits, and all of it exactly if the signal ends the
  // word), and a conversion with the rounded factor and offset.
  ghost predicate SignalMeans(v: (Message, NamedSignal), c: CFunctions) {
    var d := v.1.impl.desc;
    && c.decoder == FunctionName(v.0.name, v.0.id, v.1.name) && c.conversion == c.decoder
    && c.factor == Rounded(v.1.factor) && c.offset == Rounded(v.1.offset)
    && d.Valid()
    && if FitsOneWord(d) && d.extendedValueType == Float then
         && (forall frame: seq<byte> | WindowEnd(d) <= |frame| ::
               var st := ExecuteAll(c.body, frame);
               st.Returned? && st.value % Pow2(d.bitSize) == Value(d, frame))
         && ((forall frame: seq<byte> | WindowEnd(d) <= |frame| ::
                ExecuteAll(c.body, frame) == Returned(Value(d, frame)))
             <==> EndsWord(d))
       else
         forall frame: seq<byte> | WindowEnd(d) <= |frame| :: ExecuteAll(c.body, frame) == Returned(Value(d, frame))
  }

  // The characters of the file are read as such functions, one pair for each signal in order, exactly when no signal
  // is little-endian over nine bytes.
  ghost predicate TextMeans(visited: seq<(Message, NamedSignal)>, os: string) {
    var r := ReadFile(Tokens(os));
    && (r.Some? <==> forall v | v in visited ::
                       v.1.impl.desc.Valid()
                       && (FitsOneWord(v.1.impl.desc) || v.1.impl.desc.byteOrder == BigEndian))
    && (r.Some? ==> |r.value| == |visited| && forall i | 0 <= i < |visited| :: SignalMeans(visited[i], r.value[i]))
  }

  predicate PlainNames(msgs: seq<Message>) {
    forall m | m in msgs :: Plain(m.name) && forall s | s in m.signals :: Plain(s.name)
  }

  lemma {:induction false} FunctionMeansSignal(v: (Message, NamedSignal), f: CFunction, c: CFunctions)
    requires FunctionOf(v, f) && FunctionMeans(c, f) && Parses(f.code)
    ensures SignalMeans(v, c)
  {
    var d := v.1.impl.desc;
    forall frame: seq<byte> | WindowEnd(d) <= |frame| ensures ExecuteAll(c.body, frame) == Run(f.code, frame) {
      SameRun(c.body, f.code, frame);
    }
  }

  lemma {:induction false} GeneratedMeans(visited: seq<(Message, NamedSignal)>, out: seq<CFunction>)
    requires Generated(visited, out) && forall f | f in out :: Plain(f.name)
    ensures TextMeans(visited, TextOf(FileTokens(out)))
  {
    TextMeansFile(out);
    FileParsesIff(visited, out);
    FileNested(out);
    var r := ReadFile(Tokens(TextOf(FileTokens(out))));
    if r.Some? {
      forall i | 0 <= i < |visited| ensures SignalMeans(visited[i], r.value[i]) {
        assert out[i] in out && FunctionOf(visited[i], out[i]) && FunctionMeans(r.value[i], out[i]);
        FunctionMeansSignal(visited[i], out[i], r.value[i]);
      }
    }
  }

  lemma {:induction false} VisitedPlain(msgs: seq<Message>)
    requires PlainNames(msgs)
    ensures forall v | v in Visited(msgs) :: Plain(v.0.name) && Plain(v.1.name)
  {
    if msgs == [] {
    } else {
      VisitedPlain(msgs[..|msgs| - 1]);
      var m := msgs[|msgs| - 1];
      forall v | v in VisitedIn(m, m.signals) ensures Plain(v.0.name) && Plain(v.1.name) {
        assert v.0 == m && v.1 in m.signals;
      }
    }
  }

  lemma {:induction false} NamesPlain(visited: seq<(Message, NamedSignal)>, out: seq<CFunction>)
    requires Generated(visited, out) && forall v | v in visited :: Plain(v.0.name) && Plain(v.1.name)
    ensures forall f | f in out :: Plain(f.name)
  {
    forall f | f in out ensures Plain(f.name) {
      var i :| 0 <= i < |out| && out[i] == f;
      assert FunctionOf(visited[i], out[i]) && visited[i] in visited;
      NamePlain(visited[i].0.name, visited[i].0.id, visited[i].1.name);
    }
  }

  lemma NamePlain(m: string, i: nat, s: string)
    requires Plain(m) && Plain(s)
    ensures Plain(FunctionName(m, i, s))
  {
  }

  method EmitNetwork(msgs: seq<Message>) returns (out: seq<CFunction>, os: string)
    requires AllValid(msgs)
    ensures Generated(Visited(msgs), out) && os == TextOf(FileTokens(out))
    ensures PlainNames(msgs) ==> TextMeans(Visited(msgs), os)
  {
    out, os := [], "";
    for i := 0 to |msgs|
      invariant Generated(Visited(msgs[..i]), out) && os == TextOf(FileTokens(out))
    {
      assert forall s | s in msgs[i].signals :: msgs[i] in msgs && s.impl.Valid();
      out, os := EmitMessage(msgs[i], Visited(msgs[..i]), out, os);
      VisitedAppend(msgs, i);
    }
    assert msgs[..|msgs|] == msgs;
    if PlainNames(msgs) {
      VisitedPlain(msgs);
      NamesPlain(Visited(msgs), out);
      GeneratedMeans(Visited(msgs), out);
    }
  }

  lemma VisitedAppend(msgs: seq<Message>, i: nat)
    requires i < |msgs|
    ensures Visited(msgs[..i + 1]) == Visited(msgs[..i]) + VisitedIn(msgs[i], msgs[i].signals)
  {
    assert msgs[..i + 1][..i] == msgs[..i];
  }

  // The inner loop: appends the functions of a message to the stream.
  method EmitMessage(m: Message, ghost done: seq<(Message, NamedSignal)>, before: seq<CFunction>, stream: string)
    returns (out: seq<CFunction>, os: string)
    requires forall s | s in m.signals :: s.impl.Valid()
    requires Generated(done, before) && stream == TextOf(FileTokens(before))
    ensures Generated(done + VisitedIn(m, m.signals), out) && os == TextOf(FileTokens(out))
  {
    out, os := before, stream;
    for j := 0 to |m.signals|
      invariant Generated(done + VisitedIn(m, m.signals[..j]), out) && os == TextOf(FileTokens(out))
    {
      var f := EmitFunction(m, m.signals[j]);
      OneMore(done, m, j, out, f);
      FileAppend(out, f);
      out, os := out + [f], os + TextOf(FunctionTokens(f));
    }
    assert m.signals[..|m.signals|] == m.signals;
  }

  lemma OneMore(done: seq<(Message, NamedSignal)>, m: Message, j: nat, out: seq<CFunction>, f: CFunction)
    requires j < |m.signals| && Generated(done + VisitedIn(m, m.signals[..j]), out) && FunctionOf((m, m.signals[j]), f)
    ensures Generated(done + VisitedIn(m, m.signals[..j + 1]), out + [f])
  {
    assert done + VisitedIn(m, m.signals[..j + 1]) == (done + VisitedIn(m, m.signals[..j])) + [(m, m.signals[j])];
  }

  method EmitFunction(m: Message, s: NamedSignal) returns (f: CFunction)
    requires s.impl.Valid()
    ensures FunctionOf((m, s), f)
  {
    var code := EmitDecoder(s.impl);
    f := CFunction(FunctionName(m.name, m.id, s.name), code, s.factor, s.offset);
  }

  //
  // The names of the functions
  //

  // Two functions have the same name only for the same message name, id and signal name, unless the longer message
  // name continues the shorter one and its id, and the shorter one's signal name makes up for it.
  lemma {:induction false} SameNameIff(m: string, i: nat, s: string, n: string, j: nat, t: string)
    requires |m| <= |n|
    ensures FunctionName(m, i, s) == FunctionName(n, j, t)
            <==> (m == n && i == j && s == t)
                 || (Continues(n, m, i) && "_" + s == n[|m| + 1 + |Decimal(i)|..] + NameEnd(j, t))
  {
    if m <= n {
      var more := n[|m|..];
      assert n == m + more;
      SamePrefix(m, NameEnd(i, s), more + NameEnd(j, t));
      assert FunctionName(n, j, t) == m + (more + NameEnd(j, t));
      if more == [] {
        assert more + NameEnd(j, t) == NameEnd(j, t);
        SameEndIff(i, s, j, t);
      } else {
        ContinuedIff(i, s, more, NameEnd(j, t));
        assert Continues(n, m, i) ==> n[|m| + 1 + |Decimal(i)|..] == more[1 + |Decimal(i)|..];
        PrefixContinues(m, more, i);
      }
    } else {
      assert FunctionName(m, i, s)[..|m|] == m && FunctionName(n, j, t)[..|m|] == n[..|m|];
    }
  }

  function NameEnd(id: nat, signal: string): string {
    "_" + (Decimal(id) + ("_" + signal))
  }

  // The name n starts with the name m, an underscore and the id of m's message.
  predicate Continues(n: string, m: string, id: nat) {
    m + ("_" + Decimal(id)) <= n
  }

  lemma SamePrefix(a: string, b: string, c: string)
    ensures a + b == a + c <==> b == c
  {
    assert (a + b)[|a|..] == b && (a + c)[|a|..] == c;
  }

  lemma PrefixContinues(m: string, more: string, i: nat)
    ensures Continues(m + more, m, i) <==> "_" + Decimal(i) <= more
  {
    var d := "_" + Decimal(i);
    if d <= more { assert more == d + more[|d|..]; }
    if Continues(m + more, m, i) {
      assert (m + more)[|m|..] == more && (m + d)[|m|..] == d;
      assert (m + more)[..|m + d|] == m + d;
      assert more[..|d|] == (m + more)[|m|..|m| + |d|];
    }
  }

  lemma {:induction false} SameEndIff(i: nat, s: string, j: nat, t: string)
    ensures NameEnd(i, s) == NameEnd(j, t) <==> i == j && s == t
  {
    if NameEnd(i, s) == NameEnd(j, t) {
      assert NameEnd(i, s)[1..] == Decimal(i) + ("_" + s) && NameEnd(j, t)[1..] == Decimal(j) + ("_" + t);
      DigitsStop(Decimal(i), "_" + s);
      DigitsStop(Decimal(j), "_" + t);
      DecimalRead(i);
      DecimalRead(j);
      assert ("_" + s)[1..] == s && ("_" + t)[1..] == t;
    }
  }

  // An id followed by an underscore cannot end inside another text followed by one.
  lemma {:induction false} ContinuedIff(i: nat, s: string, more: string, end: string)
    requires more != [] && end != [] && end[0] == '_'
    ensures NameEnd(i, s) == more + end
            <==> "_" + Decimal(i) <= more && "_" + s == more[1 + |Decimal(i)|..] + end
  {
    var d := "_" + Decimal(i);
    assert NameEnd(i, s) == d + ("_" + s);
    if d <= more {
      assert more == d + more[|d|..] && more + end == d + (more[|d|..] + end);
      SamePrefix(d, "_" + s, more[|d|..] + end);
    } else if |more| < |d| {
      assert IsDigit(d[|more|]) && (d + ("_" + s))[|more|] == d[|more|];
      assert (more + end)[|more|] == end[0];
    } else {
      assert (more + end)[..|d|] == more[..|d|] && (d + ("_" + s))[..|d|] == d;
    }
  }

  // Two signals of different messages can get the same function name.
  lemma NamesCollide()
    ensures FunctionName("M", 1, "_2_S") == FunctionName("M_1_", 2, "S")
  {
    assert Decimal(1) == "1" && Decimal(2) == "2";
  }

  // They do not if no message name continues the name and the id of another one, and no two signals have message
  // name, id and signal name in common.
  lemma NamesDistinct(visited: seq<(Message, NamedSignal)>, out: seq<CFunction>)
    requires Generated(visited, out)
    requires forall a, b | a in visited && b in visited :: !Continues(a.0.name, b.0.name, b.0.id)
    requires forall a, b | 0 <= a < b < |visited| ::
               (visited[a].0.name, visited[a].0.id, visited[a].1.name)
               != (visited[b].0.name, visited[b].0.id, visited[b].1.name)
    ensures forall a, b | 0 <= a < b < |out| :: out[a].name != out[b].name
  {
    forall a, b | 0 <= a < b < |out| ensures out[a].name != out[b].name {
      assert FunctionOf(visited[a], out[a]) && FunctionOf(visited[b], out[b]);
      assert visited[a] in visited && visited[b] in visited;
      var (v, w) := (visited[a], visited[b]);
      if |v.0.name| <= |w.0.name| {
        SameNameIff(v.0.name, v.0.id, v.1.name, w.0.name, w.0.id, w.1.name);
      } else {
        SameNameIff(w.0.name, w.0.id, w.1.name, v.0.name, v.0.id, v.1.name);
      }
    }
  }
}
