// A message owns its signals and keeps a pointer to its multiplexer switch. The pointer must follow the
// signals when the message is constructed, copied or assigned.
module MessageMux {
  import opened DbcTypes
  import opened NetworkEquality

  datatype MessageError = NoError | MuxValeWithoutMuxSignal

  // A pointer to an element of a signal vector.
  datatype SignalPointer = Null | At(storage: array<Signal>, index: nat)

  ghost predicate LastSwitch(signals: seq<Signal>, i: nat) {
    && i < |signals| && signals[i].multiplexerIndicator == MuxSwitch
    && forall j | i < j < |signals| :: signals[j].multiplexerIndicator != MuxSwitch
  }

  ghost predicate NoSwitch(signals: seq<Signal>) {
    forall j | 0 <= j < |signals| :: signals[j].multiplexerIndicator != MuxSwitch
  }

  ghost predicate SomeValue(signals: seq<Signal>) {
    exists j :: 0 <= j < |signals| && signals[j].multiplexerIndicator == MuxValue
  }

  class MessageImpl {
    var id: nat
    var name: string
    var messageSize: nat
    var transmitter: string
    var messageTransmitters: seq<string>
    var signals: array<Signal>
    var attributeValues: seq<Attribute>
    var comment: string
    var signalGroups: seq<SignalGroup>
    var muxSignal: SignalPointer
    var error: MessageError

    ghost function Value(): Message
      reads this, signals
    {
      Message(id, name, messageSize, transmitter, messageTransmitters, signals[..], attributeValues, comment,
              signalGroups)
    }

    // The pointer is null when there is no switch, and otherwise at the last switch of the message's own vector.
    ghost predicate PointsAtOwnSwitch()
      reads this, signals
    {
      match muxSignal
      case Null => NoSwitch(signals[..])
      case At(storage, i) => storage == signals && LastSwitch(signals[..], i)
    }

    ghost predicate Valid()
      reads this, signals
    {
      && PointsAtOwnSwitch()
      && (error == MuxValeWithoutMuxSignal <==> SomeValue(signals[..]) && NoSwitch(signals[..]))
    }

    constructor (m: Message)
      ensures Valid() && Value() == m && fresh(signals)
      ensures muxSignal.Null? <==>
                forall j | 0 <= j < signals.Length :: signals[j].multiplexerIndicator != MuxSwitch
      ensures muxSignal.At? ==>
                && muxSignal.storage == signals && muxSignal.index < signals.Length
                && signals[muxSignal.index].multiplexerIndicator == MuxSwitch
                && forall j | muxSignal.index < j < signals.Length :: signals[j].multiplexerIndicator != MuxSwitch
      ensures error == MuxValeWithoutMuxSignal <==>
                && (exists s :: s in m.signals && s.multiplexerIndicator == MuxValue)
                && (forall s | s in m.signals :: s.multiplexerIndicator != MuxSwitch)
    {
      id, name, messageSize, transmitter := m.id, m.name, m.messageSize, m.transmitter;
      messageTransmitters, attributeValues := m.messageTransmitters, m.attributeValues;
      comment, signalGroups := m.comment, m.signalGroups;
      signals := new Signal[|m.signals|](i requires 0 <= i < |m.signals| => m.signals[i]);
      muxSignal, error := Null, NoError;
      new;
      assert signals[..] == m.signals;
      var haveMuxValue := false;
      for i := 0 to signals.Length
        invariant signals[..] == m.signals
        invariant Value() == m && error == NoError && fresh(signals)
        invariant haveMuxValue == SomeValue(m.signals[..i])
        invariant muxSignal.Null? ==> NoSwitch(m.signals[..i])
        invariant muxSignal.At? ==> muxSignal.storage == signals && LastSwitch(m.signals[..i], muxSignal.index)
      {
        assert m.signals[..i + 1] == m.signals[..i] + [m.signals[i]];
        match signals[i].multiplexerIndicator {
          case MuxValue =>
            haveMuxValue := true;
            assert m.signals[..i + 1][i].multiplexerIndicator == MuxValue;
          case MuxSwitch =>
            muxSignal := At(signals, i);
          case NoMux =>
        }
      }
      assert m.signals[..signals.Length] == m.signals;
      if haveMuxValue && muxSignal == Null {
        error := MuxValeWithoutMuxSignal;
      }
    }

    // Copies the signals and finds the switch again; the signal groups are not copied.
    constructor Copy(other: MessageImpl)
      requires other.Valid()
      ensures Valid() && fresh(signals)
      ensures Value() == other.Value().(signalGroups := []) && error == other.error
      ensures muxSignal.Null? <==>
                forall j | 0 <= j < signals.Length :: signals[j].multiplexerIndicator != MuxSwitch
      ensures muxSignal.At? ==>
                && muxSignal.storage == signals && muxSignal.index < signals.Length
                && signals[muxSignal.index].multiplexerIndicator == MuxSwitch
                && forall j | muxSignal.index < j < signals.Length :: signals[j].multiplexerIndicator != MuxSwitch
    {
      id, name, messageSize, transmitter := other.id, other.name, other.messageSize, other.transmitter;
      messageTransmitters, attributeValues := other.messageTransmitters, other.attributeValues;
      comment, signalGroups := other.comment, [];
      ghost var copied := other.signals[..];
      signals := new Signal[other.signals.Length](i requires 0 <= i < other.signals.Length reads other, other.signals
                                                  => other.signals[i]);
      muxSignal, error := Null, other.error;
      new;
      assert signals[..] == copied;
      FindSwitch();
    }

    // Copy assignment, also from the message itself; this message keeps its own signal groups.
    method Assign(other: MessageImpl)
      requires other.Valid()
      modifies this
      ensures Valid() && fresh(signals)
      ensures Value() == old(other.Value()).(signalGroups := old(signalGroups)) && error == old(other.error)
      ensures muxSignal.Null? <==>
                forall j | 0 <= j < signals.Length :: signals[j].multiplexerIndicator != MuxSwitch
      ensures muxSignal.At? ==>
                && muxSignal.storage == signals && muxSignal.index < signals.Length
                && signals[muxSignal.index].multiplexerIndicator == MuxSwitch
                && forall j | muxSignal.index < j < signals.Length :: signals[j].multiplexerIndicator != MuxSwitch
    {
      var copy := CopiedSignals(other.signals);
      CopyFields(other, copy);
      FindSwitch();
    }

    method CopyFields(other: MessageImpl, copy: array<Signal>)
      requires copy[..] == other.signals[..]
      modifies this
      ensures signals == copy && error == old(other.error)
      ensures Value() == old(other.Value()).(signalGroups := old(signalGroups))
    {
      id, name, messageSize, transmitter := other.id, other.name, other.messageSize, other.transmitter;
      messageTransmitters, attributeValues, comment := other.messageTransmitters, other.attributeValues, other.comment;
      signals, error := copy, other.error;
    }

    static method CopiedSignals(source: array<Signal>) returns (copy: array<Signal>)
      ensures fresh(copy) && copy[..] == source[..]
    {
      copy := new Signal[source.Length](i requires 0 <= i < source.Length reads source => source[i]);
    }

    // `_mux_signal = nullptr`, then a pass over the signals of this message.
    method FindSwitch()
      modifies this`muxSignal
      ensures PointsAtOwnSwitch()
    {
      muxSignal := Null;
      for i := 0 to signals.Length
        invariant muxSignal.Null? ==> NoSwitch(signals[..i])
        invariant muxSignal.At? ==> muxSignal.storage == signals && LastSwitch(signals[..i], muxSignal.index)
      {
        assert signals[..i + 1] == signals[..i] + [signals[i]];
        if signals[i].multiplexerIndicator == MuxSwitch {
          muxSignal := At(signals, i);
        }
      }
      assert signals[..signals.Length] == signals[..];
    }
  }

  // A message and its copy: the original compares equal to the copy, and the copy to the original exactly when
  // there were no signal groups to lose.
  lemma CopyComparesEqual(m: Message)
    ensures EqualMessages(m, m.(signalGroups := []))
    ensures EqualMessages(m.(signalGroups := []), m) <==> m.signalGroups == []
  {
    MessagesPreorder();
    assert EqualMessages(m, m);
    if m.signalGroups != [] { assert !Has([], m.signalGroups[0], EqualGroups); }
  }
}
