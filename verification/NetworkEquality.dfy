// Structural comparison of networks, and merging one network into another. The comparison of two objects
// asks that every element of the right one has an equal in the left one, at every level.
module NetworkEquality {
  import opened DbcTypes
  import opened SignalLayout

  //
  // The object tree
  //

  datatype ObjectType = NetworkObject | NodeObject | MessageObject | SignalObject | EnvironmentVariableObject
  datatype Attribute = Attribute(name: string, objectType: ObjectType, value: AttributeValue)

  datatype DefinitionType =
    | IntRange(minimum: int, maximum: int)
    | HexRange(minimum: int, maximum: int)
    | FloatRange(low: real, high: real)
    | AnyString
    | Enumeration(values: seq<string>)

  datatype AttributeDefinition = AttributeDefinition(name: string, objectType: ObjectType, valueType: DefinitionType)
  datatype Range = Range(first: nat, last: nat)
  datatype SignalMultiplexerValue = SignalMultiplexerValue(switchName: string, valueRanges: seq<Range>)

  datatype Signal = Signal(
    name: string, multiplexerIndicator: Multiplexer, multiplexerSwitchValue: nat, startBit: nat, bitSize: nat,
    byteOrder: ByteOrder, valueType: ValueType, factor: real, offset: real, minimum: real, maximum: real, unit: string,
    receivers: seq<string>, attributeValues: seq<Attribute>,
    valueEncodingDescriptions: seq<ValueEncodingDescription>, comment: string, extendedValueType: ExtendedValueType,
    signalMultiplexerValues: seq<SignalMultiplexerValue>)

  datatype SignalGroup = SignalGroup(messageId: nat, name: string, repetitions: nat, signalNames: seq<string>)

  datatype Message = Message(
    id: nat, name: string, messageSize: nat, transmitter: string, messageTransmitters: seq<string>,
    signals: seq<Signal>, attributeValues: seq<Attribute>, comment: string, signalGroups: seq<SignalGroup>)

  datatype Node = Node(name: string, comment: string, attributeValues: seq<Attribute>)

  datatype SignalType = SignalType(
    name: string, signalSize: nat, byteOrder: ByteOrder, valueType: ValueType, factor: real, offset: real,
    minimum: real, maximum: real, unit: string, defaultValue: real, valueTable: string)

  datatype ValueTable = ValueTable(
    name: string, signalType: Option<SignalType>, valueEncodingDescriptions: seq<ValueEncodingDescription>)

  datatype EnvironmentVariable = EnvironmentVariable(
    name: string, varType: nat, minimum: real, maximum: real, unit: string, initialValue: real, evId: nat,
    accessType: nat, accessNodes: seq<string>, valueEncodingDescriptions: seq<ValueEncodingDescription>,
    dataSize: nat, attributeValues: seq<Attribute>, comment: string)

  datatype BitTiming = BitTiming(baudrate: nat, btr1: nat, btr2: nat)

  datatype Network = Network(
    version: string, newSymbols: seq<string>, bitTiming: BitTiming, nodes: seq<Node>, valueTables: seq<ValueTable>,
    messages: seq<Message>, environmentVariables: seq<EnvironmentVariable>,
    attributeDefinitions: seq<AttributeDefinition>, attributeDefaults: seq<Attribute>,
    attributeValues: seq<Attribute>, comment: string)

  //
  // Searching a list for an equal element
  //

  predicate Has<T>(xs: seq<T>, y: T, eq: (T, T) -> bool) {
    exists i | 0 <= i < |xs| :: eq(xs[i], y)
  }

  predicate HasAll<T>(xs: seq<T>, ys: seq<T>, eq: (T, T) -> bool) {
    forall j | 0 <= j < |ys| :: Has(xs, ys[j], eq)
  }

  // std::find with the element's operator==
  method Find<T>(xs: seq<T>, y: T, eq: (T, T) -> bool) returns (found: bool)
    ensures found <==> Has(xs, y, eq)
  {
    for i := 0 to |xs|
      invariant forall k | 0 <= k < i :: !eq(xs[k], y)
    {
      if eq(xs[i], y) {
        return true;
      }
    }
    return false;
  }

  // `for (y : ys) equal &= find(xs, y) != end;`
  method FindEach<T>(xs: seq<T>, ys: seq<T>, eq: (T, T) -> bool, before: bool) returns (equal: bool)
    ensures equal <==> before && HasAll(xs, ys, eq)
  {
    equal := before;
    for j := 0 to |ys|
      invariant equal <==> before && forall k | 0 <= k < j :: Has(xs, ys[k], eq)
    {
      var found := Find(xs, ys[j], eq);
      equal := equal && found;
    }
  }

  function Same<T(==)>(): (T, T) -> bool {
    (x, y) => x == y
  }

  ghost predicate ReflexiveOn<T(!new)>(eq: (T, T) -> bool) {
    forall x :: eq(x, x)
  }

  ghost predicate TransitiveOn<T(!new)>(eq: (T, T) -> bool) {
    forall x, y, z :: eq(x, y) && eq(y, z) ==> eq(x, z)
  }

  // A concatenation has all of both parts, and whatever has all of both parts has all of it.
  lemma HasAllOfParts<T(!new)>(xs: seq<T>, ys: seq<T>, eq: (T, T) -> bool)
    requires ReflexiveOn(eq)
    ensures HasAll(xs + ys, xs, eq) && HasAll(xs + ys, ys, eq)
    ensures forall zs :: HasAll(zs, xs, eq) && HasAll(zs, ys, eq) ==> HasAll(zs, xs + ys, eq)
  {
    var both := xs + ys;
    forall j | 0 <= j < |xs| ensures Has(both, xs[j], eq) { assert both[j] == xs[j]; }
    forall j | 0 <= j < |ys| ensures Has(both, ys[j], eq) { assert both[|xs| + j] == ys[j]; }
  }

  //
  // operator== of each class, left and right operand in that order
  //

  predicate EqualDefinitions(l: AttributeDefinition, r: AttributeDefinition) {
    && l.name == r.name
    && l.objectType == r.objectType
    && match (l.valueType, r.valueType) {
         case (IntRange(a, b), IntRange(c, d)) => a == c && b == d
         case (HexRange(a, b), HexRange(c, d)) => a == c && b == d
         case (FloatRange(a, b), FloatRange(c, d)) => a == c && b == d
         case (AnyString, AnyString) => true
         // here the left values are looked up among the right ones
         case (Enumeration(vs), Enumeration(ws)) => HasAll(ws, vs, Same())
         case _ => false
       }
  }

  predicate EqualMultiplexerValues(l: SignalMultiplexerValue, r: SignalMultiplexerValue) {
    l.switchName == r.switchName && HasAll(l.valueRanges, r.valueRanges, Same())
  }

  predicate EqualGroups(l: SignalGroup, r: SignalGroup) {
    && l.messageId == r.messageId && l.name == r.name && l.repetitions == r.repetitions
    && HasAll(l.signalNames, r.signalNames, Same())
  }

  predicate EqualSignals(l: Signal, r: Signal) {
    && l.name == r.name
    && l.multiplexerIndicator == r.multiplexerIndicator
    && l.multiplexerSwitchValue == r.multiplexerSwitchValue
    && l.startBit == r.startBit && l.bitSize == r.bitSize
    && l.byteOrder == r.byteOrder && l.valueType == r.valueType
    && l.factor == r.factor && l.offset == r.offset
    && l.minimum == r.minimum && l.maximum == r.maximum
    && l.unit == r.unit
    && HasAll(l.receivers, r.receivers, Same())
    && HasAll(l.attributeValues, r.attributeValues, Same())
    && HasAll(l.valueEncodingDescriptions, r.valueEncodingDescriptions, Same())
    && l.comment == r.comment
    && l.extendedValueType == r.extendedValueType
    && HasAll(l.signalMultiplexerValues, r.signalMultiplexerValues, EqualMultiplexerValues)
  }

  // The message size is not compared.
  predicate EqualMessages(l: Message, r: Message) {
    && l.id == r.id && l.name == r.name && l.transmitter == r.transmitter
    && HasAll(l.messageTransmitters, r.messageTransmitters, Same())
    && HasAll(l.signals, r.signals, EqualSignals)
    && HasAll(l.attributeValues, r.attributeValues, Same())
    && l.comment == r.comment
    && HasAll(l.signalGroups, r.signalGroups, EqualGroups)
  }

  predicate EqualNodes(l: Node, r: Node) {
    l.name == r.name && l.comment == r.comment && HasAll(l.attributeValues, r.attributeValues, Same())
  }

  // The byte order is not compared.
  predicate EqualSignalTypes(l: SignalType, r: SignalType) {
    l == r.(byteOrder := l.byteOrder)
  }

  predicate EqualValueTables(l: ValueTable, r: ValueTable) {
    && l.name == r.name
    && match (l.signalType, r.signalType) {
         case (Some(s), Some(t)) => EqualSignalTypes(s, t)
         case (None, None) => true
         case _ => false
       }
    && HasAll(l.valueEncodingDescriptions, r.valueEncodingDescriptions, Same())
  }

  // The maximum is not compared.
  predicate EqualEnvironmentVariables(l: EnvironmentVariable, r: EnvironmentVariable) {
    && l.name == r.name && l.varType == r.varType && l.minimum == r.minimum && l.unit == r.unit
    && l.initialValue == r.initialValue && l.evId == r.evId && l.accessType == r.accessType
    && HasAll(l.accessNodes, r.accessNodes, Same())
    && HasAll(l.valueEncodingDescriptions, r.valueEncodingDescriptions, Same())
    && l.dataSize == r.dataSize
    && HasAll(l.attributeValues, r.attributeValues, Same())
    && l.comment == r.comment
  }

  // New symbols are not compared: the loop looks the left ones up among themselves.
  predicate EqualNetworks(l: Network, r: Network) {
    && l.version == r.version
    && l.bitTiming == r.bitTiming
    && HasAll(l.nodes, r.nodes, EqualNodes)
    && HasAll(l.valueTables, r.valueTables, EqualValueTables)
    && HasAll(l.messages, r.messages, EqualMessages)
    && HasAll(l.environmentVariables, r.environmentVariables, EqualEnvironmentVariables)
    && HasAll(l.attributeDefinitions, r.attributeDefinitions, EqualDefinitions)
    && HasAll(l.attributeDefaults, r.attributeDefaults, Same())
    && HasAll(l.attributeValues, r.attributeValues, Same())
    && l.comment == r.comment
  }

  method SignalsEqual(l: Signal, r: Signal) returns (equal: bool)
    ensures equal <==> EqualSignals(l, r)
  {
    equal := true;
    equal := equal && l.name == r.name;
    equal := equal && l.multiplexerIndicator == r.multiplexerIndicator;
    equal := equal && l.multiplexerSwitchValue == r.multiplexerSwitchValue;
    equal := equal && l.startBit == r.startBit;
    equal := equal && l.bitSize == r.bitSize;
    equal := equal && l.byteOrder == r.byteOrder;
    equal := equal && l.valueType == r.valueType;
    equal := equal && l.factor == r.factor;
    equal := equal && l.offset == r.offset;
    equal := equal && l.minimum == r.minimum;
    equal := equal && l.maximum == r.maximum;
    equal := equal && l.unit == r.unit;
    equal := FindEach(l.receivers, r.receivers, Same(), equal);
    equal := FindEach(l.attributeValues, r.attributeValues, Same(), equal);
    equal := FindEach(l.valueEncodingDescriptions, r.valueEncodingDescriptions, Same(), equal);
    equal := equal && l.comment == r.comment;
    equal := equal && l.extendedValueType == r.extendedValueType;
    equal := FindEach(l.signalMultiplexerValues, r.signalMultiplexerValues, EqualMultiplexerValues, equal);
  }

  method MessagesEqual(l: Message, r: Message) returns (equal: bool)
    ensures equal <==> EqualMessages(l, r)
  {
    equal := true;
    equal := equal && l.id == r.id;
    equal := equal && l.name == r.name;
    equal := equal && l.transmitter == r.transmitter;
    equal := FindEach(l.messageTransmitters, r.messageTransmitters, Same(), equal);
    equal := FindEach(l.signals, r.signals, EqualSignals, equal);
    equal := FindEach(l.attributeValues, r.attributeValues, Same(), equal);
    equal := equal && l.comment == r.comment;
    equal := FindEach(l.signalGroups, r.signalGroups, EqualGroups, equal);
  }

  //
  // A preorder at every level
  //

  lemma DefinitionsPreorder()
    ensures ReflexiveOn(EqualDefinitions) && TransitiveOn(EqualDefinitions)
  {
  }

  lemma MultiplexerValuesPreorder()
    ensures ReflexiveOn(EqualMultiplexerValues) && TransitiveOn(EqualMultiplexerValues)
  {
  }

  lemma GroupsPreorder()
    ensures ReflexiveOn(EqualGroups) && TransitiveOn(EqualGroups)
  {
  }

  lemma SignalsPreorder()
    ensures ReflexiveOn(EqualSignals) && TransitiveOn(EqualSignals)
  {
  }

  lemma MessagesPreorder()
    ensures ReflexiveOn(EqualMessages) && TransitiveOn(EqualMessages)
  {
  }

  lemma NodesPreorder()
    ensures ReflexiveOn(EqualNodes) && TransitiveOn(EqualNodes)
  {
  }

  lemma ValueTablesPreorder()
    ensures ReflexiveOn(EqualValueTables) && TransitiveOn(EqualValueTables)
  {
  }

  lemma EnvironmentVariablesPreorder()
    ensures ReflexiveOn(EqualEnvironmentVariables) && TransitiveOn(EqualEnvironmentVariables)
  {
  }

  lemma NetworkReflexive(n: Network)
    ensures EqualNetworks(n, n)
  {
  }

  lemma NetworkTransitive(a: Network, b: Network, c: Network)
    requires EqualNetworks(a, b) && EqualNetworks(b, c)
    ensures EqualNetworks(a, c)
  {
  }

  // Dropping the nodes keeps the comparison in one direction, and in the other one only when there were none.
  lemma NetworkComparisonIsOneWay(n: Network)
    ensures EqualNetworks(n, n.(nodes := []))
    ensures EqualNetworks(n.(nodes := []), n) <==> n.nodes == []
  {
    NetworkReflexive(n);
    if n.nodes != [] { assert !Has([], n.nodes[0], EqualNodes); }
  }

  //
  // What the comparison does not see
  //

  lemma NewSymbolsIgnored(n: Network, newSymbols: seq<string>)
    ensures EqualNetworks(n, n.(newSymbols := newSymbols)) && EqualNetworks(n.(newSymbols := newSymbols), n)
  {
    NetworkReflexive(n);
  }

  lemma MessageSizeIgnored(m: Message, messageSize: nat)
    ensures EqualMessages(m, m.(messageSize := messageSize)) && EqualMessages(m.(messageSize := messageSize), m)
  {
    MessagesPreorder();
    assert EqualMessages(m, m);
  }

  lemma MaximumIgnored(e: EnvironmentVariable, maximum: real)
    ensures EqualEnvironmentVariables(e, e.(maximum := maximum)) && EqualEnvironmentVariables(e.(maximum := maximum), e)
  {
    EnvironmentVariablesPreorder();
    assert EqualEnvironmentVariables(e, e);
  }

  lemma SignalTypeOrderIgnored(t: ValueTable, byteOrder: ByteOrder)
    requires t.signalType.Some?
    ensures var other := t.(signalType := Some(t.signalType.value.(byteOrder := byteOrder)));
            EqualValueTables(t, other) && EqualValueTables(other, t)
  {
    ValueTablesPreorder();
    assert EqualValueTables(t, t);
  }

  //
  // What it does see: every field that is not named here must be the same, and each list named must cover the other's
  //

  ghost predicate Covers<T>(xs: seq<T>, ys: seq<T>) {
    forall y | y in ys :: y in xs
  }

  ghost predicate CoversUpTo<T(!new)>(xs: seq<T>, ys: seq<T>, eq: (T, T) -> bool) {
    forall y | y in ys :: exists x :: x in xs && eq(x, y)
  }

  lemma CoversUpToIff<T(!new)>(xs: seq<T>, ys: seq<T>, eq: (T, T) -> bool)
    ensures HasAll(xs, ys, eq) <==> CoversUpTo(xs, ys, eq)
  {
    if HasAll(xs, ys, eq) {
      forall y | y in ys ensures exists x :: x in xs && eq(x, y) {
        var j :| 0 <= j < |ys| && ys[j] == y;
        assert Has(xs, ys[j], eq);
        var i :| 0 <= i < |xs| && eq(xs[i], ys[j]);
        assert xs[i] in xs;
      }
    }
    if CoversUpTo(xs, ys, eq) {
      forall j | 0 <= j < |ys| ensures Has(xs, ys[j], eq) {
        assert ys[j] in ys;
        var x :| x in xs && eq(x, ys[j]);
        var i :| 0 <= i < |xs| && xs[i] == x;
        assert eq(xs[i], ys[j]);
      }
    }
  }

  lemma CoversIff<T(!new)>(xs: seq<T>, ys: seq<T>)
    ensures HasAll(xs, ys, Same()) <==> Covers(xs, ys)
  {
    CoversUpToIff(xs, ys, Same());
    if CoversUpTo(xs, ys, Same()) {
      forall y | y in ys ensures y in xs {
        var x :| x in xs && Same()(x, y);
      }
    }
    if Covers(xs, ys) {
      forall y | y in ys ensures exists x :: x in xs && Same()(x, y) { assert y in xs && Same()(y, y); }
    }
  }

  lemma DefinitionsEqualIff(l: AttributeDefinition, r: AttributeDefinition)
    ensures EqualDefinitions(l, r)
            <==> l == r || (&& l == r.(valueType := l.valueType)
                            && l.valueType.Enumeration? && r.valueType.Enumeration?
                            && Covers(r.valueType.values, l.valueType.values))
  {
    if l.valueType.Enumeration? && r.valueType.Enumeration? { CoversIff(r.valueType.values, l.valueType.values); }
  }

  lemma MultiplexerValuesEqualIff(l: SignalMultiplexerValue, r: SignalMultiplexerValue)
    ensures EqualMultiplexerValues(l, r)
            <==> l == r.(valueRanges := l.valueRanges) && Covers(l.valueRanges, r.valueRanges)
  {
    CoversIff(l.valueRanges, r.valueRanges);
  }

  lemma GroupsEqualIff(l: SignalGroup, r: SignalGroup)
    ensures EqualGroups(l, r) <==> l == r.(signalNames := l.signalNames) && Covers(l.signalNames, r.signalNames)
  {
    CoversIff(l.signalNames, r.signalNames);
  }

  lemma SignalsEqualIff(l: Signal, r: Signal)
    ensures EqualSignals(l, r)
            <==> && l == r.(receivers := l.receivers, attributeValues := l.attributeValues,
                            valueEncodingDescriptions := l.valueEncodingDescriptions,
                            signalMultiplexerValues := l.signalMultiplexerValues)
                 && Covers(l.receivers, r.receivers) && Covers(l.attributeValues, r.attributeValues)
                 && Covers(l.valueEncodingDescriptions, r.valueEncodingDescriptions)
                 && CoversUpTo(l.signalMultiplexerValues, r.signalMultiplexerValues, EqualMultiplexerValues)
  {
    CoversIff(l.receivers, r.receivers);
    CoversIff(l.attributeValues, r.attributeValues);
    CoversIff(l.valueEncodingDescriptions, r.valueEncodingDescriptions);
    CoversUpToIff(l.signalMultiplexerValues, r.signalMultiplexerValues, EqualMultiplexerValues);
  }

  lemma MessagesEqualIff(l: Message, r: Message)
    ensures EqualMessages(l, r)
            <==> && l == r.(messageSize := l.messageSize, messageTransmitters := l.messageTransmitters,
                            signals := l.signals, attributeValues := l.attributeValues, signalGroups := l.signalGroups)
                 && Covers(l.messageTransmitters, r.messageTransmitters)
                 && CoversUpTo(l.signals, r.signals, EqualSignals)
                 && Covers(l.attributeValues, r.attributeValues)
                 && CoversUpTo(l.signalGroups, r.signalGroups, EqualGroups)
  {
    CoversIff(l.messageTransmitters, r.messageTransmitters);
    CoversUpToIff(l.signals, r.signals, EqualSignals);
    CoversIff(l.attributeValues, r.attributeValues);
    CoversUpToIff(l.signalGroups, r.signalGroups, EqualGroups);
  }

  lemma NodesEqualIff(l: Node, r: Node)
    ensures EqualNodes(l, r)
            <==> l == r.(attributeValues := l.attributeValues) && Covers(l.attributeValues, r.attributeValues)
  {
    CoversIff(l.attributeValues, r.attributeValues);
  }

  lemma ValueTablesEqualIff(l: ValueTable, r: ValueTable)
    ensures EqualValueTables(l, r)
            <==> && l.name == r.name && Covers(l.valueEncodingDescriptions, r.valueEncodingDescriptions)
                 && (l.signalType == r.signalType
                     || (l.signalType.Some? && r.signalType.Some?
                         && l.signalType.value == r.signalType.value.(byteOrder := l.signalType.value.byteOrder)))
  {
    CoversIff(l.valueEncodingDescriptions, r.valueEncodingDescriptions);
  }

  lemma EnvironmentVariablesEqualIff(l: EnvironmentVariable, r: EnvironmentVariable)
    ensures EqualEnvironmentVariables(l, r)
            <==> && l == r.(maximum := l.maximum, accessNodes := l.accessNodes,
                            valueEncodingDescriptions := l.valueEncodingDescriptions,
                            attributeValues := l.attributeValues)
                 && Covers(l.accessNodes, r.accessNodes)
                 && Covers(l.valueEncodingDescriptions, r.valueEncodingDescriptions)
                 && Covers(l.attributeValues, r.attributeValues)
  {
    CoversIff(l.accessNodes, r.accessNodes);
    CoversIff(l.valueEncodingDescriptions, r.valueEncodingDescriptions);
    CoversIff(l.attributeValues, r.attributeValues);
  }

  lemma NetworksEqualIff(l: Network, r: Network)
    ensures EqualNetworks(l, r)
            <==> && l == r.(newSymbols := l.newSymbols, nodes := l.nodes, valueTables := l.valueTables,
                            messages := l.messages, environmentVariables := l.environmentVariables,
                            attributeDefinitions := l.attributeDefinitions, attributeDefaults := l.attributeDefaults,
                            attributeValues := l.attributeValues)
                 && CoversUpTo(l.nodes, r.nodes, EqualNodes)
                 && CoversUpTo(l.valueTables, r.valueTables, EqualValueTables)
                 && CoversUpTo(l.messages, r.messages, EqualMessages)
                 && CoversUpTo(l.environmentVariables, r.environmentVariables, EqualEnvironmentVariables)
                 && CoversUpTo(l.attributeDefinitions, r.attributeDefinitions, EqualDefinitions)
                 && Covers(l.attributeDefaults, r.attributeDefaults)
                 && Covers(l.attributeValues, r.attributeValues)
  {
    CoversUpToIff(l.nodes, r.nodes, EqualNodes);
    CoversUpToIff(l.valueTables, r.valueTables, EqualValueTables);
    CoversUpToIff(l.messages, r.messages, EqualMessages);
    CoversUpToIff(l.environmentVariables, r.environmentVariables, EqualEnvironmentVariables);
    CoversUpToIff(l.attributeDefinitions, r.attributeDefinitions, EqualDefinitions);
    CoversIff(l.attributeDefaults, r.attributeDefaults);
    CoversIff(l.attributeValues, r.attributeValues);
  }

  // Two nodes compare equal in both directions exactly when they have the same name, comment and set of attributes,
  // whatever the order and the repetitions of these.
  lemma NodesMutuallyEqualIff(l: Node, r: Node)
    ensures EqualNodes(l, r) && EqualNodes(r, l)
            <==> l.name == r.name && l.comment == r.comment
                 && forall a :: a in l.attributeValues <==> a in r.attributeValues
  {
    NodesEqualIff(l, r);
    NodesEqualIff(r, l);
  }

  //
  // Merge
  //

  ghost function Merged(a: Network, b: Network): Network {
    Network(a.version, a.newSymbols + b.newSymbols, a.bitTiming, a.nodes + b.nodes, a.valueTables + b.valueTables,
            a.messages + b.messages, a.environmentVariables + b.environmentVariables,
            a.attributeDefinitions + b.attributeDefinitions, a.attributeDefaults + b.attributeDefaults,
            a.attributeValues + b.attributeValues, a.comment)
  }

  predicate SameHeader(a: Network, b: Network) {
    a.version == b.version && a.bitTiming == b.bitTiming && a.comment == b.comment
  }

  lemma PartsOfMerge(a: Network, b: Network)
    ensures ReflexiveOn(EqualNodes) && ReflexiveOn(EqualMessages)
    ensures var m := Merged(a, b);
            && HasAll(m.nodes, a.nodes, EqualNodes) && HasAll(m.nodes, b.nodes, EqualNodes)
            && HasAll(m.valueTables, a.valueTables, EqualValueTables)
            && HasAll(m.valueTables, b.valueTables, EqualValueTables)
            && HasAll(m.messages, a.messages, EqualMessages) && HasAll(m.messages, b.messages, EqualMessages)
            && HasAll(m.environmentVariables, a.environmentVariables, EqualEnvironmentVariables)
            && HasAll(m.environmentVariables, b.environmentVariables, EqualEnvironmentVariables)
            && HasAll(m.attributeDefinitions, a.attributeDefinitions, EqualDefinitions)
            && HasAll(m.attributeDefinitions, b.attributeDefinitions, EqualDefinitions)
            && HasAll(m.attributeDefaults, a.attributeDefaults, Same())
            && HasAll(m.attributeDefaults, b.attributeDefaults, Same())
            && HasAll(m.attributeValues, a.attributeValues, Same())
            && HasAll(m.attributeValues, b.attributeValues, Same())
  {
    HasAllOfParts(a.nodes, b.nodes, EqualNodes);
    HasAllOfParts(a.valueTables, b.valueTables, EqualValueTables);
    HasAllOfParts(a.messages, b.messages, EqualMessages);
    HasAllOfParts(a.environmentVariables, b.environmentVariables, EqualEnvironmentVariables);
    HasAllOfParts(a.attributeDefinitions, b.attributeDefinitions, EqualDefinitions);
    HasAllOfParts(a.attributeDefaults, b.attributeDefaults, Same());
    HasAllOfParts(a.attributeValues, b.attributeValues, Same());
  }

  // The merged network compares equal to what it was merged into, and to what was merged in exactly when the
  // two had the same version, bit timing and comment.
  lemma MergeIsUpperBound(a: Network, b: Network)
    ensures EqualNetworks(Merged(a, b), a)
    ensures EqualNetworks(Merged(a, b), b) <==> SameHeader(a, b)
  {
    PartsOfMerge(a, b);
  }

  // Whatever compares equal to both compares equal to their merge.
  lemma MergeIsLeast(a: Network, b: Network, c: Network)
    requires EqualNetworks(c, a) && EqualNetworks(c, b)
    ensures EqualNetworks(c, Merged(a, b))
  {
  }

  // Merging a network that is already covered changes nothing the comparison can see.
  lemma MergeAbsorbs(a: Network, b: Network)
    requires EqualNetworks(a, b)
    ensures EqualNetworks(a, Merged(a, b)) && EqualNetworks(Merged(a, b), a)
  {
    NetworkReflexive(a);
    MergeIsLeast(a, b, a);
    MergeIsUpperBound(a, b);
  }

  class NetworkImpl {
    var version: string
    var newSymbols: seq<string>
    var bitTiming: BitTiming
    var nodes: seq<Node>
    var valueTables: seq<ValueTable>
    var messages: seq<Message>
    var environmentVariables: seq<EnvironmentVariable>
    var attributeDefinitions: seq<AttributeDefinition>
    var attributeDefaults: seq<Attribute>
    var attributeValues: seq<Attribute>
    var comment: string

    ghost function Value(): Network
      reads this
    {
      Network(version, newSymbols, bitTiming, nodes, valueTables, messages, environmentVariables,
              attributeDefinitions, attributeDefaults, attributeValues, comment)
    }

    // Moves the elements of other, which is consumed, to the end of this network's lists.
    method Merge(other: NetworkImpl)
      requires other != this
      modifies this
      ensures Value() == Merged(old(Value()), old(other.Value()))
      ensures version == old(version) && bitTiming == old(bitTiming) && comment == old(comment)
      ensures newSymbols == old(newSymbols) + old(other.newSymbols) && nodes == old(nodes) + old(other.nodes)
      ensures valueTables == old(valueTables) + old(other.valueTables)
      ensures messages == old(messages) + old(other.messages)
      ensures environmentVariables == old(environmentVariables) + old(other.environmentVariables)
      ensures attributeDefinitions == old(attributeDefinitions) + old(other.attributeDefinitions)
      ensures attributeDefaults == old(attributeDefaults) + old(other.attributeDefaults)
      ensures attributeValues == old(attributeValues) + old(other.attributeValues)
    {
      MergeObjects(other);
      MergeAttributes(other);
    }

    method MergeObjects(other: NetworkImpl)
      requires other != this
      modifies this`newSymbols, this`nodes, this`valueTables, this`messages, this`environmentVariables
      ensures newSymbols == old(newSymbols) + other.newSymbols && nodes == old(nodes) + other.nodes
      ensures valueTables == old(valueTables) + other.valueTables && messages == old(messages) + other.messages
      ensures environmentVariables == old(environmentVariables) + other.environmentVariables
    {
      newSymbols := PushAll(newSymbols, other.newSymbols);
      nodes := PushAll(nodes, other.nodes);
      valueTables := PushAll(valueTables, other.valueTables);
      messages := PushAll(messages, other.messages);
      environmentVariables := PushAll(environmentVariables, other.environmentVariables);
    }

    method MergeAttributes(other: NetworkImpl)
      requires other != this
      modifies this`attributeDefinitions, this`attributeDefaults, this`attributeValues
      ensures attributeDefinitions == old(attributeDefinitions) + other.attributeDefinitions
      ensures attributeDefaults == old(attributeDefaults) + other.attributeDefaults
      ensures attributeValues == old(attributeValues) + other.attributeValues
    {
      attributeDefinitions := PushAll(attributeDefinitions, other.attributeDefinitions);
      attributeDefaults := PushAll(attributeDefaults, other.attributeDefaults);
      attributeValues := PushAll(attributeValues, other.attributeValues);
    }

    // operator==
    method Equals(rhs: NetworkImpl) returns (equal: bool)
      ensures equal <==> EqualNetworks(Value(), rhs.Value())
    {
      equal := true;
      equal := equal && version == rhs.version;
      equal := FindEach(newSymbols, newSymbols, Same(), equal);
      equal := equal && bitTiming == rhs.bitTiming;
      equal := FindEach(nodes, rhs.nodes, EqualNodes, equal);
      equal := FindEach(valueTables, rhs.valueTables, EqualValueTables, equal);
      equal := FindEach(messages, rhs.messages, EqualMessages, equal);
      equal := FindEach(environmentVariables, rhs.environmentVariables, EqualEnvironmentVariables, equal);
      equal := FindEach(attributeDefinitions, rhs.attributeDefinitions, EqualDefinitions, equal);
      equal := FindEach(attributeDefaults, rhs.attributeDefaults, Same(), equal);
      equal := FindEach(attributeValues, rhs.attributeValues, Same(), equal);
      equal := equal && comment == rhs.comment;
    }
  }

  method PushAll<T>(xs: seq<T>, ys: seq<T>) returns (all: seq<T>)
    ensures all == xs + ys
  {
    all := xs;
    for i := 0 to |ys|
      invariant all == xs + ys[..i]
    {
      all := all + [ys[i]];
    }
  }
}
