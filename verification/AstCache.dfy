// Building a network from a parsed file: the cache of attributes, comments and value descriptions, and
// the readers that fill in nodes, messages, signals and environment variables from it.
module AstCache {

  import opened DbcTypes

  //
  // The parsed lists
  //

  datatype AttributeEntry =
    | AttributeNetwork(name: string, value: AttributeValue)
    | AttributeNode(name: string, node: string, value: AttributeValue)
    | AttributeMessage(name: string, messageId: nat, value: AttributeValue)
    | AttributeSignal(name: string, messageId: nat, signal: string, value: AttributeValue)
    | AttributeEnvVar(name: string, envVar: string, value: AttributeValue)

  datatype CommentEntry =
    | CommentNetwork(text: string)
    | CommentNode(node: string, text: string)
    | CommentMessage(messageId: nat, text: string)
    | CommentSignal(messageId: nat, signal: string, text: string)
    | CommentEnvVar(envVar: string, text: string)

  datatype DescriptionEntry =
    | DescriptionSignal(messageId: nat, signal: string, values: seq<ValueEncodingDescription>)
    | DescriptionEnvVar(envVar: string, values: seq<ValueEncodingDescription>)

  datatype Parsed = Parsed(attributeValues: seq<AttributeEntry>,
                           valueDescriptions: seq<DescriptionEntry>,
                           comments: seq<CommentEntry>)

  // What an entry of one of the lists is attached to.
  datatype Owner = Network | Node(node: string) | Message(id: nat) | Signal(message: nat, signal: string)
                 | EnvVar(envVar: string)

  function AttributeOwner(a: AttributeEntry): Owner {
    match a
    case AttributeNetwork(_, _) => Network
    case AttributeNode(_, n, _) => Node(n)
    case AttributeMessage(_, m, _) => Message(m)
    case AttributeSignal(_, m, s, _) => Signal(m, s)
    case AttributeEnvVar(_, e, _) => EnvVar(e)
  }

  function CommentOwner(c: CommentEntry): Owner {
    match c
    case CommentNetwork(_) => Network
    case CommentNode(n, _) => Node(n)
    case CommentMessage(m, _) => Message(m)
    case CommentSignal(m, s, _) => Signal(m, s)
    case CommentEnvVar(e, _) => EnvVar(e)
  }

  function DescriptionOwner(d: DescriptionEntry): Owner {
    match d
    case DescriptionSignal(m, s, _) => Signal(m, s)
    case DescriptionEnvVar(e, _) => EnvVar(e)
  }

  // An entry belongs to the owner that its own keys name: a signal entry to the signal of that name in that message.
  lemma AttributeKeys(a: AttributeEntry)
    ensures AttributeOwner(a) == Network <==> a.AttributeNetwork?
    ensures forall n :: AttributeOwner(a) == Node(n) <==> a.AttributeNode? && a.node == n
    ensures forall m :: AttributeOwner(a) == Message(m) <==> a.AttributeMessage? && a.messageId == m
    ensures forall m, s ::
              AttributeOwner(a) == Signal(m, s) <==> a.AttributeSignal? && a.messageId == m && a.signal == s
    ensures forall e :: AttributeOwner(a) == EnvVar(e) <==> a.AttributeEnvVar? && a.envVar == e
  {
  }

  lemma CommentKeys(c: CommentEntry)
    ensures CommentOwner(c) == Network <==> c.CommentNetwork?
    ensures forall n :: CommentOwner(c) == Node(n) <==> c.CommentNode? && c.node == n
    ensures forall m :: CommentOwner(c) == Message(m) <==> c.CommentMessage? && c.messageId == m
    ensures forall m, s :: CommentOwner(c) == Signal(m, s) <==> c.CommentSignal? && c.messageId == m && c.signal == s
    ensures forall e :: CommentOwner(c) == EnvVar(e) <==> c.CommentEnvVar? && c.envVar == e
  {
  }

  lemma DescriptionKeys(d: DescriptionEntry)
    ensures forall m, s ::
              DescriptionOwner(d) == Signal(m, s) <==> d.DescriptionSignal? && d.messageId == m && d.signal == s
    ensures forall e :: DescriptionOwner(d) == EnvVar(e) <==> d.DescriptionEnvVar? && d.envVar == e
  {
  }

  //
  // Plain scans
  //

  // The entries of o, in the order of the list.
  ghost function Matching<T>(entries: seq<T>, owner: T -> Owner, o: Owner): seq<T> {
    if entries == [] then []
    else
      var last := entries[|entries| - 1];
      Matching(entries[..|entries| - 1], owner, o) + (if owner(last) == o then [last] else [])
  }

  ghost function LastMatching<T>(entries: seq<T>, owner: T -> Owner, o: Owner): Option<T> {
    if entries == [] then None
    else
      var last := entries[|entries| - 1];
      if owner(last) == o then Some(last) else LastMatching(entries[..|entries| - 1], owner, o)
  }

  lemma {:induction false} LastMatchingMeaning<T>(entries: seq<T>, owner: T -> Owner, o: Owner)
    ensures match LastMatching(entries, owner, o)
            case None => forall i | 0 <= i < |entries| :: owner(entries[i]) != o
            case Some(e) => exists i :: 0 <= i < |entries| && entries[i] == e && owner(e) == o
                                        && forall j | i < j < |entries| :: owner(entries[j]) != o
  {
    if entries == [] {
    } else {
      var n := |entries| - 1;
      if owner(entries[n]) != o {
        LastMatchingMeaning(entries[..n], owner, o);
      }
    }
  }

  lemma {:induction false} MatchingOwned<T>(entries: seq<T>, owner: T -> Owner, o: Owner)
    ensures forall e | e in Matching(entries, owner, o) :: owner(e) == o && e in entries
    ensures forall e | e in entries && owner(e) == o :: e in Matching(entries, owner, o)
    ensures |Matching(entries, owner, o)| <= |entries|
  {
    if entries == [] {
    } else {
      MatchingOwned(entries[..|entries| - 1], owner, o);
    }
  }

  // The positions of the entries of o: ascending, and none missing.
  ghost predicate Positions<T>(ps: seq<nat>, entries: seq<T>, owner: T -> Owner, o: Owner) {
    && (forall k | 0 <= k < |ps| :: ps[k] < |entries| && owner(entries[ps[k]]) == o)
    && (forall j, k | 0 <= j < k < |ps| :: ps[j] < ps[k])
    && (forall i: nat | i < |entries| && owner(entries[i]) == o :: i in ps)
  }

  ghost function PositionsOf<T>(entries: seq<T>, owner: T -> Owner, o: Owner): seq<nat> {
    if entries == [] then []
    else
      var n := |entries| - 1;
      PositionsOf(entries[..n], owner, o) + (if owner(entries[n]) == o then [n] else [])
  }

  lemma {:induction false} AllPositions<T>(entries: seq<T>, owner: T -> Owner, o: Owner)
    ensures Positions(PositionsOf(entries, owner, o), entries, owner, o)
  {
    if entries == [] {
    } else {
      var init := entries[..|entries| - 1];
      AllPositions(init, owner, o);
      OnePositionMore(PositionsOf(init, owner, o), PositionsOf(entries, owner, o), init, entries, owner, o);
    }
  }

  // The scan gives the entry at each of these positions, in that order.
  lemma {:induction false} MatchingInOrder<T>(entries: seq<T>, owner: T -> Owner, o: Owner, k: nat)
    ensures |Matching(entries, owner, o)| == |PositionsOf(entries, owner, o)|
    ensures k < |PositionsOf(entries, owner, o)| ==>
              PositionsOf(entries, owner, o)[k] < |entries|
              && Matching(entries, owner, o)[k] == entries[PositionsOf(entries, owner, o)[k]]
  {
    if entries == [] {
    } else {
      var n := |entries| - 1;
      MatchingInOrder(entries[..n], owner, o, k);
    }
  }

  lemma {:induction false} OnePositionMore<T>(ps: seq<nat>, qs: seq<nat>, init: seq<T>, entries: seq<T>,
                                              owner: T -> Owner, o: Owner)
    requires Positions(ps, init, owner, o) && entries != [] && init == entries[..|entries| - 1]
    requires qs == ps + if owner(entries[|init|]) == o then [|init|] else []
    ensures Positions(qs, entries, owner, o)
  {
    forall i: nat | i < |entries| && owner(entries[i]) == o ensures i in qs {
      if i < |init| { assert init[i] == entries[i] && i in ps; } else { assert qs[|ps|] == i; }
    }
  }

  //
  // The cache
  //

  datatype SignalCache = SignalCache(attributes: seq<AttributeEntry>, description: Option<DescriptionEntry>,
                                     comment: Option<CommentEntry>)
  datatype MessageCache = MessageCache(signals: map<string, SignalCache>, attributes: seq<AttributeEntry>,
                                       comment: Option<CommentEntry>)
  datatype EnvVarCache = EnvVarCache(attributes: seq<AttributeEntry>, description: Option<DescriptionEntry>,
                                     comment: Option<CommentEntry>)
  datatype NodeCache = NodeCache(attributes: seq<AttributeEntry>, comment: Option<CommentEntry>)

  const NO_SIGNAL := SignalCache([], None, None)
  const NO_MESSAGE := MessageCache(map[], [], None)
  const NO_ENV_VAR := EnvVarCache([], None, None)
  const NO_NODE := NodeCache([], None)

  datatype Attribute = Attribute(name: string, owner: Owner, value: AttributeValue)

  // boost::get of the alternative that belongs to the kind of o; it throws on any other one.
  function GetAttribute(a: AttributeEntry, o: Owner): Attribute
    requires SameKind(AttributeOwner(a), o)
  {
    Attribute(a.name, o, a.value)
  }

  function GetComment(c: CommentEntry, o: Owner): string
    requires SameKind(CommentOwner(c), o)
  {
    c.text
  }

  function GetDescription(d: DescriptionEntry, o: Owner): seq<ValueEncodingDescription>
    requires SameKind(DescriptionOwner(d), o)
  {
    d.values
  }

  predicate SameKind(a: Owner, b: Owner) {
    match a
    case Network => b.Network?
    case Node(_) => b.Node?
    case Message(_) => b.Message?
    case Signal(_, _) => b.Signal?
    case EnvVar(_) => b.EnvVar?
  }

  class Cache {
    var networkAttributes: seq<AttributeEntry>
    var networkComment: Option<CommentEntry>
    var envVars: map<string, EnvVarCache>
    var nodes: map<string, NodeCache>
    var messages: map<nat, MessageCache>

    //
    // Look-ups through the nested maps
    //

    function Attributes(o: Owner): seq<AttributeEntry>
      reads this
    {
      match o
      case Network => networkAttributes
      case Node(n) => if n in nodes then nodes[n].attributes else []
      case Message(m) => if m in messages then messages[m].attributes else []
      case Signal(m, s) =>
        if m in messages && s in messages[m].signals then messages[m].signals[s].attributes else []
      case EnvVar(e) => if e in envVars then envVars[e].attributes else []
    }

    function Comment(o: Owner): Option<CommentEntry>
      reads this
    {
      match o
      case Network => networkComment
      case Node(n) => if n in nodes then nodes[n].comment else None
      case Message(m) => if m in messages then messages[m].comment else None
      case Signal(m, s) =>
        if m in messages && s in messages[m].signals then messages[m].signals[s].comment else None
      case EnvVar(e) => if e in envVars then envVars[e].comment else None
    }

    function Description(o: Owner): Option<DescriptionEntry>
      reads this
    {
      match o
      case Signal(m, s) =>
        if m in messages && s in messages[m].signals then messages[m].signals[s].description else None
      case EnvVar(e) => if e in envVars then envVars[e].description else None
      case _ => None
    }

    // The cache says of every owner what plain scans of the lists read so far say.
    ghost predicate Holds(attributes: seq<AttributeEntry>, descriptions: seq<DescriptionEntry>,
                          comments: seq<CommentEntry>)
      reads this
    {
      && (forall o :: Attributes(o) == Matching(attributes, AttributeOwner, o))
      && (forall o :: Description(o) == LastMatching(descriptions, DescriptionOwner, o))
      && (forall o :: Comment(o) == LastMatching(comments, CommentOwner, o))
    }

    // Every cached entry has the key it is stored under, so the alternative its reader extracts.
    ghost predicate WellKeyed()
      reads this
    {
      && (forall o, a | a in Attributes(o) :: AttributeOwner(a) == o)
      && (forall o | Description(o).Some? :: DescriptionOwner(Description(o).value) == o)
      && (forall o | Comment(o).Some? :: CommentOwner(Comment(o).value) == o)
    }

    lemma HoldsIsWellKeyed(attributes: seq<AttributeEntry>, descriptions: seq<DescriptionEntry>,
                           comments: seq<CommentEntry>)
      requires Holds(attributes, descriptions, comments)
      ensures WellKeyed()
    {
      forall o, a | a in Attributes(o) ensures AttributeOwner(a) == o {
        MatchingOwned(attributes, AttributeOwner, o);
      }
      forall o | Description(o).Some? ensures DescriptionOwner(Description(o).value) == o {
        LastMatchingMeaning(descriptions, DescriptionOwner, o);
      }
      forall o | Comment(o).Some? ensures CommentOwner(Comment(o).value) == o {
        LastMatchingMeaning(comments, CommentOwner, o);
      }
    }

    //
    // One round of each building loop
    //

    method EnsureMessage(m: nat)
      modifies this`messages
      ensures m in messages
      ensures forall o :: Attributes(o) == old(Attributes(o)) && Comment(o) == old(Comment(o))
                          && Description(o) == old(Description(o))
    {
      if m !in messages {
        messages := messages[m := NO_MESSAGE];
      }
    }

    method EnsureSignal(m: nat, s: string)
      modifies this`messages
      ensures m in messages && s in messages[m].signals
      ensures forall o :: Attributes(o) == old(Attributes(o)) && Comment(o) == old(Comment(o))
                          && Description(o) == old(Description(o))
    {
      EnsureMessage(m);
      if s !in messages[m].signals {
        messages := messages[m := messages[m].(signals := messages[m].signals[s := NO_SIGNAL])];
      }
    }

    method EnsureNode(n: string)
      modifies this`nodes
      ensures n in nodes
      ensures forall o :: Attributes(o) == old(Attributes(o)) && Comment(o) == old(Comment(o))
                          && Description(o) == old(Description(o))
    {
      if n !in nodes {
        nodes := nodes[n := NO_NODE];
      }
    }

    method EnsureEnvVar(e: string)
      modifies this`envVars
      ensures e in envVars
      ensures forall o :: Attributes(o) == old(Attributes(o)) && Comment(o) == old(Comment(o))
                          && Description(o) == old(Description(o))
    {
      if e !in envVars {
        envVars := envVars[e := NO_ENV_VAR];
      }
    }

    method UpdateSignal(m: nat, s: string, c: SignalCache)
      requires m in messages && s in messages[m].signals
      modifies this`messages
      ensures messages == old(messages[m := messages[m].(signals := messages[m].signals[s := c])])
    {
      messages := messages[m := messages[m].(signals := messages[m].signals[s := c])];
    }

    method AddAttribute(a: AttributeEntry)
      modifies this
      ensures forall o ::
                Attributes(o) == if o == AttributeOwner(a) then old(Attributes(o)) + [a] else old(Attributes(o))
      ensures forall o :: Comment(o) == old(Comment(o)) && Description(o) == old(Description(o))
    {
      match a {
        case AttributeNetwork(_, _) =>
          networkAttributes := networkAttributes + [a];
        case AttributeNode(_, n, _) =>
          EnsureNode(n);
          nodes := nodes[n := nodes[n].(attributes := nodes[n].attributes + [a])];
        case AttributeMessage(_, m, _) =>
          EnsureMessage(m);
          messages := messages[m := messages[m].(attributes := messages[m].attributes + [a])];
        case AttributeSignal(_, m, s, _) =>
          EnsureSignal(m, s);
          var c := messages[m].signals[s];
          UpdateSignal(m, s, c.(attributes := c.attributes + [a]));
        case AttributeEnvVar(_, e, _) =>
          EnsureEnvVar(e);
          envVars := envVars[e := envVars[e].(attributes := envVars[e].attributes + [a])];
      }
    }

    method AddDescription(d: DescriptionEntry)
      modifies this
      ensures forall o :: Description(o) == if o == DescriptionOwner(d) then Some(d) else old(Description(o))
      ensures forall o :: Attributes(o) == old(Attributes(o)) && Comment(o) == old(Comment(o))
    {
      match d {
        case DescriptionSignal(m, s, _) =>
          EnsureSignal(m, s);
          UpdateSignal(m, s, messages[m].signals[s].(description := Some(d)));
        case DescriptionEnvVar(e, _) =>
          EnsureEnvVar(e);
          envVars := envVars[e := envVars[e].(description := Some(d))];
      }
    }

    method AddComment(c: CommentEntry)
      modifies this
      ensures forall o :: Comment(o) == if o == CommentOwner(c) then Some(c) else old(Comment(o))
      ensures forall o :: Attributes(o) == old(Attributes(o)) && Description(o) == old(Description(o))
    {
      match c {
        case CommentNetwork(_) =>
          networkComment := Some(c);
        case CommentNode(n, _) =>
          EnsureNode(n);
          nodes := nodes[n := nodes[n].(comment := Some(c))];
        case CommentMessage(m, _) =>
          EnsureMessage(m);
          messages := messages[m := messages[m].(comment := Some(c))];
        case CommentSignal(m, s, _) =>
          EnsureSignal(m, s);
          UpdateSignal(m, s, messages[m].signals[s].(comment := Some(c)));
        case CommentEnvVar(e, _) =>
          EnsureEnvVar(e);
          envVars := envVars[e := envVars[e].(comment := Some(c))];
      }
    }

    //
    // The three building loops
    //

    constructor Build(net: Parsed)
      ensures Holds(net.attributeValues, net.valueDescriptions, net.comments) && WellKeyed()
    {
      networkAttributes, networkComment := [], None;
      envVars, nodes, messages := map[], map[], map[];
      new;
      Fill(net);
      HoldsIsWellKeyed(net.attributeValues, net.valueDescriptions, net.comments);
    }

    method Fill(net: Parsed)
      requires Holds([], [], [])
      modifies this
      ensures Holds(net.attributeValues, net.valueDescriptions, net.comments)
    {
      for i := 0 to |net.attributeValues|
        invariant Holds(net.attributeValues[..i], [], [])
      {
        AddAttribute(net.attributeValues[i]);
        assert net.attributeValues[..i + 1][..i] == net.attributeValues[..i];
      }
      assert net.attributeValues[..|net.attributeValues|] == net.attributeValues;
      for i := 0 to |net.valueDescriptions|
        invariant Holds(net.attributeValues, net.valueDescriptions[..i], [])
      {
        AddDescription(net.valueDescriptions[i]);
        assert net.valueDescriptions[..i + 1][..i] == net.valueDescriptions[..i];
      }
      assert net.valueDescriptions[..|net.valueDescriptions|] == net.valueDescriptions;
      for i := 0 to |net.comments|
        invariant Holds(net.attributeValues, net.valueDescriptions, net.comments[..i])
      {
        AddComment(net.comments[i]);
        assert net.comments[..i + 1][..i] == net.comments[..i];
      }
      assert net.comments[..|net.comments|] == net.comments;
    }

    //
    // The readers
    //

    method GetAttributeValues(o: Owner) returns (values: seq<Attribute>)
      requires WellKeyed()
      ensures |values| == |Attributes(o)|
      ensures forall i | 0 <= i < |values| :: values[i] == Attribute(Attributes(o)[i].name, o, Attributes(o)[i].value)
    {
      values := [];
      var entries := Attributes(o);
      for i := 0 to |entries|
        invariant |values| == i
        invariant forall j | 0 <= j < i :: values[j] == Attribute(entries[j].name, o, entries[j].value)
      {
        assert entries[i] in entries;
        values := values + [GetAttribute(entries[i], o)];
      }
    }

    method ReadComment(o: Owner) returns (comment: string)
      requires WellKeyed()
      ensures comment == if Comment(o).Some? then Comment(o).value.text else ""
    {
      comment := "";
      if Comment(o).Some? {
        comment := GetComment(Comment(o).value, o);
      }
    }

    method GetValueDescriptions(o: Owner) returns (values: seq<ValueEncodingDescription>)
      requires WellKeyed()
      ensures values == if Description(o).Some? then Description(o).value.values else []
    {
      values := [];
      if Description(o).Some? {
        var entries := GetDescription(Description(o).value, o);
        for i := 0 to |entries|
          invariant values == entries[..i]
        {
          values := values + [entries[i]];
        }
      }
    }
  }

  // What the readers of a built cache give for an owner, said by plain scans of the parsed lists.
  datatype Described = Described(attributes: seq<Attribute>, comment: string, values: seq<ValueEncodingDescription>)

  ghost function Scan(net: Parsed, o: Owner): Described {
    var entries := Matching(net.attributeValues, AttributeOwner, o);
    var comment := LastMatching(net.comments, CommentOwner, o);
    var description := LastMatching(net.valueDescriptions, DescriptionOwner, o);
    Described(seq(|entries|, i requires 0 <= i < |entries| => Attribute(entries[i].name, o, entries[i].value)),
              if comment.Some? then comment.value.text else "",
              if description.Some? then description.value.values else [])
  }

  // What is loaded for o: an attribute for each of its entries in the order of the list, and the text and the
  // values of its last comment and description, if there are any.
  ghost predicate Describes(net: Parsed, o: Owner, d: Described) {
    && (exists ps: seq<nat> ::
          Positions(ps, net.attributeValues, AttributeOwner, o) && AttributesAt(ps, net, o, d.attributes))
    && (forall i | IsLast(i, net.comments, CommentOwner, o) :: d.comment == net.comments[i].text)
    && (IsAbsent(net.comments, CommentOwner, o) ==> d.comment == "")
    && (forall i | IsLast(i, net.valueDescriptions, DescriptionOwner, o) :: d.values == net.valueDescriptions[i].values)
    && (IsAbsent(net.valueDescriptions, DescriptionOwner, o) ==> d.values == [])
  }

  ghost predicate AttributesAt(ps: seq<nat>, net: Parsed, o: Owner, attributes: seq<Attribute>) {
    && |attributes| == |ps|
    && forall k | 0 <= k < |ps| ::
         ps[k] < |net.attributeValues|
         && attributes[k] == Attribute(net.attributeValues[ps[k]].name, o, net.attributeValues[ps[k]].value)
  }

  ghost predicate IsLast<T>(i: int, entries: seq<T>, owner: T -> Owner, o: Owner) {
    0 <= i < |entries| && owner(entries[i]) == o && forall j | i < j < |entries| :: owner(entries[j]) != o
  }

  ghost predicate IsAbsent<T>(entries: seq<T>, owner: T -> Owner, o: Owner) {
    forall j | 0 <= j < |entries| :: owner(entries[j]) != o
  }

  lemma ScanDescribes(net: Parsed, o: Owner)
    ensures Describes(net, o, Scan(net, o))
  {
    AllPositions(net.attributeValues, AttributeOwner, o);
    AttributesDescribed(net, o);
    LastDescribed(net.comments, CommentOwner, o);
    LastDescribed(net.valueDescriptions, DescriptionOwner, o);
  }

  lemma {:induction false} AttributesDescribed(net: Parsed, o: Owner)
    ensures AttributesAt(PositionsOf(net.attributeValues, AttributeOwner, o), net, o, Scan(net, o).attributes)
  {
    var entries, ps := net.attributeValues, PositionsOf(net.attributeValues, AttributeOwner, o);
    MatchingInOrder(entries, AttributeOwner, o, 0);
    forall k: nat | k < |ps|
      ensures ps[k] < |entries| && Scan(net, o).attributes[k] == Attribute(entries[ps[k]].name, o, entries[ps[k]].value)
    {
      OneDescribed(net, o, k);
    }
  }

  lemma {:induction false} OneDescribed(net: Parsed, o: Owner, k: nat)
    requires k < |PositionsOf(net.attributeValues, AttributeOwner, o)|
    ensures k < |Scan(net, o).attributes|
    ensures var i := PositionsOf(net.attributeValues, AttributeOwner, o)[k];
            i < |net.attributeValues|
            && Scan(net, o).attributes[k] == Attribute(net.attributeValues[i].name, o, net.attributeValues[i].value)
  {
    MatchingInOrder(net.attributeValues, AttributeOwner, o, k);
  }

  lemma LastDescribed<T>(entries: seq<T>, owner: T -> Owner, o: Owner)
    ensures IsAbsent(entries, owner, o) <==> LastMatching(entries, owner, o).None?
    ensures forall i | IsLast(i, entries, owner, o) :: LastMatching(entries, owner, o) == Some(entries[i])
  {
    LastMatchingMeaning(entries, owner, o);
  }

  ghost predicate AllDescribed(net: Parsed, owners: seq<Owner>, loaded: seq<Described>) {
    |loaded| == |owners| && forall i | 0 <= i < |owners| :: Describes(net, owners[i], loaded[i])
  }

  lemma OneMoreDescribed(net: Parsed, owners: seq<Owner>, i: nat, loaded: seq<Described>, one: Described)
    requires i < |owners| && AllDescribed(net, owners[..i], loaded) && Describes(net, owners[i], one)
    ensures AllDescribed(net, owners[..i + 1], loaded + [one])
  {
  }

  // Builds the cache, then reads every given node, message, signal and environment variable from it.
  method Load(net: Parsed, owners: seq<Owner>) returns (loaded: seq<Described>)
    ensures AllDescribed(net, owners, loaded)
  {
    var cache := new Cache.Build(net);
    loaded := LoadEach(net, cache, owners);
  }

  method LoadEach(net: Parsed, cache: Cache, owners: seq<Owner>) returns (loaded: seq<Described>)
    requires cache.Holds(net.attributeValues, net.valueDescriptions, net.comments)
    ensures AllDescribed(net, owners, loaded)
  {
    loaded := [];
    for i := 0 to |owners|
      invariant cache.Holds(net.attributeValues, net.valueDescriptions, net.comments)
      invariant AllDescribed(net, owners[..i], loaded)
    {
      var one := LoadOne(net, cache, owners[i]);
      OneMoreDescribed(net, owners, i, loaded, one);
      loaded := loaded + [one];
    }
    assert owners[..|owners|] == owners;
  }

  // What the readers of a node, a message, a signal or an environment variable get from the cache.
  method LoadOne(net: Parsed, cache: Cache, o: Owner) returns (one: Described)
    requires cache.Holds(net.attributeValues, net.valueDescriptions, net.comments)
    ensures Describes(net, o, one)
  {
    cache.HoldsIsWellKeyed(net.attributeValues, net.valueDescriptions, net.comments);
    var attributes := cache.GetAttributeValues(o);
    var comment := cache.ReadComment(o);
    var values := cache.GetValueDescriptions(o);
    one := Described(attributes, comment, values);
    assert attributes == Scan(net, o).attributes;
    ScanDescribes(net, o);
  }
}
