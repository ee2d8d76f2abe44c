// Values shared by the parsed file and the network built from it.
module DbcTypes {

  datatype Option<+T> = None | Some(value: T)

  datatype AttributeValue = IntValue(i: int) | DoubleValue(d: real) | StringValue(s: string)

  datatype ValueEncodingDescription = ValueEncodingDescription(value: int, description: string)

  datatype Multiplexer = NoMux | MuxSwitch | MuxValue
}
