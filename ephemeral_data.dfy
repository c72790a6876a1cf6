/** The value types the ephemeral store works on, and the attribute
    encoder a store delegates to. */
module EphemeralData {
  import opened Wrappers

  /** An attribute name, with an optional dynamic part for attributes that
      have one instance per device, session and so on. */
  datatype Key = Key(name: string, dynamicComponent: Option<string>)

  /** The entity a key is scoped to (an account, a server, ...); only its
      identity matters here. */
  datatype Location = Location(coordinates: seq<string>)

  /** A write intent: a key, one value, and an optional expiration instant. */
  datatype Input = Input(key: Key, value: string, expiration: Option<int>)

  /** What decoding one raw backend record yields. */
  datatype KeyValuePair = KeyValuePair(key: Key, value: string)

  /** The outcome of a read: every value the key holds, possibly none. */
  datatype EphemeralResult = EphemeralResult(key: Key, values: set<string>)
  {
    predicate IsEmpty() { values == {} }
  }

  /** Translation between (key, location, value) and a backend's flat strings. */
  datatype AttributeEncoder = AttributeEncoder(
    encodeKey: (Key, Location) -> string,
    encodeValue: (Input, Location) -> string,
    decode: (string, string) -> KeyValuePair)

  /** The encoder law: decoding an encoded record gives back the key and the
      value (the location is implied by where the record was read). */
  ghost predicate Lawful(e: AttributeEncoder)
  {
    forall i: Input, l: Location ::
      e.decode(e.encodeKey(i.key, l), e.encodeValue(i, l)) == KeyValuePair(i.key, i.value)
  }
}
