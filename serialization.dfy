/// The serializer indirection. The core treats application state as an opaque
/// document and the encoding format as a plug-in; the codec itself is not part
/// of this model, so a serializer is given by its four conversions, each of
/// which may fail with a serialization error.
module Serialization {
  import opened Errors
  import opened Storage

  /** One value of a persisted document: scalars, sequences and nested mappings. */
  datatype Value =
    | Null
    | Boolean(b: bool)
    | Integer(i: int)
    | Text(s: string)
    | Sequence(items: seq<Value>)
    | Mapping(entries: map<string, Value>)

  /** One persisted document. */
  datatype State = State(entries: map<string, Value>)

  /** The serializer of a persistence system, fixed for its lifetime.
      `encodeState`/`decodeState` convert standalone documents;
      `encode` converts the content of an object with the save capability;
      `decode` gives the new content of an object with the load capability,
      from the bytes read and the object's content before loading. */
  datatype Serializer = Serializer(
    encodeState: State -> Result<Bytes>,
    decodeState: Bytes -> Result<State>,
    encode: State -> Result<Bytes>,
    decode: (Bytes, State) -> Result<State>)

  /** The codec's round-trip promise for one document: whatever `encodeState`
      produces for it, `decodeState` turns back into it. The core only relies
      on this as an assumption about the chosen backend. */
  predicate RoundTrips(ser: Serializer, state: State)
  {
    ser.encodeState(state).Ok? ==> ser.decodeState(ser.encodeState(state).value) == Ok(state)
  }

  /** An application object implementing the save and load capabilities;
      its observable content is a document. */
  class Record {
    var contents: State

    constructor (contents: State)
      ensures this.contents == contents
    {
      this.contents := contents;
    }
  }
}
