/** The object codec of the facade: serialization reduced to wrapping the
    value, deserialization reduced to its readability and type checks. */
module Codec {
  import opened Model

  /** What the store holds under a key: the serialized form of a value, or
      bytes that do not read back as an object. */
  datatype Payload = Serialized(value: Value) | Unreadable

  /** The payload `serializeObject` produces; it keeps every field. */
  function Serialize(v: Value): Payload
  {
    Serialized(v)
  }

  /** True when `p` reads back as an instance of `t`. */
  predicate DecodesAs(p: Payload, t: TypeTag)
  {
    p.Serialized? && TagOf(p.value) == t
  }

  /** `deserializeObject(bytes, type)`: an unreadable payload is an I/O
      error, an object of another class an IllegalArgumentException. */
  function Deserialize(p: Payload, t: TypeTag): (r: Result<Value, Exception>)
    ensures r.Success? <==> DecodesAs(p, t)
    ensures r.Success? ==> p == Serialized(r.value) && TagOf(r.value) == t
    ensures p.Unreadable? ==> r == Failure(UnreadableStream)
    ensures p.Serialized? && TagOf(p.value) != t ==> r == Failure(IllegalArgument(t))
  {
    match p
    case Unreadable => Failure(UnreadableStream)
    case Serialized(o) => if TagOf(o) == t then Success(o) else Failure(IllegalArgument(t))
  }

  /** Decoding a serialized value as its own class gives it back, field by field. */
  lemma RoundTrip(v: Value)
    ensures Deserialize(Serialize(v), TagOf(v)) == Success(v)
  {
  }

  /** Decoding as any other class raises IllegalArgumentException. */
  lemma WrongClassRejected(v: Value, t: TypeTag)
    requires t != TagOf(v)
    ensures Deserialize(Serialize(v), t) == Failure(IllegalArgument(t))
  {
  }
}
