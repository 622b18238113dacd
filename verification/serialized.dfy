/** `Serialized<T>`: a value next to its Java serialization bytes. Two of them are
    equal exactly when both have bytes and the bytes agree; the values are never
    compared. */
module SerializedValues {
  import opened Wrappers

  newtype byte = x: int | 0 <= x < 256

  /** Either part may be null: reading a missing or unreadable file gives neither. */
  datatype Serialized<T> = Serialized(bytes: Option<seq<byte>>, value: Option<T>)

  /** The argument of `equals(Object)`: another `Serialized`, of any value type, or
      some other object. */
  datatype Obj<U> = SerializedObj(other: Serialized<U>) | OtherObj

  /** `fromValue(value)`: the object stream's bytes, given here as a function of the
      value, next to the value itself. */
  function FromValue<T>(v: T, serialize: T -> seq<byte>): (s: Serialized<T>)
    ensures s.bytes == Some(serialize(v))
    ensures s.value == Some(v)
  {
    Serialized(Some(serialize(v)), Some(v))
  }

  /** `fromFile(file, clazz)`: a missing file, or bytes that do not read back as a
      value of the expected class, give the empty pair. */
  function FromFile<T>(contents: Option<seq<byte>>, deserialize: seq<byte> -> Option<T>): (s: Serialized<T>)
    ensures s.bytes.Some? <==> contents.Some? && deserialize(contents.value).Some?
    ensures s.bytes.Some? ==> s.bytes == contents && s.value == deserialize(contents.value)
    ensures s.bytes.None? ==> s.value.None?
  {
    if contents.None? then Serialized(None, None)
    else
      match deserialize(contents.value)
      case None => Serialized(None, None)
      case Some(v) => Serialized(contents, Some(v))
  }

  /** `equals(other)`. */
  function Equals<T, U>(s: Serialized<T>, other: Obj<U>): bool {
    if s.bytes.None? then false
    else match other
      case SerializedObj(o) => o.bytes == s.bytes
      case OtherObj => false
  }

  /** `hashCode()`: a hash of the byte array alone, null included; the array hash
      is a parameter. */
  function HashCode<T>(s: Serialized<T>, arrayHash: Option<seq<byte>> -> int): int {
    arrayHash(s.bytes)
  }

  /** Without bytes a value is not even equal to itself. */
  lemma NullNotReflexive<T>(s: Serialized<T>)
    requires s.bytes.None?
    ensures forall u: Obj<T> :: !Equals(s, u)
    ensures !Equals(s, SerializedObj(s))
  {
  }

  /** With bytes on both sides, equality is equality of the bytes, whatever the values. */
  lemma EqualsIffSameBytes<T, U>(s: Serialized<T>, o: Serialized<U>)
    requires s.bytes.Some? && o.bytes.Some?
    ensures Equals(s, SerializedObj(o)) <==> s.bytes.value == o.bytes.value
    ensures Equals(s, SerializedObj(o)) <==> Equals(o, SerializedObj(s))
  {
  }

  /** Equality of serialized values is transitive. */
  lemma EqualsTransitive<T>(a: Serialized<T>, b: Serialized<T>, c: Serialized<T>)
    requires Equals(a, SerializedObj(b)) && Equals(b, SerializedObj(c))
    ensures Equals(a, SerializedObj(c))
  {
  }

  /** A serialized value is never equal to anything else. */
  lemma NeverEqualsOther<T, U>(s: Serialized<T>)
    ensures var other: Obj<U> := OtherObj; !Equals(s, other)
  {
  }

  /** Equal serialized values have equal hash codes. */
  lemma EqualHash<T>(s: Serialized<T>, o: Serialized<T>, arrayHash: Option<seq<byte>> -> int)
    requires Equals(s, SerializedObj(o))
    ensures HashCode(s, arrayHash) == HashCode(o, arrayHash)
  {
  }

  /** A freshly serialized value is equal to any other serialization of an equal
      value, and `value()` gives the value back. */
  lemma FromValueRoundTrip<T>(v: T, w: T, serialize: T -> seq<byte>)
    ensures FromValue(v, serialize).value == Some(v)
    ensures v == w ==> Equals(FromValue(v, serialize), SerializedObj(FromValue(w, serialize)))
  {
  }
}
