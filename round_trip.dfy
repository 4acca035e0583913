/** Writing then reading with the same declared type gives the value back and leaves
    unread exactly what followed it: for the tag-framed path, the untagged path, the
    dispatcher and the fields of an `ISerializable`, proved together by induction on the value. */
module RoundTrip {
  import opened Errors
  import opened Bytes
  import opened Scalars
  import opened Strings
  import opened Types
  import opened Objects

  /** The conditions every round trip needs: well-formed reflection data and names,
      a declared type that exists, and a value whose `ISerializable` parts can be read back. */
  ghost predicate Readback(u: Universe, t: Type, v: Value)
  {
    u.Valid() && u.Distinguishable() && u.Known(t) && u.WellFormed(v) && u.Readable(v)
  }

  /** WriteValueOrObject(type, obj) then ReadValueOrObject(type). */
  lemma {:induction false} ValueOrObjectRoundTrip(u: Universe, t: Type, v: Value, rest: seq<Byte>)
    requires Readback(u, t, v) && ValueOrObjectBytes(u, t, v).outcome.Pass?
    ensures ValueOrObjectAt(u, t, ValueOrObjectBytes(u, t, v).out + rest) == Ok(Parsed(v, rest))
    decreases v, 5, 1
  {
    if u.IsValueType(t) {
      SealedValue(u, t, v);
      ValueRoundTrip(u, v, rest);
    } else {
      ObjectRoundTrip(u, t, v, rest);
    }
  }

  /** WriteObject(type, obj) then ReadObject(type). */
  lemma {:induction false} ObjectRoundTrip(u: Universe, t: Type, v: Value, rest: seq<Byte>)
    requires Readback(u, t, v) && ObjectBytes(u, t, v).outcome.Pass?
    ensures ObjectAt(u, t, ObjectBytes(u, t, v).out + rest) == Ok(Parsed(v, rest))
    decreases v, 4, 1
  {
    if v.Null? {
      ObjectFraming(u, t, v);
      assert ([0] + rest)[1..] == rest;
    } else if u.RuntimeType(v) == t {
      ExactRoundTrip(u, t, v, rest);
    } else {
      SubtypeRoundTrip(u, t, v, rest);
    }
  }

  /** Tag 1: an object of exactly the declared type. */
  lemma {:induction false} ExactRoundTrip(u: Universe, t: Type, v: Value, rest: seq<Byte>)
    requires Readback(u, t, v) && !v.Null? && u.RuntimeType(v) == t
    requires ObjectBytes(u, t, v).outcome.Pass?
    ensures ObjectAt(u, t, ObjectBytes(u, t, v).out + rest) == Ok(Parsed(v, rest))
    decreases v, 4, 0
  {
    ObjectFraming(u, t, v);
    var payload := PayloadBytes(u, v).out;
    assert ([1] + payload) + rest == [1] + (payload + rest);
    assert ([1] + (payload + rest))[1..] == payload + rest;
    PayloadRoundTrip(u, v, rest);
  }

  /** Tag 2: an object of a proper subtype, preceded by its type identifier. */
  lemma {:induction false} SubtypeRoundTrip(u: Universe, t: Type, v: Value, rest: seq<Byte>)
    requires Readback(u, t, v) && !v.Null? && u.RuntimeType(v) != t
    requires ObjectBytes(u, t, v).outcome.Pass?
    ensures ObjectAt(u, t, ObjectBytes(u, t, v).out + rest) == Ok(Parsed(v, rest))
    decreases v, 4, 0
  {
    var rt := u.RuntimeType(v);
    var tail := PayloadBytes(u, v).out + rest;
    var s := [2] + (TypeBytes(u, rt) + tail);
    assert ObjectBytes(u, t, v).out + rest == s by {
      SubtypeFraming(u, t, v);
      Associative([2], TypeBytes(u, rt) + PayloadBytes(u, v).out, rest);
      Associative(TypeBytes(u, rt), PayloadBytes(u, v).out, rest);
    }
    assert s[1..] == TypeBytes(u, rt) + tail;
    TypeRoundTrip(u, rt, tail);
    PayloadRoundTrip(u, v, rest);
    SubtypeTag(u, t, rt, s, tail, v, rest);
  }

  /** The payload after the tag, read as the runtime type. */
  lemma {:induction false} PayloadRoundTrip(u: Universe, v: Value, rest: seq<Byte>)
    requires !v.Null? && Readback(u, u.RuntimeType(v), v) && PayloadBytes(u, v).outcome.Pass?
    ensures PayloadAt(u, u.RuntimeType(v), PayloadBytes(u, v).out + rest) == Ok(Parsed(v, rest))
    decreases v, 3, 1
  {
    if v.Text? {
      StringRoundTrip(Utf8Text, Some(v.text), rest);
    } else if u.CapabilityOf(u.RuntimeType(v)).Some? {
      SavedPayloadRoundTrip(u, v, rest);
    } else {
      ValuePayloadRoundTrip(u, v, rest);
    }
  }

  /** The payload of an `ISerializable`: its `Save`, read by its reader constructor. */
  lemma {:induction false} SavedPayloadRoundTrip(u: Universe, v: Value, rest: seq<Byte>)
    requires v.Instance? && Readback(u, u.RuntimeType(v), v) && u.CapabilityOf(u.RuntimeType(v)).Some?
    requires PayloadBytes(u, v).outcome.Pass?
    ensures PayloadAt(u, u.RuntimeType(v), PayloadBytes(u, v).out + rest) == Ok(Parsed(v, rest))
    decreases v, 3, 0
  {
    SaveRoundTrip(u, v, rest);
  }

  /** The payload of another value type: WriteValue, read by ReadValue. */
  lemma {:induction false} ValuePayloadRoundTrip(u: Universe, v: Value, rest: seq<Byte>)
    requires !v.Null? && !v.Text? && Readback(u, u.RuntimeType(v), v) && u.CapabilityOf(u.RuntimeType(v)).None?
    requires PayloadBytes(u, v).outcome.Pass?
    ensures PayloadAt(u, u.RuntimeType(v), PayloadBytes(u, v).out + rest) == Ok(Parsed(v, rest))
    decreases v, 3, 0
  {
    ValueRoundTrip(u, v, rest);
  }

  /** WriteValue(val) then ReadValue(type of val). */
  lemma {:induction false} ValueRoundTrip(u: Universe, v: Value, rest: seq<Byte>)
    requires !v.Null? && Readback(u, u.RuntimeType(v), v) && u.IsValueType(u.RuntimeType(v))
    requires ValueBytes(u, v).outcome.Pass?
    ensures ValueAt(u, u.RuntimeType(v), ValueBytes(u, v).out + rest) == Ok(Parsed(v, rest))
    decreases v, 2, 0
  {
    match v
    case Boxed(BoolVal(b)) => BoolAtRoundTrip(b, rest);
    case Boxed(NumVal(k, n)) => NumAtRoundTrip(k, n, rest);
    case Instance(_, _) => SaveRoundTrip(u, v, rest);
  }

  /** `Save` then the reader constructor. */
  lemma {:induction false} SaveRoundTrip(u: Universe, v: Value, rest: seq<Byte>)
    requires v.Instance? && Readback(u, u.RuntimeType(v), v) && u.types[v.typeName].capability.Some?
    requires SaveBytes(u, v).outcome.Pass?
    ensures FieldsAt(u, v.typeName, 0, SaveBytes(u, v).out + rest) == Ok(Parsed(v.fields, rest))
    decreases v, 1, 0
  {
    FieldsRoundTrip(u, v.typeName, v.fields, 0, rest);
    assert v.fields[0..] == v.fields;
  }

  /** The fields from number `i` on. */
  lemma {:induction false} FieldsRoundTrip(u: Universe, owner: string, fs: seq<Value>, i: nat, rest: seq<Byte>)
    requires u.Valid() && u.Distinguishable() && owner in u.types && u.types[owner].capability.Some?
    requires |fs| == |u.types[owner].capability.value.fields| && i <= |fs|
    requires forall j | 0 <= j < |fs| :: u.WellFormed(fs[j]) && u.Readable(fs[j])
    requires FieldsBytes(u, owner, fs, i).outcome.Pass?
    ensures FieldsAt(u, owner, i, FieldsBytes(u, owner, fs, i).out + rest) == Ok(Parsed(fs[i..], rest))
    decreases fs, |fs| - i, 1
  {
    if i < |fs| {
      FieldRoundTrip(u, owner, fs, i, rest);
    } else {
      assert [] + rest == rest;
      assert fs[i..] == [];
    }
  }

  /** Field number `i`, then the rest. */
  lemma {:induction false} FieldRoundTrip(u: Universe, owner: string, fs: seq<Value>, i: nat, rest: seq<Byte>)
    requires u.Valid() && u.Distinguishable() && owner in u.types && u.types[owner].capability.Some?
    requires |fs| == |u.types[owner].capability.value.fields| && i < |fs|
    requires forall j | 0 <= j < |fs| :: u.WellFormed(fs[j]) && u.Readable(fs[j])
    requires FieldsBytes(u, owner, fs, i).outcome.Pass?
    ensures FieldsAt(u, owner, i, FieldsBytes(u, owner, fs, i).out + rest) == Ok(Parsed(fs[i..], rest))
    decreases fs, |fs| - i, 0
  {
    var fts := u.types[owner].capability.value.fields;
    assert fts[i] in fts;
    FieldsLayout(u, owner, fs, i, rest);
    var first := ValueOrObjectBytes(u, fts[i], fs[i]).out;
    var others := FieldsBytes(u, owner, fs, i + 1).out;
    ValueOrObjectRoundTrip(u, fts[i], fs[i], others + rest);
    FieldsRoundTrip(u, owner, fs, i + 1, rest);
    FieldsAtStep(u, owner, i, first + (others + rest), fs[i], others + rest, fs[i + 1..], rest);
    assert [fs[i]] + fs[i + 1..] == fs[i..];
  }

  /** The bytes of `Save` from field `i` on: the field, then the fields after it. */
  lemma FieldsLayout(u: Universe, owner: string, fs: seq<Value>, i: nat, rest: seq<Byte>)
    requires u.Valid() && owner in u.types && u.types[owner].capability.Some?
    requires |fs| == |u.types[owner].capability.value.fields| && i < |fs|
    requires forall j | 0 <= j < |fs| :: u.WellFormed(fs[j])
    requires u.types[owner].capability.value.fields[i] in u.types[owner].capability.value.fields
    requires FieldsBytes(u, owner, fs, i).outcome.Pass?
    ensures var first := ValueOrObjectBytes(u, u.types[owner].capability.value.fields[i], fs[i]);
      var others := FieldsBytes(u, owner, fs, i + 1);
      && first.outcome.Pass? && others.outcome.Pass?
      && FieldsBytes(u, owner, fs, i).out + rest == first.out + (others.out + rest)
  {
    FieldsBytesStep(u, owner, fs, i);
    Associative(ValueOrObjectBytes(u, u.types[owner].capability.value.fields[i], fs[i]).out,
      FieldsBytes(u, owner, fs, i + 1).out, rest);
  }

  /** An `ISerializable` without a reader constructor is written, but ReadObject rejects it
      with ArgumentNotSupported. */
  lemma UnreadableInstance(u: Universe, t: Type, v: Value, rest: seq<Byte>)
    requires u.Valid() && u.Known(t) && u.WellFormed(v) && v.Instance? && u.RuntimeType(v) == t
    requires u.types[v.typeName].capability.Some? && !u.types[v.typeName].capability.value.hasReaderCtor
    ensures ObjectAt(u, t, ObjectBytes(u, t, v).out + rest) == Err(ArgumentNotSupported)
  {
    ObjectFraming(u, t, v);
    var payload := PayloadBytes(u, v).out;
    assert ([1] + payload) + rest == [1] + (payload + rest);
    assert ([1] + (payload + rest))[1..] == payload + rest;
  }
}
