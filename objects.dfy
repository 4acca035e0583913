/** The object protocol of BinarySerializer.cs as byte layouts: the type identifiers, the
    untagged value path (WriteValue/ReadValue), the tag-framed object path
    (WriteObject/ReadObject) and the dispatcher between the two (WriteValueOrObject/
    ReadValueOrObject). Encoders return the bytes they append and whether they finish or
    throw; decoders take the unread bytes of the stream, as in module Strings. */
module Objects {
  import opened Errors
  import opened Bytes
  import opened Scalars
  import opened Unicode
  import opened Strings
  import opened TypeNames
  import opened Types

  /** What a writing operation appends to the stream before it returns or throws. */
  datatype Written = Written(out: seq<Byte>, outcome: Outcome)

  /** `a` followed by `b`, unless `a` throws, in which case `b` never runs: what `a`
      appended stays on the stream (`ThenSequence`), and the sequence finishes only when
      both do. */
  function Then(a: Written, b: Written): (w: Written)
    ensures w.outcome.Pass? <==> a.outcome.Pass? && b.outcome.Pass?
    ensures a.outcome.Fail? ==> w == a
    ensures a.outcome.Pass? ==> w == Written(a.out + b.out, b.outcome)
  {
    if a.outcome.Fail? then a else Written(a.out + b.out, b.outcome)
  }

  /** Writes run in sequence: what an earlier write appended stays at the front of the
      stream whatever follows it, and grouping does not matter. */
  lemma ThenSequence(a: Written, b: Written, c: Written)
    ensures a.out <= Then(a, b).out
    ensures Then(Then(a, b), c) == Then(a, Then(b, c))
  {
  }

  // ---------------------------------------------------------------- type identifiers

  /** Every type identifier fits the narrow framing: a short code, or a name that fits. */
  lemma TypeIdFits(u: Universe, t: Type)
    requires u.Valid() && u.Known(t)
    ensures Ascii.Fits(TypeId(u.assembly, t))
  {
    var name := TypeName(u.assembly, t);
    if !t.UserType? && t != ObjectType {
      BuiltinTypeId(u.assembly, t);
      AsciiFits(TypeId(u.assembly, t));
    } else if name in FullToShort(u.assembly) {
      BuiltinsInverse(u.assembly);
      ShortCodes(u.assembly);
      assert TypeId(u.assembly, t) in ShortToFull(u.assembly);
      AsciiFits(TypeId(u.assembly, t));
    }
  }

  /** WriteType: the type's identifier as a narrow string. */
  function TypeBytes(u: Universe, t: Type): (bs: seq<Byte>)
    requires u.Valid() && u.Known(t)
  {
    TypeIdFits(u, t);
    StringBytes(Ascii, Some(TypeId(u.assembly, t)))
  }

  /** ReadType: a narrow string, InvalidData when it is null, else the type its expanded
      name resolves to, None when no type has that name. */
  function TypeAt(u: Universe, s: seq<Byte>): (r: Result<Parsed<Option<Type>>>)
    ensures r.Ok? ==> |r.value.rest| <= |s| - 4
    ensures r.Ok? ==> exists name :: StringAt(Ascii, s) == Ok(Parsed(Some(name), r.value.rest))
                        && r.value.value == u.Resolve(FullTypeName(u.assembly, name))
    ensures r.Err? && StringAt(Ascii, s).Err? ==> r.error == StringAt(Ascii, s).error
    ensures r.Err? && StringAt(Ascii, s).Ok? ==> r.error == InvalidData
  {
    match StringAt(Ascii, s)
    case Err(e) => Err(e)
    case Ok(Parsed(name, rest)) =>
      if name.None? then Err(InvalidData)
      else Ok(Parsed(u.Resolve(FullTypeName(u.assembly, name.value)), rest))
  }

  /** WriteType then ReadType gives the type back. */
  lemma TypeRoundTrip(u: Universe, t: Type, rest: seq<Byte>)
    requires u.Valid() && u.Distinguishable() && u.Known(t)
    ensures TypeAt(u, TypeBytes(u, t) + rest) == Ok(Parsed(Some(t), rest))
  {
    TypeIdRoundTrip(u, t);
    StringRoundTrip(Ascii, Some(TypeId(u.assembly, t)), rest);
    ResolveTypeName(u, t);
  }

  /** Without ASCII names the round trip fails: WriteType narrows a user type name with a
      character above U+007F to '?', and no name the reader can expand from an ASCII
      string is that type's. */
  lemma NonAsciiTypeLost(u: Universe, t: Type, rest: seq<Byte>)
    requires u.Valid() && u.Known(t) && t.UserType? && !IsAscii(t.name)
    requires t.name !in FullToShort(u.assembly)
    ensures TypeAt(u, TypeBytes(u, t) + rest).Ok?
    ensures TypeAt(u, TypeBytes(u, t) + rest).value.value != Some(t)
  {
    var n := |Utf16(t.name)|;
    var tail := AsciiBytes(t.name) + rest;
    assert TypeBytes(u, t) + rest == Int32Bytes(n) + tail by {
      TypeIdFits(u, t);
      assert TypeId(u.assembly, t) == t.name;
      Associative(Int32Bytes(n), AsciiBytes(t.name), rest);
    }
    Int32AtRoundTrip(n, tail);
    var read := FromAscii(Payload(tail, n).value);
    assert TypeAt(u, TypeBytes(u, t) + rest) == Ok(Parsed(u.Resolve(FullTypeName(u.assembly, read)), Payload(tail, n).rest));
    assert FullTypeName(u.assembly, read) != t.name by {
      BuiltinsInverse(u.assembly);
    }
  }

  // ---------------------------------------------------------------- decoders

  /** ReadValue(type): ArgumentValue unless `t` is a value type; the scalar of a built-in;
      the fields read by the reader constructor of an `ISerializable`; else ArgumentNotSupported. */
  function ValueAt(u: Universe, t: Type, s: seq<Byte>): (r: Result<Parsed<Value>>)
    requires u.Valid() && u.Known(t)
    ensures r.Ok? ==> |r.value.rest| <= |s|
    decreases |s|, u.Level(t) + 1, 2, 0
  {
    if !u.IsValueType(t) then Err(ArgumentValue)
    else
      match t
      case BoolType =>
        (match BoolAt(s)
         case Err(e) => Err(e)
         case Ok(Parsed(b, rest)) => Ok(Parsed(Boxed(BoolVal(b)), rest)))
      case NumType(k) =>
        (match NumAt(k, s)
         case Err(e) => Err(e)
         case Ok(Parsed(n, rest)) => Ok(Parsed(Boxed(NumVal(k, n)), rest)))
      case UserType(name) =>
        (match u.CapabilityOf(t)
         case None => Err(ArgumentNotSupported)
         case Some(c) =>
           if !c.hasReaderCtor then Err(ArgumentNotSupported)
           else
             match FieldsAt(u, name, 0, s)
             case Err(e) => Err(e)
             case Ok(Parsed(fs, rest)) => Ok(Parsed(Instance(name, fs), rest)))
      case _ => Err(ArgumentValue)
  }

  /** The reader constructor of `owner`: its fields from number `i` on, each read with
      ReadValueOrObject and the field's declared type. */
  function FieldsAt(u: Universe, owner: string, i: nat, s: seq<Byte>): (r: Result<Parsed<seq<Value>>>)
    requires u.Valid() && owner in u.types && u.types[owner].capability.Some?
    requires i <= |u.types[owner].capability.value.fields|
    ensures r.Ok? ==> |r.value.rest| <= |s|
    ensures r.Ok? ==> |r.value.value| == |u.types[owner].capability.value.fields| - i
    decreases |s|, u.types[owner].nesting + 1, 1, |u.types[owner].capability.value.fields| - i
  {
    var fts := u.types[owner].capability.value.fields;
    if i == |fts| then Ok(Parsed([], s))
    else
      assert fts[i] in fts;
      match ValueOrObjectAt(u, fts[i], s)
      case Err(e) => Err(e)
      case Ok(Parsed(f, p)) =>
        match FieldsAt(u, owner, i + 1, p)
        case Err(e) => Err(e)
        case Ok(Parsed(fs, rest)) => Ok(Parsed([f] + fs, rest))
  }

  /** ReadValueOrObject(type): the untagged path exactly when `t` is a value type. */
  function ValueOrObjectAt(u: Universe, t: Type, s: seq<Byte>): (r: Result<Parsed<Value>>)
    requires u.Valid() && u.Known(t)
    ensures r.Ok? ==> |r.value.rest| <= |s|
    ensures u.IsValueType(t) ==> r == ValueAt(u, t, s)
    ensures !u.IsValueType(t) ==> r == ObjectAt(u, t, s)
    decreases |s|, if u.IsValueType(t) then u.Level(t) + 1 else 0, if u.IsValueType(t) then 3 else 0, 1
  {
    if u.IsValueType(t) then ValueAt(u, t, s) else ObjectAt(u, t, s)
  }

  /** ReadObject(type): the tag byte, then the payload the declared or the written type asks for. */
  function ObjectAt(u: Universe, t: Type, s: seq<Byte>): (r: Result<Parsed<Value>>)
    requires u.Valid() && u.Known(t)
    ensures r.Ok? ==> |r.value.rest| < |s|
    decreases |s|, 0, 0, 0
  {
    match ByteAt(s)
    case Err(e) => Err(e)
    case Ok(Parsed(tag, p)) =>
      if tag == 0 then Ok(Parsed(Null, p))
      else if tag == 1 then PayloadAt(u, t, p)
      else if tag == 2 then
        match TypeAt(u, p)
        case Err(e) => Err(e)
        case Ok(Parsed(written, q)) =>
          if written.None? then Err(TypeLoad)
          else if !u.IsAssignableFrom(t, written.value) then Err(ArgumentValue)
          else PayloadAt(u, written.value, q)
      else Err(InvalidData)
  }

  /** The part of ReadObject after the tag: a UTF-8 string for `string`, the reader
      constructor of an `ISerializable` (ArgumentNotSupported without one), ReadValue for
      another value type, and ArgumentValue for anything else. */
  function PayloadAt(u: Universe, t: Type, s: seq<Byte>): (r: Result<Parsed<Value>>)
    requires u.Valid() && u.Known(t)
    ensures r.Ok? ==> |r.value.rest| <= |s|
    decreases |s|, u.Level(t) + 1, 3, 0
  {
    if t == StringType then
      match StringAt(Utf8Text, s)
      case Err(e) => Err(e)
      case Ok(Parsed(str, rest)) => Ok(Parsed(if str.None? then Null else Text(str.value), rest))
    else
      match u.CapabilityOf(t)
      case Some(c) =>
        if !c.hasReaderCtor then Err(ArgumentNotSupported)
        else
          (match FieldsAt(u, t.name, 0, s)
           case Err(e) => Err(e)
           case Ok(Parsed(fs, rest)) => Ok(Parsed(Instance(t.name, fs), rest)))
      case None =>
        if u.IsValueType(t) then ValueAt(u, t, s) else Err(ArgumentValue)
  }

  // ---------------------------------------------------------------- encoders

  /** An object assignable to a value type has exactly that type. */
  lemma SealedValue(u: Universe, t: Type, v: Value)
    requires u.Valid() && u.IsValueType(t) && (!v.Null? ==> u.IsAssignableFrom(t, u.RuntimeType(v)))
    ensures !v.Null? ==> u.RuntimeType(v) == t
  {
    if !v.Null? {
      ValueTypeSealed(u, t, u.RuntimeType(v));
    }
  }

  /** WriteValue(val): the scalar's bytes, or `Save` of an `ISerializable`; ArgumentType for
      null and for a value type without `Save`. */
  function ValueBytes(u: Universe, v: Value): (w: Written)
    requires u.Valid() && u.WellFormed(v) && (v.Null? || u.IsValueType(u.RuntimeType(v)))
    decreases v, 2
  {
    match v
    case Boxed(BoolVal(b)) => Written(EncodeBool(b), Pass)
    case Boxed(NumVal(k, n)) => Written(EncodeNum(k, n), Pass)
    case Instance(name, _) =>
      if u.types[name].capability.Some? then SaveBytes(u, v) else Written([], Fail(ArgumentType))
    case _ => Written([], Fail(ArgumentType))
  }

  /** `Save` of an `ISerializable`: its fields in order, each with WriteValueOrObject. */
  function SaveBytes(u: Universe, v: Value): (w: Written)
    requires u.Valid() && u.WellFormed(v) && v.Instance? && u.types[v.typeName].capability.Some?
    decreases v, 1
  {
    FieldsBytes(u, v.typeName, v.fields, 0)
  }

  function FieldsBytes(u: Universe, owner: string, fs: seq<Value>, i: nat): (w: Written)
    requires u.Valid() && owner in u.types && u.types[owner].capability.Some?
    requires |fs| == |u.types[owner].capability.value.fields| && i <= |fs|
    requires forall j | 0 <= j < |fs| :: u.WellFormed(fs[j])
    decreases fs, |fs| - i
  {
    var fts := u.types[owner].capability.value.fields;
    if i == |fs| then Written([], Pass)
    else
      assert fts[i] in fts;
      Then(ValueOrObjectBytes(u, fts[i], fs[i]), FieldsBytes(u, owner, fs, i + 1))
  }

  /** WriteValueOrObject(type, obj): ArgumentType when `obj` is not assignable to `type`;
      then the untagged path exactly when `type` is a value type. */
  function ValueOrObjectBytes(u: Universe, t: Type, v: Value): (w: Written)
    requires u.Valid() && u.Known(t) && u.WellFormed(v)
    decreases v, 5
  {
    if !v.Null? && !u.IsAssignableFrom(t, u.RuntimeType(v)) then Written([], Fail(ArgumentType))
    else if u.IsValueType(t) then
      SealedValue(u, t, v);
      ValueBytes(u, v)
    else ObjectBytes(u, t, v)
  }

  /** WriteObject(type, obj): ArgumentType when `obj` is not assignable to `type`; 0 for
      null; 1 when the runtime type is `type`, else 2 and the runtime type's identifier;
      then the payload. */
  function ObjectBytes(u: Universe, t: Type, v: Value): (w: Written)
    requires u.Valid() && u.Known(t) && u.WellFormed(v)
    decreases v, 4
  {
    if !v.Null? && !u.IsAssignableFrom(t, u.RuntimeType(v)) then Written([], Fail(ArgumentType))
    else if v.Null? then Written([0], Pass)
    else
      var header := if u.RuntimeType(v) == t then [1] else [2] + TypeBytes(u, u.RuntimeType(v));
      var payload := PayloadBytes(u, v);
      Written(header + payload.out, payload.outcome)
  }

  /** The part of WriteObject after the tag: a string as UTF-8, `Save` of an `ISerializable`,
      WriteValue of another value type, and ArgumentType for anything else. */
  function PayloadBytes(u: Universe, v: Value): (w: Written)
    requires u.Valid() && u.WellFormed(v) && !v.Null?
    decreases v, 3
  {
    if v.Text? then Written(StringBytes(Utf8Text, Some(v.text)), Pass)
    else if u.CapabilityOf(u.RuntimeType(v)).Some? then SaveBytes(u, v)
    else if u.IsValueType(u.RuntimeType(v)) then ValueBytes(u, v)
    else Written([], Fail(ArgumentType))
  }

  // ---------------------------------------------------------------- steps

  /** The reader constructor reads field `i` with ReadValueOrObject, then the rest. */
  lemma FieldsAtStep(u: Universe, owner: string, i: nat, s: seq<Byte>, f: Value, p: seq<Byte>, fs: seq<Value>, rest: seq<Byte>)
    requires u.Valid() && owner in u.types && u.types[owner].capability.Some?
    requires i < |u.types[owner].capability.value.fields|
    requires u.types[owner].capability.value.fields[i] in u.types[owner].capability.value.fields
    requires ValueOrObjectAt(u, u.types[owner].capability.value.fields[i], s) == Ok(Parsed(f, p))
    requires FieldsAt(u, owner, i + 1, p) == Ok(Parsed(fs, rest))
    ensures FieldsAt(u, owner, i, s) == Ok(Parsed([f] + fs, rest))
  {
  }

  /** `Save` writes field `i` with WriteValueOrObject, then the rest unless that throws. */
  lemma FieldsBytesStep(u: Universe, owner: string, fs: seq<Value>, i: nat)
    requires u.Valid() && owner in u.types && u.types[owner].capability.Some?
    requires |fs| == |u.types[owner].capability.value.fields| && i < |fs|
    requires forall j | 0 <= j < |fs| :: u.WellFormed(fs[j])
    requires u.types[owner].capability.value.fields[i] in u.types[owner].capability.value.fields
    ensures var first := ValueOrObjectBytes(u, u.types[owner].capability.value.fields[i], fs[i]);
      var rest := FieldsBytes(u, owner, fs, i + 1);
      FieldsBytes(u, owner, fs, i).outcome.Pass? <==>
        first.outcome.Pass? && rest.outcome.Pass? && FieldsBytes(u, owner, fs, i).out == first.out + rest.out
  {
  }

  // ---------------------------------------------------------------- framing

  /** WriteValueOrObject: nothing at all before the ArgumentType of an object not assignable
      to the declared type; otherwise WriteValue of it when the declared type is a value type
      (it then has exactly the declared type), and WriteObject when it is not. */
  lemma ValueOrObjectDispatch(u: Universe, t: Type, v: Value)
    requires u.Valid() && u.Known(t) && u.WellFormed(v)
    ensures !v.Null? && !u.IsAssignableFrom(t, u.RuntimeType(v)) ==>
      ValueOrObjectBytes(u, t, v) == Written([], Fail(ArgumentType))
    ensures (v.Null? || u.IsAssignableFrom(t, u.RuntimeType(v))) && u.IsValueType(t) ==>
      && (!v.Null? ==> u.RuntimeType(v) == t)
      && ValueOrObjectBytes(u, t, v) == ValueBytes(u, v)
    ensures (v.Null? || u.IsAssignableFrom(t, u.RuntimeType(v))) && !u.IsValueType(t) ==>
      ValueOrObjectBytes(u, t, v) == ObjectBytes(u, t, v)
  {
    if u.IsValueType(t) && (v.Null? || u.IsAssignableFrom(t, u.RuntimeType(v))) {
      SealedValue(u, t, v);
    }
  }

  /** WriteValue throws ArgumentType, having written nothing, for null and for a value type
      without `Save`; a built-in scalar is its bytes. */
  lemma ValueCases(u: Universe, v: Value)
    requires u.Valid() && u.WellFormed(v) && (v.Null? || u.IsValueType(u.RuntimeType(v)))
    ensures v.Null? ==> ValueBytes(u, v) == Written([], Fail(ArgumentType))
    ensures v.Instance? && u.types[v.typeName].capability.None? ==>
      ValueBytes(u, v) == Written([], Fail(ArgumentType))
    ensures v.Boxed? && v.scalar.BoolVal? ==> ValueBytes(u, v) == Written(EncodeBool(v.scalar.b), Pass)
    ensures v.Boxed? && v.scalar.NumVal? ==> ValueBytes(u, v) == Written(EncodeNum(v.scalar.kind, v.scalar.n), Pass)
  {
  }

  /** ReadValue: ArgumentValue for a declared type that is not a value type; ArgumentNotSupported
      for a value type with no `Save` or no reader constructor; the byte layouts of the
      built-in scalars otherwise. */
  lemma ValueTags(u: Universe, t: Type, s: seq<Byte>)
    requires u.Valid() && u.Known(t)
    ensures !u.IsValueType(t) ==> ValueAt(u, t, s) == Err(ArgumentValue)
    ensures t.UserType? && u.IsValueType(t) && (u.CapabilityOf(t).None? || !u.CapabilityOf(t).value.hasReaderCtor) ==>
      ValueAt(u, t, s) == Err(ArgumentNotSupported)
    ensures t == BoolType && |s| > 0 ==> ValueAt(u, t, s) == Ok(Parsed(Boxed(BoolVal(s[0] != 0)), s[1..]))
    ensures t.NumType? && t.kind.Size() <= |s| ==>
      ValueAt(u, t, s) == Ok(Parsed(Boxed(NumVal(t.kind, DecodeNum(t.kind, s[..t.kind.Size()]))), s[t.kind.Size()..]))
    ensures (t == BoolType || t.NumType?) && |s| < (if t == BoolType then 1 else t.kind.Size()) ==>
      ValueAt(u, t, s) == Err(EndOfStream)
  {
  }

  /** The layout of WriteObject: nothing at all before the ArgumentType of an object that is
      not assignable to the declared type; one byte 0 for null; byte 1 and the payload for
      an object of exactly the declared type; byte 2, the type identifier and the payload
      for an object of a proper subtype. */
  lemma ObjectFraming(u: Universe, t: Type, v: Value)
    requires u.Valid() && u.Known(t) && u.WellFormed(v)
    ensures !v.Null? && !u.IsAssignableFrom(t, u.RuntimeType(v)) ==>
      ObjectBytes(u, t, v) == Written([], Fail(ArgumentType))
    ensures v.Null? ==> ObjectBytes(u, t, v) == Written([0], Pass)
    ensures !v.Null? && u.RuntimeType(v) == t ==>
      ObjectBytes(u, t, v) == Written([1] + PayloadBytes(u, v).out, PayloadBytes(u, v).outcome)
    ensures !v.Null? && u.RuntimeType(v) != t && u.IsAssignableFrom(t, u.RuntimeType(v)) ==>
      ObjectBytes(u, t, v) == Written([2] + TypeBytes(u, u.RuntimeType(v)) + PayloadBytes(u, v).out, PayloadBytes(u, v).outcome)
  {
  }

  /** WriteObject of a proper subtype: byte 2, the runtime type's identifier, the payload. */
  lemma SubtypeFraming(u: Universe, t: Type, v: Value)
    requires u.Valid() && u.Known(t) && u.WellFormed(v)
    requires !v.Null? && u.RuntimeType(v) != t && u.IsAssignableFrom(t, u.RuntimeType(v))
    ensures ObjectBytes(u, t, v).out == [2] + (TypeBytes(u, u.RuntimeType(v)) + PayloadBytes(u, v).out)
    ensures ObjectBytes(u, t, v).outcome == PayloadBytes(u, v).outcome
  {
  }

  /** ReadObject of tag 2: the written type, when it resolves and is assignable to the
      declared type, reads the payload. */
  lemma SubtypeTag(u: Universe, t: Type, written: Type, s: seq<Byte>, q: seq<Byte>, v: Value, rest: seq<Byte>)
    requires u.Valid() && u.Known(t) && |s| > 0 && s[0] == 2
    requires TypeAt(u, s[1..]) == Ok(Parsed(Some(written), q)) && u.IsAssignableFrom(t, written)
    requires u.Known(written) && PayloadAt(u, written, q) == Ok(Parsed(v, rest))
    ensures ObjectAt(u, t, s) == Ok(Parsed(v, rest))
  {
  }

  /** The tags of ReadObject: EndOfStream with no tag left, null for 0, the declared type's
      payload for 1, and for 2 the written type, which must resolve (else TypeLoad) and be
      assignable to the declared type (else ArgumentValue); InvalidData for any other tag
      and for a null type name. */
  lemma ObjectTags(u: Universe, t: Type, s: seq<Byte>)
    requires u.Valid() && u.Known(t)
    ensures s == [] ==> ObjectAt(u, t, s) == Err(EndOfStream)
    ensures s != [] && s[0] == 0 ==> ObjectAt(u, t, s) == Ok(Parsed(Null, s[1..]))
    ensures s != [] && s[0] == 1 ==> ObjectAt(u, t, s) == PayloadAt(u, t, s[1..])
    ensures s != [] && s[0] == 2 && TypeAt(u, s[1..]).Err? ==>
      ObjectAt(u, t, s) == Err(TypeAt(u, s[1..]).error)
    ensures s != [] && s[0] == 2 && TypeAt(u, s[1..]).Ok? ==>
      var Parsed(written, q) := TypeAt(u, s[1..]).value;
      && (written.None? ==> ObjectAt(u, t, s) == Err(TypeLoad))
      && (written.Some? && !u.IsAssignableFrom(t, written.value) ==> ObjectAt(u, t, s) == Err(ArgumentValue))
      && (written.Some? && u.IsAssignableFrom(t, written.value) ==>
            ObjectAt(u, t, s) == PayloadAt(u, written.value, q))
    ensures s != [] && s[0] > 2 ==> ObjectAt(u, t, s) == Err(InvalidData)
  {
  }
}
