/** The BinarySerializer object over its stream: a writer whose every write appends to the
    bytes written so far, and a reader whose every read advances a position in the bytes it
    reads. Each method is proved to do what the byte layouts of modules Strings and Objects
    say, so the round trips proved there hold for these methods too. */
module Serializer {
  import opened Errors
  import opened Bytes
  import opened Scalars
  import opened Strings
  import opened Types
  import opened Objects
  import opened TypeNames

  /** The part of `p` after reading the fields `done` first: the fields `done` followed by
      those `p` reads, or the exception `p` raises. */
  function Prepend(done: seq<Value>, p: Result<Parsed<seq<Value>>>): Result<Parsed<seq<Value>>>
  {
    match p
    case Err(e) => Err(e)
    case Ok(Parsed(fs, rest)) => Ok(Parsed(done + fs, rest))
  }

  /** A serializer writing to a stream that starts out empty (`new BinarySerializer()` over a
      `MemoryStream`, or any stream positioned at its end). */
  class Writer {
    /** The reflection data the serializer consults. */
    const universe: Universe
    /** Everything written to the stream so far. */
    var bytes: seq<Byte>

    constructor (u: Universe)
      ensures universe == u && bytes == []
    {
      universe := u;
      bytes := [];
    }

    /** Write(byte[]): the bytes, in order. */
    method Write(bs: seq<Byte>)
      modifies this
      ensures bytes == old(bytes) + bs
    {
      bytes := bytes + bs;
    }

    /** WriteByte. */
    method WriteByte(b: Byte)
      modifies this
      ensures bytes == old(bytes) + [b]
    {
      bytes := bytes + [b];
    }

    /** WriteBool: 1 for true, 0 for false. */
    method WriteBool(b: bool)
      modifies this
      ensures bytes == old(bytes) + EncodeBool(b)
    {
      WriteByte(if b then 1 else 0);
    }

    /** WriteSByte, WriteChar and WriteDouble .. WriteUShort: `BitConverter.GetBytes` of the
        value, or the byte that keeps its bits for the one-byte kinds. */
    method WriteNum(k: NumKind, n: int)
      requires k.InRange(n)
      modifies this
      ensures bytes == old(bytes) + EncodeNum(k, n)
    {
      var bs := EncodeNum(k, n);
      if k.Size() == 1 {
        WriteByte(bs[0]);
        assert [bs[0]] == bs;
      } else {
        Write(bs);
      }
    }

    /** WriteString8 (`Ascii`), WriteString16 (`Wide`) and WriteStringUtf8 (`Utf8Text`):
        -1 for null, else the length prefix and the encoded characters. */
    method WriteString(f: Framing, s: Option<string>)
      requires s.Some? ==> f.Fits(s.value)
      modifies this
      ensures bytes == old(bytes) + StringBytes(f, s)
    {
      match s
      case None =>
        Int32Range(-1);
        WriteNum(Int32, -1);
      case Some(v) =>
        var encoded := f.Encode(v);
        Int32Range(f.Prefix(v));
        WriteNum(Int32, f.Prefix(v));
        Write(encoded);
        assert bytes == old(bytes) + (Int32Bytes(f.Prefix(v)) + encoded);
    }

    /** WriteType: the short code or assembly-qualified name of the type, narrow. */
    method WriteType(t: Type)
      requires universe.Valid() && universe.Known(t)
      modifies this
      ensures bytes == old(bytes) + TypeBytes(universe, t)
    {
      TypeIdFits(universe, t);
      WriteString(Ascii, Some(TypeId(universe.assembly, t)));
    }

    /** WriteValue: the scalar of a built-in value type, `Save` of an `ISerializable`, and
        ArgumentType for anything else. */
    method WriteValue(v: Value) returns (r: Outcome)
      requires universe.Valid() && universe.WellFormed(v)
      requires v.Null? || universe.IsValueType(universe.RuntimeType(v))
      modifies this
      ensures bytes == old(bytes) + ValueBytes(universe, v).out
      ensures r == ValueBytes(universe, v).outcome
      decreases v, 2
    {
      match v
      case Boxed(BoolVal(b)) =>
        WriteBool(b);
        r := Pass;
      case Boxed(NumVal(k, n)) =>
        WriteNum(k, n);
        r := Pass;
      case Instance(name, _) =>
        if universe.types[name].capability.Some? {
          r := Save(v);
        } else {
          r := Fail(ArgumentType);
        }
      case _ =>
        r := Fail(ArgumentType);
    }

    /** `Save` of an `ISerializable`: each field with WriteValueOrObject and the field's
        declared type, stopping at the first that throws. */
    method Save(v: Value) returns (r: Outcome)
      requires universe.Valid() && universe.WellFormed(v) && v.Instance?
      requires universe.types[v.typeName].capability.Some?
      modifies this
      ensures bytes == old(bytes) + SaveBytes(universe, v).out
      ensures r == SaveBytes(universe, v).outcome
      decreases v, 1
    {
      var u := universe;
      var fts := u.types[v.typeName].capability.value.fields;
      ghost var done: seq<Byte> := [];
      var i := 0;
      while i < |v.fields|
        invariant i <= |v.fields| && bytes == old(bytes) + done
        invariant done + FieldsFrom(u, v, i).out == SaveBytes(u, v).out
        invariant FieldsFrom(u, v, i).outcome == SaveBytes(u, v).outcome
        decreases |v.fields| - i
      {
        SaveStep(u, v, i);
        assert v.fields[i] in v.fields;
        ghost var field := ValueOrObjectBytes(u, fts[i], v.fields[i]);
        r := WriteValueOrObject(fts[i], v.fields[i]);
        Associative(old(bytes), done, field.out);
        if r.Fail? {
          return;
        }
        Associative(done, field.out, FieldsFrom(u, v, i + 1).out);
        done := done + field.out;
        i := i + 1;
      }
      assert done + [] == done;
      r := Pass;
    }

    /** WriteObject: ArgumentType for an object not assignable to `t`; 0 for null; 1 for an
        object of exactly `t`, else 2 and its type; then the payload. */
    method WriteObject(t: Type, v: Value) returns (r: Outcome)
      requires universe.Valid() && universe.Known(t) && universe.WellFormed(v)
      modifies this
      ensures bytes == old(bytes) + ObjectBytes(universe, t, v).out
      ensures r == ObjectBytes(universe, t, v).outcome
      decreases v, 4
    {
      if !v.Null? && !universe.IsAssignableFrom(t, universe.RuntimeType(v)) {
        return Fail(ArgumentType);
      }
      ObjectFraming(universe, t, v);
      if v.Null? {
        WriteByte(0);
        return Pass;
      }
      var runtime := universe.RuntimeType(v);
      ghost var header: seq<Byte>;
      if runtime == t {
        WriteByte(1);
        header := [1];
      } else {
        WriteByte(2);
        WriteType(runtime);
        header := [2] + TypeBytes(universe, runtime);
        Associative(old(bytes), [2], TypeBytes(universe, runtime));
      }
      r := WritePayload(v);
      Associative(old(bytes), header, PayloadBytes(universe, v).out);
    }

    /** The part of WriteObject after the tag: a string as UTF-8, `Save` of an
        `ISerializable`, WriteValue of another value type, and ArgumentType for anything else. */
    method WritePayload(v: Value) returns (r: Outcome)
      requires universe.Valid() && universe.WellFormed(v) && !v.Null?
      modifies this
      ensures bytes == old(bytes) + PayloadBytes(universe, v).out
      ensures r == PayloadBytes(universe, v).outcome
      decreases v, 3
    {
      if v.Text? {
        WriteString(Utf8Text, Some(v.text));
        r := Pass;
      } else if universe.CapabilityOf(universe.RuntimeType(v)).Some? {
        r := Save(v);
      } else if universe.IsValueType(universe.RuntimeType(v)) {
        r := WriteValue(v);
      } else {
        r := Fail(ArgumentType);
      }
    }

    /** WriteValueOrObject: ArgumentType for an object not assignable to `t`; WriteValue
        when `t` is a value type, else WriteObject. */
    method WriteValueOrObject(t: Type, v: Value) returns (r: Outcome)
      requires universe.Valid() && universe.Known(t) && universe.WellFormed(v)
      modifies this
      ensures bytes == old(bytes) + ValueOrObjectBytes(universe, t, v).out
      ensures r == ValueOrObjectBytes(universe, t, v).outcome
      decreases v, 5
    {
      if !v.Null? && !universe.IsAssignableFrom(t, universe.RuntimeType(v)) {
        r := Fail(ArgumentType);
      } else if universe.IsValueType(t) {
        SealedValue(universe, t, v);
        r := WriteValue(v);
      } else {
        r := WriteObject(t, v);
      }
    }
  }

  /** The bytes `Save` of `v` writes from field `i` on. */
  function FieldsFrom(u: Universe, v: Value, i: nat): Written
    requires u.Valid() && u.WellFormed(v) && v.Instance? && u.types[v.typeName].capability.Some?
    requires i <= |v.fields|
  {
    FieldsBytes(u, v.typeName, v.fields, i)
  }

  /** `Save` from field `i` on writes field `i` with its declared type, then the fields
      after it unless that throws; and all of them from field 0 on is `Save`. */
  lemma SaveStep(u: Universe, v: Value, i: nat)
    requires u.Valid() && u.WellFormed(v) && v.Instance? && u.types[v.typeName].capability.Some?
    requires i < |v.fields|
    ensures var ft := u.types[v.typeName].capability.value.fields[i];
      && u.Known(ft) && u.WellFormed(v.fields[i])
      && FieldsFrom(u, v, i) == Then(ValueOrObjectBytes(u, ft, v.fields[i]), FieldsFrom(u, v, i + 1))
  {
    var fts := u.types[v.typeName].capability.value.fields;
    assert fts[i] in fts;
  }

  /** The reader constructor from field `i` on reads field `i`, then the fields after it
      unless that throws. */
  lemma FieldsAtUnfold(u: Universe, owner: string, i: nat, s: seq<Byte>)
    requires u.Valid() && owner in u.types && u.types[owner].capability.Some?
    requires i < |u.types[owner].capability.value.fields|
    requires u.types[owner].capability.value.fields[i] in u.types[owner].capability.value.fields
    ensures var field := ValueOrObjectAt(u, u.types[owner].capability.value.fields[i], s);
      && (field.Err? ==> FieldsAt(u, owner, i, s) == Err(field.error))
      && (field.Ok? ==> FieldsAt(u, owner, i, s) == Prepend([field.value.value], FieldsAt(u, owner, i + 1, field.value.rest)))
  {
  }

  lemma PrependNothing(p: Result<Parsed<seq<Value>>>)
    ensures Prepend([], p) == p
  {
    if p.Ok? {
      assert [] + p.value.value == p.value.value;
    }
  }

  lemma PrependPrepend(a: seq<Value>, b: seq<Value>, p: Result<Parsed<seq<Value>>>)
    ensures Prepend(a, Prepend(b, p)) == Prepend(a + b, p)
  {
    if p.Ok? {
      assert a + (b + p.value.value) == (a + b) + p.value.value;
    }
  }

  /** A serializer reading the bytes `data` of a stream, of which the first `pos` are read. */
  class Reader {
    /** The reflection data the serializer consults. */
    const universe: Universe
    /** The whole content of the stream. */
    const data: seq<Byte>
    /** The stream position. */
    var pos: nat

    ghost predicate Valid()
      reads this
    {
      pos <= |data|
    }

    /** What is left to read. */
    function Unread(): (s: seq<Byte>)
      requires Valid()
      reads this
      ensures |s| == |data| - pos
    {
      data[pos..]
    }

    constructor (u: Universe, content: seq<Byte>)
      ensures Valid() && universe == u && data == content && Unread() == content
    {
      universe := u;
      data := content;
      pos := 0;
    }

    /** ReadByte: one byte, or EndOfStream at the end of the stream. */
    method ReadByte() returns (r: Result<Byte>)
      requires Valid()
      modifies this
      ensures Valid()
      ensures r == ValueOf(ByteAt(old(Unread())))
      ensures r.Ok? ==> Unread() == ByteAt(old(Unread())).value.rest
      ensures r.Err? ==> Unread() == []
    {
      if pos < |data| {
        r := Ok(data[pos]);
        pos := pos + 1;
        assert data[pos..] == data[pos - 1..][1..];
      } else {
        r := Err(EndOfStream);
      }
    }

    /** `mStream.Read(buffer, 0, count)` into a fresh zeroed buffer: copies what is left, up to
        `count` bytes, and returns how many it copied. */
    method ReadInto(count: nat) returns (buffer: array<Byte>, n: nat)
      requires Valid()
      modifies this
      ensures Valid() && fresh(buffer)
      ensures n == Min(count, |old(Unread())|)
      ensures buffer[..] == Payload(old(Unread()), count).value
      ensures Unread() == Payload(old(Unread()), count).rest
    {
      ghost var s := Unread();
      buffer := new Byte[count](_ => 0);
      n := 0;
      while n < count && pos < |data|
        invariant Valid() && n <= count && pos == old(pos) + n && n <= |s|
        invariant forall j :: 0 <= j < count ==> buffer[j] == if j < n then s[j] else 0
        decreases count - n
      {
        buffer[n] := data[pos];
        n := n + 1;
        pos := pos + 1;
      }
      assert data[pos..] == s[n..];
      assert buffer[..] == Payload(s, count).value;
    }

    /** Read<T>: the next `size` bytes, or EndOfStream, having consumed the rest of the
        stream, when fewer are left. */
    method ReadRaw(size: nat) returns (r: Result<seq<Byte>>)
      requires Valid()
      modifies this
      ensures Valid()
      ensures r == ValueOf(RawAt(old(Unread()), size))
      ensures r.Ok? ==> Unread() == RawAt(old(Unread()), size).value.rest
      ensures r.Err? ==> Unread() == []
    {
      ghost var s := Unread();
      var buffer, n := ReadInto(size);
      if n < size {
        r := Err(EndOfStream);
      } else {
        r := Ok(buffer[..]);
        assert s[..size] + Zeros(0) == s[..size];
      }
    }

    /** ReadBool: whether the next byte is nonzero. */
    method ReadBool() returns (r: Result<bool>)
      requires Valid()
      modifies this
      ensures Valid()
      ensures r == ValueOf(BoolAt(old(Unread())))
      ensures r.Ok? ==> Unread() == BoolAt(old(Unread())).value.rest
      ensures r.Err? ==> Unread() == []
    {
      var b := ReadByte();
      r := if b.Ok? then Ok(b.value != 0) else Err(b.error);
    }

    /** ReadSByte, ReadChar and ReadDouble .. ReadUShort: ReadByte for the one-byte kinds,
        else `BitConverter.ToXxx` of Read<T>. */
    method ReadNum(k: NumKind) returns (r: Result<int>)
      requires Valid()
      modifies this
      ensures Valid()
      ensures r == ValueOf(NumAt(k, old(Unread())))
      ensures r.Ok? ==> Unread() == NumAt(k, old(Unread())).value.rest
      ensures r.Err? ==> Unread() == []
    {
      ghost var s := Unread();
      if k.Size() == 1 {
        var b := ReadByte();
        if b.Err? {
          return Err(b.error);
        }
        assert s[..1] == [b.value];
        r := Ok(DecodeNum(k, [b.value]));
      } else {
        var bs := ReadRaw(k.Size());
        if bs.Err? {
          return Err(bs.error);
        }
        r := Ok(DecodeNum(k, bs.value));
      }
    }

    /** ReadString8 (`Ascii`), ReadString16 (`Wide`) and ReadStringUtf8 (`Utf8Text`): null for
        a negative length, else the decoded payload. */
    method ReadString(f: Framing) returns (r: Result<Option<string>>)
      requires Valid()
      modifies this
      ensures Valid()
      ensures r == ValueOf(StringAt(f, old(Unread())))
      ensures r.Ok? ==> Unread() == StringAt(f, old(Unread())).value.rest
    {
      var len := ReadNum(Int32);
      if len.Err? {
        return Err(len.error);
      }
      if len.value < 0 {
        return Ok(None);
      }
      match f.PayloadSize(len.value)
      case None =>
        r := Err(Overflow);
      case Some(size) =>
        var buffer, _ := ReadInto(size);
        r := Ok(Some(f.Decode(buffer[..])));
    }

    /** ReadType: a narrow name, InvalidData when it is null, else the type its expanded
        name resolves to, or None. */
    method ReadType() returns (r: Result<Option<Type>>)
      requires Valid()
      modifies this
      ensures Valid()
      ensures r == ValueOf(TypeAt(universe, old(Unread())))
      ensures r.Ok? ==> Unread() == TypeAt(universe, old(Unread())).value.rest
    {
      var name := ReadString(Ascii);
      if name.Err? {
        return Err(name.error);
      }
      if name.value.None? {
        return Err(InvalidData);
      }
      r := Ok(universe.Resolve(FullTypeName(universe.assembly, name.value.value)));
    }

    /** ReadValue: ArgumentValue unless `t` is a value type; the scalar of a built-in; the
        reader constructor of an `ISerializable`; else ArgumentNotSupported. */
    method ReadValue(t: Type) returns (r: Result<Value>)
      requires Valid() && universe.Valid() && universe.Known(t)
      modifies this
      ensures Valid()
      ensures r == ValueOf(ValueAt(universe, t, old(Unread())))
      ensures r.Ok? ==> Unread() == ValueAt(universe, t, old(Unread())).value.rest
      decreases |data| - pos, universe.Level(t) + 1, 2, 0
    {
      if !universe.IsValueType(t) {
        return Err(ArgumentValue);
      }
      match t
      case BoolType =>
        var b := ReadBool();
        r := if b.Ok? then Ok(Boxed(BoolVal(b.value))) else Err(b.error);
      case NumType(k) =>
        var n := ReadNum(k);
        r := if n.Ok? then Ok(Boxed(NumVal(k, n.value))) else Err(n.error);
      case UserType(name) =>
        var c := universe.CapabilityOf(t);
        if c.None? || !c.value.hasReaderCtor {
          return Err(ArgumentNotSupported);
        }
        var fs := ReadFields(name);
        r := if fs.Ok? then Ok(Instance(name, fs.value)) else Err(fs.error);
      case _ =>
        r := Err(ArgumentValue);
    }

    /** The reader constructor of an `ISerializable`: each field with ReadValueOrObject and
        the field's declared type, stopping at the first that throws. */
    method ReadFields(owner: string) returns (r: Result<seq<Value>>)
      requires Valid() && universe.Valid() && owner in universe.types
      requires universe.types[owner].capability.Some?
      modifies this
      ensures Valid()
      ensures r == ValueOf(FieldsAt(universe, owner, 0, old(Unread())))
      ensures r.Ok? ==> Unread() == FieldsAt(universe, owner, 0, old(Unread())).value.rest
      decreases |data| - pos, universe.types[owner].nesting + 1, 1, |universe.types[owner].capability.value.fields|
    {
      var u := universe;
      ghost var s := Unread();
      var fts := u.types[owner].capability.value.fields;
      var fs: seq<Value> := [];
      var i := 0;
      PrependNothing(FieldsAt(u, owner, 0, s));
      while i < |fts|
        invariant Valid() && i <= |fts| && |Unread()| <= |s|
        invariant FieldsAt(u, owner, 0, s) == Prepend(fs, FieldsAt(u, owner, i, Unread()))
        decreases |fts| - i
      {
        assert fts[i] in fts;
        ghost var before := Unread();
        var f := ReadValueOrObject(fts[i]);
        if f.Err? {
          return Err(f.error);
        }
        FieldsAtUnfold(u, owner, i, before);
        PrependPrepend(fs, [f.value], FieldsAt(u, owner, i + 1, Unread()));
        fs := fs + [f.value];
        i := i + 1;
      }
      assert fs + [] == fs;
      r := Ok(fs);
    }

    /** ReadObject: the tag, then null, the declared type's payload, or the payload of the
        written type, which must resolve (else TypeLoad) and be assignable to `t` (else
        ArgumentValue); InvalidData for any other tag. */
    method ReadObject(t: Type) returns (r: Result<Value>)
      requires Valid() && universe.Valid() && universe.Known(t)
      modifies this
      ensures Valid()
      ensures r == ValueOf(ObjectAt(universe, t, old(Unread())))
      ensures r.Ok? ==> Unread() == ObjectAt(universe, t, old(Unread())).value.rest
      decreases |data| - pos, 0, 0, 0
    {
      var tag := ReadByte();
      if tag.Err? {
        return Err(tag.error);
      }
      if tag.value == 0 {
        r := Ok(Null);
      } else if tag.value == 1 {
        r := ReadPayload(t);
      } else if tag.value == 2 {
        var written := ReadType();
        if written.Err? {
          return Err(written.error);
        }
        if written.value.None? {
          return Err(TypeLoad);
        }
        if !universe.IsAssignableFrom(t, written.value.value) {
          return Err(ArgumentValue);
        }
        r := ReadPayload(written.value.value);
      } else {
        r := Err(InvalidData);
      }
    }

    /** The part of ReadObject after the tag: a UTF-8 string for `string`, the reader
        constructor of an `ISerializable` (ArgumentNotSupported without one), ReadValue for
        another value type, and ArgumentValue for anything else. */
    method ReadPayload(t: Type) returns (r: Result<Value>)
      requires Valid() && universe.Valid() && universe.Known(t)
      modifies this
      ensures Valid()
      ensures r == ValueOf(PayloadAt(universe, t, old(Unread())))
      ensures r.Ok? ==> Unread() == PayloadAt(universe, t, old(Unread())).value.rest
      decreases |data| - pos, universe.Level(t) + 1, 3, 0
    {
      if t == StringType {
        var str := ReadString(Utf8Text);
        r := if str.Err? then Err(str.error)
             else if str.value.None? then Ok(Null) else Ok(Text(str.value.value));
        return;
      }
      match universe.CapabilityOf(t)
      case Some(c) =>
        if !c.hasReaderCtor {
          return Err(ArgumentNotSupported);
        }
        var fs := ReadFields(t.name);
        r := if fs.Ok? then Ok(Instance(t.name, fs.value)) else Err(fs.error);
      case None =>
        if universe.IsValueType(t) {
          r := ReadValue(t);
        } else {
          r := Err(ArgumentValue);
        }
    }

    /** ReadValueOrObject: ReadValue when `t` is a value type, else ReadObject. */
    method ReadValueOrObject(t: Type) returns (r: Result<Value>)
      requires Valid() && universe.Valid() && universe.Known(t)
      modifies this
      ensures Valid()
      ensures r == ValueOf(ValueOrObjectAt(universe, t, old(Unread())))
      ensures r.Ok? ==> Unread() == ValueOrObjectAt(universe, t, old(Unread())).value.rest
      decreases |data| - pos, if universe.IsValueType(t) then universe.Level(t) + 1 else 0,
        if universe.IsValueType(t) then 3 else 0, 1
    {
      if universe.IsValueType(t) {
        r := ReadValue(t);
      } else {
        r := ReadObject(t);
      }
    }
  }
}
