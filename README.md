# BinarySerializer wire format, modelled and proved in Dafny

This project models the binary serializer of LATINO (`BinarySerializer.cs`). The serializer
writes values to a sequential byte stream and reads them back. The model covers:

- the process-wide type-name registry, which the static constructor fills with the 13
  built-in assembly-qualified names and their short codes (`"b"`, `"i4"`, `"s"`, ...);
- the fixed-width scalars: `bool` as one byte, and `byte`, `sbyte`, `char` (one UTF-16 code
  unit), `short` .. `ulong` as their little-endian `BitConverter` bytes; `float` and `double`
  are carried as raw bit patterns;
- the three length-prefixed string framings: narrow (`Encoding.ASCII`), wide
  (`Encoding.Unicode`, UTF-16LE) and UTF-8 (section 3 of RFC 3629);
- type identifiers (`WriteType`/`ReadType`);
- the tag-framed object protocol (`WriteObject`/`ReadObject`: tag 0 null, 1 exact type,
  2 subtype followed by its type identifier);
- the untagged value path (`WriteValue`/`ReadValue`), and the dispatcher between the two
  (`WriteValueOrObject`/`ReadValueOrObject`).

## Structure

| file | module | content |
|---|---|---|
| `bytes.dfy` | `Bytes` | bytes, little-endian layout |
| `errors.dfy` | `Errors` | the exceptions of the modelled operations, one `Error` each; `Option`, `Result`, `Outcome`, `Parsed` |
| `scalars.dfy` | `Scalars` | scalar kinds and their `BitConverter` codec |
| `unicode.dfy` | `Unicode` | UTF-16 code units; the ASCII, UTF-16LE and UTF-8 encodings and decodings |
| `type_names.dfy` | `TypeNames` | the registry as a class whose constructor is the static constructor; the dictionaries it builds |
| `strings.dfy` | `Strings` | `ReadByte`, `Read<T>`, `ReadBool`, the number reads, the string framings |
| `types.dfy` | `Types` | the type system seen through reflection, as data; type names and identifiers |
| `objects.dfy` | `Objects` | byte layouts of `WriteValue`/`WriteObject`/`WriteValueOrObject`/`WriteType`; decoders for the matching reads |
| `round_trip.dfy` | `RoundTrip` | writing, then reading with the same declared type, gives the value back |
| `serializer.dfy` | `Serializer` | the `Writer` and `Reader` classes whose methods are the serializer's methods |

The pure layer works like this:

- A decoder takes the bytes of the stream not yet read. It returns `Ok(Parsed(value, rest))`, where `rest` is what remains unread, or `Err(e)` for the exception the code throws.
- An encoder returns a `Written(out, outcome)`: the bytes it appends, and whether it returns normally or throws after appending them.
- Round trips take the form `Decoder(Encoder(v).out + rest) == Ok(Parsed(v, rest))`. So a read consumes exactly the bytes the write produced, whatever follows them.

The classes in `Serializer` carry the state:

- `Writer.bytes` is everything written so far. Each write method is proved to append exactly what its encoder says and to return the encoder's outcome.
- `Reader` holds the stream content `data` and the position `pos`. Each read method is proved to return what its decoder returns on `data[pos..]`. On success, it advances `pos` past exactly the bytes the decoder consumed.

Reflection is replaced by a `Universe`:

- `assembly` is the display name of the core library, for example
  `mscorlib, Version=2.0.0.0, Culture=neutral, PublicKeyToken=b77a5c561934e089` on .NET 2.0.
  Every built-in `AssemblyQualifiedName` is `System.<Name>, <assembly>`. The assembly is a
  parameter, so the results hold for every runtime.
- a table of user types records, for each type:
  - whether it is a value type;
  - its supertypes (`IsAssignableFrom`);
  - whether it implements `ISerializable`, as a `Capability`: the declared types of the fields that its `Save` writes, in order, each with `WriteValueOrObject`, and whether it has the constructor taking a `BinarySerializer` that reads them back with `ReadValueOrObject`.

## Model

| member | source | states |
|---|---|---|
| TypeNames.TypeNameRegistry.RegisterTypeName | BinarySerializer.cs:38-42 | Both `Dictionary.Add` calls: a full name already present throws DuplicateKey and changes nothing. A short code already present throws after the first dictionary was extended. Otherwise both dictionaries gain the pair, and a bijection stays a bijection. |
| TypeNames.TypeNameRegistry.RegisterBuiltin | BinarySerializer.cs:56-68 | Each line of the static constructor succeeds and adds exactly its registration. |
| TypeNames.TypeNameRegistry.RegisterSecondHalf | BinarySerializer.cs:63-68 | Registrations 8 to 13 succeed in order. |
| TypeNames.TypeNameRegistry.constructor | BinarySerializer.cs:54-69 | After the static constructor, the dictionaries are exactly the 13 registrations and are inverse to each other. |
| TypeNames.TypeNameRegistry.GetFullTypeName | BinarySerializer.cs:44-47 | A registered short code gives its full name, whose code it is. Any other string is returned unchanged. |
| TypeNames.TypeNameRegistry.GetShortTypeName | BinarySerializer.cs:49-52 | A registered full name gives its short code, whose full name it is. Any other string is returned unchanged. |
| TypeNames.LookupInverse | BinarySerializer.cs:44-52 | The `ContainsKey ? map[key] : key` lookup, through one map of a bijection and back through the other, gives the key back. |
| TypeNames.FullTypeName | BinarySerializer.cs:44-47 | GetFullTypeName over the dictionary of the static constructor; `NamesRoundTrip` states what it gives back. |
| TypeNames.ShortTypeName | BinarySerializer.cs:49-52 | GetShortTypeName over the dictionary of the static constructor; `NamesRoundTrip` states what it gives back. |
| TypeNames.RegistrationsInverse | BinarySerializer.cs:38-42 | Registering pairwise distinct names under pairwise distinct codes, in any order, builds two mutually inverse maps. |
| TypeNames.BuiltinsInverse | BinarySerializer.cs:54-69 | The built-in dictionaries form a bijection. |
| TypeNames.NamesRoundTrip | BinarySerializer.cs:44-52 | Compacting then expanding gives back every name that is not itself a short code, the 13 built-ins included. Expanding then compacting gives back every string that is not a registered full name. |
| TypeNames.ShortCodes | BinarySerializer.cs:56-68 | Every short code is ASCII and at most 3 characters long; every registered full name is longer. |
| TypeNames.Registered | BinarySerializer.cs:56-68 | Every type of the table is registered under its assembly-qualified name. |
| TypeNames.Complete | BinarySerializer.cs:54-69 | After the thirteenth registration, the dictionaries are the built-in bijection. |
| TypeNames.QualifiedNameInjective | BinarySerializer.cs:56-68 | Distinct core-library types have distinct assembly-qualified names. |
| Scalars.EncodeNum | BinarySerializer.cs:356-414 | `BitConverter.GetBytes` of every kind is exactly `sizeof(T)` bytes. |
| Scalars.DecodeNum | BinarySerializer.cs:120-168 | `BitConverter.ToXxx` always gives a value of the kind's range. |
| Scalars.NumRoundTrip | BinarySerializer.cs:120-168 | Decoding the bytes of a value of the kind gives the value back. |
| Scalars.NumBytesRoundTrip | BinarySerializer.cs:120-168 | Every `sizeof(T)`-byte pattern is the encoding of the value it decodes to: the codec is a bijection. |
| Scalars.EncodeBool | BinarySerializer.cs:346-349 | WriteBool writes one byte, which ReadBool's test reads back as the same boolean. |
| Scalars.DecodeBool | BinarySerializer.cs:98-101 | `ReadByte() != 0`; `BoolBytes` states which bytes read as true. |
| Scalars.BoolLayout | BinarySerializer.cs:346-349 | WriteBool writes exactly one byte, 0 or 1, which reads back as the same boolean. |
| Scalars.BoolBytes | BinarySerializer.cs:98-101 | Any nonzero byte reads as true. Only 0 and 1 are written back unchanged. |
| Bytes.LittleEndianRoundTrip | BinarySerializer.cs:140-168 | Reading the little-endian bytes of an in-range number gives the number. |
| Bytes.BytesRoundTrip | BinarySerializer.cs:140-168 | Every byte sequence is the little-endian layout of the number it denotes. |
| Unicode.AsciiRoundTrip | BinarySerializer.cs:170-177 | The narrow encoding gives a string back exactly when the string is ASCII. |
| Unicode.WideRoundTrip | BinarySerializer.cs:179-186 | The UTF-16LE encoding gives every string back. |
| Unicode.Utf8RoundTrip | BinarySerializer.cs:188-195 | The UTF-8 encoding gives every string back. |
| Unicode.Utf16RoundTrip | BinarySerializer.cs:179-186 | Decoding the code units of a string, surrogate pairs included, gives the string. |
| Unicode.UnitBytesRoundTrip | BinarySerializer.cs:179-186 | Two bytes per code unit, low byte first, read back as the same units. |
| Unicode.WideBytes | BinarySerializer.cs:423-428 | The wide payload is two bytes per code unit of the string. |
| Unicode.AsciiBytes | BinarySerializer.cs:416-421 | The narrow payload is one byte per UTF-16 code unit, as many as the C# `Length`: the unit itself when ASCII, otherwise `?`, so a surrogate pair gives `??`. |
| Unicode.FromAscii | BinarySerializer.cs:170-177 | The narrow decoding gives one character per byte, and only ASCII characters. |
| Unicode.Utf16 | BinarySerializer.cs:419 | The code units a .NET string holds: at least one and at most two per character, so `Length` is bounded by the number of characters and by twice that number. |
| Unicode.FromUtf16 | BinarySerializer.cs:179-186 | `Encoding.Unicode.GetString` of code units gives at most one character per unit. |
| Unicode.FromWideBytes | BinarySerializer.cs:179-186 | ReadString16's decoding gives at most one character per two bytes. |
| Unicode.Utf8 | BinarySerializer.cs:430-436 | `Encoding.UTF8.GetBytes` writes one to four bytes per character. |
| Unicode.FromUtf8 | BinarySerializer.cs:188-195 | `Encoding.UTF8.GetString` gives at most one character per byte. |
| Unicode.AsciiUnits | BinarySerializer.cs:416-421 | An ASCII string is one code unit per character, equal to the character. |
| Strings.ByteAt | BinarySerializer.cs:103-108 | ReadByte succeeds exactly when a byte is left and then consumes one. Otherwise it throws EndOfStream. |
| Strings.RawAt | BinarySerializer.cs:89-96 | `Read<T>` succeeds exactly when `sizeof(T)` bytes are left and then consumes exactly that many. Otherwise it throws EndOfStream. |
| Strings.NumAt | BinarySerializer.cs:110-168 | Every number read succeeds exactly when the kind's size is left. It consumes exactly that size, gives a value of the kind's range, and otherwise throws EndOfStream. |
| Strings.BoolAt | BinarySerializer.cs:98-101 | ReadBool consumes one byte and is true iff the byte is nonzero. With no byte left it throws EndOfStream. |
| Strings.NumAtRoundTrip | BinarySerializer.cs:120-168 | A number written with its kind reads back with the same kind, with exactly what followed left unread. |
| Strings.BoolAtRoundTrip | BinarySerializer.cs:98-101 | WriteBool then ReadBool gives the boolean back, and consumes exactly its byte. |
| Strings.Int32AtRoundTrip | BinarySerializer.cs:140-143 | A 32-bit length prefix reads back exactly. |
| Strings.Payload | BinarySerializer.cs:174-175 | `mStream.Read` into a fresh buffer of `count` bytes: the bytes left, up to `count`, then zeros, consuming what was there. |
| Strings.StringAt | BinarySerializer.cs:170-195 | The string readers throw exactly when the prefix is short (EndOfStream) or the buffer size overflows (Overflow, wide only). Otherwise they consume at least the four prefix bytes. |
| Strings.StringLayout | BinarySerializer.cs:416-436 | A non-null string is the prefix then the payload. The narrow and wide prefixes count code units, with one and two payload bytes per unit, so the narrow prefix is the payload length; the UTF-8 prefix counts the payload bytes. |
| Strings.StringBytes | BinarySerializer.cs:416-436 | WriteString8, WriteString16 and WriteStringUtf8 as bytes; `StringLayout`, `NullLayout` and `StringRoundTrip` state their properties. |
| Strings.NullLayout | BinarySerializer.cs:416-436 | Null is written by every framing as the four bytes of -1 and nothing else. |
| Strings.NegativeIsNull | BinarySerializer.cs:170-195 | Every negative prefix, not only -1, reads as null, and nothing after it is read. |
| Strings.TruncatedPayload | BinarySerializer.cs:170-195 | A payload shorter than its prefix announces still reads as a string, padded with zero bytes, and leaves the stream at its end. |
| Strings.StringRoundTrip | BinarySerializer.cs:170-195 | Framing then reading gives the string back, null included, with what followed unread. The one exception is the narrow framing, which gives back exactly the ASCII strings. |
| Strings.NarrowSurrogatePair | BinarySerializer.cs:416-421 | WriteString8 of U+1F600 writes the prefix 2 and `??`. ReadString8 reads `"??"` and leaves the byte after it unread. |
| Strings.CheckedTruncated | BinarySerializer.cs:89-96 | A string reader that checks the count `mStream.Read` returns, as `Read<T>` does, throws EndOfStream exactly for a payload cut short. |
| Strings.CheckedStringRoundTrip | BinarySerializer.cs:170-195 | On what a writer framed, the validating reader reads exactly what the reader as written reads, so every round trip carries over. |
| Strings.AsciiFits | BinarySerializer.cs:416-421 | Every ASCII string of .NET length can be framed narrow. |
| Types.Universe.Resolve | BinarySerializer.cs:202-207 | `Type.GetType` gives a known type having exactly that name, or null. |
| Types.ResolveTypeName | BinarySerializer.cs:202-207 | Resolving the name of a known type gives the type back. |
| Types.TypeName | BinarySerializer.cs:569 | `type.AssemblyQualifiedName`: the name of a user type, and `System.<Name>, <assembly>` for a built-in. `CoreNameOfQualified` and `ResolveTypeName` state what it determines. |
| Types.Universe.IsValueType | BinarySerializer.cs:212 | `type.IsValueType`: true for `bool` and the numbers, false for `string` and `object`, the table's flag for a user type; `ValueTypeSealed` states its consequence. |
| Types.Universe.IsAssignableFrom | BinarySerializer.cs:506 | `type.IsAssignableFrom`: the same type, `object`, or a recorded supertype; `AssignablePreorder` states its laws. |
| Types.AssignablePreorder | BinarySerializer.cs:287-292 | Assignability is reflexive and transitive, and every type is assignable to `object`. |
| Types.TypeId | BinarySerializer.cs:566-570 | The string WriteType writes, `GetShortTypeName(type.AssemblyQualifiedName)`; `TypeIdRoundTrip` states what it gives back. |
| Types.ValueTypeSealed | BinarySerializer.cs:547-559 | A value type is assignable only from itself. |
| Types.TypeIdRoundTrip | BinarySerializer.cs:566-570 | Every type identifier is ASCII, fits the narrow framing, and is turned back into the type's name by GetFullTypeName. |
| Types.BuiltinTypeId | BinarySerializer.cs:566-570 | A built-in type other than `object` is written as its short code. |
| Types.ObjectTypeId | BinarySerializer.cs:566-570 | `object` is not registered and is written under its full name. |
| Types.UserTypeId | BinarySerializer.cs:566-570 | A user type is written under its full name, which expands to itself. |
| Types.NotRegistered | BinarySerializer.cs:56-68 | The name of `object` is neither a registered full name nor a short code. |
| Types.CoreNameOfQualified | BinarySerializer.cs:56-68 | The core name is recovered from an assembly-qualified name. |
| Types.CoreNameRoundTrip | BinarySerializer.cs:56-68 | Each built-in type has its own core name. |
| Types.BuiltinNamedRoundTrip | BinarySerializer.cs:202-207 | The name of every built-in type resolves to that type. |
| Objects.TypeIdFits | BinarySerializer.cs:566-570 | Every known type's identifier can be written narrow. |
| Objects.TypeAt | BinarySerializer.cs:202-207 | ReadType reads a narrow string. It throws InvalidData for null and otherwise resolves the expanded name, consuming exactly the string; errors of the string read propagate. |
| Objects.TypeBytes | BinarySerializer.cs:566-570 | WriteType as bytes; `TypeRoundTrip` states what ReadType makes of them. |
| Objects.TypeRoundTrip | BinarySerializer.cs:202-207 | WriteType then ReadType gives the type back, with what followed unread. |
| Objects.NonAsciiTypeLost | BinarySerializer.cs:566-570 | A user type whose name is not ASCII is written, and ReadType reads something, but never that type. |
| Objects.Then | BinarySerializer.cs:513-537 | The writes of a method run in sequence. A write that throws stops the writes after it, and the sequence finishes only when every write does. |
| Objects.ThenSequence | BinarySerializer.cs:513-537 | What an earlier write appended stays at the front whatever follows, and grouping writes does not change the result. |
| Objects.ValueTags | BinarySerializer.cs:209-271 | ReadValue throws ArgumentValue for a reference type. It throws ArgumentNotSupported for a value type with no `Save` or no reader constructor. It reads `bool` and the numbers by their layouts and throws EndOfStream when they are cut short. |
| Objects.ValueAt | BinarySerializer.cs:209-271 | ReadValue as a decoder; `ValueTags` states its cases. |
| Objects.PayloadAt | BinarySerializer.cs:296-313 | The payload half of ReadObject, for the declared or written type; `PayloadRoundTrip` states what it reads back. |
| Objects.ValueOrObjectAt | BinarySerializer.cs:321-332 | ReadValueOrObject is ReadValue exactly for value types, else ReadObject. |
| Objects.ObjectAt | BinarySerializer.cs:278-314 | ReadObject always consumes at least its tag. |
| Objects.ObjectTags | BinarySerializer.cs:278-314 | The tags: <ul><li>no byte left: EndOfStream;</li><li>0: null;</li><li>1: the declared type's payload;</li><li>2: a type identifier, with a null name giving InvalidData, an unresolved type TypeLoad and a type not assignable to the declared one ArgumentValue, else that type's payload;</li><li>any other tag: InvalidData.</li></ul> |
| Objects.SubtypeTag | BinarySerializer.cs:287-292 | Tag 2 with a resolved, assignable type reads that type's payload. |
| Objects.FieldsAt | BinarySerializer.cs:302-304 | The reader constructor reads exactly one value per field. |
| Objects.FieldsAtStep | BinarySerializer.cs:302-304 | The reader constructor reads field `i` with its declared type, then the rest. |
| Objects.SealedValue | BinarySerializer.cs:547-559 | An object assignable to a value type has exactly that type. |
| Objects.ValueCases | BinarySerializer.cs:443-501 | WriteValue writes a built-in scalar as its bytes. For null and for a value type without `Save`, it throws ArgumentType having written nothing. |
| Objects.ValueOrObjectDispatch | BinarySerializer.cs:547-559 | WriteValueOrObject throws ArgumentType, having written nothing, for an object not assignable to the declared type. Otherwise it is WriteValue when the declared type is a value type, the object then having exactly that type, and WriteObject when it is not. |
| Objects.ObjectFraming | BinarySerializer.cs:503-540 | WriteObject writes: <ul><li>nothing before the ArgumentType of a non-assignable object;</li><li>byte 0 alone for null;</li><li>byte 1 then the payload for the exact type;</li><li>byte 2, the type identifier and the payload for a proper subtype.</li></ul> |
| Objects.SubtypeFraming | BinarySerializer.cs:518-522 | A proper subtype is written as 2, its identifier, the payload. |
| Objects.ValueBytes | BinarySerializer.cs:443-501 | WriteValue as bytes and outcome; `ValueCases` states its cases. |
| Objects.SaveBytes | BinarySerializer.cs:493-496 | `Save` of an `ISerializable` value, writing its fields; `SaveRoundTrip` states what the reader constructor reads. |
| Objects.FieldsBytes | BinarySerializer.cs:527-530 | `Save` from field `i` on; `FieldsBytesStep` states its shape. |
| Objects.ValueOrObjectBytes | BinarySerializer.cs:547-559 | WriteValueOrObject as bytes and outcome; `ValueOrObjectDispatch` states its cases. |
| Objects.ObjectBytes | BinarySerializer.cs:503-540 | WriteObject as bytes and outcome; `ObjectFraming` states its layout. |
| Objects.PayloadBytes | BinarySerializer.cs:523-538 | The payload half of WriteObject; `PayloadRoundTrip` states what it reads back as. |
| Objects.FieldsBytesStep | BinarySerializer.cs:527-530 | `Save` writes field `i` with WriteValueOrObject, then the rest, unless that throws. |
| RoundTrip.ValueOrObjectRoundTrip | BinarySerializer.cs:321-332 | WriteValueOrObject then ReadValueOrObject with the same declared type gives the value back, having consumed exactly the bytes written. |
| RoundTrip.ObjectRoundTrip | BinarySerializer.cs:278-314 | WriteObject then ReadObject gives back null, strings, scalars and readable `ISerializable` objects, having consumed exactly the bytes written. |
| RoundTrip.ExactRoundTrip | BinarySerializer.cs:285-286 | The same, for tag 1. |
| RoundTrip.SubtypeRoundTrip | BinarySerializer.cs:287-292 | The same, for tag 2, through the type identifier. |
| RoundTrip.PayloadRoundTrip | BinarySerializer.cs:296-313 | The payload after the tag reads back as the runtime type. |
| RoundTrip.SavedPayloadRoundTrip | BinarySerializer.cs:300-305 | `Save` is read back by the reader constructor. |
| RoundTrip.ValuePayloadRoundTrip | BinarySerializer.cs:306-309 | A value type without `Save` is read back by ReadValue. |
| RoundTrip.ValueRoundTrip | BinarySerializer.cs:209-271 | WriteValue then ReadValue of the value's type gives the value back. |
| RoundTrip.SaveRoundTrip | BinarySerializer.cs:261-266 | `Save` then the reader constructor gives the fields back. |
| RoundTrip.FieldsRoundTrip | BinarySerializer.cs:261-266 | The same, from field `i` on. |
| RoundTrip.FieldRoundTrip | BinarySerializer.cs:261-266 | One field, then the fields after it. |
| RoundTrip.FieldsLayout | BinarySerializer.cs:527-530 | `Save` from field `i` is the field's bytes, then the others'. |
| RoundTrip.UnreadableInstance | BinarySerializer.cs:300-303 | An `ISerializable` without a reader constructor is written, but ReadObject rejects it with ArgumentNotSupported. |
| Serializer.Writer.constructor | BinarySerializer.cs:77-80 | A new serializer over an empty memory stream has written nothing. |
| Serializer.Writer.Write | BinarySerializer.cs:341-344 | Appends the bytes in order. |
| Serializer.Writer.WriteByte | BinarySerializer.cs:351-354 | Appends one byte. |
| Serializer.Writer.WriteBool | BinarySerializer.cs:346-349 | Appends 1 or 0. |
| Serializer.Writer.WriteNum | BinarySerializer.cs:356-414 | Appends the `BitConverter` bytes of the value. |
| Serializer.Writer.WriteString | BinarySerializer.cs:416-441 | Appends -1 for null, else the prefix and the encoded characters. |
| Serializer.Writer.WriteType | BinarySerializer.cs:566-570 | Appends the type identifier as a narrow string. |
| Serializer.Writer.WriteValue | BinarySerializer.cs:443-501 | Appends the bytes of the value layout and returns its outcome. |
| Serializer.Writer.Save | BinarySerializer.cs:493-496 | Appends each field with WriteValueOrObject, stopping at the first that throws, and returns that outcome. |
| Serializer.Writer.WriteObject | BinarySerializer.cs:503-540 | Appends the tag, the type identifier for a proper subtype, and the payload, and returns the outcome of the object layout. |
| Serializer.Writer.WritePayload | BinarySerializer.cs:523-538 | Appends the payload of a string, of an `ISerializable` or of a value type. Any other object throws ArgumentType. |
| Serializer.Writer.WriteValueOrObject | BinarySerializer.cs:547-559 | Appends and returns what the dispatcher's layout says. |
| Serializer.Reader.constructor | BinarySerializer.cs:71-75 | A serializer over a stream positioned at its start. |
| Serializer.Reader.ReadByte | BinarySerializer.cs:103-108 | Returns the next byte and advances past it, or throws EndOfStream at the end. |
| Serializer.Reader.ReadInto | BinarySerializer.cs:174-175 | `mStream.Read` copies what is left, up to the count, into a fresh zeroed buffer and returns how many bytes it copied. |
| Serializer.Reader.ReadRaw | BinarySerializer.cs:89-96 | `Read<T>` returns the next `sizeof(T)` bytes, or throws EndOfStream having consumed the rest of the stream. |
| Serializer.Reader.ReadBool | BinarySerializer.cs:98-101 | Returns whether the next byte is nonzero. |
| Serializer.Reader.ReadNum | BinarySerializer.cs:110-168 | Returns the number of the kind and advances past its bytes, or throws EndOfStream having consumed the rest. |
| Serializer.Reader.ReadString | BinarySerializer.cs:170-200 | Returns what the string framing decodes and advances past it. |
| Serializer.Reader.ReadType | BinarySerializer.cs:202-207 | Returns what ReadType's layout decodes and advances past it. |
| Serializer.Reader.ReadValue | BinarySerializer.cs:209-271 | Returns what ReadValue's layout decodes and advances past it. |
| Serializer.Reader.ReadFields | BinarySerializer.cs:263-265 | The reader constructor reads each field with ReadValueOrObject, stopping at the first that throws. |
| Serializer.Reader.ReadObject | BinarySerializer.cs:278-314 | Returns what ReadObject's layout decodes and advances past it. |
| Serializer.Reader.ReadPayload | BinarySerializer.cs:296-313 | Returns the payload of the declared or written type and advances past it. |
| Serializer.Reader.ReadValueOrObject | BinarySerializer.cs:321-332 | Returns what the dispatcher's layout decodes and advances past it. |

## Left out

- Stream plumbing (BinarySerializer.cs:71-85 and 574-587): constructing file and memory streams, `Close`, `Flush`, the `Stream` property, and the I/O exceptions of the medium. The writer is modelled over a stream that starts empty, and the reader over a fixed content.
- Reflection: `Type.GetType`, `GetConstructor` and `Invoke` are replaced by the `Universe` table. A user `Save` and its reader constructor are modelled as writing and reading their fields in order with WriteValueOrObject and ReadValueOrObject. Any other user code inside them is not modelled.
- `float` and `double` are carried as their raw IEEE 754 bit patterns: no floating-point semantics.
- `.NET Encoding` internals beyond the three encodings. Strings with unpaired surrogates are outside the model, because a Dafny `string` holds Unicode scalar values.
- Unicode.FromUtf8: ill-formed input is decoded with one U+FFFD per maximal ill-formed subpart. This is the Unicode recommendation that `Encoding.UTF8` follows from .NET Core 3.0 on. The .NET Framework 2.0 decoder, the runtime of the `mscorlib 2.0` example above, replaces some ill-formed sequences differently, and that is not modelled.
- Types.Universe.IsAssignableFrom: only user types record supertypes. A built-in type is assignable only to itself and to `object`, and built-in interfaces and base classes such as `IComparable`, `ValueType` or `IEnumerable<char>` are not types of the model. So a declared type of that kind, which .NET accepts for a `bool`, a number or a string at BinarySerializer.cs:506, is not modelled.
- Types.Universe.Distinguishable: the round trips through WriteType assume ASCII type names, because WriteType writes names narrow. A user type with a non-ASCII name does not come back (`Objects.NonAsciiTypeLost`).
- `WriteChar8` and `ReadChar8` (BinarySerializer.cs:115-118, 361-364): the reader is private and unused.
- The generic wrappers `ReadValue<T>`, `ReadObject<T>`, `ReadValueOrObject<T>`, `WriteObject<T>` and `WriteValueOrObject<T>` (BinarySerializer.cs:273-276, 316-319, 334-337, 542-545, 561-564): each only adds `typeof(T)` and a cast.
- `ReadString` and `WriteString` (BinarySerializer.cs:197-200, 438-441) are the UTF-8 framing and are modelled by it.
- ArgumentNullException for a null `type` cannot arise: a `Type` in the model is never null.
- OutOfMemoryException for a huge but legal buffer size is not modelled.
- The wide reader computes `len * 2` in unchecked 32-bit arithmetic. For every length of 2^30 or more the product wraps negative and `new byte[...]` throws. This is modelled as Overflow.
- Strings.StringBytes: requires the string to fit: the prefix in 32 bits and the encoded bytes in one array. Longer strings do not exist in .NET, or make `GetBytes` throw, which is not modelled.
- Strings.StringRoundTrip: for the wide framing, requires fewer than 2^30 code units, which every .NET string satisfies.
- Serializer.Reader.ReadString: the stream position after an exception is not stated.
- Serializer.Reader.ReadType: the stream position after an exception is not stated.
- Serializer.Reader.ReadValue: the stream position after an exception is not stated.
- Serializer.Reader.ReadFields: the stream position after an exception is not stated.
- Serializer.Reader.ReadObject: the stream position after an exception is not stated.
- Serializer.Reader.ReadPayload: the stream position after an exception is not stated.
- Serializer.Reader.ReadValueOrObject: the stream position after an exception is not stated.
- The other files of the repository (models, tutorials, the stemmer) only use the serializer and are not part of this model.

## Findings

| source | as written | input that shows it | evidently intended | confidence | as-written member | corrected member |
|---|---|---|---|---|---|---|
| BinarySerializer.cs:170-195 | the string readers ignore the count `mStream.Read` returns and pad a short payload with zeros | the prefix 5 followed by two bytes reads as a five-character string, with nothing left (`Strings.TruncatedPayload`) | a short payload raises EndOfStream, as `Read<T>` does at BinarySerializer.cs:89-96 | not executed | Strings.TruncatedPayload | Strings.CheckedStringAt, Strings.CheckedTruncated, Strings.CheckedStringRoundTrip |

The round trips above use the readers as written. Every read they make is of a complete payload, so `Strings.CheckedStringRoundTrip` carries them over to the validating reader.
