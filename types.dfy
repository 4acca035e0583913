/** The part of the .NET type system the serializer consults through reflection, as data:
    the built-in types it handles itself, and a universe of user types, each with its
    supertypes, whether it is a value type, and whether it implements `ISerializable`
    (a `Save` method and, perhaps, a constructor taking a `BinarySerializer`).
    Also the type identifiers of BinarySerializer.cs: WriteType and ReadType. */
module Types {
  import opened Errors
  import opened Bytes
  import opened Scalars
  import opened Unicode
  import opened Strings
  import opened TypeNames

  /** A `System.Type`: the built-ins the serializer handles by name, or a user type,
      named by its assembly-qualified name. */
  datatype Type = BoolType | NumType(kind: NumKind) | StringType | ObjectType | UserType(name: string)

  /** An `ISerializable` implementation in the shape this model gives it: `Save` writes the
      fields in order, each with WriteValueOrObject and the field's declared type, and the
      constructor taking a `BinarySerializer` (when there is one) reads them back in order
      with ReadValueOrObject. */
  datatype Capability = Capability(fields: seq<Type>, hasReaderCtor: bool)

  /** What reflection reports about a user type. `nesting` bounds how deeply value types are
      laid out inside it: C# forbids cycles of value-type fields. */
  datatype TypeInfo = TypeInfo(isValueType: bool, supers: set<string>, capability: Option<Capability>, nesting: nat)

  /** A runtime object: null, a boxed scalar, a string, or an instance of a user type
      (the fields that its `Save` writes; none when it has no `Save`). */
  datatype Value = Null | Boxed(scalar: Scalar) | Text(text: string) | Instance(typeName: string, fields: seq<Value>)

  /** The core-library name of a built-in type, within `System`. */
  function CoreName(t: Type): string
    requires !t.UserType?
  {
    match t
    case BoolType => "Boolean"
    case StringType => "String"
    case ObjectType => "Object"
    case NumType(k) =>
      match k
      case UInt8 => "Byte"
      case Int8 => "SByte"
      case Char16 => "Char"
      case Int16 => "Int16"
      case UInt16 => "UInt16"
      case Int32 => "Int32"
      case UInt32 => "UInt32"
      case Int64 => "Int64"
      case UInt64 => "UInt64"
      case Float32 => "Single"
      case Float64 => "Double"
  }

  /** The built-in type with a given core-library name, if there is one. */
  function CoreType(name: string): (t: Option<Type>)
    ensures t.Some? ==> !t.value.UserType? && CoreName(t.value) == name
  {
    if name == "Boolean" then Some(BoolType)
    else if name == "String" then Some(StringType)
    else if name == "Object" then Some(ObjectType)
    else if name == "Byte" then Some(NumType(UInt8))
    else if name == "SByte" then Some(NumType(Int8))
    else if name == "Char" then Some(NumType(Char16))
    else if name == "Int16" then Some(NumType(Int16))
    else if name == "UInt16" then Some(NumType(UInt16))
    else if name == "Int32" then Some(NumType(Int32))
    else if name == "UInt32" then Some(NumType(UInt32))
    else if name == "Int64" then Some(NumType(Int64))
    else if name == "UInt64" then Some(NumType(UInt64))
    else if name == "Single" then Some(NumType(Float32))
    else if name == "Double" then Some(NumType(Float64))
    else None
  }

  lemma CoreNameRoundTrip(t: Type)
    requires !t.UserType?
    ensures CoreType(CoreName(t)) == Some(t)
  {
  }

  /** The core-library name inside an assembly-qualified name of the form
      `System.<name>, <assembly>`, if it has that form. */
  function CoreNameOf(assembly: string, name: string): (r: Option<string>)
    ensures r.Some? ==> name == AssemblyQualifiedName(assembly, r.value)
  {
    var suffix := ", " + assembly;
    if |name| >= 7 + |suffix| && name[..7] == "System." && name[|name| - |suffix|..] == suffix then
      var core := name[7..|name| - |suffix|];
      assert name == name[..7] + core + name[|name| - |suffix|..];
      Some(core)
    else None
  }

  lemma CoreNameOfQualified(assembly: string, core: string)
    ensures CoreNameOf(assembly, AssemblyQualifiedName(assembly, core)) == Some(core)
  {
    var name := AssemblyQualifiedName(assembly, core);
    var suffix := ", " + assembly;
    assert name == "System." + core + suffix;
    assert name[..7] == "System.";
    assert name[|name| - |suffix|..] == suffix;
    assert name[7..|name| - |suffix|] == core;
  }

  /** The built-in type an assembly-qualified name stands for, if any. */
  function BuiltinNamed(assembly: string, name: string): Option<Type>
  {
    match CoreNameOf(assembly, name)
    case None => None
    case Some(core) => CoreType(core)
  }

  /** `type.AssemblyQualifiedName`. */
  function TypeName(assembly: string, t: Type): string
  {
    if t.UserType? then t.name else AssemblyQualifiedName(assembly, CoreName(t))
  }

  /** What a runtime offers: the display name of its core library, which ends the names of
      the built-in types, and the user types reflection can see. */
  datatype Universe = Universe(assembly: string, types: map<string, TypeInfo>)
  {
    predicate Known(t: Type)
    {
      t.UserType? ==> t.name in types
    }

    /** `type.IsValueType`. */
    predicate IsValueType(t: Type)
    {
      match t
      case BoolType | NumType(_) => true
      case StringType | ObjectType => false
      case UserType(n) => n in types && types[n].isValueType
    }

    /** `target.IsAssignableFrom(source)`: the same type, `object`, or a supertype. */
    predicate IsAssignableFrom(target: Type, source: Type)
    {
      || target == source
      || target == ObjectType
      || (target.UserType? && source.UserType? && source.name in types && target.name in types[source.name].supers)
    }

    /** The `ISerializable` implementation of a type, if it has one. */
    function CapabilityOf(t: Type): Option<Capability>
    {
      if t.UserType? && t.name in types then types[t.name].capability else None
    }

    /** How deeply value types nest inside `t`; the built-ins nest nothing. */
    function Level(t: Type): nat
    {
      if t.UserType? && t.name in types then types[t.name].nesting else 0
    }

    /** `Type.GetType(name)`: the built-in or user type with that assembly-qualified name,
        or None (`null`) when no loaded type has it. */
    function Resolve(name: string): (r: Option<Type>)
      ensures r.Some? ==> Known(r.value) && TypeName(assembly, r.value) == name
    {
      match BuiltinNamed(assembly, name)
      case Some(t) => Some(t)
      case None => if name in types then Some(UserType(name)) else None
    }

    /** Well-formed reflection data: the name of `object` and of every user type fits a
        .NET string, supertypes are known
        reference types other than the type itself and closed under inheritance, field types
        are known, and value-type fields nest less deeply than their owner. */
    ghost predicate Valid()
    {
      && |Utf16(TypeName(assembly, ObjectType))| <= MaxInt32
      && forall n | n in types ::
        && |Utf16(n)| <= MaxInt32
        && (forall s | s in types[n].supers ::
              s in types && s != n && !types[s].isValueType && types[s].supers <= types[n].supers)
        && (types[n].capability.Some? ==>
              forall ft | ft in types[n].capability.value.fields ::
                Known(ft) && (IsValueType(ft) ==> Level(ft) < types[n].nesting))
    }

    /** The names of the types survive WriteType: they are ASCII (it writes them narrow),
        and the name of a user type is neither a short code nor the name of a built-in type. */
    ghost predicate Distinguishable()
    {
      && IsAscii(assembly)
      && forall n | n in types ::
        && IsAscii(n)
        && BuiltinNamed(assembly, n).None?
        && n !in ShortToFull(assembly) && n !in FullToShort(assembly)
    }

    /** The runtime type of a non-null value, `obj.GetType()`. */
    function RuntimeType(v: Value): Type
      requires !v.Null?
    {
      match v
      case Boxed(BoolVal(_)) => BoolType
      case Boxed(NumVal(k, _)) => NumType(k)
      case Text(_) => StringType
      case Instance(n, _) => UserType(n)
    }

    /** The values this universe can hold: scalars in range, strings a writer can frame,
        and instances of known types with exactly the fields their `Save` writes. */
    predicate WellFormed(v: Value)
    {
      match v
      case Null => true
      case Boxed(s) => s.Valid()
      case Text(s) => Utf8Text.Fits(s)
      case Instance(n, fs) =>
        && n in types
        && |fs| == (if types[n].capability.Some? then |types[n].capability.value.fields| else 0)
        && forall i | 0 <= i < |fs| :: WellFormed(fs[i])
    }

    /** Every instance inside `v` whose type has a `Save` also has the constructor that reads it. */
    predicate Readable(v: Value)
    {
      match v
      case Instance(n, fs) =>
        && (n in types && types[n].capability.Some? ==> types[n].capability.value.hasReaderCtor)
        && forall i | 0 <= i < |fs| :: Readable(fs[i])
      case _ => true
    }
  }

  /** A value type has no subtype: only itself and `object` are assignable from it, and it
      is assignable only to itself. */
  lemma ValueTypeSealed(u: Universe, target: Type, source: Type)
    requires u.Valid() && u.IsValueType(target) && u.IsAssignableFrom(target, source)
    ensures target == source
  {
  }

  /** Assignability is a preorder with `object` on top: every type is assignable to itself
      and to `object`, and assignability composes, because the supertypes of a supertype
      are supertypes too. */
  lemma AssignablePreorder(u: Universe, a: Type, b: Type, c: Type)
    requires u.Valid()
    ensures u.IsAssignableFrom(a, a) && u.IsAssignableFrom(ObjectType, a)
    ensures u.IsAssignableFrom(a, b) && u.IsAssignableFrom(b, c) ==> u.IsAssignableFrom(a, c)
  {
    if u.IsAssignableFrom(a, b) && u.IsAssignableFrom(b, c) && a != b && b != c && a != ObjectType && b != ObjectType {
      assert b.name in u.types[c.name].supers;
      assert u.types[b.name].supers <= u.types[c.name].supers;
    }
  }

  /** Resolving the name of a known type gives the type back. */
  lemma ResolveTypeName(u: Universe, t: Type)
    requires u.Distinguishable() && u.Known(t)
    ensures u.Resolve(TypeName(u.assembly, t)) == Some(t)
  {
    if !t.UserType? {
      BuiltinNamedRoundTrip(u.assembly, t);
    }
  }

  lemma BuiltinNamedRoundTrip(assembly: string, t: Type)
    requires !t.UserType?
    ensures BuiltinNamed(assembly, TypeName(assembly, t)) == Some(t)
  {
    CoreNameOfQualified(assembly, CoreName(t));
    CoreNameRoundTrip(t);
  }

  // ---------------------------------------------------------------- type identifiers

  /** Where the static constructor registers a built-in type other than `object`. */
  function RegistrationIndex(t: Type): (i: nat)
    requires !t.UserType? && t != ObjectType
    ensures i < |Registrations| && Registrations[i].0 == CoreName(t)
  {
    match t
    case BoolType => 0
    case StringType => 12
    case NumType(k) =>
      match k
      case UInt8 => 1
      case Int8 => 2
      case Char16 => 3
      case Float64 => 4
      case Float32 => 5
      case Int32 => 6
      case UInt32 => 7
      case Int64 => 8
      case UInt64 => 9
      case Int16 => 10
      case UInt16 => 11
  }

  /** The name WriteType writes: the short code of a built-in, else the full name. */
  function TypeId(assembly: string, t: Type): string
  {
    ShortTypeName(assembly, TypeName(assembly, t))
  }

  /** The identifier of every type is an ASCII string that GetFullTypeName turns back into
      the type's name. */
  lemma TypeIdRoundTrip(u: Universe, t: Type)
    requires u.Valid() && u.Distinguishable() && u.Known(t)
    ensures IsAscii(TypeId(u.assembly, t)) && Ascii.Fits(TypeId(u.assembly, t))
    ensures FullTypeName(u.assembly, TypeId(u.assembly, t)) == TypeName(u.assembly, t)
  {
    if t.UserType? {
      UserTypeId(u, t);
    } else if t == ObjectType {
      ObjectTypeId(u);
    } else {
      BuiltinTypeId(u.assembly, t);
    }
    AsciiFits(TypeId(u.assembly, t));
  }

  /** A user type is written under its full name. */
  lemma UserTypeId(u: Universe, t: Type)
    requires u.Valid() && u.Distinguishable() && u.Known(t) && t.UserType?
    ensures TypeId(u.assembly, t) == t.name && FullTypeName(u.assembly, t.name) == t.name
    ensures IsAscii(t.name) && |t.name| <= MaxInt32
  {
    AsciiUnits(t.name);
  }

  /** `object` is not registered: it is written under its full name, which is ASCII. */
  lemma ObjectTypeId(u: Universe)
    requires u.Valid() && u.Distinguishable()
    ensures TypeId(u.assembly, ObjectType) == TypeName(u.assembly, ObjectType)
    ensures FullTypeName(u.assembly, TypeName(u.assembly, ObjectType)) == TypeName(u.assembly, ObjectType)
    ensures IsAscii(TypeName(u.assembly, ObjectType)) && |TypeName(u.assembly, ObjectType)| <= MaxInt32
  {
    var name := TypeName(u.assembly, ObjectType);
    assert name == "System.Object, " + u.assembly;
    assert forall i | 0 <= i < |name| :: name[i] == if i < 15 then "System.Object, "[i] else u.assembly[i - 15];
    AsciiUnits(name);
    NotRegistered(u.assembly, name);
  }

  /** Only the 13 names of the table are registered, and none of them is `object`'s. */
  lemma NotRegistered(assembly: string, name: string)
    requires name == AssemblyQualifiedName(assembly, "Object")
    ensures name !in FullToShort(assembly) && name !in ShortToFull(assembly)
  {
    ShortCodes(assembly);
    KeysOf(assembly, Registrations);
    forall i | 0 <= i < |Registrations|
      ensures AssemblyQualifiedName(assembly, Registrations[i].0) != name
    {
      NotObject(i);
      QualifiedNameInjective(assembly, Registrations[i].0, "Object");
    }
  }

  lemma NotObject(i: nat)
    requires i < |Registrations|
    ensures Registrations[i].0 != "Object"
  {
  }

  /** A built-in type is written as its short code, which is ASCII and at most three long. */
  lemma BuiltinTypeId(assembly: string, t: Type)
    requires !t.UserType? && t != ObjectType
    ensures TypeName(assembly, t) in FullToShort(assembly)
    ensures TypeId(assembly, t) == FullToShort(assembly)[TypeName(assembly, t)]
    ensures IsAscii(TypeId(assembly, t)) && |TypeId(assembly, t)| <= 3
    ensures FullTypeName(assembly, TypeId(assembly, t)) == TypeName(assembly, t)
  {
    Registered(assembly, RegistrationIndex(t));
    BuiltinsInverse(assembly);
    ShortCodes(assembly);
  }
}
