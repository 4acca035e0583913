/** The type-name registry of BinarySerializer.cs: two dictionaries, filled once by
    the static constructor, between the assembly-qualified names of 13 built-in types
    and the short codes written to the archive in their place. */
module TypeNames {
  import opened Errors
  import opened Unicode

  /** The display name of the core library's assembly as one runtime reports it; on the
      .NET Framework 2.0 runtime the built-in names end with this one. */
  const Mscorlib20 := "mscorlib, Version=2.0.0.0, Culture=neutral, PublicKeyToken=b77a5c561934e089"

  /** `typeof(System.T).AssemblyQualifiedName` for a type `T` of the core library, on a
      runtime whose core library has the display name `assembly`. */
  function AssemblyQualifiedName(assembly: string, typeName: string): (name: string)
    ensures |name| == 9 + |typeName| + |assembly|
  {
    "System." + typeName + ", " + assembly
  }

  /** Distinct types of the core library have distinct assembly-qualified names. */
  lemma QualifiedNameInjective(assembly: string, a: string, b: string)
    ensures AssemblyQualifiedName(assembly, a) == AssemblyQualifiedName(assembly, b) ==> a == b
  {
    if AssemblyQualifiedName(assembly, a) == AssemblyQualifiedName(assembly, b) {
      assert a == AssemblyQualifiedName(assembly, a)[7..7 + |a|];
    }
  }

  /** The registrations of the static constructor, in order: the type's name within
      `System` and the short code that stands for it. */
  const Registrations: seq<(string, string)> := [
    ("Boolean", "b"), ("Byte", "ui1"), ("SByte", "i1"), ("Char", "c"),
    ("Double", "f8"), ("Single", "f4"), ("Int32", "i4"), ("UInt32", "ui4"),
    ("Int64", "i8"), ("UInt64", "ui8"), ("Int16", "i2"), ("UInt16", "ui2"),
    ("String", "s")]

  /** The first dictionary after the registrations `entries`, made in order. */
  function FullToShortOf(assembly: string, entries: seq<(string, string)>): map<string, string>
  {
    if entries == [] then map[]
    else
      var last := entries[|entries| - 1];
      FullToShortOf(assembly, entries[..|entries| - 1])[AssemblyQualifiedName(assembly, last.0) := last.1]
  }

  /** The second dictionary after the registrations `entries`, made in order. */
  function ShortToFullOf(assembly: string, entries: seq<(string, string)>): map<string, string>
  {
    if entries == [] then map[]
    else
      var last := entries[|entries| - 1];
      ShortToFullOf(assembly, entries[..|entries| - 1])[last.1 := AssemblyQualifiedName(assembly, last.0)]
  }

  /** The contents of the two dictionaries once the static constructor has run. */
  function FullToShort(assembly: string): map<string, string>
  {
    FullToShortOf(assembly, Registrations)
  }

  function ShortToFull(assembly: string): map<string, string>
  {
    ShortToFullOf(assembly, Registrations)
  }

  /** No type and no short code is registered twice. */
  ghost predicate DistinctEntries(entries: seq<(string, string)>)
  {
    forall i, j :: 0 <= i < j < |entries| ==> entries[i].0 != entries[j].0 && entries[i].1 != entries[j].1
  }

  /** Each map undoes the other: together they are one bijection. */
  ghost predicate Inverse(forward: map<string, string>, backward: map<string, string>)
  {
    && (forall k | k in forward :: forward[k] in backward && backward[forward[k]] == k)
    && (forall k | k in backward :: backward[k] in forward && forward[backward[k]] == k)
  }

  /** Adding a fresh pair to both maps of a bijection keeps it one. */
  lemma InverseExtend(forward: map<string, string>, backward: map<string, string>, full: string, short: string)
    requires Inverse(forward, backward) && full !in forward && short !in backward
    ensures Inverse(forward[full := short], backward[short := full])
  {
  }

  /** The keys each dictionary holds after the registrations `entries`. */
  lemma {:induction false} KeysOf(assembly: string, entries: seq<(string, string)>)
    ensures FullToShortOf(assembly, entries).Keys
         == set i | 0 <= i < |entries| :: AssemblyQualifiedName(assembly, entries[i].0)
    ensures ShortToFullOf(assembly, entries).Keys == set i | 0 <= i < |entries| :: entries[i].1
  {
    if entries != [] {
      var init := entries[..|entries| - 1];
      KeysOf(assembly, init);
      assert forall i | 0 <= i < |init| :: init[i] == entries[i];
    }
  }

  /** The next registration adds a name and a code that are not yet present. */
  lemma Fresh(assembly: string, entries: seq<(string, string)>, n: nat)
    requires DistinctEntries(entries) && n < |entries|
    ensures AssemblyQualifiedName(assembly, entries[n].0) !in FullToShortOf(assembly, entries[..n])
    ensures entries[n].1 !in ShortToFullOf(assembly, entries[..n])
  {
    KeysOf(assembly, entries[..n]);
    forall i | 0 <= i < n
      ensures AssemblyQualifiedName(assembly, entries[..n][i].0) != AssemblyQualifiedName(assembly, entries[n].0)
    {
      QualifiedNameInjective(assembly, entries[i].0, entries[n].0);
    }
  }

  /** Registering distinct types under distinct codes, in any order, builds a bijection. */
  lemma {:induction false} RegistrationsInverse(assembly: string, entries: seq<(string, string)>)
    requires DistinctEntries(entries)
    ensures Inverse(FullToShortOf(assembly, entries), ShortToFullOf(assembly, entries))
  {
    if entries != [] {
      var n := |entries| - 1;
      assert DistinctEntries(entries[..n]);
      RegistrationsInverse(assembly, entries[..n]);
      Fresh(assembly, entries, n);
      InverseExtend(FullToShortOf(assembly, entries[..n]), ShortToFullOf(assembly, entries[..n]),
        AssemblyQualifiedName(assembly, entries[n].0), entries[n].1);
    }
  }

  lemma DistinctRegistrations()
    ensures DistinctEntries(Registrations)
  {
  }

  /** A dictionary lookup that passes an unregistered key through unchanged. */
  function Lookup(m: map<string, string>, key: string): (r: string)
    ensures key in m ==> r == m[key]
    ensures key !in m ==> r == key
  {
    if key in m then m[key] else key
  }

  /** Looking a name up through one map of a bijection and back through the other gives it
      back, whether or not the first map has it, provided a name missing from the first
      map is missing from the second too. */
  lemma LookupInverse(forward: map<string, string>, backward: map<string, string>, key: string)
    requires Inverse(forward, backward)
    requires key !in forward ==> key !in backward
    ensures Lookup(backward, Lookup(forward, key)) == key
  {
  }

  /** GetFullTypeName after the static constructor. */
  function FullTypeName(assembly: string, shortTypeName: string): string
  {
    Lookup(ShortToFull(assembly), shortTypeName)
  }

  /** GetShortTypeName after the static constructor. */
  function ShortTypeName(assembly: string, fullTypeName: string): string
  {
    Lookup(FullToShort(assembly), fullTypeName)
  }

  /** The two built-in dictionaries form a bijection: no short code is used twice. */
  lemma BuiltinsInverse(assembly: string)
    ensures Inverse(FullToShort(assembly), ShortToFull(assembly))
  {
    DistinctRegistrations();
    RegistrationsInverse(assembly, Registrations);
  }

  /** Compacting then expanding a name gives it back, for the 13 built-ins and for every
      name that is not itself a short code; expanding then compacting gives back every
      code and every name that is not a registered full name. */
  lemma NamesRoundTrip(assembly: string, name: string)
    ensures name !in ShortToFull(assembly) ==> FullTypeName(assembly, ShortTypeName(assembly, name)) == name
    ensures name !in FullToShort(assembly) ==> ShortTypeName(assembly, FullTypeName(assembly, name)) == name
  {
    BuiltinsInverse(assembly);
  }

  /** The process-wide registry of a runtime whose core library is `assembly`; the
      constructor plays the part of the static constructor. */
  class TypeNameRegistry {
    const assembly: string
    var fullToShort: map<string, string>
    var shortToFull: map<string, string>

    ghost predicate Valid()
      reads this
    {
      Inverse(fullToShort, shortToFull)
    }

    /** RegisterTypeName: two `Dictionary.Add` calls. The first Add that meets a key
        already present throws; a clash on the short code leaves the first Add done. */
    method RegisterTypeName(fullTypeName: string, shortTypeName: string) returns (r: Outcome)
      modifies this
      ensures fullTypeName in old(fullToShort) ==>
        r == Fail(DuplicateKey) && fullToShort == old(fullToShort) && shortToFull == old(shortToFull)
      ensures fullTypeName !in old(fullToShort) ==>
        fullToShort == old(fullToShort)[fullTypeName := shortTypeName]
      ensures fullTypeName !in old(fullToShort) && shortTypeName in old(shortToFull) ==>
        r == Fail(DuplicateKey) && shortToFull == old(shortToFull)
      ensures fullTypeName !in old(fullToShort) && shortTypeName !in old(shortToFull) ==>
        r == Pass && shortToFull == old(shortToFull)[shortTypeName := fullTypeName]
      ensures old(Valid()) && r == Pass ==> Valid()
    {
      if fullTypeName in fullToShort {
        return Fail(DuplicateKey);
      }
      fullToShort := fullToShort[fullTypeName := shortTypeName];
      if shortTypeName in shortToFull {
        return Fail(DuplicateKey);
      }
      shortToFull := shortToFull[shortTypeName := fullTypeName];
      r := Pass;
    }

    /** Before the registration number `n` of the static constructor: the dictionaries
        hold the first `n` registrations. */
    ghost predicate RegisteredUpTo(n: nat)
      requires n <= |Registrations|
      reads this
    {
      && fullToShort == FullToShortOf(assembly, Registrations[..n])
      && shortToFull == ShortToFullOf(assembly, Registrations[..n])
    }

    /** One line of the static constructor: registration number `n` of the table,
        which succeeds because its name and its code are both new. */
    method RegisterBuiltin(n: nat) returns (r: Outcome)
      requires n < |Registrations| && RegisteredUpTo(n)
      modifies this
      ensures r == Pass && RegisteredUpTo(n + 1)
    {
      Next(assembly, n);
      r := RegisterTypeName(AssemblyQualifiedName(assembly, Registrations[n].0), Registrations[n].1);
    }

    /** The second half of the static constructor, from `uint` to `string`. */
    method RegisterSecondHalf()
      requires RegisteredUpTo(7)
      modifies this
      ensures RegisteredUpTo(13)
    {
      var r;
      r := RegisterBuiltin(7);  // "ui4"
      r := RegisterBuiltin(8);  // "i8"
      r := RegisterBuiltin(9);  // "ui8"
      r := RegisterBuiltin(10);  // "i2"
      r := RegisterBuiltin(11);  // "ui2"
      r := RegisterBuiltin(12);  // "s"
    }

    /** The static constructor: registers the 13 built-in names, every one successfully. */
    constructor (assembly: string)
      ensures this.assembly == assembly
      ensures fullToShort == FullToShort(assembly) && shortToFull == ShortToFull(assembly)
      ensures Valid()
    {
      this.assembly := assembly;
      fullToShort, shortToFull := map[], map[];
      new;
      var r;
      r := RegisterBuiltin(0);  // "b"
      r := RegisterBuiltin(1);  // "ui1"
      r := RegisterBuiltin(2);  // "i1"
      r := RegisterBuiltin(3);  // "c"
      r := RegisterBuiltin(4);  // "f8"
      r := RegisterBuiltin(5);  // "f4"
      r := RegisterBuiltin(6);  // "i4"
      RegisterSecondHalf();
      Complete(assembly);
    }

    /** GetFullTypeName: the registered full name of a short code, else the argument. */
    function GetFullTypeName(shortTypeName: string): (r: string)
      reads this
      ensures shortTypeName in shortToFull ==> r == shortToFull[shortTypeName]
      ensures shortTypeName !in shortToFull ==> r == shortTypeName
      ensures Valid() && shortTypeName in shortToFull ==> r in fullToShort && fullToShort[r] == shortTypeName
    {
      Lookup(shortToFull, shortTypeName)
    }

    /** GetShortTypeName: the registered short code of a full name, else the argument. */
    function GetShortTypeName(fullTypeName: string): (r: string)
      reads this
      ensures fullTypeName in fullToShort ==> r == fullToShort[fullTypeName]
      ensures fullTypeName !in fullToShort ==> r == fullTypeName
      ensures Valid() && fullTypeName in fullToShort ==> r in shortToFull && shortToFull[r] == fullTypeName
    {
      Lookup(fullToShort, fullTypeName)
    }
  }

  /** What registration number `n` adds to the dictionaries, and that both its keys are new. */
  lemma Next(assembly: string, n: nat)
    requires n < |Registrations|
    ensures AssemblyQualifiedName(assembly, Registrations[n].0) !in FullToShortOf(assembly, Registrations[..n])
    ensures Registrations[n].1 !in ShortToFullOf(assembly, Registrations[..n])
    ensures FullToShortOf(assembly, Registrations[..n + 1])
      == FullToShortOf(assembly, Registrations[..n])[AssemblyQualifiedName(assembly, Registrations[n].0) := Registrations[n].1]
    ensures ShortToFullOf(assembly, Registrations[..n + 1])
      == ShortToFullOf(assembly, Registrations[..n])[Registrations[n].1 := AssemblyQualifiedName(assembly, Registrations[n].0)]
  {
    DistinctRegistrations();
    Fresh(assembly, Registrations, n);
    assert Registrations[..n + 1][..n] == Registrations[..n];
  }

  /** After the last registration the dictionaries are the built-in bijection. */
  lemma Complete(assembly: string)
    ensures FullToShortOf(assembly, Registrations[..13]) == FullToShort(assembly)
    ensures ShortToFullOf(assembly, Registrations[..13]) == ShortToFull(assembly)
    ensures Inverse(FullToShort(assembly), ShortToFull(assembly))
  {
    assert Registrations[..13] == Registrations;
    BuiltinsInverse(assembly);
  }

  /** Every short code is a short ASCII string, so no assembly-qualified name is one. */
  lemma ShortCodes(assembly: string)
    ensures forall k | k in ShortToFull(assembly) :: |k| <= 3 && IsAscii(k)
    ensures forall k | k in FullToShort(assembly) :: |k| > 3
  {
    KeysOf(assembly, Registrations);
    assert forall i | 0 <= i < |Registrations| :: |Registrations[i].1| <= 3 && IsAscii(Registrations[i].1);
  }

  /** The static constructor registers every type of the table under its full name. */
  lemma Registered(assembly: string, i: nat)
    requires i < |Registrations|
    ensures AssemblyQualifiedName(assembly, Registrations[i].0) in FullToShort(assembly)
  {
    KeysOf(assembly, Registrations);
  }
}
