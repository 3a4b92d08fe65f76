/**
 * `convert_object_class` (app/ds/convertors_value.py:77-112 and its legacy
 * copy ds/_convertors_value.py:81-116): a two-way converter between an
 * objectClass chain and the short type name the gateway uses.
 *
 * A chain matches a table entry when the two are equal once sorted, that is
 * when they hold the same multiset of class names; a chain that matches no
 * entry is handed back unchanged. A short name is looked up after Python's
 * `str.lower()`, which the table's mixed-case keys can never equal.
 */
module ObjectClass {
  import opened Wrappers
  import opened Text

  /** One row of `list_types`: a short name and its objectClass chain. */
  datatype ClassEntry = ClassEntry(key: string, chain: seq<string>)

  /** `list_types`, in dictionary order (app/ds/convertors_value.py:90-100). */
  const ObjectClassTable: seq<ClassEntry> := [
    ClassEntry("user", ["top", "person", "organizationalPerson", "user"]),
    ClassEntry("contact", ["top", "person", "organizationalPerson", "contact"]),
    ClassEntry("group", ["top", "group"]),
    ClassEntry("computer", ["top", "person", "organizationalPerson", "user", "computer"]),
    ClassEntry("organizationalUnit", ["top", "organizationalUnit"]),
    ClassEntry("builtinDomain", ["top", "builtinDomain"]),
    ClassEntry("foreignSecurityPrincipal", ["top", "foreignSecurityPrincipal"]),
    ClassEntry("domainDNS", ["top", "domain", "domainDNS"]),
    ClassEntry("inetOrgPerson", ["top", "user", "person", "inetOrgPerson", "organizationalPerson"])
  ]

  /** The legacy copy of `list_types` (ds/_convertors_value.py:94-104). */
  const LegacyObjectClassTable: seq<ClassEntry> := [
    ClassEntry("user", ["top", "person", "organizationalPerson", "user"]),
    ClassEntry("contact", ["top", "person", "organizationalPerson", "contact"]),
    ClassEntry("group", ["top", "group"]),
    ClassEntry("computer", ["top", "person", "organizationalPerson", "user", "computer"]),
    ClassEntry("organizationalUnit", ["top", "organizationalUnit"]),
    ClassEntry("builtinDomain", ["top", "builtinDomain"]),
    ClassEntry("foreignSecurityPrincipal", ["top", "foreignSecurityPrincipal"]),
    ClassEntry("domainDNS", ["top", "domain", "domainDNS"]),
    ClassEntry("inetOrgPerson", ["top", "user", "person", "inetOrgPerson", "organizationalPerson"])
  ]

  datatype ClassConverted = ShortName(name: string) | Chain(classes: seq<string>)

  /** Python truthiness of the `name` argument: given and non-empty. */
  predicate NameGiven(name: Option<string>) {
    name.Some? && |name.value| > 0
  }

  /** Python truthiness of the `flags` argument: given and non-empty. */
  predicate FlagsGiven(flags: Option<seq<string>>) {
    flags.Some? && |flags.value| > 0
  }

  /** `sorted(a) == sorted(b)`: the same class names, each as often. */
  predicate SameClasses(a: seq<string>, b: seq<string>) {
    multiset(a) == multiset(b)
  }

  /** The first entry from index `i` on whose chain holds the classes of `flags`. */
  function FirstMatch(T: seq<ClassEntry>, flags: seq<string>, i: nat): (r: Option<nat>)
    ensures r.Some? ==> i <= r.value < |T| && SameClasses(T[r.value].chain, flags)
    ensures r.Some? ==> forall j | i <= j < r.value :: !SameClasses(T[j].chain, flags)
    ensures r.None? ==> forall j | i <= j < |T| :: !SameClasses(T[j].chain, flags)
    decreases |T| - i
  {
    if i >= |T| then None
    else if SameClasses(T[i].chain, flags) then Some(i)
    else FirstMatch(T, flags, i + 1)
  }

  /** The first entry from index `i` on whose key satisfies `same` against `name`. */
  function KeyIndex(T: seq<ClassEntry>, name: string, folded: bool, i: nat): (r: Option<nat>)
    ensures r.Some? ==> i <= r.value < |T| && KeyMatches(T[r.value].key, name, folded)
    ensures r.Some? ==> forall j | i <= j < r.value :: !KeyMatches(T[j].key, name, folded)
    ensures r.None? ==> forall j | i <= j < |T| :: !KeyMatches(T[j].key, name, folded)
    decreases |T| - i
  {
    if i >= |T| then None
    else if KeyMatches(T[i].key, name, folded) then Some(i)
    else KeyIndex(T, name, folded, i + 1)
  }

  /**
   * Key comparison for a name lookup: as written, the key must equal the
   * lowered name; `folded` compares both sides folded instead.
   */
  predicate KeyMatches(key: string, name: string, folded: bool) {
    if folded then Fold(key) == Fold(name) else key == Fold(name)
  }

  /** Some entry of `T` answers the name lookup. */
  predicate HasKey(T: seq<ClassEntry>, name: string, folded: bool) {
    exists j :: 0 <= j < |T| && KeyMatches(T[j].key, name, folded)
  }

  /**
   * The converter over table `T`. The checks on both keys come first; a flag
   * list, even an empty one, then takes precedence over the name.
   */
  function ConvertWith(T: seq<ClassEntry>, folded: bool, name: Option<string>, flags: Option<seq<string>>)
    : (r: Result<ClassConverted>)
    ensures r.Err? ==> r.failure.exc == RuntimeError
    ensures r.Ok? <==> (NameGiven(name) != FlagsGiven(flags)
      && (flags.None? ==> HasKey(T, name.value, folded)))
    ensures r.Ok? && flags.Some? ==>
      (r.value.ShortName? && exists j :: 0 <= j < |T| && T[j].key == r.value.name && SameClasses(T[j].chain, flags.value))
      || (r.value == Chain(flags.value) && forall j | 0 <= j < |T| :: !SameClasses(T[j].chain, flags.value))
    ensures r.Ok? && flags.None? ==>
      r.value.Chain? && exists j :: 0 <= j < |T| && KeyMatches(T[j].key, name.value, folded) && T[j].chain == r.value.classes
  {
    if !NameGiven(name) && !FlagsGiven(flags) then Raise(RuntimeError, "one of the keys is required")
    else if NameGiven(name) && FlagsGiven(flags) then Raise(RuntimeError, "both keys given")
    else if flags.Some? then
      match FirstMatch(T, flags.value, 0)
      case Some(k) => Ok(ShortName(T[k].key))
      case None => Ok(Chain(flags.value))
    else
      match KeyIndex(T, name.value, folded, 0)
      case Some(k) => Ok(Chain(T[k].chain))
      case None => Raise(RuntimeError, "unknown object type")
  }

  /**
   * `convert_object_class` as written (app/ds/convertors_value.py:77-112): a
   * name alone converts exactly when its lowered form is literally a key,
   * and then to that key's chain; a class list alone always converts.
   */
  function ConvertObjectClassAsWritten(name: Option<string>, flags: Option<seq<string>>): (r: Result<ClassConverted>)
    ensures r.Err? ==> r.failure.exc == RuntimeError
    ensures FlagsGiven(flags) && !NameGiven(name) ==> r.Ok?
    ensures NameGiven(name) && flags.None? ==>
      (r.Ok? <==> exists j :: 0 <= j < |ObjectClassTable| && ObjectClassTable[j].key == Fold(name.value))
    ensures r.Ok? && flags.None? ==>
      name.Some? && exists j :: 0 <= j < |ObjectClassTable| && ObjectClassTable[j].key == Fold(name.value)
                                && r.value == Chain(ObjectClassTable[j].chain)
  {
    ConvertWith(ObjectClassTable, false, name, flags)
  }

  /**
   * `convert_object_class` with the name looked up case-insensitively: a
   * name alone converts exactly when it is a key up to case, and then to
   * that key's chain; a class list alone always converts.
   */
  function ConvertObjectClass(name: Option<string>, flags: Option<seq<string>>): (r: Result<ClassConverted>)
    ensures r.Err? ==> r.failure.exc == RuntimeError
    ensures FlagsGiven(flags) && !NameGiven(name) ==> r.Ok?
    ensures NameGiven(name) && flags.None? ==>
      (r.Ok? <==> exists j :: 0 <= j < |ObjectClassTable| && Fold(ObjectClassTable[j].key) == Fold(name.value))
    ensures r.Ok? && flags.None? ==>
      name.Some? && exists j :: 0 <= j < |ObjectClassTable| && Fold(ObjectClassTable[j].key) == Fold(name.value)
                                && r.value == Chain(ObjectClassTable[j].chain)
  {
    ConvertWith(ObjectClassTable, true, name, flags)
  }

  /**
   * The legacy `convert_object_class` (ds/_convertors_value.py:81-116), over
   * its own table: it answers exactly as the app converter as written.
   */
  function LegacyConvertObjectClass(name: Option<string>, flags: Option<seq<string>>): (r: Result<ClassConverted>)
    ensures r == ConvertObjectClassAsWritten(name, flags)
  {
    assert LegacyObjectClassTable == ObjectClassTable;
    ConvertWith(LegacyObjectClassTable, false, name, flags)
  }

  // ---------------------------------------------------------------------------
  // Lookups over any table

  /** A non-empty chain is found at the first entry holding its classes. */
  lemma FoundByChain(T: seq<ClassEntry>, folded: bool, flags: seq<string>, j: nat)
    requires flags != [] && j < |T| && SameClasses(T[j].chain, flags)
    requires forall i | 0 <= i < j :: !SameClasses(T[i].chain, flags)
    ensures ConvertWith(T, folded, None, Some(flags)) == Ok(ShortName(T[j].key))
  {
    var r := FirstMatch(T, flags, 0);
    assert r.Some? && r.value <= j;
  }

  /** A non-empty name is found at the first entry whose key answers it. */
  lemma FoundByKey(T: seq<ClassEntry>, folded: bool, name: string, j: nat)
    requires name != [] && j < |T| && KeyMatches(T[j].key, name, folded)
    requires forall i | 0 <= i < j :: !KeyMatches(T[i].key, name, folded)
    ensures ConvertWith(T, folded, Some(name), None) == Ok(Chain(T[j].chain))
  {
    var r := KeyIndex(T, name, folded, 0);
    assert r.Some? && r.value <= j;
  }

  // ---------------------------------------------------------------------------
  // The table: chains and folded keys are pairwise distinct

  /** No two entries hold the same classes. */
  lemma ChainsDistinct(i: nat, j: nat)
    requires i < j < |ObjectClassTable|
    ensures !SameClasses(ObjectClassTable[i].chain, ObjectClassTable[j].chain)
  {
    var a, b := ObjectClassTable[i].chain, ObjectClassTable[j].chain;
    if |a| != |b| {
      assert |multiset(a)| != |multiset(b)|;
    } else {
      var x := a[|a| - 1];
      assert x in multiset(a);
      assert x !in b;
    }
  }

  /**
   * No two keys differ only in case: their lengths differ, except for
   * "builtinDomain" and "inetOrgPerson", which differ in the first letter.
   */
  lemma KeysDistinct(i: nat, j: nat)
    requires i < j < |ObjectClassTable|
    ensures Fold(ObjectClassTable[i].key) != Fold(ObjectClassTable[j].key)
  {
    var a, b := ObjectClassTable[i].key, ObjectClassTable[j].key;
    assert |a| != |b| || (i == 5 && j == 8);
    if |a| == |b| {
      assert a[0] == 'b' && b[0] == 'i';
    }
    FoldDiffers(a, b);
  }

  /** The last five keys hold an upper-case letter, so lowering changes them. */
  lemma MixedCaseKey(j: nat)
    requires 4 <= j < |ObjectClassTable|
    ensures Fold(ObjectClassTable[j].key) != ObjectClassTable[j].key
  {
    var name := ObjectClassTable[j].key;
    var p := if j == 4 then 14 else if j == 5 then 7 else if j == 6 then 7 else if j == 7 then 6 else 4;
    assert 'A' <= name[p] <= 'Z';
    FoldChanges(name, p);
  }

  /** The first four keys are lower case already. */
  lemma LowerCaseKey(j: nat)
    requires j < 4
    ensures Fold(ObjectClassTable[j].key) == ObjectClassTable[j].key
  {
    FoldLowerCase(ObjectClassTable[j].key);
  }

  // ---------------------------------------------------------------------------
  // Round trips

  /** Each chain of the table converts to its short name, whatever its order. */
  lemma ChainToName(j: nat, flags: seq<string>)
    requires j < |ObjectClassTable| && SameClasses(flags, ObjectClassTable[j].chain)
    ensures ConvertObjectClass(None, Some(flags)) == Ok(ShortName(ObjectClassTable[j].key))
    ensures ConvertObjectClassAsWritten(None, Some(flags)) == Ok(ShortName(ObjectClassTable[j].key))
  {
    var T := ObjectClassTable;
    assert flags != [] by {
      assert |multiset(T[j].chain)| > 0;
    }
    forall i | 0 <= i < j
      ensures !SameClasses(T[i].chain, flags)
    {
      ChainsDistinct(i, j);
    }
    FoundByChain(T, true, flags, j);
    FoundByChain(T, false, flags, j);
  }

  /** Each short name converts to its chain once looked up case-insensitively. */
  lemma NameToChain(j: nat)
    requires j < |ObjectClassTable|
    ensures ConvertObjectClass(Some(ObjectClassTable[j].key), None) == Ok(Chain(ObjectClassTable[j].chain))
  {
    var T := ObjectClassTable;
    var name := T[j].key;
    assert name != [];
    forall i | 0 <= i < j
      ensures !KeyMatches(T[i].key, name, true)
    {
      KeysDistinct(i, j);
    }
    FoundByKey(T, true, name, j);
  }

  /**
   * A chain that converts to a short name converts back to a chain with the
   * same classes, possibly in a different order.
   */
  lemma ChainRoundTrip(flags: seq<string>)
    requires ConvertObjectClass(None, Some(flags)).Ok?
    requires ConvertObjectClass(None, Some(flags)).value.ShortName?
    ensures ConvertObjectClass(Some(ConvertObjectClass(None, Some(flags)).value.name), None).Ok?
    ensures SameClasses(ConvertObjectClass(Some(ConvertObjectClass(None, Some(flags)).value.name), None).value.classes, flags)
  {
    var T := ObjectClassTable;
    var j :| 0 <= j < |T| && T[j].key == ConvertObjectClass(None, Some(flags)).value.name && SameClasses(T[j].chain, flags);
    NameToChain(j);
  }

  /** A chain matching no entry is returned unchanged by both converters. */
  lemma UnknownChainPassesThrough(flags: seq<string>)
    requires |flags| > 0
    requires forall j | 0 <= j < |ObjectClassTable| :: !SameClasses(ObjectClassTable[j].chain, flags)
    ensures ConvertObjectClass(None, Some(flags)) == Ok(Chain(flags))
    ensures ConvertObjectClassAsWritten(None, Some(flags)) == Ok(Chain(flags))
  {
  }

  /** The four lower-case names convert to their chains as written too. */
  lemma LowerCaseNamesAsWritten(j: nat)
    requires j < 4
    ensures ConvertObjectClassAsWritten(Some(ObjectClassTable[j].key), None) == Ok(Chain(ObjectClassTable[j].chain))
  {
    var T := ObjectClassTable;
    var name := T[j].key;
    assert name != [];
    LowerCaseKey(j);
    forall i | 0 <= i < j
      ensures !KeyMatches(T[i].key, name, false)
    {
      KeysDistinct(i, j);
    }
    FoundByKey(T, false, name, j);
  }

  /**
   * As written, the five mixed-case names ("organizationalUnit" and the
   * others) raise: the lowered name equals no key.
   */
  lemma MixedCaseNamesRaise(j: nat)
    requires 4 <= j < |ObjectClassTable|
    ensures ConvertObjectClassAsWritten(Some(ObjectClassTable[j].key), None).Err?
  {
    var T := ObjectClassTable;
    var name := T[j].key;
    assert name != [];
    if HasKey(T, name, false) {
      var k :| 0 <= k < |T| && T[k].key == Fold(name);
      FoldIdempotent(name);
      if k < j {
        KeysDistinct(k, j);
      } else if k > j {
        KeysDistinct(j, k);
      } else {
        MixedCaseKey(j);
      }
    }
  }

  /** Both keys given, or neither, raises; an empty flag list with a name gives the empty chain back. */
  lemma OneKeyRule(name: string, flags: seq<string>)
    ensures |name| > 0 && |flags| > 0 ==> ConvertObjectClass(Some(name), Some(flags)).Err?
    ensures ConvertObjectClass(Some(""), Some([])).Err? && ConvertObjectClass(None, None).Err?
    ensures |name| > 0 ==> ConvertObjectClass(Some(name), Some([])) == Ok(Chain([]))
  {
  }
}
