// Free-text identity classification and the identity filter line
// (`gen_filter_to_id`, app/ds/func_ds_get.py:204-237).

module Identity {
  import opened Wrappers
  import opened Text
  import opened DsDict
  import opened DsData

  /**
   * The `identity` argument: free text, or an attribute map. A map is a
   * `DSDict` (`plain` false), whose key tests ignore case, or a plain dict
   * (`plain` true), whose key tests are exact; a map that arrives through
   * the task table is a plain dict, as `json.loads` builds it.
   */
  datatype IdentityArg = FreeText(text: string) | AttrMap(map_: DSDict<string>, plain: bool)

  /** What `gen_filter_to_id` returns: the map (with `return_dict`) or an equality filter. */
  datatype IdentityOut = IdMap(attrs: DSDict<string>, plain: bool) | FilterLine(line: string)

  // ---------------------------------------------------------------------------
  // Key tests on a map that may be a plain dict

  /** The value of the last entry stored under exactly `key`. */
  function ExactGet(es: seq<(string, string)>, key: string): (r: Option<string>)
    ensures r.Some? <==> exists i | 0 <= i < |es| :: es[i].0 == key
    ensures r.Some? ==> exists i | 0 <= i < |es| :: es[i] == (key, r.value)
  {
    if |es| == 0 then None
    else if es[|es| - 1].0 == key then Some(es[|es| - 1].1)
    else
      var r := ExactGet(es[..|es| - 1], key);
      assert forall i | 0 <= i < |es| - 1 :: es[..|es| - 1][i] == es[i];
      r
  }

  /** `m.get(key)`: ignoring case for a `DSDict`, exact for a plain dict. */
  function MapGet(m: DSDict<string>, plain: bool, key: string): (r: Option<string>)
    ensures !plain ==> r == Get(m, key)
    ensures plain ==> (r.Some? <==> exists i | 0 <= i < |m.entries| :: m.entries[i].0 == key)
    ensures plain && r.Some? ==> exists i | 0 <= i < |m.entries| :: m.entries[i] == (key, r.value)
  {
    if plain then ExactGet(m.entries, key) else Get(m, key)
  }

  /** `key in m`. */
  predicate MapHas(m: DSDict<string>, plain: bool, key: string) {
    MapGet(m, plain, key).Some?
  }

  /** `m[key]`: the value, or KeyError. */
  function MapItem(m: DSDict<string>, plain: bool, key: string): (r: Result<string>)
    ensures r.Ok? <==> MapHas(m, plain, key)
    ensures r.Ok? ==> MapGet(m, plain, key) == Some(r.value)
    ensures r.Err? ==> r.failure.exc == KeyError
  {
    match MapGet(m, plain, key)
    case Some(v) => Ok(v)
    case None => Raise(KeyError, "key not present")
  }

  /** `d[key] = value` on a plain dict: the entry of exactly that key takes the value, or one is added. */
  function ExactSet(es: seq<(string, string)>, key: string, value: string): (r: seq<(string, string)>)
    ensures ExactGet(r, key) == Some(value)
    ensures forall k | k != key :: ExactGet(r, k) == ExactGet(es, k)
  {
    if exists i | 0 <= i < |es| :: es[i].0 == key then
      var r := seq(|es|, i requires 0 <= i < |es| => if es[i].0 == key then (key, value) else es[i]);
      var j :| 0 <= j < |es| && es[j].0 == key;
      assert r[j].0 == key;
      assert forall i | 0 <= i < |r| && r[i].0 == key :: r[i].1 == value;
      forall k | k != key ensures ExactGet(r, k) == ExactGet(es, k) {
        ExactGetPointwise(es, r, k);
      }
      r
    else
      var r := es + [(key, value)];
      forall k | k != key ensures ExactGet(r, k) == ExactGet(es, k) {
        assert r[..|r| - 1] == es;
      }
      r
  }

  /** Two lists that agree on every entry under `k` give the same value for `k`. */
  lemma {:induction false} ExactGetPointwise(a: seq<(string, string)>, b: seq<(string, string)>, k: string)
    requires |a| == |b|
    requires forall i | 0 <= i < |a| :: (a[i].0 == k || b[i].0 == k) ==> a[i] == b[i]
    ensures ExactGet(a, k) == ExactGet(b, k)
    decreases |a|
  {
    if |a| > 0 {
      ExactGetPointwise(a[..|a| - 1], b[..|b| - 1], k);
    }
  }

  /** `m[key] = value`, with the key test of the map's type. */
  function MapSet(m: DSDict<string>, plain: bool, key: string, value: string): (r: DSDict<string>)
    requires !plain ==> Valid(m)
    ensures !plain ==> Valid(r)
    ensures MapGet(r, plain, key) == Some(value)
  {
    if plain then DSDict(ExactSet(m.entries, key, value)) else Set(m, key, value)
  }

  /** A plain dict misses a key spelled in another case, where a `DSDict` finds it. */
  lemma PlainKeysExact()
    ensures MapGet(DSDict([("samaccountname", "jdoe")]), true, "sAMAccountName") == None
    ensures MapGet(DSDict([("samaccountname", "jdoe")]), false, "sAMAccountName") == Some("jdoe")
  {
    var m := DSDict([("samaccountname", "jdoe")]);
    assert m.entries[0].0 != "sAMAccountName";
    assert SameFolded("samaccountname", "sAMAccountName") by {
      FoldConcat("s", "amaccountname");
      FoldConcat("s", "AMAccountName");
    }
  }

  /** A one-key map `DSDict({key: value})`. */
  function One(key: string, value: string): (m: DSDict<string>)
    ensures Valid(m) && Keys(m) == [key] && Get(m, key) == Some(value)
  {
    DSDict([(key, value)])
  }

  const SamKey := "sAMAccountName"
  const DnKey := "distinguishedName"
  const SidKey := "objectSid"
  /** The key the classification stores a GUID under. */
  const ClassGuidKey := "objectGUID"
  /** The key the filter line looks a GUID up by; the map is case-insensitive. */
  const GuidKey := "ObjectGUID"

  /** The two GUID spellings address the same entry. */
  lemma GuidKeysFold()
    ensures SameFolded(ClassGuidKey, GuidKey)
  {
    assert ClassGuidKey == "o" + "bjectGUID";
    assert GuidKey == "O" + "bjectGUID";
    FoldConcat("o", "bjectGUID");
    FoldConcat("O", "bjectGUID");
  }

  /** None of the identity attribute names holds '='. */
  lemma KeysPlain()
    ensures '=' !in SamKey && '=' !in DnKey && '=' !in GuidKey && '=' !in SidKey
  {
  }

  /** The attribute an identity map is searched by. */
  datatype IdAttr = ByAccountName | ByDn | ByGuid | BySid

  function AttrKey(a: IdAttr): (k: string)
    ensures '=' !in k
  {
    KeysPlain();
    match a
    case ByAccountName => SamKey
    case ByDn => DnKey
    case ByGuid => GuidKey
    case BySid => SidKey
  }

  // ---------------------------------------------------------------------------
  // The three text patterns

  /** `re.search(r'^cn=|^ou=|^dc=', identity.lower())`. */
  predicate LooksLikeDn(s: string) {
    var t := Fold(s);
    StartsWith(t, "cn=") || StartsWith(t, "ou=") || StartsWith(t, "dc=")
  }

  predicate IsHexChar(c: char) {
    '0' <= c <= '9' || 'a' <= c <= 'f' || 'A' <= c <= 'F'
  }

  /** The dashes of the 8-4-4-4-12 layout. */
  predicate IsDashPosition(i: int) {
    i == 8 || i == 13 || i == 18 || i == 23
  }

  /** `[0-9a-fA-F]{8}-([0-9a-fA-F]{4}-){3}[0-9a-fA-F]{12}`, matching the whole of `t`. */
  predicate GuidCore(t: string) {
    |t| == 36 && forall i | 0 <= i < 36 :: if IsDashPosition(i) then t[i] == '-' else IsHexChar(t[i])
  }

  /** `[{]?` core `[}]?`, matching the whole of `t`. */
  predicate BracedGuid(t: string) {
    GuidCore(t)
    || (|t| >= 1 && t[0] == '{' && GuidCore(t[1..]))
    || (|t| >= 1 && t[|t| - 1] == '}' && GuidCore(t[..|t| - 1]))
    || (|t| >= 2 && t[0] == '{' && t[|t| - 1] == '}' && GuidCore(t[1..|t| - 1]))
  }

  /**
   * The GUID pattern of `re.search(...)` over `identity.lower()`, anchored by
   * `^` and `$`; Python's `$` also matches just before a final newline.
   */
  predicate LooksLikeGuid(s: string) {
    var t := Fold(s);
    BracedGuid(t) || (|t| >= 1 && t[|t| - 1] == '\n' && BracedGuid(t[..|t| - 1]))
  }

  /** `"s-1-5" in identity.lower()`. */
  predicate MentionsSid(s: string) {
    Text.Contains(Fold(s), "s-1-5")
  }

  /**
   * The classification of free text: a DN, else a GUID, else (for account
   * kinds) a SID, else (for account kinds) an account name, else none
   * (app/ds/func_ds_get.py:208-221).
   */
  function TextClass(s: string, typeObject: string): (c: Option<IdAttr>)
    ensures c.None? <==> !LooksLikeDn(s) && !LooksLikeGuid(s) && !IsAccountKind(typeObject)
    ensures c == Some(ByDn) <==> LooksLikeDn(s)
    ensures c == Some(ByGuid) <==> !LooksLikeDn(s) && LooksLikeGuid(s)
    ensures c == Some(BySid) <==> !LooksLikeDn(s) && !LooksLikeGuid(s) && MentionsSid(s) && IsAccountKind(typeObject)
    ensures c == Some(ByAccountName) <==>
              !LooksLikeDn(s) && !LooksLikeGuid(s) && !MentionsSid(s) && IsAccountKind(typeObject)
  {
    if LooksLikeDn(s) then Some(ByDn)
    else if LooksLikeGuid(s) then Some(ByGuid)
    else if MentionsSid(s) && IsAccountKind(typeObject) then Some(BySid)
    else if IsAccountKind(typeObject) then Some(ByAccountName)
    else None
  }

  /** The key the classification stores the text under. */
  function StoredKey(a: IdAttr): (k: string)
    ensures SameFolded(k, AttrKey(a))
  {
    if a == ByGuid then GuidKeysFold(); ClassGuidKey else AttrKey(a)
  }

  /** The one-key map the classified text becomes; an unclassifiable text raises. */
  function Classify(s: string, typeObject: string): (r: Result<DSDict<string>>)
    ensures r.Ok? <==> TextClass(s, typeObject).Some?
    ensures r.Err? ==> r.failure.exc == RuntimeError
    ensures r.Ok? ==> Keys(r.value) == [StoredKey(TextClass(s, typeObject).value)] && Get(r.value, Keys(r.value)[0]) == Some(s)
  {
    match TextClass(s, typeObject)
    case Some(a) => Ok(One(StoredKey(a), s))
    case None => Raise(RuntimeError, "cannot tell how to search for this identity")
  }

  // ---------------------------------------------------------------------------
  // Equality filter lines

  /** `f"({attr}={value})"`. */
  function EqualityFilter(attr: string, value: string): string {
    "(" + attr + "=" + value + ")"
  }

  /** Reads an equality filter line back into its attribute and value. */
  function ParseEquality(line: string): (r: Option<(string, string)>)
    ensures r.Some? ==> '=' !in r.value.0
  {
    if |line| >= 2 && line[0] == '(' && line[|line| - 1] == ')' then
      var inner := line[1..|line| - 1];
      var i := Find(inner, "=");
      if i < 0 then None
      else
        assert forall j | 0 <= j < i :: !OccursAt(inner, "=", j);
        assert forall j | 0 <= j < i :: inner[j] != '=' by {
          forall j | 0 <= j < i ensures inner[j] != '=' {
            assert !OccursAt(inner, "=", j);
            assert inner[j..j + 1] == [inner[j]];
          }
        }
        Some((inner[..i], inner[i + 1..]))
    else None
  }

  /** An attribute name without '=' is read back with the value, whatever the value holds. */
  lemma EqualityRoundTrip(attr: string, value: string)
    requires '=' !in attr
    ensures ParseEquality(EqualityFilter(attr, value)) == Some((attr, value))
  {
    var line := EqualityFilter(attr, value);
    var inner := line[1..|line| - 1];
    assert inner == attr + "=" + value;
    assert OccursAt(inner, "=", |attr|) by {
      assert inner[|attr|..|attr| + 1] == "=";
    }
    forall j | 0 <= j < |attr|
      ensures !OccursAt(inner, "=", j)
    {
      assert inner[j] == attr[j];
      assert inner[j..j + 1] == [inner[j]];
    }
    var i := Find(inner, "=");
    assert i == |attr|;
    assert inner[..i] == attr;
    assert inner[i + 1..] == value;
  }

  // ---------------------------------------------------------------------------
  // The filter line of an identity map


  /**
   * The attribute the filter line is built from, if the map holds any
   * usable one; the key tests are those of the map's type.
   */
  function SearchKey(id: DSDict<string>, plain: bool, typeObject: string): (r: Option<IdAttr>)
    ensures r.Some? ==> MapHas(id, plain, AttrKey(r.value))
    ensures r == Some(ByAccountName) <==> MapHas(id, plain, SamKey) && IsAccountKind(typeObject)
    ensures r == Some(ByDn) ==> !(MapHas(id, plain, SamKey) && IsAccountKind(typeObject))
    ensures r == Some(ByGuid) ==> !MapHas(id, plain, DnKey) && !(MapHas(id, plain, SamKey) && IsAccountKind(typeObject))
    ensures r == Some(BySid) ==> !MapHas(id, plain, DnKey) && !MapHas(id, plain, GuidKey)
                                 && !(MapHas(id, plain, SamKey) && IsAccountKind(typeObject))
    ensures r.None? ==> !MapHas(id, plain, DnKey) && !MapHas(id, plain, GuidKey) && !MapHas(id, plain, SidKey)
  {
    if MapHas(id, plain, SamKey) && IsAccountKind(typeObject) then Some(ByAccountName)
    else if MapHas(id, plain, DnKey) then Some(ByDn)
    else if MapHas(id, plain, GuidKey) then Some(ByGuid)
    else if MapHas(id, plain, SidKey) then Some(BySid)
    else None
  }

  /**
   * The filter line chosen by priority account name (account kinds only) >
   * DN > GUID > SID, as written: the GUID branch formats the map's
   * distinguishedName, which that branch has just found absent
   * (app/ds/func_ds_get.py:226-235).
   */
  function IdentityFilterAsWritten(id: DSDict<string>, plain: bool, typeObject: string): (r: Result<string>)
    ensures r.Ok? <==> SearchKey(id, plain, typeObject).Some? && SearchKey(id, plain, typeObject) != Some(ByGuid)
    ensures SearchKey(id, plain, typeObject) == Some(ByGuid) ==> RaisedAs(r, KeyError)
  {
    match SearchKey(id, plain, typeObject)
    case Some(ByGuid) =>
      (match MapItem(id, plain, DnKey)
       case Ok(dn) => Ok(EqualityFilter(GuidKey, dn))
       case Err(e) => Err(e))
    case Some(a) => Ok(EqualityFilter(AttrKey(a), MapGet(id, plain, AttrKey(a)).value))
    case None => Raise(RuntimeError, "no usable identity attribute")
  }

  /** The filter line as intended: the GUID branch formats the GUID. */
  function IdentityFilter(id: DSDict<string>, plain: bool, typeObject: string): (r: Result<string>)
    ensures r.Ok? <==> SearchKey(id, plain, typeObject).Some?
    ensures r.Err? ==> r.failure.exc == RuntimeError
    ensures r.Ok? ==> var key := AttrKey(SearchKey(id, plain, typeObject).value);
                      ParseEquality(r.value) == Some((key, MapGet(id, plain, key).value))
  {
    match SearchKey(id, plain, typeObject)
    case Some(a) =>
      var v := MapGet(id, plain, AttrKey(a)).value;
      EqualityRoundTrip(AttrKey(a), v);
      Ok(EqualityFilter(AttrKey(a), v))
    case None => Raise(RuntimeError, "no usable identity attribute")
  }

  /** The identity as a map: free text becomes the `DSDict` of its class, a map is kept as it is. */
  function AsMap(identity: IdentityArg, typeObject: string): (r: Result<IdentityArg>)
    ensures r.Ok? ==> r.value.AttrMap?
    ensures identity.AttrMap? ==> r == Ok(identity)
    ensures identity.FreeText? ==> (r.Ok? <==> Classify(identity.text, typeObject).Ok?)
    ensures identity.FreeText? && r.Ok? ==> r.value == AttrMap(Classify(identity.text, typeObject).value, false)
    ensures identity.FreeText? && r.Err? ==> r.failure.exc == RuntimeError
  {
    match identity
    case FreeText(s) => var m :- Classify(s, typeObject); Ok(AttrMap(m, false))
    case AttrMap(_, _) => Ok(identity)
  }

  /** `gen_filter_to_id`, as written. */
  function GenFilterToIdAsWritten(identity: IdentityArg, typeObject: string, returnDict: bool): (r: Result<IdentityOut>)
    ensures returnDict ==> r == GenFilterToId(identity, typeObject, true)
    ensures identity.AttrMap? && !returnDict ==>
              var key := SearchKey(identity.map_, identity.plain, typeObject);
              && (r.Ok? <==> key.Some? && key != Some(ByGuid))
              && (key == Some(ByGuid) ==> RaisedAs(r, KeyError))
  {
    var a :- AsMap(identity, typeObject);
    if returnDict then Ok(IdMap(a.map_, a.plain))
    else
      var line :- IdentityFilterAsWritten(a.map_, a.plain, typeObject);
      Ok(FilterLine(line))
  }

  /** `gen_filter_to_id`, with the GUID branch corrected. */
  function GenFilterToId(identity: IdentityArg, typeObject: string, returnDict: bool): (r: Result<IdentityOut>)
    ensures returnDict && r.Ok? ==> r.value.IdMap?
    ensures !returnDict && r.Ok? ==> r.value.FilterLine?
    ensures returnDict && identity.AttrMap? ==> r == Ok(IdMap(identity.map_, identity.plain))
    ensures identity.AttrMap? && !returnDict ==>
              (r.Ok? <==> SearchKey(identity.map_, identity.plain, typeObject).Some?)
              && (r.Ok? ==> var key := AttrKey(SearchKey(identity.map_, identity.plain, typeObject).value);
                            ParseEquality(r.value.line) == Some((key, MapGet(identity.map_, identity.plain, key).value)))
  {
    var a :- AsMap(identity, typeObject);
    if returnDict then Ok(IdMap(a.map_, a.plain))
    else
      var line :- IdentityFilter(a.map_, a.plain, typeObject);
      Ok(FilterLine(line))
  }

  /** Both versions agree on every identity map that holds no GUID without a DN. */
  lemma AsWrittenAgreesOffGuid(id: DSDict<string>, plain: bool, typeObject: string)
    requires SearchKey(id, plain, typeObject) != Some(ByGuid)
    ensures IdentityFilterAsWritten(id, plain, typeObject) == IdentityFilter(id, plain, typeObject)
  {
  }

  /**
   * A map that arrives as a plain dict is searched by its exactly spelled
   * keys: an account name under another casing is not seen, where the same
   * map as a `DSDict` is searched by it.
   */
  lemma PlainMapSearchedExactly()
    ensures SearchKey(DSDict([("samaccountname", "jdoe")]), true, "user").None?
    ensures RaisedAs(GenFilterToId(AttrMap(DSDict([("samaccountname", "jdoe")]), true), "user", false), RuntimeError)
    ensures GenFilterToId(AttrMap(DSDict([("samaccountname", "jdoe")]), false), "user", false)
            == Ok(FilterLine(EqualityFilter(SamKey, "jdoe")))
  {
    var m := DSDict([("samaccountname", "jdoe")]);
    PlainKeysExact();
    assert MapGet(m, true, DnKey) == None by { assert m.entries[0].0 != DnKey; }
    assert MapGet(m, true, GuidKey) == None by { assert m.entries[0].0 != GuidKey; }
    assert MapGet(m, true, SidKey) == None by { assert m.entries[0].0 != SidKey; }
    assert IsAccountKind("user");
  }

  /** A one-key map holds exactly the keys that fold like its key. */
  lemma OneContains(key: string, value: string, q: string)
    ensures DsDict.Contains(One(key, value), q) <==> SameFolded(key, q)
  {
    assert One(key, value).entries[1..] == [];
  }

  /** The map built from classified text is searched by the attribute it was classified under. */
  lemma SearchKeyOfClass(a: IdAttr, s: string, typeObject: string)
    requires a == ByAccountName ==> IsAccountKind(typeObject)
    ensures SearchKey(One(StoredKey(a), s), false, typeObject) == Some(a)
  {
    var k := StoredKey(a);
    OneContains(k, s, SamKey);
    OneContains(k, s, DnKey);
    OneContains(k, s, GuidKey);
    OneContains(k, s, SidKey);
    match a
    case ByAccountName =>
    case ByDn => FoldDiffers(DnKey, SamKey);
    case ByGuid =>
      FoldDiffers(ClassGuidKey, SamKey);
      FoldDiffers(ClassGuidKey, DnKey);
    case BySid =>
      FoldDiffers(SidKey, SamKey);
      FoldDiffers(SidKey, DnKey);
      FoldDiffers(SidKey, GuidKey);
  }

  /** A one-key map is searched for by its value under the usable attribute it holds. */
  lemma FilterOfOne(a: IdAttr, s: string, typeObject: string)
    requires SearchKey(One(StoredKey(a), s), false, typeObject) == Some(a)
    ensures IdentityFilter(One(StoredKey(a), s), false, typeObject) == Ok(EqualityFilter(AttrKey(a), s))
  {
    LookupIgnoresCase(One(StoredKey(a), s), StoredKey(a), AttrKey(a));
  }

  /**
   * Classified free text is searched for by the attribute it was classified
   * under, with the text itself as the value (corrected version); reading the
   * filter line back yields that attribute and the text.
   */
  lemma TextFilterFindsText(s: string, typeObject: string)
    requires TextClass(s, typeObject).Some?
    ensures var key := AttrKey(TextClass(s, typeObject).value);
            GenFilterToId(FreeText(s), typeObject, false) == Ok(FilterLine(EqualityFilter(key, s)))
            && ParseEquality(EqualityFilter(key, s)) == Some((key, s))
  {
    var a := TextClass(s, typeObject).value;
    SearchKeyOfClass(a, s, typeObject);
    FilterOfOne(a, s, typeObject);
    EqualityRoundTrip(AttrKey(a), s);
  }

  /** A GUID given as text is never searched for by the as-written code: it raises KeyError. */
  lemma GuidTextRaisesAsWritten(s: string, typeObject: string)
    requires !LooksLikeDn(s) && LooksLikeGuid(s)
    ensures RaisedAs(GenFilterToIdAsWritten(FreeText(s), typeObject, false), KeyError)
    ensures GenFilterToId(FreeText(s), typeObject, false) == Ok(FilterLine(EqualityFilter(GuidKey, s)))
  {
    var id := One(StoredKey(ByGuid), s);
    assert Classify(s, typeObject) == Ok(id);
    SearchKeyOfClass(ByGuid, s, typeObject);
    assert RaisedAs(IdentityFilterAsWritten(id, false, typeObject), KeyError);
    TextFilterFindsText(s, typeObject);
  }
}
