/**
 * `ds_new` (app/ds/func_ds_new.py): the add request that creates one object.
 * The attribute map starts with objectClass (the type's chain), cn and name,
 * optionally displayName; `extend` is assigned over it without any check, and
 * `other_attributes` only after checking that none of its keys is present
 * yet. Every value is then encoded and one add is sent to
 * `CN=<escaped name>,<path>`.
 *
 * `ldap.dn.escape_dn_chars` is the parameter `escape`.
 */
module DsNew {
  import opened Wrappers
  import opened Text
  import opened DsDict
  import opened Modify
  import ObjectClass

  /** Attribute values before encoding. */
  type Attrs = DSDict<seq<string>>

  /** The DN of the new object. */
  function NewDn(escape: string -> string, name: string, path: string): string {
    "CN=" + escape(name) + "," + path
  }

  /** Python truthiness of the optional `display_name`. */
  predicate DisplayGiven(displayName: Option<string>) {
    displayName.Some? && |displayName.value| > 0
  }

  /**
   * The attributes every new object gets: objectClass, then cn and name, then
   * displayName holding `shown` when there is one.
   */
  function Base(classes: seq<string>, name: string, shown: Option<string>): (m: Attrs)
    ensures Valid(m)
  {
    var m := Set(Set(Set(Empty(), "objectClass", classes), "cn", [name]), "name", [name]);
    if shown.Some? then Set(m, "displayName", [shown.value]) else m
  }

  /** The displayName value as written: `name`, whenever `display_name` is given. */
  function ShownAsWritten(name: string, displayName: Option<string>): Option<string> {
    if DisplayGiven(displayName) then Some(name) else None
  }

  /** The displayName value as evidently intended: `display_name` itself. */
  function Shown(displayName: Option<string>): Option<string> {
    if DisplayGiven(displayName) then Some(displayName.value) else None
  }

  /** A display name that differs from the object name is lost as written. */
  lemma DisplayNameReplacedByName()
    ensures ShownAsWritten("jdoe", Some("John Doe")) == Some("jdoe")
    ensures Shown(Some("John Doe")) == Some("John Doe")
  {
  }

  /** The four base attribute names are pairwise distinct in any casing. */
  lemma BaseKeysDistinct()
    ensures !SameFolded("cn", "objectClass") && !SameFolded("name", "objectClass")
    ensures !SameFolded("displayName", "objectClass") && !SameFolded("name", "cn")
    ensures !SameFolded("displayName", "cn") && !SameFolded("displayName", "name")
  {
    FoldDiffers("cn", "objectClass");
    FoldDiffers("name", "objectClass");
    FoldDiffers("displayName", "objectClass");
    FoldDiffers("name", "cn");
    FoldDiffers("displayName", "cn");
    FoldDiffers("displayName", "name");
  }

  /**
   * The base map holds the type's chain under objectClass, the object's name
   * under cn and name, and displayName exactly when a value is shown.
   */
  lemma BaseHolds(classes: seq<string>, name: string, shown: Option<string>)
    ensures Get(Base(classes, name, shown), "objectClass") == Some(classes)
    ensures Get(Base(classes, name, shown), "cn") == Some([name])
    ensures Get(Base(classes, name, shown), "name") == Some([name])
    ensures Get(Base(classes, name, shown), "displayName") == if shown.Some? then Some([shown.value]) else None
  {
    BaseKeysDistinct();
    BaseWithHolds("objectClass", "cn", "name", "displayName", classes, name, shown);
  }

  /** `Base` over arbitrary distinct key names. */
  lemma BaseWithHolds(kc: string, kn: string, km: string, kd: string, classes: seq<string>, name: string,
                      shown: Option<string>)
    requires !SameFolded(kn, kc) && !SameFolded(km, kc) && !SameFolded(kd, kc)
    requires !SameFolded(km, kn) && !SameFolded(kd, kn) && !SameFolded(kd, km)
    ensures var m := Set(Set(Set(Empty(), kc, classes), kn, [name]), km, [name]);
      var b := if shown.Some? then Set(m, kd, [shown.value]) else m;
      && Get(b, kc) == Some(classes) && Get(b, kn) == Some([name]) && Get(b, km) == Some([name])
      && Get(b, kd) == if shown.Some? then Some([shown.value]) else None
  {
  }

  /** The check on `other_attributes`: a key already in the map, in any casing, raises. */
  function CheckOthers(m: Attrs, other: seq<(string, seq<string>)>): (r: Result<()>)
    ensures r.Ok? <==> forall i | 0 <= i < |other| :: !DsDict.Contains(m, other[i].0)
    ensures r.Err? ==> r.failure.exc == RuntimeError
  {
    if |other| == 0 then Ok(())
    else if DsDict.Contains(m, other[0].0) then Raise(RuntimeError, "attribute already defined; remove it from other_attributes")
    else
      assert forall i | 1 <= i < |other| :: other[1..][i - 1] == other[i];
      CheckOthers(m, other[1..])
  }

  /** The map after `extend` and `other_attributes`, or the collision error. */
  function Attributes(base: Attrs, extend: seq<(string, seq<string>)>, other: seq<(string, seq<string>)>)
    : (r: Result<Attrs>)
    requires Valid(base)
    ensures r.Ok? ==> Valid(r.value)
    ensures r.Ok? <==> forall i | 0 <= i < |other| :: !DsDict.Contains(SetAll(base, extend), other[i].0)
    ensures r.Err? ==> r.failure.exc == RuntimeError
  {
    var extended := SetAll(base, extend);
    var _ :- CheckOthers(extended, other);
    Ok(SetAll(extended, other))
  }

  /**
   * Each attribute of the result is the last `other_attributes` pair for it,
   * else the last `extend` pair, else the base entry: `extend` overrides the
   * base silently, and `other_attributes` only adds.
   */
  lemma AttributeLookup(base: Attrs, extend: seq<(string, seq<string>)>, other: seq<(string, seq<string>)>, k: string)
    requires Valid(base) && Attributes(base, extend, other).Ok?
    ensures EntryOf(Attributes(base, extend, other).value, k)
            == if LastPair(other, Fold(k)).Some? then LastPair(other, Fold(k))
               else if LastPair(extend, Fold(k)).Some? then LastPair(extend, Fold(k))
               else EntryOf(base, k)
  {
    SetAllLookup(base, extend, k);
    SetAllLookup(SetAll(base, extend), other, k);
  }

  /**
   * Unless `extend` or `other_attributes` names it, the object is created with
   * the type's chain as objectClass and with the shown displayName.
   */
  lemma BaseSent(classes: seq<string>, name: string, shown: Option<string>,
                 extend: seq<(string, seq<string>)>, other: seq<(string, seq<string>)>, k: string)
    requires Attributes(Base(classes, name, shown), extend, other).Ok?
    requires LastPair(extend, Fold(k)).None? && LastPair(other, Fold(k)).None?
    ensures k == "objectClass" ==> Get(Attributes(Base(classes, name, shown), extend, other).value, k) == Some(classes)
    ensures k == "displayName" ==>
              Get(Attributes(Base(classes, name, shown), extend, other).value, k)
              == if shown.Some? then Some([shown.value]) else None
  {
    AttributeLookup(Base(classes, name, shown), extend, other, k);
    BaseHolds(classes, name, shown);
  }

  /** An `other_attributes` key that the base or `extend` already defines raises. */
  lemma OtherCollides(base: Attrs, extend: seq<(string, seq<string>)>, other: seq<(string, seq<string>)>, i: nat)
    requires Valid(base) && i < |other|
    requires DsDict.Contains(base, other[i].0) || LastPair(extend, Fold(other[i].0)).Some?
    ensures RaisedAs(Attributes(base, extend, other), RuntimeError)
  {
    SetAllLookup(base, extend, other[i].0);
  }

  /** The encoding loop: each attribute's values, with its remembered key, in map order. */
  function EncodeAttributes(entries: seq<(string, seq<string>)>): (r: seq<(string, seq<seq<byte>>)>)
    ensures |r| == |entries|
    ensures forall i | 0 <= i < |entries| :: r[i].0 == entries[i].0 && |r[i].1| == |entries[i].1|
    ensures forall i, j | 0 <= i < |entries| && 0 <= j < |entries[i].1| :: r[i].1[j] == EncodeString(entries[i].0, entries[i].1[j])
  {
    if |entries| == 0 then []
    else
      var rest := EncodeAttributes(entries[1..]);
      assert forall i | 1 <= i < |entries| :: entries[1..][i - 1] == entries[i];
      [(entries[0].0, EncodeStrings(entries[0].0, entries[0].1))] + rest
  }

  /** Every value sent for an attribute other than the password reads back, as UTF-8, as given. */
  lemma AddReadsBack(entries: seq<(string, seq<string>)>, i: nat, j: nat)
    requires i < |entries| && j < |entries[i].1| && !IsPassword(entries[i].0)
    ensures Utf8Decode(EncodeAttributes(entries)[i].1[j]) == Some(entries[i].1[j])
  {
    PlainReadsBack(entries[i].0, entries[i].1[j]);
  }

  /** A password value is sent quoted, as UTF-16LE. */
  lemma AddPasswordQuoted(entries: seq<(string, seq<string>)>, i: nat, j: nat)
    requires i < |entries| && j < |entries[i].1| && IsPassword(entries[i].0)
    ensures EncodeAttributes(entries)[i].1[j] == QuoteUtf16 + Utf16LeEncode(entries[i].1[j]) + QuoteUtf16
  {
    PasswordQuoted(entries[i].0, entries[i].1[j]);
  }

  /** The add sent: the DN and every attribute with its encoded values. */
  datatype AddRequest = AddRequest(dn: string, attributes: seq<(string, seq<seq<byte>>)>)

  /** The attributes as sent, for a given objectClass chain and displayName. */
  function Compose(classes: seq<string>, name: string, shown: Option<string>,
                   extend: seq<(string, seq<string>)>, other: seq<(string, seq<string>)>)
    : (r: Result<seq<(string, seq<seq<byte>>)>>)
    ensures r.Ok? <==> Attributes(Base(classes, name, shown), extend, other).Ok?
    ensures r.Ok? ==> r.value == EncodeAttributes(Attributes(Base(classes, name, shown), extend, other).value.entries)
  {
    var attrs :- Attributes(Base(classes, name, shown), extend, other);
    Ok(EncodeAttributes(attrs.entries))
  }

  /** The values an add request carries for `key`, found by attribute name ignoring case. */
  function SentFor(attributes: seq<(string, seq<seq<byte>>)>, key: string): Option<seq<seq<byte>>> {
    match IndexOf(attributes, Fold(key))
    case Some(i) => Some(attributes[i].1)
    case None => None
  }

  /** The values `key` should hold after `extend` and `other_attributes`, stated without the map. */
  function Expected(classes: seq<string>, name: string, shown: Option<string>,
                    extend: seq<(string, seq<string>)>, other: seq<(string, seq<string>)>, k: string)
    : Option<seq<string>>
  {
    if LastPair(other, Fold(k)).Some? then Some(LastPair(other, Fold(k)).value.1)
    else if LastPair(extend, Fold(k)).Some? then Some(LastPair(extend, Fold(k)).value.1)
    else if shown.Some? && SameFolded(k, "displayName") then Some([shown.value])
    else if SameFolded(k, "name") || SameFolded(k, "cn") then Some([name])
    else if SameFolded(k, "objectClass") then Some(classes)
    else None
  }

  /** `Expected` values as the add request encodes them. */
  function ExpectedSent(k: string, vs: Option<seq<string>>): Option<seq<seq<byte>>> {
    if vs.Some? then Some(EncodeStrings(k, vs.value)) else None
  }

  /** The base map holds, for any key, what its last assignment put there. */
  lemma BaseLookup(classes: seq<string>, name: string, shown: Option<string>, k: string)
    ensures Get(Base(classes, name, shown), k)
            == if shown.Some? && SameFolded(k, "displayName") then Some([shown.value])
               else if SameFolded(k, "name") || SameFolded(k, "cn") then Some([name])
               else if SameFolded(k, "objectClass") then Some(classes)
               else None
  {
  }

  /** The encoded entries of a map answer, for every key, the map's own values encoded. */
  lemma EncodedLookup(m: Attrs, k: string)
    ensures SentFor(EncodeAttributes(m.entries), k) == ExpectedSent(k, Get(m, k))
  {
    var es := EncodeAttributes(m.entries);
    match IndexOf(m.entries, Fold(k)) {
      case Some(i) =>
        IndexOfAt(es, i, Fold(k));
        assert es[i].1 == EncodeStrings(k, m.entries[i].1);
      case None =>
        assert IndexOf(es, Fold(k)).None?;
    }
  }

  /**
   * Every attribute of the add request holds its `Expected` values, encoded:
   * the last `other_attributes` pair, else the last `extend` pair, else the
   * base entry; and a key `extend` sets is never among `other_attributes`.
   */
  lemma ComposeSends(classes: seq<string>, name: string, shown: Option<string>,
                     extend: seq<(string, seq<string>)>, other: seq<(string, seq<string>)>, k: string)
    requires Compose(classes, name, shown, extend, other).Ok?
    ensures SentFor(Compose(classes, name, shown, extend, other).value, k)
            == ExpectedSent(k, Expected(classes, name, shown, extend, other, k))
    ensures LastPair(extend, Fold(k)).Some? ==> LastPair(other, Fold(k)).None?
  {
    var base := Base(classes, name, shown);
    AttributeLookup(base, extend, other, k);
    BaseLookup(classes, name, shown, k);
    EncodedLookup(Attributes(base, extend, other).value, k);
    if LastPair(extend, Fold(k)).Some? && LastPair(other, Fold(k)).Some? {
      var p := LastPair(other, Fold(k)).value;
      var i :| 0 <= i < |other| && other[i] == p;
      SetAllLookup(base, extend, p.0);
      assert false;
    }
  }

  /** `ComposeSends` for every key at once. */
  lemma ComposeAll(classes: seq<string>, name: string, shown: Option<string>,
                   extend: seq<(string, seq<string>)>, other: seq<(string, seq<string>)>)
    requires Compose(classes, name, shown, extend, other).Ok?
    ensures forall k :: SentFor(Compose(classes, name, shown, extend, other).value, k)
                        == ExpectedSent(k, Expected(classes, name, shown, extend, other, k))
  {
    forall k ensures SentFor(Compose(classes, name, shown, extend, other).value, k)
                     == ExpectedSent(k, Expected(classes, name, shown, extend, other, k)) {
      ComposeSends(classes, name, shown, extend, other, k);
    }
  }

  /** Unless `extend` or `other_attributes` names it, displayName is sent as the one shown value. */
  lemma DisplaySent(classes: seq<string>, name: string, shown: string,
                    extend: seq<(string, seq<string>)>, other: seq<(string, seq<string>)>)
    requires Compose(classes, name, Some(shown), extend, other).Ok?
    requires LastPair(extend, Fold("displayName")).None? && LastPair(other, Fold("displayName")).None?
    ensures SentFor(Compose(classes, name, Some(shown), extend, other).value, "displayName") == Some([Utf8Encode(shown)])
  {
    ComposeSends(classes, name, Some(shown), extend, other, "displayName");
    FoldDiffers("displayName", UnicodePwdKey);
    assert EncodeStrings("displayName", [shown]) == [Utf8Encode(shown)];
  }

  /**
   * A key the caller's `extend` map sets is sent with exactly those values:
   * `other_attributes` cannot name it without raising.
   */
  lemma ExtendSent(escape: string -> string, typeObject: string, path: string, name: string,
                   displayName: Option<string>, extend: Attrs, other: seq<(string, seq<string>)>, k: string)
    requires Valid(extend) && Get(extend, k).Some?
    requires DsNew(escape, typeObject, path, name, displayName, extend.entries, other, false).Ok?
    ensures SentFor(DsNew(escape, typeObject, path, name, displayName, extend.entries, other, false).value.value.attributes, k)
            == Some(EncodeStrings(k, Get(extend, k).value))
  {
    var classes := ChainOf(ObjectClass.ConvertObjectClass(Some(typeObject), None)).value;
    LastPairOfEntries(extend, k);
    ComposeSends(classes, name, Shown(displayName), extend.entries, other, k);
  }

  /** A single plain `extend` value is sent as its UTF-8 bytes, which read back as the value. */
  lemma ExtendSentPlain(escape: string -> string, typeObject: string, path: string, name: string,
                        displayName: Option<string>, extend: Attrs, other: seq<(string, seq<string>)>,
                        k: string, v: string)
    requires Valid(extend) && Get(extend, k) == Some([v]) && !IsPassword(k)
    requires DsNew(escape, typeObject, path, name, displayName, extend.entries, other, false).Ok?
    ensures SentFor(DsNew(escape, typeObject, path, name, displayName, extend.entries, other, false).value.value.attributes, k)
            == Some([Utf8Encode(v)])
    ensures Utf8Decode(Utf8Encode(v)) == Some(v)
  {
    ExtendSent(escape, typeObject, path, name, displayName, extend, other, k);
    assert EncodeStrings(k, [v]) == [EncodeString(k, v)];
    PlainReadsBack(k, v);
  }

  /** A single `extend` password is sent quoted, as UTF-16LE. */
  lemma ExtendSentPassword(escape: string -> string, typeObject: string, path: string, name: string,
                           displayName: Option<string>, extend: Attrs, other: seq<(string, seq<string>)>,
                           k: string, v: string)
    requires Valid(extend) && Get(extend, k) == Some([v]) && IsPassword(k)
    requires DsNew(escape, typeObject, path, name, displayName, extend.entries, other, false).Ok?
    ensures SentFor(DsNew(escape, typeObject, path, name, displayName, extend.entries, other, false).value.value.attributes, k)
            == Some([QuoteUtf16 + Utf16LeEncode(v) + QuoteUtf16])
  {
    ExtendSent(escape, typeObject, path, name, displayName, extend, other, k);
    assert EncodeStrings(k, [v]) == [EncodeString(k, v)];
    PasswordQuoted(k, v);
  }

  /** The objectClass chain of a type name, by the given converter's answer. */
  function ChainOf(c: Result<ObjectClass.ClassConverted>): (r: Result<seq<string>>)
    ensures r.Ok? <==> c.Ok?
    ensures r.Ok? && c.value.Chain? ==> r.value == c.value.classes
  {
    var converted :- c;
    Ok(if converted.Chain? then converted.classes else [])
  }

  /**
   * `ds_new` as written: displayName, when given, is set to `name`, and the
   * object class is looked up with the lowered type name.
   */
  function DsNewAsWritten(escape: string -> string, typeObject: string, path: string, name: string,
                          displayName: Option<string>, extend: seq<(string, seq<string>)>,
                          other: seq<(string, seq<string>)>)
    : (r: Result<AddRequest>)
    ensures r.Ok? ==> r.value.dn == NewDn(escape, name, path)
    ensures ObjectClass.ConvertObjectClassAsWritten(Some(typeObject), None).Err? ==> RaisedAs(r, RuntimeError)
    ensures r.Ok? ==>
      var classes := ChainOf(ObjectClass.ConvertObjectClassAsWritten(Some(typeObject), None));
      && classes.Ok?
      && Compose(classes.value, name, ShownAsWritten(name, displayName), extend, other).Ok?
      && forall k :: SentFor(r.value.attributes, k)
                     == ExpectedSent(k, Expected(classes.value, name, ShownAsWritten(name, displayName), extend, other, k))
    ensures r.Ok? && DisplayGiven(displayName) ==>
      (LastPair(extend, Fold("displayName")).None? && LastPair(other, Fold("displayName")).None? ==>
       SentFor(r.value.attributes, "displayName") == Some([Utf8Encode(name)]))
  {
    var classes :- ChainOf(ObjectClass.ConvertObjectClassAsWritten(Some(typeObject), None));
    var shown := ShownAsWritten(name, displayName);
    var attributes :- Compose(classes, name, shown, extend, other);
    ComposeAll(classes, name, shown, extend, other);
    if DisplayGiven(displayName) && LastPair(extend, Fold("displayName")).None? && LastPair(other, Fold("displayName")).None?
    then DisplaySent(classes, name, name, extend, other); Ok(AddRequest(NewDn(escape, name, path), attributes))
    else Ok(AddRequest(NewDn(escape, name, path), attributes))
  }

  /**
   * `ds_new` as evidently intended: displayName, when given, is set to
   * `display_name`; it takes the dry-run flag its callers pass and sends
   * nothing in dry-run mode.
   */
  function DsNew(escape: string -> string, typeObject: string, path: string, name: string,
                 displayName: Option<string>, extend: seq<(string, seq<string>)>,
                 other: seq<(string, seq<string>)>, dryRun: bool)
    : (r: Result<Option<AddRequest>>)
    ensures r.Ok? ==> (r.value.None? <==> dryRun)
    ensures r.Ok? && !dryRun ==> r.value.value.dn == NewDn(escape, name, path)
    ensures ObjectClass.ConvertObjectClass(Some(typeObject), None).Err? ==> RaisedAs(r, RuntimeError)
    ensures r.Ok? && !dryRun ==>
      var classes := ChainOf(ObjectClass.ConvertObjectClass(Some(typeObject), None));
      && classes.Ok?
      && Compose(classes.value, name, Shown(displayName), extend, other).Ok?
      && forall k :: SentFor(r.value.value.attributes, k)
                     == ExpectedSent(k, Expected(classes.value, name, Shown(displayName), extend, other, k))
    ensures r.Ok? && !dryRun && DisplayGiven(displayName) ==>
      (LastPair(extend, Fold("displayName")).None? && LastPair(other, Fold("displayName")).None? ==>
       SentFor(r.value.value.attributes, "displayName") == Some([Utf8Encode(displayName.value)]))
  {
    var classes :- ChainOf(ObjectClass.ConvertObjectClass(Some(typeObject), None));
    var shown := Shown(displayName);
    var attributes :- Compose(classes, name, shown, extend, other);
    ComposeAll(classes, name, shown, extend, other);
    if DisplayGiven(displayName) && LastPair(extend, Fold("displayName")).None? && LastPair(other, Fold("displayName")).None?
    then DisplaySent(classes, name, displayName.value, extend, other);
      if dryRun then Ok(None) else Ok(Some(AddRequest(NewDn(escape, name, path), attributes)))
    else if dryRun then Ok(None) else Ok(Some(AddRequest(NewDn(escape, name, path), attributes)))
  }
}
