// `object_processing` (app/ds/func_ds_get.py:16-94): the conversion of one
// directory entry's raw attribute values into the gateway's attribute map,
// with the computed attributes added and the helper attributes removed.

module ObjectProcessing {
  import opened Wrappers
  import opened Text
  import opened DsDict
  import opened Derived
  import opened AttributeCodec
  import ObjectClass

  /** One raw attribute of a search result: its name as returned and its values. */
  type RawAttr = (string, seq<seq<byte>>)

  /**
   * `ATTR_TYPES` (app/ds/attributes_type.py is not part of this model): the
   * attribute syntax and whether the attribute is single-valued, by exact
   * attribute name.
   */
  type AttrTypes = map<string, (string, bool)>

  /** The conversion rules. */
  datatype Handler =
    | GuidHandler | ObjectClassHandler
    | StringHandler | BoolHandler | IntegerHandler | UtcTimeHandler | LargeIntegerHandler | SidHandler
    | HexHandler

  /** The keys of `ATTR_SPECIAL`, which stores them folded ("objectGUID", "objectClass"). */
  const ObjectGuidKey := "objectguid"
  const ObjectClassKey := "objectclass"

  /** `TYPE_HANDLERS.get(syntax)`: the rule for an attribute syntax, if any. */
  function SyntaxHandler(syntax: string): Option<Handler> {
    if syntax == "2.5.5.1" || syntax == "2.5.5.4" || syntax == "2.5.5.12" then Some(StringHandler)
    else if syntax == "2.5.5.8" then Some(BoolHandler)
    else if syntax == "2.5.5.9" then Some(IntegerHandler)
    else if syntax == "2.5.5.11" then Some(UtcTimeHandler)
    else if syntax == "2.5.5.16" then Some(LargeIntegerHandler)
    else if syntax == "2.5.5.17" then Some(SidHandler)
    else None
  }

  /** `ATTR_SPECIAL.get(attr)`: the rule of an attribute that has its own, looked up case-insensitively. */
  function SpecialHandler(attr: string): Option<Handler> {
    if Fold(attr) == ObjectGuidKey then Some(GuidHandler)
    else if Fold(attr) == ObjectClassKey then Some(ObjectClassHandler)
    else None
  }

  /**
   * `ATTR_SPECIAL.get(attr, TYPE_HANDLERS.get(syntax, hex))`: an attribute
   * rule wins over the syntax rule, which wins over the hex fallback.
   */
  function HandlerFor(attr: string, syntax: string): (h: Handler)
    ensures SpecialHandler(attr).Some? ==> h == SpecialHandler(attr).value
    ensures SpecialHandler(attr).None? && SyntaxHandler(syntax).Some? ==> h == SyntaxHandler(syntax).value
    ensures SpecialHandler(attr).None? && SyntaxHandler(syntax).None? ==> h == HexHandler
  {
    match SpecialHandler(attr)
    case Some(h) => h
    case None =>
      match SyntaxHandler(syntax)
      case Some(h) => h
      case None => HexHandler
  }

  /**
   * The GUID and class rules are chosen by name alone, in any casing; every
   * other attribute falls back to hex exactly when its syntax has no rule.
   */
  lemma HandlerPrecedence(attr: string, syntax: string)
    ensures HandlerFor(attr, syntax) == GuidHandler <==> Fold(attr) == ObjectGuidKey
    ensures HandlerFor(attr, syntax) == ObjectClassHandler <==> Fold(attr) == ObjectClassKey
    ensures Fold(attr) != ObjectGuidKey && Fold(attr) != ObjectClassKey ==>
              (HandlerFor(attr, syntax) == HexHandler <==> SyntaxHandler(syntax).None?)
  {
    var sh := SyntaxHandler(syntax);
    assert sh.Some? ==> sh.value != GuidHandler && sh.value != ObjectClassHandler && sh.value != HexHandler;
  }

  /** `bytes.decode("utf-8")`. */
  function DecodeText(raw: seq<byte>): (r: Result<string>)
    ensures r.Ok? ==> Utf8Decode(raw) == Some(r.value)
    ensures r.Err? ==> Utf8Decode(raw).None? && r.failure.exc == UnicodeDecodeError
  {
    match Utf8Decode(raw)
    case Some(s) => Ok(s)
    case None => Raise(UnicodeDecodeError, "invalid utf-8")
  }

  /**
   * One value under a per-value rule. The generalized-time rule decodes the
   * text and keeps the raw value as the timestamp: the calendar check of
   * `strptime` is not modelled.
   */
  function ConvertValue(h: Handler, raw: seq<byte>): (r: Result<Value>)
    requires h != ObjectClassHandler
    ensures h == HexHandler ==> r.Ok? && r.value.Str? && FromHexText(r.value.s) == Some(raw)
    ensures h == GuidHandler ==> (r.Ok? <==> |raw| == 16)
    ensures h == SidHandler ==> (r.Ok? <==> SidString(raw).Ok?)
  {
    match h
    case StringHandler =>
      var s :- DecodeText(raw);
      Ok(Str(s))
    case BoolHandler =>
      var s :- DecodeText(raw);
      var b :- CBool(s);
      Ok(Bool(b))
    case IntegerHandler =>
      (match ParseInt(Latin(raw))
       case Some(n) => Ok(Int(n))
       case None => Raise(ValueError, "invalid literal for int()"))
    case UtcTimeHandler =>
      var _ :- DecodeText(raw);
      Ok(Time(raw))
    case LargeIntegerHandler => WinTime(raw)
    case SidHandler =>
      var s :- SidString(raw);
      Ok(Str(s))
    case GuidHandler =>
      var s :- GuidText(raw);
      Ok(Str(s))
    case HexHandler =>
      HexTextRoundTrip(raw);
      Ok(Str(HexText(raw)))
  }

  /** A list comprehension over the values: the converted list, or the first value's error. */
  function ConvertValues(h: Handler, values: seq<seq<byte>>): (r: Result<seq<Value>>)
    requires h != ObjectClassHandler
    ensures r.Ok? ==> |r.value| == |values| && forall i | 0 <= i < |values| :: ConvertValue(h, values[i]) == Ok(r.value[i])
    ensures r.Err? ==> exists i | 0 <= i < |values| :: ConvertValue(h, values[i]) == Err(r.failure)
  {
    if |values| == 0 then Ok([])
    else
      var first :- ConvertValue(h, values[0]);
      var rest :- ConvertValues(h, values[1..]);
      Ok([first] + rest)
  }

  /** The decoded class names, or the first decoding error. */
  function DecodeAll(values: seq<seq<byte>>): (r: Result<seq<string>>)
    ensures r.Ok? ==> |r.value| == |values| && forall i | 0 <= i < |values| :: Utf8Decode(values[i]) == Some(r.value[i])
    ensures r.Err? ==> r.failure.exc == UnicodeDecodeError
  {
    if |values| == 0 then Ok([])
    else
      var first :- DecodeText(values[0]);
      var rest :- DecodeAll(values[1..]);
      Ok([first] + rest)
  }

  function Strs(xs: seq<string>): (vs: seq<Value>)
    ensures |vs| == |xs| && forall i | 0 <= i < |xs| :: vs[i] == Str(xs[i])
  {
    seq(|xs|, i requires 0 <= i < |xs| => Str(xs[i]))
  }

  /**
   * The handler applied to all values of an attribute. The objectClass
   * rule names a known chain by its short name and passes any other chain
   * through as a list; every other rule gives a list.
   */
  function ApplyHandler(h: Handler, values: seq<seq<byte>>): (r: Result<Value>)
    ensures r.Ok? && h != ObjectClassHandler ==> r.value.List? && |r.value.items| == |values|
    ensures r.Ok? && h == ObjectClassHandler ==> r.value.Str? || r.value.List?
  {
    if h == ObjectClassHandler then
      var names :- DecodeAll(values);
      var c :- ObjectClass.ConvertObjectClass(None, Some(names));
      match c
      case ShortName(n) => Ok(Str(n))
      case Chain(cs) => Ok(List(Strs(cs)))
    else
      var vs :- ConvertValues(h, values);
      Ok(List(vs))
  }

  /** `v[0]`: the first item of a list, the first character of a string. */
  function First(v: Value): (r: Result<Value>)
    ensures v.List? && |v.items| > 0 ==> r == Ok(v.items[0])
    ensures (v.List? && |v.items| == 0) || (v.Str? && |v.s| == 0) ==> RaisedAs(r, IndexError)
  {
    match v
    case List(items) => if |items| == 0 then Raise(IndexError, "list index out of range") else Ok(items[0])
    case Str(s) => if |s| == 0 then Raise(IndexError, "string index out of range") else Ok(Str([s[0]]))
    case _ => Raise(TypeError, "object is not subscriptable")
  }

  /** `ATTR_TYPES.get(attr, ('unknown', False))`. */
  function TypeOf(types: AttrTypes, attr: string): (string, bool) {
    if attr in types then types[attr] else ("unknown", false)
  }

  /** The converted value of one attribute: its handler's result, collapsed to the first item when single-valued. */
  function ConvertAttr(types: AttrTypes, attr: string, values: seq<seq<byte>>): (r: Result<Value>)
    ensures r.Ok? && !TypeOf(types, attr).1 && Fold(attr) != ObjectClassKey ==>
      r.value.List? && |r.value.items| == |values|
  {
    var action := TypeOf(types, attr);
    HandlerPrecedence(attr, action.0);
    var v :- ApplyHandler(HandlerFor(attr, action.0), values);
    if action.1 then First(v) else Ok(v)
  }

  /** A ranged attribute name ("member;range=0-1499") names its base attribute before the ';'. */
  function BaseKey(attr: string): (b: string)
    ensures ';' !in b
  {
    Split(attr, ';')[0]
  }

  /** `data['distinguishedName'][0].decode("utf-8")` on the raw entry, a plain dict. */
  function RawDn(data: seq<RawAttr>): (r: Result<string>) {
    if |data| == 0 then Raise(KeyError, "distinguishedName")
    else if data[0].0 == "distinguishedName" then
      if |data[0].1| == 0 then Raise(IndexError, "list index out of range") else DecodeText(data[0].1[0])
    else RawDn(data[1..])
  }

  /**
   * The values of entry `i`. For a ranged attribute the values the
   * directory holds beyond the first window are appended: `fetch(dn, attr)`
   * stands for `search_attribute_range` (modelled as `Search.RangeValues`).
   */
  function EntryValues(data: seq<RawAttr>, i: nat, fetch: (string, string) -> Result<seq<seq<byte>>>)
    : (r: Result<seq<seq<byte>>>)
    requires i < |data|
    ensures ';' !in data[i].0 ==> r == Ok(data[i].1)
  {
    var (attr, values) := data[i];
    if ';' in attr then
      var dn :- RawDn(data);
      var more :- fetch(dn, attr);
      Ok(values + more)
    else Ok(values)
  }

  /** The converted value of entry `i`, stored under its base name. */
  function ConvertEntry(data: seq<RawAttr>, i: nat, types: AttrTypes,
                        fetch: (string, string) -> Result<seq<seq<byte>>>): Result<Value>
    requires i < |data|
  {
    var values :- EntryValues(data, i, fetch);
    ConvertAttr(types, BaseKey(data[i].0), values)
  }

  /** Each raw attribute's base name and the outcome of its conversion. */
  function Attempts(data: seq<RawAttr>, types: AttrTypes,
                    fetch: (string, string) -> Result<seq<seq<byte>>>): (rs: seq<(string, Result<Value>)>)
    ensures |rs| == |data|
    ensures forall i | 0 <= i < |data| :: rs[i] == (BaseKey(data[i].0), ConvertEntry(data, i, types, fetch))
  {
    seq(|data|, i requires 0 <= i < |data| => (BaseKey(data[i].0), ConvertEntry(data, i, types, fetch)))
  }

  /** The converted values in order, or the first failure: the loop stops at the first attribute that raises. */
  function Sequenced(rs: seq<(string, Result<Value>)>): (r: Result<seq<(string, Value)>>)
    ensures r.Ok? ==> |r.value| == |rs|
    ensures r.Ok? ==> forall i | 0 <= i < |rs| :: r.value[i].0 == rs[i].0 && rs[i].1 == Ok(r.value[i].1)
    ensures r.Err? ==> exists i | 0 <= i < |rs| :: rs[i].1 == Err(r.failure)
  {
    if |rs| == 0 then Ok([])
    else
      var init := rs[..|rs| - 1];
      var prev :- Sequenced(init);
      var v :- rs[|rs| - 1].1;
      var pairs := prev + [(rs[|rs| - 1].0, v)];
      assert forall i | 0 <= i < |init| :: pairs[i] == prev[i] && init[i] == rs[i];
      Ok(pairs)
  }

  /** `result[attr] = ...` for each pair in turn, starting from an empty `DSDict`. */
  function Collect(pairs: seq<(string, Value)>): (m: DSDict<Value>)
    ensures Valid(m)
  {
    if |pairs| == 0 then Empty()
    else Set(Collect(pairs[..|pairs| - 1]), pairs[|pairs| - 1].0, pairs[|pairs| - 1].1)
  }

  /** Some pair's key folds like `k`. */
  predicate HasKey(pairs: seq<(string, Value)>, k: string) {
    exists i | 0 <= i < |pairs| :: SameFolded(k, pairs[i].0)
  }

  lemma HasKeySnoc(pairs: seq<(string, Value)>, k: string)
    requires |pairs| > 0
    ensures HasKey(pairs, k) <==> HasKey(pairs[..|pairs| - 1], k) || SameFolded(k, pairs[|pairs| - 1].0)
  {
    var init := pairs[..|pairs| - 1];
    if HasKey(pairs, k) && !SameFolded(k, pairs[|pairs| - 1].0) {
      var i :| 0 <= i < |pairs| && SameFolded(k, pairs[i].0);
      assert init[i] == pairs[i];
    }
    if HasKey(init, k) {
      var i :| 0 <= i < |init| && SameFolded(k, init[i].0);
      assert init[i] == pairs[i];
    }
  }

  lemma CollectSnoc(pairs: seq<(string, Value)>, k: string)
    requires |pairs| > 0
    ensures DsDict.Contains(Collect(pairs), k)
            <==> DsDict.Contains(Collect(pairs[..|pairs| - 1]), k) || SameFolded(k, pairs[|pairs| - 1].0)
  {
  }

  /** A key is present exactly when some pair's key folds like it. */
  lemma {:induction false} CollectKeys(pairs: seq<(string, Value)>, k: string)
    ensures DsDict.Contains(Collect(pairs), k) <==> HasKey(pairs, k)
  {
    if |pairs| > 0 {
      CollectKeys(pairs[..|pairs| - 1], k);
      CollectSnoc(pairs, k);
      HasKeySnoc(pairs, k);
    }
  }

  /** Pair `i` is the last pair whose key folds like its own. */
  predicate LastOfName(pairs: seq<(string, Value)>, i: nat)
    requires i < |pairs|
  {
    forall j | i < j < |pairs| :: !SameFolded(pairs[j].0, pairs[i].0)
  }

  /** The stored value of a key is that of the last pair under it, in any casing. */
  lemma {:induction false} CollectValue(pairs: seq<(string, Value)>, i: nat)
    requires i < |pairs| && LastOfName(pairs, i)
    ensures Get(Collect(pairs), pairs[i].0) == Some(pairs[i].1)
  {
    var init := pairs[..|pairs| - 1];
    if i < |pairs| - 1 {
      assert init[i] == pairs[i];
      assert LastOfName(init, i) by {
        forall j | i < j < |init| ensures !SameFolded(init[j].0, init[i].0) {
          assert init[j] == pairs[j];
        }
      }
      CollectValue(init, i);
      assert !SameFolded(pairs[i].0, pairs[|pairs| - 1].0);
    }
  }

  /** The first loop of `object_processing`: every raw attribute converted and stored under its base name. */
  function Converted(data: seq<RawAttr>, types: AttrTypes,
                     fetch: (string, string) -> Result<seq<seq<byte>>>): (r: Result<DSDict<Value>>)
    ensures r.Ok? ==> Valid(r.value)
    ensures r.Err? ==> exists i | 0 <= i < |data| :: ConvertEntry(data, i, types, fetch) == Err(r.failure)
  {
    var pairs :- Sequenced(Attempts(data, types, fetch));
    Ok(Collect(pairs))
  }

  /** The converted map holds exactly the base names of the raw attributes. */
  lemma ConvertedKeys(data: seq<RawAttr>, types: AttrTypes,
                      fetch: (string, string) -> Result<seq<seq<byte>>>, k: string)
    requires Converted(data, types, fetch).Ok?
    ensures DsDict.Contains(Converted(data, types, fetch).value, k)
            <==> exists i | 0 <= i < |data| :: SameFolded(k, BaseKey(data[i].0))
  {
    var rs := Attempts(data, types, fetch);
    var pairs := Sequenced(rs).value;
    CollectKeys(pairs, k);
    assert |pairs| == |data|;
    if HasKey(pairs, k) {
      var i :| 0 <= i < |pairs| && SameFolded(k, pairs[i].0);
      assert pairs[i].0 == rs[i].0 == BaseKey(data[i].0);
    }
    if exists i | 0 <= i < |data| :: SameFolded(k, BaseKey(data[i].0)) {
      var i :| 0 <= i < |data| && SameFolded(k, BaseKey(data[i].0));
      assert pairs[i].0 == rs[i].0 == BaseKey(data[i].0);
    }
  }

  /** An attribute's converted value is that of the last raw attribute with its base name, in any casing. */
  lemma ConvertedValue(data: seq<RawAttr>, types: AttrTypes,
                       fetch: (string, string) -> Result<seq<seq<byte>>>, i: nat)
    requires Converted(data, types, fetch).Ok? && i < |data|
    requires forall j | i < j < |data| :: !SameFolded(BaseKey(data[j].0), BaseKey(data[i].0))
    ensures Get(Converted(data, types, fetch).value, BaseKey(data[i].0)) == Some(ConvertEntry(data, i, types, fetch).value)
  {
    var pairs := Sequenced(Attempts(data, types, fetch)).value;
    assert pairs[i].0 == BaseKey(data[i].0);
    assert LastOfName(pairs, i) by {
      forall j | i < j < |pairs| ensures !SameFolded(pairs[j].0, pairs[i].0) {
        assert pairs[j].0 == BaseKey(data[j].0);
      }
    }
    CollectValue(pairs, i);
  }

  // ---------------------------------------------------------------------------
  // The computed attributes and the helper attributes

  /** `attr_extend.lower() in properties or '*' in properties`. */
  predicate Requested(d: DerivedAttr, properties: seq<string>) {
    Fold(DerivedName(d)) in properties || "*" in properties
  }

  /** Whether computed attribute `d` is added to `result`: its stored attribute is present and it was asked for. */
  predicate Applies(result: DSDict<Value>, d: DerivedAttr, properties: seq<string>) {
    DsDict.Contains(result, BaseName(BaseOf(d))) && Requested(d, properties)
  }

  /** The value computed for `d` from its stored attribute. */
  function DerivedValue(result: DSDict<Value>, d: DerivedAttr): Result<Value>
    requires DsDict.Contains(result, BaseName(BaseOf(d)))
  {
    Derive(d, Get(result, BaseName(BaseOf(d))).value)
  }

  /** One computed attribute: stored under its name when it applies, nothing else changed. */
  function DeriveOne(result: DSDict<Value>, properties: seq<string>, d: DerivedAttr): (r: Result<DSDict<Value>>)
    requires Valid(result)
    ensures r.Ok? ==> Valid(r.value)
    ensures r.Err? <==> Applies(result, d, properties) && DerivedValue(result, d).Err?
    ensures r.Ok? && Applies(result, d, properties) ==> Get(r.value, DerivedName(d)) == Some(DerivedValue(result, d).value)
    ensures r.Ok? && !Applies(result, d, properties) ==> r.value == result
    ensures r.Ok? ==> forall k | !SameFolded(k, DerivedName(d)) :: EntryOf(r.value, k) == EntryOf(result, k)
  {
    if Applies(result, d, properties) then
      var v :- DerivedValue(result, d);
      Ok(Set(result, DerivedName(d), v))
    else Ok(result)
  }

  predicate Distinct(ds: seq<DerivedAttr>) {
    forall i, j | 0 <= i < j < |ds| :: ds[i] != ds[j]
  }

  /** No attribute in `ds` has a name that folds like `k`. */
  predicate NotDerived(k: string, ds: seq<DerivedAttr>) {
    forall j | 0 <= j < |ds| :: !SameFolded(k, DerivedName(ds[j]))
  }

  /**
   * The second loop: the computed attributes in turn. The two nested loops of
   * the source are one loop over `DerivedOrder` here: storing a computed
   * attribute never changes a stored one (`Derived.BaseNotDerived`), so the
   * presence test of a stored attribute gives the same answer for each of its
   * computed attributes.
   */
  function DeriveEach(result: DSDict<Value>, properties: seq<string>, ds: seq<DerivedAttr>): (r: Result<DSDict<Value>>)
    requires Valid(result)
    decreases |ds|
    ensures r.Ok? ==> Valid(r.value)
    ensures r.Ok? ==> forall k | NotDerived(k, ds) :: EntryOf(r.value, k) == EntryOf(result, k)
  {
    if |ds| == 0 then Ok(result)
    else
      var next :- DeriveOne(result, properties, ds[0]);
      DeriveEach(next, properties, ds[1..])
  }

  /**
   * Each computed attribute of a list without repeats ends up holding the
   * value computed from the stored attribute the loop started with when it
   * applies, and is left as it was otherwise.
   */
  lemma {:induction false} DeriveEachValue(result: DSDict<Value>, properties: seq<string>, ds: seq<DerivedAttr>, j: nat)
    requires Valid(result) && Distinct(ds) && j < |ds| && DeriveEach(result, properties, ds).Ok?
    ensures Applies(result, ds[j], properties) ==>
      DerivedValue(result, ds[j]).Ok? &&
      Get(DeriveEach(result, properties, ds).value, DerivedName(ds[j])) == Some(DerivedValue(result, ds[j]).value)
    ensures !Applies(result, ds[j], properties) ==>
      EntryOf(DeriveEach(result, properties, ds).value, DerivedName(ds[j])) == EntryOf(result, DerivedName(ds[j]))
    decreases |ds|
  {
    if j == 0 {
      DeriveEachHead(result, properties, ds);
    } else {
      var d := ds[0];
      var next := DeriveOne(result, properties, d).value;
      var rest := ds[1..];
      assert DeriveEach(result, properties, ds) == DeriveEach(next, properties, rest);
      var e := ds[j];
      assert rest[j - 1] == e;
      assert Distinct(rest);
      DeriveOneKeepsOthers(result, properties, d, e);
      DeriveEachValue(next, properties, rest, j - 1);
      KeptThrough(result, next, DeriveEach(next, properties, rest).value, properties, e);
    }
  }

  /** The first computed attribute of a list without repeats keeps the value stored for it. */
  lemma DeriveEachHead(result: DSDict<Value>, properties: seq<string>, ds: seq<DerivedAttr>)
    requires Valid(result) && Distinct(ds) && 0 < |ds| && DeriveEach(result, properties, ds).Ok?
    ensures Applies(result, ds[0], properties) ==>
      DerivedValue(result, ds[0]).Ok? &&
      Get(DeriveEach(result, properties, ds).value, DerivedName(ds[0])) == Some(DerivedValue(result, ds[0]).value)
    ensures !Applies(result, ds[0], properties) ==>
      EntryOf(DeriveEach(result, properties, ds).value, DerivedName(ds[0])) == EntryOf(result, DerivedName(ds[0]))
  {
    var next := DeriveOne(result, properties, ds[0]).value;
    assert DeriveEach(result, properties, ds) == DeriveEach(next, properties, ds[1..]);
    HeadNotDerivedLater(ds);
  }

  /**
   * What the rest of the loop makes of `e`, started from `next`, carries back
   * to `result` when storing one attribute turned `result` into `next`
   * without touching `e`.
   */
  lemma KeptThrough(result: DSDict<Value>, next: DSDict<Value>, fin: DSDict<Value>, properties: seq<string>, e: DerivedAttr)
    requires Applies(next, e, properties) <==> Applies(result, e, properties)
    requires Applies(result, e, properties) ==> DerivedValue(next, e) == DerivedValue(result, e)
    requires EntryOf(next, DerivedName(e)) == EntryOf(result, DerivedName(e))
    requires Applies(next, e, properties) ==>
      DerivedValue(next, e).Ok? && Get(fin, DerivedName(e)) == Some(DerivedValue(next, e).value)
    requires !Applies(next, e, properties) ==> EntryOf(fin, DerivedName(e)) == EntryOf(next, DerivedName(e))
    ensures Applies(result, e, properties) ==>
      DerivedValue(result, e).Ok? && Get(fin, DerivedName(e)) == Some(DerivedValue(result, e).value)
    ensures !Applies(result, e, properties) ==> EntryOf(fin, DerivedName(e)) == EntryOf(result, DerivedName(e))
  {
  }

  /** In a list without repeats, no later attribute shares the first one's name. */
  lemma HeadNotDerivedLater(ds: seq<DerivedAttr>)
    requires |ds| > 0 && Distinct(ds)
    ensures NotDerived(DerivedName(ds[0]), ds[1..])
  {
    forall i | 0 <= i < |ds| - 1 ensures !SameFolded(DerivedName(ds[0]), DerivedName(ds[1..][i])) {
      assert ds[1..][i] == ds[i + 1];
      DerivedNamesApart(ds[0], ds[i + 1]);
    }
  }

  /** Storing `d` changes neither whether another attribute `e` applies, nor its value, nor its entry. */
  lemma DeriveOneKeepsOthers(result: DSDict<Value>, properties: seq<string>, d: DerivedAttr, e: DerivedAttr)
    requires Valid(result) && DeriveOne(result, properties, d).Ok? && d != e
    ensures Applies(DeriveOne(result, properties, d).value, e, properties) <==> Applies(result, e, properties)
    ensures Applies(result, e, properties) ==>
      DerivedValue(DeriveOne(result, properties, d).value, e) == DerivedValue(result, e)
    ensures EntryOf(DeriveOne(result, properties, d).value, DerivedName(e)) == EntryOf(result, DerivedName(e))
  {
    var next := DeriveOne(result, properties, d).value;
    var base := BaseName(BaseOf(e));
    BaseNotDerived(BaseOf(e), d);
    assert EntryOf(next, base) == EntryOf(result, base);
    assert Get(next, base) == Get(result, base);
    DerivedNamesApart(d, e);
  }

  /** `[result.pop(attr) for attr in properties_shadow if attr in result]`. */
  function PopShadows(result: DSDict<Value>, shadows: seq<string>): (r: DSDict<Value>)
    requires Valid(result)
    decreases |shadows|
    ensures Valid(r)
    ensures forall i | 0 <= i < |shadows| :: !DsDict.Contains(r, shadows[i])
    ensures forall k | forall i | 0 <= i < |shadows| :: !SameFolded(k, shadows[i]) :: EntryOf(r, k) == EntryOf(result, k)
  {
    if |shadows| == 0 then result
    else
      var next := if DsDict.Contains(result, shadows[0]) then Pop(result, shadows[0]).value.1 else result;
      var r := PopShadows(next, shadows[1..]);
      assert forall i | 1 <= i < |shadows| :: !DsDict.Contains(r, shadows[i]) by {
        forall i | 1 <= i < |shadows| ensures !DsDict.Contains(r, shadows[i]) {
          assert shadows[1..][i - 1] == shadows[i];
        }
      }
      assert !DsDict.Contains(r, shadows[0]) by {
        LookupIgnoresCase(r, shadows[0], shadows[0]);
      }
      assert forall k | forall i | 0 <= i < |shadows| :: !SameFolded(k, shadows[i]) :: EntryOf(r, k) == EntryOf(result, k) by {
        forall k | forall i | 0 <= i < |shadows| :: !SameFolded(k, shadows[i])
          ensures EntryOf(r, k) == EntryOf(result, k)
        {
          assert !SameFolded(k, shadows[0]);
          assert EntryOf(next, k) == EntryOf(result, k);
          forall i | 0 <= i < |shadows[1..]| ensures !SameFolded(k, shadows[1..][i]) {
            assert shadows[1..][i] == shadows[i + 1];
          }
        }
      }
      r
  }

  /**
   * `object_processing(connect, _logger, data, properties, properties_shadow)`:
   * the converted attributes, the requested computed attributes, and the
   * helper attributes the caller added to the request removed.
   */
  function ObjectProcessing(data: seq<RawAttr>, types: AttrTypes,
                            fetch: (string, string) -> Result<seq<seq<byte>>>,
                            properties: seq<string>, shadows: seq<string>): (r: Result<DSDict<Value>>)
    ensures r.Ok? ==> Valid(r.value)
    ensures r.Ok? ==> forall i | 0 <= i < |shadows| :: !DsDict.Contains(r.value, shadows[i])
    ensures r.Ok? ==> Converted(data, types, fetch).Ok?
  {
    var converted :- Converted(data, types, fetch);
    var full :- DeriveEach(converted, properties, DerivedOrder);
    Ok(PopShadows(full, shadows))
  }

  lemma DerivedOrderDistinct()
    ensures Distinct(DerivedOrder)
    ensures forall d: DerivedAttr :: d in DerivedOrder
  {
    forall d: DerivedAttr ensures d in DerivedOrder {
      RulesPartition(BaseOf(d), d);
    }
  }

  /** The position of each computed attribute in `DerivedOrder`. */
  function OrderIndex(d: DerivedAttr): (j: nat)
    ensures j < |DerivedOrder| && DerivedOrder[j] == d
  {
    match d
    case Enabled => 0
    case PasswordNeverExpires => 1
    case AccountNotDelegated => 2
    case PasswordNotRequired => 3
    case GroupScope => 4
    case GroupCategory => 5
    case ChangePasswordAtLogon => 6
  }

  /** The second loop adds each computed attribute that applies, with its computed value, and leaves the others alone. */
  lemma DeriveAll(result: DSDict<Value>, properties: seq<string>, d: DerivedAttr)
    requires Valid(result) && DeriveEach(result, properties, DerivedOrder).Ok?
    ensures Applies(result, d, properties) ==>
      DerivedValue(result, d).Ok? &&
      Get(DeriveEach(result, properties, DerivedOrder).value, DerivedName(d)) == Some(DerivedValue(result, d).value)
    ensures !Applies(result, d, properties) ==>
      EntryOf(DeriveEach(result, properties, DerivedOrder).value, DerivedName(d)) == EntryOf(result, DerivedName(d))
  {
    DerivedOrderDistinct();
    DeriveEachValue(result, properties, DerivedOrder, OrderIndex(d));
  }

  /** A key that is neither computed nor a helper keeps its converted entry. */
  lemma ObjectProcessingKeeps(data: seq<RawAttr>, types: AttrTypes,
                              fetch: (string, string) -> Result<seq<seq<byte>>>,
                              properties: seq<string>, shadows: seq<string>, k: string)
    requires ObjectProcessing(data, types, fetch, properties, shadows).Ok?
    requires forall d: DerivedAttr :: !SameFolded(k, DerivedName(d))
    requires forall i | 0 <= i < |shadows| :: !SameFolded(k, shadows[i])
    ensures EntryOf(ObjectProcessing(data, types, fetch, properties, shadows).value, k)
            == EntryOf(Converted(data, types, fetch).value, k)
  {
    assert NotDerived(k, DerivedOrder);
  }

  /**
   * A computed attribute that is not a helper holds the value computed from
   * its converted stored attribute when that is present and the attribute was
   * asked for, and is otherwise whatever the conversion left under its name.
   */
  lemma ObjectProcessingDerives(data: seq<RawAttr>, types: AttrTypes,
                                fetch: (string, string) -> Result<seq<seq<byte>>>,
                                properties: seq<string>, shadows: seq<string>, d: DerivedAttr)
    requires ObjectProcessing(data, types, fetch, properties, shadows).Ok?
    requires forall i | 0 <= i < |shadows| :: !SameFolded(DerivedName(d), shadows[i])
    ensures var c := Converted(data, types, fetch).value;
            var r := ObjectProcessing(data, types, fetch, properties, shadows).value;
            (Applies(c, d, properties) ==> DerivedValue(c, d).Ok? && Get(r, DerivedName(d)) == Some(DerivedValue(c, d).value))
            && (!Applies(c, d, properties) ==> EntryOf(r, DerivedName(d)) == EntryOf(c, DerivedName(d)))
  {
    var c := Converted(data, types, fetch).value;
    var full := DeriveEach(c, properties, DerivedOrder).value;
    var r := ObjectProcessing(data, types, fetch, properties, shadows).value;
    assert r == PopShadows(full, shadows);
    assert EntryOf(r, DerivedName(d)) == EntryOf(full, DerivedName(d));
    DeriveAll(c, properties, d);
  }
}
