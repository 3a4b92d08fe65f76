// `search_object` (app/ds/func_ds_get.py:113-201) and the two retrieval
// helpers of app/ds/ds_function.py: the request the gateway composes, the
// paged-results loop of RFC 2696 over an abstract sequence of server
// replies, the root-entry naming-context choice, and the range retrieval of
// section 3.1.1.3.1.3.3 of MS-ADTS.

module Search {
  import opened Wrappers
  import opened Text
  import opened DsDict
  import opened DsData
  import opened Derived
  import opened ObjectProcessing

  // ---------------------------------------------------------------------------
  // The requested attributes

  /** The attribute list sent to the server and the helper attributes to drop from each result. */
  datatype Augmented = Augmented(properties: seq<string>, shadows: seq<string>)

  const DnAttr := "distinguishedName"
  const ClassAttr := "objectClass"

  /** The lower-case spellings the request is checked against. */
  const DnKey := "distinguishedname"
  const ClassKey := "objectclass"

  /** `attr.lower()` of each stored attribute that has computed ones. */
  function ShadowName(b: BaseAttr): (s: string)
    ensures s == Fold(BaseName(b))
  {
    match b
    case UacBase =>
      FoldLowerCaseOf("userAccountControl", "useraccountcontrol");
      "useraccountcontrol"
    case GroupTypeBase =>
      FoldLowerCaseOf("groupType", "grouptype");
      "grouptype"
    case PwdLastSetBase =>
      FoldLowerCaseOf("pwdLastSet", "pwdlastset");
      "pwdlastset"
  }

  lemma FoldLowerCaseOf(s: string, t: string)
    requires |s| == |t| && forall i | 0 <= i < |s| :: t[i] == FoldChar(s[i])
    ensures Fold(s) == t
  {
  }

  /** `[i.lower() for i in properties]`. */
  function Lowered(props: seq<string>): (low: seq<string>)
    ensures |low| == |props| && forall i | 0 <= i < |props| :: low[i] == Fold(props[i])
  {
    seq(|props|, i requires 0 <= i < |props| => Fold(props[i]))
  }

  /** Some computed attribute of `b` is asked for and `b` itself is not: `b` is fetched as a helper. */
  predicate NeedsShadow(low: seq<string>, b: BaseAttr) {
    ShadowName(b) !in low && exists d | d in Rules(b) :: Fold(DerivedName(d)) in low
  }

  /** The helper attributes, in `ATTR_EXTEND` order. */
  function ShadowsOf(low: seq<string>, bs: seq<BaseAttr>): (sh: seq<string>)
    ensures forall x | x in sh :: exists b | b in bs :: x == ShadowName(b) && NeedsShadow(low, b)
    ensures forall b | b in bs && NeedsShadow(low, b) :: ShadowName(b) in sh
  {
    if |bs| == 0 then []
    else (if NeedsShadow(low, bs[0]) then [ShadowName(bs[0])] else []) + ShadowsOf(low, bs[1..])
  }

  /** The distinguished name and the object class, each unless already asked for in some casing. */
  function Forced(low: seq<string>): seq<string> {
    (if DnKey in low then [] else [DnAttr]) + (if ClassKey in low then [] else [ClassAttr])
  }

  /**
   * The attribute list of `search_object`. Unless "*" is asked for, the
   * distinguished name and the object class are added when missing (in any
   * casing), and each stored attribute behind a requested computed one is
   * added, lower-cased, both to the list and to the helpers.
   */
  function Augment(props: seq<string>): (a: Augmented)
    ensures "*" in props ==> a == Augmented(props, [])
    ensures |props| <= |a.properties| && a.properties[..|props|] == props
  {
    if "*" in props then Augmented(props, [])
    else
      var low := Lowered(props);
      var shadows := ShadowsOf(low, Bases);
      var all := props + Forced(low) + shadows;
      assert all[..|props|] == props;
      Augmented(all, shadows)
  }

  lemma FoldDnAttr()
    ensures Fold(DnAttr) == DnKey
  {
    FoldLowerCaseOf(DnAttr, DnKey);
  }

  lemma FoldClassAttr()
    ensures Fold(ClassAttr) == ClassKey
  {
    FoldLowerCaseOf(ClassAttr, ClassKey);
  }

  /** Appending to a list keeps every name it already had, and adds the appended ones. */
  lemma LoweredAppend(a: seq<string>, b: seq<string>, key: string)
    ensures key in Lowered(a) ==> key in Lowered(a + b)
    ensures key in Lowered(b) ==> key in Lowered(a + b)
  {
    var la, lb, lab := Lowered(a), Lowered(b), Lowered(a + b);
    if key in la {
      var i :| 0 <= i < |la| && la[i] == key;
      assert (a + b)[i] == a[i];
      assert lab[i] == key;
    }
    if key in lb {
      var i :| 0 <= i < |lb| && lb[i] == key;
      assert (a + b)[|a| + i] == b[i];
      assert lab[|a| + i] == key;
    }
  }

  /** A list names `key` in some casing when one of its items folds to it. */
  lemma InLowered(a: seq<string>, i: nat, key: string)
    requires i < |a| && Fold(a[i]) == key
    ensures key in Lowered(a)
  {
    assert Lowered(a)[i] == key;
  }

  /** A missing distinguished name is added. */
  lemma ForcedDn(low: seq<string>)
    requires DnKey !in low
    ensures DnKey in Lowered(Forced(low))
  {
    var f := Forced(low);
    assert f[0] == DnAttr;
    FoldDnAttr();
    InLowered(f, 0, DnKey);
  }

  /** A missing object class is added. */
  lemma ForcedClass(low: seq<string>)
    requires ClassKey !in low
    ensures ClassKey in Lowered(Forced(low))
  {
    var f := Forced(low);
    assert f[|f| - 1] == ClassAttr;
    FoldClassAttr();
    InLowered(f, |f| - 1, ClassKey);
  }

  /** Without "*", the request names the distinguished name and the object class. */
  lemma AugmentForces(props: seq<string>)
    requires "*" !in props
    ensures DnKey in Lowered(Augment(props).properties)
    ensures ClassKey in Lowered(Augment(props).properties)
  {
    var low := Lowered(props);
    var forced := Forced(low);
    var shadows := ShadowsOf(low, Bases);
    assert Augment(props).properties == props + forced + shadows;
    if DnKey !in low {
      ForcedDn(low);
    }
    if ClassKey !in low {
      ForcedClass(low);
    }
    LoweredAppend(props, forced, DnKey);
    LoweredAppend(props, forced, ClassKey);
    LoweredAppend(props + forced, shadows, DnKey);
    LoweredAppend(props + forced, shadows, ClassKey);
  }

  lemma ShadowNamesApart(b: BaseAttr, c: BaseAttr)
    requires b != c
    ensures ShadowName(b) != ShadowName(c)
  {
  }

  /**
   * Without "*", a stored attribute is a helper exactly when it was not asked
   * for and one of its computed attributes was.
   */
  lemma AugmentShadows(props: seq<string>, b: BaseAttr)
    requires "*" !in props
    ensures ShadowName(b) in Augment(props).shadows <==> NeedsShadow(Lowered(props), b)
  {
    var low := Lowered(props);
    var sh := Augment(props).shadows;
    assert b in Bases;
    if ShadowName(b) in sh {
      var c :| c in Bases && ShadowName(b) == ShadowName(c) && NeedsShadow(low, c);
      if c != b {
        ShadowNamesApart(b, c);
      }
    }
  }

  /** `if not properties: properties = []` followed by the `only_one` wildcard rule. */
  function WildcardCheck(filter: string, onlyOne: bool): (r: Result<()>)
    ensures r.Err? <==> onlyOne && '*' in filter
    ensures r.Err? ==> r.failure.exc == RuntimeError
  {
    if onlyOne && '*' in filter then Raise(RuntimeError, "wildcard in an exact search") else Ok(())
  }

  // ---------------------------------------------------------------------------
  // Scope

  datatype Scope = SubtreeScope | OneLevelScope | BaseScope

  function ScopeName(s: Scope): string {
    match s
    case SubtreeScope => "subtree"
    case OneLevelScope => "onelevel"
    case BaseScope => "base"
  }

  /** The scope name to the library constant; any other name raises. */
  function ScopeOf(name: string): (r: Result<Scope>)
    ensures r.Ok? ==> ScopeName(r.value) == name
    ensures r.Err? ==> r.failure.exc == RuntimeError && forall s: Scope :: ScopeName(s) != name
  {
    if name == "subtree" then Ok(SubtreeScope)
    else if name == "onelevel" then Ok(OneLevelScope)
    else if name == "base" then Ok(BaseScope)
    else Raise(RuntimeError, "unknown search scope")
  }

  lemma ScopeRoundTrip(s: Scope)
    ensures ScopeOf(ScopeName(s)) == Ok(s)
  {
  }

  // ---------------------------------------------------------------------------
  // The exactly-one rule

  /** With `only_one`, no result means "not found" and several mean "ambiguous". */
  function ExactlyOne<T>(results: seq<T>, onlyOne: bool): (r: Result<seq<T>>)
    ensures r.Ok? ==> r.value == results
    ensures r.Ok? <==> !onlyOne || |results| == 1
    ensures r.Err? ==> r.failure.exc == RuntimeError
  {
    if onlyOne && |results| == 0 then Raise(RuntimeError, "object not found")
    else if onlyOne && |results| > 1 then Raise(RuntimeError, "more than one object found")
    else Ok(results)
  }

  // ---------------------------------------------------------------------------
  // The root entry

  /** The first naming context, in server order, that starts with "dc=" in any casing. */
  function FirstDomainContext(contexts: seq<string>): (r: Result<string>)
    ensures r.Ok? ==> exists i | 0 <= i < |contexts| :: contexts[i] == r.value
                        && StartsWith(Fold(contexts[i]), "dc=")
                        && forall j | 0 <= j < i :: !StartsWith(Fold(contexts[j]), "dc=")
    ensures r.Err? <==> forall i | 0 <= i < |contexts| :: !StartsWith(Fold(contexts[i]), "dc=")
    ensures r.Err? ==> r.failure.exc == IndexError
  {
    if |contexts| == 0 then Raise(IndexError, "list index out of range")
    else if StartsWith(Fold(contexts[0]), "dc=") then Ok(contexts[0])
    else
      var r := FirstDomainContext(contexts[1..]);
      if r.Ok? then
        var i :| 0 <= i < |contexts[1..]| && contexts[1..][i] == r.value
                 && StartsWith(Fold(contexts[1..][i]), "dc=")
                 && forall j | 0 <= j < i :: !StartsWith(Fold(contexts[1..][j]), "dc=");
        assert contexts[i + 1] == r.value;
        r
      else
        r
  }

  /**
   * `search_root_dse`: every naming context of the root entry decoded, then
   * the first domain context among them.
   */
  function SearchRootDse(contexts: seq<seq<byte>>): (r: Result<string>)
    ensures r.Ok? ==> StartsWith(Fold(r.value), "dc=")
    ensures r.Err? ==> r.failure.exc == UnicodeDecodeError || r.failure.exc == IndexError
  {
    var names :- DecodeAll(contexts);
    FirstDomainContext(names)
  }

  // ---------------------------------------------------------------------------
  // The paged-results loop

  /**
   * One reply of the paged search: the entries as (DN, raw attributes) and the
   * cookie of its paged-results control, "" when the control is missing or
   * its cookie is empty.
   */
  datatype Page = Page(entries: seq<(string, seq<RawAttr>)>, cookie: string)

  /** A result list behind a prefix, errors passed through. */
  function Prepend<T>(prefix: seq<T>, r: Result<seq<T>>): (p: Result<seq<T>>)
    ensures p.Ok? <==> r.Ok?
    ensures p.Err? ==> p == r
  {
    match r
    case Ok(v) => Ok(prefix + v)
    case Err(f) => Err(f)
  }

  lemma PrependNothing<T>(r: Result<seq<T>>)
    ensures Prepend([], r) == r
  {
    if r.Ok? {
      assert [] + r.value == r.value;
    }
  }

  lemma PrependAll<T>(items: seq<T>)
    ensures Prepend(items, Ok([])) == Ok(items)
  {
    assert items + [] == items;
  }

  lemma PrependTwice<T>(a: seq<T>, b: seq<T>, r: Result<seq<T>>)
    ensures Prepend(a, Prepend(b, r)) == Prepend(a + b, r)
  {
    if r.Ok? {
      assert a + (b + r.value) == (a + b) + r.value;
    }
  }

  /** The entries that carry a DN, in order: search references come back without one. */
  function Named(entries: seq<(string, seq<RawAttr>)>): (named: seq<(string, seq<RawAttr>)>)
    ensures forall e | e in named :: e in entries && e.0 != ""
    ensures forall e | e in entries && e.0 != "" :: e in named
  {
    if |entries| == 0 then []
    else (if entries[0].0 == "" then [] else [entries[0]]) + Named(entries[1..])
  }

  /** `items` are what `process` made of the named entries, one for one and in order. */
  predicate ProcessedAll(entries: seq<(string, seq<RawAttr>)>, process: seq<RawAttr> -> Result<DSDict<Value>>,
                         items: seq<DSDict<Value>>)
  {
    |items| == |Named(entries)| && forall j | 0 <= j < |items| :: process(Named(entries)[j].1) == Ok(items[j])
  }

  /** `process` fails with `f` on some named entry. */
  predicate FailsOn(entries: seq<(string, seq<RawAttr>)>, process: seq<RawAttr> -> Result<DSDict<Value>>,
                    f: Failure)
  {
    exists e | e in Named(entries) :: process(e.1) == Err(f)
  }

  /** The processed entries of one page, in order; the first failure otherwise. */
  function Kept(entries: seq<(string, seq<RawAttr>)>, process: seq<RawAttr> -> Result<DSDict<Value>>)
    : (r: Result<seq<DSDict<Value>>>)
    ensures r.Ok? ==> |r.value| == |Named(entries)|
    ensures r.Ok? ==> ProcessedAll(entries, process, r.value)
    ensures r.Err? ==> FailsOn(entries, process, r.failure)
  {
    if |entries| == 0 then Ok([])
    else
      var rest := Kept(entries[1..], process);
      if entries[0].0 == "" then
        assert Named(entries) == Named(entries[1..]);
        rest
      else
        var first :- process(entries[0].1);
        assert Named(entries) == [entries[0]] + Named(entries[1..]);
        Prepend([first], rest)
  }

  /**
   * The reference for the loop: the processed entries of each reply from
   * `pages[i]` on, in order, as long as replies carry a cookie. A missing
   * reply stands for the server failing the request. Every object it
   * collects is what `process` made of some entry's attributes.
   */
  function Paged(pages: seq<Page>, i: nat, process: seq<RawAttr> -> Result<DSDict<Value>>)
    : (r: Result<seq<DSDict<Value>>>)
    ensures r.Ok? ==> forall x | x in r.value :: exists d :: process(d) == Ok(x)
    decreases |pages| - i
  {
    if i >= |pages| then Raise(LdapError, "no reply from the server")
    else
      var items :- Kept(pages[i].entries, process);
      KeptFrom(pages[i].entries, process);
      if pages[i].cookie == "" then Ok(items) else Prepend(items, Paged(pages, i + 1, process))
  }

  /** Every kept result is what `process` made of some entry's attributes. */
  lemma KeptFrom(entries: seq<(string, seq<RawAttr>)>, process: seq<RawAttr> -> Result<DSDict<Value>>)
    requires Kept(entries, process).Ok?
    ensures forall x | x in Kept(entries, process).value :: exists d :: process(d) == Ok(x)
  {
    var r := Kept(entries, process).value;
    forall x | x in r ensures exists d :: process(d) == Ok(x) {
      var j :| 0 <= j < |r| && r[j] == x;
      assert process(Named(entries)[j].1) == Ok(x);
    }
  }

  /** A reply without a cookie is the last one read: later replies are never asked for. */
  lemma PagedStops(pages: seq<Page>, more: seq<Page>, i: nat, process: seq<RawAttr> -> Result<DSDict<Value>>)
    requires i < |pages| && pages[i].cookie == ""
    ensures Paged(pages + more, i, process) == Paged(pages, i, process)
  {
    assert (pages + more)[i] == pages[i];
  }

  /** Every reply before the first one without a cookie is read, in order. */
  lemma {:induction false} PagedReads(pages: seq<Page>, i: nat, k: nat, process: seq<RawAttr> -> Result<DSDict<Value>>)
    requires i <= k < |pages| && pages[k].cookie == ""
    requires forall j | i <= j < k :: pages[j].cookie != ""
    requires forall j | i <= j <= k :: Kept(pages[j].entries, process).Ok?
    ensures Paged(pages, i, process).Ok?
    ensures |Paged(pages, i, process).value| == SumNamed(pages, i, k)
    decreases k - i
  {
    var items := Kept(pages[i].entries, process).value;
    assert |items| == |Named(pages[i].entries)|;
    if i < k {
      PagedReads(pages, i + 1, k, process);
      assert Paged(pages, i, process) == Prepend(items, Paged(pages, i + 1, process));
    } else {
      assert Paged(pages, i, process) == Ok(items);
    }
  }

  /** The number of entries with a DN in `pages[i..k+1]`. */
  function SumNamed(pages: seq<Page>, i: nat, k: nat): nat
    requires i <= k < |pages|
    decreases k - i
  {
    |Named(pages[i].entries)| + if i == k then 0 else SumNamed(pages, i + 1, k)
  }

  /** The loop over the entries of one reply. */
  method KeepEntries(entries: seq<(string, seq<RawAttr>)>, process: seq<RawAttr> -> Result<DSDict<Value>>)
    returns (r: Result<seq<DSDict<Value>>>)
    ensures r == Kept(entries, process)
  {
    var items: seq<DSDict<Value>> := [];
    var j := 0;
    PrependNothing(Kept(entries, process));
    while j < |entries|
      invariant j <= |entries|
      invariant Kept(entries, process) == Prepend(items, Kept(entries[j..], process))
    {
      KeptAdvance(entries, j, process, items);
      if entries[j].0 != "" {
        var o := process(entries[j].1);
        if o.Err? {
          return Err(o.failure);
        }
        items := items + [o.value];
      }
      j := j + 1;
    }
    assert entries[j..] == [];
    PrependAll(items);
    return Ok(items);
  }

  /** The loop invariant of `KeepEntries` carried past entry `j`. */
  lemma KeptAdvance(entries: seq<(string, seq<RawAttr>)>, j: nat, process: seq<RawAttr> -> Result<DSDict<Value>>,
                    items: seq<DSDict<Value>>)
    requires j < |entries|
    requires Kept(entries, process) == Prepend(items, Kept(entries[j..], process))
    ensures entries[j].0 == "" ==> Kept(entries, process) == Prepend(items, Kept(entries[j + 1..], process))
    ensures entries[j].0 != "" && process(entries[j].1).Err? ==>
              Kept(entries, process) == Err(process(entries[j].1).failure)
    ensures entries[j].0 != "" && process(entries[j].1).Ok? ==>
              Kept(entries, process) == Prepend(items + [process(entries[j].1).value], Kept(entries[j + 1..], process))
  {
    KeptStep(entries, j, process);
    if entries[j].0 != "" && process(entries[j].1).Ok? {
      PrependTwice(items, [process(entries[j].1).value], Kept(entries[j + 1..], process));
    }
  }

  /** One step of `Kept` from position `j`: skip an entry without a DN, else process it. */
  lemma KeptStep(entries: seq<(string, seq<RawAttr>)>, j: nat, process: seq<RawAttr> -> Result<DSDict<Value>>)
    requires j < |entries|
    ensures entries[j].0 == "" ==> Kept(entries[j..], process) == Kept(entries[j + 1..], process)
    ensures entries[j].0 != "" && process(entries[j].1).Err? ==>
              Kept(entries[j..], process) == Err(process(entries[j].1).failure)
    ensures entries[j].0 != "" && process(entries[j].1).Ok? ==>
              Kept(entries[j..], process) == Prepend([process(entries[j].1).value], Kept(entries[j + 1..], process))
  {
    assert entries[j..][1..] == entries[j + 1..];
  }

  /** The loop over the replies. */
  method CollectPages(pages: seq<Page>, process: seq<RawAttr> -> Result<DSDict<Value>>)
    returns (r: Result<seq<DSDict<Value>>>)
    ensures r == Paged(pages, 0, process)
  {
    var results: seq<DSDict<Value>> := [];
    var i := 0;
    PrependNothing(Paged(pages, 0, process));
    while i < |pages|
      invariant Paged(pages, 0, process) == Prepend(results, Paged(pages, i, process))
      decreases |pages| - i
    {
      var items := KeepEntries(pages[i].entries, process);
      if items.Err? {
        return Err(items.failure);
      }
      if pages[i].cookie == "" {
        return Ok(results + items.value);
      }
      PrependTwice(results, items.value, Paged(pages, i + 1, process));
      results := results + items.value;
      i := i + 1;
    }
    return Raise(LdapError, "no reply from the server");
  }

  // ---------------------------------------------------------------------------
  // The search as a whole

  /**
   * `search_object`: rewrite the filter, wrap it in the kind's class filter,
   * refuse a wildcard in an exact search, complete the property list, map
   * the scope, read the replies page by page processing every entry that
   * has a DN, and apply the exactly-one rule. `rewrite` stands for the
   * value escaping of the filter, which may raise on a malformed GUID;
   * `pages` are the server's replies to the search.
   */
  /** `object_processing` with the completed property list and its shadows, as applied to each entry. */
  function Processor(types: AttrTypes, fetch: (string, string) -> Result<seq<seq<byte>>>, properties: seq<string>)
    : seq<RawAttr> -> Result<DSDict<Value>>
  {
    var aug := Augment(properties);
    d => ObjectProcessing.ObjectProcessing(d, types, fetch, aug.properties, aug.shadows)
  }

  function SearchObject(filter: string, rewrite: string -> Result<string>, typeObject: string,
                        properties: seq<string>, scope: string, onlyOne: bool,
                        types: AttrTypes, fetch: (string, string) -> Result<seq<seq<byte>>>,
                        pages: seq<Page>): (r: Result<seq<DSDict<Value>>>)
    ensures rewrite(filter).Err? ==> r == Err(rewrite(filter).failure)
    ensures rewrite(filter).Ok? && KindOf(typeObject).Err? ==> RaisedAs(r, KeyError)
    ensures r.Ok? ==> KindOf(typeObject).Ok? && ScopeOf(scope).Ok?
    ensures r.Ok? && onlyOne ==> '*' !in Unit(KindOf(typeObject).value, rewrite(filter).value) && |r.value| == 1
    ensures r.Ok? ==> forall x | x in r.value :: Valid(x)
                        && forall j | 0 <= j < |Augment(properties).shadows| :: !DsDict.Contains(x, Augment(properties).shadows[j])
    ensures r.Ok? ==> Paged(pages, 0, Processor(types, fetch, properties)) == Ok(r.value)
    ensures rewrite(filter).Ok? && KindOf(typeObject).Ok? && ScopeOf(scope).Ok?
            && WildcardCheck(Unit(KindOf(typeObject).value, rewrite(filter).value), onlyOne).Ok? ==>
              (r.Ok? <==> Paged(pages, 0, Processor(types, fetch, properties)).Ok?
                          && (!onlyOne || |Paged(pages, 0, Processor(types, fetch, properties)).value| == 1))
  {
    var rewritten :- rewrite(filter);
    var kind :- KindOf(typeObject);
    var ldapFilter := Unit(kind, rewritten);
    var _ :- WildcardCheck(ldapFilter, onlyOne);
    var aug := Augment(properties);
    var _ :- ScopeOf(scope);
    var process := Processor(types, fetch, properties);
    var results :- Paged(pages, 0, process);
    ExactlyOne(results, onlyOne)
  }

  // ---------------------------------------------------------------------------
  // Range retrieval

  /** The window size of `search_attribute_range`. */
  const RangeStep := 1499
  const RangeMarker := ";range="

  /** `s.split(sep)[1]`: the text between the first and the second `sep`; IndexError when `sep` does not occur. */
  function SecondPart(s: string, sep: string): (r: Result<string>)
    requires |sep| > 0
    ensures r.Err? <==> !Text.Contains(s, sep)
    ensures r.Err? ==> r.failure.exc == IndexError
  {
    var i := Find(s, sep);
    if i < 0 then Raise(IndexError, "list index out of range")
    else
      var rest := s[i + |sep|..];
      var j := Find(rest, sep);
      Ok(if j < 0 then rest else rest[..j])
  }

  /** `int(attribute.split(';range=')[1].split('-')[1]) + 1`: the start of the first window still to fetch. */
  function FirstStart(attribute: string): (r: Result<int>)
    ensures r.Err? ==> r.failure.exc == IndexError || r.failure.exc == ValueError
  {
    var part :- SecondPart(attribute, RangeMarker);
    var bounds := Split(part, '-');
    if |bounds| < 2 then Raise(IndexError, "list index out of range")
    else
      match ParseInt(bounds[1])
      case Some(n) => Ok(n + 1)
      case None => Raise(ValueError, "invalid literal for int()")
  }

  /** `f"{attr_name};range={start}-{end}"`. */
  function RangeRequest(name: string, start: int, end: int): string {
    name + RangeMarker + IntToDecimal(start) + "-" + IntToDecimal(end)
  }

  /** Splitting at the first separator peels off the text before it. */
  lemma {:induction false} SplitAround(a: string, b: string, sep: char)
    requires sep !in a
    ensures Split(a + [sep] + b, sep) == [a] + Split(b, sep)
  {
    if |a| == 0 {
      assert a + [sep] + b == [sep] + b;
      assert ([sep] + b)[1..] == b;
    } else {
      SplitAround(a[1..], b, sep);
      assert (a + [sep] + b)[1..] == a[1..] + [sep] + b;
      assert [a[0]] + a[1..] == a;
    }
  }

  /** Decimal digits hold none of the characters the range syntax gives a meaning to. */
  lemma DecimalPlain(n: nat)
    ensures '-' !in NatToDecimal(n) && ';' !in NatToDecimal(n) && '*' !in NatToDecimal(n)
  {
    var d := NatToDecimal(n);
    assert forall i | 0 <= i < |d| :: IsDigit(d[i]);
  }

  /** Text without ';' holds no range marker. */
  lemma NoMarker(t: string)
    requires ';' !in t
    ensures Find(t, RangeMarker) == -1
  {
    forall i | 0 <= i <= |t| - |RangeMarker| ensures !OccursAt(t, RangeMarker, i) {
      assert t[i] != ';';
      assert t[i..i + |RangeMarker|][0] == t[i];
    }
  }

  /** The marker right after a name without ';' is the first one. */
  lemma MarkerAfterName(name: string, rest: string)
    requires ';' !in name
    ensures Find(name + RangeMarker + rest, RangeMarker) == |name|
  {
    var t := name + RangeMarker + rest;
    assert t[|name|..|name| + |RangeMarker|] == RangeMarker;
    assert OccursAt(t, RangeMarker, |name|);
    forall j | 0 <= j < |name| ensures !OccursAt(t, RangeMarker, j) {
      assert t[j] == name[j] && name[j] != ';';
      assert t[j..j + |RangeMarker|][0] == t[j];
    }
  }

  /** The bounds part of a request: the text after its marker. */
  lemma RequestBounds(name: string, start: nat, end: nat)
    requires ';' !in name
    ensures SecondPart(RangeRequest(name, start, end), RangeMarker)
            == Ok(NatToDecimal(start) + "-" + NatToDecimal(end))
    ensures Split(NatToDecimal(start) + "-" + NatToDecimal(end), '-') == [NatToDecimal(start), NatToDecimal(end)]
  {
    var a, b := NatToDecimal(start), NatToDecimal(end);
    var bounds := a + "-" + b;
    assert RangeRequest(name, start, end) == name + RangeMarker + bounds;
    MarkerAfterName(name, bounds);
    assert (name + RangeMarker + bounds)[|name| + |RangeMarker|..] == bounds;
    DecimalPlain(start);
    DecimalPlain(end);
    assert ';' !in bounds;
    NoMarker(bounds);
    SplitAround(a, b, '-');
    assert a + "-" + b == a + ['-'] + b;
    SplitWithoutSeparator(b, '-');
  }

  /**
   * The first window still to fetch starts one past the end of the window
   * the first reply reported.
   */
  lemma FirstStartOfWindow(name: string, start: nat, end: nat)
    requires ';' !in name
    ensures FirstStart(RangeRequest(name, start, end)) == Ok(end + 1)
  {
    RequestBounds(name, start, end);
    ParseIntToDecimal(end);
  }

  /** Index of the first attribute whose name contains `pattern`. */
  function FirstNameWith(res: seq<RawAttr>, pattern: string): (r: Option<nat>)
    ensures r.Some? ==> r.value < |res| && Text.Contains(res[r.value].0, pattern)
    ensures r.Some? ==> forall j | 0 <= j < r.value :: !Text.Contains(res[j].0, pattern)
    ensures r.None? ==> forall j | 0 <= j < |res| :: !Text.Contains(res[j].0, pattern)
  {
    if |res| == 0 then None
    else if Text.Contains(res[0].0, pattern) then Some(0)
    else
      match FirstNameWith(res[1..], pattern)
      case Some(j) => Some(j + 1)
      case None => None
  }

  /**
   * One round of the loop on the reply `search_s` gave: the values of the
   * first attribute named like `name;range=`, and the end it reports when the
   * loop goes on (`None` when the values are empty or the end is "*").
   */
  function RangeRound(name: string, reply: seq<seq<RawAttr>>): (r: Result<(seq<seq<byte>>, Option<int>)>)
    ensures r.Ok? && r.value.1.Some? ==> |r.value.0| > 0
    ensures r.Err? ==> r.failure.exc in {IndexError, ValueError}
  {
    if |reply| == 0 then Raise(IndexError, "list index out of range")
    else
      var res := reply[0];
      match FirstNameWith(res, name + RangeMarker)
      case None => Raise(IndexError, "list index out of range")
      case Some(k) =>
        var (am, values) := res[k];
        if |values| == 0 then Ok(([], None))
        else
          var part :- SecondPart(am, RangeMarker);
          var bounds := Split(part, '-');
          if |bounds| != 2 then Raise(ValueError, "not enough values to unpack")
          else if '*' in bounds[1] then Ok((values, None))
          else
            match ParseInt(bounds[1])
            case Some(n) => Ok((values, Some(n)))
            case None => Raise(ValueError, "invalid literal for int()")
  }

  /** A reply naming the window asked for, with values, moves the loop on past that window's end. */
  lemma EchoedWindow(name: string, start: nat, end: nat, values: seq<seq<byte>>)
    requires ';' !in name && |values| > 0
    ensures RangeRound(name, [[(RangeRequest(name, start, end), values)]]) == Ok((values, Some(end)))
  {
    var am := RangeRequest(name, start, end);
    assert am == (name + RangeMarker) + (NatToDecimal(start) + "-" + NatToDecimal(end));
    assert OccursAt(am, name + RangeMarker, 0);
    assert FirstNameWith([(am, values)], name + RangeMarker) == Some(0);
    RequestBounds(name, start, end);
    DecimalPlain(end);
    ParseIntToDecimal(end);
  }

  /** A reply whose window ends in "*" is the last one: its values close the loop. */
  lemma EchoedLastWindow(name: string, start: nat, values: seq<seq<byte>>)
    requires ';' !in name && |values| > 0
    ensures RangeRound(name, [[(name + RangeMarker + NatToDecimal(start) + "-*", values)]]) == Ok((values, None))
  {
    var a := NatToDecimal(start);
    var am := name + RangeMarker + a + "-*";
    assert am == (name + RangeMarker) + (a + "-*");
    assert OccursAt(am, name + RangeMarker, 0);
    assert FirstNameWith([(am, values)], name + RangeMarker) == Some(0);
    DecimalPlain(start);
    assert ';' !in a + "-*";
    MarkerAfterName(name, a + "-*");
    assert am[|name| + |RangeMarker|..] == a + "-*";
    NoMarker(a + "-*");
    assert a + "-*" == a + ['-'] + "*";
    SplitAround(a, "*", '-');
    SplitWithoutSeparator("*", '-');
  }

  /** What each reply gives, taken apart by `RangeRound`. */
  type Round = Result<(seq<seq<byte>>, Option<int>)>

  function Rounds(name: string, replies: seq<seq<seq<RawAttr>>>): (rs: seq<Round>)
    ensures |rs| == |replies| && forall j | 0 <= j < |replies| :: rs[j] == RangeRound(name, replies[j])
  {
    seq(|replies|, j requires 0 <= j < |replies| => RangeRound(name, replies[j]))
  }

  /**
   * The reference for the loop: the values of each round from `rounds[i]` on,
   * in order. A missing reply stands for the server failing the request.
   */
  function RangeFrom(rounds: seq<Round>, i: nat): (r: Result<seq<seq<byte>>>)
    decreases |rounds| - i
  {
    if i >= |rounds| then Raise(LdapError, "no reply from the server")
    else
      var (values, next) :- rounds[i];
      match next
      case None => Ok(values)
      case Some(_) => Prepend(values, RangeFrom(rounds, i + 1))
  }

  /** The windows the loop asks for from round `i` on, the first one starting at `start`. */
  function RangeWindows(rounds: seq<Round>, start: int, i: nat): (w: seq<(int, int)>)
    ensures |w| > 0 && w[0] == (start, start + RangeStep)
    decreases |rounds| - i
  {
    [(start, start + RangeStep)] +
      if i >= |rounds| then []
      else
        match rounds[i]
        case Ok((_, Some(n))) => RangeWindows(rounds, n + 1, i + 1)
        case _ => []
  }

  /** A round that reports an end is followed by the window after it. */
  lemma RangeWindowsStep(rounds: seq<Round>, start: int, i: nat)
    requires i < |rounds| && rounds[i].Ok? && rounds[i].value.1.Some?
    ensures RangeWindows(rounds, start, i)
            == [(start, start + RangeStep)] + RangeWindows(rounds, rounds[i].value.1.value + 1, i + 1)
  {
  }

  /** A failed or final round is the last one asked for. */
  lemma RangeWindowsLast(rounds: seq<Round>, start: int, i: nat)
    requires i >= |rounds| || rounds[i].Err? || rounds[i].value.1.None?
    ensures RangeWindows(rounds, start, i) == [(start, start + RangeStep)]
  {
  }

  /** Every window is `RangeStep` wide. */
  lemma {:induction false} RangeWindowsWidth(rounds: seq<Round>, start: int, i: nat, k: nat)
    requires k < |RangeWindows(rounds, start, i)|
    ensures RangeWindows(rounds, start, i)[k].1 - RangeWindows(rounds, start, i)[k].0 == RangeStep
    decreases |rounds| - i
  {
    if k > 0 {
      var n := rounds[i].value.1.value;
      RangeWindowsWidth(rounds, n + 1, i + 1, k - 1);
    }
  }

  /** Each window after the first starts one past the end the previous reply reported. */
  lemma {:induction false} RangeWindowsFollow(rounds: seq<Round>, start: int, i: nat, k: nat)
    requires k + 1 < |RangeWindows(rounds, start, i)|
    ensures i + k < |rounds| && rounds[i + k].Ok?
    ensures rounds[i + k].value.1 == Some(RangeWindows(rounds, start, i)[k + 1].0 - 1)
    decreases |rounds| - i
  {
    var n := rounds[i].value.1.value;
    if k > 0 {
      RangeWindowsFollow(rounds, n + 1, i + 1, k - 1);
    }
  }

  /**
   * The values gathered are those of every round up to the one that stops
   * the loop, in order: a round that reports an end is followed by the next.
   */
  lemma RangeFromConcat(rounds: seq<Round>, i: nat)
    requires i < |rounds| && rounds[i].Ok? && rounds[i].value.1.Some?
    ensures RangeFrom(rounds, i) == Prepend(rounds[i].value.0, RangeFrom(rounds, i + 1))
  {
  }

  /** The loop invariant of `RangeLoop`: what is gathered, followed by what the rest gives, is the whole. */
  predicate RangeSoFar(rounds: seq<Round>, first: int, values: seq<seq<byte>>, windows: seq<(int, int)>, start: int, i: nat) {
    RangeFrom(rounds, 0) == Prepend(values, RangeFrom(rounds, i))
    && RangeWindows(rounds, first, 0) == windows + RangeWindows(rounds, start, i)
  }

  /** A round that reports an end moves the loop on to the next window. */
  lemma RangeAdvance(rounds: seq<Round>, first: int, values: seq<seq<byte>>, windows: seq<(int, int)>, start: int, i: nat)
    requires RangeSoFar(rounds, first, values, windows, start, i)
    requires i < |rounds| && rounds[i].Ok? && rounds[i].value.1.Some?
    ensures RangeSoFar(rounds, first, values + rounds[i].value.0, windows + [(start, start + RangeStep)],
                       rounds[i].value.1.value + 1, i + 1)
  {
    var after := RangeWindows(rounds, rounds[i].value.1.value + 1, i + 1);
    PrependTwice(values, rounds[i].value.0, RangeFrom(rounds, i + 1));
    RangeWindowsStep(rounds, start, i);
    assert windows + ([(start, start + RangeStep)] + after) == (windows + [(start, start + RangeStep)]) + after;
  }

  /** The loop stops at a missing reply, a failed round or a round that reports no end. */
  predicate RangeStops(rounds: seq<Round>, i: nat) {
    i >= |rounds| || rounds[i].Err? || rounds[i].value.1.None?
  }

  /** What the loop returns when it stops at round `i` having gathered `values`. */
  function RangeLast(rounds: seq<Round>, values: seq<seq<byte>>, i: nat): Result<seq<seq<byte>>>
    requires RangeStops(rounds, i)
  {
    if i >= |rounds| then Raise(LdapError, "no reply from the server")
    else if rounds[i].Err? then Err(rounds[i].failure)
    else Ok(values + rounds[i].value.0)
  }

  /** A failed or final round, or a missing reply, ends the loop with the window it asked for. */
  lemma RangeEnd(rounds: seq<Round>, first: int, values: seq<seq<byte>>, windows: seq<(int, int)>, start: int, i: nat)
    requires RangeSoFar(rounds, first, values, windows, start, i)
    requires RangeStops(rounds, i)
    ensures RangeWindows(rounds, first, 0) == windows + [(start, start + RangeStep)]
    ensures RangeFrom(rounds, 0) == RangeLast(rounds, values, i)
  {
    RangeWindowsLast(rounds, start, i);
  }

  /**
   * The loop of `search_attribute_range` over the rounds the server's replies
   * give in turn, the first window starting at `first`.
   */
  method RangeLoop(rounds: seq<Round>, first: int) returns (r: Result<seq<seq<byte>>>, windows: seq<(int, int)>)
    ensures r == RangeFrom(rounds, 0)
    ensures windows == RangeWindows(rounds, first, 0)
  {
    var start := first;
    var end := start + RangeStep;
    var values: seq<seq<byte>> := [];
    windows := [];
    var i := 0;
    PrependNothing(RangeFrom(rounds, 0));
    while true
      invariant RangeSoFar(rounds, first, values, windows, start, i)
      invariant end == start + RangeStep
      decreases |rounds| - i
    {
      if RangeStops(rounds, i) {
        RangeEnd(rounds, first, values, windows, start, i);
        return RangeLast(rounds, values, i), windows + [(start, end)];
      }
      RangeAdvance(rounds, first, values, windows, start, i);
      windows := windows + [(start, end)];
      values := values + rounds[i].value.0;
      start := rounds[i].value.1.value + 1;
      end := start + RangeStep;
      i := i + 1;
    }
  }

  /**
   * `search_attribute_range(connect, dn, attribute, _logger)` over the
   * replies the server gives in turn. Besides the values it returns the
   * windows it asked for, each as `name;range=start-end`.
   */
  method SearchAttributeRange(attribute: string, replies: seq<seq<seq<RawAttr>>>)
    returns (r: Result<seq<seq<byte>>>, windows: seq<(int, int)>)
    ensures FirstStart(attribute).Err? ==> r == Err(FirstStart(attribute).failure) && windows == []
    ensures FirstStart(attribute).Ok? ==> r == RangeFrom(Rounds(BaseKey(attribute), replies), 0)
    ensures FirstStart(attribute).Ok? ==>
              windows == RangeWindows(Rounds(BaseKey(attribute), replies), FirstStart(attribute).value, 0)
  {
    var first := FirstStart(attribute);
    if first.Err? {
      return Err(first.failure), [];
    }
    r, windows := RangeLoop(Rounds(BaseKey(attribute), replies), first.value);
  }
}
