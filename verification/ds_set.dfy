/**
 * `ds_set` (app/ds/func_ds_set.py): the modify request for one object.
 * Explicit operations come first, in the order remove, add, replace,
 * clear; then every "special" attribute with a value is computed from the
 * object as fetched (`ATTR_PROCESSING`) and appended; the values are
 * encoded and one modify is sent to the object's DN unless in dry-run mode.
 *
 * The fetch is a parameter: `lookup(properties)` stands for
 * `search_object(..., only_one=True)[0]` over the identity's filter.
 * `fromIso` stands for `datetime.fromisoformat` followed by the local
 * time-zone conversion of `gen_account_exp_date`.
 */
module DsSet {
  import opened Wrappers
  import opened Text
  import opened DsDict
  import opened Derived
  import opened Modify
  import FuncGeneral
  import GroupType
  import Words

  // ---------------------------------------------------------------------------
  // Arguments

  /**
   * A Python value a caller can pass as a special: a string, a boolean, a
   * datetime (as the accountExpires tick count it stands for), or a
   * `DSDict` of toggles.
   */
  datatype Arg = AStr(s: string) | ABool(b: bool) | ADateTime(when: FuncGeneral.Moment) | AMap(m: DSDict<Arg>)

  /** Python truthiness: a non-empty string or map, `True`, any datetime. */
  predicate Truthy(a: Arg) {
    match a
    case AStr(s) => |s| > 0
    case ABool(b) => b
    case ADateTime(_) => true
    case AMap(m) => |m.entries| > 0
  }

  /** One modify operation before encoding; `None` values delete the whole attribute. */
  datatype Op = Op(action: Action, key: string, values: Option<seq<Arg>>)

  // ---------------------------------------------------------------------------
  // The explicit operations (app/ds/func_ds_set.py:46-62)

  function Strs(vs: seq<string>): (r: seq<Arg>)
    ensures |r| == |vs| && forall i | 0 <= i < |vs| :: r[i] == AStr(vs[i])
  {
    if |vs| == 0 then [] else [AStr(vs[0])] + Strs(vs[1..])
  }

  /** `ops` holds one `action` per pair, in order, carrying the pair's values. */
  predicate Lists(ops: seq<Op>, action: Action, pairs: seq<(string, seq<string>)>) {
    && |ops| == |pairs|
    && forall i | 0 <= i < |pairs| :: ops[i] == Op(action, pairs[i].0, Some(Strs(pairs[i].1)))
  }

  /** `ops` holds one value-less delete per key, in order. */
  predicate Clearing(ops: seq<Op>, keys: seq<string>) {
    && |ops| == |keys|
    && forall i | 0 <= i < |keys| :: ops[i] == Op(ModDelete, keys[i], None)
  }

  /** One operation per key of a `{key: values}` argument, in its order. */
  function OpsOf(action: Action, pairs: seq<(string, seq<string>)>): (ops: seq<Op>)
    ensures Lists(ops, action, pairs)
  {
    if |pairs| == 0 then [] else [Op(action, pairs[0].0, Some(Strs(pairs[0].1)))] + OpsOf(action, pairs[1..])
  }

  /** `clear`: a value-less delete per key. */
  function Clears(keys: seq<string>): (ops: seq<Op>)
    ensures Clearing(ops, keys)
  {
    if |keys| == 0 then [] else [Op(ModDelete, keys[0], None)] + Clears(keys[1..])
  }

  /**
   * The explicit operations: removes as value deletes, then adds, then
   * replaces, then clears. A `None` argument is an empty one.
   */
  function OpList(remove: seq<(string, seq<string>)>, add: seq<(string, seq<string>)>,
                  replace: seq<(string, seq<string>)>, clear: seq<string>): (ops: seq<Op>)
    ensures |ops| == |remove| + |add| + |replace| + |clear|
    ensures Lists(ops[..|remove|], ModDelete, remove)
    ensures Lists(ops[|remove|..|remove| + |add|], ModAdd, add)
    ensures Lists(ops[|remove| + |add|..|remove| + |add| + |replace|], ModReplace, replace)
    ensures Clearing(ops[|remove| + |add| + |replace|..], clear)
  {
    var a, b, c, d := OpsOf(ModDelete, remove), OpsOf(ModAdd, add), OpsOf(ModReplace, replace), Clears(clear);
    FourParts(a, b, c, d);
    a + b + c + d
  }

  /** The four parts of a concatenation are its slices at the running lengths. */
  lemma FourParts<T>(a: seq<T>, b: seq<T>, c: seq<T>, d: seq<T>)
    ensures var s, i, j, k := a + b + c + d, |a|, |a| + |b|, |a| + |b| + |c|;
      && |s| == k + |d| && s[..i] == a && s[i..j] == b && s[j..k] == c && s[k..] == d
  {
    var s, i, j, k := a + b + c + d, |a|, |a| + |b|, |a| + |b| + |c|;
    assert s[..i] == a by { assert forall x | 0 <= x < i :: s[..i][x] == a[x]; }
    assert s[i..j] == b by { assert forall x | 0 <= x < j - i :: s[i..j][x] == b[x]; }
    assert s[j..k] == c by { assert forall x | 0 <= x < k - j :: s[j..k][x] == c[x]; }
    assert s[k..] == d by { assert forall x | 0 <= x < |d| :: s[k..][x] == d[x]; }
  }

  // ---------------------------------------------------------------------------
  // Choosing the specials (app/ds/func_ds_set.py:64-70)

  /** Some explicit operation names `key`, in any casing. */
  predicate Collides(ops: seq<Op>, key: string) {
    exists j | 0 <= j < |ops| :: SameFolded(ops[j].key, key)
  }

  /** The specials that carry a value, in order. */
  function Present(special: seq<(string, Option<Arg>)>): (ps: seq<(string, Arg)>)
    ensures |ps| <= |special|
    ensures forall p | p in ps :: exists i | 0 <= i < |special| :: special[i] == (p.0, Some(p.1))
  {
    if |special| == 0 then []
    else
      var rest := Present(special[1..]);
      assert forall p | p in rest :: exists i | 1 <= i < |special| :: special[i] == (p.0, Some(p.1)) by {
        forall p | p in rest ensures exists i | 1 <= i < |special| :: special[i] == (p.0, Some(p.1)) {
          var i :| 0 <= i < |special[1..]| && special[1..][i] == (p.0, Some(p.1));
          assert special[i + 1] == (p.0, Some(p.1));
        }
      }
      (if special[0].1.Some? then [(special[0].0, special[0].1.value)] else []) + rest
  }

  /**
   * The loop over the specials: a key that an explicit operation also names,
   * in any casing, raises, whether or not the special has a value; the
   * specials with a value are kept.
   */
  function SelectSpecials(ops: seq<Op>, special: seq<(string, Option<Arg>)>): (r: Result<seq<(string, Arg)>>)
    ensures r.Ok? <==> forall i | 0 <= i < |special| :: !Collides(ops, special[i].0)
    ensures r.Ok? ==> r.value == Present(special)
    ensures r.Err? ==> r.failure.exc == RuntimeError
  {
    if |special| == 0 then Ok([])
    else if Collides(ops, special[0].0) then Raise(RuntimeError, "attribute given both as an operation and as a special")
    else
      var rest :- SelectSpecials(ops, special[1..]);
      assert forall i | 1 <= i < |special| :: special[1..][i - 1] == special[i];
      Ok((if special[0].1.Some? then [(special[0].0, special[0].1.value)] else []) + rest)
  }

  /** As written: a missing `special` argument (`None`) has no `items`. */
  function SelectSpecialsAsWritten(ops: seq<Op>, special: Option<seq<(string, Option<Arg>)>>)
    : (r: Result<seq<(string, Arg)>>)
    ensures special.None? ==> RaisedAs(r, AttributeError)
    ensures special.Some? ==> r == SelectSpecials(ops, special.value)
  {
    match special
    case None => Raise(AttributeError, "'NoneType' object has no attribute 'items'")
    case Some(s) => SelectSpecials(ops, s)
  }

  /** The intended reading of the `None` default: no specials. */
  function SelectSpecialsOrNone(ops: seq<Op>, special: Option<seq<(string, Option<Arg>)>>)
    : (r: Result<seq<(string, Arg)>>)
    ensures special.None? ==> r == Ok([])
    ensures special.Some? ==> r == SelectSpecialsAsWritten(ops, special)
  {
    match special
    case None => Ok([])
    case Some(s) => SelectSpecials(ops, s)
  }

  // ---------------------------------------------------------------------------
  // The handlers (app/ds/func_ds_set.py:8-39)

  const UacKey := "useraccountcontrol"
  const GroupTypeKey := "grouptype"
  const PwdLastSetKey := "pwdlastset"
  const AccountExpiresKey := "accountexpires"

  datatype Handler = UacHandler | GroupTypeHandler | PwdLastSetHandler | AccountExpiresHandler | DefaultHandler

  /** `ATTR_PROCESSING.get(key, ATTR_PROCESSING['_default_'])`, a case-insensitive lookup. */
  function HandlerOf(key: string): (h: Handler)
    ensures h == UacHandler <==> Fold(key) == UacKey
    ensures h == GroupTypeHandler <==> Fold(key) == GroupTypeKey
    ensures h == PwdLastSetHandler <==> Fold(key) == PwdLastSetKey
    ensures h == AccountExpiresHandler <==> Fold(key) == AccountExpiresKey
  {
    var f := Fold(key);
    if f == UacKey then UacHandler
    else if f == GroupTypeKey then GroupTypeHandler
    else if f == PwdLastSetKey then PwdLastSetHandler
    else if f == AccountExpiresKey then AccountExpiresHandler
    else DefaultHandler
  }

  /** `base_value.get(name, None)` read as a toggle: absent is `None`, anything else by its truthiness. */
  function ToggleOf(m: DSDict<Arg>, name: string): Option<bool> {
    match Get(m, name)
    case None => None
    case Some(a) => Some(Truthy(a))
  }

  /** The stand-in for a truthy non-string scope or category: equal to no accepted name. */
  const NotAName := "<not a string>"

  /**
   * `base_value.get(name, None)` as a scope or category argument of
   * `gen_gt`, which first tests truthiness and then compares with strings.
   */
  function ChoiceOf(m: DSDict<Arg>, name: string): Option<string> {
    match Get(m, name)
    case None => None
    case Some(a) => if a.AStr? then Some(a.s) else if Truthy(a) then Some(NotAName) else None
  }

  /** The argument `gen_account_exp_date` receives. */
  function ExpirationOf(a: Arg, fromIso: string -> Option<FuncGeneral.Moment>): FuncGeneral.ExpirationArg {
    match a
    case AStr(s) => FuncGeneral.ExpIsoString(s, fromIso(s))
    case ABool(b) => FuncGeneral.ExpBool(b)
    case ADateTime(t) => FuncGeneral.ExpDateTime(t)
    case AMap(_) => FuncGeneral.ExpOther
  }

  /** The integer `gen_uac` patches: the fetched value, which must be an int (or bool). */
  function UacOperand(fetched: Option<Value>): (r: Result<int>)
    ensures r.Err? ==> r.failure.exc == TypeError
  {
    match fetched
    case None => Raise(TypeError, "unsupported operand type(s) for &")
    case Some(v) => IntOperand(v)
  }

  /**
   * `gen_gt` on the fetched value: its flag names, patched by scope and
   * category, converted back to an integer.
   */
  function GroupTypeOf(fetched: Option<Value>, scope: Option<string>, category: Option<string>): Result<int> {
    var names :- if fetched.None? then Raise(TypeError, "list, tuple or int expected") else FlagsOf(fetched.value);
    var scoped :- FuncGeneral.ApplyScope(names, scope);
    var categorized :- FuncGeneral.ApplyCategory(scoped, category);
    GroupType.FromNames(categorized)
  }

  /** The toggles `handler_uac` reads from the special map, applied by `gen_uac` to `n`. */
  function PatchedUac(n: int, m: DSDict<Arg>): int {
    FuncGeneral.GenUac(n, ToggleOf(m, "Enabled"), ToggleOf(m, "PasswordNeverExpires"),
                       ToggleOf(m, "AccountNotDelegated"), ToggleOf(m, "PasswordNotRequired"))
  }

  /** `handler_uac`: the fetched integer patched by the toggle map, as a decimal string. */
  function HandleUac(fetched: Option<Value>, special: Arg): (r: Result<Arg>)
    ensures !special.AMap? ==> RaisedAs(r, AttributeError)
    ensures special.AMap? ==> (r.Ok? <==> UacOperand(fetched).Ok?)
    ensures r.Ok? ==> r.value.AStr? && ParseInt(r.value.s) == Some(PatchedUac(UacOperand(fetched).value, special.m))
  {
    if !special.AMap? then Raise(AttributeError, "object has no attribute 'get'")
    else
      var n :- UacOperand(fetched);
      var u := PatchedUac(n, special.m);
      ParseIntToDecimal(u);
      Ok(AStr(IntToDecimal(u)))
  }

  /** `handler_gt`: the fetched group type patched by scope and category, as a decimal string. */
  function HandleGroupType(fetched: Option<Value>, special: Arg): (r: Result<Arg>)
    ensures !special.AMap? ==> RaisedAs(r, AttributeError)
    ensures special.AMap? ==> (r.Ok? <==> GroupTypeOf(fetched, ChoiceOf(special.m, "GroupScope"), ChoiceOf(special.m, "GroupCategory")).Ok?)
    ensures r.Ok? ==> (special.AMap? &&
              var g := GroupTypeOf(fetched, ChoiceOf(special.m, "GroupScope"), ChoiceOf(special.m, "GroupCategory"));
              g.Ok? && r.value.AStr? && ParseInt(r.value.s) == Some(g.value))
  {
    if !special.AMap? then Raise(AttributeError, "object has no attribute 'get'")
    else
      var g :- GroupTypeOf(fetched, ChoiceOf(special.m, "GroupScope"), ChoiceOf(special.m, "GroupCategory"));
      ParseIntToDecimal(g);
      Ok(AStr(IntToDecimal(g)))
  }

  /** `handler_account_exp_date`: the accountExpires literal of the special value. */
  function HandleExpiration(special: Arg, fromIso: string -> Option<FuncGeneral.Moment>): (r: Result<Arg>)
    ensures r.Ok? <==> FuncGeneral.GenAccountExpDate(ExpirationOf(special, fromIso)).Ok?
    ensures r.Ok? ==> r.value.AStr? && ParseInt(r.value.s).Some?
    ensures special == ABool(false) ==> r == Ok(AStr("0"))
  {
    var s :- FuncGeneral.GenAccountExpDate(ExpirationOf(special, fromIso));
    ExpirationParses(ExpirationOf(special, fromIso));
    Ok(AStr(s))
  }

  /**
   * `handler(fetched, special)`: userAccountControl and groupType patch the
   * fetched integer with the toggles of the special map; pwdLastSet and
   * accountExpires compute the literal from the special alone; any other
   * attribute takes the special value as it is.
   */
  function Handle(key: string, fetched: Option<Value>, special: Arg, fromIso: string -> Option<FuncGeneral.Moment>)
    : (r: Result<Arg>)
    ensures HandlerOf(key) == DefaultHandler ==> r == Ok(special)
    ensures HandlerOf(key) != DefaultHandler && r.Ok? ==> r.value.AStr? && ParseInt(r.value.s).Some?
    ensures (HandlerOf(key) == UacHandler || HandlerOf(key) == GroupTypeHandler) && !special.AMap? ==>
              RaisedAs(r, AttributeError)
    ensures HandlerOf(key) == PwdLastSetHandler ==>
              r.Ok? && ParseInt(r.value.s) == Some(if Truthy(special) then 0 else -1)
  {
    match HandlerOf(key)
    case UacHandler => HandleUac(fetched, special)
    case GroupTypeHandler => HandleGroupType(fetched, special)
    case PwdLastSetHandler => Ok(AStr(FuncGeneral.GenChangePwdAtLogon(Truthy(special))))
    case AccountExpiresHandler => HandleExpiration(special, fromIso)
    case DefaultHandler => Ok(special)
  }

  /** Every accountExpires literal is a decimal integer. */
  lemma ExpirationParses(arg: FuncGeneral.ExpirationArg)
    requires FuncGeneral.GenAccountExpDate(arg).Ok?
    ensures ParseInt(FuncGeneral.GenAccountExpDate(arg).value).Some?
  {
    match arg
    case ExpIsoString(_, parsed) =>
    case ExpDateTime(_) =>
    case ExpBool(_) => ParseIntToDecimal(0);
    case ExpOther =>
  }

  /** On a fetched integer, the groupType handler is `gen_gt` on the stored word. */
  lemma GroupTypeOfIsGenGt(n: int, scope: Option<string>, category: Option<string>)
    ensures GroupTypeOf(Some(Int(n)), scope, category) == FuncGeneral.GenGt(GroupWord(n), scope, category)
  {
  }

  /**
   * The userAccountControl ds_set writes, read back by object processing,
   * shows each requested toggle, and the stored flag where none was given.
   */
  lemma WrittenUacReadsBack(n: int, m: DSDict<Arg>)
    ensures var r := Int(PatchedUac(n, m));
      && Derive(Enabled, r) == Ok(Bool(Expected(ToggleOf(m, "Enabled"), !Words.HasBit(n, 1))))
      && Derive(PasswordNeverExpires, r) == Ok(Bool(Expected(ToggleOf(m, "PasswordNeverExpires"), Words.HasBit(n, 16))))
      && Derive(AccountNotDelegated, r) == Ok(Bool(Expected(ToggleOf(m, "AccountNotDelegated"), Words.HasBit(n, 20))))
      && Derive(PasswordNotRequired, r) == Ok(Bool(Expected(ToggleOf(m, "PasswordNotRequired"), Words.HasBit(n, 5))))
  {
    UacReadBack(n, ToggleOf(m, "Enabled"), ToggleOf(m, "PasswordNeverExpires"),
                ToggleOf(m, "AccountNotDelegated"), ToggleOf(m, "PasswordNotRequired"));
  }

  /** A scope requested through the groupType special is the scope the group reads back. */
  lemma WrittenScopeReadsBack(n: int, m: DSDict<Arg>, scope: string)
    requires ChoiceOf(m, "GroupScope") == Some(scope) && FuncGeneral.ScopeFlag(scope).Some?
    requires GroupTypeOf(Some(Int(n)), Some(scope), ChoiceOf(m, "GroupCategory")).Ok?
    ensures Derive(GroupScope, Int(GroupTypeOf(Some(Int(n)), Some(scope), ChoiceOf(m, "GroupCategory")).value))
            == Ok(Str(scope))
  {
    GroupTypeOfIsGenGt(n, Some(scope), ChoiceOf(m, "GroupCategory"));
    GroupScopeRoundTrip(GroupWord(n), scope, ChoiceOf(m, "GroupCategory"));
  }

  /** A category requested through the groupType special is the category the group reads back. */
  lemma WrittenCategoryReadsBack(n: int, m: DSDict<Arg>, category: string)
    requires ChoiceOf(m, "GroupCategory") == Some(category)
    requires category == "Security" || category == "Distribution"
    requires GroupTypeOf(Some(Int(n)), ChoiceOf(m, "GroupScope"), Some(category)).Ok?
    ensures Derive(GroupCategory, Int(GroupTypeOf(Some(Int(n)), ChoiceOf(m, "GroupScope"), Some(category)).value))
            == Ok(Str(category))
  {
    GroupTypeOfIsGenGt(n, ChoiceOf(m, "GroupScope"), Some(category));
    GroupCategoryRoundTrip(GroupWord(n), ChoiceOf(m, "GroupScope"), category);
  }

  // ---------------------------------------------------------------------------
  // Applying the specials (app/ds/func_ds_set.py:82-91)

  /**
   * What `result[key] = [out]` stores in the fetched object. Only the DN is
   * read from the object afterwards, and a non-string `out` is refused by
   * the encoding before that, so only the string case matters.
   */
  function StoredValue(out: Arg): Value {
    if out.AStr? then List([Str(out.s)]) else List([])
  }

  /** The specials' keys are pairwise distinct in any casing, as the keys of a `DSDict` are. */
  predicate DistinctKeys(specials: seq<(string, Arg)>) {
    forall i, j | 0 <= i < j < |specials| :: !SameFolded(specials[i].0, specials[j].0)
  }

  /**
   * One special as written: the handler receives `result[key]`, which
   * raises KeyError when the object lacks the attribute; the key is then
   * assigned, and the `key in result` test that follows picks replace or add.
   */
  function SpecialStepAsWritten(obj: DSDict<Value>, key: string, special: Arg, fromIso: string -> Option<FuncGeneral.Moment>)
    : (r: Result<(Op, DSDict<Value>)>)
    requires Valid(obj)
    ensures r.Ok? ==> Valid(r.value.1)
    ensures !DsDict.Contains(obj, key) ==> RaisedAs(r, KeyError)
    ensures r.Ok? ==> ReplaceOf(r.value.0, key)
  {
    var fetched :- GetItem(obj, key);
    var out :- Handle(key, Some(fetched), special, fromIso);
    var stored := Set(obj, key, StoredValue(out));
    var op := if DsDict.Contains(stored, key) then Op(ModReplace, key, Some([out])) else Op(ModAdd, key, Some([out]));
    Ok((op, stored))
  }

  /** The specials in order, each step as written. */
  function ApplySpecialsAsWritten(obj: DSDict<Value>, specials: seq<(string, Arg)>, fromIso: string -> Option<FuncGeneral.Moment>)
    : (r: Result<(seq<Op>, DSDict<Value>)>)
    requires Valid(obj)
    ensures r.Ok? ==> |r.value.0| == |specials|
    ensures r.Ok? ==> forall i | 0 <= i < |specials| :: ReplaceOf(r.value.0[i], specials[i].0)
    decreases |specials|
  {
    if |specials| == 0 then Ok(([], obj))
    else
      var step :- SpecialStepAsWritten(obj, specials[0].0, specials[0].1, fromIso);
      var rest :- ApplySpecialsAsWritten(step.1, specials[1..], fromIso);
      ReplacesCons(step.0, rest.0, specials);
      Ok(([step.0] + rest.0, rest.1))
  }

  /** A replace of `key`. */
  predicate ReplaceOf(op: Op, key: string) {
    op.action == ModReplace && op.key == key
  }

  lemma ReplacesCons(op: Op, ops: seq<Op>, specials: seq<(string, Arg)>)
    requires |specials| == |ops| + 1 && ReplaceOf(op, specials[0].0)
    requires forall i | 0 <= i < |ops| :: ReplaceOf(ops[i], specials[1..][i].0)
    ensures forall i | 0 <= i < |specials| :: ReplaceOf(([op] + ops)[i], specials[i].0)
  {
    forall i | 1 <= i < |specials| ensures ReplaceOf(([op] + ops)[i], specials[i].0) {
      assert ([op] + ops)[i] == ops[i - 1] && specials[1..][i - 1] == specials[i];
    }
  }

  /** The operation a special becomes: an add or a replace of its key with the one computed value. */
  predicate SpecialOp(op: Op, key: string) {
    op.key == key && op.action != ModDelete && op.values.Some? && |op.values.value| == 1
  }

  /**
   * One special as evidently intended: the handler receives the
   * attribute's value or `None`, and the operation is a replace when the
   * object has the attribute and an add when it does not.
   */
  function SpecialStep(obj: DSDict<Value>, key: string, special: Arg, fromIso: string -> Option<FuncGeneral.Moment>)
    : (r: Result<(Op, DSDict<Value>)>)
    requires Valid(obj)
    ensures r.Ok? ==> Valid(r.value.1)
    ensures r.Ok? ==> SpecialOp(r.value.0, key)
  {
    var out :- Handle(key, Get(obj, key), special, fromIso);
    var op := if DsDict.Contains(obj, key) then Op(ModReplace, key, Some([out])) else Op(ModAdd, key, Some([out]));
    Ok((op, Set(obj, key, StoredValue(out))))
  }

  /** As intended, a special becomes a replace exactly when the object has the attribute. */
  lemma SpecialStepAction(obj: DSDict<Value>, key: string, special: Arg, fromIso: string -> Option<FuncGeneral.Moment>)
    requires Valid(obj) && SpecialStep(obj, key, special, fromIso).Ok?
    ensures SpecialStep(obj, key, special, fromIso).value.0.action == ModReplace <==> DsDict.Contains(obj, key)
    ensures SpecialStep(obj, key, special, fromIso).value.0.action == ModAdd <==> !DsDict.Contains(obj, key)
  {
  }

  /** The specials in order, each step as intended. */
  function ApplySpecials(obj: DSDict<Value>, specials: seq<(string, Arg)>, fromIso: string -> Option<FuncGeneral.Moment>)
    : (r: Result<(seq<Op>, DSDict<Value>)>)
    requires Valid(obj)
    ensures r.Ok? ==> |r.value.0| == |specials|
    ensures r.Ok? ==> forall i | 0 <= i < |specials| :: SpecialOp(r.value.0[i], specials[i].0)
    decreases |specials|
  {
    if |specials| == 0 then Ok(([], obj))
    else
      var step :- SpecialStep(obj, specials[0].0, specials[0].1, fromIso);
      var rest :- ApplySpecials(step.1, specials[1..], fromIso);
      SpecialOpsCons(step.0, rest.0, specials);
      Ok(([step.0] + rest.0, rest.1))
  }

  lemma SpecialOpsCons(op: Op, ops: seq<Op>, specials: seq<(string, Arg)>)
    requires |specials| == |ops| + 1 && SpecialOp(op, specials[0].0)
    requires forall i | 0 <= i < |ops| :: SpecialOp(ops[i], specials[1..][i].0)
    ensures forall i | 0 <= i < |specials| :: SpecialOp(([op] + ops)[i], specials[i].0)
  {
    forall i | 1 <= i < |specials| ensures SpecialOp(([op] + ops)[i], specials[i].0) {
      assert ([op] + ops)[i] == ops[i - 1] && specials[1..][i - 1] == specials[i];
    }
  }

  /** As written, a special the object does not have yet raises KeyError. */
  lemma AsWrittenMissingRaises(obj: DSDict<Value>, specials: seq<(string, Arg)>, fromIso: string -> Option<FuncGeneral.Moment>)
    requires Valid(obj) && |specials| > 0 && !DsDict.Contains(obj, specials[0].0)
    ensures RaisedAs(ApplySpecialsAsWritten(obj, specials, fromIso), KeyError)
  {
  }

  /** A key assigned in a `DSDict` leaves the presence of every other key as it was, and is present itself. */
  lemma SetKeepsPresence(obj: DSDict<Value>, key: string, v: Value, other: string)
    requires Valid(obj)
    ensures DsDict.Contains(Set(obj, key, v), other) == (SameFolded(other, key) || DsDict.Contains(obj, other))
  {
  }

  /** The replace-or-add choice of `op` matches the presence of `key` in `obj`. */
  predicate Follows(op: Op, obj: DSDict<Value>, key: string) {
    op.action == ModReplace <==> DsDict.Contains(obj, key)
  }

  /** A step assigns only its own key: every other key is present afterwards iff it was before. */
  lemma SpecialStepFrame(obj: DSDict<Value>, key: string, special: Arg, fromIso: string -> Option<FuncGeneral.Moment>, other: string)
    requires Valid(obj) && SpecialStep(obj, key, special, fromIso).Ok? && !SameFolded(other, key)
    ensures DsDict.Contains(SpecialStep(obj, key, special, fromIso).value.1, other) == DsDict.Contains(obj, other)
  {
    var out := Handle(key, Get(obj, key), special, fromIso).value;
    SetKeepsPresence(obj, key, StoredValue(out), other);
  }

  /**
   * As intended, each special becomes one operation on its own key: a
   * replace when the fetched object has the attribute and an add when it
   * does not.
   */
  lemma {:induction false} SpecialsFollowObject(obj: DSDict<Value>, specials: seq<(string, Arg)>,
                                                fromIso: string -> Option<FuncGeneral.Moment>)
    requires Valid(obj) && DistinctKeys(specials)
    requires ApplySpecials(obj, specials, fromIso).Ok?
    ensures var ops := ApplySpecials(obj, specials, fromIso).value.0;
      forall i | 0 <= i < |ops| :: Follows(ops[i], obj, specials[i].0)
    decreases |specials|
  {
    if |specials| > 0 {
      var step := SpecialStep(obj, specials[0].0, specials[0].1, fromIso).value;
      var rest := specials[1..];
      assert DistinctKeys(rest) by {
        forall i, j | 0 <= i < j < |rest| ensures !SameFolded(rest[i].0, rest[j].0) {
          assert rest[i] == specials[i + 1] && rest[j] == specials[j + 1];
        }
      }
      SpecialStepAction(obj, specials[0].0, specials[0].1, fromIso);
      SpecialsFollowObject(step.1, rest, fromIso);
      var tail := ApplySpecials(step.1, rest, fromIso).value.0;
      forall i | 0 <= i < |tail| ensures Follows(tail[i], obj, rest[i].0) {
        assert rest[i] == specials[i + 1];
        SpecialStepFrame(obj, specials[0].0, specials[0].1, fromIso, rest[i].0);
      }
      FollowsCons(step.0, tail, obj, specials);
    }
  }

  lemma FollowsCons(op: Op, ops: seq<Op>, obj: DSDict<Value>, specials: seq<(string, Arg)>)
    requires |specials| == |ops| + 1 && Follows(op, obj, specials[0].0)
    requires forall i | 0 <= i < |ops| :: Follows(ops[i], obj, specials[1..][i].0)
    ensures forall i | 0 <= i < |specials| :: Follows(([op] + ops)[i], obj, specials[i].0)
  {
    forall i | 1 <= i < |specials| ensures Follows(([op] + ops)[i], obj, specials[i].0) {
      assert ([op] + ops)[i] == ops[i - 1] && specials[1..][i - 1] == specials[i];
    }
  }

  /**
   * One special computed from the object as fetched: the handler's value
   * for the attribute's fetched value, sent as a replace when the object has
   * the attribute and as an add when it lacks it.
   */
  function FetchedOp(obj: DSDict<Value>, key: string, special: Arg, fromIso: string -> Option<FuncGeneral.Moment>): Result<Op> {
    var out :- Handle(key, Get(obj, key), special, fromIso);
    Ok(Op(if DsDict.Contains(obj, key) then ModReplace else ModAdd, key, Some([out])))
  }

  /** Every special computes from the fetched object. */
  predicate AllFetched(obj: DSDict<Value>, specials: seq<(string, Arg)>, fromIso: string -> Option<FuncGeneral.Moment>) {
    forall i | 0 <= i < |specials| :: FetchedOp(obj, specials[i].0, specials[i].1, fromIso).Ok?
  }

  /** `ys` are the successful results of `f` on `xs`, element by element. */
  predicate Pointwise<A, B(==)>(f: A -> Result<B>, xs: seq<A>, ys: seq<B>) {
    && |ys| == |xs|
    && forall i | 0 <= i < |xs| :: f(xs[i]) == Ok(ys[i])
  }

  lemma PointwiseCons<A, B>(f: A -> Result<B>, xs: seq<A>, y: B, ys: seq<B>)
    requires |xs| > 0 && f(xs[0]) == Ok(y) && Pointwise(f, xs[1..], ys)
    ensures Pointwise(f, xs, [y] + ys)
  {
    forall i | 1 <= i < |xs| ensures f(xs[i]) == Ok(([y] + ys)[i]) {
      assert xs[1..][i - 1] == xs[i];
    }
  }

  /** `ops` are the specials, each computed from the fetched object. */
  predicate FromFetched(obj: DSDict<Value>, specials: seq<(string, Arg)>, fromIso: string -> Option<FuncGeneral.Moment>, ops: seq<Op>) {
    Pointwise((s: (string, Arg)) => FetchedOp(obj, s.0, s.1, fromIso), specials, ops)
  }

  /** No special names `key`, in any casing. */
  predicate Untouched(specials: seq<(string, Arg)>, key: string) {
    forall i | 0 <= i < |specials| :: !SameFolded(key, specials[i].0)
  }

  /** A step leaves the value of every other key as it was. */
  lemma StepFrameGet(obj: DSDict<Value>, key: string, special: Arg, fromIso: string -> Option<FuncGeneral.Moment>, other: string)
    requires Valid(obj) && SpecialStep(obj, key, special, fromIso).Ok? && !SameFolded(other, key)
    ensures Get(SpecialStep(obj, key, special, fromIso).value.1, other) == Get(obj, other)
    ensures DsDict.Contains(SpecialStep(obj, key, special, fromIso).value.1, other) == DsDict.Contains(obj, other)
  {
    var out := Handle(key, Get(obj, key), special, fromIso).value;
    assert EntryOf(Set(obj, key, StoredValue(out)), other) == EntryOf(obj, other);
  }

  /** The first step is the first special computed from the fetched object. */
  lemma FirstStepFetched(obj: DSDict<Value>, key: string, special: Arg, fromIso: string -> Option<FuncGeneral.Moment>)
    requires Valid(obj)
    ensures SpecialStep(obj, key, special, fromIso).Ok? <==> FetchedOp(obj, key, special, fromIso).Ok?
    ensures SpecialStep(obj, key, special, fromIso).Ok? ==>
              FetchedOp(obj, key, special, fromIso) == Ok(SpecialStep(obj, key, special, fromIso).value.0)
  {
  }

  /** The later specials compute the same from the object after the first step as from the fetched one. */
  lemma LaterFetched(obj: DSDict<Value>, specials: seq<(string, Arg)>, fromIso: string -> Option<FuncGeneral.Moment>)
    requires Valid(obj) && DistinctKeys(specials) && |specials| > 0
    requires SpecialStep(obj, specials[0].0, specials[0].1, fromIso).Ok?
    ensures var o := SpecialStep(obj, specials[0].0, specials[0].1, fromIso).value.1;
      && DistinctKeys(specials[1..])
      && (forall i | 0 <= i < |specials[1..]| ::
            FetchedOp(o, specials[1..][i].0, specials[1..][i].1, fromIso)
            == FetchedOp(obj, specials[1..][i].0, specials[1..][i].1, fromIso))
  {
    var o := SpecialStep(obj, specials[0].0, specials[0].1, fromIso).value.1;
    var rest := specials[1..];
    forall i, j | 0 <= i < j < |rest| ensures !SameFolded(rest[i].0, rest[j].0) {
      assert rest[i] == specials[i + 1] && rest[j] == specials[j + 1];
    }
    forall i | 0 <= i < |rest|
      ensures FetchedOp(o, rest[i].0, rest[i].1, fromIso) == FetchedOp(obj, rest[i].0, rest[i].1, fromIso)
    {
      assert rest[i] == specials[i + 1];
      assert !SameFolded(specials[0].0, specials[i + 1].0);
      StepFrameGet(obj, specials[0].0, specials[0].1, fromIso, rest[i].0);
    }
  }

  /** A key no special names is named by no later special, and the first step leaves its value. */
  lemma StepUntouched(obj: DSDict<Value>, specials: seq<(string, Arg)>, fromIso: string -> Option<FuncGeneral.Moment>)
    requires Valid(obj) && |specials| > 0 && SpecialStep(obj, specials[0].0, specials[0].1, fromIso).Ok?
    ensures forall k | Untouched(specials, k) ::
      && Untouched(specials[1..], k)
      && Get(SpecialStep(obj, specials[0].0, specials[0].1, fromIso).value.1, k) == Get(obj, k)
  {
    var rest := specials[1..];
    forall k | Untouched(specials, k)
      ensures Untouched(rest, k) && Get(SpecialStep(obj, specials[0].0, specials[0].1, fromIso).value.1, k) == Get(obj, k)
    {
      forall i | 0 <= i < |rest| ensures !SameFolded(k, rest[i].0) {
        assert rest[i] == specials[i + 1];
      }
      StepFrameGet(obj, specials[0].0, specials[0].1, fromIso, k);
    }
  }

  /** Prepending the first special keeps the computed operations. */
  lemma FetchedCons(obj: DSDict<Value>, specials: seq<(string, Arg)>, fromIso: string -> Option<FuncGeneral.Moment>, op: Op, ops: seq<Op>)
    requires |specials| > 0 && FetchedOp(obj, specials[0].0, specials[0].1, fromIso) == Ok(op)
    requires FromFetched(obj, specials[1..], fromIso, ops)
    ensures FromFetched(obj, specials, fromIso, [op] + ops)
  {
    PointwiseCons((s: (string, Arg)) => FetchedOp(obj, s.0, s.1, fromIso), specials, op, ops);
  }

  /** A failing later special makes some special fail from the fetched object. */
  lemma FetchedFails(obj: DSDict<Value>, specials: seq<(string, Arg)>, fromIso: string -> Option<FuncGeneral.Moment>)
    requires |specials| > 0
    requires FetchedOp(obj, specials[0].0, specials[0].1, fromIso).Err? || !AllFetched(obj, specials[1..], fromIso)
    ensures !AllFetched(obj, specials, fromIso)
  {
    if FetchedOp(obj, specials[0].0, specials[0].1, fromIso).Ok? {
      var i :| 0 <= i < |specials[1..]| && FetchedOp(obj, specials[1..][i].0, specials[1..][i].1, fromIso).Err?;
      assert specials[1..][i] == specials[i + 1];
    }
  }

  lemma FetchedAll(obj: DSDict<Value>, specials: seq<(string, Arg)>, fromIso: string -> Option<FuncGeneral.Moment>)
    requires |specials| > 0
    requires FetchedOp(obj, specials[0].0, specials[0].1, fromIso).Ok? && AllFetched(obj, specials[1..], fromIso)
    ensures AllFetched(obj, specials, fromIso)
  {
    AllCons((s: (string, Arg)) => FetchedOp(obj, s.0, s.1, fromIso).Ok?, specials);
  }

  /** `p` holds of every element when it holds of the head and of every element of the tail. */
  lemma AllCons<A>(p: A -> bool, xs: seq<A>)
    requires |xs| > 0 && p(xs[0]) && forall i | 0 <= i < |xs[1..]| :: p(xs[1..][i])
    ensures forall i | 0 <= i < |xs| :: p(xs[i])
  {
    forall i | 1 <= i < |xs| ensures p(xs[i]) {
      assert xs[1..][i - 1] == xs[i];
    }
  }

  /**
   * With keys distinct in any casing, as in a `DSDict`, applying the
   * specials one after the other is computing each from the object as
   * fetched: it succeeds exactly when every special does, yields their
   * operations in order, and leaves every key no special names as fetched.
   */
  lemma {:induction false} SpecialsFromFetched(obj: DSDict<Value>, specials: seq<(string, Arg)>,
                                               fromIso: string -> Option<FuncGeneral.Moment>)
    requires Valid(obj) && DistinctKeys(specials)
    ensures ApplySpecials(obj, specials, fromIso).Ok? <==> AllFetched(obj, specials, fromIso)
    ensures ApplySpecials(obj, specials, fromIso).Ok? ==>
              FromFetched(obj, specials, fromIso, ApplySpecials(obj, specials, fromIso).value.0)
    ensures ApplySpecials(obj, specials, fromIso).Ok? ==>
              forall k | Untouched(specials, k) :: Get(ApplySpecials(obj, specials, fromIso).value.1, k) == Get(obj, k)
    decreases |specials|
  {
    if |specials| > 0 {
      var rest := specials[1..];
      var step := SpecialStep(obj, specials[0].0, specials[0].1, fromIso);
      FirstStepFetched(obj, specials[0].0, specials[0].1, fromIso);
      if step.Err? {
        FetchedFails(obj, specials, fromIso);
      } else {
        var o := step.value.1;
        LaterFetched(obj, specials, fromIso);
        SpecialsFromFetched(o, rest, fromIso);
        assert AllFetched(o, rest, fromIso) <==> AllFetched(obj, rest, fromIso);
        var tail := ApplySpecials(o, rest, fromIso);
        if tail.Err? {
          FetchedFails(obj, specials, fromIso);
        } else {
          assert ApplySpecials(obj, specials, fromIso) == Ok(([step.value.0] + tail.value.0, tail.value.1));
          FetchedAll(obj, specials, fromIso);
          assert FromFetched(obj, rest, fromIso, tail.value.0);
          FetchedCons(obj, specials, fromIso, step.value.0, tail.value.0);
          StepUntouched(obj, specials, fromIso);
        }
      }
    }
  }

  /** On an attribute the object has, the intended step is the written one. */
  lemma StepsAgree(obj: DSDict<Value>, key: string, special: Arg, fromIso: string -> Option<FuncGeneral.Moment>)
    requires Valid(obj) && DsDict.Contains(obj, key)
    ensures SpecialStep(obj, key, special, fromIso) == SpecialStepAsWritten(obj, key, special, fromIso)
  {
    assert Get(obj, key) == Some(GetItem(obj, key).value);
    var out := Handle(key, Get(obj, key), special, fromIso);
    if out.Ok? {
      SetKeepsPresence(obj, key, StoredValue(out.value), key);
    }
  }

  /** A step removes no attribute. */
  lemma StepKeepsPresent(obj: DSDict<Value>, key: string, special: Arg, fromIso: string -> Option<FuncGeneral.Moment>, other: string)
    requires Valid(obj) && SpecialStep(obj, key, special, fromIso).Ok? && DsDict.Contains(obj, other)
    ensures DsDict.Contains(SpecialStep(obj, key, special, fromIso).value.1, other)
  {
    var out := Handle(key, Get(obj, key), special, fromIso).value;
    SetKeepsPresence(obj, key, StoredValue(out), other);
  }

  /** When the object has every special attribute, the intended steps and the written ones agree. */
  lemma {:induction false} AgreesWhenPresent(obj: DSDict<Value>, specials: seq<(string, Arg)>,
                                             fromIso: string -> Option<FuncGeneral.Moment>)
    requires Valid(obj)
    requires forall i | 0 <= i < |specials| :: DsDict.Contains(obj, specials[i].0)
    ensures ApplySpecials(obj, specials, fromIso) == ApplySpecialsAsWritten(obj, specials, fromIso)
    decreases |specials|
  {
    if |specials| > 0 {
      StepsAgree(obj, specials[0].0, specials[0].1, fromIso);
      var step := SpecialStep(obj, specials[0].0, specials[0].1, fromIso);
      if step.Ok? {
        var rest := specials[1..];
        forall i | 0 <= i < |rest| ensures DsDict.Contains(step.value.1, rest[i].0) {
          assert rest[i] == specials[i + 1];
          StepKeepsPresent(obj, specials[0].0, specials[0].1, fromIso, rest[i].0);
        }
        AgreesWhenPresent(step.value.1, rest, fromIso);
      }
      AgreeCons(obj, specials, fromIso);
    }
  }

  /** Agreeing first steps and agreeing remainders make agreeing runs. */
  lemma AgreeCons(obj: DSDict<Value>, specials: seq<(string, Arg)>, fromIso: string -> Option<FuncGeneral.Moment>)
    requires Valid(obj) && |specials| > 0
    requires SpecialStep(obj, specials[0].0, specials[0].1, fromIso)
      == SpecialStepAsWritten(obj, specials[0].0, specials[0].1, fromIso)
    requires var step := SpecialStep(obj, specials[0].0, specials[0].1, fromIso);
      step.Ok? ==> (ApplySpecials(step.value.1, specials[1..], fromIso)
                    == ApplySpecialsAsWritten(step.value.1, specials[1..], fromIso))
    ensures ApplySpecials(obj, specials, fromIso) == ApplySpecialsAsWritten(obj, specials, fromIso)
  {
    var step := SpecialStep(obj, specials[0].0, specials[0].1, fromIso);
    if step.Ok? {
      var rest := ApplySpecials(step.value.1, specials[1..], fromIso);
      if rest.Ok? {
        assert ApplySpecials(obj, specials, fromIso) == Ok(([step.value.0] + rest.value.0, rest.value.1));
        assert ApplySpecialsAsWritten(obj, specials, fromIso) == Ok(([step.value.0] + rest.value.0, rest.value.1));
      } else {
        assert ApplySpecials(obj, specials, fromIso) == Err(rest.failure);
        assert ApplySpecialsAsWritten(obj, specials, fromIso) == Err(rest.failure);
      }
    } else {
      assert ApplySpecials(obj, specials, fromIso) == Err(step.failure);
      assert ApplySpecialsAsWritten(obj, specials, fromIso) == Err(step.failure);
    }
  }

  /**
   * The case that shows the difference: setting displayName on an object
   * without one raises KeyError as written, and is an add as intended.
   */
  lemma MissingDisplayName(dn: Value, fromIso: string -> Option<FuncGeneral.Moment>)
    ensures var obj := DSDict([("distinguishedName", dn)]);
      var specials := [("displayName", AStr("A"))];
      && RaisedAs(ApplySpecialsAsWritten(obj, specials, fromIso), KeyError)
      && ApplySpecials(obj, specials, fromIso).Ok?
      && ApplySpecials(obj, specials, fromIso).value.0 == [Op(ModAdd, "displayName", Some([AStr("A")]))]
  {
    var obj := DSDict([("distinguishedName", dn)]);
    assert Valid(obj);
    assert Fold("displayName") != Fold("distinguishedName");
    assert !DsDict.Contains(obj, "displayName");
    assert HandlerOf("displayName") == DefaultHandler;
  }

  // ---------------------------------------------------------------------------
  // Encoding (app/ds/func_ds_set.py:96-104)

  /** One modify operation as sent: values as bytes, `None` kept. */
  datatype Encoded = Encoded(action: Action, key: string, values: Option<seq<seq<byte>>>)

  /** Every value of one operation; only strings have `encode`. */
  function EncodeValues(key: string, vs: seq<Arg>): (r: Result<seq<seq<byte>>>)
    ensures r.Ok? <==> forall i | 0 <= i < |vs| :: vs[i].AStr?
    ensures r.Err? ==> r.failure.exc == AttributeError
    ensures r.Ok? ==> |r.value| == |vs| && forall i | 0 <= i < |vs| :: r.value[i] == EncodeString(key, vs[i].s)
  {
    if |vs| == 0 then Ok([])
    else if !vs[0].AStr? then Raise(AttributeError, "object has no attribute 'encode'")
    else
      var rest :- EncodeValues(key, vs[1..]);
      assert forall i | 1 <= i < |vs| :: vs[1..][i - 1] == vs[i];
      Ok([EncodeString(key, vs[0].s)] + rest)
  }

  /** Every value of the operation, if it has any, is a string. */
  predicate Encodable(op: Op) {
    op.values.Some? ==> forall i | 0 <= i < |op.values.value| :: op.values.value[i].AStr?
  }

  /** `op` becomes `e`: same action and key, `None` kept, each value encoded. */
  predicate EncodedAs(op: Op, e: Encoded) {
    && e.action == op.action && e.key == op.key
    && e.values.Some? == op.values.Some?
    && (op.values.Some? ==>
          && |e.values.value| == |op.values.value|
          && forall j | 0 <= j < |op.values.value| ::
               op.values.value[j].AStr? && e.values.value[j] == EncodeString(op.key, op.values.value[j].s))
  }

  function EncodeOp(op: Op): (r: Result<Encoded>)
    ensures r.Ok? <==> Encodable(op)
    ensures r.Err? ==> r.failure.exc == AttributeError
    ensures r.Ok? ==> EncodedAs(op, r.value)
  {
    match op.values
    case None => Ok(Encoded(op.action, op.key, None))
    case Some(vs) =>
      var bs :- EncodeValues(op.key, vs);
      Ok(Encoded(op.action, op.key, Some(bs)))
  }

  /** The encoding loop: the operations in order, each encoded. */
  function EncodeOps(ops: seq<Op>): (r: Result<seq<Encoded>>)
    ensures r.Ok? <==> forall i | 0 <= i < |ops| :: Encodable(ops[i])
    ensures r.Err? ==> r.failure.exc == AttributeError
    ensures r.Ok? ==> |r.value| == |ops| && forall i | 0 <= i < |ops| :: EncodedAs(ops[i], r.value[i])
  {
    if |ops| == 0 then Ok([])
    else
      var e :- EncodeOp(ops[0]);
      var rest :- EncodeOps(ops[1..]);
      assert forall i | 1 <= i < |ops| :: ops[1..][i - 1] == ops[i];
      Ok([e] + rest)
  }

  /** Every value sent for an attribute other than the password reads back, as UTF-8, as the value given. */
  lemma EncodedReadsBack(ops: seq<Op>, i: nat, j: nat)
    requires EncodeOps(ops).Ok? && i < |ops| && !IsPassword(ops[i].key)
    requires ops[i].values.Some? && j < |ops[i].values.value|
    ensures Utf8Decode(EncodeOps(ops).value[i].values.value[j]) == Some(ops[i].values.value[j].s)
  {
    PlainReadsBack(ops[i].key, ops[i].values.value[j].s);
  }

  // ---------------------------------------------------------------------------
  // The whole call (app/ds/func_ds_set.py:42-113)

  /** The modify sent: the object's DN as fetched and the encoded operations. */
  datatype Modification = Modification(dn: Value, ops: seq<Encoded>)

  /** The properties fetched: the explicit operations' keys, then the specials'. */
  function FetchList(ops: seq<Op>, specials: seq<(string, Arg)>): (ps: seq<string>)
    ensures |ps| == |ops| + |specials|
    ensures forall i | 0 <= i < |ops| :: ps[i] == ops[i].key
    ensures forall i | 0 <= i < |specials| :: ps[|ops| + i] == specials[i].0
  {
    if |ops| > 0 then [ops[0].key] + FetchList(ops[1..], specials)
    else if |specials| > 0 then [specials[0].0] + FetchList([], specials[1..])
    else []
  }

  /**
   * After the specials: an empty operation list raises, the values are
   * encoded, the DN is read from the object, and in dry-run mode nothing is sent.
   */
  function Finish(ops: seq<Op>, obj: DSDict<Value>, dryRun: bool): (r: Result<Option<Modification>>)
    ensures |ops| == 0 ==> RaisedAs(r, RuntimeError)
    ensures r.Ok? <==> |ops| > 0 && EncodeOps(ops).Ok? && DsDict.Contains(obj, "distinguishedName")
    ensures r.Ok? ==> (r.value.None? <==> dryRun)
    ensures r.Ok? && !dryRun ==>
              && r.value.value.dn == Get(obj, "distinguishedName").value
              && |r.value.value.ops| == |ops|
              && forall i | 0 <= i < |ops| :: EncodedAs(ops[i], r.value.value.ops[i])
  {
    if |ops| == 0 then Raise(RuntimeError, "nothing to change")
    else
      var encoded :- EncodeOps(ops);
      var dn :- GetItem(obj, "distinguishedName");
      if dryRun then Ok(None) else Ok(Some(Modification(dn, encoded)))
  }

  /** Every fetch gives a well-formed object. */
  ghost predicate Lookups(lookup: seq<string> -> Result<DSDict<Value>>) {
    forall ps :: lookup(ps).Ok? ==> Valid(lookup(ps).value)
  }

  /** `sent` is `ops`, each encoded, in order. */
  predicate SentAs(ops: seq<Op>, sent: seq<Encoded>) {
    && |sent| == |ops|
    && forall i | 0 <= i < |ops| :: EncodedAs(ops[i], sent[i])
  }

  /**
   * The modify `m` is what the fetched object leads to: the explicit
   * operations followed by the specials' operations, all encoded, sent to
   * the DN the object holds once the specials are stored in it.
   */
  predicate Sends(ops: seq<Op>, specials: seq<(string, Arg)>, obj: DSDict<Value>, fromIso: string -> Option<FuncGeneral.Moment>,
                  m: Modification)
    requires Valid(obj)
  {
    var applied := ApplySpecials(obj, specials, fromIso);
    && applied.Ok?
    && SentAs(ops + applied.value.0, m.ops)
    && DsDict.Contains(applied.value.1, "distinguishedName")
    && m.dn == Get(applied.value.1, "distinguishedName").value
  }

  /**
   * From the fetched object on, as intended: the specials applied after the
   * explicit operations, then `Finish`.
   */
  function Assemble(ops: seq<Op>, specials: seq<(string, Arg)>, obj: DSDict<Value>, dryRun: bool,
                    fromIso: string -> Option<FuncGeneral.Moment>)
    : (r: Result<Option<Modification>>)
    requires Valid(obj)
    ensures ApplySpecials(obj, specials, fromIso).Err? ==> r == Err(ApplySpecials(obj, specials, fromIso).failure)
    ensures r.Ok? ==> (r.value.None? <==> dryRun)
    ensures r.Ok? && !dryRun ==> Sends(ops, specials, obj, fromIso, r.value.value)
  {
    var applied :- ApplySpecials(obj, specials, fromIso);
    Finish(ops + applied.0, applied.1, dryRun)
  }

  /**
   * `ds_set` as evidently intended: a missing `special` is no specials, and
   * each special is computed from the fetched value or `None`, and added
   * when the object lacks it. The result is the modify sent, or `None` in
   * dry-run mode.
   */
  function DsSet(lookup: seq<string> -> Result<DSDict<Value>>,
                 remove: seq<(string, seq<string>)>, add: seq<(string, seq<string>)>,
                 replace: seq<(string, seq<string>)>, clear: seq<string>,
                 special: Option<seq<(string, Option<Arg>)>>, dryRun: bool, fromIso: string -> Option<FuncGeneral.Moment>)
    : (r: Result<Option<Modification>>)
    requires Lookups(lookup)
    ensures special.Some? && (exists i | 0 <= i < |special.value| :: Collides(OpList(remove, add, replace, clear), special.value[i].0))
            ==> RaisedAs(r, RuntimeError)
    ensures r.Ok? ==> (r.value.None? <==> dryRun)
    ensures r.Ok? && !dryRun ==>
      var ops := OpList(remove, add, replace, clear);
      var specials := if special.Some? then Present(special.value) else [];
      && lookup(FetchList(ops, specials)).Ok?
      && Sends(ops, specials, lookup(FetchList(ops, specials)).value, fromIso, r.value.value)
  {
    var ops := OpList(remove, add, replace, clear);
    var specials :- SelectSpecialsOrNone(ops, special);
    var obj :- lookup(FetchList(ops, specials));
    Assemble(ops, specials, obj, dryRun, fromIso)
  }

  /**
   * What `ds_set` sends, against the object as fetched: the explicit
   * operations encoded, then each special computed by its handler from the
   * fetched value (a replace when the object has the attribute, an add when
   * it lacks it), to the fetched DN unless a special rewrites it. The keys of
   * the specials differ in any casing, as the keys of a `DSDict` do.
   */
  lemma DsSetSends(lookup: seq<string> -> Result<DSDict<Value>>,
                   remove: seq<(string, seq<string>)>, add: seq<(string, seq<string>)>,
                   replace: seq<(string, seq<string>)>, clear: seq<string>,
                   special: seq<(string, Option<Arg>)>, fromIso: string -> Option<FuncGeneral.Moment>)
    requires Lookups(lookup) && DistinctKeys(Present(special))
    requires DsSet(lookup, remove, add, replace, clear, Some(special), false, fromIso).Ok?
    ensures var ops := OpList(remove, add, replace, clear);
      var specials := Present(special);
      && lookup(FetchList(ops, specials)).Ok?
      && SentFromFetched(ops, specials, lookup(FetchList(ops, specials)).value, fromIso,
                         DsSet(lookup, remove, add, replace, clear, Some(special), false, fromIso).value.value)
  {
    var ops := OpList(remove, add, replace, clear);
    var specials := Present(special);
    var obj := lookup(FetchList(ops, specials)).value;
    var m := DsSet(lookup, remove, add, replace, clear, Some(special), false, fromIso).value.value;
    SendsFromFetched(ops, specials, obj, fromIso, m);
  }

  /**
   * The modify `m` against the fetched object: the explicit operations
   * encoded, then each special's operation computed from the fetched object
   * and encoded, to the fetched DN when no special names distinguishedName.
   */
  predicate SentFromFetched(ops: seq<Op>, specials: seq<(string, Arg)>, obj: DSDict<Value>,
                            fromIso: string -> Option<FuncGeneral.Moment>, m: Modification)
  {
    && |m.ops| == |ops| + |specials|
    && (forall i | 0 <= i < |ops| :: EncodedAs(ops[i], m.ops[i]))
    && (forall i | 0 <= i < |specials| ::
          && FetchedOp(obj, specials[i].0, specials[i].1, fromIso).Ok?
          && EncodedAs(FetchedOp(obj, specials[i].0, specials[i].1, fromIso).value, m.ops[|ops| + i]))
    && (Untouched(specials, "distinguishedName") ==>
          DsDict.Contains(obj, "distinguishedName") && m.dn == Get(obj, "distinguishedName").value)
  }

  lemma SendsFromFetched(ops: seq<Op>, specials: seq<(string, Arg)>, obj: DSDict<Value>,
                         fromIso: string -> Option<FuncGeneral.Moment>, m: Modification)
    requires Valid(obj) && DistinctKeys(specials) && Sends(ops, specials, obj, fromIso, m)
    ensures SentFromFetched(ops, specials, obj, fromIso, m)
  {
    var applied := ApplySpecials(obj, specials, fromIso).value;
    SpecialsFromFetched(obj, specials, fromIso);
    var all := ops + applied.0;
    forall i | 0 <= i < |ops| ensures EncodedAs(ops[i], m.ops[i]) {
      assert all[i] == ops[i];
    }
    forall i | 0 <= i < |specials|
      ensures FetchedOp(obj, specials[i].0, specials[i].1, fromIso).Ok?
      ensures EncodedAs(FetchedOp(obj, specials[i].0, specials[i].1, fromIso).value, m.ops[|ops| + i])
    {
      assert all[|ops| + i] == applied.0[i];
      assert FetchedOp(obj, specials[i].0, specials[i].1, fromIso) == Ok(applied.0[i]);
    }
    if Untouched(specials, "distinguishedName") {
      assert Get(applied.1, "distinguishedName") == Get(obj, "distinguishedName");
    }
  }

  /** `ds_set` as written: `special.items()` on `None`, and `result[key]` before the assignment. */
  function DsSetAsWritten(lookup: seq<string> -> Result<DSDict<Value>>,
                          remove: seq<(string, seq<string>)>, add: seq<(string, seq<string>)>,
                          replace: seq<(string, seq<string>)>, clear: seq<string>,
                          special: Option<seq<(string, Option<Arg>)>>, dryRun: bool, fromIso: string -> Option<FuncGeneral.Moment>)
    : (r: Result<Option<Modification>>)
    requires Lookups(lookup)
    ensures special.None? ==> RaisedAs(r, AttributeError)
    ensures r.Ok? ==> (r.value.None? <==> dryRun)
  {
    var ops := OpList(remove, add, replace, clear);
    var specials :- SelectSpecialsAsWritten(ops, special);
    var obj :- lookup(FetchList(ops, specials));
    var applied :- ApplySpecialsAsWritten(obj, specials, fromIso);
    Finish(ops + applied.0, applied.1, dryRun)
  }

  /**
   * Unlocking (`replace={'lockoutTime': ['0']}` with no special) raises
   * AttributeError as written, whatever the directory holds; as intended it
   * sends the one replace to the DN the fetch returns.
   */
  lemma UnlockWithoutSpecial(lookup: seq<string> -> Result<DSDict<Value>>, fromIso: string -> Option<FuncGeneral.Moment>)
    requires Lookups(lookup)
    requires lookup(["lockoutTime"]).Ok? && DsDict.Contains(lookup(["lockoutTime"]).value, "distinguishedName")
    ensures RaisedAs(DsSetAsWritten(lookup, [], [], [("lockoutTime", ["0"])], [], None, false, fromIso), AttributeError)
    ensures var r := DsSet(lookup, [], [], [("lockoutTime", ["0"])], [], None, false, fromIso);
      && r.Ok? && r.value.Some?
      && r.value.value.dn == Get(lookup(["lockoutTime"]).value, "distinguishedName").value
      && r.value.value.ops == [Encoded(ModReplace, "lockoutTime", Some([Utf8Encode("0")]))]
  {
    LockoutTimeNotPassword();
    SingleReplace(lookup, "lockoutTime", "0", fromIso);
  }

  /** A lone replace of one value, with no specials, is sent as it is to the DN fetched. */
  lemma SingleReplace(lookup: seq<string> -> Result<DSDict<Value>>, key: string, v: string,
                      fromIso: string -> Option<FuncGeneral.Moment>)
    requires Lookups(lookup) && !IsPassword(key)
    requires lookup([key]).Ok? && DsDict.Contains(lookup([key]).value, "distinguishedName")
    ensures DsSet(lookup, [], [], [(key, [v])], [], None, false, fromIso)
            == Ok(Some(Modification(Get(lookup([key]).value, "distinguishedName").value,
                                    [Encoded(ModReplace, key, Some([Utf8Encode(v)]))])))
  {
    var op := Op(ModReplace, key, Some([AStr(v)]));
    SingleOps(key, v);
    assert FetchList([op], []) == [key];
    var obj := lookup([key]).value;
    SingleEncoded(ModReplace, key, v);
    assert Assemble([op], [], obj, false, fromIso) == Finish([op] + [], obj, false);
  }

  /** A single one-valued operation on an attribute other than the password is sent as its UTF-8 bytes. */
  lemma SingleEncoded(action: Action, key: string, v: string)
    requires !IsPassword(key)
    ensures EncodeOps([Op(action, key, Some([AStr(v)]))]) == Ok([Encoded(action, key, Some([Utf8Encode(v)]))])
  {
    var op := Op(action, key, Some([AStr(v)]));
    assert Encodable(op) by {
      assert op.values.value[0].AStr?;
    }
    var r := EncodeOps([op]);
    assert r.Ok? && |r.value| == 1 && EncodedAs(op, r.value[0]);
    var bs := r.value[0].values.value;
    assert |bs| == 1 && bs[0] == Utf8Encode(v);
    assert bs == [Utf8Encode(v)];
    assert r.value == [r.value[0]];
  }

  lemma SingleOps(key: string, v: string)
    ensures OpList([], [], [(key, [v])], []) == [Op(ModReplace, key, Some([AStr(v)]))]
  {
    assert [v][1..] == [];
    assert Strs([v]) == [AStr(v)];
    assert [(key, [v])][1..] == [];
  }

  lemma LockoutTimeNotPassword()
    ensures !IsPassword("lockoutTime")
  {
    assert Fold("lockoutTime")[0] == 'l';
  }
}
