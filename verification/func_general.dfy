/**
 * The read-modify-write helpers of app/ds/func_general.py: the
 * userAccountControl patcher `gen_uac`, the pwdLastSet literal of
 * `gen_change_pwd_at_logon`, the non-datetime branches of
 * `gen_account_exp_date`, and the groupType patcher `gen_gt`.
 */
module FuncGeneral {
  import opened Wrappers
  import opened Words
  import opened Text
  import Uac
  import opened GroupType

  // ---------------------------------------------------------------------------
  // gen_uac (app/ds/func_general.py:7-33)

  /** The four flags `gen_uac` can toggle, as entries of `UAC_FLAGS`. */
  const AccountDisable := Uac.UacFlags[1]
  const PasswdNotReqd := Uac.UacFlags[4]
  const DontExpirePassword := Uac.UacFlags[12]
  const NotDelegated := Uac.UacFlags[16]

  /** The bit positions `gen_uac` touches are those of the four table entries. */
  lemma ToggledFlags()
    ensures AccountDisable == Uac.UacFlag("ACCOUNTDISABLE", 0x2, 1)
    ensures PasswdNotReqd == Uac.UacFlag("PASSWD_NOTREQD", 0x20, 5)
    ensures DontExpirePassword == Uac.UacFlag("DONT_EXPIRE_PASSWORD", 0x10000, 16)
    ensures NotDelegated == Uac.UacFlag("NOT_DELEGATED", 0x100000, 20)
  {
  }

  /** The state bit `p` of `n` ends in under toggle `t`, where `setOn` is the toggle value that sets it. */
  predicate Target(n: int, t: Option<bool>, setOn: bool, p: nat) {
    if t.Some? then t.value == setOn else HasBit(n, p)
  }

  /** `r` and `n` agree on every bit except possibly those at `ps`. */
  ghost predicate SameBitsExcept(r: int, n: int, ps: set<nat>) {
    forall q: nat | q !in ps :: HasBit(r, q) == HasBit(n, q)
  }

  /**
   * One toggle of `gen_uac`: `None` leaves the number alone; otherwise bit
   * `p` is set (`|=`) when the toggle equals `setOn` and cleared (`&= ~`)
   * when it does not.
   */
  function Toggle(n: int, t: Option<bool>, p: nat, setOn: bool): (r: int)
    ensures HasBit(r, p) == Target(n, t, setOn, p)
    ensures SameBitsExcept(r, n, {p})
  {
    match t
    case None => n
    case Some(b) => if b == setOn then SetBit(n, p) else ClearBit(n, p)
  }

  /** A toggle whose bit is already in its target state changes nothing. */
  lemma ToggleSettled(n: int, t: Option<bool>, p: nat, setOn: bool)
    requires HasBit(n, p) == Target(n, t, setOn, p)
    ensures Toggle(n, t, p, setOn) == n
  {
  }

  /**
   * `gen_uac`: `enabled` clears ACCOUNTDISABLE (bit 1) when true and sets it
   * when false; `password_never_expires` (bit 16), `account_not_delegated`
   * (bit 20) and `password_not_required` (bit 5) set their flag when true
   * and clear it when false. Each targeted bit of the result is in its
   * target state (untouched for a `None` toggle), and every other bit is as
   * in the input.
   */
  function GenUac(uac: int, enabled: Option<bool>, passwordNeverExpires: Option<bool>,
                  accountNotDelegated: Option<bool>, passwordNotRequired: Option<bool>): (r: int)
    ensures HasBit(r, 1) == Target(uac, enabled, false, 1)
    ensures HasBit(r, 16) == Target(uac, passwordNeverExpires, true, 16)
    ensures HasBit(r, 20) == Target(uac, accountNotDelegated, true, 20)
    ensures HasBit(r, 5) == Target(uac, passwordNotRequired, true, 5)
    ensures SameBitsExcept(r, uac, {1, 16, 20, 5})
  {
    var u1 := Toggle(uac, enabled, 1, false);
    var u2 := Toggle(u1, passwordNeverExpires, 16, true);
    var u3 := Toggle(u2, accountNotDelegated, 20, true);
    TogglesLand(uac, enabled, passwordNeverExpires, accountNotDelegated, passwordNotRequired);
    Toggle(u3, passwordNotRequired, 5, true)
  }

  /** The four toggles in sequence: each lands its own bit and keeps the others. */
  lemma TogglesLand(uac: int, enabled: Option<bool>, passwordNeverExpires: Option<bool>,
                    accountNotDelegated: Option<bool>, passwordNotRequired: Option<bool>)
    ensures var u1 := Toggle(uac, enabled, 1, false);
      var u2 := Toggle(u1, passwordNeverExpires, 16, true);
      var u3 := Toggle(u2, accountNotDelegated, 20, true);
      var r := Toggle(u3, passwordNotRequired, 5, true);
      && HasBit(r, 1) == Target(uac, enabled, false, 1)
      && HasBit(r, 16) == Target(uac, passwordNeverExpires, true, 16)
      && HasBit(r, 20) == Target(uac, accountNotDelegated, true, 20)
      && HasBit(r, 5) == Target(uac, passwordNotRequired, true, 5)
      && SameBitsExcept(r, uac, {1, 16, 20, 5})
  {
    var u1 := Toggle(uac, enabled, 1, false);
    var u2 := Toggle(u1, passwordNeverExpires, 16, true);
    var u3 := Toggle(u2, accountNotDelegated, 20, true);
    var r := Toggle(u3, passwordNotRequired, 5, true);
    ToggleKeeps(u1, passwordNeverExpires, 16, true, 1);
    ToggleKeeps(u2, accountNotDelegated, 20, true, 1);
    ToggleKeeps(u3, passwordNotRequired, 5, true, 1);
    ToggleKeeps(uac, enabled, 1, false, 16);
    ToggleKeeps(u2, accountNotDelegated, 20, true, 16);
    ToggleKeeps(u3, passwordNotRequired, 5, true, 16);
    ToggleKeeps(uac, enabled, 1, false, 20);
    ToggleKeeps(u1, passwordNeverExpires, 16, true, 20);
    ToggleKeeps(u3, passwordNotRequired, 5, true, 20);
    ToggleKeeps(uac, enabled, 1, false, 5);
    ToggleKeeps(u1, passwordNeverExpires, 16, true, 5);
    ToggleKeeps(u2, accountNotDelegated, 20, true, 5);
    forall q: nat | q !in {1, 16, 20, 5}
      ensures HasBit(r, q) == HasBit(uac, q)
    {
      ToggleKeeps(uac, enabled, 1, false, q);
      ToggleKeeps(u1, passwordNeverExpires, 16, true, q);
      ToggleKeeps(u2, accountNotDelegated, 20, true, q);
      ToggleKeeps(u3, passwordNotRequired, 5, true, q);
    }
  }

  /** A toggle of bit `p` leaves bit `q` alone. */
  lemma ToggleKeeps(n: int, t: Option<bool>, p: nat, setOn: bool, q: nat)
    requires q != p
    ensures HasBit(Toggle(n, t, p, setOn), q) == HasBit(n, q)
  {
  }

  /** Applying the same toggles twice equals applying them once. */
  lemma GenUacIdempotent(uac: int, enabled: Option<bool>, passwordNeverExpires: Option<bool>,
                         accountNotDelegated: Option<bool>, passwordNotRequired: Option<bool>)
    ensures var once := GenUac(uac, enabled, passwordNeverExpires, accountNotDelegated, passwordNotRequired);
      GenUac(once, enabled, passwordNeverExpires, accountNotDelegated, passwordNotRequired) == once
  {
    var once := GenUac(uac, enabled, passwordNeverExpires, accountNotDelegated, passwordNotRequired);
    ToggleSettled(once, enabled, 1, false);
    ToggleSettled(once, passwordNeverExpires, 16, true);
    ToggleSettled(once, accountNotDelegated, 20, true);
    ToggleSettled(once, passwordNotRequired, 5, true);
  }

  /** Disabling 0x202, which has ACCOUNTDISABLE set already, keeps 0x202; enabling it gives 0x200. */
  lemma GenUacExamples()
    ensures GenUac(0x202, Some(false), None, None, None) == 0x202
    ensures GenUac(0x202, Some(true), None, None, None) == 0x200
    ensures GenUac(0x200, None, None, None, Some(false)) == 0x200
  {
    assert Shift(0x202, 1) == 0x101;
    assert Shift(0x200, 5) == 0x10;
  }

  // ---------------------------------------------------------------------------
  // gen_change_pwd_at_logon (app/ds/func_general.py:36-37)

  /**
   * The pwdLastSet value to write: "0" forces a password change at the next
   * logon, "-1" stamps the current time.
   */
  function GenChangePwdAtLogon(changePasswordAtLogon: bool): (s: string)
    ensures ParseInt(s) == Some(if changePasswordAtLogon then 0 else -1)
  {
    ParseIntToDecimal(0);
    ParseIntToDecimal(-1);
    if changePasswordAtLogon then "0" else "-1"
  }

  // ---------------------------------------------------------------------------
  // gen_account_exp_date (app/ds/func_general.py:40-59)

  /**
   * A datetime: the accountExpires tick count it converts to, which
   * depends on the local time zone, and whether it carries a UTC offset.
   */
  datatype Moment = Moment(ticks: int, aware: bool)

  /**
   * The argument of `gen_account_exp_date`: a boolean, a datetime, an ISO
   * string with the datetime `fromisoformat` parses it to (`None` when it
   * does not parse), or anything else.
   */
  datatype ExpirationArg =
    | ExpBool(b: bool)
    | ExpDateTime(when: Moment)
    | ExpIsoString(text: string, parsed: Option<Moment>)
    | ExpOther

  /**
   * The tick count of a datetime as decimal text. Subtracting the naive
   * epoch from a datetime with an offset raises TypeError.
   */
  function Ticks(m: Moment): (r: Result<string>)
    ensures r.Ok? <==> !m.aware
    ensures r.Ok? ==> ParseInt(r.value) == Some(m.ticks)
    ensures r.Err? ==> r.failure.exc == TypeError
  {
    if m.aware then Raise(TypeError, "can't subtract offset-naive and offset-aware datetimes")
    else
      ParseIntToDecimal(m.ticks);
      Ok(IntToDecimal(m.ticks))
  }

  /** `gen_account_exp_date`: "0" for `False`, the decimal tick count for a naive date. */
  function GenAccountExpDate(arg: ExpirationArg): (r: Result<string>)
    ensures r.Ok? <==> || arg == ExpBool(false)
                       || (arg.ExpDateTime? && !arg.when.aware)
                       || (arg.ExpIsoString? && arg.parsed.Some? && !arg.parsed.value.aware)
    ensures arg == ExpBool(false) ==> r == Ok("0")
    ensures arg.ExpDateTime? && !arg.when.aware ==> r.Ok? && ParseInt(r.value) == Some(arg.when.ticks)
    ensures arg.ExpIsoString? && arg.parsed.Some? && !arg.parsed.value.aware ==>
              r.Ok? && ParseInt(r.value) == Some(arg.parsed.value.ticks)
    ensures arg.ExpDateTime? && arg.when.aware ==> RaisedAs(r, TypeError)
    ensures arg.ExpIsoString? && arg.parsed.Some? && arg.parsed.value.aware ==> RaisedAs(r, TypeError)
    ensures arg == ExpBool(true) || arg.ExpOther? ==> RaisedAs(r, RuntimeError)
    ensures arg.ExpIsoString? && arg.parsed.None? ==> RaisedAs(r, ValueError)
  {
    match arg
    case ExpIsoString(_, parsed) =>
      if parsed.None? then Raise(ValueError, "invalid isoformat string") else Ticks(parsed.value)
    case ExpDateTime(when) => Ticks(when)
    case ExpBool(b) =>
      if !b then Ok("0") else Raise(RuntimeError, "account_expiration_date must be datetime or False")
    case ExpOther => Raise(RuntimeError, "account_expiration_date must be datetime or False")
  }

  // ---------------------------------------------------------------------------
  // gen_gt (app/ds/func_general.py:62-92)

  /** Python truthiness of an optional string argument. */
  predicate Given(s: Option<string>) {
    s.Some? && |s.value| > 0
  }

  /** The scope names of `gen_gt`, in the order of its `flags` list. */
  const ScopeNames: seq<string> := ["RESOURCE_GROUP", "ACCOUNT_GROUP", "UNIVERSAL_GROUP"]

  /** The flag a scope adds: DomainLocal, Global or Universal; any other scope is unknown. */
  function ScopeFlag(scope: string): Option<GroupFlag> {
    if scope == "DomainLocal" then Some(ResourceGroup)
    else if scope == "Global" then Some(AccountGroup)
    else if scope == "Universal" then Some(UniversalGroup)
    else None
  }

  /** `[i for i in xs if i not in drop]`. */
  function Without(xs: seq<string>, drop: seq<string>): (r: seq<string>)
    ensures forall x :: x in r <==> x in xs && x !in drop
  {
    if |xs| == 0 then []
    else (if xs[0] in drop then [] else [xs[0]]) + Without(xs[1..], drop)
  }

  /** The scope step: the other two scope names are dropped and the chosen one appended. */
  function ApplyScope(names: seq<string>, scope: Option<string>): (r: Result<seq<string>>)
    ensures r.Ok? <==> ScopeOk(scope)
    ensures r.Err? ==> r.failure.exc == RuntimeError
  {
    if !Given(scope) then Ok(names)
    else match ScopeFlag(scope.value)
      case None => Raise(RuntimeError, "group_scope must be 'DomainLocal' or 'Global' or 'Universal'")
      case Some(add) => Ok(Without(names, Without(ScopeNames, [add.name])) + [add.name])
  }

  /** The category step: Security appends SECURITY_ENABLED, Distribution drops it. */
  function ApplyCategory(names: seq<string>, category: Option<string>): (r: Result<seq<string>>)
    ensures r.Ok? <==> CategoryOk(category)
    ensures r.Err? ==> r.failure.exc == RuntimeError
  {
    if !Given(category) then Ok(names)
    else if category.value == "Security" then Ok(names + [SecurityEnabled.name])
    else if category.value == "Distribution" then Ok(Without(names, [SecurityEnabled.name]))
    else Raise(RuntimeError, "group_category must be 'Security' or 'Distribution'")
  }

  /**
   * `gen_gt`: the stored word is converted to names, patched by scope and
   * category, and converted back, which re-checks the mutual-exclusion rule.
   * The source passes the list through `set` first; the names-to-integer
   * direction depends only on which names are listed (`FromNamesBySet`), so
   * the list is passed on as it is. Only the stored word's conversion
   * raises ValueError; an unknown scope or category raises RuntimeError, so
   * a result is only ever computed from known names. `GenGtPatches` states
   * the word computed.
   */
  function GenGt(gt: bv32, scope: Option<string>, category: Option<string>): (r: Result<int>)
    ensures FromWord(gt).Err? ==> RaisedAs(r, ValueError)
    ensures r.Err? ==> r.failure.exc == ValueError || r.failure.exc == RuntimeError
    ensures r.Ok? ==> FromWord(gt).Ok? && ScopeOk(scope) && CategoryOk(category)
    ensures r.Ok? ==> -0x8000_0000 <= r.value < 0x8000_0000
  {
    var names :- FromWord(gt);
    var scoped :- ApplyScope(names, scope);
    var categorized :- ApplyCategory(scoped, category);
    FromNames(categorized)
  }

  /** Names-to-integer looks only at which names are listed, not at order or repetition. */
  lemma FromNamesBySet(a: seq<string>, b: seq<string>)
    requires forall x :: x in a <==> x in b
    ensures FromNames(a) == FromNames(b)
  {
    KeepByName(a);
    KeepByName(b);
    assert Picked(a) == Picked(b);
    assert AllKnown(GroupTypeFlags, a) == AllKnown(GroupTypeFlags, b);
  }

  // The reference: the same patch on the 32-bit word.

  predicate ScopeOk(scope: Option<string>) {
    !Given(scope) || ScopeFlag(scope.value).Some?
  }

  predicate CategoryOk(category: Option<string>) {
    !Given(category) || category.value == "Security" || category.value == "Distribution"
  }

  /** The bit a known scope selects; `None` when no scope is given (or it is unknown, which raises). */
  function ScopeBitOf(scope: Option<string>): Option<bv32> {
    if Given(scope) && ScopeFlag(scope.value).Some? then Some(ScopeFlag(scope.value).value.bit) else None
  }

  /** Whether a known category sets (`true`) or clears (`false`) SECURITY_ENABLED; `None` leaves it. */
  function CategoryChoice(category: Option<string>): Option<bool> {
    if !Given(category) then None
    else if category.value == "Security" then Some(true)
    else if category.value == "Distribution" then Some(false)
    else None
  }

  /** A selected scope bit is one of the three scope bits. */
  predicate ScopeBitOk(s: Option<bv32>) {
    s.Some? ==> s.value == 2 || s.value == 4 || s.value == 8
  }

  /** A scope's patch: the three scope bits replaced by the chosen one. */
  function ScopeWord(gt: bv32, b: bv32): bv32 {
    (gt & 0xFFFF_FFF1) | b
  }

  /** A category's patch: Security sets bit 31, Distribution clears it. */
  function CategoryWord(w: bv32, security: bool): bv32 {
    if security then w | 0x8000_0000 else w & 0x7FFF_FFFF
  }

  function ScopedWord(gt: bv32, s: Option<bv32>): bv32 {
    match s
    case None => gt
    case Some(b) => ScopeWord(gt, b)
  }

  function CategorizedWord(w: bv32, c: Option<bool>): bv32 {
    match c
    case None => w
    case Some(security) => CategoryWord(w, security)
  }

  /** The patch `gen_gt` makes, on the word: scope first, then category. */
  function PatchGroupType(gt: bv32, scope: Option<string>, category: Option<string>): bv32 {
    CategorizedWord(ScopedWord(gt, ScopeBitOf(scope)), CategoryChoice(category))
  }

  /** A list naming the set bits of a word, with only table names. */
  predicate Describes(names: seq<string>, w: bv32) {
    ListsBitsOf(names, w) && AllKnown(GroupTypeFlags, names) && w & GroupTypeMask == w
  }

  /** The table's names are the seven flag names, distinct. */
  lemma TableNameFacts(k: nat)
    requires k < |GroupTypeFlags|
    ensures GroupTypeFlags[k].name in Names(GroupTypeFlags)
    ensures GroupTypeFlags[k].name in ScopeNames <==> k == 1 || k == 2 || k == 3
    ensures GroupTypeFlags[k].name == SecurityEnabled.name <==> k == 6
  {
    assert Names(GroupTypeFlags)[k] == GroupTypeFlags[k].name;
    TableNamesDistinct();
    assert ScopeNames == [GroupTypeFlags[2].name, GroupTypeFlags[1].name, GroupTypeFlags[3].name];
  }

  /** The scope step on names is the scope patch on the word. */
  lemma ScopeStep(names: seq<string>, w: bv32, add: GroupFlag)
    requires Describes(names, w)
    requires add == ResourceGroup || add == AccountGroup || add == UniversalGroup
    ensures Describes(Without(names, Without(ScopeNames, [add.name])) + [add.name], ScopeWord(w, add.bit))
  {
    ScopeListsBits(names, w, add);
    ScopeKnown(names, add);
    ScopeBit(w, add, 0);
  }

  lemma ScopeListsBits(names: seq<string>, w: bv32, add: GroupFlag)
    requires ListsBitsOf(names, w)
    requires add == ResourceGroup || add == AccountGroup || add == UniversalGroup
    ensures ListsBitsOf(Without(names, Without(ScopeNames, [add.name])) + [add.name], ScopeWord(w, add.bit))
  {
    var scoped := Without(names, Without(ScopeNames, [add.name])) + [add.name];
    forall k | 0 <= k < |GroupTypeFlags|
      ensures GroupTypeFlags[k].name in scoped <==> ScopeWord(w, add.bit) & GroupTypeFlags[k].bit != 0
    {
      ScopeListsBit(names, w, add, k);
    }
  }

  lemma ScopeListsBit(names: seq<string>, w: bv32, add: GroupFlag, k: nat)
    requires ListsBitsOf(names, w)
    requires add == ResourceGroup || add == AccountGroup || add == UniversalGroup
    requires k < |GroupTypeFlags|
    ensures GroupTypeFlags[k].name in Without(names, Without(ScopeNames, [add.name])) + [add.name]
        <==> ScopeWord(w, add.bit) & GroupTypeFlags[k].bit != 0
  {
    var x := GroupTypeFlags[k].name;
    var others := Without(ScopeNames, [add.name]);
    var kept := Without(names, others);
    assert x in kept + [add.name] <==> x in kept || x == add.name;
    assert x in kept <==> x in names && x !in others;
    assert x in names <==> w & GroupTypeFlags[k].bit != 0;
    ScopeNameAt(add, k);
    ScopeBit(w, add, k);
  }

  lemma ScopeKnown(names: seq<string>, add: GroupFlag)
    requires AllKnown(GroupTypeFlags, names)
    requires add == ResourceGroup || add == AccountGroup || add == UniversalGroup
    ensures AllKnown(GroupTypeFlags, Without(names, Without(ScopeNames, [add.name])) + [add.name])
  {
    AddedKnown(add);
  }

  /** Which table names the scope step drops, and which it appends. */
  lemma ScopeNameAt(add: GroupFlag, k: nat)
    requires add == ResourceGroup || add == AccountGroup || add == UniversalGroup
    requires k < |GroupTypeFlags|
    ensures GroupTypeFlags[k].name in Without(ScopeNames, [add.name]) <==> (k == 1 || k == 2 || k == 3) && GroupTypeFlags[k] != add
    ensures GroupTypeFlags[k].name == add.name <==> GroupTypeFlags[k] == add
  {
    var i := if add == ResourceGroup then 2 else if add == AccountGroup then 1 else 3;
    assert GroupTypeFlags[i] == add;
    TableNameFacts(k);
    TableNamesDistinct();
  }

  lemma AddedKnown(add: GroupFlag)
    requires add == ResourceGroup || add == AccountGroup || add == UniversalGroup
    ensures add.name in Names(GroupTypeFlags)
  {
    var i := if add == ResourceGroup then 2 else if add == AccountGroup then 1 else 3;
    assert GroupTypeFlags[i] == add;
    TableNameFacts(i);
  }

  /** Bit `k` of the scope-patched word. */
  lemma ScopeBit(w: bv32, add: GroupFlag, k: nat)
    requires add == ResourceGroup || add == AccountGroup || add == UniversalGroup
    requires k < |GroupTypeFlags|
    ensures ScopeWord(w, add.bit) & GroupTypeFlags[k].bit != 0 <==>
      if k == 1 || k == 2 || k == 3 then GroupTypeFlags[k] == add else w & GroupTypeFlags[k].bit != 0
    ensures w & GroupTypeMask == w ==> ScopeWord(w, add.bit) & GroupTypeMask == ScopeWord(w, add.bit)
  {
    assert k == 0 || k == 1 || k == 2 || k == 3 || k == 4 || k == 5 || k == 6;
  }

  /** The category step on names is the category patch on the word. */
  lemma CategoryStep(names: seq<string>, w: bv32, security: bool)
    requires Describes(names, w)
    ensures security ==> Describes(names + [SecurityEnabled.name], CategoryWord(w, true))
    ensures !security ==> Describes(Without(names, [SecurityEnabled.name]), CategoryWord(w, false))
  {
    CategoryListsBits(names, w);
    TableNameFacts(6);
    SecurityBit(w, 0);
  }

  lemma CategoryListsBits(names: seq<string>, w: bv32)
    requires ListsBitsOf(names, w)
    ensures ListsBitsOf(names + [SecurityEnabled.name], CategoryWord(w, true))
    ensures ListsBitsOf(Without(names, [SecurityEnabled.name]), CategoryWord(w, false))
  {
    var added := names + [SecurityEnabled.name];
    var dropped := Without(names, [SecurityEnabled.name]);
    forall k | 0 <= k < |GroupTypeFlags|
      ensures GroupTypeFlags[k].name in added <==> CategoryWord(w, true) & GroupTypeFlags[k].bit != 0
      ensures GroupTypeFlags[k].name in dropped <==> CategoryWord(w, false) & GroupTypeFlags[k].bit != 0
    {
      TableNameFacts(k);
      SecurityBit(w, k);
    }
  }

  /** Bit `k` of the word with bit 31 set or cleared. */
  lemma SecurityBit(w: bv32, k: nat)
    requires k < |GroupTypeFlags|
    ensures CategoryWord(w, true) & GroupTypeFlags[k].bit != 0 <==> k == 6 || w & GroupTypeFlags[k].bit != 0
    ensures CategoryWord(w, false) & GroupTypeFlags[k].bit != 0 <==> k != 6 && w & GroupTypeFlags[k].bit != 0
    ensures w & GroupTypeMask == w ==> CategoryWord(w, true) & GroupTypeMask == CategoryWord(w, true)
    ensures w & GroupTypeMask == w ==> CategoryWord(w, false) & GroupTypeMask == CategoryWord(w, false)
  {
    assert k == 0 || k == 1 || k == 2 || k == 3 || k == 4 || k == 5 || k == 6;
  }

  /** The scope step of `gen_gt`, on names, against the scope patch. */
  lemma ScopeStage(names: seq<string>, gt: bv32, scope: Option<string>)
    requires Describes(names, gt)
    ensures ApplyScope(names, scope).Ok? <==> ScopeOk(scope)
    ensures ApplyScope(names, scope).Err? ==> ApplyScope(names, scope).failure.exc == RuntimeError
    ensures ApplyScope(names, scope).Ok? ==> Describes(ApplyScope(names, scope).value, ScopedWord(gt, ScopeBitOf(scope)))
  {
    if Given(scope) && ScopeFlag(scope.value).Some? {
      ScopeStep(names, gt, ScopeFlag(scope.value).value);
    }
  }

  /** The category step of `gen_gt`, on names, against the category patch. */
  lemma CategoryStage(names: seq<string>, w: bv32, category: Option<string>)
    requires Describes(names, w)
    ensures ApplyCategory(names, category).Ok? <==> CategoryOk(category)
    ensures ApplyCategory(names, category).Err? ==> ApplyCategory(names, category).failure.exc == RuntimeError
    ensures ApplyCategory(names, category).Ok? ==> Describes(ApplyCategory(names, category).value, CategorizedWord(w, CategoryChoice(category)))
  {
    if CategoryChoice(category).Some? {
      CategoryStep(names, w, CategoryChoice(category).value);
    }
  }

  /**
   * `gen_gt` is the word patch followed by the acceptance rule: it answers
   * the patched word's signed value exactly when the stored word converts,
   * scope and category are known, and the patched word keeps the
   * mutual-exclusion rule. A bad stored word raises ValueError before the
   * scope and category are looked at; an unknown scope or category raises
   * RuntimeError.
   */
  lemma GenGtPatches(gt: bv32, scope: Option<string>, category: Option<string>)
    ensures GenGt(gt, scope, category).Ok? <==>
      FromWord(gt).Ok? && ScopeOk(scope) && CategoryOk(category) && !WordConflict(PatchGroupType(gt, scope, category))
    ensures GenGt(gt, scope, category).Ok? ==> GenGt(gt, scope, category).value == ToSigned(PatchGroupType(gt, scope, category))
    ensures !FromWord(gt).Ok? ==> RaisedAs(GenGt(gt, scope, category), ValueError)
    ensures FromWord(gt).Ok? && !(ScopeOk(scope) && CategoryOk(category)) ==> RaisedAs(GenGt(gt, scope, category), RuntimeError)
  {
    if !FromWord(gt).Ok? {
    } else if !(ScopeOk(scope) && CategoryOk(category)) {
      GenGtBadArgs(gt, scope, category);
    } else {
      var categorized := GenGtNames(gt, scope, category);
      PickedOfListed(categorized, PatchGroupType(gt, scope, category));
    }
  }

  /** An unknown scope or category raises RuntimeError once the stored word converts. */
  lemma GenGtBadArgs(gt: bv32, scope: Option<string>, category: Option<string>)
    requires FromWord(gt).Ok? && !(ScopeOk(scope) && CategoryOk(category))
    ensures RaisedAs(GenGt(gt, scope, category), RuntimeError)
  {
    if !ScopeOk(scope) {
      GenGtBadScope(gt, scope, category);
    } else {
      GenGtBadCategory(gt, scope, category);
    }
  }

  lemma GenGtBadScope(gt: bv32, scope: Option<string>, category: Option<string>)
    requires FromWord(gt).Ok? && !ScopeOk(scope)
    ensures RaisedAs(GenGt(gt, scope, category), RuntimeError)
  {
    assert RaisedAs(ApplyScope(FromWord(gt).value, scope), RuntimeError);
  }

  lemma GenGtBadCategory(gt: bv32, scope: Option<string>, category: Option<string>)
    requires FromWord(gt).Ok? && ScopeOk(scope) && !CategoryOk(category)
    ensures RaisedAs(GenGt(gt, scope, category), RuntimeError)
  {
    var scoped := ApplyScope(FromWord(gt).value, scope);
    assert scoped.Ok?;
    assert RaisedAs(ApplyCategory(scoped.value, category), RuntimeError);
  }

  /** When every step succeeds, `gen_gt` converts a list that describes the patched word. */
  lemma GenGtNames(gt: bv32, scope: Option<string>, category: Option<string>) returns (categorized: seq<string>)
    requires FromWord(gt).Ok? && ScopeOk(scope) && CategoryOk(category)
    ensures GenGt(gt, scope, category) == FromNames(categorized)
    ensures Describes(categorized, PatchGroupType(gt, scope, category))
  {
    var names := FromWord(gt).value;
    FromWordKnown(gt);
    ScopeStage(names, gt, scope);
    var scoped := ApplyScope(names, scope).value;
    CategoryStage(scoped, ScopedWord(gt, ScopeBitOf(scope)), category);
    categorized := ApplyCategory(scoped, category).value;
  }

  /** A known scope selects one of the three scope bits. */
  lemma ScopeBitOfOk(scope: Option<string>)
    ensures ScopeBitOk(ScopeBitOf(scope))
    ensures Given(scope) && ScopeFlag(scope.value).Some? ==> ScopeBitOf(scope) == Some(ScopeFlag(scope.value).value.bit)
  {
  }

  /** `x` has exactly scope bit `b` among the three scope bits and agrees with `gt` on bits 0 and 4-30. */
  predicate ScopedAs(x: bv32, gt: bv32, b: bv32) {
    x & 0xE == b && x & 0x7FFF_FFF1 == gt & 0x7FFF_FFF1
  }

  lemma ScopeWordScoped(gt: bv32, b: bv32)
    requires b == 2 || b == 4 || b == 8
    ensures ScopedAs(ScopeWord(gt, b), gt, b)
  {
  }

  lemma CategoryWordScoped(gt: bv32, b: bv32, security: bool)
    requires b == 2 || b == 4 || b == 8
    ensures ScopedAs(CategoryWord(ScopeWord(gt, b), security), gt, b)
  {
    if security {} else {}
  }

  /** After a scope patch and any category patch, exactly the chosen scope bit is set among the three. */
  lemma PatchScopeBits(gt: bv32, b: bv32, c: Option<bool>)
    requires b == 2 || b == 4 || b == 8
    ensures ScopedAs(CategorizedWord(ScopeWord(gt, b), c), gt, b)
  {
    match c
    case None =>
      assert CategorizedWord(ScopeWord(gt, b), c) == ScopeWord(gt, b);
      ScopeWordScoped(gt, b);
    case Some(security) =>
      assert CategorizedWord(ScopeWord(gt, b), c) == CategoryWord(ScopeWord(gt, b), security);
      CategoryWordScoped(gt, b, security);
  }

  /** With a scope, exactly the chosen scope bit remains among the three, and bits 0 and 4-30 are kept. */
  lemma GenGtScope(gt: bv32, scope: string, category: Option<string>)
    requires |scope| > 0 && ScopeFlag(scope).Some?
    ensures ScopedAs(PatchGroupType(gt, Some(scope), category), gt, ScopeFlag(scope).value.bit)
  {
    var b := ScopeFlag(scope).value.bit;
    ScopeBitOfOk(Some(scope));
    assert ScopedWord(gt, ScopeBitOf(Some(scope))) == ScopeWord(gt, b);
    PatchScopeBits(gt, b, CategoryChoice(category));
  }

  /** Bit 31 after the patch: set by Security, cleared by Distribution, else that of `w`. */
  predicate SecurityAs(x: bv32, w: bv32, c: Option<bool>) {
    if c.Some? then (x & 0x8000_0000 != 0) == c.value else x & 0x8000_0000 == w & 0x8000_0000
  }

  lemma ScopeWordSecurity(gt: bv32, b: bv32)
    requires b == 2 || b == 4 || b == 8
    ensures ScopeWord(gt, b) & 0x8000_0000 == gt & 0x8000_0000
  {
  }

  lemma ScopeKeepsSecurity(gt: bv32, s: Option<bv32>)
    requires ScopeBitOk(s)
    ensures ScopedWord(gt, s) & 0x8000_0000 == gt & 0x8000_0000
  {
    match s
    case None =>
    case Some(b) =>
      assert ScopedWord(gt, s) == ScopeWord(gt, b);
      ScopeWordSecurity(gt, b);
  }

  lemma CategoryWordSecurity(w: bv32, security: bool)
    ensures SecurityAs(CategoryWord(w, security), w, Some(security))
  {
    if security {} else {}
  }

  lemma CategorySecurity(w: bv32, c: Option<bool>)
    ensures SecurityAs(CategorizedWord(w, c), w, c)
  {
    match c
    case None =>
      assert CategorizedWord(w, c) == w;
    case Some(security) =>
      assert CategorizedWord(w, c) == CategoryWord(w, security);
      CategoryWordSecurity(w, security);
  }

  /** Security sets SECURITY_ENABLED, Distribution clears it, and no category keeps it. */
  lemma GenGtCategory(gt: bv32, scope: Option<string>, category: Option<string>)
    ensures category == Some("Security") ==> PatchGroupType(gt, scope, category) & SecurityEnabled.bit != 0
    ensures category == Some("Distribution") ==> PatchGroupType(gt, scope, category) & SecurityEnabled.bit == 0
    ensures !Given(category) ==> PatchGroupType(gt, scope, category) & SecurityEnabled.bit == gt & SecurityEnabled.bit
  {
    var w := ScopedWord(gt, ScopeBitOf(scope));
    ScopeBitOfOk(scope);
    ScopeKeepsSecurity(gt, ScopeBitOf(scope));
    CategorySecurity(w, CategoryChoice(category));
  }

  /** A word with an application bit and a scope bit breaks the mutual-exclusion rule. */
  lemma AppScopeConflict(w: bv32)
    requires w & 0x30 != 0 && (w & 0xE == 2 || w & 0xE == 4 || w & 0xE == 8)
    ensures WordConflict(w)
  {
  }

  /** An application group given any scope breaks the rule, so `gen_gt` raises. */
  lemma AppGroupWithScopeRaises(gt: bv32, scope: string, category: Option<string>)
    requires gt & 0x30 != 0 && |scope| > 0 && ScopeFlag(scope).Some?
    ensures GenGt(gt, Some(scope), category).Err?
  {
    var w := PatchGroupType(gt, Some(scope), category);
    GenGtScope(gt, scope, category);
    AppBitsKept(gt, w, ScopeFlag(scope).value.bit);
    AppScopeConflict(w);
    GenGtPatches(gt, Some(scope), category);
  }

  lemma AppBitsKept(gt: bv32, w: bv32, b: bv32)
    requires ScopedAs(w, gt, b)
    ensures w & 0x30 == gt & 0x30 && w & 0xE == b
  {
  }

  /** A builtin local group made a security group breaks the rule, so `gen_gt` raises. */
  lemma BuiltinSecurityRaises(gt: bv32, scope: Option<string>)
    requires gt & 0x1 != 0
    ensures GenGt(gt, scope, Some("Security")).Err?
  {
    GenGtPatches(gt, scope, Some("Security"));
  }

  /** Unknown scope or category names raise RuntimeError once the stored word converts. */
  lemma GenGtUnknownNames(gt: bv32, name: string)
    requires FromWord(gt).Ok? && |name| > 0 && ScopeFlag(name).None? && name != "Security" && name != "Distribution"
    ensures RaisedAs(GenGt(gt, Some(name), None), RuntimeError)
    ensures RaisedAs(GenGt(gt, None, Some(name)), RuntimeError)
  {
    GenGtPatches(gt, Some(name), None);
    GenGtPatches(gt, None, Some(name));
  }

  /** Patching twice with the same scope and category is patching once. */
  lemma PatchIdempotent(gt: bv32, scope: Option<string>, category: Option<string>)
    ensures PatchGroupType(PatchGroupType(gt, scope, category), scope, category) == PatchGroupType(gt, scope, category)
  {
    ScopeBitOfOk(scope);
    PatchWordIdempotent(gt, ScopeBitOf(scope), CategoryChoice(category));
  }

  lemma PatchWordIdempotent(gt: bv32, s: Option<bv32>, c: Option<bool>)
    requires ScopeBitOk(s)
    ensures CategorizedWord(ScopedWord(CategorizedWord(ScopedWord(gt, s), c), s), c) == CategorizedWord(ScopedWord(gt, s), c)
  {
    match s
    case None => {
      match c
      case None =>
      case Some(security) => CategoryOnlyIdempotent(gt, security);
    }
    case Some(b) => {
      match c
      case None => ScopeOnlyIdempotent(gt, b);
      case Some(security) => BothIdempotent(gt, b, security);
    }
  }

  lemma CategoryOnlyIdempotent(gt: bv32, security: bool)
    ensures CategorizedWord(ScopedWord(CategorizedWord(ScopedWord(gt, None), Some(security)), None), Some(security))
         == CategorizedWord(ScopedWord(gt, None), Some(security))
  {
    var once := CategoryWord(gt, security);
    assert ScopedWord(gt, None) == gt;
    assert CategorizedWord(gt, Some(security)) == once;
    assert ScopedWord(once, None) == once;
    assert CategorizedWord(once, Some(security)) == CategoryWord(once, security);
    CategoryWordTwice(gt, security);
  }

  lemma CategoryWordTwice(w: bv32, security: bool)
    ensures CategoryWord(CategoryWord(w, security), security) == CategoryWord(w, security)
  {
    if security {} else {}
  }

  lemma ScopeOnlyIdempotent(gt: bv32, b: bv32)
    ensures CategorizedWord(ScopedWord(CategorizedWord(ScopedWord(gt, Some(b)), None), Some(b)), None)
         == CategorizedWord(ScopedWord(gt, Some(b)), None)
  {
    var once := ScopeWord(gt, b);
    assert CategorizedWord(ScopedWord(gt, Some(b)), None) == once;
    assert CategorizedWord(ScopedWord(once, Some(b)), None) == ScopeWord(once, b);
    ScopeWordTwice(gt, b);
  }

  lemma ScopeWordTwice(gt: bv32, b: bv32)
    ensures ScopeWord(ScopeWord(gt, b), b) == ScopeWord(gt, b)
  {
  }

  lemma BothIdempotent(gt: bv32, b: bv32, security: bool)
    requires b == 2 || b == 4 || b == 8
    ensures CategorizedWord(ScopedWord(CategorizedWord(ScopedWord(gt, Some(b)), Some(security)), Some(b)), Some(security))
         == CategorizedWord(ScopedWord(gt, Some(b)), Some(security))
  {
    var once := CategoryWord(ScopeWord(gt, b), security);
    assert CategorizedWord(ScopedWord(gt, Some(b)), Some(security)) == once;
    assert CategorizedWord(ScopedWord(once, Some(b)), Some(security)) == CategoryWord(ScopeWord(once, b), security);
    BothWordsTwice(gt, b, security);
  }

  lemma BothWordsTwice(gt: bv32, b: bv32, security: bool)
    requires b == 2 || b == 4 || b == 8
    ensures CategoryWord(ScopeWord(CategoryWord(ScopeWord(gt, b), security), b), security) == CategoryWord(ScopeWord(gt, b), security)
  {
    if security {} else {}
  }
}
