// Computed attributes of a directory object (ATTR_EXTEND and
// return_groupscope in app/ds/func_ds_get.py) and the converted attribute
// values they are computed from.

module Derived {
  import opened Wrappers
  import opened Words
  import opened Text
  import opened GroupType
  import FuncGeneral

  /**
   * A converted attribute value as `object_processing` builds it: decoded
   * strings, integers, booleans, timestamps (whose calendar value is not
   * modelled: `Time` keeps the raw bytes), lists of these, and the
   * exception object `return_groupscope` returns rather than raises.
   */
  datatype Value =
    | Str(s: string)
    | Int(i: int)
    | Bool(b: bool)
    | Time(raw: seq<byte>)
    | List(items: seq<Value>)
    | ErrorObject(message: string)

  /** The stored attributes `ATTR_EXTEND` computes from, in its order. */
  datatype BaseAttr = UacBase | GroupTypeBase | PwdLastSetBase

  function BaseName(b: BaseAttr): string {
    match b
    case UacBase => "userAccountControl"
    case GroupTypeBase => "groupType"
    case PwdLastSetBase => "pwdLastSet"
  }

  /** The computed attributes. */
  datatype DerivedAttr =
    | Enabled | PasswordNeverExpires | AccountNotDelegated | PasswordNotRequired
    | GroupScope | GroupCategory
    | ChangePasswordAtLogon

  function DerivedName(d: DerivedAttr): string {
    match d
    case Enabled => "Enabled"
    case PasswordNeverExpires => "PasswordNeverExpires"
    case AccountNotDelegated => "AccountNotDelegated"
    case PasswordNotRequired => "PasswordNotRequired"
    case GroupScope => "GroupScope"
    case GroupCategory => "GroupCategory"
    case ChangePasswordAtLogon => "ChangePasswordAtLogon"
  }

  const Bases: seq<BaseAttr> := [UacBase, GroupTypeBase, PwdLastSetBase]

  /** The computed attributes of one stored attribute, in `ATTR_EXTEND` order. */
  function Rules(b: BaseAttr): seq<DerivedAttr> {
    match b
    case UacBase => [Enabled, PasswordNeverExpires, AccountNotDelegated, PasswordNotRequired]
    case GroupTypeBase => [GroupScope, GroupCategory]
    case PwdLastSetBase => [ChangePasswordAtLogon]
  }

  /** The stored attribute each computed attribute is computed from. */
  function BaseOf(d: DerivedAttr): (b: BaseAttr)
    ensures d in Rules(b)
  {
    match d
    case Enabled => UacBase
    case PasswordNeverExpires => UacBase
    case AccountNotDelegated => UacBase
    case PasswordNotRequired => UacBase
    case GroupScope => GroupTypeBase
    case GroupCategory => GroupTypeBase
    case ChangePasswordAtLogon => PwdLastSetBase
  }

  /** Every computed attribute, in the order the nested `ATTR_EXTEND` loops visit them. */
  const DerivedOrder: seq<DerivedAttr> := Rules(UacBase) + Rules(GroupTypeBase) + Rules(PwdLastSetBase)

  /** Each computed attribute belongs to its own stored attribute only. */
  lemma RulesPartition(b: BaseAttr, d: DerivedAttr)
    ensures d in Rules(b) <==> b == BaseOf(d)
  {
  }

  /** No computed name equals a stored name, in any casing. */
  lemma BaseNotDerived(b: BaseAttr, d: DerivedAttr)
    ensures !SameFolded(BaseName(b), DerivedName(d))
  {
    FoldDiffers(BaseName(b), DerivedName(d));
  }

  /** Distinct computed attributes have names that differ in any casing. */
  lemma DerivedNamesApart(d: DerivedAttr, e: DerivedAttr)
    requires d != e
    ensures !SameFolded(DerivedName(d), DerivedName(e))
  {
    FoldDiffers(DerivedName(d), DerivedName(e));
  }

  // ---------------------------------------------------------------------------
  // The computations (app/ds/func_ds_get.py:40-54)

  /** The integer Python's `&` sees: an int, or a bool as 0 or 1; anything else raises TypeError. */
  function IntOperand(v: Value): (r: Result<int>)
    ensures r.Ok? <==> v.Int? || v.Bool?
    ensures r.Err? ==> r.failure.exc == TypeError
    ensures v.Int? ==> r == Ok(v.i)
  {
    match v
    case Int(i) => Ok(i)
    case Bool(b) => Ok(if b then 1 else 0)
    case _ => Raise(TypeError, "unsupported operand type(s) for &")
  }

  /** A list item as a flag name: a non-string item equals no flag name, and neither does "". */
  function ItemName(v: Value): string {
    if v.Str? then v.s else ""
  }

  /**
   * The word that answers `convert_grouptype`'s `&` tests on the integer
   * `i`. Python's `&` is unbounded: inside the signed 32-bit range `i` is
   * its two's-complement word. Outside it, SECURITY_ENABLED (-2**31, every
   * bit from 31 up) is never among its bits, so `i` passes the mask only
   * with bits 6..30 clear and then reads as its low six bits; otherwise it
   * stands for bit 6 alone, which the mask refuses as well.
   */
  function GroupWord(i: int): bv32 {
    if InInt32(i) then WordOf(i)
    else if i % 0x8000_0000 < 64 then WordOf(i % 64)
    else 0x40
  }

  /**
   * What `convert_grouptype` receives: an int (a bool is one) is read
   * through `GroupWord`, a list as names, anything else is refused.
   */
  function GroupTypeRequest(v: Value): Request {
    match v
    case Int(i) => ByNumber(GroupWord(i))
    case Bool(b) => ByNumber(if b then 1 else 0)
    case List(items) => ByNames(seq(|items|, k requires 0 <= k < |items| => ItemName(items[k])))
    case _ => ByOther
  }

  /**
   * The flag names `convert_grouptype(v)` lists. A list converts to an
   * integer, and `name in <int>` then raises TypeError.
   */
  function FlagsOf(v: Value): (r: Result<seq<string>>)
    ensures v.Int? ==> r == FromWord(GroupWord(v.i))
  {
    var c :- ConvertGroupType(GroupTypeRequest(v));
    match c
    case FlagNames(names) => Ok(names)
    case Number(_) => Raise(TypeError, "argument of type 'int' is not iterable")
  }

  /**
   * An integer outside the signed 32-bit range converts, as Python's `&`
   * reads it, like its low six bits when bits 6..30 are clear, and raises
   * ValueError otherwise.
   */
  lemma WideGroupType(i: int)
    requires !InInt32(i)
    ensures i % 0x8000_0000 < 64 ==> FlagsOf(Int(i)) == FlagsOf(Int(i % 64))
    ensures i % 0x8000_0000 >= 64 ==> RaisedAs(FlagsOf(Int(i)), ValueError)
  {
    assert InInt32(i % 64);
  }

  /**
   * `2147483648 & -2147483648` is not `-2147483648`: 2**31 converts without
   * SECURITY_ENABLED, while -2**31, its 32-bit word, converts with it.
   */
  lemma GroupTypeHighBit()
    ensures FlagsOf(Int(0x8000_0000)).Ok? && SecurityEnabled.name !in FlagsOf(Int(0x8000_0000)).value
    ensures FlagsOf(Int(-0x8000_0000)).Ok? && SecurityEnabled.name in FlagsOf(Int(-0x8000_0000)).value
  {
    HighWords();
    SecurityListed(0);
    SecurityListed(0x8000_0000);
  }

  lemma HighWords()
    ensures GroupWord(0x8000_0000) == 0 && GroupWord(-0x8000_0000) == 0x8000_0000
  {
    assert 0x8000_0000 % 0x8000_0000 == 0;
    assert WordOf(0) == 0;
    assert ToSigned(0x8000_0000) == -0x8000_0000;
    WordOfSigned(0x8000_0000);
  }

  /** The word converts, and lists SECURITY_ENABLED exactly when bit 31 is set. */
  lemma SecurityListed(w: bv32)
    requires w == 0 || w == 0x8000_0000
    ensures FromWord(w).Ok?
    ensures SecurityEnabled.name in FromWord(w).value <==> w & 0x8000_0000 != 0
  {
    assert GroupTypeFlags[6] == SecurityEnabled;
  }

  /**
   * `return_groupscope`: Global for ACCOUNT_GROUP, DomainLocal for
   * RESOURCE_GROUP, Universal for UNIVERSAL_GROUP, in that order; with none
   * of them the exception object is returned, not raised.
   */
  function ReturnGroupScope(flags: seq<string>): (r: Value)
    ensures r.Str? <==> AccountGroup.name in flags || ResourceGroup.name in flags || UniversalGroup.name in flags
    ensures r == Str("Global") <==> AccountGroup.name in flags
  {
    if AccountGroup.name in flags then Str("Global")
    else if ResourceGroup.name in flags then Str("DomainLocal")
    else if UniversalGroup.name in flags then Str("Universal")
    else ErrorObject("Error Search Flag Group")
  }

  /** One `ATTR_EXTEND` handler applied to the stored attribute's converted value. */
  function Derive(d: DerivedAttr, v: Value): (r: Result<Value>)
    ensures BaseOf(d) == UacBase ==> (r.Ok? <==> v.Int? || v.Bool?) && (r.Ok? ==> r.value.Bool?)
    ensures BaseOf(d) == GroupTypeBase && r.Err? ==> r.failure.exc == TypeError || r.failure.exc == ValueError
    ensures d == GroupCategory && r.Ok? ==> r.value == Str("Security") || r.value == Str("Distribution")
    ensures d == ChangePasswordAtLogon ==> r.Ok? && r.value.Bool?
  {
    match d
    case Enabled =>
      var n :- IntOperand(v);
      Ok(Bool(!HasBit(n, FuncGeneral.AccountDisable.pos)))
    case PasswordNeverExpires =>
      var n :- IntOperand(v);
      Ok(Bool(HasBit(n, FuncGeneral.DontExpirePassword.pos)))
    case AccountNotDelegated =>
      var n :- IntOperand(v);
      Ok(Bool(HasBit(n, FuncGeneral.NotDelegated.pos)))
    case PasswordNotRequired =>
      var n :- IntOperand(v);
      Ok(Bool(HasBit(n, FuncGeneral.PasswdNotReqd.pos)))
    case GroupScope =>
      var flags :- FlagsOf(v);
      Ok(ReturnGroupScope(flags))
    case GroupCategory =>
      var flags :- FlagsOf(v);
      Ok(Str(if SecurityEnabled.name in flags then "Security" else "Distribution"))
    case ChangePasswordAtLogon =>
      Ok(Bool(v == Int(0) || v == Bool(false)))
  }

  // ---------------------------------------------------------------------------
  // Reading back what the write side (app/ds/func_general.py) produced

  /** The value `gen_uac` targets for one toggle: the toggle itself when given, else the flag as stored. */
  function Expected(t: Option<bool>, current: bool): bool {
    if t.Some? then t.value else current
  }

  /**
   * Each account flag computed from a `gen_uac` result reads back the
   * toggle that produced it, or the flag of the input when the toggle is
   * `None`.
   */
  lemma UacReadBack(uac: int, enabled: Option<bool>, passwordNeverExpires: Option<bool>,
                    accountNotDelegated: Option<bool>, passwordNotRequired: Option<bool>)
    ensures var r := Int(FuncGeneral.GenUac(uac, enabled, passwordNeverExpires, accountNotDelegated, passwordNotRequired));
      && Derive(Enabled, r) == Ok(Bool(Expected(enabled, !HasBit(uac, 1))))
      && Derive(PasswordNeverExpires, r) == Ok(Bool(Expected(passwordNeverExpires, HasBit(uac, 16))))
      && Derive(AccountNotDelegated, r) == Ok(Bool(Expected(accountNotDelegated, HasBit(uac, 20))))
      && Derive(PasswordNotRequired, r) == Ok(Bool(Expected(passwordNotRequired, HasBit(uac, 5))))
  {
    FuncGeneral.ToggledFlags();
  }

  /** The scope `return_groupscope` reports for a word, by its scope bits. */
  function ScopeOfWord(w: bv32): Value {
    if w & 0x2 != 0 then Str("Global")
    else if w & 0x4 != 0 then Str("DomainLocal")
    else if w & 0x8 != 0 then Str("Universal")
    else ErrorObject("Error Search Flag Group")
  }

  /** A stored groupType converts as its own word. */
  lemma FlagsOfSigned(w: bv32)
    ensures FlagsOf(Int(ToSigned(w))) == FromWord(w)
  {
    WordOfSigned(w);
    assert InInt32(ToSigned(w));
    assert GroupWord(ToSigned(w)) == w;
  }

  /** The group's scope and category read from a stored groupType, by its bits. */
  lemma GroupTypeReadBack(w: bv32)
    requires FromWord(w).Ok?
    ensures Derive(GroupScope, Int(ToSigned(w))) == Ok(ScopeOfWord(w))
    ensures Derive(GroupCategory, Int(ToSigned(w))) == Ok(Str(if w & 0x8000_0000 != 0 then "Security" else "Distribution"))
  {
    FlagsOfSigned(w);
    GroupNamesBits(w);
    assert ReturnGroupScope(FromWord(w).value) == ScopeOfWord(w);
  }

  /** The scope and category names the flag table lists for a word, by its bits. */
  lemma GroupNamesBits(w: bv32)
    requires FromWord(w).Ok?
    ensures AccountGroup.name in FromWord(w).value <==> w & 0x2 != 0
    ensures ResourceGroup.name in FromWord(w).value <==> w & 0x4 != 0
    ensures UniversalGroup.name in FromWord(w).value <==> w & 0x8 != 0
    ensures SecurityEnabled.name in FromWord(w).value <==> w & 0x8000_0000 != 0
  {
    assert GroupTypeFlags[1] == AccountGroup && GroupTypeFlags[2] == ResourceGroup;
    assert GroupTypeFlags[3] == UniversalGroup && GroupTypeFlags[6] == SecurityEnabled;
  }

  /** A stored groupType the flag table refuses makes both group attributes raise ValueError. */
  lemma GroupTypeUnreadable(w: bv32)
    requires FromWord(w).Err?
    ensures RaisedAs(Derive(GroupScope, Int(ToSigned(w))), ValueError)
    ensures RaisedAs(Derive(GroupCategory, Int(ToSigned(w))), ValueError)
  {
    FlagsOfSigned(w);
  }

  /** The word `gen_gt` produced is one the flag table accepts. */
  lemma GenGtWord(gt: bv32, scope: Option<string>, category: Option<string>)
    requires FuncGeneral.GenGt(gt, scope, category).Ok?
    ensures FuncGeneral.GenGt(gt, scope, category).value == ToSigned(FuncGeneral.PatchGroupType(gt, scope, category))
    ensures FromWord(FuncGeneral.PatchGroupType(gt, scope, category)).Ok?
  {
    FuncGeneral.GenGtPatches(gt, scope, category);
    var _ := FuncGeneral.GenGtNames(gt, scope, category);
  }

  /** A scope written by `gen_gt` is the scope the group reads back. */
  lemma GroupScopeRoundTrip(gt: bv32, scope: string, category: Option<string>)
    requires FuncGeneral.GenGt(gt, Some(scope), category).Ok?
    requires FuncGeneral.ScopeFlag(scope).Some?
    ensures Derive(GroupScope, Int(FuncGeneral.GenGt(gt, Some(scope), category).value)) == Ok(Str(scope))
  {
    var w := FuncGeneral.PatchGroupType(gt, Some(scope), category);
    GenGtWord(gt, Some(scope), category);
    GroupTypeReadBack(w);
    FuncGeneral.GenGtScope(gt, scope, category);
    ScopeOfScoped(w, scope);
  }

  lemma ScopeOfScoped(w: bv32, scope: string)
    requires FuncGeneral.ScopeFlag(scope).Some? && w & 0xE == FuncGeneral.ScopeFlag(scope).value.bit
    ensures ScopeOfWord(w) == Str(scope)
  {
    if scope == "Global" {
      assert w & 0x2 != 0;
    } else if scope == "DomainLocal" {
      assert w & 0x2 == 0 && w & 0x4 != 0;
    } else {
      assert w & 0x2 == 0 && w & 0x4 == 0 && w & 0x8 != 0;
    }
  }

  /** A category written by `gen_gt` is the category the group reads back. */
  lemma GroupCategoryRoundTrip(gt: bv32, scope: Option<string>, category: string)
    requires FuncGeneral.GenGt(gt, scope, Some(category)).Ok?
    requires category == "Security" || category == "Distribution"
    ensures Derive(GroupCategory, Int(FuncGeneral.GenGt(gt, scope, Some(category)).value)) == Ok(Str(category))
  {
    var w := FuncGeneral.PatchGroupType(gt, scope, Some(category));
    GenGtWord(gt, scope, Some(category));
    GroupTypeReadBack(w);
    FuncGeneral.GenGtCategory(gt, scope, Some(category));
  }
}
