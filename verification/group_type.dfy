/**
 * groupType flags (section 2.2.12 of MS-ADTS) and `convert_grouptype`
 * (app/ds/convertors_value.py, repeated in ds/_convertors_value.py).
 *
 * The attribute is a signed 32-bit integer; here it is the 32-bit word
 * `bv32`, and `ToSigned` gives the Python integer. SECURITY_ENABLED, written
 * -2147483648 in the source, is bit 31. Flags carry a mutual-exclusion group:
 * at most one flag of each group may be set.
 */
module GroupType {
  import opened Wrappers
  import opened Words

  datatype GroupFlag = GroupFlag(name: string, bit: bv32, mutex: nat)

  const BuiltinLocalGroup := GroupFlag("BUILTIN_LOCAL_GROUP", 0x1, 1)
  const AccountGroup := GroupFlag("ACCOUNT_GROUP", 0x2, 2)
  const ResourceGroup := GroupFlag("RESOURCE_GROUP", 0x4, 2)
  const UniversalGroup := GroupFlag("UNIVERSAL_GROUP", 0x8, 2)
  const AppBasic := GroupFlag("APP_BASIC", 0x10, 2)
  const AppQuery := GroupFlag("APP_QUERY", 0x20, 2)
  const SecurityEnabled := GroupFlag("SECURITY_ENABLED", 0x8000_0000, 1)

  /** The flag table in source order (app/ds/convertors_value.py:26-34). */
  const GroupTypeFlags: seq<GroupFlag> :=
    [BuiltinLocalGroup, AccountGroup, ResourceGroup, UniversalGroup, AppBasic, AppQuery, SecurityEnabled]

  /** The legacy copy of the table (ds/_convertors_value.py:47-55). */
  const LegacyGroupTypeFlags: seq<GroupFlag> :=
    [GroupFlag("BUILTIN_LOCAL_GROUP", 0x1, 1), GroupFlag("ACCOUNT_GROUP", 0x2, 2),
     GroupFlag("RESOURCE_GROUP", 0x4, 2), GroupFlag("UNIVERSAL_GROUP", 0x8, 2),
     GroupFlag("APP_BASIC", 0x10, 2), GroupFlag("APP_QUERY", 0x20, 2),
     GroupFlag("SECURITY_ENABLED", 0x8000_0000, 1)]

  /**
   * The sum of all flag values, -2147483585 as a Python integer: every bit
   * except 6..30 is set, so `request & mask == request` holds exactly when
   * bits 6..30 are clear.
   */
  const GroupTypeMask: bv32 := 0x8000_003F

  lemma SecurityEnabledIsMinInt32()
    ensures ToSigned(SecurityEnabled.bit) == -2147483648
  {
  }

  /** The flags of `t` that `keep` selects, in table order. */
  function Keep(t: seq<GroupFlag>, keep: GroupFlag -> bool): (r: seq<GroupFlag>)
    ensures |r| <= |t|
  {
    if |t| == 0 then [] else Opt(keep(t[0]), t[0]) + Keep(t[1..], keep)
  }

  function Opt(b: bool, f: GroupFlag): seq<GroupFlag> {
    if b then [f] else []
  }

  function Names(t: seq<GroupFlag>): (r: seq<string>)
    ensures |r| == |t|
    ensures forall i :: 0 <= i < |t| ==> r[i] == t[i].name
  {
    if |t| == 0 then [] else [t[0].name] + Names(t[1..])
  }

  /** The Python value of a flag: its word read as a signed integer. */
  function Value(f: GroupFlag): int {
    ToSigned(f.bit)
  }

  /** Python's `sum` of the flag values. */
  function SumValues(t: seq<GroupFlag>): int {
    if |t| == 0 then 0 else Value(t[0]) + SumValues(t[1..])
  }

  function MutexGroups(t: seq<GroupFlag>): (r: seq<nat>)
    ensures |r| == |t|
  {
    if |t| == 0 then [] else [t[0].mutex] + MutexGroups(t[1..])
  }

  /** Some value occurs twice: Python's `len(xs) != len(set(xs))`. */
  predicate HasDuplicates(xs: seq<nat>) {
    |xs| > 0 && (xs[0] in xs[1..] || HasDuplicates(xs[1..]))
  }

  /** Two selected flags share a mutual-exclusion group. */
  predicate MutexConflict(t: seq<GroupFlag>) {
    HasDuplicates(MutexGroups(t))
  }

  /** `flag['name'] in request` for every item: all requested names are known. */
  predicate AllKnown(t: seq<GroupFlag>, request: seq<string>) {
    forall x | x in request :: x in Names(t)
  }

  /** Selects the flags named in `request`. */
  function NamedIn(request: seq<string>): GroupFlag -> bool {
    (f: GroupFlag) => f.name in request
  }

  /** Selects the flags whose bits are all set in `w` (`request & value == value`). */
  function SetIn(w: bv32): GroupFlag -> bool {
    (f: GroupFlag) => w & f.bit == f.bit
  }

  /**
   * `convert_grouptype` on a list of names, for the flag table `t`: it
   * converts exactly when every name is known and no two named positions
   * share a mutual-exclusion group, and then sums the named positions.
   */
  function ConvertNames(t: seq<GroupFlag>, request: seq<string>): (r: Result<int>)
    ensures r.Err? ==> r.failure.exc == ValueError
    ensures r.Ok? <==> AllKnown(t, request) && !Clash(t, NamedIn(request))
    ensures r.Ok? ==> r.value == SumFrom(t, NamedIn(request), 0)
  {
    if !AllKnown(t, request) then Raise(ValueError, "unknown group type name")
    else
      var result := Keep(t, NamedIn(request));
      ConflictOfKeep(t, NamedIn(request));
      SumOfKeep(t, NamedIn(request), 0);
      assert t[0..] == t;
      if MutexConflict(result) then Raise(ValueError, "mutually exclusive group type flags")
      else Ok(SumValues(result))
  }

  /**
   * `convert_grouptype` on an integer, for the flag table `t` and its mask:
   * it converts exactly when no bit lies outside the mask and no two set
   * positions share a mutual-exclusion group, and then lists the name of
   * every position whose bits are set.
   */
  function ConvertWord(t: seq<GroupFlag>, mask: bv32, request: bv32): (r: Result<seq<string>>)
    ensures r.Err? ==> r.failure.exc == ValueError
    ensures r.Ok? <==> request & mask == request && !Clash(t, SetIn(request))
    ensures r.Ok? ==> forall x :: x in r.value <==> exists i :: 0 <= i < |t| && SetIn(request)(t[i]) && t[i].name == x
  {
    if request & mask != request then Raise(ValueError, "invalid group type value")
    else
      var result := Keep(t, SetIn(request));
      ConflictOfKeep(t, SetIn(request));
      KeptNamesAll(t, SetIn(request));
      if MutexConflict(result) then Raise(ValueError, "mutually exclusive group type flags")
      else Ok(Names(result))
  }

  /** `names` holds the name of a table flag exactly when the flag's bit is set in `w`. */
  predicate ListsBitsOf(names: seq<string>, w: bv32) {
    forall k | 0 <= k < |GroupTypeFlags| :: GroupTypeFlags[k].name in names <==> w & GroupTypeFlags[k].bit != 0
  }

  /** The argument of `convert_grouptype`: a list or tuple of names, an integer, or anything else. */
  datatype Request = ByNames(names: seq<string>) | ByNumber(word: bv32) | ByOther

  datatype Converted = Number(value: int) | FlagNames(names: seq<string>)

  /** `convert_grouptype` (app/ds/convertors_value.py:41-74). */
  function ConvertGroupType(request: Request): (r: Result<Converted>)
    ensures request.ByOther? ==> RaisedAs(r, TypeError)
    ensures request.ByNames? && r.Ok? ==> r.value.Number?
    ensures request.ByNumber? && r.Ok? ==> r.value.FlagNames?
  {
    match request
    case ByNames(names) =>
      var w :- FromNames(names);
      Ok(Number(w))
    case ByNumber(w) =>
      var names :- FromWord(w);
      Ok(FlagNames(names))
    case ByOther => Raise(TypeError, "list, tuple or int expected")
  }

  /** Names to integer, app table (app/ds/convertors_value.py:53-62). */
  function FromNames(request: seq<string>): (r: Result<int>)
    ensures r.Err? ==> r.failure.exc == ValueError
    ensures r.Ok? <==> AllKnown(GroupTypeFlags, request) && !WordConflict(Picked(request))
    ensures r.Ok? ==> r.value == ToSigned(Picked(request))
  {
    KeepByName(request);
    ConvertNames(GroupTypeFlags, request)
  }

  /** Integer to names, app table (app/ds/convertors_value.py:63-72). */
  function FromWord(w: bv32): (r: Result<seq<string>>)
    ensures r.Err? ==> r.failure.exc == ValueError
    ensures r.Ok? <==> w & GroupTypeMask == w && !WordConflict(w)
    ensures r.Ok? ==> ListsBitsOf(r.value, w)
  {
    ConvertWordFacts(w);
    ConvertWord(GroupTypeFlags, GroupTypeMask, w)
  }

  /**
   * The legacy copy (ds/_convertors_value.py:36-78), over its own table: it
   * raises and answers exactly as the app converter does.
   */
  function LegacyConvertGroupType(request: Request): (r: Result<Converted>)
    ensures r == ConvertGroupType(request)
  {
    assert LegacyGroupTypeFlags == GroupTypeFlags;
    match request
    case ByNames(names) =>
      var v :- ConvertNames(LegacyGroupTypeFlags, names);
      Ok(Number(v))
    case ByNumber(w) =>
      var names :- ConvertWord(LegacyGroupTypeFlags, GroupTypeMask, w);
      Ok(FlagNames(names))
    case ByOther => Raise(TypeError, "list, tuple or int expected")
  }

  // ---------------------------------------------------------------------------
  // The filter, position by position

  /** Two kept positions of `t` share a mutual-exclusion group. */
  predicate Clash(t: seq<GroupFlag>, keep: GroupFlag -> bool) {
    exists i, j :: 0 <= i < j < |t| && keep(t[i]) && keep(t[j]) && t[i].mutex == t[j].mutex
  }

  /** The sum of the values kept from position `i` on. */
  function SumFrom(t: seq<GroupFlag>, keep: GroupFlag -> bool, i: nat): int
    decreases |t| - i
  {
    if i >= |t| then 0 else (if keep(t[i]) then Value(t[i]) else 0) + SumFrom(t, keep, i + 1)
  }

  /** Prepending an optional flag. */
  lemma OptCons(b: bool, f: GroupFlag, rest: seq<GroupFlag>)
    ensures SumValues(Opt(b, f) + rest) == (if b then Value(f) else 0) + SumValues(rest)
    ensures Names(Opt(b, f) + rest) == (if b then [f.name] else []) + Names(rest)
    ensures MutexGroups(Opt(b, f) + rest) == (if b then [f.mutex] else []) + MutexGroups(rest)
  {
    if b {
      assert (Opt(b, f) + rest)[1..] == rest;
    } else {
      assert Opt(b, f) + rest == rest;
    }
  }

  /** Prepending an optional group number. */
  lemma GroupsCons(b: bool, m: nat, rest: seq<nat>)
    ensures HasDuplicates((if b then [m] else []) + rest) <==> (b && m in rest) || HasDuplicates(rest)
  {
    if b {
      assert ([m] + rest)[1..] == rest;
    } else {
      assert [] + rest == rest;
    }
  }

  /** A name is among the kept names exactly when some kept position carries it. */
  lemma {:induction false} NamesOfKeep(t: seq<GroupFlag>, keep: GroupFlag -> bool, x: string)
    ensures x in Names(Keep(t, keep)) <==> exists i :: 0 <= i < |t| && keep(t[i]) && t[i].name == x
    decreases |t|
  {
    if |t| > 0 {
      NamesOfKeep(t[1..], keep, x);
      OptCons(keep(t[0]), t[0], Keep(t[1..], keep));
      if exists i :: 0 <= i < |t| && keep(t[i]) && t[i].name == x {
        var i :| 0 <= i < |t| && keep(t[i]) && t[i].name == x;
        if i > 0 {
          assert t[1..][i - 1] == t[i];
        }
      }
      if x in Names(Keep(t[1..], keep)) {
        var j :| 0 <= j < |t[1..]| && keep(t[1..][j]) && t[1..][j].name == x;
        assert t[j + 1] == t[1..][j];
      }
    }
  }

  /** `NamesOfKeep` for every name at once. */
  lemma KeptNamesAll(t: seq<GroupFlag>, keep: GroupFlag -> bool)
    ensures forall x :: x in Names(Keep(t, keep)) <==> exists i :: 0 <= i < |t| && keep(t[i]) && t[i].name == x
  {
    forall x ensures x in Names(Keep(t, keep)) <==> exists i :: 0 <= i < |t| && keep(t[i]) && t[i].name == x {
      NamesOfKeep(t, keep, x);
    }
  }

  /** A group number is among the kept groups exactly when some kept position carries it. */
  lemma {:induction false} GroupsOfKeep(t: seq<GroupFlag>, keep: GroupFlag -> bool, m: nat)
    ensures m in MutexGroups(Keep(t, keep)) <==> exists i :: 0 <= i < |t| && keep(t[i]) && t[i].mutex == m
    decreases |t|
  {
    if |t| > 0 {
      GroupsOfKeep(t[1..], keep, m);
      OptCons(keep(t[0]), t[0], Keep(t[1..], keep));
      if exists i :: 0 <= i < |t| && keep(t[i]) && t[i].mutex == m {
        var i :| 0 <= i < |t| && keep(t[i]) && t[i].mutex == m;
        if i > 0 {
          assert t[1..][i - 1] == t[i];
        }
      }
      if m in MutexGroups(Keep(t[1..], keep)) {
        var j :| 0 <= j < |t[1..]| && keep(t[1..][j]) && t[1..][j].mutex == m;
        assert t[j + 1] == t[1..][j];
      }
    }
  }

  /** A clash either involves the first position or lies within the rest. */
  lemma ClashCons(t: seq<GroupFlag>, keep: GroupFlag -> bool)
    requires |t| > 0
    ensures Clash(t, keep) <==>
      (keep(t[0]) && exists j :: 0 <= j < |t[1..]| && keep(t[1..][j]) && t[1..][j].mutex == t[0].mutex)
      || Clash(t[1..], keep)
  {
    if Clash(t, keep) {
      var i, j :| 0 <= i < j < |t| && keep(t[i]) && keep(t[j]) && t[i].mutex == t[j].mutex;
      assert t[1..][j - 1] == t[j];
      if i > 0 {
        assert t[1..][i - 1] == t[i];
      }
    }
    if Clash(t[1..], keep) {
      var i, j :| 0 <= i < j < |t[1..]| && keep(t[1..][i]) && keep(t[1..][j]) && t[1..][i].mutex == t[1..][j].mutex;
      assert t[i + 1] == t[1..][i] && t[j + 1] == t[1..][j];
    }
    if keep(t[0]) && exists j :: 0 <= j < |t[1..]| && keep(t[1..][j]) && t[1..][j].mutex == t[0].mutex {
      var j :| 0 <= j < |t[1..]| && keep(t[1..][j]) && t[1..][j].mutex == t[0].mutex;
      assert t[j + 1] == t[1..][j];
    }
  }

  /** The duplicate check on the kept groups finds exactly the clashing positions. */
  lemma {:induction false} ConflictOfKeep(t: seq<GroupFlag>, keep: GroupFlag -> bool)
    ensures MutexConflict(Keep(t, keep)) <==> Clash(t, keep)
    decreases |t|
  {
    if |t| > 0 {
      var rest := Keep(t[1..], keep);
      ConflictOfKeep(t[1..], keep);
      OptCons(keep(t[0]), t[0], rest);
      GroupsCons(keep(t[0]), t[0].mutex, MutexGroups(rest));
      GroupsOfKeep(t[1..], keep, t[0].mutex);
      ClashCons(t, keep);
    }
  }

  /** Python's sum over the kept flags, position by position. */
  lemma {:induction false} SumOfKeep(t: seq<GroupFlag>, keep: GroupFlag -> bool, i: nat)
    requires i <= |t|
    ensures SumValues(Keep(t[i..], keep)) == SumFrom(t, keep, i)
    decreases |t| - i
  {
    if i < |t| {
      SumOfKeep(t, keep, i + 1);
      assert t[i..][1..] == t[i + 1..];
      OptCons(keep(t[i]), t[i], Keep(t[i + 1..], keep));
    }
  }

  // ---------------------------------------------------------------------------
  // The seven flags of the table

  /** The word with the seven table flags selected by seven booleans. */
  function Word(b: bool, a: bool, r: bool, u: bool, ab: bool, aq: bool, s: bool): bv32 {
    Bit(b, 0x1) | Bit(a, 0x2) | Bit(r, 0x4) | Bit(u, 0x8) | Bit(ab, 0x10) | Bit(aq, 0x20) | Bit(s, 0x8000_0000)
  }

  /** Two flags of one mutual-exclusion group among the seven. */
  predicate BoolConflict(b: bool, a: bool, r: bool, u: bool, ab: bool, aq: bool, s: bool) {
    (b && s) || (a && (r || u || ab || aq)) || (r && (u || ab || aq)) || (u && (ab || aq)) || (ab && aq)
  }

  /** The word of the flags `keep` selects. */
  function PickedBits(keep: GroupFlag -> bool): bv32 {
    Word(keep(BuiltinLocalGroup), keep(AccountGroup), keep(ResourceGroup), keep(UniversalGroup),
         keep(AppBasic), keep(AppQuery), keep(SecurityEnabled))
  }

  /** The word of the table flags named in `request`. */
  function Picked(request: seq<string>): bv32 {
    PickedBits(NamedIn(request))
  }

  /**
   * The mutual-exclusion rule on a word: BUILTIN_LOCAL_GROUP together with
   * SECURITY_ENABLED, or more than one of the scope and application bits.
   */
  predicate WordConflict(w: bv32) {
    w & 0x8000_0001 == 0x8000_0001 || (w & 0x3E) & ((w & 0x3E) - 1) != 0
  }

  lemma FlagValues()
    ensures Value(BuiltinLocalGroup) == 1 && Value(AccountGroup) == 2 && Value(ResourceGroup) == 4
    ensures Value(UniversalGroup) == 8 && Value(AppBasic) == 16 && Value(AppQuery) == 32
    ensures Value(SecurityEnabled) == -0x8000_0000
  {
  }

  /** No two table entries share a name. */
  lemma TableNamesDistinct()
    ensures forall i, j | 0 <= i < j < |GroupTypeFlags| :: GroupTypeFlags[i].name != GroupTypeFlags[j].name
  {
    assert "APP_BASIC"[4] != "APP_QUERY"[4];
  }

  /** A clashing pair of positions witnesses a clash. */
  lemma ClashAt(t: seq<GroupFlag>, keep: GroupFlag -> bool, i: nat, j: nat)
    requires i < j < |t| && keep(t[i]) && keep(t[j]) && t[i].mutex == t[j].mutex
    ensures Clash(t, keep)
  {
  }

  /** The clash among the table's kept positions is the boolean rule. */
  lemma TableClash(keep: GroupFlag -> bool)
    ensures Clash(GroupTypeFlags, keep)
      <==> BoolConflict(keep(BuiltinLocalGroup), keep(AccountGroup), keep(ResourceGroup), keep(UniversalGroup),
                        keep(AppBasic), keep(AppQuery), keep(SecurityEnabled))
  {
    var t := GroupTypeFlags;
    var b, a, r, u, ab, aq, s := keep(t[0]), keep(t[1]), keep(t[2]), keep(t[3]), keep(t[4]), keep(t[5]), keep(t[6]);
    if Clash(t, keep) {
      var i, j :| 0 <= i < j < |t| && keep(t[i]) && keep(t[j]) && t[i].mutex == t[j].mutex;
      assert i == 0 || i == 1 || i == 2 || i == 3 || i == 4 || i == 5;
      assert j == 1 || j == 2 || j == 3 || j == 4 || j == 5 || j == 6;
      assert BoolConflict(b, a, r, u, ab, aq, s);
    }
    if b && s { ClashAt(t, keep, 0, 6); }
    else if a && r { ClashAt(t, keep, 1, 2); }
    else if a && u { ClashAt(t, keep, 1, 3); }
    else if a && ab { ClashAt(t, keep, 1, 4); }
    else if a && aq { ClashAt(t, keep, 1, 5); }
    else if r && u { ClashAt(t, keep, 2, 3); }
    else if r && ab { ClashAt(t, keep, 2, 4); }
    else if r && aq { ClashAt(t, keep, 2, 5); }
    else if u && ab { ClashAt(t, keep, 3, 4); }
    else if u && aq { ClashAt(t, keep, 3, 5); }
    else if ab && aq { ClashAt(t, keep, 4, 5); }
  }

  /** The sum over the table's kept positions, written out. */
  lemma TableSum(keep: GroupFlag -> bool)
    ensures SumValues(Keep(GroupTypeFlags, keep))
      == (if keep(BuiltinLocalGroup) then 1 else 0) + (if keep(AccountGroup) then 2 else 0)
       + (if keep(ResourceGroup) then 4 else 0) + (if keep(UniversalGroup) then 8 else 0)
       + (if keep(AppBasic) then 16 else 0) + (if keep(AppQuery) then 32 else 0)
       + (if keep(SecurityEnabled) then -0x8000_0000 else 0)
  {
    var t := GroupTypeFlags;
    SumOfKeep(t, keep, 0);
    assert t[0..] == t;
    FlagValues();
    assert SumFrom(t, keep, 7) == 0;
    assert SumFrom(t, keep, 6) == (if keep(t[6]) then -0x8000_0000 else 0);
    assert SumFrom(t, keep, 5) == (if keep(t[5]) then 32 else 0) + SumFrom(t, keep, 6);
    assert SumFrom(t, keep, 4) == (if keep(t[4]) then 16 else 0) + SumFrom(t, keep, 5);
    assert SumFrom(t, keep, 3) == (if keep(t[3]) then 8 else 0) + SumFrom(t, keep, 4);
    assert SumFrom(t, keep, 2) == (if keep(t[2]) then 4 else 0) + SumFrom(t, keep, 3);
    assert SumFrom(t, keep, 1) == (if keep(t[1]) then 2 else 0) + SumFrom(t, keep, 2);
  }

  /** A table name is kept exactly when its entry is kept. */
  lemma TableNames(keep: GroupFlag -> bool, k: nat)
    requires k < |GroupTypeFlags|
    ensures GroupTypeFlags[k].name in Names(Keep(GroupTypeFlags, keep)) <==> keep(GroupTypeFlags[k])
  {
    var t := GroupTypeFlags;
    NamesOfKeep(t, keep, t[k].name);
    TableNamesDistinct();
    if t[k].name in Names(Keep(t, keep)) {
      var i :| 0 <= i < |t| && keep(t[i]) && t[i].name == t[k].name;
      assert i == k;
    }
  }

  /** The signed reading of the word of seven flags is the sum of their values. */
  lemma SignedWord(b: bool, a: bool, r: bool, u: bool, ab: bool, aq: bool, s: bool)
    ensures ToSigned(Word(b, a, r, u, ab, aq, s))
      == (if b then 1 else 0) + (if a then 2 else 0) + (if r then 4 else 0) + (if u then 8 else 0)
       + (if ab then 16 else 0) + (if aq then 32 else 0) + (if s then -0x8000_0000 else 0)
  {
  }

  /** The word rule agrees with the boolean rule. */
  lemma WordConflictBits(b: bool, a: bool, r: bool, u: bool, ab: bool, aq: bool, s: bool)
    ensures WordConflict(Word(b, a, r, u, ab, aq, s)) <==> BoolConflict(b, a, r, u, ab, aq, s)
  {
  }

  /** A word within the mask is the word of the flags it contains. */
  lemma WordOfMasked(w: bv32)
    requires w & GroupTypeMask == w
    ensures w == Word(w & 0x1 != 0, w & 0x2 != 0, w & 0x4 != 0, w & 0x8 != 0,
                      w & 0x10 != 0, w & 0x20 != 0, w & 0x8000_0000 != 0)
  {
  }

  /** The word of seven flags stays within the mask. */
  lemma WordMasked(b: bool, a: bool, r: bool, u: bool, ab: bool, aq: bool, s: bool)
    ensures Word(b, a, r, u, ab, aq, s) & GroupTypeMask == Word(b, a, r, u, ab, aq, s)
  {
  }

  /** A table flag's bit is set in the picked word exactly when the flag was picked. */
  lemma PickedBit(keep: GroupFlag -> bool, k: nat)
    requires k < |GroupTypeFlags|
    ensures PickedBits(keep) & GroupTypeFlags[k].bit != 0 <==> keep(GroupTypeFlags[k])
  {
    WordBits(keep(BuiltinLocalGroup), keep(AccountGroup), keep(ResourceGroup), keep(UniversalGroup),
             keep(AppBasic), keep(AppQuery), keep(SecurityEnabled));
    assert k == 0 || k == 1 || k == 2 || k == 3 || k == 4 || k == 5 || k == 6;
  }

  /** Each of the seven bits of the word is its boolean. */
  lemma WordBits(b: bool, a: bool, r: bool, u: bool, ab: bool, aq: bool, s: bool)
    ensures var w := Word(b, a, r, u, ab, aq, s);
      && (w & 0x1 != 0 <==> b) && (w & 0x2 != 0 <==> a) && (w & 0x4 != 0 <==> r) && (w & 0x8 != 0 <==> u)
      && (w & 0x10 != 0 <==> ab) && (w & 0x20 != 0 <==> aq) && (w & 0x8000_0000 != 0 <==> s)
  {
  }

  /** Every kept name is a table name. */
  lemma KeptNamesKnown(t: seq<GroupFlag>, keep: GroupFlag -> bool)
    ensures forall x | x in Names(Keep(t, keep)) :: x in Names(t)
  {
    forall x | x in Names(Keep(t, keep))
      ensures x in Names(t)
    {
      NamesOfKeep(t, keep, x);
      var i :| 0 <= i < |t| && keep(t[i]) && t[i].name == x;
      assert Names(t)[i] == x;
    }
  }

  /** A word's table flags make up the word within the mask. */
  lemma PickedByWord(w: bv32)
    ensures PickedBits(SetIn(w)) == w & GroupTypeMask
  {
  }

  /** What integer-to-names answers on the app table. */
  lemma ConvertWordFacts(w: bv32)
    ensures var r := ConvertWord(GroupTypeFlags, GroupTypeMask, w);
      && (r.Err? ==> r.failure.exc == ValueError)
      && (r.Ok? <==> w & GroupTypeMask == w && !WordConflict(w))
      && (r.Ok? ==> ListsBitsOf(r.value, w))
  {
    if w & GroupTypeMask == w {
      ConflictByWord(w);
      NamesByWord(w);
    }
  }

  /** Word-to-names finds a conflict exactly when the word breaks the rule. */
  lemma ConflictByWord(w: bv32)
    requires w & GroupTypeMask == w
    ensures MutexConflict(Keep(GroupTypeFlags, SetIn(w))) <==> WordConflict(w)
  {
    var p := SetIn(w);
    ConflictOfKeep(GroupTypeFlags, p);
    TableClash(p);
    WordConflictBits(p(BuiltinLocalGroup), p(AccountGroup), p(ResourceGroup), p(UniversalGroup),
                     p(AppBasic), p(AppQuery), p(SecurityEnabled));
    PickedByWord(w);
  }

  /** Word-to-names lists exactly the flags whose bit is set. */
  lemma NamesByWord(w: bv32)
    ensures ListsBitsOf(Names(Keep(GroupTypeFlags, SetIn(w))), w)
  {
    forall k | 0 <= k < |GroupTypeFlags|
      ensures GroupTypeFlags[k].name in Names(Keep(GroupTypeFlags, SetIn(w))) <==> w & GroupTypeFlags[k].bit != 0
    {
      TableNames(SetIn(w), k);
      SingleBits(w, k);
    }
  }

  /** Every table flag is a single bit. */
  lemma SingleBits(w: bv32, k: nat)
    requires k < |GroupTypeFlags|
    ensures w & GroupTypeFlags[k].bit == GroupTypeFlags[k].bit <==> w & GroupTypeFlags[k].bit != 0
  {
    assert k == 0 || k == 1 || k == 2 || k == 3 || k == 4 || k == 5 || k == 6;
  }

  /** Names-to-integer selects exactly the named flags. */
  lemma KeepByName(request: seq<string>)
    ensures MutexConflict(Keep(GroupTypeFlags, NamedIn(request))) <==> WordConflict(Picked(request))
    ensures SumValues(Keep(GroupTypeFlags, NamedIn(request))) == ToSigned(Picked(request))
  {
    var p := NamedIn(request);
    ConflictOfKeep(GroupTypeFlags, p);
    TableClash(p);
    TableSum(p);
    var b, a, r, u := p(BuiltinLocalGroup), p(AccountGroup), p(ResourceGroup), p(UniversalGroup);
    var ab, aq, s := p(AppBasic), p(AppQuery), p(SecurityEnabled);
    WordConflictBits(b, a, r, u, ab, aq, s);
    SignedWord(b, a, r, u, ab, aq, s);
  }

  /** The names an acceptable word converts to are all table names. */
  lemma FromWordKnown(w: bv32)
    requires FromWord(w).Ok?
    ensures AllKnown(GroupTypeFlags, FromWord(w).value)
  {
    KeptNamesKnown(GroupTypeFlags, SetIn(w));
  }

  /** A list naming exactly the set flags of a word within the mask picks that word. */
  lemma PickedOfListed(names: seq<string>, w: bv32)
    requires ListsBitsOf(names, w) && w & GroupTypeMask == w
    ensures Picked(names) == w
  {
    var p := NamedIn(names);
    assert p(GroupTypeFlags[0]) == (w & 0x1 != 0) && p(GroupTypeFlags[1]) == (w & 0x2 != 0);
    assert p(GroupTypeFlags[2]) == (w & 0x4 != 0) && p(GroupTypeFlags[3]) == (w & 0x8 != 0);
    assert p(GroupTypeFlags[4]) == (w & 0x10 != 0) && p(GroupTypeFlags[5]) == (w & 0x20 != 0);
    assert p(GroupTypeFlags[6]) == (w & 0x8000_0000 != 0);
    WordOfMasked(w);
  }

  // ---------------------------------------------------------------------------
  // Round trips between the two directions of `convert_grouptype`

  /** The names listed for an acceptable word convert back to the word's signed value. */
  lemma WordNamesRoundTrip(w: bv32)
    requires FromWord(w).Ok?
    ensures FromNames(FromWord(w).value) == Ok(ToSigned(w))
  {
    var names := FromWord(w).value;
    FromWordKnown(w);
    PickedOfListed(names, w);
  }

  /**
   * The integer an acceptable list of names converts to converts back to
   * exactly the requested names (each once, in table order).
   */
  lemma NamesWordRoundTrip(request: seq<string>)
    requires FromNames(request).Ok?
    ensures FromWord(Picked(request)).Ok?
    ensures forall x :: x in FromWord(Picked(request)).value <==> x in request
  {
    var w := Picked(request);
    var keep := NamedIn(request);
    WordMasked(keep(BuiltinLocalGroup), keep(AccountGroup), keep(ResourceGroup), keep(UniversalGroup),
               keep(AppBasic), keep(AppQuery), keep(SecurityEnabled));
    var names := FromWord(w).value;
    assert ListsBitsOf(names, w);
    KeptNamesKnown(GroupTypeFlags, SetIn(w));
    forall x
      ensures x in names <==> x in request
    {
      if x in names || x in request {
        assert x in Names(GroupTypeFlags);
        var k :| 0 <= k < |GroupTypeFlags| && GroupTypeFlags[k].name == x;
        PickedBit(keep, k);
      }
    }
  }
}
