/**
 * The legacy `convert_uac` (ds/_convertors_value.py:1-33): a two-way
 * userAccountControl converter over a table indexed by bit position, with
 * "RESERVED" at the positions MS-ADTS section 2.2.16 leaves unnamed.
 */
module LegacyUac {
  import opened Wrappers
  import opened Words
  import opened Uac

  const Reserved := "RESERVED"

  /** `uac_flags`: the flag name at each bit position 0..31 (ds/_convertors_value.py:14-20). */
  const LegacyUacNames: seq<string> := [
    "SCRIPT", "ACCOUNTDISABLE", "RESERVED", "HOMEDIR_REQUIRED", "LOCKOUT", "PASSWD_NOTREQD",
    "PASSWD_CANT_CHANGE", "ENCRYPTED_TEXT_PWD_ALLOWED", "TEMP_DUPLICATE_ACCOUNT", "NORMAL_ACCOUNT",
    "RESERVED", "INTERDOMAIN_TRUST_ACCOUNT", "WORKSTATION_TRUST_ACCOUNT", "SERVER_TRUST_ACCOUNT",
    "RESERVED", "RESERVED", "DONT_EXPIRE_PASSWORD", "MNS_LOGON_ACCOUNT", "SMARTCARD_REQUIRED",
    "TRUSTED_FOR_DELEGATION", "NOT_DELEGATED", "USE_DES_KEY_ONLY", "DONT_REQ_PREAUTH",
    "PASSWORD_EXPIRED", "TRUSTED_TO_AUTH_FOR_DELEGATION", "RESERVED", "PARTIAL_SECRETS_ACCOUNT",
    "RESERVED", "RESERVED", "RESERVED", "RESERVED", "RESERVED"
  ]

  /** `x` is some entry of the table, "RESERVED" included. */
  predicate IsLegacyName(x: string) {
    exists p :: 0 <= p < |LegacyUacNames| && LegacyUacNames[p] == x
  }

  /** Every listed name is in the table (`RESERVED` included). */
  predicate AllLegacyNames(flags: seq<string>) {
    forall x | x in flags :: IsLegacyName(x)
  }

  /** The names at the set bits of `n` from position `p` on, in position order. */
  function NamesFrom(L: seq<string>, n: int, p: nat): seq<string>
    decreases |L| - p
  {
    if p >= |L| then [] else (if HasBit(n, p) then [L[p]] else []) + NamesFrom(L, n, p + 1)
  }

  /** Integer to names (ds/_convertors_value.py:30-31); bits from 32 up are not looked at. */
  function IntToNames(n: int): seq<string> {
    NamesFrom(LegacyUacNames, n, 0)
  }

  /** The sum of `1 << q` over the positions `q >= p` whose name is listed. */
  function SumFrom(L: seq<string>, flags: seq<string>, p: nat): int
    decreases |L| - p
  {
    if p >= |L| then 0 else (if L[p] in flags then Pow2(p) else 0) + SumFrom(L, flags, p + 1)
  }

  /** Names to integer (ds/_convertors_value.py:29). */
  function FlagsToInt(flags: seq<string>): int {
    SumFrom(LegacyUacNames, flags, 0)
  }

  datatype UacConverted = Number(value: int) | FlagList(names: seq<string>)

  /** Python truthiness of `numeric`: given and non-zero. */
  predicate NumericGiven(numeric: Option<int>) {
    numeric.Some? && numeric.value != 0
  }

  /** Python truthiness of `flags`: given and non-empty. */
  predicate FlagsGiven(flags: Option<seq<string>>) {
    flags.Some? && |flags.value| > 0
  }

  /** `names` holds a table name exactly when some position carrying it is set in `n`. */
  ghost predicate ListsLegacyBits(names: seq<string>, n: int) {
    forall x :: x in names <==> exists p :: 0 <= p < |LegacyUacNames| && HasBit(n, p) && LegacyUacNames[p] == x
  }

  /**
   * `convert_uac(numeric, flags)`. `None` is `Option.None`; a flag list is
   * taken whenever it is given, even empty, once the truthiness checks pass.
   */
  function ConvertUac(numeric: Option<int>, flags: Option<seq<string>>): (r: Result<UacConverted>)
    ensures r.Err? ==> r.failure.exc == RuntimeError
    ensures r.Ok? <==> (NumericGiven(numeric) != FlagsGiven(flags)
      && (flags.Some? ==> Reserved !in flags.value && AllLegacyNames(flags.value)))
    ensures r.Ok? && flags.Some? ==> r.value.Number? && r.value.value >= 0
    ensures r.Ok? && flags.None? ==> r.value.FlagList? && ListsLegacyBits(r.value.names, numeric.value)
  {
    if !NumericGiven(numeric) && !FlagsGiven(flags) then Raise(RuntimeError, "one of the keys is required")
    else if NumericGiven(numeric) && FlagsGiven(flags) then Raise(RuntimeError, "both keys given")
    else if flags.Some? then
      if Reserved in flags.value then Raise(RuntimeError, "RESERVED is not allowed")
      else if !AllLegacyNames(flags.value) then Raise(RuntimeError, "unknown flag")
      else
        SumNonNegative(LegacyUacNames, flags.value, 0);
        Ok(Number(FlagsToInt(flags.value)))
    else
      NamesFromMember(LegacyUacNames, numeric.value, 0);
      Ok(FlagList(IntToNames(numeric.value)))
  }

  lemma {:induction false} SumNonNegative(L: seq<string>, flags: seq<string>, p: nat)
    ensures SumFrom(L, flags, p) >= 0
    decreases |L| - p
  {
    if p < |L| {
      SumNonNegative(L, flags, p + 1);
    }
  }

  /** A name is listed exactly when a set position from `p` on carries it. */
  lemma {:induction false} NamesFromMember(L: seq<string>, n: int, p: nat)
    ensures forall x :: x in NamesFrom(L, n, p) <==> exists q :: p <= q < |L| && HasBit(n, q) && L[q] == x
    decreases |L| - p
  {
    if p < |L| {
      NamesFromMember(L, n, p + 1);
    }
  }

  // ---------------------------------------------------------------------------
  // Agreement with `UAC_FLAGS` (app/ds/convertors_value.py:1-24)

  /**
   * The entries of `T` from index `k` on are, in order, the named positions
   * of `L` from `p` on, each with value `1 << position`.
   */
  predicate Matches(L: seq<string>, T: seq<UacFlag>, p: nat, k: nat)
    decreases |L| - p
  {
    if p >= |L| then k == |T|
    else if L[p] == Reserved then Matches(L, T, p + 1, k)
    else k < |T| && T[k] == UacFlag(L[p], Pow2(p), p) && Matches(L, T, p + 1, k + 1)
  }

  /** The legacy table's entries, positions 0 to 5. */
  lemma LegacyNamesAt1()
    ensures LegacyUacNames[0] == "SCRIPT"
    ensures LegacyUacNames[1] == "ACCOUNTDISABLE"
    ensures LegacyUacNames[2] == "RESERVED"
    ensures LegacyUacNames[3] == "HOMEDIR_REQUIRED"
    ensures LegacyUacNames[4] == "LOCKOUT"
    ensures LegacyUacNames[5] == "PASSWD_NOTREQD"
  {
  }

  /** The legacy table's entries, positions 6 to 11. */
  lemma LegacyNamesAt2()
    ensures LegacyUacNames[6] == "PASSWD_CANT_CHANGE"
    ensures LegacyUacNames[7] == "ENCRYPTED_TEXT_PWD_ALLOWED"
    ensures LegacyUacNames[8] == "TEMP_DUPLICATE_ACCOUNT"
    ensures LegacyUacNames[9] == "NORMAL_ACCOUNT"
    ensures LegacyUacNames[10] == "RESERVED"
    ensures LegacyUacNames[11] == "INTERDOMAIN_TRUST_ACCOUNT"
  {
  }

  /** The legacy table's entries, positions 12 to 16. */
  lemma LegacyNamesAt3()
    ensures LegacyUacNames[12] == "WORKSTATION_TRUST_ACCOUNT"
    ensures LegacyUacNames[13] == "SERVER_TRUST_ACCOUNT"
    ensures LegacyUacNames[14] == "RESERVED"
    ensures LegacyUacNames[15] == "RESERVED"
    ensures LegacyUacNames[16] == "DONT_EXPIRE_PASSWORD"
  {
  }

  /** The app table's entries, indices 0 to 4. */
  lemma UacFlagsAt1()
    ensures UacFlags[0] == UacFlag("SCRIPT", 0x0001, 0)
    ensures UacFlags[1] == UacFlag("ACCOUNTDISABLE", 0x0002, 1)
    ensures UacFlags[2] == UacFlag("HOMEDIR_REQUIRED", 0x0008, 3)
    ensures UacFlags[3] == UacFlag("LOCKOUT", 0x0010, 4)
    ensures UacFlags[4] == UacFlag("PASSWD_NOTREQD", 0x0020, 5)
  {
  }

  /** The app table's entries, indices 5 to 8. */
  lemma UacFlagsAt2()
    ensures UacFlags[5] == UacFlag("PASSWD_CANT_CHANGE", 0x0040, 6)
    ensures UacFlags[6] == UacFlag("ENCRYPTED_TEXT_PWD_ALLOWED", 0x0080, 7)
    ensures UacFlags[7] == UacFlag("TEMP_DUPLICATE_ACCOUNT", 0x0100, 8)
    ensures UacFlags[8] == UacFlag("NORMAL_ACCOUNT", 0x0200, 9)
  {
  }

  /** The app table's entries, indices 9 to 12. */
  lemma UacFlagsAt3()
    ensures UacFlags[9] == UacFlag("INTERDOMAIN_TRUST_ACCOUNT", 0x0800, 11)
    ensures UacFlags[10] == UacFlag("WORKSTATION_TRUST_ACCOUNT", 0x1000, 12)
    ensures UacFlags[11] == UacFlag("SERVER_TRUST_ACCOUNT", 0x2000, 13)
    ensures UacFlags[12] == UacFlag("DONT_EXPIRE_PASSWORD", 0x10000, 16)
  {
  }

  /** The app table is exactly the legacy table's named positions, in position order. */
  lemma TablesAgree()
    ensures Matches(LegacyUacNames, UacFlags, 0, 0)
  {
    var L, T := LegacyUacNames, UacFlags;
    Pow2Table();
    LegacyNamesAt1();
    LegacyNamesAt2();
    LegacyNamesAt3();
    UacFlagsAt1();
    UacFlagsAt2();
    UacFlagsAt3();
    MiddleTablesAgree();
    assert Matches(L, T, 8, 7);
    assert Matches(L, T, 7, 6);
    assert Matches(L, T, 6, 5);
    assert Matches(L, T, 5, 4);
    assert Matches(L, T, 4, 3);
    assert Matches(L, T, 3, 2);
    assert Matches(L, T, 2, 2);
    assert Matches(L, T, 1, 1);
    assert Matches(L, T, 0, 0);
  }

  /** Positions 9 to 31 of `TablesAgree`. */
  lemma MiddleTablesAgree()
    ensures Matches(LegacyUacNames, UacFlags, 9, 8)
  {
    var L, T := LegacyUacNames, UacFlags;
    Pow2Table();
    LegacyNamesAt1();
    LegacyNamesAt2();
    LegacyNamesAt3();
    UacFlagsAt1();
    UacFlagsAt2();
    UacFlagsAt3();
    UpperTablesAgree();
    assert Matches(L, T, 16, 12);
    assert Matches(L, T, 15, 12);
    assert Matches(L, T, 14, 12);
    assert Matches(L, T, 13, 11);
    assert Matches(L, T, 12, 10);
    assert Matches(L, T, 11, 9);
    assert Matches(L, T, 10, 9);
    assert Matches(L, T, 9, 8);
  }

  /** Positions 17 to 31 of `TablesAgree`. */
  lemma UpperTablesAgree()
    ensures Matches(LegacyUacNames, UacFlags, 17, 13)
  {
    var L, T := LegacyUacNames, UacFlags;
    Pow2Table();
    assert Matches(L, T, 32, 22);
    assert Matches(L, T, 31, 22);
    assert Matches(L, T, 30, 22);
    assert Matches(L, T, 29, 22);
    assert Matches(L, T, 28, 22);
    assert Matches(L, T, 27, 22);
    assert Matches(L, T, 26, 21);
    assert Matches(L, T, 25, 21);
    assert Matches(L, T, 24, 20);
    assert Matches(L, T, 23, 19);
    assert Matches(L, T, 22, 18);
    assert Matches(L, T, 21, 17);
    assert Matches(L, T, 20, 16);
    assert Matches(L, T, 19, 15);
    assert Matches(L, T, 18, 14);
    assert Matches(L, T, 17, 13);
  }

  /** `names` without its "RESERVED" entries, order kept. */
  function DropReserved(names: seq<string>): (r: seq<string>)
    ensures forall x :: x in r <==> x in names && x != Reserved
  {
    if |names| == 0 then [] else (if names[0] == Reserved then [] else [names[0]]) + DropReserved(names[1..])
  }

  lemma {:induction false} DropReservedConcat(a: seq<string>, b: seq<string>)
    ensures DropReserved(a + b) == DropReserved(a) + DropReserved(b)
    decreases |a|
  {
    if |a| > 0 {
      DropReservedConcat(a[1..], b);
      assert (a + b)[1..] == a[1..] + b;
    } else {
      assert a + b == b;
    }
  }

  lemma {:induction false} AgreeFrom(L: seq<string>, T: seq<UacFlag>, n: int, p: nat, k: nat)
    requires Matches(L, T, p, k)
    ensures k <= |T| && DropReserved(NamesFrom(L, n, p)) == Flags(T[k..], n)
    decreases |L| - p
  {
    if p >= |L| {
      assert T[k..] == [];
    } else {
      var here := if HasBit(n, p) then [L[p]] else [];
      DropReservedConcat(here, NamesFrom(L, n, p + 1));
      if L[p] == Reserved {
        AgreeFrom(L, T, n, p + 1, k);
      } else {
        AgreeFrom(L, T, n, p + 1, k + 1);
        assert T[k..][1..] == T[k + 1..];
      }
    }
  }

  /**
   * The app's `uac_to_flags` lists exactly what the legacy integer-to-names
   * branch lists, without the "RESERVED" entries, in the same order.
   */
  lemma AppAgreesWithLegacy(n: int)
    ensures UacToFlags(n) == DropReserved(IntToNames(n))
  {
    TablesAgree();
    AgreeFrom(LegacyUacNames, UacFlags, n, 0, 0);
    assert UacFlags[0..] == UacFlags;
  }

  // ---------------------------------------------------------------------------
  // Round trips

  /** A named position of `L` has its entry in `T` from index `k` on. */
  lemma {:induction false} MatchedPosition(L: seq<string>, T: seq<UacFlag>, p: nat, k: nat, q: nat)
    requires Matches(L, T, p, k) && p <= q < |L| && L[q] != Reserved
    ensures exists j :: k <= j < |T| && T[j].pos == q && T[j].name == L[q]
    decreases |L| - p
  {
    if L[p] == Reserved {
      MatchedPosition(L, T, p + 1, k, q);
    } else if p < q {
      MatchedPosition(L, T, p + 1, k + 1, q);
    }
  }

  /** A name other than "RESERVED" sits at one position only. */
  lemma LegacyUnique(q1: nat, q2: nat)
    requires q1 < |LegacyUacNames| && q2 < |LegacyUacNames|
    requires LegacyUacNames[q1] == LegacyUacNames[q2] != Reserved
    ensures q1 == q2
  {
    var L, T := LegacyUacNames, UacFlags;
    TablesAgree();
    MatchedPosition(L, T, 0, 0, q1);
    MatchedPosition(L, T, 0, 0, q2);
    var j1 :| 0 <= j1 < |T| && T[j1].pos == q1 && T[j1].name == L[q1];
    var j2 :| 0 <= j2 < |T| && T[j2].pos == q2 && T[j2].name == L[q2];
    UniqueName(j1, j2);
  }

  /** No reserved bit is set among positions 0..31. */
  predicate ReservedFree(n: int) {
    forall p | 0 <= p < |LegacyUacNames| && LegacyUacNames[p] == Reserved :: !HasBit(n, p)
  }

  /** For a reserved-free value the name at a position is listed exactly when its bit is set. */
  lemma ListedIffSet(n: int, q: nat)
    requires ReservedFree(n) && q < |LegacyUacNames|
    ensures LegacyUacNames[q] in IntToNames(n) <==> HasBit(n, q)
  {
    var L := LegacyUacNames;
    NamesFromMember(L, n, 0);
    if L[q] in IntToNames(n) {
      var q' :| 0 <= q' < |L| && HasBit(n, q') && L[q'] == L[q];
      if L[q] != Reserved {
        LegacyUnique(q', q);
      }
    }
  }

  /** From position `p` on, the name at a position is listed exactly when its bit is set in `n`. */
  predicate ListedFrom(L: seq<string>, flags: seq<string>, n: int, p: nat) {
    forall q | p <= q < |L| :: L[q] in flags <==> HasBit(n, q)
  }

  /** `a` and `b` hold the same names. */
  ghost predicate SameNames(a: seq<string>, b: seq<string>) {
    forall x :: x in a <==> x in b
  }

  /** Summing positions whose name is listed exactly when their bit is set sums the bits. */
  lemma {:induction false} SumOfListed(L: seq<string>, flags: seq<string>, n: int, p: nat)
    requires ListedFrom(L, flags, n, p)
    ensures SumFrom(L, flags, p) == BitsFrom(n, p, |L|)
    decreases |L| - p
  {
    if p < |L| {
      SumOfListed(L, flags, n, p + 1);
    }
  }

  lemma {:induction false} SumEmpty(L: seq<string>, p: nat)
    ensures SumFrom(L, [], p) == 0
    decreases |L| - p
  {
    if p < |L| {
      SumEmpty(L, p + 1);
    }
  }

  /** Every position's name is listed exactly when its bit is set. */
  lemma ListedAll(n: int)
    requires ReservedFree(n)
    ensures ListedFrom(LegacyUacNames, IntToNames(n), n, 0)
  {
    forall q | 0 <= q < |LegacyUacNames|
      ensures LegacyUacNames[q] in IntToNames(n) <==> HasBit(n, q)
    {
      ListedIffSet(n, q);
    }
  }

  /** A reserved-free value lists known names only, and never "RESERVED". */
  lemma ListedKnown(n: int)
    requires ReservedFree(n)
    ensures Reserved !in IntToNames(n) && AllLegacyNames(IntToNames(n))
  {
    NamesFromMember(LegacyUacNames, n, 0);
  }

  /** Any non-zero value converts to the names at its set bits. */
  lemma NumberBranch(n: int)
    requires n != 0
    ensures ConvertUac(Some(n), None) == Ok(FlagList(IntToNames(n)))
  {
  }

  /** The names of a reserved-free value below `2^32` sum back to it. */
  lemma IntSum(n: int)
    requires 0 <= n < Pow2(32) && ReservedFree(n)
    ensures FlagsToInt(IntToNames(n)) == n
  {
    ListedAll(n);
    SumOfListed(LegacyUacNames, IntToNames(n), n, 0);
    AllBits(n, 32);
  }

  /** A non-empty list of known names without "RESERVED" converts to its sum. */
  lemma NamesBranch(flags: seq<string>)
    requires |flags| > 0 && Reserved !in flags && AllLegacyNames(flags)
    ensures ConvertUac(None, Some(flags)) == Ok(Number(FlagsToInt(flags)))
  {
  }

  /** Those names convert back to the value. */
  lemma IntRoundTrip(n: int)
    requires 0 < n < Pow2(32) && ReservedFree(n)
    ensures ConvertUac(None, Some(IntToNames(n))) == Ok(Number(n))
  {
    var names := IntToNames(n);
    IntSum(n);
    SumEmpty(LegacyUacNames, 0);
    ListedKnown(n);
    NamesBranch(names);
  }

  /** The binary digits named by `flags` from position `p` on. */
  function Digits(L: seq<string>, flags: seq<string>, p: nat): (d: nat)
    decreases |L| - p
  {
    if p >= |L| then 0 else (if L[p] in flags then 1 else 0) + 2 * Digits(L, flags, p + 1)
  }

  lemma Distrib(pw: int, c: int, d: int)
    ensures c * pw + (2 * pw) * d == pw * (c + 2 * d)
  {
  }

  lemma {:induction false} SumIsDigits(L: seq<string>, flags: seq<string>, p: nat)
    ensures SumFrom(L, flags, p) == Pow2(p) * Digits(L, flags, p)
    decreases |L| - p
  {
    if p < |L| {
      SumIsDigits(L, flags, p + 1);
      assert Pow2(p + 1) == 2 * Pow2(p);
      Distrib(Pow2(p), if L[p] in flags then 1 else 0, Digits(L, flags, p + 1));
    }
  }

  lemma {:induction false} ShiftDigits(L: seq<string>, flags: seq<string>, q: nat)
    requires q <= |L|
    ensures Shift(Digits(L, flags, 0), q) == Digits(L, flags, q)
  {
    if q > 0 {
      ShiftDigits(L, flags, q - 1);
    }
  }

  /** The value of a flag list has bit `q` set exactly when the name at `q` is listed. */
  lemma FlagsToIntBits(L: seq<string>, flags: seq<string>, q: nat)
    requires q < |L|
    ensures HasBit(SumFrom(L, flags, 0), q) <==> L[q] in flags
  {
    SumIsDigits(L, flags, 0);
    ShiftDigits(L, flags, q);
  }

  lemma {:induction false} ShiftZero(q: nat)
    ensures Shift(0, q) == 0
  {
    if q > 0 {
      ShiftZero(q - 1);
    }
  }

  /** Names of `L` convert to a value whose set bits name exactly them. */
  lemma FlagsRoundTripIn(L: seq<string>, flags: seq<string>)
    requires |flags| > 0 && forall x | x in flags :: exists p :: 0 <= p < |L| && L[p] == x
    ensures SumFrom(L, flags, 0) != 0
    ensures SameNames(NamesFrom(L, SumFrom(L, flags, 0), 0), flags)
  {
    var n := SumFrom(L, flags, 0);
    assert flags[0] in flags;
    var q :| 0 <= q < |L| && L[q] == flags[0];
    FlagsToIntBits(L, flags, q);
    ShiftZero(q);
    NamesFromMember(L, n, 0);
    forall x
      ensures x in NamesFrom(L, n, 0) <==> x in flags
    {
      if x in flags {
        var p :| 0 <= p < |L| && L[p] == x;
        FlagsToIntBits(L, flags, p);
      }
      if x in NamesFrom(L, n, 0) {
        var p :| 0 <= p < |L| && HasBit(n, p) && L[p] == x;
        FlagsToIntBits(L, flags, p);
      }
    }
  }

  /**
   * A non-empty list of known names without "RESERVED" converts to a value
   * that converts back to exactly those names (each once, in position order).
   */
  lemma FlagsRoundTrip(flags: seq<string>)
    requires |flags| > 0 && Reserved !in flags && AllLegacyNames(flags)
    ensures ConvertUac(None, Some(flags)) == Ok(Number(FlagsToInt(flags)))
    ensures ConvertUac(Some(FlagsToInt(flags)), None) == Ok(FlagList(IntToNames(FlagsToInt(flags))))
    ensures SameNames(IntToNames(FlagsToInt(flags)), flags)
  {
    FlagsRoundTripIn(LegacyUacNames, flags);
    NamesBranch(flags);
    NumberBranch(FlagsToInt(flags));
  }

  /** Once a bit-free tail is reached nothing more is listed. */
  lemma {:induction false} NothingAbove(L: seq<string>, n: int, p: nat)
    requires Shift(n, p) == 0
    ensures NamesFrom(L, n, p) == []
    decreases |L| - p
  {
    if p < |L| {
      assert Shift(n, p + 1) == 0;
      NothingAbove(L, n, p + 1);
    }
  }

  /**
   * Bit 2 is reserved: 4 converts to ["RESERVED"], which the names branch
   * then rejects, so the round trip needs a reserved-free value.
   */
  lemma ReservedBreaksRoundTrip()
    ensures IntToNames(4) == [Reserved]
    ensures ConvertUac(None, Some(IntToNames(4))).Err?
  {
    assert Shift(4, 1) == 2 && Shift(4, 2) == 1 && Shift(4, 3) == 0;
    NothingAbove(LegacyUacNames, 4, 3);
  }

  /** With a truthy `numeric`, an empty flag list still selects the names branch and gives 0. */
  lemma EmptyFlagListWins(n: int)
    requires n != 0
    ensures ConvertUac(Some(n), Some([])) == Ok(Number(0))
  {
    SumEmpty(LegacyUacNames, 0);
  }
}
