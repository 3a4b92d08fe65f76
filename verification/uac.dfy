/**
 * userAccountControl flags (section 2.2.16 of MS-ADTS) and `uac_to_flags`
 * (app/ds/convertors_value.py:1-24, 37-38).
 *
 * The attribute is a Python integer. Every table value is a single bit
 * `1 << pos`, so `numeric & value` is non-zero exactly when bit `pos` of
 * `numeric` is set; the model tests that bit (`HasBit`) on the unbounded
 * integer, negative values included.
 */
module Uac {
  import opened Words

  /** A table entry: the flag's name, its value as written, and the bit that value is. */
  datatype UacFlag = UacFlag(name: string, value: int, pos: nat)

  /** `UAC_FLAGS` in source order (app/ds/convertors_value.py:1-24). */
  const UacFlags: seq<UacFlag> := [
    UacFlag("SCRIPT", 0x0001, 0),
    UacFlag("ACCOUNTDISABLE", 0x0002, 1),
    UacFlag("HOMEDIR_REQUIRED", 0x0008, 3),
    UacFlag("LOCKOUT", 0x0010, 4),
    UacFlag("PASSWD_NOTREQD", 0x0020, 5),
    UacFlag("PASSWD_CANT_CHANGE", 0x0040, 6),
    UacFlag("ENCRYPTED_TEXT_PWD_ALLOWED", 0x0080, 7),
    UacFlag("TEMP_DUPLICATE_ACCOUNT", 0x0100, 8),
    UacFlag("NORMAL_ACCOUNT", 0x0200, 9),
    UacFlag("INTERDOMAIN_TRUST_ACCOUNT", 0x0800, 11),
    UacFlag("WORKSTATION_TRUST_ACCOUNT", 0x1000, 12),
    UacFlag("SERVER_TRUST_ACCOUNT", 0x2000, 13),
    UacFlag("DONT_EXPIRE_PASSWORD", 0x10000, 16),
    UacFlag("MNS_LOGON_ACCOUNT", 0x20000, 17),
    UacFlag("SMARTCARD_REQUIRED", 0x40000, 18),
    UacFlag("TRUSTED_FOR_DELEGATION", 0x80000, 19),
    UacFlag("NOT_DELEGATED", 0x100000, 20),
    UacFlag("USE_DES_KEY_ONLY", 0x200000, 21),
    UacFlag("DONT_REQ_PREAUTH", 0x400000, 22),
    UacFlag("PASSWORD_EXPIRED", 0x800000, 23),
    UacFlag("TRUSTED_TO_AUTH_FOR_DELEGATION", 0x1000000, 24),
    UacFlag("PARTIAL_SECRETS_ACCOUNT", 0x04000000, 26)
  ]

  /** No two table entries share a name. */
  lemma UacNamesDistinct()
    ensures DistinctNames(UacFlags)
  {
    NamesApartLow();
    NamesApartAcross();
    NamesApartHigh();
  }

  /** The first eleven entries carry different names. */
  lemma NamesApartLow()
    ensures forall i, j | 0 <= i < j < 11 :: UacFlags[i].name != UacFlags[j].name
  {
  }

  /** No name among the first eleven entries recurs among the rest. */
  lemma NamesApartAcross()
    ensures forall i, j | 0 <= i < 11 <= j < |UacFlags| :: UacFlags[i].name != UacFlags[j].name
  {
  }

  /** The entries from the twelfth on carry different names. */
  lemma NamesApartHigh()
    ensures forall i, j | 11 <= i < j < |UacFlags| :: UacFlags[i].name != UacFlags[j].name
  {
  }

  /** A name identifies its table entry. */
  lemma UniqueName(i: nat, j: nat)
    requires i < |UacFlags| && j < |UacFlags| && UacFlags[i].name == UacFlags[j].name
    ensures i == j
  {
    UacNamesDistinct();
  }

  /** Each table value is the single bit its position names. */
  lemma UacValuesArePowers()
    ensures forall k | 0 <= k < |UacFlags| :: UacFlags[k].value == Pow2(UacFlags[k].pos)
  {
    Pow2Table();
  }

  /** The powers of two up to `1 << 31`, step by step. */
  lemma Pow2Table()
    ensures Pow2(0) == 0x1 && Pow2(1) == 0x2 && Pow2(2) == 0x4 && Pow2(3) == 0x8
    ensures Pow2(4) == 0x10 && Pow2(5) == 0x20 && Pow2(6) == 0x40 && Pow2(7) == 0x80
    ensures Pow2(8) == 0x100 && Pow2(9) == 0x200 && Pow2(10) == 0x400 && Pow2(11) == 0x800
    ensures Pow2(12) == 0x1000 && Pow2(13) == 0x2000 && Pow2(14) == 0x4000 && Pow2(15) == 0x8000
    ensures Pow2(16) == 0x1_0000 && Pow2(17) == 0x2_0000 && Pow2(18) == 0x4_0000 && Pow2(19) == 0x8_0000
    ensures Pow2(20) == 0x10_0000 && Pow2(21) == 0x20_0000 && Pow2(22) == 0x40_0000 && Pow2(23) == 0x80_0000
    ensures Pow2(24) == 0x100_0000 && Pow2(25) == 0x200_0000 && Pow2(26) == 0x400_0000 && Pow2(27) == 0x800_0000
    ensures Pow2(28) == 0x1000_0000 && Pow2(29) == 0x2000_0000 && Pow2(30) == 0x4000_0000 && Pow2(31) == 0x8000_0000
    ensures Pow2(32) == 0x1_0000_0000
  {
  }

  /** The names of the entries of `t` whose bit is set in `n`, in table order. */
  function Flags(t: seq<UacFlag>, n: int): (r: seq<string>)
    ensures |r| <= |t|
  {
    if |t| == 0 then [] else (if HasBit(n, t[0].pos) then [t[0].name] else []) + Flags(t[1..], n)
  }

  /** A name is listed exactly when some entry carrying it has its bit set. */
  lemma {:induction false} FlagsMember(t: seq<UacFlag>, n: int, x: string)
    ensures x in Flags(t, n) <==> exists j :: 0 <= j < |t| && HasBit(n, t[j].pos) && t[j].name == x
    decreases |t|
  {
    if |t| > 0 {
      FlagsMember(t[1..], n, x);
      if exists j :: 0 <= j < |t| && HasBit(n, t[j].pos) && t[j].name == x {
        var j :| 0 <= j < |t| && HasBit(n, t[j].pos) && t[j].name == x;
        if j > 0 {
          assert t[1..][j - 1] == t[j];
        }
      }
      if x in Flags(t[1..], n) {
        var j :| 0 <= j < |t[1..]| && HasBit(n, t[1..][j].pos) && t[1..][j].name == x;
        assert t[j + 1] == t[1..][j];
      }
    }
  }

  /** `names` holds a table name exactly when that flag's bit is set in `n`. */
  predicate ListsSetBits(names: seq<string>, n: int) {
    forall k | 0 <= k < |UacFlags| :: UacFlags[k].name in names <==> HasBit(n, UacFlags[k].pos)
  }

  /** `names` holds table names only. */
  predicate AllKnown(names: seq<string>) {
    forall x | x in names :: IsUacName(x)
  }

  /** `x` is the name of some table entry. */
  predicate IsUacName(x: string) {
    exists k :: 0 <= k < |UacFlags| && UacFlags[k].name == x
  }

  /**
   * `uac_to_flags` (app/ds/convertors_value.py:37-38): the names of the set
   * flags; bits outside the table are dropped.
   */
  function UacToFlags(n: int): (r: seq<string>)
    ensures ListsSetBits(r, n)
    ensures AllKnown(r)
    ensures forall i, j | 0 <= i < j < |r| :: Rank(r[i]) < Rank(r[j])
    ensures forall i, j | 0 <= i < j < |r| :: r[i] != r[j]
  {
    UacToFlagsLists(n);
    UacNamesDistinct();
    FlagsOrdered(UacFlags, 0, n);
    assert UacFlags[0..] == UacFlags;
    RankedApart(Flags(UacFlags, n));
    Flags(UacFlags, n)
  }

  /** The position of a name among the entries of `t` (`|t|` when it is absent). */
  function RankIn(t: seq<UacFlag>, x: string): (r: nat)
    ensures r <= |t|
    ensures r < |t| ==> t[r].name == x
  {
    if |t| == 0 then 0 else if t[0].name == x then 0 else 1 + RankIn(t[1..], x)
  }

  /** The table position of a name. */
  function Rank(x: string): nat {
    RankIn(UacFlags, x)
  }

  /** An entry whose name no earlier entry carries is found at its own position. */
  lemma {:induction false} RankInAt(t: seq<UacFlag>, k: nat)
    requires k < |t| && forall j | 0 <= j < k :: t[j].name != t[k].name
    ensures RankIn(t, t[k].name) == k
  {
    if k > 0 {
      assert t[1..][k - 1] == t[k];
      RankInAt(t[1..], k - 1);
    }
  }

  /** No two entries of `t` share a name. */
  predicate DistinctNames(t: seq<UacFlag>) {
    forall i, j | 0 <= i < j < |t| :: t[i].name != t[j].name
  }

  /**
   * The names listed from entry `k` of `t` on rank at `k` or later, each
   * strictly after the one before it: the table order.
   */
  lemma {:induction false} FlagsOrdered(t: seq<UacFlag>, k: nat, n: int)
    requires DistinctNames(t) && k <= |t|
    ensures forall i | 0 <= i < |Flags(t[k..], n)| :: k <= RankIn(t, Flags(t[k..], n)[i]) < |t|
    ensures forall i, j | 0 <= i < j < |Flags(t[k..], n)| :: RankIn(t, Flags(t[k..], n)[i]) < RankIn(t, Flags(t[k..], n)[j])
    decreases |t| - k
  {
    if k < |t| {
      assert t[k..][1..] == t[k + 1..];
      FlagsOrdered(t, k + 1, n);
      if HasBit(n, t[k].pos) {
        RankInAt(t, k);
        ConsRanked(t, k, Flags(t[k + 1..], n));
      }
    }
  }

  /** Entry `k`'s name put before names ranked after `k` keeps the ranks in order. */
  lemma ConsRanked(t: seq<UacFlag>, k: nat, rest: seq<string>)
    requires k < |t| && RankIn(t, t[k].name) == k
    requires forall i | 0 <= i < |rest| :: k + 1 <= RankIn(t, rest[i]) < |t|
    requires forall i, j | 0 <= i < j < |rest| :: RankIn(t, rest[i]) < RankIn(t, rest[j])
    ensures var r := [t[k].name] + rest;
      forall i | 0 <= i < |r| :: k <= RankIn(t, r[i]) < |t|
    ensures var r := [t[k].name] + rest;
      forall i, j | 0 <= i < j < |r| :: RankIn(t, r[i]) < RankIn(t, r[j])
  {
    var r := [t[k].name] + rest;
    assert forall i | 1 <= i < |r| :: r[i] == rest[i - 1];
  }

  /** Names ranked strictly in order are pairwise distinct. */
  lemma RankedApart(r: seq<string>)
    requires forall i, j | 0 <= i < j < |r| :: Rank(r[i]) < Rank(r[j])
    ensures forall i, j | 0 <= i < j < |r| :: r[i] != r[j]
  {
  }

  lemma UacToFlagsLists(n: int)
    ensures ListsSetBits(Flags(UacFlags, n), n)
    ensures AllKnown(Flags(UacFlags, n))
  {
    forall k | 0 <= k < |UacFlags|
      ensures UacFlags[k].name in Flags(UacFlags, n) <==> HasBit(n, UacFlags[k].pos)
    {
      ListedAt(n, k);
    }
    OnlyKnown(n);
  }

  lemma OnlyKnown(n: int)
    ensures AllKnown(Flags(UacFlags, n))
  {
    forall x | x in Flags(UacFlags, n)
      ensures IsUacName(x)
    {
      FlagsMember(UacFlags, n, x);
    }
  }

  /** Entry `k` is listed exactly when its bit is set. */
  lemma ListedAt(n: int, k: nat)
    requires k < |UacFlags|
    ensures UacFlags[k].name in Flags(UacFlags, n) <==> HasBit(n, UacFlags[k].pos)
  {
    var t := UacFlags;
    FlagsMember(t, n, t[k].name);
    if t[k].name in Flags(t, n) {
      var j :| 0 <= j < |t| && HasBit(n, t[j].pos) && t[j].name == t[k].name;
      UniqueName(j, k);
    }
  }
}
