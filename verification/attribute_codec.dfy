// Per-value decoders of directory attribute values: the handlers of
// app/ds/func_ds_get.py (TYPE_HANDLERS, ATTR_SPECIAL, the hex fallback and
// the c_* helpers at lines 240-285).

module AttributeCodec {
  import opened Wrappers
  import opened Text
  import opened Derived
  import Identity
  import FuncGeneral

  // ---------------------------------------------------------------------------
  // Hex text: the fallback handler `f"hex:{i.hex()}"`

  /** A hex digit as `bytes.hex()` writes it (lower case). */
  function HexDigit(n: nat): (c: char)
    requires n < 16
    ensures Identity.IsHexChar(c) && !('A' <= c <= 'Z')
  {
    if n < 10 then ('0' as int + n) as char else ('a' as int + n - 10) as char
  }

  /** The value of a hex digit in either case; `None` for any other character. */
  function HexValue(c: char): (r: Option<nat>)
    ensures r.Some? ==> r.value < 16
  {
    if '0' <= c <= '9' then Some(c as int - '0' as int)
    else if 'a' <= c <= 'f' then Some(c as int - 'a' as int + 10)
    else if 'A' <= c <= 'F' then Some(c as int - 'A' as int + 10)
    else None
  }

  lemma HexDigitValue(n: nat)
    requires n < 16
    ensures HexValue(HexDigit(n)) == Some(n)
  {
  }

  /** `bytes.hex()`: two lower-case hex digits per byte, high nibble first. */
  function HexOf(bs: seq<byte>): (h: string)
    ensures |h| == 2 * |bs|
    ensures forall i | 0 <= i < |h| :: Identity.IsHexChar(h[i]) && !('A' <= h[i] <= 'Z')
  {
    if |bs| == 0 then ""
    else [HexDigit(bs[0] as nat / 16), HexDigit(bs[0] as nat % 16)] + HexOf(bs[1..])
  }

  /** `bytes.fromhex` on a string of hex digit pairs; `None` for anything else. */
  function UnHex(h: string): (r: Option<seq<byte>>)
    ensures r.Some? ==> 2 * |r.value| == |h|
    decreases |h|
  {
    if |h| == 0 then Some([])
    else if |h| == 1 then None
    else match (HexValue(h[0]), HexValue(h[1]))
      case (Some(hi), Some(lo)) =>
        (match UnHex(h[2..])
         case Some(rest) => Some([(hi * 16 + lo) as byte] + rest)
         case None => None)
      case _ => None
  }

  /** Hex text reads back as the bytes it was written from. */
  lemma {:induction false} HexRoundTrip(bs: seq<byte>)
    ensures UnHex(HexOf(bs)) == Some(bs)
  {
    if |bs| > 0 {
      var h := HexOf(bs);
      assert h[2..] == HexOf(bs[1..]);
      HexRoundTrip(bs[1..]);
      HexDigitValue(bs[0] as nat / 16);
      HexDigitValue(bs[0] as nat % 16);
      assert bs == [bs[0]] + bs[1..];
    }
  }

  const HexPrefix := "hex:"

  /** The fallback conversion of a value no handler knows. */
  function HexText(raw: seq<byte>): (s: string)
    ensures StartsWith(s, HexPrefix) && |s| == 4 + 2 * |raw|
  {
    HexPrefix + HexOf(raw)
  }

  /** The bytes behind a fallback string; `None` if `s` is not one. */
  function FromHexText(s: string): Option<seq<byte>> {
    if StartsWith(s, HexPrefix) then UnHex(s[4..]) else None
  }

  /** The fallback conversion loses nothing: its text reads back as the raw value. */
  lemma HexTextRoundTrip(raw: seq<byte>)
    ensures FromHexText(HexText(raw)) == Some(raw)
  {
    assert HexText(raw)[4..] == HexOf(raw);
    HexRoundTrip(raw);
  }

  // ---------------------------------------------------------------------------
  // objectGUID: `str(uuid.UUID(bytes_le=i))`

  /**
   * The byte order change of `bytes_le`: the first three fields are stored
   * little-endian, the last two as they are. The change is its own inverse.
   */
  function SwapFields(b: seq<byte>): (r: seq<byte>)
    requires |b| == 16
    ensures |r| == 16
  {
    [b[3], b[2], b[1], b[0], b[5], b[4], b[7], b[6]] + b[8..]
  }

  lemma SwapFieldsTwice(b: seq<byte>)
    requires |b| == 16
    ensures SwapFields(SwapFields(b)) == b
  {
  }

  /** The 8-4-4-4-12 layout of `str(uuid)` over 32 hex digits. */
  function Dashed(h: string): (t: string)
    requires |h| == 32
    ensures |t| == 36
  {
    h[..8] + "-" + h[8..12] + "-" + h[12..16] + "-" + h[16..20] + "-" + h[20..]
  }

  /** The hex digits of a dashed GUID text, dashes removed. */
  function Undashed(t: string): (h: string)
    requires |t| == 36
  {
    t[..8] + t[9..13] + t[14..18] + t[19..23] + t[24..]
  }

  lemma UndashDashed(h: string)
    requires |h| == 32
    ensures Undashed(Dashed(h)) == h
  {
    var t := Dashed(h);
    assert t[..8] == h[..8];
    assert t[9..13] == h[8..12];
    assert t[14..18] == h[12..16];
    assert t[19..23] == h[16..20];
    assert t[24..] == h[20..];
    assert h == h[..8] + h[8..12] + h[12..16] + h[16..20] + h[20..];
  }

  /** Dashing 32 lower-case hex digits gives a lower-case GUID text. */
  lemma DashedIsGuid(h: string)
    requires |h| == 32
    requires forall i | 0 <= i < |h| :: Identity.IsHexChar(h[i]) && !('A' <= h[i] <= 'Z')
    ensures Identity.GuidCore(Dashed(h))
    ensures forall i | 0 <= i < 36 :: !('A' <= Dashed(h)[i] <= 'Z')
  {
    var t := Dashed(h);
    forall i | 0 <= i < 36
      ensures if Identity.IsDashPosition(i) then t[i] == '-' else Identity.IsHexChar(t[i]) && !('A' <= t[i] <= 'Z')
    {
      if i < 8 {
        assert t[i] == h[i];
      } else if i == 8 || i == 13 || i == 18 || i == 23 {
      } else if i < 13 {
        assert t[i] == h[i - 1];
      } else if i < 18 {
        assert t[i] == h[i - 2];
      } else if i < 23 {
        assert t[i] == h[i - 3];
      } else {
        assert t[i] == h[i - 4];
      }
    }
  }

  /**
   * `str(uuid.UUID(bytes_le=raw))`: the lower-case 8-4-4-4-12 text of the
   * GUID; a value that is not 16 bytes long raises ValueError.
   */
  function GuidText(raw: seq<byte>): (r: Result<string>)
    ensures r.Ok? <==> |raw| == 16
    ensures r.Err? ==> r.failure.exc == ValueError
    ensures r.Ok? ==> Identity.GuidCore(r.value) && Fold(r.value) == r.value
  {
    if |raw| != 16 then Raise(ValueError, "bytes_le is not a 16-char string")
    else
      var h := HexOf(SwapFields(raw));
      DashedIsGuid(h);
      FoldLowerCase(Dashed(h));
      Ok(Dashed(h))
  }

  /** `uuid.UUID(text).bytes_le` for the dashed form; `None` for any other text. */
  function GuidBytes(t: string): (r: Option<seq<byte>>)
    ensures r.Some? ==> |r.value| == 16
  {
    if |t| != 36 then None
    else match UnHex(Undashed(t))
      case Some(b) => Some(SwapFields(b))
      case None => None
  }

  /** A converted GUID reads back as the bytes it came from. */
  lemma GuidRoundTrip(raw: seq<byte>)
    requires |raw| == 16
    ensures GuidBytes(GuidText(raw).value) == Some(raw)
  {
    var h := HexOf(SwapFields(raw));
    UndashDashed(h);
    HexRoundTrip(SwapFields(raw));
    SwapFieldsTwice(raw);
  }

  /** A converted GUID, given back as an identity, is recognised as a GUID. */
  lemma GuidTextIsIdentityGuid(raw: seq<byte>)
    requires |raw| == 16
    ensures Identity.LooksLikeGuid(GuidText(raw).value)
  {
  }

  // ---------------------------------------------------------------------------
  // objectSid: `c_sid_byte_to_string` (app/ds/func_ds_get.py:240-252), the
  // binary SID layout of section 2.4.2.2 of MS-DTYP

  function Pow256(k: nat): (r: nat)
    ensures r >= 1
  {
    if k == 0 then 1 else 256 * Pow256(k - 1)
  }

  /** An unsigned big-endian integer (`struct.unpack('>Q', ...)`). */
  function BigEndian(bs: seq<byte>): (n: nat)
    ensures n < Pow256(|bs|)
  {
    if |bs| == 0 then 0 else BigEndian(bs[..|bs| - 1]) * 256 + bs[|bs| - 1] as nat
  }

  /** An unsigned little-endian integer (`struct.unpack('<L', ...)`). */
  function LittleEndian(bs: seq<byte>): (n: nat)
    ensures n < Pow256(|bs|)
  {
    if |bs| == 0 then 0 else bs[0] as nat + 256 * LittleEndian(bs[1..])
  }

  /** The `width` low bytes of `n`, most significant first. */
  function ToBigEndian(n: nat, width: nat): (bs: seq<byte>)
    ensures |bs| == width
  {
    if width == 0 then [] else ToBigEndian(n / 256, width - 1) + [(n % 256) as byte]
  }

  /** The `width` low bytes of `n`, least significant first. */
  function ToLittleEndian(n: nat, width: nat): (bs: seq<byte>)
    ensures |bs| == width
  {
    if width == 0 then [] else [(n % 256) as byte] + ToLittleEndian(n / 256, width - 1)
  }

  lemma {:induction false} BigEndianRoundTrip(n: nat, width: nat)
    requires n < Pow256(width)
    ensures BigEndian(ToBigEndian(n, width)) == n
  {
    if width > 0 {
      var bs := ToBigEndian(n, width);
      assert bs[..width - 1] == ToBigEndian(n / 256, width - 1);
      BigEndianRoundTrip(n / 256, width - 1);
    }
  }

  lemma {:induction false} LittleEndianRoundTrip(n: nat, width: nat)
    requires n < Pow256(width)
    ensures LittleEndian(ToLittleEndian(n, width)) == n
  {
    if width > 0 {
      var bs := ToLittleEndian(n, width);
      assert bs[1..] == ToLittleEndian(n / 256, width - 1);
      LittleEndianRoundTrip(n / 256, width - 1);
    }
  }

  /** The 32-bit little-endian words of `bs`, four bytes each. */
  function Words32(bs: seq<byte>): (ws: seq<nat>)
    requires |bs| % 4 == 0
    ensures |ws| == |bs| / 4
    decreases |bs|
  {
    if |bs| == 0 then [] else [LittleEndian(bs[..4])] + Words32(bs[4..])
  }

  /** The sub-authorities as text: `-%d` for each. */
  function SubAuthorityText(subs: seq<nat>): string {
    if |subs| == 0 then "" else "-" + NatToDecimal(subs[0]) + SubAuthorityText(subs[1..])
  }

  /** The text form `S-1-<authority>-<sub>-...-<sub>` of a revision-1 SID. */
  function SidText(authority: nat, subs: seq<nat>): string {
    "S-1-" + NatToDecimal(authority) + SubAuthorityText(subs)
  }

  /**
   * The binary form: revision 1, the sub-authority count, the 48-bit
   * authority big-endian, then each sub-authority as a 32-bit little-endian
   * word.
   */
  predicate SidParts(authority: nat, subs: seq<nat>) {
    authority < Pow256(6) && |subs| < 256 && forall i | 0 <= i < |subs| :: subs[i] < Pow256(4)
  }

  function SubAuthorityBytes(subs: seq<nat>): (bs: seq<byte>)
    ensures |bs| == 4 * |subs|
  {
    if |subs| == 0 then [] else ToLittleEndian(subs[0], 4) + SubAuthorityBytes(subs[1..])
  }

  function SidBytes(authority: nat, subs: seq<nat>): (bs: seq<byte>)
    requires SidParts(authority, subs)
    ensures |bs| == 8 + 4 * |subs|
  {
    [1 as byte, |subs| as byte] + ToBigEndian(authority, 6) + SubAuthorityBytes(subs)
  }

  /**
   * `c_sid_byte_to_string`. Too short a value makes `struct.unpack` raise;
   * a revision other than 1, or a length that disagrees with the count
   * byte, fails an `assert`.
   */
  function SidString(data: seq<byte>): (r: Result<string>)
    ensures r.Ok? <==> |data| >= 8 && data[0] == 1 && |data| == 8 + 4 * data[1] as int
    ensures r.Ok? ==> r.value == SidText(BigEndian(data[2..8]), Words32(data[8..]))
    ensures r.Err? ==> r.failure.exc == StructError || r.failure.exc == AssertionError
  {
    if |data| < 1 then Raise(StructError, "unpack requires a buffer of 1 bytes")
    else if data[0] != 1 then Raise(AssertionError, "SID revision")
    else if |data| < 2 then Raise(StructError, "unpack requires a buffer of 1 bytes")
    else if |data| < 8 then Raise(StructError, "unpack requires a buffer of 8 bytes")
    else if |data| - 8 != 4 * data[1] as int then Raise(AssertionError, "SID length")
    else Ok(SidText(BigEndian(data[2..8]), Words32(data[8..])))
  }

  lemma {:induction false} SubAuthoritiesRoundTrip(subs: seq<nat>)
    requires forall i | 0 <= i < |subs| :: subs[i] < Pow256(4)
    ensures Words32(SubAuthorityBytes(subs)) == subs
  {
    if |subs| > 0 {
      var bs := SubAuthorityBytes(subs);
      assert bs[..4] == ToLittleEndian(subs[0], 4);
      assert bs[4..] == SubAuthorityBytes(subs[1..]);
      LittleEndianRoundTrip(subs[0], 4);
      SubAuthoritiesRoundTrip(subs[1..]);
    }
  }

  /** A SID written in the binary layout decodes to its text form. */
  lemma SidRoundTrip(authority: nat, subs: seq<nat>)
    requires SidParts(authority, subs)
    ensures SidString(SidBytes(authority, subs)) == Ok(SidText(authority, subs))
  {
    var bs := SidBytes(authority, subs);
    assert bs[2..8] == ToBigEndian(authority, 6);
    assert bs[8..] == SubAuthorityBytes(subs);
    BigEndianRoundTrip(authority, 6);
    SubAuthoritiesRoundTrip(subs);
  }

  /** An NT-authority SID text, given back as an identity, mentions "s-1-5". */
  lemma NtSidMentionsSid(subs: seq<nat>)
    ensures Identity.MentionsSid(SidText(5, subs))
  {
    var s := SidText(5, subs);
    assert s == "S-1-5" + SubAuthorityText(subs);
    FoldConcat("S-1-5", SubAuthorityText(subs));
    assert Fold(s)[..5] == "s-1-5";
    assert OccursAt(Fold(s), "s-1-5", 0);
  }

  // ---------------------------------------------------------------------------
  // Booleans: `c_bool_string_to_bool` (app/ds/func_ds_get.py:277-285)

  /** How the directory writes a boolean. */
  function BoolText(b: bool): string {
    if b then "TRUE" else "FALSE"
  }

  /** "TRUE" and "FALSE" only, case-sensitively; anything else raises RuntimeError. */
  function CBool(s: string): (r: Result<bool>)
    ensures r.Ok? ==> s == BoolText(r.value)
    ensures r.Err? ==> r.failure.exc == RuntimeError
  {
    if s == "TRUE" then Ok(true)
    else if s == "FALSE" then Ok(false)
    else Raise(RuntimeError, "not a boolean value")
  }

  /** Both boolean spellings read back as the value they spell. */
  lemma CBoolRoundTrip(b: bool)
    ensures CBool(BoolText(b)) == Ok(b)
  {
  }

  // ---------------------------------------------------------------------------
  // Large integers: `c_datetime_win_to_python` (app/ds/func_ds_get.py:259-264)

  /** A byte string as the characters Python's `int(bytes)` reads. */
  function Latin(raw: seq<byte>): (s: string)
    ensures |s| == |raw|
  {
    seq(|raw|, i requires 0 <= i < |raw| => raw[i] as int as char)
  }

  /** The ASCII bytes of the decimal text of `i`. */
  function DecimalBytes(i: int): seq<byte> {
    Utf8Encode(IntToDecimal(i))
  }

  /**
   * The FILETIME ticks (100 ns since 1601-01-01) that Python's `datetime`
   * can reach: from 0001-01-01, 584388 days before the epoch, up to but
   * excluding 10000-01-01, 3067671 days after it.
   */
  const FirstTick := -584388 * 86400 * 10_000_000
  const EndTick := 3067671 * 86400 * 10_000_000

  predicate InCalendar(ticks: int) {
    FirstTick <= ticks < EndTick
  }

  /** The four texts `c_datetime_win_to_python` returns as integers. */
  predicate Sentinel(raw: seq<byte>) {
    || raw == DecimalBytes(0)
    || raw == DecimalBytes(9223372036850000000)
    || raw == DecimalBytes(9223372036854775807)
    || raw == DecimalBytes(-9223372036854775808)
  }

  /** The integer a sentinel text stands for. */
  function SentinelValue(raw: seq<byte>): (v: Value)
    requires Sentinel(raw)
    ensures v.Int? && raw == DecimalBytes(v.i)
  {
    if raw == DecimalBytes(0) then Int(0)
    else if raw == DecimalBytes(9223372036850000000) then Int(9223372036850000000)
    else if raw == DecimalBytes(9223372036854775807) then Int(9223372036854775807)
    else Int(-9223372036854775808)
  }

  /**
   * A FILETIME value: the four sentinels (0, the two largest 64-bit
   * values the directory uses for "never", and the smallest) come back as
   * integers, any other integer text as a timestamp when the date lies in
   * years 1 to 9999; adding ticks outside that range raises OverflowError,
   * and text that is not an integer raises ValueError.
   */
  function WinTime(raw: seq<byte>): (r: Result<Value>)
    ensures r.Ok? && r.value.Int? ==> raw == DecimalBytes(r.value.i)
    ensures r.Ok? <==> Sentinel(raw) || (ParseInt(Latin(raw)).Some? && InCalendar(ParseInt(Latin(raw)).value))
    ensures r.Ok? ==> r.value.Int? || r.value == Time(raw)
    ensures r.Ok? && !Sentinel(raw) ==> r.value == Time(raw)
    ensures r.Err? && ParseInt(Latin(raw)).None? ==> r.failure.exc == ValueError
    ensures r.Err? && ParseInt(Latin(raw)).Some? ==> r.failure.exc == OverflowError
  {
    if Sentinel(raw) then Ok(SentinelValue(raw))
    else
      match ParseInt(Latin(raw))
      case None => Raise(ValueError, "invalid literal for int()")
      case Some(ticks) =>
        if InCalendar(ticks) then Ok(Time(raw)) else Raise(OverflowError, "date value out of range")
  }

  /** The decimal text of an integer, as bytes, reads back as that text. */
  lemma LatinDecimal(i: int)
    ensures Latin(DecimalBytes(i)) == IntToDecimal(i)
  {
    var s := IntToDecimal(i);
    assert forall k | 0 <= k < |s| :: s[k] as int < 0x80 by {
      if i < 0 {
        var d := NatToDecimal(-i);
        assert s == "-" + d;
        assert forall k | 0 <= k < |d| :: IsDigit(d[k]);
        assert forall k | 1 <= k < |s| :: s[k] == d[k - 1];
      }
    }
    Utf8EncodeAscii(s);
  }

  /**
   * Any other integer outside the calendar raises OverflowError, such as
   * 9223372036854775806 or -1000000000000000000.
   */
  lemma WinTimeOverflows(i: int)
    requires !InCalendar(i)
    requires i != 9223372036850000000 && i != 9223372036854775807 && i != -9223372036854775808
    ensures RaisedAs(WinTime(DecimalBytes(i)), OverflowError)
  {
    LatinDecimal(i);
    ParseIntToDecimal(i);
    DecimalBytesInjective(i, 0);
    DecimalBytesInjective(i, 9223372036850000000);
    DecimalBytesInjective(i, 9223372036854775807);
    DecimalBytesInjective(i, -9223372036854775808);
  }

  /** Different integers have different decimal texts. */
  lemma DecimalBytesInjective(a: int, b: int)
    requires a != b
    ensures DecimalBytes(a) != DecimalBytes(b)
  {
    LatinDecimal(a);
    LatinDecimal(b);
    ParseIntToDecimal(a);
    ParseIntToDecimal(b);
  }

  /** The two texts that `c_datetime_win_to_python` cannot turn into a date. */
  lemma WinTimeOverflowExamples()
    ensures RaisedAs(WinTime(DecimalBytes(9223372036854775806)), OverflowError)
    ensures RaisedAs(WinTime(DecimalBytes(-1000000000000000000)), OverflowError)
  {
    WinTimeOverflows(9223372036854775806);
    WinTimeOverflows(-1000000000000000000);
  }

  /**
   * ChangePasswordAtLogon read from a stored pwdLastSet is true exactly when
   * the stored text is "0", the value that forces a change.
   */
  lemma ChangePasswordAtLogonReadBack(raw: seq<byte>)
    requires WinTime(raw).Ok?
    ensures Derive(ChangePasswordAtLogon, WinTime(raw).value) == Ok(Bool(raw == DecimalBytes(0)))
  {
    var v := WinTime(raw).value;
    assert v.Int? ==> raw == DecimalBytes(v.i);
    assert Derive(ChangePasswordAtLogon, v) == Ok(Bool(v == Int(0) || v == Bool(false)));
    if raw == DecimalBytes(0) {
      assert v == Int(0);
    }
  }

  /**
   * The pwdLastSet text `gen_change_pwd_at_logon(True)` writes reads back
   * as a forced change; after `False` the directory stores the current
   * time, which reads back as no forced change whatever its digits.
   */
  lemma PwdLastSetRoundTrip(stamp: seq<byte>)
    requires WinTime(stamp).Ok? && stamp != DecimalBytes(0)
    ensures Derive(ChangePasswordAtLogon, WinTime(Utf8Encode(FuncGeneral.GenChangePwdAtLogon(true))).value) == Ok(Bool(true))
    ensures Derive(ChangePasswordAtLogon, WinTime(stamp).value) == Ok(Bool(false))
  {
    assert FuncGeneral.GenChangePwdAtLogon(true) == IntToDecimal(0);
    ChangePasswordAtLogonReadBack(DecimalBytes(0));
    ChangePasswordAtLogonReadBack(stamp);
  }
}
