/**
 * What the write operations hand to the directory: modify operations and
 * their wire encoding (app/ds/func_ds_set.py:96-104, app/ds/func_ds_new.py:35-39).
 */
module Modify {
  import opened Wrappers
  import opened Text

  /** `ldap.MOD_ADD`, `ldap.MOD_DELETE`, `ldap.MOD_REPLACE`. */
  datatype Action = ModAdd | ModDelete | ModReplace

  /** The folded name of the password attribute. */
  const UnicodePwdKey := "unicodepwd"

  predicate IsPassword(key: string) {
    Fold(key) == UnicodePwdKey
  }

  /**
   * One value as sent: a password is wrapped in double quotes and encoded
   * as UTF-16LE, any other value is encoded as UTF-8.
   */
  function EncodeString(key: string, s: string): seq<byte> {
    if IsPassword(key) then Utf16LeEncode("\"" + s + "\"") else Utf8Encode(s)
  }

  /** Every value of one attribute, in order. */
  function EncodeStrings(key: string, vs: seq<string>): (bs: seq<seq<byte>>)
    ensures |bs| == |vs|
    ensures forall i | 0 <= i < |vs| :: bs[i] == EncodeString(key, vs[i])
  {
    if |vs| == 0 then [] else [EncodeString(key, vs[0])] + EncodeStrings(key, vs[1..])
  }

  /** A key whose length differs from `unicodePwd`'s is never the password. */
  lemma NotPassword(key: string)
    requires |key| != |UnicodePwdKey|
    ensures !IsPassword(key)
  {
    assert |Fold(key)| == |key|;
  }

  /** The quote character as UTF-16LE. */
  const QuoteUtf16: seq<byte> := [0x22, 0x00]

  /** A password goes out as the quote, its UTF-16LE code units, and the quote. */
  lemma PasswordQuoted(key: string, s: string)
    requires IsPassword(key)
    ensures EncodeString(key, s) == QuoteUtf16 + Utf16LeEncode(s) + QuoteUtf16
  {
    Utf16LeEncodeConcat("\"" + s, "\"");
    Utf16LeEncodeConcat("\"", s);
    QuoteEncoded();
  }

  lemma QuoteEncoded()
    ensures Utf16LeEncode("\"") == QuoteUtf16
  {
    var q: string := "\"";
    assert q[1..] == [];
    assert Utf16LeEncodeChar(q[0]) == Utf16LeUnit(0x22) == QuoteUtf16;
  }

  /** Any other value reads back, as UTF-8, as the string that was sent. */
  lemma PlainReadsBack(key: string, s: string)
    requires !IsPassword(key)
    ensures Utf8Decode(EncodeString(key, s)) == Some(s)
  {
    Utf8RoundTrip(s);
  }
}
