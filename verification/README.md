# tentacula: a Dafny model of the directory gateway core

tentacula is an HTTP gateway in front of Microsoft Active Directory. A
client describes what it wants (read a user, change a group, add a member)
and the gateway turns that into LDAP searches and modify requests and turns
the directory's binary attribute values into JSON-ready values. A second
path, the "SDS" client, does not talk LDAP at all: it writes an encrypted
request row into a task table and polls the table until a scheduler on the
gateway side has run the call and stored the answer.

This project models that core as pure Dafny functions over immutable data
and proves what it does:

- `DsDict`: the case-insensitive dictionary every object travels in
  (`app/ds/ds_dict.py`). Lookups ignore case. Writing under a key that is
  already present keeps the entry's position and takes the casing of the
  latest write.
- `Uac`, `LegacyUac`, `GroupType`, `ObjectClass`: the value convertors for
  userAccountControl, groupType and objectClass, in both the current and the
  legacy tree (`app/ds/convertors_value.py`, `ds/_convertors_value.py`).
- `FuncGeneral`: building new userAccountControl and groupType values from
  boolean switches and a scope/category (`app/ds/func_general.py`).
- `DsData`: the object kinds, their LDAP type filters and default
  properties (`app/ds/data.py`, `ds/data.py`).
- `Identity`: how an identity (DN, GUID, SID, account name or a map) becomes
  a search filter (`gen_filter_to_id`).
- `AttributeCodec`, `Derived`, `ObjectProcessing`: the conversion of one
  LDAP entry into a result map. This covers per-attribute handlers,
  single-valued attributes, the derived properties (Enabled, GroupScope, …)
  and dropping the "shadow" attributes fetched only to derive them
  (`object_processing` in `app/ds/func_ds_get.py`).
- `Search`: the property list a search asks for, paged results, the
  one-object rule, ranged attribute retrieval and the root DSE lookup
  (`search_object`, `app/ds/ds_function.py`).
- `DsSet`, `Modify`, `DsNew`, `SetMember`: the write paths. These are
  modify lists with their special handlers and value encodings, object
  creation, and group membership (`app/ds/func_ds_set.py`,
  `app/ds/func_ds_new.py`, `app/ds/func_ds_set_member.py` and its legacy twin).
- `DsHook`: the connection (LDAP URL per host, failover) and the public
  operations of the hook, in both trees (`app/ds/ds_hook.py`,
  `ds/ds_hook.py`).
- `JsonData`, `Tasker`, `SdsHook`, `Scheduler`: the task-table protocol.
  The client packs the call and polls for the answer. The scheduler binds
  the arguments, runs the call, stores the result and cleans old rows
  (`app/sds/sds_hook.py`, `app/scheduler/ds.py`).
- `LogMask`: hiding secret values in logged dictionaries (`mask_dict` in
  `app/systems/logging.py`).

Errors are values: `Wrappers.Result` carries either a value or a `Failure`
naming the Python exception class the code raises. The directory, the
database, the clock and the cryptography are parameters (oracles), never
implemented.

Three facts about the code that the model keeps:

- A `DSDict` key takes the casing of the most recent write
  (`app/ds/ds_dict.py:17-20`).
- `search_root_dse` returns the first naming context that starts with
  `dc=` (`app/ds/ds_function.py:16`).
- `encode_param` is RSA-OAEP of the JSON text, base64-encoded
  (`app/sds/sds_hook.py:34-46`). The encryption itself is a parameter.

## Model

| member | source | states |
|---|---|---|
| DsDict.EntryOf | app/ds/ds_dict.py:14-15 | a key is found exactly when some stored key has the same case-folded form, and the entry found has that folded form |
| DsDict.LookupIgnoresCase | app/ds/ds_dict.py:14-28 | two keys that differ only in case see the same entry, membership, item and `get` result |
| DsDict.GetItem | app/ds/ds_dict.py:14-15 | `d[key]` succeeds exactly when the key is present (in any casing) and yields its value; otherwise KeyError |
| DsDict.GetOr | app/ds/ds_dict.py:45-46 | `get` yields the stored value when the key is present and the default otherwise |
| DsDict.Set | app/ds/ds_dict.py:17-20 | after `d[key] = v` the key (any casing) maps to `(key, v)` and every other key is unchanged; an existing key keeps its position, a new one is appended |
| DsDict.LatestCasingWins | app/ds/ds_dict.py:17-20 | writing the same key twice in different casings leaves one entry, carrying the casing and value of the second write |
| DsDict.Del | app/ds/ds_dict.py:22-25 | `del d[key]` fails with KeyError exactly when the key is absent; otherwise it removes exactly that key and one entry |
| DsDict.Remove | app/ds/ds_dict.py:22-25 | removing the entry at a position drops that key only and keeps the map well formed |
| DsDict.Pop | app/ds/ds_dict.py:48-52 | `pop(key)` without a default returns the stored value and a map without the key, or KeyError when it is absent; other keys are untouched |
| DsDict.PopOr | app/ds/ds_dict.py:53-55 | `pop(key, default)` returns the default and the unchanged map when the key is absent |
| DsDict.SetDefault | app/ds/ds_dict.py:57-61 | `setdefault` leaves a present key alone and returns its value; an absent key is appended with the default |
| DsDict.SetAllLookup | app/ds/ds_dict.py:63-75 | after `update(pairs)` a key maps to the last pair with its folded name, or to its old entry when no pair names it |
| DsDict.SetAllFresh | app/ds/ds_dict.py:63-75 | updating with pairs whose keys are all new appends them in order |
| DsDict.SetAllPresent | app/ds/ds_dict.py:63-75 | updating with pairs whose keys are all present keeps every position and overrides each entry by the last pair naming it |
| DsDict.SetAllTwice | app/ds/ds_dict.py:63-75 | `update` with the same pairs twice is the same as once |
| DsDict.SetAll | app/ds/ds_dict.py:63-75 | assigning pairs in order keeps the map well formed; what it holds is stated by `SetAllLookup` |
| DsDict.Update | app/ds/ds_dict.py:63-75 | `update(seed, **kwargs)` keeps the map well formed; the seed and then the keyword pairs are assigned as `SetAllLookup` states |
| DsDict.New | app/ds/ds_dict.py:7-12 | the constructor yields a well-formed map filled by `update` |
| DsDict.FromPairs | app/ds/ds_dict.py:7-12 | a map built from pairs alone is well formed |
| DsDict.Keys | app/ds/ds_dict.py:77-78 | `keys()` lists the stored keys in insertion order, one per entry |
| DsDict.Copy | app/ds/ds_dict.py:40-43 | `copy()` yields a well-formed map |
| DsDict.Or | app/ds/ds_dict.py:30-33 | `__or__` yields a well-formed map; its contents are stated by `OrIsUpdate` |
| DsDict.CopyKeepsItems | app/ds/ds_dict.py:40-43 | `copy()` gives an equal map with the same items |
| DsDict.OrIsUpdate | app/ds/ds_dict.py:30-33 | `__or__` is `update` of a copy, so `other` wins on shared keys and other keys of `d` stay |
| DsDict.ROr | app/ds/ds_dict.py:35-38 | as written, `__ror__` yields a well-formed map built from the left operand |
| DsDict.ROrIntended | app/ds/ds_dict.py:35-38 | as intended, `__ror__` yields a well-formed map in which every key of `d` keeps its entry from `d` |
| DsDict.ROrIgnoresRightOperand | app/ds/ds_dict.py:35-38 | as written, `__ror__` is built from `other` alone, whatever `d` holds |
| DsDict.ROrDropsRightOperand | app/ds/ds_dict.py:35-38 | a concrete pair of maps for which the written `__ror__` loses a key of `d` that the intended union keeps |
| DsDict.ROrIntendedKeepsRight | app/ds/ds_dict.py:35-38 | the intended `__ror__` keeps every entry of `d` |
| Uac.UacNamesDistinct | app/ds/convertors_value.py:1-24 | the names of the userAccountControl table are pairwise distinct |
| Uac.UacValuesArePowers | app/ds/convertors_value.py:1-24 | every flag value in the table is the power of two of its bit position |
| Uac.UacToFlags | app/ds/convertors_value.py:37-38 | `uac_to_flags(n)` lists a flag name exactly when its bit is set in `n`, lists only known names, in table order and without repeats |
| Uac.FlagsMember | app/ds/convertors_value.py:37-38 | a name is in the list built from a table exactly when some table row with that name has its bit set |
| Uac.FlagsOrdered | app/ds/convertors_value.py:37-38 | the names listed from any table position on rank at that position or later, each after the one before it |
| LegacyUac.ConvertUac | ds/_convertors_value.py:1-33 | the legacy `convert_uac` fails with RuntimeError exactly when both or neither argument is given (by Python truthiness) or a flag list holds RESERVED or an unknown name; a flag list gives a non-negative number and a number gives the names of its set bits |
| LegacyUac.IntRoundTrip | ds/_convertors_value.py:29-31 | for a 32-bit value with no reserved bit, converting it to names and back gives the value |
| LegacyUac.FlagsRoundTrip | ds/_convertors_value.py:22-31 | a valid flag list converts to a number whose names are the same set of flags |
| LegacyUac.ReservedBreaksRoundTrip | ds/_convertors_value.py:23-24 | the number 4 converts to `["RESERVED"]`, which the same function then refuses |
| LegacyUac.EmptyFlagListWins | ds/_convertors_value.py:9-29 | with a number and an empty flag list the list branch is taken and the result is 0 |
| LegacyUac.AppAgreesWithLegacy | app/ds/convertors_value.py:37-38 | the current `uac_to_flags` is the legacy number-to-names conversion with RESERVED entries left out |
| GroupType.SecurityEnabledIsMinInt32 | app/ds/convertors_value.py:26-34 | SECURITY_ENABLED read as a signed 32-bit value is -2147483648 |
| GroupType.TableNamesDistinct | app/ds/convertors_value.py:26-34 | the groupType flag names are pairwise distinct |
| GroupType.ConvertGroupType | app/ds/convertors_value.py:41-74 | a list gives a number, an int gives a list of names, any other request raises TypeError |
| GroupType.ConvertNames | app/ds/convertors_value.py:53-62 | for any flag table, a name list converts exactly when every name is in the table and no two named rows share a mutual-exclusion group, otherwise ValueError; the result is the sum of the named rows' values |
| GroupType.ConvertWord | app/ds/convertors_value.py:63-72 | for any flag table, a number converts exactly when it has no bit outside the mask and no two rows whose bits it sets share a mutual-exclusion group, otherwise ValueError; a name is listed exactly when its row's bits are all set |
| GroupType.FromNames | app/ds/convertors_value.py:53-62 | a name list converts exactly when every name is known and no two picked flags share a mutex group; the result is the signed sum of the picked flags; otherwise ValueError |
| GroupType.FromWord | app/ds/convertors_value.py:63-72 | a number converts exactly when it has no bit outside the table and no mutex clash; the names listed are exactly its set flags; otherwise ValueError |
| GroupType.WordNamesRoundTrip | app/ds/convertors_value.py:53-72 | names produced from a word convert back to the same (signed) word |
| GroupType.NamesWordRoundTrip | app/ds/convertors_value.py:53-72 | a convertible name list gives a word whose names are the same set |
| GroupType.LegacyConvertGroupType | ds/_convertors_value.py:36-78 | the legacy `convert_grouptype` gives the same result as the current one on every request |
| ObjectClass.ConvertWith | app/ds/convertors_value.py:77-112 | RuntimeError exactly when both or neither argument is given or the name is unknown; a flag list gives the short name of a table row with the same classes (in any order) or the list itself when none matches; a name gives the chain of a matching row |
| ObjectClass.ConvertObjectClassAsWritten | app/ds/convertors_value.py:77-112 | as written, only RuntimeError is raised; a class list alone always converts; a name alone converts exactly when its lowered form is literally a key, and then to that key's chain |
| ObjectClass.ConvertObjectClass | app/ds/convertors_value.py:77-112 | with the name compared case-insensitively, a name alone converts exactly when it is a key up to case, and then to that key's chain; a class list alone always converts; only RuntimeError is raised |
| ObjectClass.LegacyConvertObjectClass | ds/_convertors_value.py:81-116 | the legacy `convert_object_class` is the current one as written |
| ObjectClass.ChainsDistinct | app/ds/convertors_value.py:90-100 | no two rows of the class table have the same classes, so the first match is the only one |
| ObjectClass.ChainToName | app/ds/convertors_value.py:102-106 | a class list equal (as a sorted list) to a row's chain converts to that row's short name |
| ObjectClass.NameToChain | app/ds/convertors_value.py:107-110 | with case-insensitive lookup, each row's short name converts to that row's chain |
| ObjectClass.ChainRoundTrip | app/ds/convertors_value.py:102-110 | a class list that converts to a short name converts back to the same classes |
| ObjectClass.UnknownChainPassesThrough | app/ds/convertors_value.py:102-106 | a non-empty class list matching no row is returned unchanged |
| ObjectClass.LowerCaseNamesAsWritten | app/ds/convertors_value.py:107-109 | as written, the four all-lower-case short names convert to their chains |
| ObjectClass.MixedCaseNamesRaise | app/ds/convertors_value.py:107-110 | as written, every short name with a capital letter (organizationalUnit, builtinDomain, …) raises, because the lowered name is never a key |
| ObjectClass.OneKeyRule | app/ds/convertors_value.py:85-88 | a non-empty name and a non-empty list together raise, neither given raises, and an empty list beside a name takes the list branch |
| FuncGeneral.Toggle | app/ds/func_general.py:9-31 | one switch sets or clears exactly its bit when given and leaves the value alone when not given; no other bit changes |
| FuncGeneral.GenUac | app/ds/func_general.py:7-33 | `gen_uac` sets ACCOUNTDISABLE to not-enabled and DONT_EXPIRE_PASSWORD, NOT_DELEGATED, PASSWD_NOTREQD to their switches; an absent switch keeps the input bit; every other bit is the input's |
| FuncGeneral.GenUacIdempotent | app/ds/func_general.py:7-33 | applying `gen_uac` twice with the same switches is the same as once |
| FuncGeneral.GenUacExamples | app/ds/func_general.py:9-13 | 0x202 stays 0x202 when disabled, becomes 0x200 when enabled |
| FuncGeneral.ApplyScope | app/ds/func_general.py:67-80 | the scope step succeeds exactly for no scope or a known one (DomainLocal, Global, Universal), and otherwise raises RuntimeError |
| FuncGeneral.ApplyCategory | app/ds/func_general.py:82-88 | the category step succeeds exactly for no category, Security or Distribution, and otherwise raises RuntimeError |
| FuncGeneral.GenGt | app/ds/func_general.py:62-92 | `gen_gt` raises ValueError when the stored word does not convert and RuntimeError for an unknown scope or category, nothing else; a result is a signed 32-bit integer computed only from a convertible word and known names; the word it is, is stated by `FuncGeneral.GenGtPatches` |
| FuncGeneral.GenChangePwdAtLogon | app/ds/func_general.py:36-37 | the pwdLastSet text reads back as 0 when a change at logon is required and -1 otherwise |
| FuncGeneral.GenAccountExpDate | app/ds/func_general.py:40-57 | False gives "0"; a naive datetime, or an ISO string that parses to one, gives decimal text reading back as its tick count; an aware one raises TypeError; an ISO string that does not parse raises ValueError; True or any other value raises RuntimeError |
| FuncGeneral.Ticks | app/ds/func_general.py:44-53 | a datetime converts exactly when it is naive, to decimal text reading back as its tick count; subtracting the naive epoch from an aware one raises TypeError |
| FuncGeneral.FromNamesBySet | app/ds/func_general.py:90-92 | the order and repetition of names do not change `convert_grouptype`, so `list(set(gt))` is harmless |
| FuncGeneral.GenGtPatches | app/ds/func_general.py:62-92 | `gen_gt` succeeds exactly when the input word converts, the scope and category are valid, and the patched word has no mutex clash; it then returns the patched word as a signed value; a bad word is ValueError and a bad scope or category RuntimeError |
| FuncGeneral.GenGtNames | app/ds/func_general.py:77-92 | with valid arguments the name list handed to the final conversion describes the patched word |
| FuncGeneral.GenGtScope | app/ds/func_general.py:67-80 | a scope replaces the three scope bits by exactly the chosen one and keeps the app bits |
| FuncGeneral.GenGtCategory | app/ds/func_general.py:82-88 | Security sets SECURITY_ENABLED, Distribution clears it, no category keeps it |
| FuncGeneral.GenGtUnknownNames | app/ds/func_general.py:74-75 | an unknown scope or category name raises RuntimeError |
| FuncGeneral.AppGroupWithScopeRaises | app/ds/func_general.py:62-92 | setting any scope on an APP_BASIC or APP_QUERY group fails (the mutex check refuses it) |
| FuncGeneral.BuiltinSecurityRaises | app/ds/func_general.py:82-92 | asking for Security on a BUILTIN_LOCAL_GROUP word fails, since both share a mutex group |
| FuncGeneral.PatchIdempotent | app/ds/func_general.py:62-92 | patching a word twice with the same scope and category is the same as once |
| DsData.KindOf | app/ds/func_ds_get.py:118 | a type name selects the kind whose name it matches ignoring case; any other name raises KeyError |
| DsData.KindNamesDistinct | app/ds/data.py:12-23 | distinct kinds have distinct names |
| DsData.KindOfName | app/ds/func_ds_get.py:118 | a type name equal to a kind's name ignoring case selects that kind |
| DsData.MemberIsUnion | app/ds/data.py:22-23 | the member filter is the OR of the user, group, computer and contact filters |
| DsData.Unit | app/ds/data.py:25-32 | `unit` wraps a filter as an AND that starts with the kind's filter, adding three characters plus the filter of the kind |
| DsData.UnitRoundTrip | app/ds/data.py:25-32 | the filter wrapped by `unit` can be read back out |
| DsData.UnunitRoundTrip | app/ds/data.py:25-32 | every text that reads back as a wrapped filter is exactly `unit` of that filter |
| DsData.ObjectUnit | app/ds/data.py:17 | for plain objects `unit` is `(&filter)` |
| DsData.DefaultsStartWithBase | app/ds/data.py:35-47 | every kind's default properties start with distinguishedName, Name, ObjectClass, ObjectGUID |
| DsData.DerivedDefaults | app/ds/data.py:40-44 | groups ask for GroupScope and GroupCategory and users and computers for Enabled by default |
| DsData.LegacyDefaultsDiffer | ds/data.py:27-39 | the legacy defaults equal the current ones except the user's eighth entry, Surname instead of sn |
| Identity.One | app/ds/func_ds_get.py:210 | a one-entry identity map has exactly that key and value |
| Identity.GuidKeysFold | app/ds/func_ds_get.py:213 | the key stored for a GUID (objectGUID) and the key tested (ObjectGUID) are equal ignoring case |
| Identity.TextClass | app/ds/func_ds_get.py:208-221 | a text is a DN when it starts with cn=, ou= or dc=; else a GUID when it has the GUID shape; else a SID when it mentions s-1-5 and the kind has accounts; else an account name for account kinds; else unclassified |
| Identity.Classify | app/ds/func_ds_get.py:208-221 | a classified text becomes a one-entry map under the key of its class holding the text; an unclassified one raises RuntimeError |
| Identity.EqualityRoundTrip | app/ds/func_ds_get.py:226-233 | an equality filter `(attr=value)` reads back as its attribute and value |
| Identity.ExactGet | app/ds/func_ds_get.py:226 | a plain dict holds a value for a key exactly when some entry has that exact key, and the value is one stored under it |
| Identity.MapGet | app/ds/func_ds_set_member.py:42-43 | `get` ignores case on a `DSDict` and is exact on a plain dict |
| Identity.MapItem | app/ds/func_ds_get.py:227-233 | indexing gives the value `get` finds, or KeyError |
| Identity.ExactSet | ds/func_ds_set_member.py:36 | after assigning a key of a plain dict it holds the value, and every other key keeps its value |
| Identity.ExactGetPointwise | ds/func_ds_set_member.py:36 | lists of entries that agree on every entry under a key give the same value for it |
| Identity.MapSet | ds/func_ds_set_member.py:36 | after the assignment the key holds the value, with the key test of the map's type |
| Identity.PlainKeysExact | app/ds/func_ds_get.py:226 | a plain dict misses `sAMAccountName` stored as `samaccountname`, where a `DSDict` finds it |
| Identity.SearchKey | app/ds/func_ds_get.py:226-235 | the chosen key is present in the map, account name first (account kinds only), then DN, GUID, SID, each chosen only when none before it is present; none means none of DN, GUID and SID is present; the key tests ignore case on a `DSDict` and are exact on a plain dict |
| Identity.AsMap | app/ds/func_ds_get.py:208-221 | free text becomes the `DSDict` of its class or raises RuntimeError; a map is kept as it is |
| Identity.PlainMapSearchedExactly | app/ds/func_ds_get.py:226-235 | a plain dict holding `samaccountname` has no usable key and raises RuntimeError, while the same `DSDict` gives `(sAMAccountName=...)` |
| Identity.IdentityFilterAsWritten | app/ds/func_ds_get.py:226-237 | as written, a filter is produced exactly when a key other than the GUID is chosen; choosing the GUID raises KeyError |
| Identity.IdentityFilter | app/ds/func_ds_get.py:226-237 | as intended, a filter is produced exactly when some key is chosen, and it is the equality filter for that key and its value; otherwise RuntimeError |
| Identity.GenFilterToIdAsWritten | app/ds/func_ds_get.py:204-237 | as written, with `return_dict` it agrees with the corrected version; for a map, a filter is produced exactly when a key other than the GUID is chosen, and choosing the GUID raises KeyError |
| Identity.GenFilterToId | app/ds/func_ds_get.py:204-237 | with `return_dict` the identity map is returned (unchanged when a map was given); for a map, a filter line is produced exactly when a usable key is present, and it reads back as that key and its value |
| Identity.AsWrittenAgreesOffGuid | app/ds/func_ds_get.py:226-237 | the written and the intended filter agree whenever the GUID is not the chosen key |
| Identity.SearchKeyOfClass | app/ds/func_ds_get.py:208-233 | the map built from a classified text picks the key it was built with |
| Identity.TextFilterFindsText | app/ds/func_ds_get.py:204-237 | a classified text gives the filter that matches that text under its class's attribute |
| Identity.GuidTextRaisesAsWritten | app/ds/func_ds_get.py:212-231 | as written, every GUID text raises KeyError; as intended, it gives `(ObjectGUID=<text>)` |
| AttributeCodec.HexOf | app/ds/func_ds_get.py:77 | `bytes.hex()` gives two lower-case hex digits per byte |
| AttributeCodec.HexRoundTrip | app/ds/func_ds_get.py:77 | hex text reads back as the bytes it was written from |
| AttributeCodec.HexText | app/ds/func_ds_get.py:77 | the fallback text is `hex:` followed by two digits per byte |
| AttributeCodec.HexTextRoundTrip | app/ds/func_ds_get.py:77 | the fallback conversion loses nothing: its text reads back as the raw value |
| AttributeCodec.SwapFieldsTwice | app/ds/func_ds_get.py:17 | the `bytes_le` byte-order change of a GUID is its own inverse |
| AttributeCodec.UndashDashed | app/ds/func_ds_get.py:17 | removing the dashes of the 8-4-4-4-12 layout gives back the 32 hex digits |
| AttributeCodec.GuidText | app/ds/func_ds_get.py:17 | a 16-byte value becomes a lower-case dashed GUID text; any other length raises ValueError |
| AttributeCodec.GuidRoundTrip | app/ds/func_ds_get.py:17 | a converted GUID reads back as the bytes it came from |
| AttributeCodec.GuidTextIsIdentityGuid | app/ds/func_ds_get.py:17 | a converted GUID, given back as an identity, is recognised as a GUID |
| AttributeCodec.BigEndianRoundTrip | app/ds/func_ds_get.py:244 | writing a number as `width` big-endian bytes and unpacking gives the number |
| AttributeCodec.LittleEndianRoundTrip | app/ds/func_ds_get.py:249 | writing a number as `width` little-endian bytes and unpacking gives the number |
| AttributeCodec.SubAuthoritiesRoundTrip | app/ds/func_ds_get.py:246-250 | 32-bit sub-authorities written little-endian read back as the same list |
| AttributeCodec.SidString | app/ds/func_ds_get.py:240-252 | a SID converts exactly when it has revision 1 and four bytes per announced sub-authority, giving `S-1-<authority>-<sub>...`; otherwise struct.error or AssertionError |
| AttributeCodec.SidRoundTrip | app/ds/func_ds_get.py:240-252 | the binary form of a SID converts to its text form |
| AttributeCodec.NtSidMentionsSid | app/ds/func_ds_get.py:215 | every NT-authority SID text is recognised as a SID when given back as an identity |
| AttributeCodec.CBool | app/ds/func_ds_get.py:277-285 | a boolean text converts only from TRUE or FALSE, to the matching value; anything else raises RuntimeError |
| AttributeCodec.CBoolRoundTrip | app/ds/func_ds_get.py:277-281 | each boolean's text converts back to it |
| AttributeCodec.WinTime | app/ds/func_ds_get.py:259-264 | the four special texts convert to their integers; any other integer text converts to a time exactly when its ticks fall in years 1 to 9999 and raises OverflowError otherwise; a non-integer raises ValueError |
| AttributeCodec.WinTimeOverflows | app/ds/func_ds_get.py:263-264 | every non-special integer outside years 1 to 9999, such as 9223372036854775806, raises OverflowError |
| AttributeCodec.DecimalBytesInjective | app/ds/func_ds_get.py:260 | different integers have different decimal texts, so the special texts are recognised only for their own values |
| AttributeCodec.ChangePasswordAtLogonReadBack | app/ds/func_ds_get.py:52 | ChangePasswordAtLogon reads true exactly when pwdLastSet is the text 0 |
| AttributeCodec.PwdLastSetRoundTrip | app/ds/func_ds_get.py:51-53 | the value written for "change at logon" reads back as true, and any real time stamp reads back as false |
| Derived.BaseOf | app/ds/func_ds_get.py:40-54 | every derived property belongs to the rules of exactly the base attribute it is computed from |
| Derived.RulesPartition | app/ds/func_ds_get.py:40-54 | a derived property is in a base's rules exactly when that base is its base |
| Derived.BaseNotDerived | app/ds/func_ds_get.py:40-54 | no base attribute name equals a derived name ignoring case, so deriving never overwrites a base |
| Derived.DerivedNamesApart | app/ds/func_ds_get.py:40-54 | distinct derived properties have names distinct ignoring case |
| Derived.IntOperand | app/ds/func_ds_get.py:42-45 | the `&` of a flag test works on an integer or a boolean and raises TypeError for any other value |
| Derived.ReturnGroupScope | app/ds/func_ds_get.py:267-274 | the scope is a text exactly when a scope flag is present, Global exactly when ACCOUNT_GROUP is; without one the exception object is returned, not raised |
| Derived.Derive | app/ds/func_ds_get.py:40-54 | the userAccountControl rules give booleans for integer values and TypeError otherwise; GroupCategory is Security or Distribution; groupType errors are TypeError or ValueError; ChangePasswordAtLogon always gives a boolean |
| Derived.UacReadBack | app/ds/func_ds_get.py:41-46 | after `gen_uac`, Enabled, PasswordNeverExpires, AccountNotDelegated and PasswordNotRequired read back as the switches given, or as before when a switch is absent |
| Derived.GroupTypeReadBack | app/ds/func_ds_get.py:47-50 | a valid groupType reads back as the scope of its scope bit and as Security exactly when SECURITY_ENABLED is set |
| Derived.GenGtWord | app/ds/func_general.py:62-92 | a successful `gen_gt` is the signed value of the patched word, and that word converts back to names |
| Derived.GroupTypeUnreadable | app/ds/func_ds_get.py:47-50 | a groupType the convertor refuses makes both group properties raise ValueError |
| Derived.WideGroupType | app/ds/convertors_value.py:63-66 | an integer outside the signed 32-bit range converts like its low six bits when bits 6..30 are clear and raises ValueError otherwise, as Python's unbounded `&` reads it |
| Derived.GroupTypeHighBit | app/ds/convertors_value.py:63-66 | 2147483648 converts without SECURITY_ENABLED, while -2147483648 converts with it |
| Derived.GroupScopeRoundTrip | app/ds/func_ds_get.py:47-48 | the scope given to `gen_gt` is the GroupScope read back from its result |
| Derived.GroupCategoryRoundTrip | app/ds/func_ds_get.py:49 | the category given to `gen_gt` is the GroupCategory read back from its result |
| ObjectProcessing.HandlerFor | app/ds/func_ds_get.py:77 | the attribute's own handler wins, then the handler of its syntax, then the hex fallback |
| ObjectProcessing.HandlerPrecedence | app/ds/func_ds_get.py:16-38 | the GUID and objectClass handlers are chosen exactly for those attribute names (any casing); for other names the fallback is chosen exactly when the syntax has no handler |
| ObjectProcessing.DecodeText | app/ds/func_ds_get.py:23-25 | decoding succeeds exactly on valid UTF-8 and gives its text; otherwise UnicodeDecodeError |
| ObjectProcessing.ConvertValue | app/ds/func_ds_get.py:21-38 | the fallback always succeeds and reads back as the raw bytes; a GUID converts exactly when it is 16 bytes long; a SID exactly when its binary form is well formed |
| ObjectProcessing.ConvertValues | app/ds/func_ds_get.py:21-38 | a list converts element by element, in order; a failure is the failure of some element |
| ObjectProcessing.DecodeAll | app/ds/func_ds_get.py:18 | every value is decoded as UTF-8, in order, or UnicodeDecodeError |
| ObjectProcessing.ApplyHandler | app/ds/func_ds_get.py:77-80 | every handler but objectClass gives one value per raw value; objectClass gives a short name or a list |
| ObjectProcessing.First | app/ds/func_ds_get.py:83 | a single-valued attribute keeps its first element; an empty list or empty text raises IndexError |
| ObjectProcessing.EntryValues | app/ds/func_ds_get.py:62-67 | an attribute without a range marker keeps its values; only a ranged one is fetched further |
| ObjectProcessing.Sequenced | app/ds/func_ds_get.py:60-83 | converting all attributes succeeds with one value per attribute in order, or fails with the failure of some attribute |
| ObjectProcessing.CollectKeys | app/ds/func_ds_get.py:59-80 | the collected map holds exactly the names of the converted pairs, ignoring case |
| ObjectProcessing.CollectValue | app/ds/func_ds_get.py:59-80 | a name maps to the value of the last pair with that name |
| ObjectProcessing.ConvertedKeys | app/ds/func_ds_get.py:60-83 | the converted map holds exactly the attribute names of the entry, with range suffixes cut |
| ObjectProcessing.ConvertedValue | app/ds/func_ds_get.py:60-83 | an attribute not repeated later maps to its own converted value |
| ObjectProcessing.DeriveOne | app/ds/func_ds_get.py:86-90 | a derived property is set exactly when its base is present and it is asked for (by lower-case name or `*`), to the value its rule computes; nothing else changes; an error of the rule propagates |
| ObjectProcessing.DeriveEachValue | app/ds/func_ds_get.py:86-90 | after all rules, each derived property asked for holds its rule's value computed from the converted entry, and one not asked for is untouched |
| ObjectProcessing.DeriveAll | app/ds/func_ds_get.py:86-90 | the same for every derived property in the order of the rules table |
| ObjectProcessing.PopShadows | app/ds/func_ds_get.py:92 | no shadow attribute is left, and every other key keeps its entry |
| ObjectProcessing.ObjectProcessing | app/ds/func_ds_get.py:57-94 | a processed entry is a well-formed map with no shadow attribute, built from a successful conversion |
| ObjectProcessing.Converted | app/ds/func_ds_get.py:60-83 | the converted attributes form a well-formed map; a failure is the failure of some attribute |
| ObjectProcessing.DeriveEach | app/ds/func_ds_get.py:86-90 | deriving properties leaves every attribute that is not derived untouched |
| ObjectProcessing.ObjectProcessingKeeps | app/ds/func_ds_get.py:57-94 | every attribute that is neither derived nor a shadow keeps its converted value |
| ObjectProcessing.ObjectProcessingDerives | app/ds/func_ds_get.py:57-94 | every derived property that is not a shadow holds its rule's value when asked for and its converted entry otherwise |
| Search.Lowered | app/ds/func_ds_get.py:126 | the lowered property list has one lowered name per property |
| Search.ShadowsOf | app/ds/func_ds_get.py:135-145 | a base attribute is a shadow exactly when one of its derived properties is asked for and it is not itself asked for |
| Search.Augment | app/ds/func_ds_get.py:123-145 | with `*` nothing is added; otherwise the asked properties come first, unchanged |
| Search.AugmentForces | app/ds/func_ds_get.py:129-133 | without `*`, distinguishedName and objectClass are always fetched |
| Search.AugmentShadows | app/ds/func_ds_get.py:135-145 | without `*`, the lowered base name is a shadow exactly when the base needs one |
| Search.ShadowNamesApart | app/ds/func_ds_get.py:40-54 | distinct base attributes have distinct shadow names |
| Search.WildcardCheck | app/ds/func_ds_get.py:120-121 | a search for one object refuses a filter holding `*`, with RuntimeError |
| Search.ScopeOf | app/ds/func_ds_get.py:147-154 | a scope name maps to the scope of that name; an unknown name raises RuntimeError |
| Search.ScopeRoundTrip | app/ds/func_ds_get.py:147-152 | each scope's name maps back to it |
| Search.ExactlyOne | app/ds/func_ds_get.py:196-201 | a search for one object succeeds exactly when it found one; none or several raise RuntimeError; the results are returned unchanged |
| Search.FirstDomainContext | app/ds/ds_function.py:16 | the root DSE gives the first naming context starting with `dc=` (any case); with none, IndexError |
| Search.SearchRootDse | app/ds/ds_function.py:4-16 | the naming context returned starts with `dc=`; failures are a decoding error or IndexError |
| Search.Named | app/ds/func_ds_get.py:174-175 | exactly the results with a DN are kept, in order |
| Search.Kept | app/ds/func_ds_get.py:174-177 | one processed object per result with a DN, in order, or the failure of processing one of them |
| Search.PagedStops | app/ds/func_ds_get.py:179-194 | pages after the first page without a cookie are never read |
| Search.KeptFrom | app/ds/func_ds_get.py:174-177 | every object kept from a page is the processing of some entry |
| Search.Paged | app/ds/func_ds_get.py:170-194 | the reference for the paging loop: every object collected over the pages is the processing of some entry |
| Search.PagedReads | app/ds/func_ds_get.py:170-194 | reading pages up to the first without a cookie succeeds and collects every named result of those pages |
| Search.KeepEntries | app/ds/func_ds_get.py:174-177 | the loop over one page computes the kept objects of that page |
| Search.CollectPages | app/ds/func_ds_get.py:168-194 | the paging loop computes the objects of all pages up to the one without a cookie |
| Search.SearchObject | app/ds/func_ds_get.py:113-201 | a filter rewrite error propagates; an unknown kind raises KeyError; success means a known kind and scope; a one-object search returns exactly one object and had no `*` in the final filter; no result holds a shadow attribute; the result is the pages processed object by object, and with a valid filter, kind and scope the search succeeds exactly when every object processes and, for a one-object search, exactly one came back |
| Search.SecondPart | app/ds/ds_function.py:24 | `split(sep)[1]` fails with IndexError exactly when the separator does not occur |
| Search.FirstStartOfWindow | app/ds/ds_function.py:24 | the first start after a ranged name `attr;range=a-b` is `b+1` |
| Search.RequestBounds | app/ds/ds_function.py:31 | the range request text reads back as its two bounds |
| Search.RangeRound | app/ds/ds_function.py:36-51 | a round that continues has values; a round's failures are IndexError or ValueError |
| Search.EchoedWindow | app/ds/ds_function.py:38-51 | a reply echoing the requested window with values continues after its end |
| Search.EchoedLastWindow | app/ds/ds_function.py:45-48 | a reply whose window ends with `*` ends the retrieval with its values |
| Search.RangeWindowsStep | app/ds/ds_function.py:30-51 | the windows requested are the first window followed by those requested from the end the server reported plus one |
| Search.RangeWindows | app/ds/ds_function.py:24-51 | the first window asked for starts at the given start and spans the step |
| Search.RangeFromConcat | app/ds/ds_function.py:40-51 | a round that continues contributes its values ahead of all later rounds |
| Search.RangeWindowsWidth | app/ds/ds_function.py:23-25 | every window requested is 1499 wide |
| Search.RangeWindowsFollow | app/ds/ds_function.py:45-51 | each later window starts right after the end the server reported in the previous round |
| Search.RangeLoop | app/ds/ds_function.py:30-53 | the loop returns the concatenated values of all rounds up to the last one, and requests exactly the reference windows |
| Search.SearchAttributeRange | app/ds/ds_function.py:19-53 | a malformed starting attribute fails before any request; otherwise the values and windows are those of the reference definition |
| DsSet.OpList | app/ds/func_ds_set.py:46-62 | the modify list holds the removals, then the additions, then the replacements, then the clears (a delete without values), each in the order given |
| DsSet.SelectSpecials | app/ds/func_ds_set.py:64-70 | specials are refused with RuntimeError exactly when one of them names (ignoring case) an attribute already in the modify list; otherwise the specials with a value are kept, in order |
| DsSet.SelectSpecialsAsWritten | app/ds/func_ds_set.py:64-65 | as written, a missing `special` raises AttributeError |
| DsSet.SelectSpecialsOrNone | app/ds/func_ds_set.py:64-70 | as intended, a missing `special` selects nothing, and a given one is selected as written |
| DsSet.HandlerOf | app/ds/func_ds_set.py:33-39 | userAccountControl, groupType, pwdLastSet and accountExpires (any casing) select their own handler; any other name the default |
| DsSet.UacOperand | app/ds/func_ds_set.py:8-13 | a fetched value that is not an integer makes the bit operations raise TypeError |
| DsSet.HandleUac | app/ds/func_ds_set.py:8-13 | the userAccountControl handler needs a map of switches (otherwise AttributeError) and writes the decimal text of `gen_uac` applied to the fetched value |
| DsSet.HandleGroupType | app/ds/func_ds_set.py:16-18 | the groupType handler needs a map (otherwise AttributeError) and writes the decimal text of `gen_gt` with the given scope and category, failing exactly when `gen_gt` fails |
| DsSet.HandleExpiration | app/ds/func_ds_set.py:25-26 | the accountExpires handler succeeds exactly when `gen_account_exp_date` does, writing a decimal text; False writes "0" |
| DsSet.ExpirationParses | app/ds/func_ds_set.py:25-26 | every accountExpires value the handler writes is a decimal integer |
| DsSet.GroupTypeOfIsGenGt | app/ds/func_ds_set.py:16-18 | the groupType handler on a fetched integer is `gen_gt` on the word Python's unbounded `&` sees in that integer |
| DsSet.Handle | app/ds/func_ds_set.py:83-85 | the default handler passes the special value through; pwdLastSet writes 0 for a truthy value and -1 otherwise; the other handlers write decimal text |
| DsSet.WrittenUacReadsBack | app/ds/func_ds_set.py:8-13 | the userAccountControl written by a special reads back, through the derived properties, as the switches given |
| DsSet.WrittenScopeReadsBack | app/ds/func_ds_set.py:16-18 | the groupType written with a scope reads back as that GroupScope |
| DsSet.WrittenCategoryReadsBack | app/ds/func_ds_set.py:16-18 | the groupType written with a category reads back as that GroupCategory |
| DsSet.SpecialStepAsWritten | app/ds/func_ds_set.py:85-89 | as written, a special whose attribute the object lacks raises KeyError, and every successful step is a replace |
| DsSet.SpecialStep | app/ds/func_ds_set.py:82-91 | as intended, one special yields one modification of its own attribute and a map that stays well formed |
| DsSet.ApplySpecialsAsWritten | app/ds/func_ds_set.py:82-91 | as written, the specials give one replace per special, in order |
| DsSet.AsWrittenMissingRaises | app/ds/func_ds_set.py:85 | as written, a first special that the fetched object lacks raises KeyError |
| DsSet.ApplySpecials | app/ds/func_ds_set.py:82-91 | as intended, the specials yield one modification each, in order, each on its own attribute |
| DsSet.SpecialStepAction | app/ds/func_ds_set.py:88-91 | as intended, a special is a replace exactly when the object has the attribute and an add exactly when it lacks it |
| DsSet.SpecialsFollowObject | app/ds/func_ds_set.py:82-91 | as intended, each special's operation is a replace or an add according to whether the fetched object had that attribute |
| DsSet.AgreesWhenPresent | app/ds/func_ds_set.py:82-91 | when the object has every special's attribute, the written and the intended steps give the same result |
| DsSet.MissingDisplayName | app/ds/func_ds_set.py:82-91 | a concrete object without displayName: the written code raises KeyError, the intended one adds displayName |
| DsSet.EncodeValues | app/ds/func_ds_set.py:98-103 | values encode exactly when they are all strings, each as its key demands; otherwise AttributeError, as `.encode` raises for every key but unicodePwd |
| DsSet.EncodeOp | app/ds/func_ds_set.py:97-103 | a modification encodes exactly when its values are strings or absent, as its key demands; otherwise AttributeError, as for `DsSet.EncodeValues` |
| DsSet.EncodeOps | app/ds/func_ds_set.py:96-104 | the whole list encodes exactly when every operation does, keeping action, key and order; a clear stays without values |
| DsSet.EncodedReadsBack | app/ds/func_ds_set.py:103 | every non-password value sent reads back, as UTF-8, as the string that was given |
| DsSet.FetchList | app/ds/func_ds_set.py:77 | the properties fetched are the keys of the modify list followed by the specials with a value |
| DsSet.Finish | app/ds/func_ds_set.py:93-113 | an empty modify list raises RuntimeError; otherwise the encoded list is sent to the object's DN unless dry run, in which case nothing is sent |
| DsSet.Assemble | app/ds/func_ds_set.py:72-113 | a failing special's error propagates; otherwise nothing is sent on a dry run, and the modification sent is the explicit operations then the operations the specials compute from the fetched object, all encoded, to the DN the object holds once the specials are stored |
| DsSet.DsSet | app/ds/func_ds_set.py:42-113 | as intended, a special that collides with an explicit attribute raises RuntimeError; on success the modification is sent exactly when not a dry run, after fetching the explicit keys and the specials with a value, and is what `DsSet.Assemble` states for the object fetched |
| DsSet.SpecialsFromFetched | app/ds/func_ds_set.py:82-91 | with special keys distinct in any casing, applying the specials one after another succeeds exactly when each succeeds against the object as fetched, gives their operations in order, and leaves every other key as fetched |
| DsSet.SendsFromFetched | app/ds/func_ds_set.py:82-113 | the modification sent is the explicit operations encoded, then each special's operation computed from the fetched object and encoded, to the fetched DN when no special names distinguishedName |
| DsSet.DsSetSends | app/ds/func_ds_set.py:42-113 | a successful `ds_set` that is not a dry run sends what `DsSet.SendsFromFetched` states for the object its search fetched |
| DsSet.DsSetAsWritten | app/ds/func_ds_set.py:42-113 | as written, a call without `special` raises AttributeError |
| DsSet.UnlockWithoutSpecial | app/ds/func_ds_set.py:64-65 | unlocking (lockoutTime set to 0, no special) raises AttributeError as written; as intended it sends exactly one replace of lockoutTime to the object's DN |
| DsSet.SingleReplace | app/ds/func_ds_set.py:42-113 | one plain replace is sent as a single UTF-8 encoded replace to the object's DN |
| Modify.EncodeStrings | app/ds/func_ds_set.py:100-103 | every value of an attribute is encoded the same way, in order |
| Modify.PasswordQuoted | app/ds/func_ds_set.py:100-101 | a password is sent as a quote, its UTF-16LE code units and a quote |
| Modify.PlainReadsBack | app/ds/func_ds_set.py:102-103 | any other value reads back, as UTF-8, as the string that was sent |
| DsNew.BaseHolds | app/ds/func_ds_new.py:16-22 | the new object's map holds the class chain under objectClass, the name under cn and name, and displayName exactly when it is shown |
| DsNew.DisplayNameReplacedByName | app/ds/func_ds_new.py:21-22 | a concrete call: as written displayName receives the name, as intended the display name |
| DsNew.CheckOthers | app/ds/func_ds_new.py:27-30 | extra attributes are refused with RuntimeError exactly when one of them is already in the map (ignoring case) |
| DsNew.Attributes | app/ds/func_ds_new.py:24-31 | the map after `extend` and the extra attributes is well formed, and building it fails with RuntimeError exactly when an extra attribute is already present |
| DsNew.AttributeLookup | app/ds/func_ds_new.py:24-31 | in the final map a key holds the last extra attribute naming it, else the last `extend` entry naming it, else its base entry |
| DsNew.BaseSent | app/ds/func_ds_new.py:16-31 | unless overridden, objectClass and displayName are sent as the base map set them |
| DsNew.OtherCollides | app/ds/func_ds_new.py:29-30 | an extra attribute already set by the base or by `extend` raises RuntimeError |
| DsNew.EncodeAttributes | app/ds/func_ds_new.py:35-39 | every value is encoded as its key demands, keeping keys, order and counts |
| DsNew.AddReadsBack | app/ds/func_ds_new.py:38-39 | every non-password value sent reads back, as UTF-8, as the string given |
| DsNew.AddPasswordQuoted | app/ds/func_ds_new.py:36-37 | a unicodePwd value is sent as a quoted UTF-16LE string |
| DsNew.Compose | app/ds/func_ds_new.py:16-41 | the attributes sent are exactly the encoded final map, and exist exactly when no extra attribute collides |
| DsNew.BaseLookup | app/ds/func_ds_new.py:16-22 | before `extend`, displayName holds the shown name, cn and name the object's name, objectClass the class chain, and every other key is absent |
| DsNew.EncodedLookup | app/ds/func_ds_new.py:35-41 | the add request answers every key with the map's own values for it, encoded as that key demands |
| DsNew.ComposeSends | app/ds/func_ds_new.py:16-41 | each attribute sent holds the last extra attribute naming it, else the last `extend` entry naming it, else its base entry, encoded; a key `extend` sets is never among the accepted extra attributes |
| DsNew.ComposeAll | app/ds/func_ds_new.py:16-41 | `DsNew.ComposeSends` for every key at once |
| DsNew.DisplaySent | app/ds/func_ds_new.py:21-22 | unless `extend` or the extra attributes name it, displayName is sent as the one shown value, UTF-8 encoded |
| DsNew.ExtendSent | app/ds/func_ds_new.py:24-25 | an `extend` entry of a creation that succeeds is sent with exactly its values, encoded as its key demands |
| DsNew.ExtendSentPlain | app/ds/func_ds_new.py:38-39 | a single plain `extend` value is sent as its UTF-8 bytes and reads back as itself |
| DsNew.ExtendSentPassword | app/ds/func_ds_new.py:36-37 | a single unicodePwd value in `extend` is sent as the quoted UTF-16LE password |
| DsNew.ChainOf | app/ds/func_ds_new.py:17 | the class chain of the type name, or the convertor's error |
| DsNew.DsNewAsWritten | app/ds/func_ds_new.py:12-41 | as written, the DN is `CN=<escaped name>,<path>`, a type name the convertor cannot look up raises RuntimeError, and every attribute sent holds its last extra attribute, else its last `extend` entry, else its base entry, encoded; a given display name that nothing overrides sends displayName as the object's name |
| DsNew.DsNew | app/ds/func_ds_new.py:12-41 | as intended, the add request is `CN=<escaped name>,<path>` and is built exactly when not a dry run; an unknown type name raises RuntimeError; every attribute is sent as `DsNew.ComposeSends` states, and a given display name that nothing overrides is sent as displayName |
| SetMember.ParseAction | app/ds/func_ds_set_member.py:10-15 | `add` and `remove` select their operation; anything else raises TypeError |
| SetMember.MemberSeq | app/ds/func_ds_set_member.py:33-34 | a single member text is a one-element list; a list is taken as it is |
| SetMember.IdMapOf | app/ds/func_ds_set_member.py:38-39 | a member text becomes the `DSDict` `gen_filter_to_id` returns for it; a map, `DSDict` or plain dict, is kept as it is |
| SetMember.SliceFrom | app/ds/func_ds_set_member.py:31 | Python slicing from an index, with negative indices counted from the end |
| SetMember.GroupDomainFromDc | app/ds/func_ds_set_member.py:31 | the group's domain is the lowered base from its first `dc=` on |
| SetMember.GroupDomainWithoutDc | app/ds/func_ds_set_member.py:31 | without `dc=` in the base, `find` returns -1 and the domain is the base's last character |
| SetMember.ResolveGroup | app/ds/func_ds_set_member.py:17-28 | a `DSDict` naming a group with a DN is used as it is; anything else, a plain dict included, is searched for as a group |
| SetMember.ForeignOf | app/ds/func_ds_set_member.py:43-48 | a member from another domain is referenced through its foreign security principal, which needs objectSid and objectClass (spelled exactly in a plain dict); otherwise TypeError |
| SetMember.FoundDn | app/ds/func_ds_set_member.py:53-63 | a member without a DN is searched for and referenced by the DN found |
| SetMember.MapRef | app/ds/func_ds_set_member.py:41-63 | a member of another domain goes by its foreign reference, one with a DN in the group's domain by its DN, and one without a DN by a search; a plain dict's keys are tested exactly |
| SetMember.MemberRef | app/ds/func_ds_set_member.py:37-63 | a member map is referenced as `MapRef` says, with the key tests of its type; a member text succeeds only when it classifies, and is referenced as its `DSDict` |
| SetMember.Issue | app/ds/func_ds_set_member.py:67-93 | one modification per member, in order; it fails exactly when the server gives an error not tolerated for the action (already a member on add, not a member or unwilling on remove), with that error |
| SetMember.Prepare | app/ds/func_ds_set_member.py:8-65 | any action other than add or remove raises TypeError; a plan names the parsed action, the DN of the resolved group and the members' references |
| SetMember.DsSetMember | app/ds/func_ds_set_member.py:8-93 | a dry run sends nothing and succeeds exactly when planning does; otherwise one modification per member reference, each on the group's DN |
| SetMember.DryRunMirrors | app/ds/func_ds_set_member.py:67-93 | whenever the real run succeeds the dry run succeeds too, and a dry run that succeeds where the real run fails means the server refused some member |
| SetMember.ForeignMemberAdded | app/ds/func_ds_set_member.py:42-78 | a member of another domain that is already present is added through its foreign reference without error, for a `DSDict` and a plain dict alike |
| SetMember.LegacyGroupProperties | ds/func_ds_set_member.py:23 | the legacy code fetches the member list only when removing, and always the DN |
| SetMember.LegacyMapRef | ds/func_ds_set_member.py:35-48 | a legacy member with a DN is referenced as `<SID=...>` and raises KeyError without objectSid; one without a DN is searched for, tagged with objectClass 'member', and referenced by the SID found; a plain dict's keys are tested and set exactly |
| SetMember.LegacyMemberRef | ds/func_ds_set_member.py:34-48 | a legacy member map is referenced as `LegacyMapRef` says |
| SetMember.EncodeRefs | ds/func_ds_set_member.py:50 | every reference is sent as UTF-8 and reads back as itself |
| SetMember.LegacySetMember | ds/func_ds_set_member.py:11-53 | the legacy call raises TypeError for an unknown action; it succeeds exactly when the action parses, the group search finds a group with a DN and every member resolves; it then sends one modification of `member`, on the DN the group search found, with the action's code and one UTF-8 value per member reference, in order |
| DsHook.CheckedScheme | app/ds/ds_hook.py:19-22 | only ports 636 and 389 are accepted, as `ldaps` and `ldap`; any other port raises, ValueError in the current tree and RuntimeError in the legacy one |
| DsHook.ConnectLineParts | app/ds/ds_hook.py:89 | a connect line splits back into its scheme, `://`, the host, `:` and a decimal text that parses to the port |
| DsHook.Hosts | app/ds/ds_hook.py:71 | a host text is split at commas into pieces without commas that join back to the text; a host list is used as it is |
| DsHook.OneHost | app/ds/ds_hook.py:71 | a host text without a comma is the only host |
| DsHook.ConnectLines | app/ds/ds_hook.py:87-89 | one connect line per host, in order, each built from the scheme, that host and the port |
| DsHook.Failover | app/ds/ds_hook.py:87-115 | the first line whose server is not down decides: it binds and is the session, or its bind error is raised; when every server is down TimeoutError is raised |
| DsHook.FailoverLoop | app/ds/ds_hook.py:87-115 | the host loop with its `for … else` computes the same outcome as `Failover` |
| DsHook.Open | app/ds/ds_hook.py:64-119 | a bad port raises ValueError before any connection; the session is the failover's line; a given base is kept, otherwise the root DSE of the bound line supplies it |
| DsHook.LegacyOpen | ds/ds_hook.py:17-47 | the legacy session uses one host: a bad port raises RuntimeError, a server that is down raises the directory's error, and a session is the bound connect line |
| DsHook.OneHostAgrees | ds/ds_hook.py:17-47 | with one host whose server is up the two trees open the same session |
| DsHook.Unique | app/ds/ds_hook.py:153 | deduplicating keeps exactly the same elements, each once |
| DsHook.Properties | app/ds/ds_hook.py:145-158 | `*` must be the only property asked for, else RuntimeError; otherwise the properties are the casefolded requested ones plus the kind's defaults, without repeats when the defaults have none, and an unknown kind raises KeyError |
| DsHook.PropertiesStable | app/ds/ds_hook.py:145-158 | asking again for the properties a first call produced gives the same set |
| DsHook.QueryOf | app/ds/ds_hook.py:160-184 | exactly one of identity and filter must be given, else RuntimeError; the query is the one given |
| DsHook.GetObject | app/ds/ds_hook.py:126-186 | property errors come first; then the query decides; an identity query asks for exactly one object, a filter query does not |
| DsHook.MemberOfFilterNamesDn | app/ds/ds_hook.py:292 | the member filter is `(memberOf=` + the group's DN + `)` |
| DsHook.GroupMembers | app/ds/ds_hook.py:264-297 | the group (taken as given in the current tree when it is a `DSDict` group with a DN, searched for otherwise, a plain dict always) must have a DN; its members are searched with the member properties, as 'member' objects in the current tree and as any object in the legacy tree |
| DsHook.GivenGroupNotSearched | app/ds/ds_hook.py:275-277 | a `DSDict` group with a DN is used without searching, whatever the search would return |
| DsHook.UacToggles | app/ds/ds_hook.py:360-367 | the toggle map holds exactly the given account toggles and never PasswordNotRequired |
| DsHook.UserTogglesApplied | app/ds/ds_hook.py:360-367 | applying the toggle map to a userAccountControl value is `gen_uac` with the same toggles |
| DsHook.NamedSpecials | app/ds/ds_hook.py:353-355 | displayName, description and sAMAccountName are set exactly when given |
| DsHook.UserSpecials | app/ds/ds_hook.py:348-367 | a userPrincipalName without `@` raises RuntimeError; otherwise every special is present exactly when given, and the userAccountControl map exactly when some toggle is given, with those toggles |
| DsHook.GroupChoices | app/ds/ds_hook.py:398-402 | the groupType map holds exactly the given scope and category |
| DsHook.GroupSpecials | app/ds/ds_hook.py:392-402 | the named specials are present exactly when given; groupType is present exactly when a scope or category is, and is a map whose scope and category read back as given |
| DsHook.ObjectSpecials | app/ds/ds_hook.py:315-318 | objects, computers and contacts always pass both displayName and description, and only the given ones take effect |
| DsHook.NotRequiredOff | app/ds/ds_hook.py:466 | the password special clears PasswordNotRequired and touches no other toggle |
| DsHook.PasswordSpecial | app/ds/ds_hook.py:466 | the password special is the userAccountControl map alone |
| DsHook.PasswordClearsNotRequired | app/ds/ds_hook.py:457-466 | after a password change the PASSWD_NOTREQD bit is clear and every other bit is unchanged |
| DsHook.SetAccountPassword | app/ds/ds_hook.py:455-466 | a password change sends nothing on a dry run; otherwise, against the object fetched, it replaces unicodePwd with the quoted UTF-16LE password, then replaces userAccountControl with the decimal text of the fetched value with PASSWD_NOTREQD cleared and every other bit kept, to the fetched DN |
| DsHook.PasswordCall | app/ds/ds_hook.py:464-466 | the password change is a `ds_set` with one unicodePwd replace and the userAccountControl special, so what it sends is computed from the object fetched for both keys |
| DsHook.UacSpecialSent | app/ds/func_ds_set.py:8-13 | the userAccountControl special with PasswordNotRequired off is a replace whose one value decodes to the fetched value with PASSWD_NOTREQD cleared and every other bit kept |
| DsHook.PasswordSent | app/ds/ds_hook.py:464-466 | the modification sent for a password change is the unicodePwd replacement followed by the userAccountControl one |
| DsHook.NewUserExtend | app/ds/ds_hook.py:578-599 | the new user's map is well formed and holds userAccountControl as `gen_uac(NORMAL_ACCOUNT, …, False)`, the optional pwdLastSet, accountExpires and userPrincipalName exactly when given, the password and sAMAccountName; a bad expiration raises its error |
| DsHook.NormalAccountBits | app/ds/ds_hook.py:581 | NORMAL_ACCOUNT has the bit 0x200 and none of the toggled bits |
| DsHook.NewUserAccountFlags | app/ds/ds_hook.py:580-586 | a new user is a normal account that needs a password, disabled exactly when `enabled` is false, and with PasswordNeverExpires and AccountNotDelegated exactly when asked for |
| DsHook.NewUser | app/ds/ds_hook.py:556-602 | as intended, a new user is added as `CN=<escaped name>,<path>` exactly when not a dry run, and a bad expiration raises its error; the request sends sAMAccountName as given, unicodePwd as the quoted UTF-16LE password, accountExpires as `gen_account_exp_date`'s text when given, and userAccountControl as the decimal text of `gen_uac(NORMAL_ACCOUNT, …, False)` |
| DsHook.NewUserSent | app/ds/ds_hook.py:597-602 | the user's add request sends sAMAccountName as given and unicodePwd as the quoted UTF-16LE password |
| DsHook.NewUserAccountSent | app/ds/ds_hook.py:580-592 | the user's add request sends userAccountControl as the decimal text of `gen_uac(NORMAL_ACCOUNT, …, False)` and, when an expiration is given, accountExpires as `gen_account_exp_date`'s text |
| DsHook.NewUserAsWritten | app/ds/ds_hook.py:601-602 | as written, creating a user always fails: a bad expiration raises its error, and otherwise passing `dry_run` to `ds_new` raises TypeError |
| DsHook.NewGroupExtend | app/ds/ds_hook.py:620-623 | the new group's map is well formed and holds sAMAccountName and groupType as `gen_gt(0, scope, category)`; a bad scope or category raises its error |
| DsHook.NewGroup | app/ds/ds_hook.py:604-626 | as intended, a new group is added as `CN=<escaped name>,<path>` exactly when not a dry run; a bad scope or category raises its error; the request sends sAMAccountName as given and groupType as the decimal text of `gen_gt(0, scope, category)` |
| DsHook.NewGroupAsWritten | app/ds/ds_hook.py:625-626 | as written, creating a group always fails, with TypeError once the group type is valid |
| DsHook.NewContact | app/ds/ds_hook.py:628-640 | as intended, a new contact is added as `CN=<escaped name>,<path>` exactly when not a dry run, every attribute sent being the contact chain, name and shown display name overridden by the extra attributes, encoded |
| DsHook.CreationDryRun | app/ds/ds_hook.py:628-640 | a dry run of a creation succeeds exactly when the real call would, and then sends nothing |
| SdsHook.NameRoundTrip | app/scheduler/ds.py:69-74 | the method name a client stores in `type_query` is looked up by the worker as the same operation |
| SdsHook.OpOf | app/scheduler/ds.py:69-74 | an operation the worker's lookup of `type_query` finds is the one the text names |
| SdsHook.UnknownName | app/scheduler/ds.py:69-74 | a `type_query` the worker finds no operation for is no operation's name, so the lookup fails only for texts no client writes |
| SdsHook.ParamNames | app/sds/sds_hook.py:163-682 | new_user, new_group and new_contact pack `path` and `name` first and no identity; every other operation packs `identity` first |
| SdsHook.Required | app/ds/ds_hook.py:126-702 | the parameters the direct hook declares without a default are a prefix of the packed names |
| SdsHook.ParamsDistinct | app/sds/sds_hook.py:183-185 | no operation packs two arguments under the same name |
| SdsHook.Pack | app/sds/sds_hook.py:183-185 | the packed query holds exactly the arguments that are not None, each under its own name |
| SdsHook.PackedKeys | app/sds/sds_hook.py:183-185 | a name is a key of the packed query exactly when its argument is not None |
| SdsHook.ConnParams | app/sds/sds_hook.py:141-142 | the connection parameters are the seven session arguments in order, with base present exactly when one was given |
| SdsHook.EncodeParam | app/sds/sds_hook.py:34-46 | a value is sealed only when `json.dumps` accepts it; a datetime or an exception object anywhere inside raises TypeError, and a sealing failure propagates |
| SdsHook.Enqueue | app/sds/sds_hook.py:34-58 | a request is inserted exactly when both the connection parameters and the packed query can be sealed, as a waiting row with no result, the operation's name and both sealed texts; an argument `json.dumps` refuses raises TypeError |
| SdsHook.ConnStorable | app/sds/sds_hook.py:141-143 | the connection parameters are always accepted by `json.dumps` and come back from `json.loads` unchanged |
| SdsHook.PackStorable | app/sds/sds_hook.py:183-188 | a packed query is accepted by `json.dumps` exactly when every argument is |
| SdsHook.LoadedAll | app/scheduler/ds.py:50 | each argument as `json.loads` gives it back, one per argument |
| SdsHook.PackLoaded | app/scheduler/ds.py:50 | a packed query read back by `json.loads` is the packing of the arguments as read back |
| SdsHook.TruncDiv | app/sds/sds_hook.py:66 | `int(a / b)` truncates toward zero |
| SdsHook.Polls | app/sds/sds_hook.py:66 | the row is polled `int(timeout / 10)` times, none when the timeout is under 10 seconds |
| SdsHook.PollTimesAsWritten | app/sds/sds_hook.py:62-87 | as written, poll i happens 10 + i * int(timeout / 10) seconds after the insert |
| SdsHook.DefaultTimeoutAsWritten | app/sds/sds_hook.py:62-89 | as written, the default timeout of 300 polls 30 times and gives up after 910 seconds |
| SdsHook.PollTimes | app/sds/sds_hook.py:62-87 | as intended, poll i happens 10 + 10 * i seconds after the insert |
| SdsHook.GiveUp | app/sds/sds_hook.py:87-89 | as intended, the client gives up 10 seconds after its last poll |
| SdsHook.GiveUpWithinTimeout | app/sds/sds_hook.py:62-89 | as intended, the client gives up after the timeout and at most 10 seconds later |
| SdsHook.Pairs | app/sds/sds_hook.py:84 | a JSON object's entries as key and value pairs, in order |
| SdsHook.Elements | app/ds/ds_dict.py:71 | iterating a list or tuple gives its items, a string its one-character strings, a dict its keys; a number, a boolean or None cannot be iterated |
| SdsHook.PairOf | app/ds/ds_dict.py:71-72 | an element unpacks into a key and a value exactly when iterating it gives two values, the first of them text; a non-iterable raises TypeError, another count ValueError, a key that is not text AttributeError |
| SdsHook.ToObject | app/ds/ds_dict.py:63-72 | `DSDict(i)`: a dict gives its entries, None and the empty string an empty map; a non-empty string raises ValueError and a number TypeError; a list or tuple is accepted exactly when every element unpacks, giving the map of those pairs, and otherwise raises the error of the first element that does not |
| SdsHook.PairListAccepted | app/ds/ds_dict.py:71-72 | a list holding a two-element list and a two-character string gives one key for each |
| SdsHook.NonPairsRefused | app/ds/ds_dict.py:71-72 | a pair with a number as key raises AttributeError, a two-character string on its own ValueError, a number TypeError |
| SdsHook.Answer | app/sds/sds_hook.py:80-85 | an error row raises RuntimeError with its result; a complete row returns its result, and a list succeeds exactly when `DSDict` accepts every element, as one map per element, raising the failure of an element that it refuses |
| SdsHook.FirstSeen | app/sds/sds_hook.py:66-77 | the first poll at which the row is finished, or none when it never is |
| SdsHook.Outcome | app/sds/sds_hook.py:66-89 | the request raises TimeoutError exactly when no poll sees the row finished |
| SdsHook.Request | app/sds/sds_hook.py:64-89 | looking at the given times, the answer is that of the first look that finds the row finished, TimeoutError exactly when no look does; the row is deleted exactly when the answer is a value, because an exception inside the transaction rolls the DELETE back |
| SdsHook.RequestAsWritten | app/sds/sds_hook.py:62-89 | as written, the looks come at 10 + i * int(timeout / 10) seconds, and the call times out exactly when none of these looks sees the row finished |
| SdsHook.RequestIntended | app/sds/sds_hook.py:62-89 | as intended, the looks come every ten seconds after the first wait, and the call times out exactly when none of them sees the row finished |
| SdsHook.UnseenAsWritten | app/sds/sds_hook.py:66-87 | as written, no look sees the row exactly when none at 10 + j * int(timeout / 10) seconds does |
| SdsHook.UnseenIntended | app/sds/sds_hook.py:66-87 | as intended, no look sees the row exactly when none at 10 + 10 * j seconds does |
| SdsHook.FirstSeenAt | app/sds/sds_hook.py:66-77 | a poll that sees the row finished after polls that did not is the first one |
| JsonData.KeysOf | app/sds/sds_hook.py:183-185 | the keys of a JSON object, in order |
| JsonData.AsLoadedLoads | app/scheduler/ds.py:50 | what `json.loads` gives back for a value `json.dumps` accepts holds no tuple and no foreign value, and a value that already has that form comes back unchanged |
| JsonData.LoadedCons | app/scheduler/ds.py:50 | an object is read back entry by entry, keeping its keys and their order |
| JsonData.AsLoadedNull | app/scheduler/ds.py:50 | only None reads back as None |
| LogMask.Lowered | app/systems/config.py:156 | every configured key is lowered |
| LogMask.ReadAny | app/systems/config.py:51-72 | the environment value wins when non-empty, else the file's non-empty value; a missing option raises NoOptionError and an empty value everywhere raises ValueError |
| LogMask.MaskKeys | app/systems/config.py:154-157 | the keys exist exactly when the setting can be read, and are then the lowered configured ones plus `password` and `account_password`, so never empty; an unreadable setting raises what `_read_any` raises |
| LogMask.Mask | app/systems/logging.py:17-23 | `mask_dict`'s result hides every value under a masked key at any depth and keeps the shape and everything else |
| LogMask.HidesOnlyMask | app/systems/logging.py:17-23 | masking is the only result that hides like that |
| LogMask.MaskCleans | app/systems/logging.py:17-23 | a masked value has no visible value under a masked key |
| LogMask.CleanUnchanged | app/systems/logging.py:17-23 | a value with nothing to hide is left as it is |
| LogMask.MaskIdempotent | app/systems/logging.py:17-23 | masking twice is masking once |
| LogMask.PasswordHidden | app/systems/logging.py:14-20 | with the keys of any readable setting, a `password` key in any casing is hidden |
| LogMask.EmptyKeysMaskAll | app/systems/logging.py:14-20 | `mask_dict` under an empty key list, whose pattern is empty and matches every key, hides every value of a dict; the configuration never builds that list |
| Scheduler.Kwargs | app/scheduler/ds.py:73-74 | only a JSON object can be spread as keyword arguments; anything else raises TypeError |
| Scheduler.Bind | app/scheduler/ds.py:73-74 | binding keyword arguments to a signature fails only with TypeError |
| Scheduler.PackBinds | app/scheduler/ds.py:73-74 | a packed query binds to its method exactly when every required argument was given |
| Scheduler.ConnBinds | app/scheduler/ds.py:73 | the connection parameters always bind to the session's constructor |
| Scheduler.Execute | app/scheduler/ds.py:68-76 | a parameter that cannot be decoded raises its error; success needs a known operation name |
| Scheduler.ErrorResult | app/scheduler/ds.py:79 | the stored error is an object with the single key `error` |
| Scheduler.Process | app/scheduler/ds.py:67-83 | a processed row is finished, keeps every other column, is complete exactly when the call succeeds with its value as result, and otherwise holds the error |
| Scheduler.RemoteCallRuns | app/scheduler/ds.py:67-76 | a request a client managed to enqueue with every required argument runs the same operation with the same connection and with the arguments as `json.loads` gives them back (a tuple arrives as a list), unless connecting fails |
| Scheduler.ExecuteBound | app/scheduler/ds.py:67-76 | once both parameters decode and bind, the call is the connection followed by the operation |
| Scheduler.MissingArgumentFails | app/scheduler/ds.py:74 | a request missing a required argument raises TypeError |
| Scheduler.ErrorsReachClient | app/scheduler/ds.py:77-83 | a failed call reaches the client as RuntimeError carrying the stored error, and a non-list value as itself |
| Scheduler.WaitingCount | app/scheduler/ds.py:59-62 | the number of waiting rows, zero exactly when none waits |
| Scheduler.FirstWaiting | app/scheduler/ds.py:59-62 | the first waiting row, with none waiting before it, or none when no row waits |
| Scheduler.Processor | app/scheduler/ds.py:67-83 | the loop's step finishes every row it is given |
| Scheduler.BlocksOnlyOnResult | app/scheduler/ds.py:77-83 | a waiting row blocks the commit exactly when its call succeeds with a value JSON cannot hold; a stored error always commits |
| Scheduler.DrainedUpTo | app/scheduler/ds.py:58-83 | after the waiting rows before a position are processed, none of them waits and every row from that position on is as it was |
| Scheduler.Drained | app/scheduler/ds.py:58-86 | when every row commits, no row waits afterwards and the table keeps its size |
| Scheduler.FirstBlocked | app/scheduler/ds.py:80-83 | the first row from a position whose commit raises, with none before it, or none when every commit succeeds |
| Scheduler.Tick | app/scheduler/ds.py:53-86 | one run processes every waiting row when no commit raises; otherwise it processes the waiting rows before the first row whose commit raises and leaves that row waiting and every later row as it was |
| Scheduler.TickAgain | app/scheduler/ds.py:53-89 | in the table's scan order, the next minute's run changes nothing more: it stops at the same row, so no row after a blocking one is ever processed |
| Scheduler.SettledUnchanged | app/scheduler/ds.py:59-62 | rows that do not wait are never touched by the loop |
| Scheduler.FirstBlockedAt | app/scheduler/ds.py:80-83 | a run whose first raising commit is at a row stops at that row with the rows before it processed |
| Scheduler.WaitingCountStep | app/scheduler/ds.py:80-83 | finishing a waiting row lowers the number of waiting rows by one |
| Scheduler.WaitingAt | app/scheduler/ds.py:59-74 | the row the loop picks next is the first waiting row at or after the last one it finished |
| Scheduler.DrainedAll | app/scheduler/ds.py:84-86 | when the query finds no waiting row, every row was committed and the run is the fully processed table |
| Scheduler.RunExecution | app/scheduler/ds.py:53-86 | the worker loop computes one run: it ends with no waiting row exactly when no commit raises, and otherwise stops at the first row whose commit raises, which stays waiting |
| Scheduler.Drain | app/scheduler/ds.py:53-86 | the loop, for any processing that finishes every row, computes `Tick`: without a blocking row it leaves nothing waiting; otherwise it stops at the first blocking row, which is returned unchanged and still waiting |
| Scheduler.Clean | app/scheduler/ds.py:92-98 | cleaning keeps exactly the rows created within the last hour |
| Scheduler.CleanIdempotent | app/scheduler/ds.py:97 | cleaning twice at the same time is cleaning once |

## Left out

- LDAP wire I/O (`ldap.initialize`, the binds, `search_ext`/`result3`, `search_s`, `modify_s`, `add_s`) and the TLS options: the directory's answers are parameters. These are the bind outcome per connect line, the root DSE, the result pages, the ranged replies, the object fetch and the server's reply to each modification.
- Kerberos (`kinit_keytab`, keytab files, the GSSAPI bind): an external process and protocol. A bind of any kind is one `bind` outcome.
- `move_object`, `rename_object`, `remove_object` and the `remove_*` wrappers of both hooks: each is one search followed by a single `rename_s` or `delete_s` that dry runs skip. The search is `Search.SearchObject` and the call is wire I/O.
- The legacy `set_account_password`, `set_account_unlock`, `set_*` and `new_*` call the legacy `ds_set` and `ds_new` (ds/func_ds_set.py and ds/func_ds_new.py are not part of this model). The legacy specials are the same as the current tree's `DsHook.UserSpecials`.
- Filter rewriting in `search_object` (the regular expression, `escape_filter_chars`, `c_guid_to_binary`): a `rewrite` parameter that may fail.
- `ldap.dn.escape_dn_chars` is the parameter `escape`.
- `ATTR_TYPES` (app/ds/attributes_type.py is not part of this model) is the parameter `types`.
- `datetime.fromisoformat` is the parameter `fromIso`, which gives a tick count and whether the datetime carries an offset. The local UTC offset subtracted by `gen_account_exp_date` is not applied. `strptime`'s calendar check for generalized time is not modelled; the raw text is kept.
- `datetime_parser`, and the encryption inside `encode_param` and `decode_param`: RSA-OAEP and base64 are the `seal`/`decode` parameters. `seal` may fail, as RSA-OAEP does on a text longer than the key allows. What JSON itself does is modelled: `JsonData.Storable` says which values `json.dumps` accepts, and `JsonData.AsLoaded` is what `json.loads` gives back (a tuple becomes a list). The scheduler's lemmas assume that `decode` undoes `seal` up to `AsLoaded`.
- Scheduler.TickAgain, Scheduler.Tick, Scheduler.Drain: the `select` at app/scheduler/ds.py:59-62 has no ORDER BY, so the database chooses which waiting row comes first. The model's sequence of rows is the database's scan order, assumed to stay the same between queries. A row inserted later into freed space ahead of a stuck row could be picked first, and that is not modelled.
- The database (psycopg2, SQLAlchemy), the sleeps and the clock: the task table is a sequence of rows, and the client's view of it at a given second is the `poll` parameter. app/systems/database.py is not part of this model. The result column's serializer is taken to be SQLAlchemy's default for a JSON column, `json.dumps`, so a commit raises exactly for a result `JsonData.Storable` refuses.
- `str(e)` of an exception and `repr` of a stored result are the `show` parameter and the failure's reason text.
- The scheduler's `getattr(ds, type_query)(**param_query)` runs the operation through the `run` parameter; it is not linked to the `DsHook` functions. Names that are not operations of the hook are not looked up.
- Logging, `print` and the session-id context variable: they have no effect on results.
- Python dict and set ordering: `list(set(...))` of properties is a deduplicated list in first-seen order, and `LogMask.MaskKeys` is a list in configured order. Only membership and absence of repeats are stated.
- The legacy `ds_set_member` writes `objectClass` into the caller's member map; the model has no shared mutable state.
- Case folding: `str.casefold` and `str.lower` are modelled as ASCII folding.
- LogMask.ReadAny: only the call for `LOGS_MASK_KEYS` is modelled, so `_read_any` has no conversion and no default. The other settings of app/systems/config.py are not part of this model.
- `LogMask` treats mask keys as literal names. Regular-expression metacharacters in configured keys, non-string dictionary keys and tuples (modelled as lists) are not modelled.
- SdsHook.Polls: `timeout / 10` is float division in Python; the model truncates the exact quotient, which agrees with `int(timeout / 10)` only while the absolute value of the timeout is below 2^53. Larger timeouts are rounded to a float first (90071992547409939 gives 9007199254740994 looks, not 9007199254740993), and a timeout of about 1.8e309 or more raises OverflowError; neither is modelled.
- AttributeCodec.WinTime: the calendar bounds are exact tick counts. The float rounding of `int(data) / 10_000_000` and the microsecond rounding of `timedelta`, which can move a bound by about a hundred microseconds, are not modelled, and the local time zone is not applied.
- DsSet.EncodeValues, DsSet.EncodeOp, DsSet.EncodeOps: for a unicodePwd key the source formats any value with `f'"{v}"'`, so `True` is sent as `"True"`; the model encodes strings only and raises AttributeError for other values under every key. Python's `str` of booleans, datetimes and maps is not modelled.
- Text.ParseInt: Python's `int` also accepts surrounding whitespace and underscores between digits; the model accepts an optional sign and ASCII digits only.
- `DsDict.Update` and `DsDict.New` on a sequence whose elements are not pairs, and with non-string keys: the model takes pairs of text and a value. For the values a client reads back, `SdsHook.ToObject` models every case. The JSON values modelled have no floats.
- DsDict.SetAll, DsDict.Update, DsDict.New, DsDict.FromPairs, DsDict.Copy, DsDict.Or: their own contracts state only that the map stays well formed. Their contents are stated by `SetAllLookup`, `SetAllFresh`, `SetAllPresent`, `SetAllTwice`, `CopyKeepsItems` and `OrIsUpdate`.
- DsDict.ROr: its own contract states only well-formedness; `ROrIgnoresRightOperand` states that it equals the map built from the left operand.
- Scheduler.Bind states only that a failure is TypeError; `Scheduler.PackBinds` and `Scheduler.ConnBinds` state when binding succeeds.
- Scheduler.Execute states only the decoding failure and the known-operation condition; `Scheduler.ExecuteBound`, `Scheduler.RemoteCallRuns` and `Scheduler.MissingArgumentFails` state the full outcome.
- ObjectProcessing.Converted states well-formedness and where a failure comes from; `ObjectProcessing.ConvertedKeys` and `ObjectProcessing.ConvertedValue` state its contents.

## Findings

| source | as written | input that shows it | evidently intended | confidence | as-written member | corrected member |
|---|---|---|---|---|---|---|
| app/ds/convertors_value.py:107-110 | `convert_object_class` lowers the class name before looking it up, but the table's keys are mixed case | `name="organizationalUnit"` raises RuntimeError | the name is matched ignoring case and gives its class chain | not executed | ObjectClass.MixedCaseNamesRaise | ObjectClass.NameToChain |
| app/ds/func_ds_get.py:230-231 | the objectGUID branch of `gen_filter_to_id` reads `distinguishedName` | any GUID text, e.g. `01234567-89ab-cdef-0123-456789abcdef`, raises KeyError | the filter `(objectGUID=<guid>)` | not executed | Identity.GuidTextRaisesAsWritten | Identity.IdentityFilter |
| app/ds/func_ds_set.py:85-91 | `result[key]` is read before the presence test, so the MOD_ADD branch is unreachable | a special `displayName` for an object that has no displayName raises KeyError | an absent attribute is added with MOD_ADD | not executed | DsSet.AsWrittenMissingRaises | DsSet.SpecialsFollowObject |
| app/ds/func_ds_set.py:64-65 | `special.items()` is called on the default `None` | `set_account_unlock` (app/ds/ds_hook.py:476-477) raises AttributeError | no special means no special attributes | not executed | DsSet.UnlockWithoutSpecial | DsSet.DsSet |
| app/ds/ds_hook.py:601-602 | `new_user`, `new_group` and `new_contact` pass `dry_run` to `ds_new`, whose signature (app/ds/func_ds_new.py:12-13) has no such parameter | any `new_user` call without an expiration date raises TypeError | `ds_new` honours the dry run | not executed | DsHook.NewUserAsWritten | DsHook.CreationDryRun |
| app/ds/ds_dict.py:35-38 | `__ror__` builds the result from `other` twice and never reads `self` | a plain map `{"a": 1}` on the left of the operator and `DSDict({"b": 2})` on the right give a map without `b` | `other` updated with `self`, as for `__or__` | not executed | DsDict.ROrDropsRightOperand | DsDict.ROrIntendedKeepsRight |
| app/ds/func_ds_new.py:21-22 | `displayName` is set to `name` instead of `display_name` | `name="jdoe"`, `display_name="John Doe"` stores displayName `jdoe` | displayName holds the given display name | not executed | DsNew.DsNewAsWritten | DsNew.DsNew |
| app/sds/sds_hook.py:66-88 | the poll interval is `int(timeout / 10)` seconds, so the loop waits about timeout²/10 seconds | the default `timeout=300` polls 30 times, 30 seconds apart, and gives up after 910 seconds | about `timeout` seconds in all, polling every 10 seconds | not executed | SdsHook.DefaultTimeoutAsWritten | SdsHook.GiveUpWithinTimeout |
