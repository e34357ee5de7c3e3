# ADMC boundary layer: DN algebra, attribute codecs and the connection

This project models, in Dafny, the small pure core that ADMC (the Active
Directory Management Center) places between its user interface and the LDAP
library. It covers:

- **Distinguished names** (`Dn`, on top of the Qt string primitives in `Text`):
  - `dn_get_rdn`, `dn_get_name` and `dn_get_parent`;
  - `dn_rename`, `dn_move` and `dn_from_name_and_parent`;
  - `domain_to_domain_dn`.
  These are plain text operations on the comma-separated form. There is no
  escaping, exactly as in the C++.
- **Account-control and group-type bit masks** (`BitFlags`):
  - `bit_set` and `bit_is_set` on 32-bit masks;
  - the constants `account_option_bit` and `group_scope_bit` hand out.
- **GUID text** (`Guid`): `guid_string_to_bytes` turns the hyphenated text of an
  objectGUID into the bytes the directory stores. The first three groups are
  byte-reversed and the last two are kept in order. The model includes Qt's
  lenient `QByteArray::fromHex`:
  - characters that are not hex digits are skipped;
  - with an odd number of digits, the first digit stands alone as a byte.
- **Attribute value codecs** (`Codec`, on top of `Decimal`):
  - the LargeInteger (FILETIME) branch of the two datetime converters: 100 ns
    ticks since 1601-01-01, written as a signed 64-bit decimal;
  - the "never" sentinels;
  - the directory's "TRUE"/"FALSE" booleans;
  - the RID cut of a SID's text form.
- **The connection object** (`Connection`):
  - `connect`, which stores the URI, derives the search base from the domain
    name and logs in;
  - `is_connected`, `get_uri` and `get_search_base`;
  - how `search` scopes every query to the stored base.

The LDAP library calls (`ad_login` and `ad_search`) and Qt's date formatting
are function parameters. The model follows the code in these edge cases:

- `dn_get_parent` of a DN without a comma returns the whole DN.
- `dn_get_name` of a DN whose first component has no `=` returns everything
  after the first `=` anywhere in the DN, when the DN has one. A DN with no
  `=` at all gives its first component.
- Parsing a LargeInteger attribute whose subtype is not "datetime" falls
  through to an invalid datetime.
- `connect` lower-cases the domain, although its comment shows an upper-case
  result.
- `connect` turns only the first `.` into `,DC=` (see Findings).

## Model

| member | source | states |
|---|---|---|
| Dn.DnGetRdn | src/adldap/ad_utils.cpp:217-222 | The RDN is a comma-free prefix of the DN. It is either the whole DN or is followed by the first comma. |
| Dn.DnGetName | src/adldap/ad_utils.cpp:227-235 | When the RDN holds an `=`, the RDN is its attribute prefix (up to and including the first `=`) followed by the name. A DN without `=` is its own name up to the first comma. |
| Dn.NameAfterFirstEquals | src/adldap/ad_utils.cpp:228-232 | When the first `=` lies beyond the first comma, the name is everything after that `=`, to the end of the DN. |
| Dn.NameExample | src/adldap/ad_utils.cpp:214-242 | The documented example "CN=foo,CN=bar,DC=domain,DC=com" has RDN "CN=foo", name "foo" and parent "CN=bar,DC=domain,DC=com". |
| Dn.DnGetParent | src/adldap/ad_utils.cpp:237-242 | With a comma, the DN is the RDN, a comma and the parent. Without one, the parent is the whole DN. |
| Dn.DnRename | src/adldap/ad_utils.cpp:250-267 | The renamed DN keeps the old RDN's attribute prefix, puts the new name after it and keeps everything from the first comma on. |
| Dn.RenameComponents | src/adldap/ad_utils.cpp:250-267 | For a comma-free new name, the comma-split of the result is the new RDN followed by the old DN's components after the first. |
| Dn.RenameKeepsParent | src/adldap/ad_utils.cpp:250-267 | When the DN has a comma and the new name has none, renaming does not change the parent. |
| Dn.RenameSetsName | src/adldap/ad_utils.cpp:227-267 | When the new name has no comma and the old RDN holds an `=`, `dn_get_name` of the renamed DN returns the new name. |
| Dn.RenameToOwnName | src/adldap/ad_utils.cpp:227-267 | When the RDN holds an `=`, renaming a DN to its own name gives the same DN back. |
| Dn.DnMove | src/adldap/ad_utils.cpp:269-274 | A moved DN always has a comma, keeps the RDN, and its parent is exactly the new parent, so it is the old RDN, a comma and the new parent. |
| Dn.MoveKeepsName | src/adldap/ad_utils.cpp:227-274 | When the RDN holds an `=`, moving keeps the object's name. |
| Dn.MoveToOwnParent | src/adldap/ad_utils.cpp:237-274 | When the DN has a comma, moving it to its own parent gives the same DN back. |
| Dn.MoveTwice | src/adldap/ad_utils.cpp:269-274 | Two moves in a row equal a single move to the second parent. |
| Dn.RenameMoveCommute | src/adldap/ad_utils.cpp:250-274 | When the new name has no comma, renaming and moving commute. |
| Dn.DnFromNameAndParent | src/adldap/ad_utils.cpp:287-298 | The built DN always has a comma. It starts with "OU=" exactly for organizationalUnit and with "CN=" otherwise. For a comma-free name, the name and parent read back unchanged. |
| Dn.BuiltDnParts | src/adldap/ad_utils.cpp:287-298 | For a comma-free prefix that ends at its only `=` and a comma-free name, the getters recover the RDN, the name and the parent from the DN built as prefix, name, comma and parent. |
| Dn.RenameBuilt | src/adldap/ad_utils.cpp:250-298 | For a comma-free prefix that ends at its only `=` and a comma-free name, renaming the built DN rebuilds it with the new name and the same prefix and parent. |
| Dn.MoveBuilt | src/adldap/ad_utils.cpp:269-298 | For a comma-free prefix that ends at its only `=` and a comma-free name, moving the built DN rebuilds it with the same prefix and name and the new parent. |
| Dn.DomainToDomainDn | src/adldap/ad_utils.cpp:335-343 | The domain DN starts with "DC=" and contains no `.`. |
| Dn.DomainDnIsJoin | src/adldap/ad_utils.cpp:335-343 | Replacing every `.` is the same as joining the lower-cased labels with ",DC=". |
| Dn.DomainDnComponents | src/adldap/ad_utils.cpp:335-343 | For a comma-free domain, the DN's components are "DC=" plus each lower-cased label, one per label. There is one more component than the domain has dots. |
| Dn.DomainDnExample | src/adldap/ad_utils.cpp:333-343 | The documented example "DOMAIN.COM" gives "DC=domain,DC=com". |
| BitFlags.BitSetEffect | src/adldap/ad_utils.cpp:345-351 | Setting turns every bit of `bit` on and clearing turns them off. Bits outside `bit` are untouched. |
| BitFlags.BitSetThenIsSet | src/adldap/ad_utils.cpp:345-355 | After `bit_set` of a non-zero bit, `bit_is_set` reports exactly the requested state. |
| BitFlags.BitSetKeepsOthers | src/adldap/ad_utils.cpp:345-355 | Setting or clearing one bit does not change what `bit_is_set` reports for a disjoint bit. |
| BitFlags.ZeroBitIsInert | src/adldap/ad_utils.cpp:345-355 | The zero bit is never set, and setting or clearing it leaves the mask unchanged. |
| BitFlags.AccountOptionBit | src/adldap/ad_utils.cpp:137-160 | The result is zero exactly for the options with no direct bit (can't change password, password expired, the count). Every other option gets a single bit. |
| BitFlags.AccountOptionBitsDisjoint | src/adldap/ad_utils.cpp:137-160 | Different options never share a bit. |
| BitFlags.AccountOptionsIndependent | src/adldap/ad_utils.cpp:137-160 | Toggling one account option never changes whether another reads as set. |
| BitFlags.AccountOptionSetReads | src/adldap/ad_utils.cpp:137-160 | An option with a bit reads back as exactly the state it was set to. |
| BitFlags.GroupScopeBit | src/adldap/ad_utils.cpp:162-170 | The result is zero only for the count sentinel. Every real scope gets a single bit. |
| BitFlags.GroupScopeBitsDisjoint | src/adldap/ad_utils.cpp:162-170 | Different scopes never share a bit. |
| Guid.GuidStringToBytes | src/adldap/ad_utils.cpp:376-405 | For a text with at least three hyphen-separated groups, the bytes are the hex decodings of the groups, concatenated, with the first three groups reversed. |
| Guid.DecodeFiveGroups | src/adldap/ad_utils.cpp:376-405 | Five hyphen-free groups joined by `-` decode to the three reversed groups followed by the last two in order. |
| Guid.FromHexToHex | src/adldap/ad_utils.cpp:383 | Decoding the lower-case hex text of any bytes gives the bytes back. |
| Guid.ToHexFromHex | src/adldap/ad_utils.cpp:383 | An even-length lower-case hex text is the encoding of its own decoding. |
| Guid.GuidRoundTrip | src/adldap/ad_utils.cpp:376-405 | Any 16 bytes, written as canonical GUID text, decode back to the same 16 bytes. |
| Guid.GuidTextRoundTrip | src/adldap/ad_utils.cpp:376-405 | An 8-4-4-4-12 lower-case hex text decodes to 16 bytes, and encoding those bytes gives the same text. |
| Guid.GuidTextLength | src/adldap/ad_utils.cpp:376-405 | An 8-4-4-4-12 text of hex digits in either case decodes to exactly 16 bytes. |
| Guid.HexGroupLength | src/adldap/ad_utils.cpp:383 | A group of n hex digits decodes to (n + 1) / 2 bytes. |
| Guid.OddDigitsExample | src/adldap/ad_utils.cpp:383 | With an odd number of digits, the first digit is a byte on its own: "abc" decodes to 0x0a, 0xbc. |
| Guid.SkipsNonHexExample | src/adldap/ad_utils.cpp:383 | Characters that are not hex digits are skipped: "{ab}" decodes to the single byte 0xab. |
| Decimal.NumberRoundTrip | src/adldap/ad_utils.cpp:59-61 | Every signed 64-bit value written by `QString::number` parses back to itself with `toLongLong`. |
| Decimal.NumberToStringInjective | src/adldap/ad_utils.cpp:61 | Different 64-bit values are written as different texts. |
| Decimal.WrapInt64 | src/adldap/ad_utils.cpp:59 | The wrapped product lies in the 64-bit range, differs from the true product by a multiple of 2^64, and equals it when the product already fits. |
| Decimal.TruncDiv | src/adldap/ad_utils.cpp:97 | Division by a positive divisor rounds toward zero, from either side. |
| Codec.LargeIntegerFromMillis | src/adldap/ad_utils.cpp:57-62 | When the tick count fits in 64 bits, the text reads back as milliseconds times 10000. |
| Codec.LargeIntegerToMillis | src/adldap/ad_utils.cpp:93-100 | The milliseconds are the ticks divided by 10000, rounded toward zero. |
| Codec.DatetimeToString | src/adldap/ad_utils.cpp:49-79 | No configuration or an unknown attribute type gives "". For a LargeInteger attribute, a valid datetime whose tick count fits in 64 bits gives that tick count since 1601, and an invalid datetime gives "0". |
| Codec.InvalidIsEpoch | src/adldap/ad_utils.cpp:58-61 | Zero milliseconds, which is what `msecsTo` yields for an invalid datetime, is written as the "never" text "0". |
| Codec.DatetimeFromString | src/adldap/ad_utils.cpp:81-119 | No configuration, an unknown type, or a LargeInteger that is not a datetime gives an invalid datetime. A datetime LargeInteger gives the valid datetime `toLongLong(raw) / 10000` milliseconds (rounded toward zero) after the 1601 epoch, whose tick count fits in 64 bits. Text that does not parse as a 64-bit number gives the epoch itself. |
| Codec.LargeIntegerRoundTrip | src/adldap/ad_utils.cpp:57-100 | When the tick count fits in 64 bits, milliseconds written as ticks read back as the same milliseconds. |
| Codec.LargeIntegerTruncates | src/adldap/ad_utils.cpp:57-100 | Reading a 64-bit tick count and writing it back drops the sub-millisecond part toward zero: the result is a whole millisecond less than 10000 ticks away. |
| Codec.DatetimeRoundTrip | src/adldap/ad_utils.cpp:49-119 | For a datetime LargeInteger attribute and a datetime whose tick count fits in 64 bits, converting to text and back gives the same datetime. |
| Codec.NeverOnlyAtEpoch | src/adldap/ad_utils.cpp:43-62 | When the tick count fits in 64 bits, a written datetime counts as "never" exactly when it is the 1601 epoch itself. Outside that range the wrapped product can write "0" for another datetime (Codec.WrappedNeverExample). |
| Codec.WrappedNeverExample | src/adldap/ad_utils.cpp:58-61 | 2^60 milliseconds after the epoch, whose tick count 625 * 2^64 does not fit in 64 bits, wrap to 0 ticks and are written as the "never" text "0". |
| Codec.BoolRoundTrip | src/adldap/ad_utils.cpp:210-212 | Only the exact text "TRUE" reads as true, so a boolean written as text reads back unchanged. Writing back what was read reproduces the text exactly when it was "TRUE" or "FALSE". |
| Codec.RidFromSidString | src/adldap/ad_utils.cpp:202-208 | The RID has no `-`. When the SID text has a `-`, the text is everything before the last `-`, a `-` and the RID; otherwise the RID is the whole text. |
| Connection.ConnectSearchBase | adldap/ad_connection.cpp:33-45 | The base is "DC=" plus the lower-cased domain, with only its first `.` turned into ",DC=". |
| Connection.Connect | adldap/ad_connection.cpp:30-49 | Afterwards, `get_uri` is the given URI, `get_search_base` is the derived base and `is_connected` holds exactly when the login left a handle. The login status is returned. |
| Connection.FreshConnect | adldap/ad_connection.cpp:27-56 | A new connection is not connected. After `connect` it is connected exactly when the login produced a handle. |
| Connection.SearchRequestOf | adldap/ad_connection.cpp:79-81 | A search goes to the stored base, with the given filter, and carries a handle exactly when the connection is connected. |
| Connection.SearchAfterConnect | adldap/ad_connection.cpp:30-81 | After `connect`, every search is made with the login's handle and the base derived from the domain. |
| Connection.ConnectBaseMatchesDomainDn | adldap/ad_connection.cpp:33-45 | The base `connect` stores equals `domain_to_domain_dn` of the same domain exactly when the domain has at most one dot. |
| Connection.ThreeLabelExample | adldap/ad_connection.cpp:41-45 | For "A.B.C" the stored base is "DC=a,DC=b.c", which differs from the domain DN. |
| Connection.ConnectCorrected | adldap/ad_connection.cpp:30-49 | With every dot replaced, the base is the domain DN. For a comma-free domain, that DN has one "DC=" component per lower-cased label. The URI, the login and the returned status are as in `connect`. |
| Connection.ConnectCorrectedAgrees | adldap/ad_connection.cpp:30-49 | For domains with at most one dot, the corrected `connect` behaves exactly like the code as written. |

## Left out

- Codec.DatetimeToString: time zones are not modelled. The code measures from `QDateTime(ntfs_epoch)`, which is midnight in the local zone, so the tick count is exact only when the local zone is UTC. An invalid datetime gives "0", since `msecsTo` returns 0 for it; this case is modelled.
- Codec.DatetimeRoundTrip: holds in one zone only. The parser adds the milliseconds to the local-zone epoch and then relabels the result as UTC with `setTimeSpec(Qt::UTC)` without shifting it. Under a non-UTC local zone, a round trip moves the instant by the zone offset.
- Codec.DatetimeFromString: the UTCTime and GeneralizedTime branches call Qt's date parser. That parser is the `parse` parameter and is not modelled. The same holds for the formatting branches of Codec.DatetimeToString, whose formatter is the `format` parameter.
- Dn.DomainToDomainDn: lower-cases ASCII letters only. `QString::toLower` also folds non-ASCII letters such as "Ä".
- Connection.ConnectSearchBase: lower-cases ASCII letters only, which is what `std::tolower` does in the C locale. The code never selects a locale, so `std::tolower` runs under the process's global locale, which a Qt application may take from the environment. Under a Latin-1 or Turkish locale the code may fold bytes beyond A-Z, and it folds each byte of a multi-byte character separately; the model does neither.
- Decimal.IsSpace: only ASCII white space is trimmed. `QString::toLongLong` trims every `QChar::isSpace` character, for example U+00A0.
- Decimal.ParseLongLong: leading and trailing non-ASCII white space is not skipped, for the reason given for Decimal.IsSpace.
- Decimal.WrapInt64: models an overflowing product as two's-complement wrap-around. In C++, signed overflow of `millis * MILLIS_TO_100_NANOS` is undefined behaviour. Wrap-around is what common compilers produce, not a guarantee.
- Guid.GuidStringToBytes: requires at least three hyphen-separated groups. The C++ reverses `out[0]` to `out[2]` without checking, and with fewer groups that is undefined behaviour, which has no value to model.
- Guid.GuidTextRoundTrip: stated for lower-case text only, because encoding always writes lower case. Upper-case text decodes to the same bytes (Guid.GuidTextLength counts them for either case) but does not encode back to the same text.
- Guid.GuidStringToBytes: `toLatin1` turns characters outside Latin-1 into `?`. `fromHex` skips those like any other non-hex character, so the model skips them directly.
- Codec.RidFromSidString: models only the cut after the last `-` of the SID's text form. Rendering the binary SID as text (`attribute_display_value`) is not part of this model.
- The LDAP library: `ad_login` and `ad_search` are the `login` and `adSearch` parameters. `get_ldap_result` and the other one-line forwarding methods of AdConnection (add, delete, attribute edits, rename, move) are not modelled.
- `dn_canonical` and `dn_get_parent_canonical` call the LDAP library's `ldap_dn2ad_canonical`, so they are not part of this model. The same goes for `get_default_domain_from_krb5` (Kerberos), `cstr` (memory management) and the translated display strings (`group_scope_string` and similar).
- Concurrency and object lifetimes: the connection is a value, and `connect` returns the updated value together with the login status.

## Findings

| source | as written | input that shows it | evidently intended | confidence | as-written member | corrected member |
|---|---|---|---|---|---|---|
| adldap/ad_connection.cpp:41-45 | `connect` finds only the first `.` of "DC=" plus the lower-cased domain and replaces it with ",DC=". | domain "A.B.C" gives the search base "DC=a,DC=b.c". | Every `.` becomes ",DC=", giving "DC=a,DC=b,DC=c", which is what `domain_to_domain_dn` (src/adldap/ad_utils.cpp:335-343) produces. | not executed | Connection.ThreeLabelExample | Connection.ConnectCorrected |
