# Notification destination validation: the host denylist model

This project models the destination checks that the OpenSearch notifications
core runs before it delivers a notification over HTTP. The security-relevant
part is the host denylist, which guards against server-side request forgery.
Each configured denylist string is read two ways: as an IP address or CIDR
network, and as a host name. A URL's host is denied when some entry names the
same host. It is also denied when some address the host resolves to lies
inside some entry's network. The URL host gate first insists that the host
resolves. Only then does it consult the denylist, so an unresolvable host is
never allowed. Two small syntax gates are modelled alongside: the URL
protocol check (`http` or `https` only) and the HTTP method check.

Modules, leaf first:

- `Wrappers`: `Option`, `Result` and `Outcome`. They stand for the
  exceptions and `require` failures of the source.
- `Addresses`: IPv4 and IPv6 addresses as family-tagged bit strings, and
  CIDR networks. Containment compares the high-order prefix bits (section 3.1
  of RFC 4632, section 2.3 of RFC 4291). It is proved equal to the numeric
  form of RFC 4632: the address and the base agree once both are shifted
  right past the host bits.
- `HostNames`: DNS name equality. ASCII letters compare case-insensitively
  (section 3 of RFC 4343), and one trailing root dot is ignored.
- `Urls`: `isValidUrl` and `validateUrl`, over an injected URL parser.
- `Denylist`: `isHostInDenylist`. It is a pure predicate over the host, the
  resolved addresses and the parsed entries, plus the full function over a
  URL and an injected resolver.
- `UrlGate`: `validateUrlHost`, which returns the verdict Allowed, Denied,
  Unresolvable or BadUrl.
- `Methods`: `validateMethod` and Kotlin's `findAnyOf` substring search.
- `GateExamples`: worked verdicts for the metadata address, a host-name entry
  written in another letter case, a public address and a host that does not
  exist.

In three places the code departs from a fail-closed matcher that reports the
entry it matched. The model follows the code:

- `isHostInDenylist` reports "not denied" when the host does not resolve,
  even if an entry names the host (lines 74-76). Only the gate's earlier
  resolution check makes this fail closed.
- `validateUrlHost` does not check the URL's protocol. That check is the
  separate `validateUrl`.
- The source's denial carries no matched entry. `Denylist.FirstMatch` gives
  the index of the first matching entry.

## Model

| member | source | states |
|---|---|---|
| Addresses.Contains | notifications/core/src/main/kotlin/org/opensearch/notifications/core/utils/ValidationHelpers.kt:63 | Containment: the families agree and the first prefix-length bits of address and base are equal; an address of the other family or a prefix longer than the width is never contained |
| Addresses.ContainsIffShiftedValue | notifications/core/src/main/kotlin/org/opensearch/notifications/core/utils/ValidationHelpers.kt:63 | For valid addresses of the same family, containment holds exactly when the address and base values are equal after division by 2 to the number of host bits (the RFC 4632 numeric form) |
| Addresses.ContainsIffPrefixValue | notifications/core/src/main/kotlin/org/opensearch/notifications/core/utils/ValidationHelpers.kt:63 | For valid addresses of the same family, containment holds exactly when the numeric values of the first prefix-length bits of address and base are equal |
| Addresses.SingleAddressExact | notifications/core/src/main/kotlin/org/opensearch/notifications/core/utils/ValidationHelpers.kt:57 | A bare address entry (full-length prefix) contains exactly that one address |
| Addresses.ZeroPrefixContainsFamily | notifications/core/src/main/kotlin/org/opensearch/notifications/core/utils/ValidationHelpers.kt:63 | A zero-length prefix contains every valid address of its own family and none of the other family |
| Addresses.ContainsNested | notifications/core/src/main/kotlin/org/opensearch/notifications/core/utils/ValidationHelpers.kt:63 | If a longer-prefix network's base lies in a shorter-prefix network, every address of the first lies in the second |
| HostNames.SameHost | notifications/core/src/main/kotlin/org/opensearch/notifications/core/utils/ValidationHelpers.kt:59 | Host-name equality: the names are equal after dropping one trailing dot and folding ASCII letters to lower case; names equal up to the trailing dot are always the same host, and the same host means equal length without the dot |
| HostNames.SameHostIff | notifications/core/src/main/kotlin/org/opensearch/notifications/core/utils/ValidationHelpers.kt:54-59 | Host-name equality is the character-by-character ASCII case-insensitive comparison of the names without their root dot |
| HostNames.TrailingDotIgnored | notifications/core/src/main/kotlin/org/opensearch/notifications/core/utils/ValidationHelpers.kt:59 | A name with one trailing dot names the same host as the name without it |
| HostNames.CaseIgnored | notifications/core/src/main/kotlin/org/opensearch/notifications/core/utils/ValidationHelpers.kt:59 | Upper-casing any lower-case ASCII letter of a name leaves the host unchanged |
| Urls.IsValidUrl | notifications/core/src/main/kotlin/org/opensearch/notifications/core/utils/ValidationHelpers.kt:42-45 | Fails with MalformedUrl exactly when the URL does not parse; otherwise true exactly when the protocol is `http` or `https` |
| Urls.ValidateUrl | notifications/core/src/main/kotlin/org/opensearch/notifications/core/utils/ValidationHelpers.kt:20-23 | The empty string fails as EmptyUrl, an unparsable one as MalformedUrl, a non-web protocol as UnsupportedProtocol; it passes exactly when the URL parses with protocol `http` or `https` |
| Urls.AcceptedProtocols | notifications/core/src/main/kotlin/org/opensearch/notifications/core/utils/ValidationHelpers.kt:44 | Every accepted URL has protocol exactly `http` or `https` |
| Urls.OtherProtocolsRejected | notifications/core/src/main/kotlin/org/opensearch/notifications/core/utils/ValidationHelpers.kt:44 | These parsed protocols are rejected: `ftp`, `file`, `httpss`, and the values `HTTP`, `Https`, `http:` and the empty string should a parser return them. `HTTP://…` URLs still pass, because `java.net.URL` lower-cases the scheme before the comparison |
| Denylist.AnyResolvedInNetwork | notifications/core/src/main/kotlin/org/opensearch/notifications/core/utils/ValidationHelpers.kt:62-67 | The inner scan with early exit is true exactly when the entry is a network and some resolved address lies inside it |
| Denylist.EntryMatches | notifications/core/src/main/kotlin/org/opensearch/notifications/core/utils/ValidationHelpers.kt:57-69 | One entry matches exactly when it names the host or its network contains a resolved address |
| Denylist.FirstMatchFrom | notifications/core/src/main/kotlin/org/opensearch/notifications/core/utils/ValidationHelpers.kt:56-73 | The outer scan from a given entry returns the first matching entry, none before it match, and none at all when it finds nothing |
| Denylist.FirstMatch | notifications/core/src/main/kotlin/org/opensearch/notifications/core/utils/ValidationHelpers.kt:56-73 | The scan finds an entry exactly when some entry denies the host, and then the earliest such entry |
| Denylist.HostDenied | notifications/core/src/main/kotlin/org/opensearch/notifications/core/utils/ValidationHelpers.kt:56-73 | The matcher says denied if and only if some entry matches by host name or by address containment |
| Denylist.IsHostInDenylist | notifications/core/src/main/kotlin/org/opensearch/notifications/core/utils/ValidationHelpers.kt:48-84 | A malformed URL is an error; the result is true exactly when the host resolves to at least one address and some entry denies it |
| Denylist.EmptyDenylistAllows | notifications/core/src/main/kotlin/org/opensearch/notifications/core/utils/ValidationHelpers.kt:56-83 | An empty denylist denies no host, whatever it resolved to |
| Denylist.NamedHostDenied | notifications/core/src/main/kotlin/org/opensearch/notifications/core/utils/ValidationHelpers.kt:58-71 | An entry naming the host denies it, whatever the resolved addresses are |
| Denylist.ResolvedAddressDenied | notifications/core/src/main/kotlin/org/opensearch/notifications/core/utils/ValidationHelpers.kt:57-71 | A resolved address inside some entry's network denies the host |
| Denylist.BareAddressEntryExact | notifications/core/src/main/kotlin/org/opensearch/notifications/core/utils/ValidationHelpers.kt:57-67 | A bare-address entry denies by address exactly when that very address is among the resolved ones |
| Denylist.FamiliesNeverCross | notifications/core/src/main/kotlin/org/opensearch/notifications/core/utils/ValidationHelpers.kt:63 | A network never denies addresses of the other family |
| Denylist.MoreEntriesStillDeny | notifications/core/src/main/kotlin/org/opensearch/notifications/core/utils/ValidationHelpers.kt:56-73 | Monotonicity: a denylist that includes every entry of another denies everything the other denies |
| Denylist.OrderIrrelevant | notifications/core/src/main/kotlin/org/opensearch/notifications/core/utils/ValidationHelpers.kt:56-73 | Permuting the denylist never changes the decision |
| Denylist.ConcatDenies | notifications/core/src/main/kotlin/org/opensearch/notifications/core/utils/ValidationHelpers.kt:56-73 | Two joined denylists deny exactly what either one denies |
| Denylist.MoreAddressesStillDeny | notifications/core/src/main/kotlin/org/opensearch/notifications/core/utils/ValidationHelpers.kt:62-67 | Resolving to more addresses never turns a denial into an allow |
| Denylist.FirstMatchIsEarliest | notifications/core/src/main/kotlin/org/opensearch/notifications/core/utils/ValidationHelpers.kt:69-71 | Whenever an entry denies, the scan stops at that entry or an earlier one |
| Denylist.UnresolvedHostNotDenied | notifications/core/src/main/kotlin/org/opensearch/notifications/core/utils/ValidationHelpers.kt:74-76 | The fail-open path: a parsed URL whose host resolves to nothing is reported as not denied |
| UrlGate.ValidateUrlHost | notifications/core/src/main/kotlin/org/opensearch/notifications/core/utils/ValidationHelpers.kt:25-35 | BadUrl exactly when the URL does not parse, Unresolvable exactly when the host resolves to nothing, Denied exactly when it resolves and some entry denies it, Allowed otherwise |
| UrlGate.AllowedMeansResolvedAndUnmatched | notifications/core/src/main/kotlin/org/opensearch/notifications/core/utils/ValidationHelpers.kt:28-34 | Fails closed: an allowed URL parsed, resolved to at least one address, and no entry names its host or contains one of its addresses |
| UrlGate.UnresolvableBeforeDenylist | notifications/core/src/main/kotlin/org/opensearch/notifications/core/utils/ValidationHelpers.kt:28-30 | The resolution check comes first: an unresolvable host is Unresolvable even when the denylist names it |
| UrlGate.EmptyDenylistAllowsResolvable | notifications/core/src/main/kotlin/org/opensearch/notifications/core/utils/ValidationHelpers.kt:32-34 | With an empty denylist every parsed, resolvable URL is allowed |
| UrlGate.MoreEntriesNeverAllow | notifications/core/src/main/kotlin/org/opensearch/notifications/core/utils/ValidationHelpers.kt:32-34 | Adding denylist entries never turns Denied into Allowed |
| UrlGate.VerdictIgnoresOrder | notifications/core/src/main/kotlin/org/opensearch/notifications/core/utils/ValidationHelpers.kt:32-34 | Reordering the denylist never changes the verdict |
| Methods.FirstMatchingAt | notifications/core/src/main/kotlin/org/opensearch/notifications/core/utils/ValidationHelpers.kt:109 | At one index, returns the first listed string occurring there, or none when no listed string occurs there |
| Methods.FindAnyOfFrom | notifications/core/src/main/kotlin/org/opensearch/notifications/core/utils/ValidationHelpers.kt:109 | Returns the first index (from the start index up to the string's length) where some listed string occurs, with the first listed string occurring there; none when none occurs |
| Methods.FindAnyOf | notifications/core/src/main/kotlin/org/opensearch/notifications/core/utils/ValidationHelpers.kt:109 | Finds nothing exactly when no listed string is a substring; otherwise an earliest occurrence, with the first listed string occurring at that index |
| Methods.ValidMethodNames | notifications/core/src/main/kotlin/org/opensearch/notifications/core/utils/ValidationHelpers.kt:107 | The accepted names are exactly the three distinct strings `POST`, `PUT` and `PATCH` |
| Methods.ValidateMethod | notifications/core/src/main/kotlin/org/opensearch/notifications/core/utils/ValidationHelpers.kt:105-111 | The empty string fails as EmptyMethod; it passes exactly when the method contains `POST`, `PUT` or `PATCH` as a substring; everything else fails as InvalidMethod |
| Methods.SurroundedNameAccepted | notifications/core/src/main/kotlin/org/opensearch/notifications/core/utils/ValidationHelpers.kt:107-109 | Any text around one of the three names still passes |
| Methods.LowerCaseRejected | notifications/core/src/main/kotlin/org/opensearch/notifications/core/utils/ValidationHelpers.kt:107-109 | The search is case-sensitive: `post` and `GET` are rejected |
| Methods.OutputAcceptedAsWritten | notifications/core/src/main/kotlin/org/opensearch/notifications/core/utils/ValidationHelpers.kt:108-110 | `OUTPUT` is not one of the allowed methods, yet the check as written passes it |
| Methods.ValidateMethodExact | notifications/core/src/main/kotlin/org/opensearch/notifications/core/utils/ValidationHelpers.kt:110 | Corrected check: passes exactly `POST`, `PUT` and `PATCH`; the empty string fails as EmptyMethod |
| Methods.ExactNarrowsWritten | notifications/core/src/main/kotlin/org/opensearch/notifications/core/utils/ValidationHelpers.kt:108-110 | Everything the corrected check passes, the written check passes too; `OUTPUT` separates them |
| GateExamples.MetadataAddressDenied | notifications/core/src/main/kotlin/org/opensearch/notifications/core/utils/ValidationHelpers.kt:25-35 | `http://169.254.169.254/latest/meta-data`, resolving to itself, is Denied by a bare-address entry |
| GateExamples.InternalHostDenied | notifications/core/src/main/kotlin/org/opensearch/notifications/core/utils/ValidationHelpers.kt:25-35 | `http://INTERNAL.CORP./` is Denied by the entry `internal.corp` once it resolves |
| GateExamples.PublicAddressAllowed | notifications/core/src/main/kotlin/org/opensearch/notifications/core/utils/ValidationHelpers.kt:25-35 | `http://example.com`, resolving to 93.184.216.34, is Allowed against `10.0.0.0/8` |
| GateExamples.NonexistentHostUnresolvable | notifications/core/src/main/kotlin/org/opensearch/notifications/core/utils/ValidationHelpers.kt:28-29 | A host resolving to nothing is Unresolvable, whatever the denylist |
| GateExamples.MappedAddressNotInIPv4Network | notifications/core/src/main/kotlin/org/opensearch/notifications/core/utils/ValidationHelpers.kt:63 | An IPv6 address such as `::ffff:10.0.0.1` is not inside `10.0.0.0/8` |

## Left out

- DNS resolution (`InetAddress.getAllByName`, line 52; `getResolvedIps`, line 28) is network I/O. It is an injected function from host to addresses, and a failed lookup is the empty sequence.
- The resolver returns family-tagged addresses as given. `InetAddress` returns an IPv4-mapped literal such as `[::ffff:10.0.0.1]` as an IPv4 address, so in the program such a host is denied by `10.0.0.0/8`. `GateExamples.MappedAddressNotInIPv4Network` only covers an address the resolver tagged IPv6.
- Both lookups use the same injected function. So the window between the gate's lookup and the matcher's second lookup is not modelled. That window is where a DNS answer could change between the two.
- The gate at lines 28 and 32 calls `getResolvedIps` and `isHostInDenylist` from the notifications SPI package. That code is not part of this model. The gate is modelled calling this file's matcher and the same resolver.
- `java.net.URL` parsing is an injected parser. Any lower-casing of the protocol is the parser's business, and the model compares the parsed protocol exactly.
- The `inet.ipaddr` parsing of deny strings (`IPAddressString`, `HostName`) is foreign code. Entries are modelled already parsed, as a host-name text and an optional network. Wildcard and range address strings, zone identifiers, and the library's treatment of a CIDR string with non-zero host bits are not modelled.
- `HostName.equals` is not shown. Equality is modelled as ASCII case-insensitive comparison after dropping one trailing dot. Host names that are address literals are compared as text, not as addresses. Address entries still catch them, because a literal resolves to itself.
- The `url.host != null` test (line 50) is not modelled: a parsed URL always has a host string.
- The catch-all exception branch (lines 77-80) is not modelled. It returns "not denied" on any other error, and parsed values raise no such error.
- Logging (lines 70, 75, 78) is left out: it has no effect on the decision.
- `validateEmail` and `isValidEmail` (lines 37-40, 86-103) are left out. They are an RFC 5322 regular expression whose model would need a regex engine.
- Kotlin nullability (`Strings.isNullOrEmpty`) is not modelled. Only the empty-string case is.
- `findAnyOf` answers a single-string list with `indexOf`. The model always uses the general scan, which gives the same answer.

## Findings

| source | as written | input that shows it | evidently intended | confidence | as-written member | corrected member |
|---|---|---|---|---|---|---|
| notifications/core/src/main/kotlin/org/opensearch/notifications/core/utils/ValidationHelpers.kt:108-110 | the method passes when `findAnyOf` finds `POST`, `PUT` or `PATCH` anywhere in it | `OUTPUT` (also `POSTAL`, `DELETE_PUT`) passes | its own error message says only POST, PUT and PATCH are allowed: the method should equal one of them | medium, not executed | Methods.OutputAcceptedAsWritten | Methods.ValidateMethodExact |
