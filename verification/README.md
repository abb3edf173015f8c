# GetClientIp, modelled in Dafny

GetClientIp is an HTTP function that tells a browser which IP address it is
calling from. It picks a raw address from the request and normalises it with
`sanitizeIp`, then answers with plain text. The answer is either status 200
with the address, or status 500 with a fixed message. The raw address is
chosen like this:

- When the `x-forwarded-for` header is truthy, the raw address is its first
  comma-separated entry, trimmed, even if that entry is empty.
- Otherwise the first truthy of these decides: the `x-ms-client-ip` header,
  the connection's remote address, the socket's remote address.

`sanitizeIp` does two things to the raw address:

- it drops one leading `::ffff:`, the notation of an IPv4-mapped IPv6 address
  (section 2.5.5.2 of RFC 4291);
- it removes a trailing port.

A bracketed `[host]:port` keeps `[host]`. Otherwise the text after the last
colon is removed when it is all digits and the text before it contains a dot
or no colon. The port step leaves an unbracketed IPv6 literal such as
`2001:db8::1` alone. That guard covers only the port step, not `sanitizeIp`
as a whole. Once the prefix is removed, a mapped address in hexadecimal
notation loses its last group (see below).

The project has three files:

- `wrappers.dfy`: the `Option` type, which stands for JavaScript's `null` and
  `undefined`.
- `js_strings.dfy`: the JavaScript string operations the function uses,
  written out over character sequences. They are `lastIndexOf`, the first
  field of `split`, `trim`, and the character classes `\d` and `.` of its two
  regular expressions.
- `get_client_ip.dfy`: `sanitizeIp`, the choice of source, and the response.

Everything is modelled as pure functions, with lemmas about them. The source
has no loops and mutates only `context.res`. `sanitizeIp` only rebinds a local
variable in a fixed order. The handler only assigns one local variable and
one response field. So the handler is the function `Handle` from a request
record to a response record.

The model follows the code exactly in three cases where the outcome is easy
to misread:

- A truthy `x-forwarded-for` header decides the outcome even when its first
  entry trims to the empty string. The result is a 500, and the later sources
  are not consulted (`BlankForwardedEntryGivesError`).
- `sanitizeIp` accepts `null`, `undefined` and the empty string, and returns
  `null` for each (`SanitizeIp`).
- `::ffff:102:304` is the hexadecimal spelling of `::ffff:1.2.3.4` (section
  2.2 of RFC 4291). It gives `102`. Removing the prefix leaves `102:304`, and
  the last-colon rule then reads `304` as a port because `102` has no colon.
  The result is neither the input nor its IPv4 address
  (`MappedHexAddressLosesLastGroup`, `MappedHexAddressExample`).

## Model

| member | source | states |
|---|---|---|
| JsStrings.LastIndexOf | api/GetClientIp/index.js:21 | the result is -1 or an index of the character, and no occurrence lies after it |
| JsStrings.FirstField | api/GetClientIp/index.js:52 | `split(',')[0]` is a prefix of the input that has no separator, and it is the whole input or is followed by the separator |
| JsStrings.FirstFieldEndsAt | api/GetClientIp/index.js:52 | the first field ends exactly at the first separator |
| JsStrings.Trim | api/GetClientIp/index.js:52 | `trim` never lengthens, and its result neither starts nor ends with whitespace |
| JsStrings.TrimRemovesOnlyWhitespace | api/GetClientIp/index.js:52 | `trim` removes whitespace and nothing else: the input is the result framed by whitespace on both sides |
| JsStrings.TrimAllWhitespace | api/GetClientIp/index.js:52 | an all-whitespace string trims to the empty string |
| GetClientIp.StripMappedPrefix | api/GetClientIp/index.js:7-9 | a leading `::ffff:` is removed and the rest is kept; any other string is unchanged |
| GetClientIp.PortColonIsLast | api/GetClientIp/index.js:14-21 | a colon followed only by digits is the one `lastIndexOf(':')` finds |
| GetClientIp.BracketPortMatch | api/GetClientIp/index.js:14-16 | succeeds exactly when the string matches `^(\[.*\]):(\d+)$`, and then yields the text before the port's colon; the match is unique |
| GetClientIp.StripPort | api/GetClientIp/index.js:11-38 | the result is a prefix of the input; when it differs, what was cut is a colon followed by one or more digits |
| GetClientIp.SanitizeIp | api/GetClientIp/index.js:1-2 | `null` exactly for a falsy input (`null`, `undefined`, the empty string) |
| GetClientIp.StripPortChangesIff | api/GetClientIp/index.js:14-38 | the port step changes the string if and only if the bracket pattern matches or a host:port split at a colon satisfies the digits-and-dot-or-no-colon rule |
| GetClientIp.StripPortHostPort | api/GetClientIp/index.js:21-33 | `host:port` loses `:port` when the port is all digits and the host contains a dot or no colon |
| GetClientIp.BracketedPortKeepsBrackets | api/GetClientIp/index.js:12-16 | `[host]:port` sanitises to `[host]` with the brackets kept, for any host without line terminators |
| GetClientIp.HostPortStripped | api/GetClientIp/index.js:7-33 | `host:port` sanitises to the host less a leading `::ffff:` when the port is all digits and the host contains a dot or no colon |
| GetClientIp.StripPortKeepsIpv6 | api/GetClientIp/index.js:26-35 | an unbracketed address whose head has a colon and no dot is never cut at its last colon |
| GetClientIp.StripPortKeepsNonNumericTail | api/GetClientIp/index.js:21-27 | an empty or non-numeric text after the last colon is never taken for a port |
| GetClientIp.NoColonUnchanged | api/GetClientIp/index.js:4-39 | a non-empty string without a colon sanitises to itself |
| GetClientIp.NotMappedUnlessColon | api/GetClientIp/index.js:7-9 | a string that does not start with a colon only goes through the port step |
| GetClientIp.MappedPrefixRemovedOnce | api/GetClientIp/index.js:7-9 | `::ffff:` followed by `t` sanitises to `t` with only its port stripped: the prefix is removed once |
| GetClientIp.SanitizeIsSubstring | api/GetClientIp/index.js:4-39 | the result of a truthy input is a contiguous piece of it and never longer |
| GetClientIp.MappedIpv4Unwrapped | api/GetClientIp/index.js:6-9 | `::ffff:` followed by a colon-free address gives that address, as `::ffff:127.0.0.1` gives `127.0.0.1` |
| GetClientIp.MappedPrefixAloneExample | api/GetClientIp/index.js:7-9 | `::ffff:` alone sanitises to the empty string |
| GetClientIp.StripPortKeepsMappedAddress | api/GetClientIp/index.js:21-36 | a mapped address `::ffff:a.b.c.d` passes the port step unchanged |
| GetClientIp.DoubledMappedPrefixExample | api/GetClientIp/index.js:7-9 | a doubled `::ffff:::ffff:` prefix loses only its first copy |
| GetClientIp.Ipv4PortExample | api/GetClientIp/index.js:19 | `127.0.0.1:8080` gives `127.0.0.1` |
| GetClientIp.HostnamePortExample | api/GetClientIp/index.js:28-33 | `localhost:3000` gives `localhost` |
| GetClientIp.BracketedIpv6PortExample | api/GetClientIp/index.js:13 | `[::1]:8080` gives `[::1]` |
| GetClientIp.BareIpv6Example | api/GetClientIp/index.js:20 | `2001:db8::1` is returned unchanged |
| GetClientIp.MappedHexAddressLosesLastGroup | api/GetClientIp/index.js:7-33 | `::ffff:a:b` with a colon-free `a` and an all-digit `b` gives `a`: the last hexadecimal group is cut off as a port |
| GetClientIp.MappedHexAddressExample | api/GetClientIp/index.js:7-33 | `::ffff:102:304` gives `102` |
| GetClientIp.EmptyPortExample | api/GetClientIp/index.js:27 | `host:` is returned unchanged |
| GetClientIp.NonNumericPortExample | api/GetClientIp/index.js:27 | `host:ab` is returned unchanged |
| GetClientIp.BarePortExample | api/GetClientIp/index.js:21-33 | `:8080` gives the empty string |
| GetClientIp.FirstForwarded | api/GetClientIp/index.js:52 | the client entry taken from a forwarded-for list contains no comma |
| GetClientIp.FirstForwardedOccurs | api/GetClientIp/index.js:52 | the client entry is a contiguous piece of the header's value |
| GetClientIp.FirstTruthy | api/GetClientIp/index.js:53-61 | reference meaning of an else-if chain: `null` exactly when no candidate is truthy, and otherwise the truthy candidate with none truthy before it |
| GetClientIp.SelectRawIp | api/GetClientIp/index.js:45-61 | no raw address exactly when no source is truthy; a falsy raw address can only come from a truthy `x-forwarded-for` |
| GetClientIp.SelectRawIpFollowsPrecedence | api/GetClientIp/index.js:49-61 | a truthy forwarded-for header decides through its trimmed first entry; otherwise the first truthy of client-ip header, connection address and socket address decides |
| GetClientIp.ForwardedForFirstEntryWins | api/GetClientIp/index.js:49-52 | for `x-forwarded-for: entry,rest` the raw address is the trimmed entry, whatever `rest` and the other sources hold; for instance `1.2.3.4, 5.6.7.8` gives `1.2.3.4` |
| GetClientIp.PlainEntryTrimsToItself | api/GetClientIp/index.js:52 | the entry `1.2.3.4` trims to itself |
| GetClientIp.ForwardedForListExample | api/GetClientIp/index.js:49-52 | `x-forwarded-for: 1.2.3.4, 5.6.7.8` gives the raw address `1.2.3.4` |
| GetClientIp.ForwardedForPrecedenceExample | api/GetClientIp/index.js:49-55 | with `x-forwarded-for: 1.2.3.4, 5.6.7.8` and `x-ms-client-ip: 9.9.9.9` both present, the raw address is `1.2.3.4` |
| GetClientIp.Respond | api/GetClientIp/index.js:65-69 | status 200 exactly when the address is truthy, with the address as body; otherwise status 500 with the fixed message; always `text/plain`; the body is never empty |
| GetClientIp.Handle | api/GetClientIp/index.js:63-69 | the status is 200 or 500, 200 exactly when the sanitised raw address is truthy; a 200 body is that address and a 500 body is the fixed message; the content type is always `text/plain` |
| GetClientIp.NoSourceGivesError | api/GetClientIp/index.js:45-68 | a request with no truthy source gets exactly 500, `Could not determine client IP address.`, `text/plain` |
| GetClientIp.BlankForwardedEntryGivesError | api/GetClientIp/index.js:49-67 | a truthy forwarded-for header whose first entry is blank gives the 500 error whatever later sources hold |
| GetClientIp.BodyComesFromChosenSource | api/GetClientIp/index.js:49-67 | a 200 body is a contiguous piece of the source that decided |
| GetClientIp.BlankForwardedEntryExample | api/GetClientIp/index.js:49-53 | `x-forwarded-for: " , 5.6.7.8"` hides a valid `x-ms-client-ip` and the response is the 500 error |

## Left out

- `script.js` is not part of this model. It only wires the page (DOM events, element lookup) to an asynchronous `fetch` call and formats an error string. There is nothing in it to compute.
- `context.log` and the Azure Functions runtime are left out: the asynchronous export, the logging call, and the assignment to `context.res`. The response is the value `Handle` returns.
- Header names are taken as already lower-cased by the runtime. Header values are modelled as single strings. The runtime's own case folding and its joining of repeated headers are not modelled.
- Strings are sequences of Unicode scalar values, while JavaScript strings are UTF-16 code units. Every index the code computes is found by searching for an ASCII character, so the cut points match. A lone surrogate cannot be expressed.
- The `trim` whitespace set is written out as the ECMAScript WhiteSpace and LineTerminator code points, with the space separators of current Unicode. A future Unicode version adding a space separator would not be followed.
- The regular expressions are modelled as predicates over the string, not as a regex engine. `BracketPortMatch` computes the match through the last colon, and its contract ties it to the declarative pattern.
