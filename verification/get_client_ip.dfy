/**
 * The GetClientIp HTTP function: it picks the raw client address from a
 * request (forwarded-for header, client-ip header, connection, socket),
 * normalises it with `SanitizeIp` and turns the outcome into a plain-text
 * response.
 */
module GetClientIp {
  import opened Wrappers
  import opened JsStrings

  // ---------------------------------------------------------------------
  // Address normalisation (sanitizeIp)
  // ---------------------------------------------------------------------

  /** The notation of an IPv4-mapped IPv6 address (section 2.5.5.2 of RFC 4291). */
  const MappedPrefix: string := "::ffff:"

  /** JavaScript truthiness of a value that is a string, `null` or `undefined`. */
  predicate Truthy(v: Option<string>) {
    v.Some? && v.value != ""
  }

  /** Step 1: drop one leading `::ffff:`, if there is one. */
  function StripMappedPrefix(s: string): (r: string)
    ensures MappedPrefix <= s ==> MappedPrefix + r == s
    ensures !(MappedPrefix <= s) ==> r == s
  {
    if MappedPrefix <= s then s[|MappedPrefix|..] else s
  }

  /**
   * `s` matches `^(\[.*\]):(\d+)$` with the closing bracket at `k - 1` and
   * the colon at `k`: an opening bracket, a run of characters other than line
   * terminators, a closing bracket, a colon and one or more digits.
   */
  predicate BracketPortAt(s: string, k: int) {
    && 2 <= k < |s|
    && s[0] == '[' && s[k - 1] == ']' && s[k] == ':'
    && NoLineTerminator(s[1..k - 1])
    && AllDigits(s[k + 1..])
  }

  /** `s` matches `^(\[.*\]):(\d+)$` at all. */
  ghost predicate MatchesBracketPort(s: string) {
    exists k :: BracketPortAt(s, k)
  }

  /** A colon with no colon after it is the one `lastIndexOf(':')` finds. */
  lemma LastColonAt(s: string, k: int)
    requires 0 <= k < |s| && s[k] == ':'
    requires forall j :: k < j < |s| ==> s[j] != ':'
    ensures LastIndexOf(s, ':') == k
  {
  }

  /** A colon followed by digits only is the last colon of the string. */
  lemma PortColonIsLast(s: string, k: int)
    requires 0 <= k < |s| && s[k] == ':' && AllDigits(s[k + 1..])
    ensures LastIndexOf(s, ':') == k
  {
    forall j | k < j < |s| ensures s[j] != ':' {
      assert IsDigit(s[k + 1..][j - k - 1]);
    }
    LastColonAt(s, k);
  }

  /**
   * `s.match(/^(\[.*\]):(\d+)$/)`: the first capture group when the whole
   * string matches, and nothing otherwise. The match, when there is one, is
   * unique, and the group is everything before the port's colon.
   */
  function BracketPortMatch(s: string): (r: Option<string>)
    ensures r.Some? <==> MatchesBracketPort(s)
    ensures forall k :: BracketPortAt(s, k) ==> r == Some(s[..k])
  {
    var k := LastIndexOf(s, ':');
    assert forall j :: BracketPortAt(s, j) ==> j == k by {
      forall j | BracketPortAt(s, j) ensures j == k {
        PortColonIsLast(s, j);
      }
    }
    if BracketPortAt(s, k) then Some(s[..k]) else None
  }

  /**
   * `s` ends in `:port` at `k` in the sense of the last-colon rule: digits
   * only after the colon, and before it a host that contains a dot or no
   * colon at all.
   */
  predicate HostPortAt(s: string, k: int) {
    && 0 <= k < |s| && s[k] == ':'
    && AllDigits(s[k + 1..])
    && ('.' in s[..k] || ':' !in s[..k])
  }

  /**
   * Step 2: remove a trailing port. A bracketed `[host]:port` keeps `[host]`;
   * otherwise the text after the last colon is dropped when it is all digits
   * and the text before it contains a dot or no colon. Whatever is removed is
   * a colon followed by digits.
   */
  function StripPort(s: string): (r: string)
    ensures r <= s
    ensures r != s ==> |r| < |s| && s[|r|] == ':' && AllDigits(s[|r| + 1..])
  {
    match BracketPortMatch(s)
    case Some(host) => host
    case None =>
      var lastColon := LastIndexOf(s, ':');
      if lastColon > -1 then
        var potentialHost := s[..lastColon];
        var potentialPort := s[lastColon + 1..];
        if AllDigits(potentialPort) && ('.' in potentialHost || ':' !in potentialHost) then
          potentialHost
        else
          s
      else
        s
  }

  /**
   * `sanitizeIp`: a falsy input gives `null`; any other input loses one
   * leading `::ffff:` and then a trailing port.
   */
  function SanitizeIp(ip: Option<string>): (r: Option<string>)
    ensures r.None? <==> !Truthy(ip)
  {
    match ip
    case None => None
    case Some(s) =>
      if s == "" then None
      else Some(StripPort(StripMappedPrefix(s)))
  }

  /** The port is stripped exactly when the bracket pattern or the last-colon rule applies. */
  lemma StripPortChangesIff(s: string)
    ensures StripPort(s) != s <==> MatchesBracketPort(s) || exists k :: HostPortAt(s, k)
  {
    if BracketPortMatch(s).Some? {
      var k :| BracketPortAt(s, k);
      assert StripPort(s) == s[..k];
    } else if exists k :: HostPortAt(s, k) {
      var k :| HostPortAt(s, k);
      PortColonIsLast(s, k);
      assert StripPort(s) == s[..k];
    } else if StripPort(s) != s {
      assert HostPortAt(s, LastIndexOf(s, ':'));
    }
  }

  /** The last-colon rule, on a string built as `host:port`. */
  lemma StripPortHostPort(host: string, port: string)
    requires AllDigits(port) && ('.' in host || ':' !in host)
    ensures StripPort(host + ":" + port) == host
  {
    var s := host + ":" + port;
    var k := |host|;
    assert s[..k] == host && s[k + 1..] == port;
    PortColonIsLast(s, k);
  }

  /** `[host]:port` gives `[host]`, brackets kept, whatever the host holds. */
  lemma BracketedPortKeepsBrackets(host: string, port: string)
    requires NoLineTerminator(host) && AllDigits(port)
    ensures SanitizeIp(Some("[" + host + "]:" + port)) == Some("[" + host + "]")
  {
    var s := "[" + host + "]:" + port;
    var k := |host| + 2;
    assert s[0] == '[' && s[k - 1] == ']' && s[k] == ':';
    assert s[1..k - 1] == host;
    assert s[k + 1..] == port;
    assert BracketPortAt(s, k);
    assert BracketPortMatch(s) == Some(s[..k]);
    assert s[..k] == "[" + host + "]";
    NotMappedUnlessColon(s);
  }

  /** Appending `:port` to a host without the mapped prefix does not create one. */
  lemma HostPortNotMapped(host: string, port: string)
    requires AllDigits(port) && ('.' in host || ':' !in host)
    requires !(MappedPrefix <= host)
    ensures !(MappedPrefix <= host + ":" + port)
  {
    var s := host + ":" + port;
    if MappedPrefix <= s {
      assert s[|host|] == ':' && s[|host| + 1] == port[0];
      if |host| >= |MappedPrefix| {
        assert false;
      } else if |host| == 6 {
        assert host == "::ffff" by { assert host == s[..6]; }
        assert false;
      } else {
        assert false;
      }
    }
  }

  /** A host with the mapped prefix and a dot keeps a dot once the prefix is gone. */
  lemma MappedHostKeepsDot(host: string)
    requires MappedPrefix <= host && '.' in host
    ensures '.' in host[|MappedPrefix|..]
  {
    var i :| 0 <= i < |host| && host[i] == '.';
    assert i >= |MappedPrefix| by { assert host[..|MappedPrefix|] == MappedPrefix; }
    assert host[|MappedPrefix|..][i - |MappedPrefix|] == '.';
  }

  /**
   * `host:port` gives `host` (less a leading `::ffff:`) when the port is all
   * digits and the host contains a dot or no colon.
   */
  lemma HostPortStripped(host: string, port: string)
    requires AllDigits(port) && ('.' in host || ':' !in host)
    ensures SanitizeIp(Some(host + ":" + port)) == Some(StripMappedPrefix(host))
  {
    if MappedPrefix <= host {
      var rest := host[|MappedPrefix|..];
      assert host + ":" + port == MappedPrefix + (rest + ":" + port);
      MappedPrefixRemovedOnce(rest + ":" + port);
      assert host[0] == ':';
      MappedHostKeepsDot(host);
      StripPortHostPort(rest, port);
    } else {
      HostPortNotMapped(host, port);
      StripPortHostPort(host, port);
    }
  }

  /**
   * An unbracketed address whose last colon has colons but no dot before it
   * is an IPv6 literal, and is returned unchanged.
   */
  lemma StripPortKeepsIpv6(head: string, tail: string)
    requires ':' in head && '.' !in head && ':' !in tail && head[0] != '['
    ensures StripPort(head + ":" + tail) == head + ":" + tail
  {
    var s := head + ":" + tail;
    assert s[..|head|] == head && s[|head| + 1..] == tail;
    forall j | |head| < j < |s| ensures s[j] != ':' {
      assert s[j] == tail[j - |head| - 1];
    }
    LastColonAt(s, |head|);
    assert !MatchesBracketPort(s) by { assert s[0] == head[0]; }
  }

  /** Text after the last colon that is empty or not all digits is never a port. */
  lemma StripPortKeepsNonNumericTail(head: string, tail: string)
    requires ':' !in tail && !AllDigits(tail)
    ensures StripPort(head + ":" + tail) == head + ":" + tail
  {
    var s := head + ":" + tail;
    assert s[..|head|] == head && s[|head| + 1..] == tail;
    forall j | |head| < j < |s| ensures s[j] != ':' {
      assert s[j] == tail[j - |head| - 1];
    }
    LastColonAt(s, |head|);
  }

  /** A string with no colon at all is returned as it is. */
  lemma NoColonUnchanged(s: string)
    requires s != "" && ':' !in s
    ensures SanitizeIp(Some(s)) == Some(s)
  {
  }

  /** Only a string that starts with a colon can carry the mapped prefix. */
  lemma NotMappedUnlessColon(s: string)
    requires s != "" && s[0] != ':'
    ensures SanitizeIp(Some(s)) == Some(StripPort(s))
  {
    assert StripMappedPrefix(s) == s by { assert s[0] != MappedPrefix[0]; }
  }

  /** The `::ffff:` prefix is removed once: what follows it only has its port stripped. */
  lemma MappedPrefixRemovedOnce(t: string)
    ensures SanitizeIp(Some(MappedPrefix + t)) == Some(StripPort(t))
  {
    assert (MappedPrefix + t)[|MappedPrefix|..] == t;
  }

  /** The result of a truthy input is a piece of that input, never longer. */
  lemma SanitizeIsSubstring(s: string)
    requires s != ""
    ensures var r := SanitizeIp(Some(s)).value;
      |r| <= |s| && exists k :: OccursAt(r, s, k)
  {
    var t := StripMappedPrefix(s);
    var r := StripPort(t);
    var k := if MappedPrefix <= s then |MappedPrefix| else 0;
    assert t == s[k..];
    assert r == t[..|r|];
    assert s[k..k + |r|] == r;
    assert OccursAt(r, s, k);
  }

  // ---------------------------------------------------------------------
  // The examples the normaliser's comments give (index.js lines 6, 13,
  // 19 and 20), and edge cases around them
  // ---------------------------------------------------------------------

  // Each example takes its input as a parameter pinned by `requires`
  // rather than writing the literal into the `ensures`: the verifier then
  // reasons about the literal through the general lemmas above instead of
  // unfolding every function on it character by character, which is
  // much more expensive.

  /** An IPv4-mapped address loses its prefix, e.g. `::ffff:127.0.0.1` gives `127.0.0.1`. */
  lemma MappedIpv4Unwrapped(v4: string)
    requires ':' !in v4
    ensures SanitizeIp(Some(MappedPrefix + v4)) == Some(v4)
  {
    MappedPrefixRemovedOnce(v4);
    assert StripPort(v4) == v4 by {
      assert LastIndexOf(v4, ':') == -1;
    }
  }

  lemma MappedPrefixAloneExample(ip: string)
    requires ip == "::ffff:"
    ensures SanitizeIp(Some(ip)) == Some("")
  {
    assert ip == MappedPrefix + "";
    MappedPrefixRemovedOnce("");
  }

  /**
   * What is left after the prefix is not searched for it again: a mapped
   * address reaching the port step, as `::ffff:::ffff:1.2.3.4` does after
   * its first prefix is gone, comes out whole.
   */
  lemma StripPortKeepsMappedAddress(v4: string)
    requires ':' !in v4 && '.' in v4
    ensures StripPort(MappedPrefix + v4) == MappedPrefix + v4
  {
    var head := MappedPrefix[..|MappedPrefix| - 1];
    assert MappedPrefix + v4 == head + ":" + v4;
    assert !AllDigits(v4) by {
      var i :| 0 <= i < |v4| && v4[i] == '.';
      assert !IsDigit(v4[i]);
    }
    StripPortKeepsNonNumericTail(head, v4);
  }

  /** A doubled prefix loses only its first copy. */
  lemma DoubledMappedPrefixExample(v4: string)
    requires ':' !in v4 && '.' in v4
    ensures SanitizeIp(Some(MappedPrefix + (MappedPrefix + v4))) == Some(MappedPrefix + v4)
  {
    MappedPrefixRemovedOnce(MappedPrefix + v4);
    StripPortKeepsMappedAddress(v4);
  }

  lemma Ipv4PortExample(ip: string)
    requires ip == "127.0.0.1:8080"
    ensures SanitizeIp(Some(ip)) == Some("127.0.0.1")
  {
    var host, port := "127.0.0.1", "8080";
    assert host[3] == '.';
    assert ip == host + ":" + port;
    HostPortStripped(host, port);
  }

  lemma HostnamePortExample(ip: string)
    requires ip == "localhost:3000"
    ensures SanitizeIp(Some(ip)) == Some("localhost")
  {
    var host, port := "localhost", "3000";
    assert ip == host + ":" + port;
    HostPortStripped(host, port);
  }

  lemma BracketedIpv6PortExample(ip: string)
    requires ip == "[::1]:8080"
    ensures SanitizeIp(Some(ip)) == Some("[::1]")
  {
    var host, port := "::1", "8080";
    assert ip == "[" + host + "]:" + port;
    assert "[" + host + "]" == "[::1]";
    BracketedPortKeepsBrackets(host, port);
  }

  lemma BareIpv6Example(ip: string)
    requires ip == "2001:db8::1"
    ensures SanitizeIp(Some(ip)) == Some(ip)
  {
    var head, tail := "2001:db8:", "1";
    assert ip == head + ":" + tail;
    assert head[4] == ':';
    assert ip[0] != MappedPrefix[0];
    StripPortKeepsIpv6(head, tail);
  }

  /**
   * The IPv6 literal is left alone only when its last colon has no dot and
   * a colon before it. A mapped address in hexadecimal notation, `::ffff:`
   * followed by `a:b`, loses its prefix first; `a` then has no colon, so
   * an all-digit `b` is cut off as if it were a port.
   */
  lemma MappedHexAddressLosesLastGroup(a: string, b: string)
    requires ':' !in a && AllDigits(b)
    ensures SanitizeIp(Some(MappedPrefix + (a + ":" + b))) == Some(a)
  {
    MappedPrefixRemovedOnce(a + ":" + b);
    StripPortHostPort(a, b);
  }

  /** `::ffff:102:304`, the hexadecimal spelling of `::ffff:1.2.3.4`, gives `102`. */
  lemma MappedHexAddressExample(ip: string)
    requires ip == "::ffff:102:304"
    ensures SanitizeIp(Some(ip)) == Some("102")
  {
    var a, b := "102", "304";
    assert ip == MappedPrefix + (a + ":" + b);
    MappedHexAddressLosesLastGroup(a, b);
  }

  lemma EmptyPortExample(ip: string)
    requires ip == "host:"
    ensures SanitizeIp(Some(ip)) == Some(ip)
  {
    var head, tail := "host", "";
    assert ip == head + ":" + tail;
    assert ip[0] != MappedPrefix[0];
    StripPortKeepsNonNumericTail(head, tail);
  }

  lemma NonNumericPortExample(ip: string)
    requires ip == "host:ab"
    ensures SanitizeIp(Some(ip)) == Some(ip)
  {
    var head, tail := "host", "ab";
    assert ip == head + ":" + tail;
    assert ip[0] != MappedPrefix[0];
    assert !IsDigit(tail[0]);
    StripPortKeepsNonNumericTail(head, tail);
  }

  lemma BarePortExample(ip: string)
    requires ip == ":8080"
    ensures SanitizeIp(Some(ip)) == Some("")
  {
    var host, port := "", "8080";
    assert ip == host + ":" + port;
    HostPortStripped(host, port);
  }

  // ---------------------------------------------------------------------
  // The HTTP handler
  // ---------------------------------------------------------------------

  /** `req.connection` or `req.socket`: an object that may carry `remoteAddress`. */
  datatype Endpoint = Endpoint(remoteAddress: Option<string>)

  /** The parts of an HTTP request the handler reads; header names are lower case. */
  datatype Request = Request(
    headers: Option<map<string, string>>,
    connection: Option<Endpoint>,
    socket: Option<Endpoint>)

  /** The value assigned to `context.res`. */
  datatype Response = Response(status: int, body: string, headers: map<string, string>)

  const ErrorMessage: string := "Could not determine client IP address."

  const PlainText: map<string, string> := map["Content-Type" := "text/plain"]

  /** `headers[name]`: the header's value, or `undefined` when it is absent. */
  function Header(headers: map<string, string>, name: string): Option<string> {
    if name in headers then Some(headers[name]) else None
  }

  /** `e && e.remoteAddress`, as far as its truthiness and value go. */
  function RemoteAddress(e: Option<Endpoint>): Option<string> {
    if e.Some? then e.value.remoteAddress else None
  }

  /** `req.headers || {}`. */
  function HeadersOf(req: Request): map<string, string> {
    if req.headers.Some? then req.headers.value else map[]
  }

  function ForwardedFor(req: Request): Option<string> {
    Header(HeadersOf(req), "x-forwarded-for")
  }

  function ClientIpHeader(req: Request): Option<string> {
    Header(HeadersOf(req), "x-ms-client-ip")
  }

  /** The client's entry of a forwarded-for list: its first comma-separated field, trimmed. */
  function FirstForwarded(xff: string): (r: string)
    ensures ',' !in r
  {
    Trim(FirstField(xff, ','))
  }

  /**
   * The first truthy candidate of a priority list, or `null` when none is:
   * the reference meaning of a chain of `if (a) … else if (b) …` tests.
   */
  function FirstTruthy(candidates: seq<Option<string>>): (r: Option<string>)
    ensures r.None? <==> forall i :: 0 <= i < |candidates| ==> !Truthy(candidates[i])
    ensures r.Some? ==>
      exists i :: (0 <= i < |candidates| && candidates[i] == r && Truthy(r)
        && forall j :: 0 <= j < i ==> !Truthy(candidates[j]))
  {
    if candidates == [] then None
    else if Truthy(candidates[0]) then candidates[0]
    else
      var r := FirstTruthy(candidates[1..]);
      assert forall i :: 1 <= i < |candidates| ==> candidates[i] == candidates[1..][i - 1];
      r
  }

  /**
   * The if/else chain that sets `rawClientIp`: the forwarded-for header's
   * first entry, else the client-ip header, else the connection's remote
   * address, else the socket's, else `null`.
   */
  function SelectRawIp(req: Request): (raw: Option<string>)
    ensures raw.None? <==>
      (!Truthy(ForwardedFor(req)) && !Truthy(ClientIpHeader(req))
        && !Truthy(RemoteAddress(req.connection)) && !Truthy(RemoteAddress(req.socket)))
    ensures raw.Some? && !Truthy(raw) ==> Truthy(ForwardedFor(req))
  {
    var headers := HeadersOf(req);
    if Truthy(Header(headers, "x-forwarded-for")) then
      Some(FirstForwarded(headers["x-forwarded-for"]))
    else if Truthy(Header(headers, "x-ms-client-ip")) then
      Header(headers, "x-ms-client-ip")
    else if req.connection.Some? && Truthy(req.connection.value.remoteAddress) then
      req.connection.value.remoteAddress
    else if req.socket.Some? && Truthy(req.socket.value.remoteAddress) then
      req.socket.value.remoteAddress
    else
      None
  }

  /**
   * The sources are tried in a fixed order and the first truthy one decides;
   * a truthy forwarded-for header decides even when its first entry is empty.
   */
  lemma {:induction false} SelectRawIpFollowsPrecedence(req: Request)
    ensures SelectRawIp(req) ==
      if Truthy(ForwardedFor(req)) then Some(FirstForwarded(ForwardedFor(req).value))
      else FirstTruthy([ClientIpHeader(req), RemoteAddress(req.connection), RemoteAddress(req.socket)])
  {
    var cs := [ClientIpHeader(req), RemoteAddress(req.connection), RemoteAddress(req.socket)];
    if !Truthy(ForwardedFor(req)) && !Truthy(cs[0]) {
      assert cs[1..] == [RemoteAddress(req.connection), RemoteAddress(req.socket)];
      assert FirstTruthy(cs) == FirstTruthy(cs[1..]);
      if !Truthy(cs[1]) {
        assert cs[1..][1..] == [RemoteAddress(req.socket)];
        assert cs[1..][1..][1..] == [];
      }
    }
  }

  /** The value assigned to `context.res` for a normalised address. */
  function Respond(clientIp: Option<string>): (res: Response)
    ensures res.headers == PlainText
    ensures res.status == 200 <==> Truthy(clientIp)
    ensures res.status == 200 ==> res.body == clientIp.value
    ensures res.status != 200 ==> res.status == 500 && res.body == ErrorMessage
    ensures res.body != ""
  {
    Response(
      if Truthy(clientIp) then 200 else 500,
      if Truthy(clientIp) then clientIp.value else ErrorMessage,
      PlainText)
  }

  /** The exported handler: select, normalise, respond. */
  function Handle(req: Request): (res: Response)
    ensures res.headers == PlainText
    ensures res.status == 200 || res.status == 500
    ensures res.status == 200 <==> Truthy(SanitizeIp(SelectRawIp(req)))
    ensures res.status == 200 ==> res.body == SanitizeIp(SelectRawIp(req)).value
    ensures res.status == 500 ==> res.body == ErrorMessage
  {
    Respond(SanitizeIp(SelectRawIp(req)))
  }

  /** A request with no usable source gets the 500 response with the fixed message. */
  lemma NoSourceGivesError(req: Request)
    requires !Truthy(ForwardedFor(req)) && !Truthy(ClientIpHeader(req))
    requires !Truthy(RemoteAddress(req.connection)) && !Truthy(RemoteAddress(req.socket))
    ensures Handle(req) == Response(500, ErrorMessage, PlainText)
  {
  }

  /**
   * A truthy forwarded-for header whose first entry is blank ends in a 500,
   * whatever the later sources hold: there is no fall-through.
   */
  lemma BlankForwardedEntryGivesError(req: Request)
    requires Truthy(ForwardedFor(req))
    requires AllWhitespace(FirstField(ForwardedFor(req).value, ','))
    ensures Handle(req).status == 500 && Handle(req).body == ErrorMessage
  {
    TrimAllWhitespace(FirstField(ForwardedFor(req).value, ','));
  }

  /** A piece of a piece of `s` is a piece of `s`. */
  lemma OccursAtTransitive(a: string, b: string, c: string, i: int, j: int)
    requires OccursAt(a, b, i) && OccursAt(b, c, j)
    ensures OccursAt(a, c, j + i)
  {
    forall t | 0 <= t < |a| ensures c[j + i..j + i + |a|][t] == a[t] {
      assert a[t] == b[i..i + |a|][t] == b[i + t];
      assert b[i + t] == c[j..j + |b|][i + t] == c[j + i + t];
    }
  }

  /** The client entry taken from a forwarded-for list is a piece of the header's value. */
  lemma FirstForwardedOccurs(xff: string)
    ensures exists k :: OccursAt(FirstForwarded(xff), xff, k)
  {
    var field := FirstField(xff, ',');
    assert field <= xff;
    assert xff[0..|field|] == field;
    assert OccursAt(field, xff, 0);
    TrimRemovesOnlyWhitespace(field);
    assert FirstForwarded(xff) == Trim(field);
    var k :| OccursAt(Trim(field), field, k);
    OccursAtTransitive(Trim(field), field, xff, k, 0);
  }

  /**
   * A 200 response's body is a piece of the source that decided: the
   * forwarded-for header when it is truthy, and otherwise the first truthy
   * of the client-ip header, the connection's and the socket's address.
   */
  lemma BodyComesFromChosenSource(req: Request)
    requires Handle(req).status == 200
    ensures var body := Handle(req).body;
      if Truthy(ForwardedFor(req)) then exists k :: OccursAt(body, ForwardedFor(req).value, k)
      else
        var src := FirstTruthy([ClientIpHeader(req), RemoteAddress(req.connection), RemoteAddress(req.socket)]);
        src.Some? && exists k :: OccursAt(body, src.value, k)
  {
    SelectRawIpFollowsPrecedence(req);
    var raw := SelectRawIp(req).value;
    var body := Handle(req).body;
    SanitizeIsSubstring(raw);
    var k :| OccursAt(body, raw, k);
    if Truthy(ForwardedFor(req)) {
      var xff := ForwardedFor(req).value;
      FirstForwardedOccurs(xff);
      var j :| OccursAt(raw, xff, j);
      OccursAtTransitive(body, raw, xff, k, j);
    }
  }

  /**
   * A truthy forwarded-for header decides by its first entry alone, trimmed;
   * what follows the first comma, and every later source, is ignored.
   */
  lemma ForwardedForFirstEntryWins(req: Request, entry: string, rest: string)
    requires ForwardedFor(req) == Some(entry + "," + rest)
    requires ',' !in entry
    ensures SelectRawIp(req) == Some(Trim(entry))
  {
    var xff := entry + "," + rest;
    assert xff[..|entry|] == entry;
    FirstFieldEndsAt(xff, ',', |entry|);
  }

  /** The entry `1.2.3.4` has no surrounding whitespace, so trimming keeps it. */
  lemma PlainEntryTrimsToItself(e: string)
    requires e == "1.2.3.4"
    ensures Trim(e) == e
  {
    assert LeadingSpace(e) == 0;
    assert TrailingSpace(e) == 0;
  }

  /** The forwarded-for list `1.2.3.4, 5.6.7.8` yields the raw address `1.2.3.4`. */
  lemma ForwardedForListExample(req: Request, xff: string)
    requires xff == "1.2.3.4, 5.6.7.8"
    requires ForwardedFor(req) == Some(xff)
    ensures SelectRawIp(req) == Some("1.2.3.4")
  {
    var entry, rest := "1.2.3.4", " 5.6.7.8";
    assert xff == entry + "," + rest;
    ForwardedForFirstEntryWins(req, entry, rest);
    PlainEntryTrimsToItself(entry);
  }

  /** With both headers present, `x-forwarded-for` wins over `x-ms-client-ip`. */
  lemma ForwardedForPrecedenceExample(req: Request)
    requires req.headers == Some(map["x-forwarded-for" := "1.2.3.4, 5.6.7.8", "x-ms-client-ip" := "9.9.9.9"])
    ensures SelectRawIp(req) == Some("1.2.3.4")
  {
    ForwardedForListExample(req, ForwardedFor(req).value);
  }

  /** A forwarded-for header that starts with a blank entry hides a valid client-ip header. */
  lemma BlankForwardedEntryExample(req: Request)
    requires req.headers == Some(map["x-forwarded-for" := " , 5.6.7.8", "x-ms-client-ip" := "9.9.9.9"])
    ensures Handle(req) == Response(500, ErrorMessage, PlainText)
  {
    var xff := ForwardedFor(req).value;
    FirstFieldEndsAt(xff, ',', 1);
    BlankForwardedEntryGivesError(req);
  }
}
