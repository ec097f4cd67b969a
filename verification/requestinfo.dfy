/** Client address and user-agent extraction: the gRPC variants in
    user-service/internal/handler/grpc/helpers.go and the HTTP variants in
    user-service/internal/utils/request_info.go. */
module RequestInfo {
  import opened Common

  // -----------------------------------------------------------------------
  // gRPC context (helpers.go)
  // -----------------------------------------------------------------------

  /** The first comma-separated element of a forwarded-for value, trimmed. */
  function FirstForwarded(value: string): (r: string)
    ensures ',' !in r
    ensures r == [] || (!IsSpace(r[0]) && !IsSpace(r[|r| - 1]))
  {
    TrimSpace(FirstField(value, ','))
  }

  /** The forwarded-for value is a comma-separated list; the first entry,
      trimmed, is taken whatever follows it. */
  lemma {:induction false} FirstForwardedPicksFirstEntry(first: string, rest: string)
    requires ',' !in first
    ensures FirstForwarded(first) == TrimSpace(first)
    ensures FirstForwarded(first + [','] + rest) == TrimSpace(first)
  {
    var s := first + [','] + rest;
    var f := FirstField(s, ',');
    assert s[|first|] == ',';
    assert s[..|first|] == first;
    assert f == first;
  }

  /** A peer address with everything from its last ':' removed. */
  function StripPort(addr: string): (r: string)
    ensures ':' !in addr ==> r == addr
    ensures ':' in addr ==> r + [':'] <= addr && |r| < |addr| && ':' !in addr[|r| + 1..]
  {
    match LastIndexOf(addr, ':')
    case None => addr
    case Some(i) =>
      assert addr[..i] + [':'] == addr[..i + 1];
      addr[..i]
  }

  /** getIPFromCtx: the forwarded-for header wins over the transport peer;
      with neither, there is no address (nil). */
  function GetIPFromCtx(ctx: Ctx): (r: Option<string>)
    ensures ctx.md.Some? && MdGet(ctx.md.value, "x-forwarded-for") != [] ==>
              r == Some(FirstForwarded(MdGet(ctx.md.value, "x-forwarded-for")[0]))
    ensures !(ctx.md.Some? && MdGet(ctx.md.value, "x-forwarded-for") != []) ==>
              r == if ctx.peer.Some? && ctx.peer.value.addr.Some?
                   then Some(StripPort(ctx.peer.value.addr.value)) else None
  {
    if ctx.md.Some? && |MdGet(ctx.md.value, "x-forwarded-for")| > 0 then
      Some(FirstForwarded(MdGet(ctx.md.value, "x-forwarded-for")[0]))
    else if ctx.peer.Some? && ctx.peer.value.addr.Some? then
      Some(StripPort(ctx.peer.value.addr.value))
    else
      None
  }

  /** getUserAgentFromCtx: the first user-agent value, or "". */
  function GetUserAgentFromCtx(ctx: Ctx): (r: string)
    ensures ctx.md.Some? && MdGet(ctx.md.value, "user-agent") != [] ==> r == MdGet(ctx.md.value, "user-agent")[0]
    ensures ctx.md.None? || MdGet(ctx.md.value, "user-agent") == [] ==> r == ""
  {
    if ctx.md.None? then ""
    else
      var vals := MdGet(ctx.md.value, "user-agent");
      if |vals| > 0 then vals[0] else ""
  }

  /** The forwarded-for header takes precedence over the peer whatever the
      peer is. */
  lemma ForwardedHeaderWins(ctx: Ctx, peer: Option<Peer>)
    requires ctx.md.Some? && MdGet(ctx.md.value, "x-forwarded-for") != []
    ensures GetIPFromCtx(ctx.(peer := peer)) == GetIPFromCtx(ctx)
  {
  }

  // -----------------------------------------------------------------------
  // HTTP request (request_info.go)
  // -----------------------------------------------------------------------

  /** An HTTP request: canonical header keys to value lists, and the
      remote address "host:port". */
  datatype Request = Request(header: map<string, seq<string>>, remoteAddr: string)

  /** http.Header.Get for a key already in canonical form: the first value, or "". */
  function HeaderGet(h: map<string, seq<string>>, key: string): string
  {
    if key in h && |h[key]| > 0 then h[key][0] else ""
  }

  /** Go's net.SplitHostPort: splits "host:port", "[host]:port" or
      "[host%zone]:port"; the host may not contain ':' unless bracketed. */
  function SplitHostPort(hostport: string): (r: Result<(string, string)>)
    ensures r.Success? ==> ':' in hostport && ':' !in r.value.1
    ensures r.Success? ==> '[' !in r.value.0 && ']' !in r.value.0 && '[' !in r.value.1 && ']' !in r.value.1
  {
    match LastIndexOf(hostport, ':')
    case None => Failure(Plain("missing port in address"))
    case Some(i) =>
      var port := hostport[i + 1..];
      if hostport[0] == '[' then
        match IndexOf(hostport, ']')
        case None => Failure(Plain("missing ']' in address"))
        case Some(end) =>
          if end + 1 == |hostport| then Failure(Plain("missing port in address"))
          else if end + 1 != i then
            if hostport[end + 1] == ':' then Failure(Plain("too many colons in address"))
            else Failure(Plain("missing port in address"))
          else if '[' in hostport[1..] then Failure(Plain("unexpected '[' in address"))
          else if ']' in hostport[end + 1..] then Failure(Plain("unexpected ']' in address"))
          else
            assert hostport[1..end] == hostport[1..][..end - 1];
            assert forall k :: i + 1 <= k < |hostport| ==> hostport[k] in hostport[end + 1..];
            Success((hostport[1..end], port))
      else
        var host := hostport[..i];
        if ':' in host then Failure(Plain("too many colons in address"))
        else if '[' in hostport then Failure(Plain("unexpected '[' in address"))
        else if ']' in hostport then Failure(Plain("unexpected ']' in address"))
        else
          assert forall k :: 0 <= k < i ==> host[k] == hostport[k];
          Success((host, port))
  }

  /** Go's net.JoinHostPort: brackets a host that contains ':'. */
  function JoinHostPort(host: string, port: string): string
  {
    if ':' in host then "[" + host + "]:" + port else host + ":" + port
  }

  /** No `c` strictly after position `i`, stated pointwise. */
  lemma NoneAfter(s: string, i: nat, c: char)
    requires i < |s| && c !in s[i + 1..]
    ensures forall k :: i < k < |s| ==> s[k] != c
  {
    forall k | i < k < |s|
      ensures s[k] != c
    {
      assert s[k] == s[i + 1..][k - i - 1];
    }
  }

  /** No `c` strictly before position `i`, stated pointwise. */
  lemma NoneBefore(s: string, i: nat, c: char)
    requires i <= |s| && c !in s[..i]
    ensures forall k :: 0 <= k < i ==> s[k] != c
  {
    forall k | 0 <= k < i
      ensures s[k] != c
    {
      assert s[k] == s[..i][k];
    }
  }

  /** The last ':' is the one with no ':' after it. */
  lemma LastColonAt(s: string, i: nat)
    requires i < |s| && s[i] == ':' && ':' !in s[i + 1..]
    ensures LastIndexOf(s, ':') == Some(i)
  {
    var j := LastIndexOf(s, ':').value;
    NoneAfter(s, i, ':');
    NoneAfter(s, j, ':');
  }

  /** The first ']' is the one with no ']' before it. */
  lemma FirstBracketAt(s: string, i: nat)
    requires i < |s| && s[i] == ']' && ']' !in s[..i]
    ensures IndexOf(s, ']') == Some(i)
  {
    var j := IndexOf(s, ']').value;
    NoneBefore(s, i, ']');
    NoneBefore(s, j, ']');
  }

  /** SplitHostPort's bracketed success branch. */
  lemma SplitBracketedBranch(hp: string, end: nat)
    requires end + 1 < |hp| && hp[0] == '['
    requires LastIndexOf(hp, ':') == Some(end + 1) && IndexOf(hp, ']') == Some(end)
    requires '[' !in hp[1..] && ']' !in hp[end + 1..]
    ensures SplitHostPort(hp) == Success((hp[1..end], hp[end + 2..]))
  {
  }

  /** Where the colon and brackets of "[host]:port" sit. */
  lemma BracketedLayout(host: string, port: string)
    requires ':' !in port
    requires '[' !in host && ']' !in host && '[' !in port && ']' !in port
    ensures var hp := "[" + host + "]:" + port;
            && LastIndexOf(hp, ':') == Some(|host| + 2)
            && IndexOf(hp, ']') == Some(|host| + 1)
  {
    var hp := "[" + host + "]:" + port;
    var end := |host| + 1;
    assert hp[end + 1] == ':' && hp[end + 2..] == port;
    LastColonAt(hp, end + 1);
    assert hp[..end] == "[" + host;
    FirstBracketAt(hp, end);
  }

  /** The pieces of "[host]:port" around its brackets. */
  lemma BracketedPieces(host: string, port: string)
    requires '[' !in host && ']' !in host && '[' !in port && ']' !in port
    ensures var hp := "[" + host + "]:" + port;
            && '[' !in hp[1..] && ']' !in hp[|host| + 2..]
            && hp[1..|host| + 1] == host && hp[|host| + 3..] == port
  {
    var hp := "[" + host + "]:" + port;
    assert hp[1..] == host + "]:" + port;
    assert hp[|host| + 2..] == ":" + port;
  }

  /** Splitting "[host]:port" for a host with a colon. */
  lemma SplitBracketed(host: string, port: string)
    requires ':' !in port
    requires '[' !in host && ']' !in host && '[' !in port && ']' !in port
    ensures SplitHostPort("[" + host + "]:" + port) == Success((host, port))
  {
    BracketedLayout(host, port);
    BracketedPieces(host, port);
    SplitBracketedBranch("[" + host + "]:" + port, |host| + 1);
  }

  /** Splitting "host:port" for a host without a colon. */
  lemma SplitPlain(host: string, port: string)
    requires ':' !in host && ':' !in port
    requires '[' !in host && ']' !in host && '[' !in port && ']' !in port
    ensures SplitHostPort(host + ":" + port) == Success((host, port))
  {
    var hp := host + ":" + port;
    var i := |host|;
    assert hp[i + 1..] == port;
    assert hp[..i] == host;
    LastColonAt(hp, i);
    if |host| > 0 {
      assert hp[0] == host[0];
    } else {
      assert hp[0] == ':';
    }
  }

  /** SplitHostPort undoes JoinHostPort for hosts and ports without
      brackets and ports without colons (every TCP address). */
  lemma SplitJoinRoundTrip(host: string, port: string)
    requires ':' !in port
    requires '[' !in host && ']' !in host && '[' !in port && ']' !in port
    ensures SplitHostPort(JoinHostPort(host, port)) == Success((host, port))
  {
    if ':' in host {
      SplitBracketed(host, port);
    } else {
      SplitPlain(host, port);
    }
  }

  /** GetIP: X-Forwarded-For (first element, trimmed), else X-Real-Ip
      verbatim, else the host part of RemoteAddr, else RemoteAddr as is. */
  function GetIP(r: Request): (ip: string)
    ensures HeaderGet(r.header, "X-Forwarded-For") != "" ==>
              ip == FirstForwarded(HeaderGet(r.header, "X-Forwarded-For"))
    ensures HeaderGet(r.header, "X-Forwarded-For") == "" && HeaderGet(r.header, "X-Real-Ip") != "" ==>
              ip == HeaderGet(r.header, "X-Real-Ip")
    ensures HeaderGet(r.header, "X-Forwarded-For") == "" && HeaderGet(r.header, "X-Real-Ip") == "" ==>
              ip == match SplitHostPort(r.remoteAddr)
                    case Success(hp) => hp.0
                    case Failure(_) => r.remoteAddr
  {
    var fwd := HeaderGet(r.header, "X-Forwarded-For");
    if fwd != "" then FirstForwarded(fwd)
    else
      var realIP := HeaderGet(r.header, "X-Real-Ip");
      if realIP != "" then realIP
      else
        match SplitHostPort(r.remoteAddr)
        case Success(hp) => hp.0
        case Failure(_) => r.remoteAddr
  }

  /** GetUserAgent: the User-Agent header unchanged. */
  function GetUserAgent(r: Request): (ua: string)
    ensures ua == HeaderGet(r.header, "User-Agent")
  {
    HeaderGet(r.header, "User-Agent")
  }

  /** A plain "host:port" remote address yields its host. */
  lemma GetIPFromRemoteAddr(r: Request, host: string, port: string)
    requires HeaderGet(r.header, "X-Forwarded-For") == "" && HeaderGet(r.header, "X-Real-Ip") == ""
    requires ':' !in port && '[' !in host && ']' !in host && '[' !in port && ']' !in port
    requires r.remoteAddr == JoinHostPort(host, port)
    ensures GetIP(r) == host
  {
    SplitJoinRoundTrip(host, port);
  }

  /** The two helpers disagree on IPv6 peers: the gRPC one keeps the
      brackets of "[::1]:50051"... */
  lemma Ipv6PeerKeepsBracketsInCtx(ctx: Ctx)
    requires ctx.md.None?
    requires ctx.peer == Some(Peer(Some("[::1]:50051")))
    ensures GetIPFromCtx(ctx) == Some("[::1]")
  {
    var a := "[::1]:50051";
    assert a[5] == ':';
    assert ':' !in a[6..];
    assert LastIndexOf(a, ':') == Some(5);
    assert a[..5] == "[::1]";
  }

  /** ...while the HTTP one removes them. */
  lemma Ipv6RemoteAddrLosesBrackets()
    ensures GetIP(Request(map[], "[::1]:50051")) == "::1"
  {
    assert JoinHostPort("::1", "50051") == "[::1]:50051" by {
      assert ':' in "::1";
    }
    GetIPFromRemoteAddr(Request(map[], "[::1]:50051"), "::1", "50051");
  }
}
