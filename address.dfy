/** The address the server announces: `update_address` turns the external IP
    that STUN discovery reports into the base address, bracketing an IPv6
    literal, and `format_address` appends the port (unless the address ends
    in '/') and the listing's path. */
module Address {
  import opened Strings
  import Index

  const Scheme: string := "http://"
  const LocalHost: string := "localhost"

  /** Python's `str(n)` for any integer. */
  function IntString(n: int): string
  {
    if n < 0 then "-" + DecimalString(-n) else DecimalString(n)
  }

  /** Python's `int(s)` on an optionally signed ASCII numeral. */
  function IntValue(s: string): Option<int>
  {
    if s != [] && s[0] == '-' then
      if s[1..] != [] && IsDigits(s[1..]) then Some(0 - DecimalValue(s[1..]) as int) else None
    else if s != [] && IsDigits(s) then Some(DecimalValue(s))
    else None
  }

  /** `update_address` given what STUN reports as the external IP: no IP (or
      an empty one) gives the local address, an IP with a ':' (IPv6) is put
      in brackets. */
  function UpdateAddress(externalIp: Option<string>): string
  {
    match externalIp
    case None => Scheme + LocalHost
    case Some(ip) =>
      if ip == [] then Scheme + LocalHost
      else if ':' in ip then Scheme + ("[" + (ip + "]"))
      else Scheme + ip
  }

  /** The host a client reaches through the announced address. */
  function HostFor(externalIp: Option<string>): string
  {
    if externalIp.None? || externalIp.value == [] then LocalHost else externalIp.value
  }

  /** `format_address()`: a trailing '/' on the address suppresses the port. */
  function FormatAddress(address: string, port: int, secret: string): string
  {
    if EndsWith(address, "/") then address + (secret + "/")
    else address + (":" + (IntString(port) + Index.Directory(secret)))
  }

  /** Reads an authority `host:port` or `[host]:port` as a client does: a host
      in brackets ends at the ']', any other host at the first ':'. */
  function SplitHostPort(authority: string): Option<(string, int)>
  {
    if authority != [] && authority[0] == '[' then
      var j := Index.IndexOf(authority, ']');
      if j == |authority| || authority[j + 1..] == [] || authority[j + 1] != ':' then None
      else
        match IntValue(authority[j + 2..])
        case None => None
        case Some(p) => Some((authority[1..j], p))
    else
      var j := Index.IndexOf(authority, ':');
      if j == |authority| then None
      else
        match IntValue(authority[j + 1..])
        case None => None
        case Some(p) => Some((authority[..j], p))
  }

  /** Reads an `http://host:port/path` URL: the host, the port and the path. */
  function ParseUrl(url: string): Option<(string, int, string)>
  {
    if !StartsWith(url, Scheme) then None
    else
      var rest := url[|Scheme|..];
      var a := Index.IndexOf(rest, '/');
      match SplitHostPort(rest[..a])
      case None => None
      case Some((host, port)) => Some((host, port, rest[a..]))
  }

  /** `int(str(n)) == n`. */
  lemma IntRoundTrip(n: int)
    ensures IntValue(IntString(n)) == Some(n)
  {
    if n < 0 {
      var d := DecimalString(-n);
      DecimalRoundTrip(-n);
      assert ("-" + d)[1..] == d;
    } else {
      DecimalRoundTrip(n);
      DigitsFirst(DecimalString(n));
    }
  }

  /** A port numeral holds no separator of a URL. */
  lemma IntStringPlain(n: int)
    ensures '/' !in IntString(n) && ':' !in IntString(n) && ']' !in IntString(n)
  {
    var d := if n < 0 then DecimalString(-n) else DecimalString(n);
    DigitsAll(d);
    if n < 0 {
      assert forall i :: 1 <= i < |IntString(n)| ==> IntString(n)[i] == d[i - 1];
    }
  }

  /** A host without brackets is read up to its ':'. */
  lemma PlainAuthority(host: string, p: string, port: int)
    requires host != [] && host[0] != '[' && ':' !in host
    requires IntValue(p) == Some(port)
    ensures SplitHostPort(host + (":" + p)) == Some((host, port))
  {
    var auth := host + (":" + p);
    Index.IndexOfAt(host, ':', ":" + p);
    assert auth[0] == host[0];
    assert auth[..|host|] == host;
    assert auth[|host| + 1..] == p;
  }

  /** A host in brackets is read up to its ']'. */
  lemma BracketedAuthority(ip: string, p: string, port: int)
    requires ']' !in ip
    requires IntValue(p) == Some(port)
    ensures SplitHostPort(("[" + (ip + "]")) + (":" + p)) == Some((ip, port))
  {
    var auth := ("[" + (ip + "]")) + (":" + p);
    var j := |ip| + 1;
    assert auth == ("[" + ip) + ("]" + (":" + p));
    assert ']' !in "[" + ip;
    Index.IndexOfAt("[" + ip, ']', "]" + (":" + p));
    assert Index.IndexOf(auth, ']') == j;
    assert auth[0] == '[';
    assert auth[j + 1..] == ":" + p;
    assert auth[j + 2..] == p;
    assert auth[1..j] == ip;
  }

  /** The URL announced for a host part is read back as that authority and
      the listing's path. */
  lemma UrlOf(host: string, p: string, secret: string, h: string, port: int)
    requires host != [] && '/' !in host && '/' !in p
    requires SplitHostPort(host + (":" + p)) == Some((h, port))
    ensures ParseUrl(Scheme + (host + (":" + (p + Index.Directory(secret)))))
         == Some((h, port, Index.Directory(secret)))
  {
    var d := Index.Directory(secret);
    var auth := host + (":" + p);
    var url := Scheme + (host + (":" + (p + d)));
    assert url[..|Scheme|] == Scheme;
    var rest := url[|Scheme|..];
    assert rest == auth + d;
    assert '/' !in auth;
    Index.IndexOfAt(auth, '/', d);
    assert rest[..|auth|] == auth && rest[|auth|..] == d;
    assert StartsWith(url, Scheme);
    var a := Index.IndexOf(rest, '/');
    assert a == |auth|;
    assert SplitHostPort(rest[..a]) == Some((h, port));
    assert ParseUrl(url) == Some((h, port, rest[a..]));
  }

  /** The address `http://<host>` announces a URL read back as the authority
      host:port and the listing's path. */
  lemma AnnouncedHost(host: string, port: int, secret: string, h: string)
    requires host != [] && '/' !in host
    requires SplitHostPort(host + (":" + IntString(port))) == Some((h, port))
    ensures ParseUrl(FormatAddress(Scheme + host, port, secret)) == Some((h, port, Index.Directory(secret)))
  {
    var p := IntString(port);
    var address := Scheme + host;
    var rest := ":" + (p + Index.Directory(secret));
    assert !EndsWith(address, "/") by {
      assert host[|host| - 1] != '/';
      assert address[|address| - 1..] == [host[|host| - 1]];
    }
    assert FormatAddress(address, port, secret) == Scheme + (host + rest) by {
      assert address + rest == Scheme + (host + rest);
    }
    assert '/' !in p by {
      IntStringPlain(port);
    }
    UrlOf(host, p, secret, h, port);
  }

  /** The announced URL names the host that STUN reported (bracketed when it
      is an IPv6 literal, so that its colons are not read as the port
      separator), the configured port and the listing's path. */
  lemma AnnouncedUrl(externalIp: Option<string>, port: int, secret: string)
    requires externalIp.Some? ==> '/' !in externalIp.value && '[' !in externalIp.value && ']' !in externalIp.value
    ensures ParseUrl(FormatAddress(UpdateAddress(externalIp), port, secret))
         == Some((HostFor(externalIp), port, Index.Directory(secret)))
  {
    var host := HostFor(externalIp);
    var p := IntString(port);
    assert IntValue(p) == Some(port) by {
      IntRoundTrip(port);
    }
    if externalIp.Some? && externalIp.value != [] && ':' in externalIp.value {
      var b := "[" + (host + "]");
      assert UpdateAddress(externalIp) == Scheme + b;
      BracketedAuthority(host, p, port);
      AnnouncedHost(b, port, secret, host);
    } else {
      assert UpdateAddress(externalIp) == Scheme + host;
      PlainAuthority(host, p, port);
      AnnouncedHost(host, port, secret, host);
    }
  }

  /** The announced URL extends the address and ends in the listing's path. */
  lemma FormatAddressFrame(address: string, port: int, secret: string)
    ensures var url := FormatAddress(address, port, secret);
      StartsWith(url, address) && EndsWith(url, Index.Directory(secret))
  {
    var url := FormatAddress(address, port, secret);
    var d := Index.Directory(secret);
    if EndsWith(address, "/") {
      var a := address[..|address| - 1];
      assert address == a + "/";
      assert url == a + d;
      assert url[|url| - |d|..] == d;
    } else {
      var x := ":" + IntString(port);
      assert url == (address + x) + d;
      assert url[|url| - |d|..] == d;
    }
    assert url[..|address|] == address;
  }

  /** The port shows in the URL exactly when the address has no trailing '/':
      two ports give the same URL only if the address ends in '/' or the
      ports are equal. */
  lemma PortShown(address: string, port: int, other: int, secret: string)
    ensures FormatAddress(address, port, secret) == FormatAddress(address, other, secret)
        <==> EndsWith(address, "/") || port == other
  {
    if !EndsWith(address, "/") && port != other {
      var d := Index.Directory(secret);
      var p, q := IntString(port), IntString(other);
      IntRoundTrip(port);
      IntRoundTrip(other);
      assert p != q;
      if FormatAddress(address, port, secret) == FormatAddress(address, other, secret) {
        SamePrefix(address, ":" + (p + d), ":" + (q + d));
        SamePrefix(":", p + d, q + d);
        SameSuffix(p, q, d);
        assert false;
      }
    }
  }
}
