/** `getClientIP` (main.go) and the part of Go's `net` package it relies on:
    `net.SplitHostPort`, which splits `host:port` or `[host]:port` at the
    last colon, and its inverse `net.JoinHostPort`. The separators ':', '['
    and ']' are ASCII, so working on characters instead of UTF-8 bytes finds
    the same positions. */
module HostPort {
  import opened Wrappers
  import opened Text

  /** The reasons `net.SplitHostPort` rejects an address. */
  datatype AddrError =
    | MissingPort          // no colon, or nothing usable after the host
    | TooManyColons        // a colon in an unbracketed host, or after ']'
    | MissingRBracket      // '[' opens the address but no ']' follows
    | UnexpectedLBracket   // a '[' anywhere but at the very start
    | UnexpectedRBracket   // a ']' anywhere but closing the bracketed host

  /** What a successful split can return: no brackets in the host, and a
      port with neither brackets nor colons. */
  predicate ValidParts(host: string, port: string) {
    && '[' !in host && ']' !in host
    && ':' !in port && '[' !in port && ']' !in port
  }

  /** The bracketed form `[host]:port`. */
  function Bracketed(host: string, port: string): string {
    "[" + host + "]:" + port
  }

  /** The plain form `host:port`. */
  function Plain(host: string, port: string): string {
    host + ":" + port
  }

  /** The host part of `net.SplitHostPort` given the position `i` of the last
      colon, together with the positions `j` and `k` from which no '[',
      respectively no ']', may appear any more. */
  function SplitHost(addr: string, i: nat): (r: Result<(string, nat, nat), AddrError>)
    requires i < |addr| && addr[i] == ':' && ':' !in addr[i + 1..]
    ensures r.Success? ==> r.value.1 <= i + 1 && r.value.2 <= i
    ensures r.Success? && addr[0] != '[' ==>
              r.value == (addr[..i], 0, 0) && ':' !in addr[..i]
    ensures r.Success? && addr[0] == '[' ==>
              && 2 <= i && addr[i - 1] == ']' && ']' !in addr[..i - 1]
              && r.value == (addr[1..i - 1], 1, i)
  {
    if addr[0] == '[' then
      match IndexOf(addr, ']')
      case None => Failure(MissingRBracket)
      case Some(end) =>
        if end + 1 == |addr| then Failure(MissingPort)
        else if end + 1 == i then Success((addr[1..end], 1, end + 1))
        else if addr[end + 1] == ':' then Failure(TooManyColons)
        else Failure(MissingPort)
    else
      var host := addr[..i];
      if ':' in host then Failure(TooManyColons) else Success((host, 0, 0))
  }

  /** Go's `net.SplitHostPort`: the port is what follows the last colon; the
      host is what precedes it, without the brackets if the address starts
      with '['. */
  function SplitHostPort(addr: string): (r: Result<(string, string), AddrError>)
    ensures ':' !in addr ==> r == Failure(MissingPort)
    ensures r.Success? ==> ValidParts(r.value.0, r.value.1)
    ensures r.Success? ==>
              || addr == Bracketed(r.value.0, r.value.1)
              || (':' !in r.value.0 && addr == Plain(r.value.0, r.value.1))
  {
    match LastIndexOf(addr, ':')
    case None => Failure(MissingPort)
    case Some(i) =>
      match SplitHost(addr, i)
      case Failure(e) => Failure(e)
      case Success((host, j, k)) =>
        if '[' in addr[j..] then Failure(UnexpectedLBracket)
        else if ']' in addr[k..] then Failure(UnexpectedRBracket)
        else
          var port := addr[i + 1..];
          SplitHostPortParts(addr, i, j, k, host, port);
          Success((host, port))
  }

  /** The success case of `SplitHostPort`, once the bracket checks passed. */
  lemma SplitHostPortParts(addr: string, i: nat, j: nat, k: nat, host: string, port: string)
    requires i < |addr| && addr[i] == ':' && ':' !in addr[i + 1..]
    requires SplitHost(addr, i) == Success((host, j, k))
    requires '[' !in addr[j..] && ']' !in addr[k..]
    requires port == addr[i + 1..]
    ensures ValidParts(host, port)
    ensures addr == Bracketed(host, port) || (':' !in host && addr == Plain(host, port))
  {
    assert port == addr[i + 1..][..];
    if addr[0] == '[' {
      assert addr == ['['] + host + [']', ':'] + port;
      assert host == addr[j..][..|host|];
      assert port == addr[j..][|host| + 2..];
      assert port == addr[k..][1..];
      assert host == addr[..i - 1][1..];
    } else {
      assert addr == host + [':'] + port;
      assert addr[j..] == addr && addr[k..] == addr;
    }
  }

  /** Go's `net.JoinHostPort`: brackets around a host that holds a colon. */
  function JoinHostPort(host: string, port: string): string {
    if ':' in host then Bracketed(host, port) else Plain(host, port)
  }

  /** Where the separators of `[host]:port` are. */
  lemma BracketedIndices(host: string, port: string)
    requires ValidParts(host, port)
    ensures LastIndexOf(Bracketed(host, port), ':') == Some(|host| + 2)
    ensures IndexOf(Bracketed(host, port), ']') == Some(|host| + 1)
  {
    var addr := Bracketed(host, port);
    assert LastIndexOf(addr, ':') == Some(|host| + 2) by {
      assert addr == (['['] + host + [']']) + [':'] + port;
      LastIndexOfBefore(['['] + host + [']'], port, ':');
    }
    assert addr == (['['] + host) + [']'] + ([':'] + port);
    IndexOfAfter(['['] + host, [':'] + port, ']');
  }

  /** The pieces of `[host]:port` the bracket checks look at. */
  lemma BracketedSlices(host: string, port: string)
    requires ValidParts(host, port)
    ensures var addr, i := Bracketed(host, port), |host| + 2;
            && |addr| == i + 1 + |port|
            && addr[1..i - 1] == host
            && '[' !in addr[1..]
            && ']' !in addr[i..]
            && addr[i + 1..] == port
  {
    var addr, i := Bracketed(host, port), |host| + 2;
    assert addr[1..i - 1] == host;
    assert '[' !in addr[1..] by {
      assert addr[1..] == host + [']', ':'] + port;
    }
    assert ']' !in addr[i..] by {
      assert addr[i..] == [':'] + port;
    }
    assert addr[i + 1..] == port;
  }

  /** Splitting recovers any bracketed host and port it could have produced. */
  lemma SplitBracketed(host: string, port: string)
    requires ValidParts(host, port)
    ensures SplitHostPort(Bracketed(host, port)) == Success((host, port))
  {
    var addr, i := Bracketed(host, port), |host| + 2;
    BracketedIndices(host, port);
    BracketedSlices(host, port);
    assert addr[0] == '[';
    assert SplitHost(addr, i) == Success((host, 1, i));
  }

  /** Splitting recovers any unbracketed colon-free host and port. */
  lemma SplitPlain(host: string, port: string)
    requires ValidParts(host, port) && ':' !in host
    ensures SplitHostPort(Plain(host, port)) == Success((host, port))
  {
    var addr := Plain(host, port);
    var i := |host|;
    assert addr == host + [':'] + port;
    LastIndexOfBefore(host, port, ':');
    assert addr[i + 1..] == port;
    assert addr[..i] == host;
    assert addr[0] != '[' by {
      if host != [] { assert addr[0] == host[0]; }
    }
  }

  /** The successful splits are exactly the bracketed forms and the
      unbracketed forms with a colon-free host, for parts that hold no stray
      brackets and a port without colons. */
  lemma SplitHostPortIff(addr: string, host: string, port: string)
    ensures SplitHostPort(addr) == Success((host, port)) <==>
            && ValidParts(host, port)
            && (addr == Bracketed(host, port) || (':' !in host && addr == Plain(host, port)))
  {
    if ValidParts(host, port) {
      if addr == Bracketed(host, port) {
        SplitBracketed(host, port);
      } else if ':' !in host && addr == Plain(host, port) {
        SplitPlain(host, port);
      }
    }
  }

  /** `SplitHostPort` undoes `JoinHostPort`. */
  lemma SplitJoinHostPort(host: string, port: string)
    requires ValidParts(host, port)
    ensures SplitHostPort(JoinHostPort(host, port)) == Success((host, port))
  {
    if ':' in host {
      SplitBracketed(host, port);
    } else {
      SplitPlain(host, port);
    }
  }

  /** A bare IPv6 address such as `::1`, or any unbracketed text with two
      colons, is rejected for having too many colons. */
  lemma SplitHostPortTwoColons(addr: string, a: nat, b: nat)
    requires a < b < |addr| && addr[a] == ':' && addr[b] == ':'
    requires addr[0] != '['
    ensures SplitHostPort(addr) == Failure(TooManyColons)
  {
    var i := LastIndexOf(addr, ':').value;
    assert addr[..i][a] == ':';
  }

  /** `getClientIP`: the host part of the request's remote address, or the
      whole address when it does not split. */
  function ClientIP(remoteAddr: string): (ip: string)
    ensures |ip| <= |remoteAddr|
    ensures ip == remoteAddr <==> SplitHostPort(remoteAddr).Failure?
  {
    match SplitHostPort(remoteAddr)
    case Failure(_) => remoteAddr
    case Success((host, _)) => host
  }

  /** The client of an address `net.JoinHostPort` built is its host. */
  lemma ClientIPOfJoin(host: string, port: string)
    requires ValidParts(host, port)
    ensures ClientIP(JoinHostPort(host, port)) == host
  {
    SplitJoinHostPort(host, port);
  }

  /** The client of an address that splits is its host, with the brackets
      of `[host]:port` removed, whether or not `net.JoinHostPort` could have
      built it (`[1.2.3.4]:80` gives `1.2.3.4`). */
  lemma ClientIPOfSplit(addr: string, host: string, port: string)
    requires ValidParts(host, port)
    requires addr == Bracketed(host, port) || (':' !in host && addr == Plain(host, port))
    ensures ClientIP(addr) == host
  {
    SplitHostPortIff(addr, host, port);
  }

  /** An address without a colon is returned as it is. */
  lemma ClientIPNoPort(remoteAddr: string)
    requires ':' !in remoteAddr
    ensures ClientIP(remoteAddr) == remoteAddr
  {
  }

}
