/** The SOCKS proxy URL parser of src/client_shared.c, with the ownership of its blocks. */
module SocksUrl {
  import opened Strings
  import opened PercentDecoding
  import opened SocksGrammar

  // ------------------------------------------------------------------ the parser and its memory

  class MosqConfig {
    var socks5Username: array?<char>
    var socks5Password: array?<char>
    var socks5Host: array?<char>
    var socks5Port: int
  }

  /** The result of a parse: rejected, or stored in the configuration. */
  ghost predicate Concluded(cfg: MosqConfig, rejected: bool, proxy: Option<Proxy>)
    reads cfg, cfg.socks5Username, cfg.socks5Password, cfg.socks5Host
  {
    && (rejected <==> proxy.None?)
    && (!rejected ==>
          && HoldsOptional(cfg.socks5Username, proxy.value.username)
          && HoldsOptional(cfg.socks5Password, proxy.value.password)
          && HoldsOptional(cfg.socks5Host, Some(proxy.value.host))
          && cfg.socks5Port == proxy.value.port)
  }

  /** The blocks the configuration owns. */
  ghost function Owned(cfg: MosqConfig): multiset<array<char>>
    reads cfg
  {
    Block(cfg.socks5Username) + Block(cfg.socks5Password) + Block(cfg.socks5Host)
  }

  /** The heap block a pointer owns. */
  ghost function Block(p: array?<char>): multiset<array<char>> {
    if p == null then multiset{} else multiset{p}
  }

  /** Four pointers own all allocated blocks, each exactly once. */
  ghost predicate OwnedBy(blocks: set<array<char>>, a: array?<char>, b: array?<char>, c: array?<char>,
                          d: array?<char>)
  {
    multiset(blocks) == Block(a) + Block(b) + Block(c) + Block(d)
  }

  lemma OwnersDiffer(blocks: set<array<char>>, a: array?<char>, b: array?<char>, c: array?<char>, d: array?<char>)
    requires OwnedBy(blocks, a, b, c, d)
    ensures a != null ==> a in blocks && a != b && a != c && a != d
    ensures b != null ==> b in blocks && b != c && b != d
    ensures c != null ==> c in blocks && c != d
    ensures d != null ==> d in blocks
  {
    var all := Block(a) + Block(b) + Block(c) + Block(d);
    assert a != null ==> a in all && multiset(blocks)[a] <= 1;
    assert b != null ==> b in all && multiset(blocks)[b] <= 1;
    assert c != null ==> c in all && multiset(blocks)[c] <= 1;
    assert d != null ==> d in all;
  }

  lemma OneMoreBlock(blocks: set<array<char>>, p: array<char>)
    requires p !in blocks
    ensures multiset(blocks + {p}) == multiset(blocks) + multiset{p}
  {
  }

  /** malloc, memcpy and the terminator. */
  method CopyPiece(s: string, start: nat, end: nat) returns (p: array<char>)
    requires start <= end <= |s| && NUL !in s
    ensures fresh(p) && HoldsText(p, s[start..end])
  {
    var len := end - start;
    p := new char[len + 1];
    for k := 0 to len
      invariant forall j :: 0 <= j < k ==> p[j] == s[start + j]
    {
      p[k] := s[start + k];
    }
    p[len] := NUL;
    assert p[..len] == s[start..end];
  }

  lemma {:induction false} MalformedSticks(s: string, i: nat)
    requires i <= |s| && Scanned(s, i).Malformed?
    ensures Scanned(s, |s|).Malformed?
    decreases |s| - i
  {
    if i < |s| {
      MalformedSticks(s, i + 1);
    }
  }

  /**
   * The loop's variables hold what the scan says; authentication excludes a pending name,
   * and a host is only set behind it.
   */
  ghost predicate HoldsScan(scan: Scan, start: nat, haveAuth: bool, pending: array?<char>, username: array?<char>,
                            password: array?<char>, host: array?<char>)
    reads pending, username, password, host
  {
    && scan.Scan?
    && start == scan.start && haveAuth == scan.haveAuth
    && HoldsOptional(pending, scan.pending)
    && HoldsOptional(username, scan.username)
    && HoldsOptional(password, scan.password)
    && HoldsOptional(host, scan.host)
    && (haveAuth ==> pending == null)
    && (host != null ==> haveAuth)
    && (!haveAuth ==> username == null && password == null)
  }

  /** The loop's branch for a colon. */
  method Colon(str: string, i: nat, start0: nat, haveAuth: bool, pending0: array?<char>, username: array?<char>,
               password: array?<char>, host0: array?<char>, ghost blocks0: set<array<char>>)
    returns (ok: bool, start: nat, pending: array?<char>, host: array?<char>, ghost blocks: set<array<char>>)
    requires NUL !in str && i < |str| && str[i] == ':'
    requires OwnedBy(blocks0, pending0, username, password, host0)
    requires HoldsScan(Scanned(str, i), start0, haveAuth, pending0, username, password, host0)
    ensures fresh(blocks - blocks0) && OwnedBy(blocks, pending, username, password, host)
    ensures ok <==> Scanned(str, i + 1).Scan?
    ensures ok ==> HoldsScan(Scanned(str, i + 1), start, haveAuth, pending, username, password, host)
  {
    ok, start, pending, host, blocks := true, start0, pending0, host0, blocks0;
    if i == start {
      ok := false;
    } else if haveAuth {
      if host != null {
        ok := false;
      } else {
        host := CopyPiece(str, start, i);
        OneMoreBlock(blocks, host);
        blocks := blocks + {host};
        start := i + 1;
      }
    } else if pending == null {
      pending := CopyPiece(str, start, i);
      OneMoreBlock(blocks, pending);
      blocks := blocks + {pending};
      start := i + 1;
    }
  }

  /** The loop's branch for an at sign, behind which there is authentication. */
  method AtSign(str: string, i: nat, start0: nat, haveAuth: bool, pending0: array?<char>, username0: array?<char>,
                password0: array?<char>, host: array?<char>, ghost blocks0: set<array<char>>)
    returns (ok: bool, start: nat, pending: array?<char>, username: array?<char>, password: array?<char>,
             ghost blocks: set<array<char>>)
    requires NUL !in str && i < |str| && str[i] == '@'
    requires OwnedBy(blocks0, pending0, username0, password0, host)
    requires HoldsScan(Scanned(str, i), start0, haveAuth, pending0, username0, password0, host)
    ensures fresh(blocks - blocks0) && OwnedBy(blocks, pending, username, password, host)
    ensures ok <==> Scanned(str, i + 1).Scan?
    ensures ok ==> HoldsScan(Scanned(str, i + 1), start, true, pending, username, password, host)
  {
    ok, start, pending, username, password, blocks := true, start0, pending0, username0, password0, blocks0;
    if i == start {
      ok := false;
    } else if pending != null {
      username := pending;
      pending := null;
      password := CopyPiece(str, start, i);
      OneMoreBlock(blocks, password);
      blocks := blocks + {password};
      start := i + 1;
    } else if username != null {
      ok := false;
    } else {
      username := CopyPiece(str, start, i);
      OneMoreBlock(blocks, username);
      blocks := blocks + {username};
      start := i + 1;
    }
  }

  /** One turn of the loop. */
  method ScanCharacter(str: string, i: nat, start0: nat, haveAuth0: bool, pending0: array?<char>,
                       username0: array?<char>, password0: array?<char>, host0: array?<char>,
                       ghost blocks0: set<array<char>>)
    returns (ok: bool, start: nat, haveAuth: bool, pending: array?<char>, username: array?<char>,
             password: array?<char>, host: array?<char>, ghost blocks: set<array<char>>)
    requires NUL !in str && i < |str|
    requires OwnedBy(blocks0, pending0, username0, password0, host0)
    requires HoldsScan(Scanned(str, i), start0, haveAuth0, pending0, username0, password0, host0)
    ensures fresh(blocks - blocks0) && OwnedBy(blocks, pending, username, password, host)
    ensures ok <==> Scanned(str, i + 1).Scan?
    ensures ok ==> HoldsScan(Scanned(str, i + 1), start, haveAuth, pending, username, password, host)
  {
    ok, start, haveAuth, pending, username, password, host, blocks :=
      true, start0, haveAuth0, pending0, username0, password0, host0, blocks0;
    if str[i] == ':' {
      ok, start, pending, host, blocks := Colon(str, i, start, haveAuth, pending, username, password, host, blocks);
    } else if str[i] == '@' {
      ok, start, pending, username, password, blocks :=
        AtSign(str, i, start, haveAuth, pending, username, password, host, blocks);
      haveAuth := true;
    }
  }

  /** The scanning loop. */
  method ScanText(str: string)
    returns (ok: bool, start: nat, pending: array?<char>, username: array?<char>, password: array?<char>,
             host: array?<char>, ghost blocks: set<array<char>>)
    requires NUL !in str
    ensures fresh(blocks) && OwnedBy(blocks, pending, username, password, host)
    ensures ok <==> Scanned(str, |str|).Scan?
    ensures ok ==>
              HoldsScan(Scanned(str, |str|), start, Scanned(str, |str|).haveAuth, pending, username, password, host)
  {
    ok, start, pending, username, password, host, blocks := true, 0, null, null, null, null, {};
    var haveAuth := false;
    var i := 0;
    while i < |str| && ok
      invariant i <= |str|
      invariant fresh(blocks) && OwnedBy(blocks, pending, username, password, host)
      invariant ok <==> Scanned(str, i).Scan?
      invariant ok ==> HoldsScan(Scanned(str, i), start, haveAuth, pending, username, password, host)
    {
      ok, start, haveAuth, pending, username, password, host, blocks :=
        ScanCharacter(str, i, start, haveAuth, pending, username, password, host, blocks);
      i := i + 1;
    }
    if !ok {
      MalformedSticks(str, i);
    }
  }

  /** The text behind the last separator becomes the port or the host. */
  method TakeRemainder(str: string, ghost scan: Scan, start: nat, pending0: array?<char>, username: array?<char>,
                       password: array?<char>, host0: array?<char>, ghost blocks0: set<array<char>>)
    returns (pending: array?<char>, host: array?<char>, port: array?<char>, ghost blocks: set<array<char>>)
    requires NUL !in str && OwnedBy(blocks0, pending0, username, password, host0) && start <= |str|
    requires HoldsScan(scan, start, scan.Scan? && scan.haveAuth, pending0, username, password, host0)
    ensures fresh(blocks - blocks0)
    ensures multiset(blocks) == Block(pending) + Block(username) + Block(password) + Block(host) + Block(port)
    ensures host == null <==> Remainder(scan, str[start..]).None?
    ensures host != null ==>
              && var parts := Remainder(scan, str[start..]).value;
              && pending == null && HoldsText(host, parts.host) && HoldsOptional(port, parts.port)
              && parts.username == scan.username && parts.password == scan.password
  {
    pending, host, port, blocks := pending0, host0, null, blocks0;
    assert str[start..|str|] == str[start..];
    if |str| > start {
      var piece := CopyPiece(str, start, |str|);
      OneMoreBlock(blocks, piece);
      blocks := blocks + {piece};
      if host != null {
        port := piece;
      } else if pending != null {
        host := pending;
        pending := null;
        port := piece;
      } else {
        host := piece;
      }
    }
  }

  /** The decimal number in a C string. */
  method ReadInt(a: array<char>, ghost text: string) returns (n: int)
    requires HoldsText(a, text)
    ensures n == Atoi(text)
  {
    var len := StrLen(a, text);
    n := Atoi(a[..len]);
  }

  method DecodeCredentials(username: array?<char>, password: array?<char>,
                           ghost user: Option<string>, ghost pass: Option<string>) returns (rejected: bool)
    requires HoldsOptional(username, user) && HoldsOptional(password, pass)
    requires username != null ==> username != password
    modifies username, password
    ensures rejected <==> !(Decodable(user) && Decodable(pass))
    ensures !rejected ==> HoldsOptional(username, Decoded(user)) && HoldsOptional(password, Decoded(pass))
  {
    rejected := UrlDecode(username, user);
    if rejected {
      return;
    }
    rejected := UrlDecode(password, pass);
  }

  method ReadPort(port: array?<char>, ghost text: Option<string>) returns (rejected: bool, portInt: int)
    requires HoldsOptional(port, text)
    ensures portInt == PortOf(text) && (rejected <==> !(1 <= portInt <= 65535))
  {
    portInt, rejected := DEFAULT_PORT, false;
    if port != null {
      portInt := ReadInt(port, text.value);
      rejected := portInt < 1 || portInt > 65535;
    }
  }

  /** free, behind a test for null. */
  method Free(p: array?<char>, ghost freed0: multiset<array<char>>) returns (ghost freed: multiset<array<char>>)
    ensures freed == freed0 + Block(p)
  {
    freed := freed0;
    if p != null {
      freed := freed + multiset{p};
    }
  }

  /** The cleanup label: every pointer that is not null is freed. */
  method Cleanup(pending: array?<char>, username: array?<char>, password: array?<char>, host: array?<char>,
                 port: array?<char>)
    returns (ghost freed: multiset<array<char>>)
    ensures freed == Block(pending) + Block(username) + Block(password) + Block(host) + Block(port)
  {
    freed := Free(pending, multiset{});
    assert freed == Block(pending);
    freed := Free(username, freed);
    freed := Free(password, freed);
    freed := Free(host, freed);
    freed := Free(port, freed);
  }

  /** Decode the credentials in place, check the port and store the proxy; then only the port is freed. */
  method StoreProxy(cfg: MosqConfig, username: array?<char>, password: array?<char>, host: array<char>,
                    port: array?<char>, ghost parts: Parts)
    returns (rejected: bool, ghost freed: multiset<array<char>>)
    requires HoldsOptional(username, parts.username) && HoldsOptional(password, parts.password)
    requires HoldsText(host, parts.host) && HoldsOptional(port, parts.port)
    requires username != null ==> username != password && username != host && username != port
    requires password != null ==> password != host && password != port
    modifies cfg, username, password
    ensures Concluded(cfg, rejected, ProxyOf(Some(parts)))
    ensures rejected ==> unchanged(cfg) && freed == multiset{}
    ensures !rejected ==>
              && freed == Block(port)
              && cfg.socks5Username == username && cfg.socks5Password == password && cfg.socks5Host == host
  {
    freed := multiset{};
    rejected := DecodeCredentials(username, password, parts.username, parts.password);
    if rejected {
      return;
    }
    var portInt;
    rejected, portInt := ReadPort(port, parts.port);
    if rejected {
      return;
    }
    freed := Free(port, freed);
    assert freed == Block(port);
    cfg.socks5Username := username;
    cfg.socks5Password := password;
    cfg.socks5Host := host;
    cfg.socks5Port := portInt;
  }

  /** Everything behind the scanning loop. */
  method FinishText(cfg: MosqConfig, str: string, ghost scan: Scan, start: nat, pending0: array?<char>,
                    username: array?<char>, password: array?<char>, host0: array?<char>,
                    ghost blocks0: set<array<char>>)
    returns (rejected: bool, ghost blocks: set<array<char>>, ghost freed: multiset<array<char>>)
    requires NUL !in str && start <= |str| && OwnedBy(blocks0, pending0, username, password, host0)
    requires HoldsScan(scan, start, scan.Scan? && scan.haveAuth, pending0, username, password, host0)
    modifies cfg, username, password
    ensures fresh(blocks - blocks0)
    ensures Concluded(cfg, rejected, ProxyOf(Remainder(scan, str[start..])))
    ensures rejected ==> unchanged(cfg) && multiset(blocks) == freed
    ensures !rejected ==> multiset(blocks) == freed + Owned(cfg)
  {
    var pending, host, port;
    pending, host, port, blocks := TakeRemainder(str, scan, start, pending0, username, password, host0, blocks0);
    if host == null {
      freed := Cleanup(pending, username, password, host, port);
      return true, blocks, freed;
    }
    OwnersDiffer(blocks, username, password, host, port);
    rejected, freed := StoreProxy(cfg, username, password, host, port, Remainder(scan, str[start..]).value);
    if rejected {
      freed := Cleanup(pending, username, password, host, port);
    } else {
      StoredOrFreed(username, password, host, port);
    }
  }

  /** Behind a success the port is freed and the rest is owned by the configuration. */
  lemma StoredOrFreed(username: array?<char>, password: array?<char>, host: array<char>, port: array?<char>)
    ensures Block(null) + Block(username) + Block(password) + Block(host) + Block(port) ==
            Block(port) + (Block(username) + Block(password) + Block(host))
  {
  }

  /** The text behind the scheme. */
  method ParseText(cfg: MosqConfig, str: string)
    returns (rejected: bool, ghost blocks: set<array<char>>, ghost freed: multiset<array<char>>)
    requires NUL !in str
    modifies cfg
    ensures fresh(blocks)
    ensures Concluded(cfg, rejected, ProxyOf(Pieces(str)))
    ensures rejected ==> unchanged(cfg) && multiset(blocks) == freed
    ensures !rejected ==> multiset(blocks) == freed + Owned(cfg)
  {
    var ok, start, pending, username, password, host;
    ok, start, pending, username, password, host, blocks := ScanText(str);
    OwnersDiffer(blocks, pending, username, password, host);
    if ok {
      rejected, blocks, freed :=
        FinishText(cfg, str, Scanned(str, |str|), start, pending, username, password, host, blocks);
    } else {
      rejected := true;
      freed := Cleanup(pending, username, password, host, null);
      assert freed == Block(pending) + Block(username) + Block(password) + Block(host);
    }
  }

  /**
   * mosquitto__parse_socks_url. An accepted URL is stored in `cfg`; every block allocated on the way
   * is then owned by `cfg` or freed once, and on rejection every one is freed once.
   */
  method ParseSocksUrl(cfg: MosqConfig, url: string)
    returns (rejected: bool, ghost blocks: set<array<char>>, ghost freed: multiset<array<char>>)
    requires NUL !in url
    modifies cfg
    ensures fresh(blocks)
    ensures Concluded(cfg, rejected, Parse(url))
    ensures rejected ==> unchanged(cfg) && multiset(blocks) == freed
    ensures !rejected ==> multiset(blocks) == freed + Owned(cfg)
  {
    if !(SCHEME <= url) {
      return true, {}, multiset{};
    }
    SplitScansText(url[|SCHEME|..]);
    rejected, blocks, freed := ParseText(cfg, url[|SCHEME|..]);
  }
}
