/** The SOCKS proxy URLs of src/client_shared.c: their grammar, and the scanning loop as a machine that computes it. */
module SocksGrammar {
  import opened Strings
  import opened PercentDecoding

  const SCHEME := "socks5h://"
  const DEFAULT_PORT := 1080

  /** What the scanning loop knows after a prefix of the text behind the scheme. */
  datatype Scan =
    | Malformed
    | Scan(start: nat, haveAuth: bool,
           pending: Option<string>,   // username_or_host
           username: Option<string>, password: Option<string>, host: Option<string>)

  /** The pieces of the text, before decoding. */
  datatype Parts = Parts(username: Option<string>, password: Option<string>, host: string, port: Option<string>)

  datatype Proxy = Proxy(username: Option<string>, password: Option<string>, host: string, port: int)

  // ------------------------------------------------------------------ the grammar

  /** Text without an at sign: a name, a colon, anything that does not start with another colon. */
  function BeforeAt(p: string): Scan {
    var c := FirstIndex(p, ':');
    if c == |p| then Scan(0, false, None, None, None, None)
    else if c == 0 || (c + 1 < |p| && p[c + 1] == ':') then Malformed
    else Scan(c + 1, false, Some(p[..c]), None, None, None)
  }

  /** Text in front of an at sign: a user name, or a user name, a colon and a password, none of them empty. */
  function Credentials(a: string): Scan {
    var scan := BeforeAt(a);
    if scan.Malformed? || scan.start >= |a| then Malformed
    else if scan.pending.Some? then Scan(|a| + 1, true, None, scan.pending, Some(a[scan.start..]), None)
    else Scan(|a| + 1, true, None, Some(a), None, None)
  }

  /** Text behind the at sign: no other at sign, a host and at most one colon behind it. */
  function BehindAt(auth: Scan, rest: string): Scan {
    var c := FirstIndex(rest, ':');
    if auth.Malformed? || '@' in rest then Malformed
    else if c == |rest| then auth
    else if c == 0 || ':' in rest[c + 1..] then Malformed
    else auth.(start := auth.start + c + 1, host := Some(rest[..c]))
  }

  /** The scan of a prefix of the text. */
  function At(p: string): (scan: Scan)
    ensures scan.Scan? ==> scan.start <= |p|
  {
    var at := FirstIndex(p, '@');
    if at == |p| then BeforeAt(p) else BehindAt(Credentials(p[..at]), p[at + 1..])
  }

  /** What is left behind the last separator is the port, the host of a host:port form, or the host. */
  function Remainder(scan: Scan, rest: string): Option<Parts> {
    if scan.Malformed? then None
    else if rest == "" then
      if scan.host.None? then None else Some(Parts(scan.username, scan.password, scan.host.value, None))
    else if scan.host.Some? then Some(Parts(scan.username, scan.password, scan.host.value, Some(rest)))
    else if scan.pending.Some? then Some(Parts(scan.username, scan.password, scan.pending.value, Some(rest)))
    else Some(Parts(scan.username, scan.password, rest, None))
  }

  function Split(s: string): Option<Parts> {
    var scan := At(s);
    Remainder(scan, if scan.Malformed? then "" else s[scan.start..])
  }

  predicate Decodable(t: Option<string>) {
    t.None? || Decode(t.value).Some?
  }

  function Decoded(t: Option<string>): Option<string> {
    if t.None? then None else Decode(t.value)
  }

  function PortOf(t: Option<string>): int {
    if t.None? then DEFAULT_PORT else Atoi(t.value)
  }

  /** The proxy that the pieces stand for, or None when they do not decode or the port is out of range. */
  function ProxyOf(parts: Option<Parts>): Option<Proxy> {
    match parts
    case None => None
    case Some(p) =>
      if Decodable(p.username) && Decodable(p.password) && 1 <= PortOf(p.port) <= 65535 then
        Some(Proxy(Decoded(p.username), Decoded(p.password), p.host, PortOf(p.port)))
      else None
  }

  /** The whole parse: the meaning of a URL, or None when it is rejected. */
  function Parse(url: string): Option<Proxy> {
    if SCHEME <= url then ProxyOf(Split(url[|SCHEME|..])) else None
  }

  // ------------------------------------------------------------------ one character at a time

  /** What one turn of the scanning loop does with the character at `i`. */
  function Step(scan: Scan, s: string, i: nat): Scan
    requires i < |s| && (scan.Scan? ==> scan.start <= i)
  {
    if scan.Malformed? then Malformed
    else if s[i] == ':' then
      if scan.start == i then Malformed
      else if scan.haveAuth then
        if scan.host.Some? then Malformed
        else scan.(host := Some(s[scan.start..i]), start := i + 1)
      else if scan.pending.None? then scan.(pending := Some(s[scan.start..i]), start := i + 1)
      else scan
    else if s[i] == '@' then
      if scan.start == i then Malformed
      else if scan.pending.Some? then
        scan.(haveAuth := true, username := scan.pending, pending := None,
              password := Some(s[scan.start..i]), start := i + 1)
      else if scan.username.Some? then Malformed
      else scan.(haveAuth := true, username := Some(s[scan.start..i]), start := i + 1)
    else scan
  }

  /** The first `i` turns of the loop. */
  function Scanned(s: string, i: nat): (scan: Scan)
    requires i <= |s|
    ensures scan.Scan? ==> scan.start <= i
  {
    if i == 0 then Scan(0, false, None, None, None, None) else Step(Scanned(s, i - 1), s, i - 1)
  }

  /** What the loop keeps: a pending name and authentication exclude each other, a host needs authentication. */
  lemma ScanShape(p: string)
    ensures var scan := At(p);
            scan.Scan? ==>
              && (scan.haveAuth ==> scan.pending.None? && scan.username.Some?)
              && (!scan.haveAuth ==> scan.username.None? && scan.password.None? && scan.host.None?)
              && (scan.host.Some? ==> scan.haveAuth && scan.host.value != "")
              && (scan.pending.Some? ==> scan.pending.value != "")
  {
  }

  /** The loop computes the grammar: after `i` turns it knows the scan of the first `i` characters. */
  lemma {:induction false} LoopScansGrammar(s: string, i: nat)
    requires i <= |s|
    ensures Scanned(s, i) == At(s[..i])
  {
    if i == 0 {
      assert FirstIndex("", ':') == FirstIndex("", '@') == 0;
    } else {
      LoopScansGrammar(s, i - 1);
      ScanStep(s, i - 1);
    }
  }

  /** The pieces as the loop and the remainder rule produce them. */
  function Pieces(s: string): Option<Parts> {
    var scan := Scanned(s, |s|);
    Remainder(scan, if scan.Malformed? then "" else s[scan.start..])
  }

  lemma SplitScansText(s: string)
    ensures Split(s) == Pieces(s)
  {
    LoopScansGrammar(s, |s|);
    assert s[..|s|] == s;
  }

  /** One more character takes the scan of a prefix to the scan of the longer prefix. */
  lemma ScanStep(s: string, i: nat)
    requires i < |s|
    ensures At(s[..i + 1]) == Step(At(s[..i]), s, i)
  {
    var p, ch := s[..i], s[i];
    assert s[..i + 1] == p + [ch];
    FirstIndexAppend(p, ch, '@');
    if FirstIndex(p, '@') == i {
      assert p[..i] == p;
      assert At(p) == BeforeAt(p);
      if ch == '@' {
        AtSignStep(s, i);
      } else {
        BeforeAtStep(s, i);
      }
    } else {
      StepBehindAt(s, i, FirstIndex(p, '@'));
    }
  }

  lemma StepBehindAt(s: string, i: nat, at: nat)
    requires at < i < |s| && FirstIndex(s[..i], '@') == at == FirstIndex(s[..i] + [s[i]], '@')
    ensures At(s[..i] + [s[i]]) == Step(At(s[..i]), s, i)
  {
    var p, longer := s[..i], s[..i] + [s[i]];
    var auth, rest := Credentials(p[..at]), p[at + 1..];
    AtIs(p, at);
    AtIs(longer, at);
    CutLonger(s, i, at);
    CredentialsShape(p[..at]);
    BehindAtStep(auth, s, i, rest);
  }

  lemma CutLonger(s: string, i: nat, at: nat)
    requires at < i < |s|
    ensures (s[..i] + [s[i]])[..at] == s[..i][..at]
    ensures (s[..i] + [s[i]])[at + 1..] == s[..i][at + 1..] + [s[i]] && s[..i][at + 1..] == s[at + 1..i]
  {
  }

  lemma {:induction false} AtIs(p: string, at: nat)
    requires FirstIndex(p, '@') == at < |p|
    ensures At(p) == BehindAt(Credentials(p[..at]), p[at + 1..])
  {
  }

  lemma CredentialsShape(a: string)
    ensures var auth := Credentials(a);
            auth.Scan? ==>
              auth.start == |a| + 1 && auth.haveAuth && auth.pending.None? && auth.username.Some? && auth.host.None?
  {
  }

  lemma AtSignStep(s: string, i: nat)
    requires i < |s| && s[i] == '@' && '@' !in s[..i] && FirstIndex(s[..i] + ['@'], '@') == i
    requires BeforeAt(s[..i]).Scan? ==> BeforeAt(s[..i]).start <= i
    ensures At(s[..i] + ['@']) == Step(BeforeAt(s[..i]), s, i)
  {
    var p := s[..i];
    assert (p + ['@'])[..i] == p && (p + ['@'])[i + 1..] == "";
    assert FirstIndex("", ':') == 0;
    assert BeforeAt(p).Scan? ==> p[BeforeAt(p).start..] == s[BeforeAt(p).start..i];
    assert p[0..] == p;
  }

  lemma BeforeAtStep(s: string, i: nat)
    requires i < |s| && '@' !in s[..i] && s[i] != '@'
    requires BeforeAt(s[..i]).Scan? ==> BeforeAt(s[..i]).start <= i
    ensures BeforeAt(s[..i] + [s[i]]) == Step(BeforeAt(s[..i]), s, i)
  {
    var p, ch := s[..i], s[i];
    FirstIndexAppend(p, ch, ':');
    var c := FirstIndex(p, ':');
    if c == |p| {
      assert (p + [ch])[..c] == s[0..i];
    } else {
      assert (p + [ch])[..c] == p[..c];
    }
  }

  lemma BehindAtStep(auth: Scan, s: string, i: nat, rest: string)
    requires i < |s|
    requires auth.Scan? ==> auth.start <= i && rest == s[auth.start..i]
    requires auth.Scan? ==> auth.haveAuth && auth.pending.None? && auth.username.Some? && auth.host.None?
    requires BehindAt(auth, rest).Scan? ==> BehindAt(auth, rest).start <= i
    ensures BehindAt(auth, rest + [s[i]]) == Step(BehindAt(auth, rest), s, i)
  {
    if auth.Scan? {
      FirstIndexAppend(rest, s[i], ':');
      if FirstIndex(rest, ':') < |rest| {
        BehindHostStep(auth, s, i, rest);
      } else {
        InHostStep(auth, s, i, rest);
      }
    }
  }

  /** The character is behind the first colon of the rest. */
  lemma {:induction false} BehindHostStep(auth: Scan, s: string, i: nat, rest: string)
    requires i < |s| && auth.Scan? && auth.start <= i && rest == s[auth.start..i]
    requires auth.haveAuth && auth.pending.None? && auth.username.Some? && auth.host.None?
    requires FirstIndex(rest, ':') == FirstIndex(rest + [s[i]], ':') < |rest|
    requires BehindAt(auth, rest).Scan? ==> BehindAt(auth, rest).start <= i
    ensures BehindAt(auth, rest + [s[i]]) == Step(BehindAt(auth, rest), s, i)
  {
    var ch, c := s[i], FirstIndex(rest, ':');
    assert (rest + [ch])[..c] == rest[..c];
    assert (rest + [ch])[c + 1..] == rest[c + 1..] + [ch];
  }

  /** There is no colon in the rest yet. */
  lemma {:induction false} InHostStep(auth: Scan, s: string, i: nat, rest: string)
    requires i < |s| && auth.Scan? && auth.start <= i && rest == s[auth.start..i]
    requires auth.haveAuth && auth.pending.None? && auth.username.Some? && auth.host.None?
    requires FirstIndex(rest, ':') == |rest|
    requires FirstIndex(rest + [s[i]], ':') == if s[i] == ':' then |rest| else |rest| + 1
    ensures BehindAt(auth, rest + [s[i]]) == Step(BehindAt(auth, rest), s, i)
  {
    var ch := s[i];
    assert (rest + [ch])[..|rest|] == rest;
    assert ch == ':' ==> (rest + [ch])[|rest| + 1..] == "";
  }

  // ------------------------------------------------------------------ what an accepted URL means

  predicate Plain(name: string) { name != "" && ':' !in name && '@' !in name }

  /** The pieces a URL can have. Without credentials the port may hold more colons, and a password always may. */
  predicate WellFormed(p: Parts) {
    && Plain(p.host)
    && (p.username.None? ==> p.password.None?)
    && (p.username.Some? ==> Plain(p.username.value))
    && (p.password.Some? ==> p.password.value != "" && p.password.value[0] != ':' && '@' !in p.password.value)
    && (p.port.Some? ==>
          && p.port.value != "" && '@' !in p.port.value
          && (if p.username.None? then p.port.value[0] != ':' else ':' !in p.port.value))
  }

  function WrittenCredentials(username: string, password: Option<string>): string {
    if password.None? then username else username + ":" + password.value
  }

  function WrittenHost(host: string, port: Option<string>, trailing: bool): string {
    if port.Some? then host + ":" + port.value else if trailing then host + ":" else host
  }

  /** The six documented forms, and one with a colon behind the host and nothing behind that. */
  function Written(p: Parts, trailing: bool): string {
    if p.username.None? then WrittenHost(p.host, p.port, trailing)
    else WrittenCredentials(p.username.value, p.password) + "@" + WrittenHost(p.host, p.port, trailing)
  }

  /** Where that extra colon is allowed. */
  predicate MayTrail(p: Parts) { p.username.Some? && p.port.None? }

  /** The grammar is unambiguous: a text has these pieces if and only if it is written from them in one of the forms. */
  lemma SplitExactly(s: string, p: Parts)
    ensures Split(s) == Some(p) <==>
            WellFormed(p) && (s == Written(p, false) || (MayTrail(p) && s == Written(p, true)))
  {
    if Split(s) == Some(p) {
      SplitIsWritten(s);
    }
    if WellFormed(p) {
      WrittenSplits(p, false);
      if MayTrail(p) {
        WrittenSplits(p, true);
      }
    }
  }

  /** A text is what is in front of the first `c`, that character and what is behind it. */
  lemma CutAtFirst(s: string, c: char)
    ensures var i := FirstIndex(s, c);
            if i == |s| then c !in s && s[..i] == s else c !in s[..i] && s == s[..i] + [c] + s[i + 1..]
  {
    var i := FirstIndex(s, c);
    assert i == |s| ==> s[..i] == s;
  }

  lemma SplitIsWritten(s: string)
    requires Split(s).Some?
    ensures var p := Split(s).value;
            WellFormed(p) && (s == Written(p, false) || (MayTrail(p) && s == Written(p, true)))
  {
    var at := FirstIndex(s, '@');
    CutAtFirst(s, '@');
    if at == |s| {
      HostIsWritten(s);
    } else {
      var a, rest := s[..at], s[at + 1..];
      var auth, c := Credentials(a), FirstIndex(rest, ':');
      assert At(s) == BehindAt(auth, rest);
      CredentialsAreWritten(a);
      HostBehindIsWritten(auth, rest);
      LeftBehind(s, at, c, At(s));
      BothAreWritten(a, auth.username, auth.password, rest, c);
    }
  }

  lemma LeftBehind(s: string, at: nat, c: nat, scan: Scan)
    requires at < |s| && c <= |s[at + 1..]| && scan == At(s) && scan.Scan?
    requires scan.start == if c == |s[at + 1..]| then at + 1 else at + 1 + c + 1
    ensures Split(s) == Remainder(scan, if c == |s[at + 1..]| then s[at + 1..] else s[at + 1..][c + 1..])
  {
    assert c < |s[at + 1..]| ==> s[at + 1 + c + 1..] == s[at + 1..][c + 1..];
  }

  /** Text without credentials. */
  lemma HostIsWritten(s: string)
    requires '@' !in s && FirstIndex(s, '@') == |s| && Split(s).Some?
    ensures var p := Split(s).value; WellFormed(p) && p.username.None? && s == Written(p, false)
  {
    var c := FirstIndex(s, ':');
    assert At(s) == BeforeAt(s);
    CutAtFirst(s, ':');
    if c == |s| {
      assert Split(s) == Some(Parts(None, None, s, None)) by { assert s[0..] == s; }
    } else {
      assert Split(s) == Some(Parts(None, None, s[..c], Some(s[c + 1..])));
      assert '@' !in s[..c] && '@' !in s[c + 1..];
    }
  }

  lemma BothAreWritten(a: string, username: Option<string>, password: Option<string>, rest: string, c: nat)
    requires username.Some? && Plain(username.value) && a == WrittenCredentials(username.value, password)
    requires password.Some? ==> password.value != "" && password.value[0] != ':' && '@' !in password.value
    requires c <= |rest| && '@' !in rest
    requires if c == |rest| then ':' !in rest
             else Plain(rest[..c]) && ':' !in rest[c + 1..] && rest == rest[..c] + [':'] + rest[c + 1..]
    ensures var auth := Scan(|a| + 1, true, None, username, password, None);
            var scan := if c == |rest| then auth else auth.(start := auth.start + c + 1, host := Some(rest[..c]));
            var parts := Remainder(scan, if c == |rest| then rest else rest[c + 1..]);
            parts.Some? ==>
              && WellFormed(parts.value)
              && (a + ['@'] + rest == Written(parts.value, false) ||
                  (MayTrail(parts.value) && a + ['@'] + rest == Written(parts.value, true)))
  {
    if c < |rest| && rest[c + 1..] == "" {
      assert rest == rest[..c] + ":";
    }
  }

  lemma CredentialsAreWritten(a: string)
    requires '@' !in a && Credentials(a).Scan?
    ensures var scan := Credentials(a);
            && scan == Scan(|a| + 1, true, None, scan.username, scan.password, None) && scan.username.Some?
            && Plain(scan.username.value) && a == WrittenCredentials(scan.username.value, scan.password)
            && (scan.password.Some? ==>
                  scan.password.value != "" && scan.password.value[0] != ':' && '@' !in scan.password.value)
  {
    CutAtFirst(a, ':');
  }

  /** What follows the at sign: a host, and a port or at most a colon behind it. */
  lemma HostBehindIsWritten(auth: Scan, rest: string)
    requires auth.Scan? && auth.host.None? && auth.pending.None? && BehindAt(auth, rest).Scan?
    ensures var scan, c := BehindAt(auth, rest), FirstIndex(rest, ':');
            && '@' !in rest
            && (if c == |rest| then scan == auth && ':' !in rest
                else
                  && scan == auth.(start := auth.start + c + 1, host := Some(rest[..c])) && Plain(rest[..c])
                  && ':' !in rest[c + 1..] && rest == rest[..c] + [':'] + rest[c + 1..])
  {
    CutAtFirst(rest, ':');
  }

  lemma WrittenSplits(p: Parts, trailing: bool)
    requires WellFormed(p) && (trailing ==> MayTrail(p))
    ensures Split(Written(p, trailing)) == Some(p)
  {
    if p.username.None? {
      HostSplits(p.host, p.port);
    } else {
      CredentialsScan(p.username.value, p.password);
      BothSplit(WrittenCredentials(p.username.value, p.password), p, trailing);
    }
  }

  lemma BothSplit(a: string, p: Parts, trailing: bool)
    requires WellFormed(p) && p.username.Some? && (trailing ==> MayTrail(p))
    requires '@' !in a && Credentials(a) == Scan(|a| + 1, true, None, p.username, p.password, None)
    ensures Split(a + "@" + WrittenHost(p.host, p.port, trailing)) == Some(p)
  {
    var rest := WrittenHost(p.host, p.port, trailing);
    var s := a + "@" + rest;
    AtWritten(a, rest);
    HostBehindScan(Credentials(a), p.host, p.port, trailing);
    var scan := BehindAt(Credentials(a), rest);
    var left := if p.port.Some? || trailing then rest[|p.host| + 1..] else rest;
    assert s[scan.start..] == left;
    assert Split(s) == Remainder(scan, left);
  }

  lemma AtWritten(a: string, rest: string)
    requires '@' !in a
    ensures At(a + "@" + rest) == BehindAt(Credentials(a), rest)
  {
    var s := a + "@" + rest;
    FirstIndexConcat(a, '@', rest);
    assert s[..|a|] == a && s[|a| + 1..] == rest;
  }

  lemma HostSplits(host: string, port: Option<string>)
    requires WellFormed(Parts(None, None, host, port))
    ensures Split(WrittenHost(host, port, false)) == Some(Parts(None, None, host, port))
  {
    var s := WrittenHost(host, port, false);
    assert '@' !in s;
    FirstIndexConcat(s, '@', "");
    if port.Some? {
      FirstIndexConcat(host, ':', port.value);
      assert s[..|host|] == host && s[|host| + 1..] == port.value && s[|host| + 1] == port.value[0];
    } else {
      FirstIndexConcat(s, ':', "");
      assert s[0..] == host;
    }
  }

  lemma {:induction false} CredentialsScan(username: string, password: Option<string>)
    requires Plain(username)
    requires password.Some? ==> password.value != "" && password.value[0] != ':' && '@' !in password.value
    ensures var a := WrittenCredentials(username, password);
            '@' !in a && Credentials(a) == Scan(|a| + 1, true, None, Some(username), password, None)
  {
    var a := WrittenCredentials(username, password);
    if password.Some? {
      FirstIndexConcat(username, ':', password.value);
      assert a[..|username|] == username && a[|username| + 1..] == password.value;
      assert a[|username| + 1] == password.value[0];
    } else {
      FirstIndexConcat(username, ':', "");
    }
  }

  lemma HostBehindScan(auth: Scan, host: string, port: Option<string>, trailing: bool)
    requires auth.Scan? && Plain(host)
    requires port.Some? ==> '@' !in port.value && ':' !in port.value
    ensures var rest := WrittenHost(host, port, trailing);
            && (BehindAt(auth, rest) == if port.None? && !trailing then auth
                                        else auth.(start := auth.start + |host| + 1, host := Some(host)))
            && (port.Some? ==> |rest| > |host| && rest[|host| + 1..] == port.value)
            && (port.None? ==> if trailing then |rest| > |host| && rest[|host| + 1..] == "" else rest == host)
  {
    var rest := WrittenHost(host, port, trailing);
    if port.Some? {
      FirstIndexConcat(host, ':', port.value);
      assert rest[..|host|] == host && rest[|host| + 1..] == port.value;
    } else if trailing {
      FirstIndexConcat(host, ':', "");
      assert host + ":" + "" == rest && rest[..|host|] == host && rest[|host| + 1..] == "";
    } else {
      FirstIndexConcat(rest, ':', "");
    }
  }

  lemma DecodedNotEmpty(s: string)
    requires s != "" && Decode(s).Some?
    ensures Decode(s).value != ""
  {
  }

  /** An accepted URL has at most one at sign, no empty part, and a port in range. */
  lemma AcceptedUrls(url: string)
    requires Parse(url).Some?
    ensures var proxy := Parse(url).value;
            && "socks5h://" <= url && proxy.host != "" && 1 <= proxy.port <= 65535
            && (proxy.username.Some? ==> proxy.username.value != "")
            && (proxy.password.Some? ==> proxy.username.Some? && proxy.password.value != "")
    ensures forall i, j :: 10 <= i < j < |url| && url[i] == '@' ==> url[j] != '@'
  {
    var s := url[|SCHEME|..];
    SplitIsWritten(s);
    var parts := Split(s).value;
    if parts.username.Some? {
      DecodedNotEmpty(parts.username.value);
    }
    if parts.password.Some? {
      DecodedNotEmpty(parts.password.value);
    }
    AtMostOneAt(s);
    assert forall k :: |SCHEME| <= k < |url| ==> url[k] == s[k - |SCHEME|];
  }

  lemma AtMostOneAt(s: string)
    requires At(s).Scan?
    ensures forall i, j :: 0 <= i < j < |s| && s[i] == '@' ==> s[j] != '@'
  {
    var at := FirstIndex(s, '@');
    assert forall k :: 0 <= k < at ==> s[k] == s[..at][k];
    if at < |s| {
      var rest := s[at + 1..];
      assert '@' !in rest;
      assert forall k :: at < k < |s| ==> s[k] == rest[k - at - 1];
    }
  }

  // ------------------------------------------------------------------ printing and parsing

  function Encoded(t: Option<string>): Option<string> {
    if t.None? then None else Some(Encode(t.value))
  }

  function PortText(port: Option<nat>): Option<string> {
    if port.None? then None else Some(Decimal(port.value))
  }

  /** The six documented forms, with escapes in the credentials. */
  function Print(username: Option<string>, password: Option<string>, host: string, port: Option<nat>): string {
    "socks5h://" + Written(Parts(Encoded(username), Encoded(password), host, PortText(port)), false)
  }

  lemma {:induction false} EncodeClean(s: string)
    ensures ':' !in Encode(s) && '@' !in Encode(s)
    ensures s != "" ==> Encode(s) != ""
  {
    if s != "" {
      EncodeClean(s[1..]);
    }
  }

  /** What can be printed: no empty parts, a host without separators, a port in range. */
  predicate Printable(username: Option<string>, password: Option<string>, host: string, port: Option<nat>) {
    && (password.Some? ==> username.Some? && password.value != "")
    && (username.Some? ==> username.value != "")
    && Plain(host)
    && (port.Some? ==> 1 <= port.value <= 65535)
  }

  predicate HasAtSign(t: Option<string>) { t.Some? && '@' in t.value }

  function ColonedText(t: Option<string>): Option<string> {
    if t.None? then None else Some(Coloned(t.value))
  }

  lemma PrintedIsWellFormed(username: Option<string>, password: Option<string>, host: string, port: Option<nat>)
    requires Printable(username, password, host, port)
    ensures WellFormed(Parts(Encoded(username), Encoded(password), host, PortText(port)))
  {
    if username.Some? {
      EncodeClean(username.value);
    }
    if password.Some? {
      EncodeClean(password.value);
      assert Encode(password.value)[0] in Encode(password.value);
    }
    if port.Some? {
      assert Decimal(port.value)[0] in Decimal(port.value);
    }
  }

  /**
   * Printing any of the six forms and parsing it gives back its parts, with the default port when omitted, except that
   * the at signs of the credentials come back as colons: so exactly the parts if and only if there are none.
   */
  lemma RoundTrip(username: Option<string>, password: Option<string>, host: string, port: Option<nat>)
    requires Printable(username, password, host, port)
    ensures var portInt := if port.Some? then port.value else 1080;
            var parsed := Parse(Print(username, password, host, port));
            && parsed == Some(Proxy(ColonedText(username), ColonedText(password), host, portInt))
            && (parsed == Some(Proxy(username, password, host, portInt))
                <==> !HasAtSign(username) && !HasAtSign(password))
  {
    var parts := Parts(Encoded(username), Encoded(password), host, PortText(port));
    PrintedIsWellFormed(username, password, host, port);
    SplitExactly(Written(parts, false), parts);
    assert Print(username, password, host, port)[|SCHEME|..] == Written(parts, false);
    if username.Some? {
      DecodeEncode(username.value);
      ColonedExactly(username.value);
    }
    if password.Some? {
      DecodeEncode(password.value);
      ColonedExactly(password.value);
    }
    if port.Some? {
      AtoiDecimal(port.value);
    }
  }
}
