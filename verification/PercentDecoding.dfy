/** The in-place percent decoder of src/client_shared.c. */
module PercentDecoding {
  import opened Strings

  /** What `%` followed by these two characters stands for. The table is the code's: `%40` gives a colon. */
  function EscapedChar(hi: char, lo: char): Option<char> {
    if hi == '2' && lo == '5' then Some('%')
    else if hi == '3' && (lo == 'A' || lo == 'a') then Some(':')
    else if hi == '4' && lo == '0' then Some(':')
    else None
  }

  /** A known escape starts at `i`. */
  predicate EscapeAt(s: string, i: nat) {
    i + 2 < |s| && s[i] == '%' && EscapedChar(s[i + 1], s[i + 2]).Some?
  }

  function Prepend(prefix: string, rest: Option<string>): Option<string> {
    if rest.None? then None else Some(prefix + rest.value)
  }

  /** One left-to-right pass that builds a new string. */
  function Decode(s: string): Option<string> {
    if s == "" then Some("")
    else if s[0] != '%' then Prepend([s[0]], Decode(s[1..]))
    else if EscapeAt(s, 0) then Prepend([EscapedChar(s[1], s[2]).value], Decode(s[3..]))
    else None
  }

  function Escapes(s: string): nat {
    if s == "" then 0
    else if EscapeAt(s, 0) then 1 + Escapes(s[3..])
    else Escapes(s[1..])
  }

  /** The escape of a character, for those that need one in a URL. */
  function Escaped(c: char): string {
    if c == '%' then "%25" else if c == ':' then "%3A" else if c == '@' then "%40" else [c]
  }

  function Encode(s: string): string {
    if s == "" then "" else Escaped(s[0]) + Encode(s[1..])
  }

  /** What the decoder makes of an encoded text: at signs come back as colons. */
  function Coloned(s: string): (t: string)
    ensures |t| == |s|
  {
    if s == "" then "" else [if s[0] == '@' then ':' else s[0]] + Coloned(s[1..])
  }

  /** mosquitto__urldecode: decodes in place; a null pointer is left alone. */
  method UrlDecode(str: array?<char>, ghost text: Option<string>) returns (failed: bool)
    requires HoldsOptional(str, text)
    modifies str
    ensures failed <==> text.Some? && Decode(text.value).None?
    ensures !failed && text.Some? ==> HoldsOptional(str, Decode(text.value))
  {
    if str == null {
      return false;
    }
    ghost var s := text.value;
    var found := Contains(str, s, '%');
    if !found {
      DecodeWithoutPercent(s);
      return false;
    }
    var len := StrLen(str, s);
    var i := 0;
    assert Prepend("", Decode(s)) == Decode(s) by {
      if Decode(s).Some? {
        assert "" + Decode(s).value == Decode(s).value;
      }
    }
    while i < len
      invariant i <= len < str.Length && str[len] == NUL && NUL !in str[..len]
      invariant Decode(s) == Prepend(str[..i], Decode(str[i..len]))
      decreases len - i
    {
      ghost var done, rest := str[..i], str[i..len];
      assert rest[0] == str[i];
      ghost var c := str[i];
      if str[i] == '%' {
        if i + 2 >= len {
          return true;
        }
        assert rest[1] == str[i + 1] && rest[2] == str[i + 2];
        if str[i + 1] == '2' && str[i + 2] == '5' {
          c := '%';
          len := Contract(str, i, len, '%');
        } else if str[i + 1] == '3' && (str[i + 2] == 'A' || str[i + 2] == 'a') {
          c := ':';
          len := Contract(str, i, len, ':');
        } else if str[i + 1] == '4' && str[i + 2] == '0' {
          c := ':';
          len := Contract(str, i, len, ':');
        } else {
          return true;
        }
      } else {
        assert str[i + 1..len] == rest[1..];
        assert str[..i + 1] == done + [c];
      }
      PrependTwice(done, [c], Decode(str[i + 1..len]));
      i := i + 1;
    }
    assert str[i..len] == "";
    assert str[..i] + "" == str[..len];
    failed := false;
  }

  /** Replace the escape at `i` by one character: move the tail two places down and end the string there. */
  method Contract(str: array<char>, i: nat, len: nat, c: char) returns (newLen: nat)
    requires i + 2 < len < str.Length && NUL !in str[..len] && c != NUL
    modifies str
    ensures newLen == len - 2
    ensures str[..i + 1] == old(str[..i]) + [c]
    ensures str[i + 1..newLen] == old(str[i..len][3..])
    ensures str[newLen] == NUL && NUL !in str[..newLen]
  {
    str[i] := c;
    newLen := len - 2;
    var j := i + 1;
    while j < newLen
      invariant i + 1 <= j <= newLen
      invariant str[i] == c
      invariant forall k :: 0 <= k < i || j <= k < str.Length ==> k == i || str[k] == old(str[k])
      invariant forall k :: i + 1 <= k < j ==> str[k] == old(str[k + 2])
    {
      str[j] := str[j + 2];
      j := j + 1;
    }
    str[j] := NUL;
    forall k | 0 <= k < newLen
      ensures str[k] != NUL
    {
      if k < i {
        assert str[k] == old(str[..len])[k];
      } else if k > i {
        assert str[k] == old(str[..len])[k + 2];
      }
    }
  }

  lemma PrependTwice(a: string, b: string, rest: Option<string>)
    ensures Prepend(a, Prepend(b, rest)) == Prepend(a + b, rest)
  {
    if rest.Some? {
      assert a + (b + rest.value) == a + b + rest.value;
    }
  }

  lemma {:induction false} DecodeWithoutPercent(s: string)
    requires '%' !in s
    ensures Decode(s) == Some(s)
  {
    if s != "" {
      assert '%' !in s[1..];
      DecodeWithoutPercent(s[1..]);
      assert [s[0]] + s[1..] == s;
    }
  }

  /** A part that decodes by itself decodes the same way in front of anything. */
  lemma {:induction false} DecodeConcat(u: string, v: string)
    requires Decode(u).Some?
    ensures Decode(u + v) == Prepend(Decode(u).value, Decode(v))
  {
    if u == "" {
      assert u + v == v;
      PrependTwice("", "", Decode(v));
      assert Decode(v).Some? ==> "" + Decode(v).value == Decode(v).value;
    } else {
      var n := if EscapeAt(u, 0) then 3 else 1;
      assert (u + v)[n..] == u[n..] + v;
      DecodeConcat(u[n..], v);
      var c := if n == 3 then EscapedChar(u[1], u[2]).value else u[0];
      PrependTwice([c], Decode(u[n..]).value, Decode(v));
    }
  }

  lemma DecodeEscaped(c: char)
    ensures Decode(Escaped(c)) == Some([if c == '@' then ':' else c])
  {
    var head, decoded := Escaped(c), if c == '@' then ':' else c;
    assert [decoded] + "" == [decoded];
    if |head| == 3 {
      assert head[3..] == "" && Decode("") == Some("");
      assert Decode(head) == Prepend([EscapedChar(head[1], head[2]).value], Decode(""));
    } else {
      assert head[1..] == "";
      assert Decode(head) == Prepend([c], Decode(""));
    }
  }

  /** Decoding what was encoded gives back the text but for its at signs, which become colons. */
  lemma {:induction false} DecodeEncode(s: string)
    ensures Decode(Encode(s)) == Some(Coloned(s))
  {
    if s != "" {
      DecodeEscaped(s[0]);
      DecodeEncode(s[1..]);
      DecodeConcat(Escaped(s[0]), Encode(s[1..]));
    }
  }

  /** So it gives back the text exactly when there are none. */
  lemma {:induction false} ColonedExactly(s: string)
    ensures Coloned(s) == s <==> '@' !in s
  {
    if s != "" {
      ColonedExactly(s[1..]);
      assert s == [s[0]] + s[1..];
      assert Coloned(s)[0] == (if s[0] == '@' then ':' else s[0]) && Coloned(s)[1..] == Coloned(s[1..]);
      assert '@' in s <==> s[0] == '@' || '@' in s[1..];
    }
  }

  /** Every escape removes two characters. */
  lemma {:induction false} DecodedLength(s: string)
    requires Decode(s).Some?
    ensures |Decode(s).value| + 2 * Escapes(s) == |s|
  {
    if s != "" {
      DecodedLength(if EscapeAt(s, 0) then s[3..] else s[1..]);
    }
  }

  /** Decoding fails exactly when the pass meets a percent sign that starts no known escape. */
  lemma {:induction false} FailsExactly(s: string)
    ensures Decode(s).None? <==>
            exists p :: 0 <= p < |s| && Decode(s[..p]).Some? && s[p] == '%' && !EscapeAt(s, p)
  {
    if Decode(s).None? {
      FailurePoint(s);
    }
    forall p | 0 <= p < |s| && Decode(s[..p]).Some? && s[p] == '%' && !EscapeAt(s, p)
      ensures Decode(s).None?
    {
      assert s == s[..p] + s[p..];
      DecodeConcat(s[..p], s[p..]);
      assert !EscapeAt(s[p..], 0);
    }
  }

  lemma {:induction false} FailurePoint(s: string)
    requires Decode(s).None?
    ensures exists p :: 0 <= p < |s| && Decode(s[..p]).Some? && s[p] == '%' && !EscapeAt(s, p)
  {
    if s[0] == '%' && !EscapeAt(s, 0) {
      assert s[..0] == "";
    } else {
      var n := if EscapeAt(s, 0) then 3 else 1;
      FailurePoint(s[n..]);
      var p :| 0 <= p < |s[n..]| && Decode(s[n..][..p]).Some? && s[n..][p] == '%' && !EscapeAt(s[n..], p);
      assert s[..p + n][n..] == s[n..][..p];
      assert Decode(s[..p + n]).Some?;
      assert s[p + n] == '%' && !EscapeAt(s, p + n);
    }
  }

  // ------------------------------------------------------------------ against the documented table

  /** The table in the comment above the function: `%40` stands for an at sign. */
  function DocumentedChar(hi: char, lo: char): Option<char> {
    if hi == '4' && lo == '0' then Some('@') else EscapedChar(hi, lo)
  }

  function DecodeAsDocumented(s: string): Option<string> {
    if s == "" then Some("")
    else if s[0] != '%' then Prepend([s[0]], DecodeAsDocumented(s[1..]))
    else if EscapeAt(s, 0) then Prepend([DocumentedChar(s[1], s[2]).value], DecodeAsDocumented(s[3..]))
    else None
  }

  /** The pass meets the escape `%40`. */
  predicate MeetsAtEscape(s: string) {
    s != "" &&
    (if EscapeAt(s, 0) then s[1] == '4' || MeetsAtEscape(s[3..]) else MeetsAtEscape(s[1..]))
  }

  /** The code agrees with its comment exactly on the texts it rejects and on those without that escape. */
  lemma {:induction false} AsDocumentedExactly(s: string)
    ensures Decode(s) == DecodeAsDocumented(s) <==> Decode(s).None? || !MeetsAtEscape(s)
    ensures Decode(s).None? <==> DecodeAsDocumented(s).None?
  {
    if s != "" && (s[0] != '%' || EscapeAt(s, 0)) {
      var n := if s[0] != '%' then 1 else 3;
      AsDocumentedExactly(s[n..]);
      var coded, documented := Decode(s), DecodeAsDocumented(s);
      if coded.Some? {
        assert coded.value[1..] == Decode(s[n..]).value;
        assert documented.value[1..] == DecodeAsDocumented(s[n..]).value;
      }
    }
  }

  /** The whole table, upper and lower case: a percent sign and two characters decode to one, or not at all. */
  lemma EscapeTable(hi: char, lo: char)
    ensures Decode(['%', hi, lo]) ==
            if [hi, lo] == "25" then Some("%")
            else if [hi, lo] == "3A" || [hi, lo] == "3a" || [hi, lo] == "40" then Some(":")
            else None
  {
    var s := ['%', hi, lo];
    assert s[3..] == "" && Decode("") == Some("");
    assert EscapeAt(s, 0) ==> [EscapedChar(hi, lo).value] + "" == [EscapedChar(hi, lo).value];
    assert "25" == ['2', '5'] && "3A" == ['3', 'A'] && "3a" == ['3', 'a'] && "40" == ['4', '0'];
  }

  lemma AtSignEscapeGivesColon()
    ensures Decode("%40") == Some(":")
  {
    DecodeEscaped('@');
  }
}
