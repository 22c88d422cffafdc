/** C strings as sequences of characters, and the few library calls the parsers rely on. */
module Strings {

  datatype Option<+T> = None | Some(value: T)

  const NUL := '\0'

  /** The array starts with the characters of `s` and a terminator. */
  ghost predicate HoldsText(a: array<char>, s: string)
    reads a
  {
    |s| < a.Length && a[..|s|] == s && a[|s|] == NUL && NUL !in s
  }

  /** A `char*` that may be null. */
  ghost predicate HoldsOptional(a: array?<char>, t: Option<string>)
    reads a
  {
    match t
    case None => a == null
    case Some(s) => a != null && HoldsText(a, s)
  }

  /** strlen. */
  method StrLen(a: array<char>, ghost s: string) returns (len: nat)
    requires HoldsText(a, s)
    ensures len == |s|
  {
    TextHasNoNul(a, s);
    len := 0;
    while a[len] != NUL
      invariant len <= |s|
      decreases |s| - len
    {
      len := len + 1;
    }
  }

  lemma TextHasNoNul(a: array<char>, s: string)
    requires HoldsText(a, s)
    ensures forall k :: 0 <= k < |s| ==> a[k] != NUL
  {
    forall k | 0 <= k < |s|
      ensures a[k] != NUL
    {
      assert a[..|s|][k] in s;
    }
  }

  /** strchr, as the question whether the character occurs. */
  method Contains(a: array<char>, ghost s: string, c: char) returns (found: bool)
    requires HoldsText(a, s)
    ensures found <==> c in s
  {
    var len := StrLen(a, s);
    for i := 0 to len
      invariant c !in s[..i]
    {
      assert s[i] == a[..|s|][i];
      if a[i] == c {
        return true;
      }
    }
    assert s[..len] == s;
    found := false;
  }

  /** The position of the first `c`, or the length. */
  function FirstIndex(s: string, c: char): (i: nat)
    ensures i <= |s|
    ensures c !in s[..i]
    ensures i < |s| ==> s[i] == c
  {
    if s == "" || s[0] == c then 0 else FirstIndex(s[1..], c) + 1
  }

  /** A position with these two properties is the first one. */
  lemma {:induction false} FirstIndexIs(s: string, c: char, i: nat)
    requires i <= |s| && c !in s[..i] && (i < |s| ==> s[i] == c)
    ensures FirstIndex(s, c) == i
  {
    var j := FirstIndex(s, c);
    assert forall k :: 0 <= k < i ==> s[k] == s[..i][k];
    assert forall k :: 0 <= k < j ==> s[k] == s[..j][k];
  }

  lemma {:induction false} FirstIndexAppend(s: string, ch: char, c: char)
    ensures FirstIndex(s + [ch], c) ==
            if FirstIndex(s, c) < |s| || ch == c then FirstIndex(s, c) else |s| + 1
  {
    var i := if FirstIndex(s, c) < |s| || ch == c then FirstIndex(s, c) else |s| + 1;
    assert i <= |s| ==> (s + [ch])[..i] == s[..i];
    assert FirstIndex(s, c) == |s| ==> s[..|s|] == s;
    FirstIndexIs(s + [ch], c, i);
  }

  lemma {:induction false} FirstIndexConcat(u: string, c: char, v: string)
    requires c !in u
    ensures FirstIndex(u + [c] + v, c) == |u|
    ensures FirstIndex(u, c) == |u|
  {
    assert (u + [c] + v)[..|u|] == u && u[..|u|] == u;
    FirstIndexIs(u + [c] + v, c, |u|);
    FirstIndexIs(u, c, |u|);
  }

  predicate IsDigit(c: char) { '0' <= c <= '9' }

  predicate IsSpace(c: char) { c == ' ' || '\t' <= c <= '\r' }

  function DigitsValue(s: string, acc: int): int
    decreases |s|
  {
    if s == "" || !IsDigit(s[0]) then acc else DigitsValue(s[1..], 10 * acc + (s[0] as int - '0' as int))
  }

  /** atoi: leading white space, an optional sign, digits up to the first other character. */
  function Atoi(s: string): int
    decreases |s|
  {
    if s != "" && IsSpace(s[0]) then Atoi(s[1..])
    else if s != "" && s[0] == '-' then -DigitsValue(s[1..], 0)
    else if s != "" && s[0] == '+' then DigitsValue(s[1..], 0)
    else DigitsValue(s, 0)
  }

  function Decimal(n: nat): (s: string)
    ensures s != ""
    ensures forall c <- s :: IsDigit(c)
  {
    if n < 10 then [('0' as int + n) as char] else Decimal(n / 10) + Decimal(n % 10)
  }

  lemma {:induction false} DigitsValueConcat(s: string, t: string, acc: int)
    requires forall c <- s :: IsDigit(c)
    ensures DigitsValue(s + t, acc) == DigitsValue(t, DigitsValue(s, acc))
    decreases |s|
  {
    if s == "" {
      assert s + t == t;
    } else {
      assert (s + t)[1..] == s[1..] + t;
      DigitsValueConcat(s[1..], t, 10 * acc + (s[0] as int - '0' as int));
    }
  }

  lemma {:induction false} DecimalValue(n: nat)
    ensures DigitsValue(Decimal(n), 0) == n
  {
    if n < 10 {
      assert DigitsValue(Decimal(n), 0) == DigitsValue("", n);
    } else {
      DecimalValue(n / 10);
      DigitsValueConcat(Decimal(n / 10), Decimal(n % 10), 0);
      assert DigitsValue(Decimal(n % 10), n / 10) == DigitsValue("", 10 * (n / 10) + n % 10);
    }
  }

  /** Printing a number in decimal and reading it back. */
  lemma {:induction false} AtoiDecimal(n: nat)
    ensures Atoi(Decimal(n)) == n
  {
    DecimalValue(n);
    var s := Decimal(n);
    assert s[0] in s;
  }

  lemma {:induction false} DigitsStop(s: string, rest: string, acc: int)
    requires (forall c <- s :: IsDigit(c)) && (rest != "" ==> !IsDigit(rest[0]))
    ensures DigitsValue(s + rest, acc) == DigitsValue(s, acc)
  {
    DigitsValueConcat(s, rest, acc);
  }

  /** White space and a sign in front of the number are read, and what stands behind it is not. */
  lemma {:induction false} AtoiText(space: string, sign: string, n: int, rest: string)
    requires n >= 0
    requires forall c <- space :: c == ' ' || 9 <= c as int <= 13
    requires sign in {"", "+", "-"} && (rest != "" ==> !('0' <= rest[0] <= '9'))
    ensures Atoi(space + (sign + (Decimal(n) + rest))) == if sign == "-" then -n else n
    decreases |space|
  {
    var text := sign + (Decimal(n) + rest);
    if space == "" {
      assert "" + text == text;
      DecimalValue(n);
      DigitsStop(Decimal(n), rest, 0);
      assert Decimal(n)[0] in Decimal(n);
      if sign == "" {
        assert text == Decimal(n) + rest;
      } else {
        assert text[1..] == Decimal(n) + rest;
      }
    } else {
      assert (space + text)[1..] == space[1..] + text;
      assert space[0] in space && forall c <- space[1..] :: c in space;
      AtoiText(space[1..], sign, n, rest);
    }
  }
}
