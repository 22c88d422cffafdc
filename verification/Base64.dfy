/** The base64 encoder of src/sub_client.c, against a decoder for section 4 of RFC 4648. */
module Base64 {
  import opened CIntegers
  import opened Strings

  const PAD := '='

  /** Six bits. */
  type sextet = v: int | 0 <= v < 64

  /** The alphabet, in the RFC's order. */
  function Letter(v: sextet): char {
    if v < 26 then ('A' as int + v) as char
    else if v < 52 then ('a' as int + (v - 26)) as char
    else if v < 62 then ('0' as int + (v - 52)) as char
    else if v == 62 then '+'
    else '/'
  }

  // ------------------------------------------------------------------ a decoder from the RFC

  /** The value of a symbol of the alphabet. */
  function Value(c: char): Option<sextet> {
    if 'A' <= c <= 'Z' then Some(c as int - 'A' as int)
    else if 'a' <= c <= 'z' then Some(c as int - 'a' as int + 26)
    else if '0' <= c <= '9' then Some(c as int - '0' as int + 52)
    else if c == '+' then Some(62)
    else if c == '/' then Some(63)
    else None
  }

  predicate InAlphabet(c: char) { Value(c).Some? }

  function Byte0(v0: sextet, v1: sextet): byte { v0 * 4 + v1 / 16 }

  function Byte1(v1: sextet, v2: sextet): byte { v1 % 16 * 16 + v2 / 4 }

  function Byte2(v2: sextet, v3: sextet): byte { v2 % 4 * 64 + v3 }

  /** A group of four symbols: three bytes, or one or two in a padded last group whose unused bits are zero. */
  function DecodeGroup(g: string): Option<seq<byte>>
    requires |g| == 4
  {
    if !InAlphabet(g[0]) || !InAlphabet(g[1]) then None
    else
      var v0, v1 := Value(g[0]).value, Value(g[1]).value;
      if g[3] != PAD then
        if !InAlphabet(g[2]) || !InAlphabet(g[3]) then None
        else
          var v2, v3 := Value(g[2]).value, Value(g[3]).value;
          Some([Byte0(v0, v1), Byte1(v1, v2), Byte2(v2, v3)])
      else if g[2] == PAD then (if v1 % 16 == 0 then Some([Byte0(v0, v1)]) else None)
      else if !InAlphabet(g[2]) then None
      else
        var v2 := Value(g[2]).value;
        if v2 % 4 == 0 then Some([Byte0(v0, v1), Byte1(v1, v2)]) else None
  }

  /** A text of groups, padding only in the last one. */
  function Decode(s: string): Option<seq<byte>> {
    if s == "" then Some([])
    else if |s| < 4 || (s[3] == PAD && |s| > 4) then None
    else
      match DecodeGroup(s[..4])
      case None => None
      case Some(bytes) =>
        match Decode(s[4..])
        case None => None
        case Some(rest) => Some(bytes + rest)
  }

  // ------------------------------------------------------------------ the encoder

  function First(a: byte): sextet { a / 4 }

  function Second(a: byte, b: byte): sextet { a % 4 * 16 + b / 16 }

  function Third(b: byte, c: byte): sextet { b % 16 * 4 + c / 64 }

  function Fourth(c: byte): sextet { c % 64 }

  /** The symbols of one group: four for three bytes, the rest padding for a last group of one or two. */
  function Group(data: seq<byte>): string
    requires data != []
  {
    if |data| == 1 then [Letter(First(data[0])), Letter(Second(data[0], 0)), PAD, PAD]
    else if |data| == 2 then
      [Letter(First(data[0])), Letter(Second(data[0], data[1])), Letter(Third(data[1], 0)), PAD]
    else
      [Letter(First(data[0])), Letter(Second(data[0], data[1])),
       Letter(Third(data[1], data[2])), Letter(Fourth(data[2]))]
  }

  /** The text of a byte sequence, three bytes at a time. */
  function Encode(data: seq<byte>): string {
    if data == [] then "" else Group(data) + (if |data| <= 3 then "" else Encode(data[3..]))
  }

  /** The look-up in the encoder's table, which lists the alphabet. */
  method Base64Char(v: sextet) returns (c: char)
    ensures c == Letter(v)
  {
    c := ("ABCDEFGHIJKLMNOPQRSTUVWXYZ" + "abcdefghijklmnopqrstuvwxyz" + "0123456789" + "+/")[v];
  }

  /** The masked shifts of the encoder, on the bits of unsigned chars. */
  method TopSix(a: byte) returns (v: sextet)
    ensures v == First(a)
  {
    var bits := a as bv8;
    BitsOfByte(a);
    DropTwoBits(bits);
    v := ((bits >> 2) & 0x3F) as int;
  }

  method LowTwo(a: byte) returns (v: sextet)
    ensures v == Second(a, 0)
  {
    var bits := a as bv8;
    BitsOfByte(a);
    RaiseTwoBits(bits);
    v := ((bits << 4) & 0x30) as int;
  }

  method LowTwoTopFour(a: byte, b: byte) returns (v: sextet)
    ensures v == Second(a, b)
  {
    var high, low := a as bv8, b as bv8;
    BitsOfByte(a);
    BitsOfByte(b);
    JoinTwoAndFour(high, low);
    v := (((high << 4) & 0x30) | ((low >> 4) & 0x0F)) as int;
  }

  method LowFour(b: byte) returns (v: sextet)
    ensures v == Third(b, 0)
  {
    var bits := b as bv8;
    BitsOfByte(b);
    RaiseFourBits(bits);
    v := ((bits << 2) & 0x3C) as int;
  }

  method LowFourTopTwo(b: byte, c: byte) returns (v: sextet)
    ensures v == Third(b, c)
  {
    var high, low := b as bv8, c as bv8;
    BitsOfByte(b);
    BitsOfByte(c);
    JoinFourAndTwo(high, low);
    v := (((high << 2) & 0x3C) | ((low >> 6) & 0x03)) as int;
  }

  method LowSix(c: byte) returns (v: sextet)
    ensures v == Fourth(c)
  {
    var bits := c as bv8;
    BitsOfByte(c);
    KeepSixBits(bits);
    v := (bits & 0x3F) as int;
  }

  lemma NextBits(b: bv8)
    requires b as int < 255
    ensures (b + 1) as int == b as int + 1
  {
    assert b < 255;
  }

  lemma BitsOfNumber(a: byte, b: bv8)
    requires b as int == a
    ensures a as bv8 == b
  {
  }

  lemma BitsOfByte(a: byte)
    ensures (a as bv8) as int == a
  {
    if a > 0 {
      BitsOfByte(a - 1);
      NextBits((a - 1) as bv8);
      BitsOfNumber(a, (a - 1) as bv8 + 1);
    }
  }

  lemma DropTwoBits(b: bv8)
    ensures ((b >> 2) & 0x3F) as int == b as int / 4
  {
  }

  lemma DropFourBits(b: bv8)
    ensures ((b >> 4) & 0x0F) as int == b as int / 16
  {
  }

  lemma DropSixBits(b: bv8)
    ensures ((b >> 6) & 0x03) as int == b as int / 64
  {
  }

  lemma KeepSixBits(b: bv8)
    ensures (b & 0x3F) as int == b as int % 64
  {
  }

  lemma RaiseTwoBits(b: bv8)
    ensures ((b << 4) & 0x30) as int == b as int % 4 * 16
  {
  }

  lemma RaiseFourBits(b: bv8)
    ensures ((b << 2) & 0x3C) as int == b as int % 16 * 4
  {
  }

  /** Masks without a common bit: the bitwise or is the sum. */
  lemma DisjointOr(high: bv8, low: bv8)
    requires high & low == 0 && high <= 0x3C && low <= 0x0F
    ensures (high | low) as int == high as int + low as int
  {
    assert high | low == high + low;
  }

  lemma JoinTwoAndFour(high: bv8, low: bv8)
    ensures (((high << 4) & 0x30) | ((low >> 4) & 0x0F)) as int == high as int % 4 * 16 + low as int / 16
  {
    RaiseTwoBits(high);
    DropFourBits(low);
    DisjointOr((high << 4) & 0x30, (low >> 4) & 0x0F);
  }

  lemma JoinFourAndTwo(high: bv8, low: bv8)
    ensures (((high << 2) & 0x3C) | ((low >> 6) & 0x03)) as int == high as int % 16 * 4 + low as int / 64
  {
    RaiseFourBits(high);
    DropSixBits(low);
    DisjointOr((high << 2) & 0x3C, (low >> 6) & 0x03);
  }

  /** One turn of the loop: the bytes at `i`, up to three of them, become four symbols at `j`. */
  method EncodeGroup(bindata: seq<byte>, i: nat, base64: array<char>, j: nat)
    requires i < |bindata| && j + 4 <= base64.Length
    modifies base64
    ensures base64[j..j + 4] == Group(bindata[i..])
    ensures forall k :: 0 <= k < j || j + 4 <= k < base64.Length ==> base64[k] == old(base64[k])
  {
    var current := TopSix(bindata[i]);
    base64[j] := Base64Char(current);
    if i + 1 >= |bindata| {
      current := LowTwo(bindata[i]);
      base64[j + 1] := Base64Char(current);
      base64[j + 2] := PAD;
      base64[j + 3] := PAD;
      return;
    }
    current := LowTwoTopFour(bindata[i], bindata[i + 1]);
    base64[j + 1] := Base64Char(current);
    if i + 2 >= |bindata| {
      current := LowFour(bindata[i + 1]);
      base64[j + 2] := Base64Char(current);
      base64[j + 3] := PAD;
      return;
    }
    current := LowFourTopTwo(bindata[i + 1], bindata[i + 2]);
    base64[j + 2] := Base64Char(current);
    current := LowSix(bindata[i + 2]);
    base64[j + 3] := Base64Char(current);
  }

  /** base64_encode: the output array holds the text and a terminator. */
  method Base64Encode(bindata: seq<byte>, base64: array<char>)
    requires |Encode(bindata)| < base64.Length
    modifies base64
    ensures base64[..|Encode(bindata)|] == Encode(bindata) && base64[|Encode(bindata)|] == NUL
    ensures forall k :: |Encode(bindata)| < k < base64.Length ==> base64[k] == old(base64[k])
  {
    var i: nat, j: nat := 0, 0;
    ghost var rest := bindata;
    while i < |bindata|
      invariant rest == if i < |bindata| then bindata[i..] else []
      invariant j <= base64.Length && Encode(bindata) == base64[..j] + Encode(rest)
      invariant forall k :: j <= k < base64.Length ==> base64[k] == old(base64[k])
      decreases |bindata| - i
    {
      ghost var done, tail := base64[..j], if |rest| <= 3 then [] else rest[3..];
      EncodeStep(done, rest, tail);
      EncodeGroup(bindata, i, base64, j);
      assert base64[..j + 4] == done + Group(rest);
      rest := tail;
      i := i + 3;
      j := j + 4;
    }
    base64[j] := NUL;
  }

  lemma {:induction false} EncodeStep(done: string, rest: seq<byte>, tail: seq<byte>)
    requires rest != [] && tail == if |rest| <= 3 then [] else rest[3..]
    ensures done + Encode(rest) == (done + Group(rest)) + Encode(tail)
  {
  }

  // ------------------------------------------------------------------ encoding and decoding

  lemma SymbolValue(v: sextet)
    ensures Value(Letter(v)) == Some(v) && Letter(v) != PAD
  {
  }

  lemma ValueSymbol(c: char)
    requires InAlphabet(c)
    ensures Letter(Value(c).value) == c && c != PAD
  {
  }

  lemma BytesOfGroup(a: byte, b: byte, c: byte)
    ensures Byte0(First(a), Second(a, b)) == a
    ensures Byte1(Second(a, b), Third(b, c)) == b
    ensures Byte2(Third(b, c), Fourth(c)) == c
    ensures Second(a, 0) % 16 == 0 && Third(b, 0) % 4 == 0
  {
  }

  lemma TopAndLowBits(a: byte)
    ensures Byte0(First(a), Second(a, 0)) == a && Second(a, 0) % 16 == 0
  {
  }

  lemma SextetsOfGroup(v0: sextet, v1: sextet, v2: sextet, v3: sextet)
    ensures First(Byte0(v0, v1)) == v0
    ensures Second(Byte0(v0, v1), Byte1(v1, v2)) == v1 && (v1 % 16 == 0 ==> Second(Byte0(v0, v1), 0) == v1)
    ensures Third(Byte1(v1, v2), Byte2(v2, v3)) == v2 && (v2 % 4 == 0 ==> Third(Byte1(v1, v2), 0) == v2)
    ensures Fourth(Byte2(v2, v3)) == v3
  {
  }

  lemma FullGroupDecodes(a: byte, b: byte, c: byte)
    ensures DecodeGroup([Letter(First(a)), Letter(Second(a, b)), Letter(Third(b, c)), Letter(Fourth(c))]) ==
            Some([a, b, c])
  {
    SymbolValue(First(a));
    SymbolValue(Second(a, b));
    SymbolValue(Third(b, c));
    SymbolValue(Fourth(c));
    BytesOfGroup(a, b, c);
  }

  lemma PairDecodes(a: byte, b: byte)
    ensures DecodeGroup([Letter(First(a)), Letter(Second(a, b)), Letter(Third(b, 0)), PAD]) == Some([a, b])
  {
    SymbolValue(First(a));
    SymbolValue(Second(a, b));
    SymbolValue(Third(b, 0));
    BytesOfGroup(a, b, 0);
  }

  lemma SingleDecodes(a: byte)
    ensures DecodeGroup([Letter(First(a)), Letter(Second(a, 0)), PAD, PAD]) == Some([a])
  {
    SymbolValue(First(a));
    SymbolValue(Second(a, 0));
    TopAndLowBits(a);
  }

  lemma GroupDecodes(data: seq<byte>)
    requires data != []
    ensures DecodeGroup(Group(data)) == Some(if |data| > 3 then data[..3] else data)
    ensures Group(data)[3] == PAD <==> |data| <= 2
  {
    if |data| == 1 {
      SingleDecodes(data[0]);
      assert data == [data[0]];
    } else if |data| == 2 {
      PairDecodes(data[0], data[1]);
      assert data == [data[0], data[1]];
    } else {
      FullGroupDecodes(data[0], data[1], data[2]);
      SymbolValue(Fourth(data[2]));
      assert (if |data| > 3 then data[..3] else data) == [data[0], data[1], data[2]];
    }
  }

  lemma GroupEncodes(g: string)
    requires |g| == 4 && DecodeGroup(g).Some?
    ensures var data := DecodeGroup(g).value;
            1 <= |data| <= 3 && Group(data) == g && (|data| < 3 <==> g[3] == PAD)
  {
    ValueSymbol(g[0]);
    ValueSymbol(g[1]);
    var v0, v1 := Value(g[0]).value, Value(g[1]).value;
    if g[3] != PAD {
      ValueSymbol(g[2]);
      ValueSymbol(g[3]);
      SextetsOfGroup(v0, v1, Value(g[2]).value, Value(g[3]).value);
    } else if g[2] != PAD {
      ValueSymbol(g[2]);
      SextetsOfGroup(v0, v1, Value(g[2]).value, 0);
    } else {
      SextetsOfGroup(v0, v1, 0, 0);
    }
    assert g == [g[0], g[1], g[2], g[3]];
  }

  /** Only the first three bytes matter to a group. */
  lemma GroupOfPrefix(data: seq<byte>, rest: seq<byte>)
    requires |data| == 3
    ensures Group(data + rest) == Group(data)
  {
  }

  /** A sextet is written by the symbol at its place in the RFC's alphabet. */
  lemma AlphabetOrder(v: sextet)
    ensures Letter(v) == ("ABCDEFGHIJKLMNOPQRSTUVWXYZ" + "abcdefghijklmnopqrstuvwxyz" + "0123456789" + "+/")[v]
  {
  }

  /** The four sextets of a group are the 24 bits of its three bytes, from the highest down. */
  lemma GroupIsNumber(a: byte, b: byte, c: byte)
    ensures 262144 * First(a) + 4096 * Second(a, b) + 64 * Third(b, c) + Fourth(c) == 65536 * a + 256 * b + c
  {
  }

  /** The test vectors of section 10 of the RFC. */
  lemma TestVectors()
    ensures Encode([]) == "" && Encode([0x66]) == "Zg==" && Encode([0x66, 0x6f]) == "Zm8="
    ensures Encode([0x66, 0x6f, 0x6f]) == "Zm9v" && Encode([0x66, 0x6f, 0x6f, 0x62]) == "Zm9vYg=="
    ensures Encode([0x66, 0x6f, 0x6f, 0x62, 0x61]) == "Zm9vYmE="
    ensures Encode([0x66, 0x6f, 0x6f, 0x62, 0x61, 0x72]) == "Zm9vYmFy"
  {
    var foobar: seq<byte> := [0x66, 0x6f, 0x6f, 0x62, 0x61, 0x72];
    assert foobar[3..] == [0x62, 0x61, 0x72] && foobar[..5][3..] == [0x62, 0x61] && foobar[..4][3..] == [0x62];
    assert foobar[..4] == [0x66, 0x6f, 0x6f, 0x62] && foobar[..5] == [0x66, 0x6f, 0x6f, 0x62, 0x61];
    assert Group([0x66]) == "Zg==" && Group([0x66, 0x6f]) == "Zm8=";
    assert Group(foobar[..3]) == "Zm9v" && Group(foobar[3..]) == "YmFy";
    assert Group([0x62]) == "Yg==" && Group([0x62, 0x61]) == "YmE=";
  }

  /** Decoding what was encoded gives back the bytes. */
  lemma {:induction false} DecodeEncode(data: seq<byte>)
    ensures Decode(Encode(data)) == Some(data)
  {
    if data != [] {
      GroupDecodes(data);
      var s := Encode(data);
      assert s[..4] == Group(data) && s[4..] == if |data| <= 3 then "" else Encode(data[3..]);
      if |data| > 3 {
        DecodeEncode(data[3..]);
        assert data[..3] + data[3..] == data;
      } else {
        assert data + [] == data;
      }
    }
  }

  /** The decoder accepts nothing but encoder output: there is one way to write a byte sequence. */
  lemma {:induction false} EncodeDecode(s: string)
    requires Decode(s).Some?
    ensures Encode(Decode(s).value) == s
  {
    if s != "" {
      GroupEncodes(s[..4]);
      EncodeDecode(s[4..]);
      var bytes, rest := DecodeGroup(s[..4]).value, Decode(s[4..]).value;
      assert s == s[..4] + s[4..];
      if rest != [] {
        GroupOfPrefix(bytes, rest);
        assert (bytes + rest)[3..] == rest;
      } else {
        assert bytes + rest == bytes;
      }
    }
  }

  lemma GroupShape(data: seq<byte>)
    requires data != []
    ensures Shape(Group(data), if |data| <= 3 then 3 - |data| else 0)
  {
    var a, b, c := data[0], if |data| > 1 then data[1] else 0, if |data| > 2 then data[2] else 0;
    SymbolValue(First(a));
    SymbolValue(Second(a, b));
    SymbolValue(Third(b, c));
    SymbolValue(Fourth(c));
  }

  /** The number of groups and of padding symbols in the text of `n` bytes, counted group by group. */
  function Groups(n: nat): nat { if n <= 3 then (if n == 0 then 0 else 1) else 1 + Groups(n - 3) }

  function Padding(n: nat): nat { if n <= 3 then (if n == 0 then 0 else 3 - n) else Padding(n - 3) }

  lemma {:induction false} GroupsAndPadding(n: nat)
    ensures Groups(n) == (n + 2) / 3 && Padding(n) == 3 * Groups(n) - n
  {
    if n > 3 {
      GroupsAndPadding(n - 3);
    }
  }

  /** All symbols of `s` are from the alphabet but for the last `padding`, which are padding. */
  predicate Shape(s: string, padding: nat) {
    padding <= |s| &&
    forall k :: 0 <= k < |s| ==> if k < |s| - padding then InAlphabet(s[k]) else s[k] == PAD
  }

  lemma PrependShape(g: string, s: string, padding: nat)
    requires Shape(g, 0) && Shape(s, padding)
    ensures Shape(g + s, padding)
  {
  }

  lemma {:induction false} ShapeByGroups(data: seq<byte>)
    ensures |Encode(data)| == 4 * Groups(|data|) && Shape(Encode(data), Padding(|data|))
  {
    if data != [] {
      GroupShape(data);
      if |data| > 3 {
        ShapeByGroups(data[3..]);
        PrependShape(Group(data), Encode(data[3..]), Padding(|data| - 3));
      } else {
        assert Encode(data) == Group(data);
      }
    }
  }

  /** Four symbols for every three bytes begun, all from the alphabet but for padding in the last places. */
  lemma {:induction false} EncodedShape(data: seq<byte>)
    ensures |Encode(data)| == 4 * ((|data| + 2) / 3)
    ensures Shape(Encode(data), 3 * ((|data| + 2) / 3) - |data|)
  {
    ShapeByGroups(data);
    GroupsAndPadding(|data|);
  }
}
