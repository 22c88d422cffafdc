/** Byte streams of NAL units as Annex B of the H.264 standard builds them, and what the scanner makes of them. */
module AnnexB {
  import opened CIntegers
  import opened H264Frame

  /** A unit behind a start code of four or three bytes: its first byte holds a reference level and a type. */
  datatype Unit = Unit(longCode: bool, refIdc: nat, kind: nat, body: seq<byte>)

  function Payload(u: Unit): seq<byte>
    requires u.refIdc < 4 && u.kind < 32
  {
    [32 * u.refIdc + u.kind] + u.body
  }

  function StartCode(u: Unit): seq<byte> { if u.longCode then [0, 0, 0, 1] else [0, 0, 1] }

  /** The bytes 00 00 01 at `q`. */
  predicate PrefixAt(s: seq<byte>, q: int) { 0 <= q <= |s| - 3 && s[q] == 0 && s[q + 1] == 0 && s[q + 2] == 1 }

  /** The standard has no start code inside a unit, and no zero byte at its end. */
  ghost predicate LegalUnit(u: Unit) {
    && u.refIdc < 4 && u.kind < 32
    && Payload(u)[|Payload(u)| - 1] != 0
    && forall q :: !PrefixAt(Payload(u), q)
  }

  ghost predicate LegalUnits(units: seq<Unit>) {
    forall i :: 0 <= i < |units| ==> LegalUnit(units[i])
  }

  ghost function Stream(units: seq<Unit>): seq<byte>
    requires LegalUnits(units)
  {
    if units == [] then []
    else
      var last := units[|units| - 1];
      Stream(units[..|units| - 1]) + StartCode(last) + Payload(last)
  }

  function Kinds(units: seq<Unit>): (kinds: seq<nat>)
    ensures |kinds| == |units| && forall i :: 0 <= i < |units| ==> kinds[i] == units[i].kind
  {
    if units == [] then [] else Kinds(units[..|units| - 1]) + [units[|units| - 1].kind]
  }

  /** Nothing at the end of these bytes is part of a start code to come. */
  predicate Closed(s: seq<byte>) {
    s != [] ==> s[|s| - 1] != 0 && !PrefixAt(s, |s| - 3)
  }

  /** Then the start codes of the scanner are just these three bytes. */
  lemma ClosedCodes(s: seq<byte>, q: int)
    requires Closed(s)
    ensures StartCodeAt(s, q) <==> PrefixAt(s, q)
    ensures StartCodeAt(s, q) ==> q + 3 < |s|
  {
  }

  lemma StaysClosed(front: seq<byte>, u: Unit)
    requires LegalUnit(u)
    ensures Closed(front + StartCode(u) + Payload(u))
  {
    var t, payload := front + StartCode(u) + Payload(u), Payload(u);
    var start := |front| + |StartCode(u)|;
    assert t[start - 1] == 1 && t[start - 2] == 0;
    assert !PrefixAt(payload, |payload| - 3);
  }

  /** One more unit adds one start code, in front of its payload, and leaves the others where they are. */
  lemma OneMoreCode(s: seq<byte>, u: Unit, q: int)
    requires Closed(s) && LegalUnit(u)
    ensures PrefixAt(s + StartCode(u) + Payload(u), q) <==> PrefixAt(s, q) || q == |s| + |StartCode(u)| - 3
  {
    var t, payload := s + StartCode(u) + Payload(u), Payload(u);
    var start := |s| + |StartCode(u)|;
    if q >= start {
      assert !PrefixAt(payload, q - start);
    } else if q >= |s| {
      assert t[start - 3] == 0 && t[start - 2] == 0 && t[start - 1] == 1;
    } else {
      assert forall k :: 0 <= k < |s| ==> t[k] == s[k];
    }
  }

  /** The units of the shorter stream are found in the longer one. */
  lemma {:induction false} SameUnits(s: seq<byte>, t: seq<byte>, behind: byte, n: nat)
    requires n <= |s| <= |t| && t[..|s|] == s
    requires forall q :: 0 <= q < n ==>
               (StartCodeAt(t, q) <==> StartCodeAt(s, q)) && (StartCodeAt(s, q) ==> q + 3 < |s|)
    ensures NalTypesBelow(t, behind, n) == NalTypesBelow(s, behind, n)
  {
    if n > 0 {
      SameUnits(s, t, behind, n - 1);
      assert StartCodeAt(s, n - 1) ==> t[n + 2] == t[..|s|][n + 2];
    }
  }

  lemma CodesOf(s: seq<byte>, u: Unit, t: seq<byte>)
    requires Closed(s) && LegalUnit(u) && t == s + StartCode(u) + Payload(u) && Closed(t)
    ensures forall q :: StartCodeAt(t, q) <==> StartCodeAt(s, q) || q == |s| + |StartCode(u)| - 3
    ensures forall q :: StartCodeAt(s, q) ==> q + 3 < |s|
  {
    forall q
      ensures StartCodeAt(t, q) <==> StartCodeAt(s, q) || q == |s| + |StartCode(u)| - 3
      ensures StartCodeAt(s, q) ==> q + 3 < |s|
    {
      OneMoreCode(s, u, q);
      ClosedCodes(s, q);
      ClosedCodes(t, q);
    }
  }

  /** One more unit is one more type. */
  lemma OneMoreUnit(s: seq<byte>, u: Unit, t: seq<byte>, behind: byte)
    requires Closed(s) && LegalUnit(u) && t == s + StartCode(u) + Payload(u)
    ensures NalTypes(t, behind) == NalTypes(s, behind) + [u.kind] && Closed(t)
  {
    StaysClosed(s, u);
    CodesOf(s, u, t);
    SameUnits(s, t, behind, |s|);
    var q := |s| + |StartCode(u)| - 3;
    assert StartCodeAt(t, q);
    SkipGap(t, behind, |s|, q);
    SkipGap(t, behind, q + 1, |t|);
    assert t[q + 3] == Payload(u)[0];
  }

  /** The scanner reports exactly the types of the units a stream was built from, whatever lies behind it. */
  lemma {:induction false} FindsUnits(units: seq<Unit>, behind: byte)
    requires LegalUnits(units)
    ensures NalTypes(Stream(units), behind) == Kinds(units) && Closed(Stream(units))
  {
    if units != [] {
      var u, init := units[|units| - 1], units[..|units| - 1];
      FindsUnits(init, behind);
      OneMoreUnit(Stream(init), u, Stream(units), behind);
    }
  }
}
