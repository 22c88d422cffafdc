/** The Annex B start code scanner and frame assembler of src/camera/h264_frame_proc.c. */
module H264Frame {
  import opened CIntegers

  const SLICE_IDR: byte := 5
  const SPS: byte := 7
  const PPS: byte := 8
  const CACHE_BYTES := 128

  // ------------------------------------------------------------------ start codes of a whole frame

  /** A start code prefix 00 00 01 at `q`, with a byte behind it or, in its four-byte form, at the end of the frame. */
  predicate StartCodeAt(s: seq<byte>, q: int) {
    && 0 <= q && q + 3 <= |s| && s[q] == 0 && s[q + 1] == 0 && s[q + 2] == 1
    && (q + 3 < |s| || (q >= 1 && s[q - 1] == 0))
  }

  /** The first start code at or behind `from`, or the length. */
  function NextStartCode(s: seq<byte>, from: nat): (q: nat)
    requires from <= |s|
    ensures from <= q <= |s|
    ensures q < |s| ==> StartCodeAt(s, q)
    ensures forall p :: from <= p < q ==> !StartCodeAt(s, p)
    decreases |s| - from
  {
    if from == |s| || StartCodeAt(s, from) then from else NextStartCode(s, from + 1)
  }

  /** The type of the unit behind a start code. When it ends the frame, the code looks at the byte behind the frame. */
  function NalTypeAt(s: seq<byte>, behind: byte, q: nat): byte
    requires StartCodeAt(s, q)
  {
    (if q + 3 < |s| then s[q + 3] else behind) % 32
  }

  /** A start code ends the frame exactly when its last four bytes are 00 00 00 01. */
  lemma LastCodeAt(s: seq<byte>)
    ensures StartCodeAt(s, |s| - 3) <==> |s| >= 4 && s[|s| - 4..] == [0, 0, 0, 1]
  {
    if |s| >= 4 {
      var tail := s[|s| - 4..];
      assert tail == [tail[0], tail[1], tail[2], tail[3]];
    }
  }

  /** The types of all NAL units that start below `n`: one for each start code, by position. */
  function NalTypesBelow(s: seq<byte>, behind: byte, n: nat): seq<byte> {
    if n == 0 then []
    else
      NalTypesBelow(s, behind, n - 1) + if StartCodeAt(s, n - 1) then [NalTypeAt(s, behind, n - 1)] else []
  }

  function NalTypes(s: seq<byte>, behind: byte): seq<byte> {
    NalTypesBelow(s, behind, |s|)
  }

  /** The types a chained scan reports: each search starts at the byte behind the previous start code. */
  function ChainedTypes(s: seq<byte>, behind: byte, from: nat): seq<byte>
    requires from <= |s|
    decreases |s| - from
  {
    var q := NextStartCode(s, from);
    if q == |s| then [] else [NalTypeAt(s, behind, q)] + ChainedTypes(s, behind, q + 3)
  }

  /** Start codes cannot overlap, so a chained scan misses none. */
  lemma {:induction false} ChainVisitsAll(s: seq<byte>, behind: byte, from: nat)
    requires from <= |s|
    ensures NalTypesBelow(s, behind, |s|) == NalTypesBelow(s, behind, from) + ChainedTypes(s, behind, from)
    decreases |s| - from
  {
    var q := NextStartCode(s, from);
    SkipGap(s, behind, from, q);
    if q < |s| {
      assert !StartCodeAt(s, q + 1) && !StartCodeAt(s, q + 2);
      assert NalTypesBelow(s, behind, q + 1) == NalTypesBelow(s, behind, q) + [NalTypeAt(s, behind, q)];
      SkipGap(s, behind, q + 1, q + 3);
      ChainVisitsAll(s, behind, q + 3);
    }
  }

  lemma {:induction false} SkipGap(s: seq<byte>, behind: byte, a: nat, b: nat)
    requires a <= b && forall p :: a <= p < b ==> !StartCodeAt(s, p)
    ensures NalTypesBelow(s, behind, b) == NalTypesBelow(s, behind, a)
  {
    if a < b {
      SkipGap(s, behind, a, b - 1);
    }
  }

  // ------------------------------------------------------------------ what becomes of a frame

  datatype Decision = PassThrough | Drop | RememberSps | RememberPps | Assemble

  /** The decision depends only on the types of the first three units and on what is cached. */
  function Decide(types: seq<byte>, cached: bool): Decision {
    if types == [] then PassThrough
    else if types[0] == SPS then
      if |types| == 1 then RememberSps
      else if types[1] != PPS then Drop
      else if |types| == 2 then RememberPps
      else if types[2] == SLICE_IDR then PassThrough
      else Drop
    else if types[0] == SLICE_IDR then
      if cached then Assemble else Drop
    else PassThrough
  }

  /** The searches come to the last of these units: the first, the one behind an SPS, or the one behind SPS and PPS. */
  predicate Reached(types: seq<byte>) {
    || |types| == 1
    || (|types| == 2 && types[0] == SPS)
    || (|types| == 3 && types[0] == SPS && types[1] == PPS)
  }

  /** The byte behind the frame is read: the frame ends in a start code, and the searches reach it. */
  predicate LooksBehind(s: seq<byte>, behind: byte) {
    StartCodeAt(s, |s| - 3) && Reached(NalTypes(s, behind))
  }

  /** A search finds the code that ends the frame exactly when it is the only one left. */
  lemma LastCodeFound(s: seq<byte>, behind: byte, from: nat)
    requires from <= |s|
    ensures NextStartCode(s, from) == |s| - 3 <==>
            from <= |s| - 3 && StartCodeAt(s, |s| - 3) && |ChainedTypes(s, behind, from)| == 1
    ensures from <= |s| - 3 && StartCodeAt(s, |s| - 3) ==> ChainedTypes(s, behind, from) != []
  {
    var q := NextStartCode(s, from);
    if q < |s| - 3 && StartCodeAt(s, |s| - 3) {
      assert !StartCodeAt(s, q + 1) && !StartCodeAt(s, q + 2);
      assert NextStartCode(s, q + 3) <= |s| - 3;
    }
  }

  /** Whatever lies behind the frame, the units are the same but for the type of one that starts at its very end. */
  lemma {:induction false} SameTypesBelow(s: seq<byte>, behind: byte, other: byte, n: nat)
    requires n <= |s|
    ensures |NalTypesBelow(s, behind, n)| == |NalTypesBelow(s, other, n)|
    ensures n <= |s| - 3 || !StartCodeAt(s, |s| - 3) ==> NalTypesBelow(s, behind, n) == NalTypesBelow(s, other, n)
    ensures forall i :: 0 <= i < |NalTypesBelow(s, behind, n)| - 1 ==>
              NalTypesBelow(s, behind, n)[i] == NalTypesBelow(s, other, n)[i]
  {
    if n > 0 {
      SameTypesBelow(s, behind, other, n - 1);
    }
  }

  /** So the outcome depends on that byte only when it is read. */
  lemma OutcomeWithoutLooking(s: seq<byte>, behind: byte, other: byte, cached: bool)
    ensures LooksBehind(s, behind) <==> LooksBehind(s, other)
    ensures !LooksBehind(s, behind) ==> Decide(NalTypes(s, behind), cached) == Decide(NalTypes(s, other), cached)
  {
    SameTypesBelow(s, behind, other, |s|);
  }

  datatype Output = Same | Nothing | Combined(data: array<byte>, size: nat)

  /** A four-byte start code at `p`. */
  predicate LongCodeAt(s: seq<byte>, p: int) { 0 <= p < |s| && s[p] == 0 && StartCodeAt(s, p + 1) }

  /**
   * The scan at the head of H264GetNALBlock: the first start code at or behind `base`, which is the start of the
   * frame or lies behind another start code. `behind` is what memory holds behind the frame; `looked` says whether it
   * was read.
   */
  method GetNalBlock(data: array<byte>, base: nat, size: nat, behind: byte)
    returns (found: bool, nalType: byte, nextPos: nat, ghost looked: bool)
    requires base + size == data.Length && (base > 0 ==> data[base - 1] != 0)
    ensures found <==> NextStartCode(data[..], base) < data.Length
    ensures found ==>
              && base + nextPos == NextStartCode(data[..], base) + 3 && 0 < nextPos && data[base + nextPos - 1] == 1
              && nalType == NalTypeAt(data[..], behind, NextStartCode(data[..], base))
    ensures looked <==> NextStartCode(data[..], base) == data.Length - 3
  {
    found, nalType, nextPos, looked := false, 0, 0, false;
    ghost var s := data[..];
    var ind := 0;
    while ind + 4 <= size
      invariant base + ind <= data.Length
      invariant forall p :: base <= p < base + ind ==> !StartCodeAt(s, p) && !LongCodeAt(s, p)
      decreases size - ind
    {
      if data[base + ind] == 0 && data[base + ind + 1] == 0 && data[base + ind + 2] == 1 {
        ind := ind + 3;
        found := true;
        break;
      }
      if data[base + ind] == 0 && data[base + ind + 1] == 0 && data[base + ind + 2] == 0 && data[base + ind + 3] == 1 {
        assert StartCodeAt(s, base + ind + 1);
        ind := ind + 4;
        found := true;
        break;
      }
      ind := ind + 1;
    }
    if found {
      assert StartCodeAt(s, base + ind - 3);
      NextStartCodeIs(s, base, base + ind - 3);
      if base + ind < data.Length {
        nalType := data[base + ind] % 32;
      } else {
        nalType := behind % 32;
        looked := true;
      }
      nextPos := ind;
    } else {
      NoneLeft(s, base, base + ind);
      NextStartCodeIs(s, base, data.Length);
    }
  }

  /** The last three bytes cannot hold a start code when the four before their end do not. */
  lemma NoneLeft(s: seq<byte>, base: nat, at: nat)
    requires base <= at <= |s| < at + 4 && (base > 0 ==> s[base - 1] != 0)
    requires forall p :: base <= p < at ==> !StartCodeAt(s, p) && !LongCodeAt(s, p)
    ensures forall p :: base <= p ==> !StartCodeAt(s, p)
  {
    forall p | at <= p
      ensures !StartCodeAt(s, p)
    {
      if StartCodeAt(s, p) {
        assert p == |s| - 3 == at && LongCodeAt(s, p - 1);
      }
    }
  }

  lemma {:induction false} NextStartCodeIs(s: seq<byte>, from: nat, q: nat)
    requires from <= q <= |s| && (q < |s| ==> StartCodeAt(s, q))
    requires forall p :: from <= p < q ==> !StartCodeAt(s, p)
    ensures NextStartCode(s, from) == q
  {
  }

  /**
   * The searches of H264FrameProcData: up to three start codes, and once more where a cache should be filled. `looked`
   * says whether one of them read the byte behind the frame.
   */
  method Classify(data: array<byte>, behind: byte) returns (decision: Decision, ghost looked: bool)
    ensures decision == Decide(NalTypes(data[..], behind), true)
    ensures looked <==> LooksBehind(data[..], behind)
  {
    ghost var frame := data[..];
    ChainVisitsAll(frame, behind, 0);
    assert NalTypes(frame, behind) == ChainedTypes(frame, behind, 0);
    LastCodeFound(frame, behind, 0);
    var found, nalType, nextPos;
    found, nalType, nextPos, looked := GetNalBlock(data, 0, data.Length, behind);
    if !found {
      return PassThrough, looked;
    }
    ghost var rest := ChainedTypes(frame, behind, nextPos);
    assert NalTypes(frame, behind) == [nalType] + rest;
    if nalType == SPS {
      ghost var again;
      decision, again := ClassifyBehindSps(data, behind, nextPos);
      LastCodeFound(frame, behind, nextPos);
      return decision, looked || again;
    } else if nalType == SLICE_IDR {
      return Assemble, looked;
    }
    return PassThrough, looked;
  }

  /** The searches behind an SPS. */
  method ClassifyBehindSps(data: array<byte>, behind: byte, sps: nat) returns (decision: Decision, ghost looked: bool)
    requires 0 < sps <= data.Length && data[sps - 1] != 0
    ensures decision == Decide([SPS] + ChainedTypes(data[..], behind, sps), true)
    ensures looked <==>
            && sps <= data.Length - 3 && StartCodeAt(data[..], data.Length - 3)
            && Reached([SPS] + ChainedTypes(data[..], behind, sps)) && ChainedTypes(data[..], behind, sps) != []
  {
    ghost var frame, rest := data[..], ChainedTypes(data[..], behind, sps);
    LastCodeFound(frame, behind, sps);
    var found, nalType, nextPos;
    found, nalType, nextPos, looked := GetNalBlock(data, sps, data.Length - sps, behind);
    ghost var again;
    if !found {
      // The call that should fill the SPS cache searches the same bytes again and copies nothing.
      found, nalType, nextPos, again := GetNalBlock(data, sps, data.Length - sps, behind);
      return RememberSps, looked || again;
    }
    if nalType == PPS {
      var pps := sps + nextPos;
      ghost var behindPps := ChainedTypes(frame, behind, pps);
      assert rest == [PPS] + behindPps;
      LastCodeFound(frame, behind, pps);
      found, nalType, nextPos, again := GetNalBlock(data, pps, data.Length - pps, behind);
      looked := looked || again;
      if !found {
        found, nalType, nextPos, again := GetNalBlock(data, pps, data.Length - pps, behind);
        return RememberPps, looked || again;
      }
      if nalType == SLICE_IDR {
        return PassThrough, looked;
      }
    }
    decision := Drop;
  }

  /** A frame with these unit types and no other was processed. */
  predicate SawLoneSps(seen: seq<seq<byte>>) { [SPS] in seen }

  predicate SawLonePps(seen: seq<seq<byte>>) { [SPS, PPS] in seen }

  function Zeros(n: nat): (z: seq<byte>)
    ensures |z| == n && forall k :: 0 <= k < n ==> z[k] == 0
  {
    seq(n, k => 0)
  }

  /** Room for `n` bytes in whole kilobytes. */
  function RoundUp1024(n: u32): (r: int)
    ensures n <= r < n + 1024 && r % 1024 == 0
  {
    if n % 1024 != 0 then (n / 1024 + 1) * 1024 else n
  }

  /** The size of an assembled frame, rounded up, is a 32-bit number. */
  predicate SizeFits(length: nat) { length + 2 * CACHE_BYTES + 1024 <= TWO32 }

  /** The room for both parameter sets and a frame. */
  function Need(length: nat): nat
    requires SizeFits(length)
  {
    RoundUp1024(2 * CACHE_BYTES + length)
  }

  class FrameCache {
    const dataSps: array<byte>
    const dataPps: array<byte>
    var sizeSps: nat
    var sizePps: nat
    var frameBuffer: array?<byte>
    var frameSize: nat
    ghost var seen: seq<seq<byte>>   // the unit types of the frames processed since the cache was last cleaned

    /**
     * Something counts as cached exactly when a frame with an SPS, or an SPS and a PPS, and nothing else was seen. The
     * cached bytes are zero and stay so.
     */
    ghost predicate Valid()
      reads this, frameBuffer, dataSps, dataPps
    {
      && dataSps[..] == Zeros(CACHE_BYTES) && dataPps[..] == Zeros(CACHE_BYTES)
      && dataSps.Length == CACHE_BYTES && dataPps.Length == CACHE_BYTES && dataSps != dataPps
      && frameBuffer != dataSps && frameBuffer != dataPps
      && sizeSps == (if SawLoneSps(seen) then CACHE_BYTES else 0)
      && sizePps == (if SawLonePps(seen) then CACHE_BYTES else 0)
      && (if frameBuffer == null then frameSize == 0 else frameSize == frameBuffer.Length)
    }

    /** H264_FRAME_PROC_CACHE_INIT. */
    constructor ()
      ensures Valid() && seen == [] && frameBuffer == null
      ensures fresh(dataSps) && fresh(dataPps)
    {
      dataSps := new byte[CACHE_BYTES](_ => 0);
      dataPps := new byte[CACHE_BYTES](_ => 0);
      sizeSps, sizePps, frameBuffer, frameSize, seen := 0, 0, null, 0, [];
      new;
      assert dataSps[..] == Zeros(CACHE_BYTES) && dataPps[..] == Zeros(CACHE_BYTES);
    }

    /** H264FrameProcClean. */
    method Clean()
      requires Valid()
      modifies this
      ensures Valid() && seen == [] && frameBuffer == null
    {
      if frameBuffer != null {
        frameBuffer := null;
      }
      sizeSps, sizePps, frameSize, seen := 0, 0, 0, [];
    }

    predicate HasRoom(need: nat)
      reads this`frameBuffer, this`frameSize
    {
      frameBuffer != null && need <= frameSize
    }

    /**
     * A frame buffer of at least `need` bytes: kept when large enough, else replaced. `malloc` says whether an
     * allocation succeeds.
     */
    method Reserve(need: nat, malloc: bool) returns (ok: bool)
      requires Valid() && need > 0
      modifies this`frameBuffer, this`frameSize
      ensures Valid()
      ensures ok <==> malloc || old(HasRoom(need))
      ensures ok ==> frameBuffer != null && need <= frameSize
      ensures frameBuffer == old(frameBuffer) || frameBuffer == null || fresh(frameBuffer)
      ensures old(HasRoom(need)) ==> frameBuffer == old(frameBuffer)
    {
      if need > frameSize {
        if frameBuffer != null {
          frameBuffer := null;
          frameSize := 0;
        }
      }
      if frameBuffer == null {
        if !malloc {
          return false;
        }
        frameBuffer := new byte[need];
        frameSize := need;
      }
      ok := true;
    }

    /** H264FrameProcData. */
    method FrameProcData(data: array<byte>, behind: byte, malloc: bool) returns (output: Output, ghost looked: bool)
      requires Valid() && data != frameBuffer && data != dataSps && data != dataPps
      requires var types := NalTypes(data[..], behind);
               types != [] && types[0] == 5 && [7] in seen && [7, 8] in seen ==> SizeFits(data.Length)
      modifies this, frameBuffer
      ensures Valid() && seen == old(seen) + [NalTypes(data[..], behind)] && data[..] == old(data[..])
      ensures looked <==> LooksBehind(data[..], behind)
      ensures var types := NalTypes(data[..], behind);
              && (output == Same <==> types == [] || types[0] !in {5, 7} || (|types| >= 3 && types[..3] == [7, 8, 5]))
              && (output.Combined? <==>
                    && types != [] && types[0] == 5 && [7] in old(seen) && [7, 8] in old(seen)
                    && (malloc || old(HasRoom(Need(data.Length)))))
      ensures output.Combined? ==>
                && output.size == 256 + data.Length <= output.data.Length
                && output.data[..output.size] == Zeros(256) + data[..]
      ensures sizeSps == (if [7] in seen then 128 else 0) && sizePps == (if [7, 8] in seen then 128 else 0)
      ensures frameBuffer == old(frameBuffer) || frameBuffer == null || fresh(frameBuffer)
    {
      ghost var cached, types := SawLoneSps(seen) && SawLonePps(seen), NalTypes(data[..], behind);
      SeenGrows(seen, types);
      seen := seen + [types];
      var decision;
      decision, looked := Classify(data, behind);
      match decision {
        case PassThrough =>
          output := Same;
        case Drop =>
          output := Nothing;
        case RememberSps =>
          sizeSps := dataSps.Length;
          output := Nothing;
        case RememberPps =>
          sizePps := dataPps.Length;
          output := Nothing;
        case Assemble =>
          if sizeSps != 0 && sizePps != 0 {
            output := Combine(data, malloc);
          } else {
            output := Nothing;
          }
      }
    }

    /** The cached parameter sets and the frame, one behind the other in the cache's own buffer. */
    method Combine(data: array<byte>, malloc: bool) returns (output: Output)
      requires Valid() && sizeSps == sizePps == CACHE_BYTES
      requires data != frameBuffer && data != dataSps && data != dataPps && SizeFits(data.Length)
      modifies this`frameBuffer, this`frameSize, frameBuffer
      ensures Valid()
      ensures data[..] == old(data[..])
      ensures frameBuffer == old(frameBuffer) || frameBuffer == null || fresh(frameBuffer)
      ensures if !malloc && !old(HasRoom(Need(data.Length))) then output == Nothing
              else
                && output.Combined? && output.data == frameBuffer
                && output.size == 2 * CACHE_BYTES + data.Length <= output.data.Length
                && output.data[..output.size] == Zeros(2 * CACHE_BYTES) + data[..]
    {
      var need := RoundUp1024(sizeSps + sizePps + data.Length);
      var ok := Reserve(need, malloc);
      if !ok {
        return Nothing;
      }
      var size := 0;
      CopyBytes(frameBuffer, size, dataSps, sizeSps);
      size := size + sizeSps;
      assert frameBuffer[..size] == dataSps[..];
      CopyBytes(frameBuffer, size, dataPps, sizePps);
      size := size + sizePps;
      assert frameBuffer[..size] == frameBuffer[..CACHE_BYTES] + frameBuffer[CACHE_BYTES..size];
      assert frameBuffer[..size] == dataSps[..] + dataPps[..];
      assert frameBuffer[..size] == Zeros(2 * CACHE_BYTES);
      CopyBytes(frameBuffer, size, data, data.Length);
      assert frameBuffer[..size + data.Length] == frameBuffer[..size] + frameBuffer[size..size + data.Length];
      size := size + data.Length;
      output := Combined(frameBuffer, size);
    }
  }

  lemma SeenGrows(seen: seq<seq<byte>>, types: seq<byte>)
    ensures SawLoneSps(seen + [types]) <==> SawLoneSps(seen) || types == [SPS]
    ensures SawLonePps(seen + [types]) <==> SawLonePps(seen) || types == [SPS, PPS]
  {
  }

  method CopyBytes(dst: array<byte>, offset: nat, src: array<byte>, count: nat)
    requires dst != src && offset + count <= dst.Length && count <= src.Length
    modifies dst
    ensures dst[..offset] == old(dst[..offset])
    ensures dst[offset..offset + count] == src[..count]
  {
    for i := 0 to count
      invariant dst[..offset] == old(dst[..offset])
      invariant dst[offset..offset + i] == src[..i]
    {
      dst[offset + i] := src[i];
    }
  }
}
