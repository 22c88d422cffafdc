/** The WAV writer of src/camera/pgWaveFile.c, against a parser of RIFF files. */
module WaveFile {
  import opened CIntegers
  import opened Strings

  // ------------------------------------------------------------------ numbers in files

  function Le16(x: u16): seq<byte> { [x % 256, x / 256] }

  function Le32(x: u32): seq<byte> { [x % 256, x / 256 % 256, x / 65536 % 256, x / 16777216] }

  function Value16(b: seq<byte>): u16
    requires |b| == 2
  {
    (b[0] as int) + 256 * (b[1] as int)
  }

  function Value32(b: seq<byte>): u32
    requires |b| == 4
  {
    (b[0] as int) + 256 * (b[1] as int) + 65536 * (b[2] as int) + 16777216 * (b[3] as int)
  }

  lemma ValueOfLe16(x: u16)
    ensures Value16(Le16(x)) == x
  {
  }

  lemma ValueOfLe32(x: u32)
    ensures Value32(Le32(x)) == x
  {
    assert x / 65536 == x / 256 / 256 && x / 16777216 == x / 65536 / 256;
  }

  // ------------------------------------------------------------------ a parser of RIFF files

  function Riff(): seq<byte> { [0x52, 0x49, 0x46, 0x46] }
  function Wave(): seq<byte> { [0x57, 0x41, 0x56, 0x45] }
  function Fmt(): seq<byte> { [0x66, 0x6D, 0x74, 0x20] }
  function Data(): seq<byte> { [0x64, 0x61, 0x74, 0x61] }

  datatype Chunk = Chunk(id: seq<byte>, payload: seq<byte>)

  /** The chunks of a RIFF body, each padded to an even length. */
  function Chunks(body: seq<byte>): Option<seq<Chunk>> {
    if body == [] then Some([])
    else if |body| < 8 then None
    else
      var size := Value32(body[4..8]);
      var end := 8 + size + size % 2;
      if end > |body| then None
      else
        match Chunks(body[end..])
        case None => None
        case Some(rest) => Some([Chunk(body[..4], body[8..8 + size])] + rest)
  }

  /** The payload of the first chunk of a kind. */
  function Find(chunks: seq<Chunk>, id: seq<byte>): Option<seq<byte>> {
    if chunks == [] then None
    else if chunks[0].id == id then Some(chunks[0].payload)
    else Find(chunks[1..], id)
  }

  /** The fields of a format chunk. */
  datatype Format = Format(tag: u16, channels: u16, samplesPerSec: u32, avgBytesPerSec: u32,
                           blockAlign: u16, bitsPerSample: u16, sizeByte: u16)

  function ParseFormat(b: seq<byte>): Option<Format> {
    if |b| < 18 then None
    else Some(Format(Value16(b[0..2]), Value16(b[2..4]), Value32(b[4..8]), Value32(b[8..12]),
                     Value16(b[12..14]), Value16(b[14..16]), Value16(b[16..18])))
  }

  datatype Sound = Sound(format: Format, data: seq<byte>)

  /** A RIFF file of type WAVE whose length field agrees with the file, with a format and a data chunk. */
  function Parse(file: seq<byte>): Option<Sound> {
    if |file| < 12 || file[..4] != Riff() || file[8..12] != Wave() || Value32(file[4..8]) != |file| - 8 then None
    else
      match Chunks(file[12..])
      case None => None
      case Some(chunks) =>
        match (Find(chunks, Fmt()), Find(chunks, Data()))
        case (Some(fmt), Some(data)) =>
          (match ParseFormat(fmt)
           case Some(format) => Some(Sound(format, data))
           case None => None)
        case _ => None
  }

  // ------------------------------------------------------------------ the file on disk

  function Overwrite(bytes: seq<byte>, at: nat, data: seq<byte>): seq<byte>
    requires at <= |bytes|
  {
    bytes[..at] + data + if at + |data| < |bytes| then bytes[at + |data|..] else []
  }

  /** The part of the data that a device taking at most `limit` bytes accepts. */
  function Accepted(data: seq<byte>, limit: nat): (taken: seq<byte>)
    ensures |taken| <= |data|
  {
    if |data| <= limit then data else data[..limit]
  }

  /** A file on a device whose k-th write call takes at most `device(k)` bytes. */
  class File {
    const device: nat -> nat
    var bytes: seq<byte>
    var cursor: nat
    var calls: nat

    constructor (device: nat -> nat)
      ensures this.device == device && bytes == [] && cursor == 0 && calls == 0
    {
      this.device := device;
      bytes, cursor, calls := [], 0, 0;
    }

    method Fwrite(data: seq<byte>) returns (count: nat)
      requires cursor <= |bytes|
      modifies this
      ensures count == |Accepted(data, device(old(calls)))| && calls == old(calls) + 1
      ensures bytes == Overwrite(old(bytes), old(cursor), Accepted(data, device(old(calls))))
      ensures old(cursor) == |old(bytes)| ==> bytes == old(bytes) + Accepted(data, device(old(calls)))
      ensures cursor == old(cursor) + count
    {
      var taken := Accepted(data, device(calls));
      count := |taken|;
      bytes := Overwrite(bytes, cursor, taken);
      cursor := cursor + count;
      calls := calls + 1;
    }
  }

  // ------------------------------------------------------------------ the writer

  /** Bits of a sample in the formats the writer knows: unknown, PCM, A-law, mu-law. */
  function BitsOf(uFormat: u32): u16 {
    if uFormat == 0 || uFormat == 1 then 16 else if uFormat == 6 || uFormat == 7 then 8 else 0
  }

  predicate Known(uFormat: u32) { uFormat in {0, 1, 6, 7} }

  function OpenedFormat(uFormat: u32, uSampleRate: u32): Format {
    var bytes := BitsOf(uFormat) / 8;
    Format(uFormat % TWO16, 1, uSampleRate, Wrap(uSampleRate * bytes), bytes, BitsOf(uFormat), 0)
  }

  function FormatBytes(f: Format): (b: seq<byte>)
    ensures |b| == 18
  {
    Le16(f.tag) + Le16(f.channels) + Le32(f.samplesPerSec) + Le32(f.avgBytesPerSec)
    + Le16(f.blockAlign) + Le16(f.bitsPerSample) + Le16(f.sizeByte)
  }

  /** The header between its two length fields. */
  function Middle(f: Format): (b: seq<byte>)
    ensures |b| == 34
  {
    Wave() + (Fmt() + Le32(18) + FormatBytes(f)) + Data()
  }

  /** The header with the two length fields the writer patches at close. */
  function Header(f: Format, total: u32, size: u32): (b: seq<byte>)
    ensures |b| == 46
  {
    Riff() + Le32(total) + Middle(f) + Le32(size)
  }

  function Text(b: seq<byte>): (t: string)
    ensures |t| == |b| && forall i :: 0 <= i < |b| ==> t[i] == b[i] as char
  {
    seq(|b|, i requires 0 <= i < |b| => b[i] as char)
  }

  /** The header byte by byte, as the format lays it out: names in ASCII and numbers with the lowest byte first. */
  lemma HeaderLayout(f: Format, total: u32, size: u32)
    ensures var h := Header(f, total, size);
            && Text(h[..4]) == "RIFF" && Text(h[8..16]) == "WAVEfmt " && Text(h[38..42]) == "data"
            && Number32(h, 4) == total && Number32(h, 16) == 18 && Number32(h, 42) == size
            && Number16(h, 20) == f.tag && Number16(h, 22) == f.channels
            && Number32(h, 24) == f.samplesPerSec && Number32(h, 28) == f.avgBytesPerSec
            && Number16(h, 32) == f.blockAlign && Number16(h, 34) == f.bitsPerSample && Number16(h, 36) == f.sizeByte
  {
    var h, b := Header(f, total, size), FormatBytes(f);
    assert h[..4] == Riff() && h[8..16] == Wave() + Fmt() && h[38..42] == Data();
    assert h[4..8] == Le32(total) && h[16..20] == Le32(18) && h[20..38] == b && h[42..46] == Le32(size);
    FormatLayout(f);
    NumberOf32(h, 4, total);
    NumberOf32(h, 16, 18);
    NumberOf32(h, 42, size);
    assert forall k :: 0 <= k < 18 ==> h[20 + k] == h[20..38][k];
  }

  function Number16(s: seq<byte>, at: nat): int
    requires at + 2 <= |s|
  {
    (s[at] as int) + 256 * (s[at + 1] as int)
  }

  function Number32(s: seq<byte>, at: nat): int
    requires at + 4 <= |s|
  {
    Number16(s, at) + 65536 * Number16(s, at + 2)
  }

  lemma NumberOf32(s: seq<byte>, at: nat, x: u32)
    requires at + 4 <= |s| && s[at..at + 4] == Le32(x)
    ensures Number32(s, at) == x
  {
    var part := s[at..at + 4];
    assert part[0] == s[at] && part[1] == s[at + 1] && part[2] == s[at + 2] && part[3] == s[at + 3];
    ValueOfLe32(x);
  }

  lemma FormatLayout(f: Format)
    ensures var b := FormatBytes(f);
            && Number16(b, 0) == f.tag && Number16(b, 2) == f.channels
            && Number32(b, 4) == f.samplesPerSec && Number32(b, 8) == f.avgBytesPerSec
            && Number16(b, 12) == f.blockAlign && Number16(b, 14) == f.bitsPerSample && Number16(b, 16) == f.sizeByte
  {
    ValueOfLe32(f.samplesPerSec);
    ValueOfLe32(f.avgBytesPerSec);
  }

  /** One channel of 16-bit samples for the tags 0 and 1, of 8-bit samples for 6 and 7, and no other format. */
  lemma OpenedAs(uFormat: u32, uSampleRate: u32)
    ensures var f := OpenedFormat(uFormat, uSampleRate);
            && (f.bitsPerSample != 0 <==> uFormat in {0, 1, 6, 7})
            && (uFormat in {0, 1, 6, 7} ==>
                  && f.tag == uFormat && f.channels == 1 && f.sizeByte == 0 && f.samplesPerSec == uSampleRate
                  && f.bitsPerSample == (if uFormat <= 1 then 16 else 8) && 8 * f.blockAlign == f.bitsPerSample
                  && f.avgBytesPerSec == (uSampleRate * f.blockAlign) % 0x1_0000_0000)
  {
  }

  /** The bytes of all accepted writes. */
  function Concat(writes: seq<seq<byte>>): seq<byte> {
    if writes == [] then [] else Concat(writes[..|writes| - 1]) + writes[|writes| - 1]
  }

  /** Addition of unsigned ints. */
  function Add32(x: u32, y: u32): u32 { if x + y < TWO32 then x + y else x + y - TWO32 }

  function CountUp(counter: u32, length: nat): u32 { if length <= INT_MAX then Add32(counter, length) else counter }

  lemma CountIfPositive(counter: u32, length: u32)
    ensures CountUp(counter, length) == if ToInt(length) > 0 then Add32(counter, ToInt(length)) else counter
  {
  }

  /** What the 32-bit counter makes of them: a write whose count is negative as an int is not added. */
  function Counted(writes: seq<seq<byte>>): u32 {
    if writes == [] then 0 else CountUp(Counted(writes[..|writes| - 1]), |writes[|writes| - 1]|)
  }

  function Closed(f: Format, writes: seq<seq<byte>>): seq<byte> {
    Header(f, Add32(38, Counted(writes)), Counted(writes)) + Concat(writes)
  }

  /** The lengths of the eight writes of the header. */
  function PieceLength(k: nat): nat { if k == 5 then 18 else 4 }

  /** The last four of them. */
  function FormatPart(f: Format): seq<byte> { Le32(18) + (FormatBytes(f) + (Data() + Le32(0))) }

  lemma HeaderInPieces(f: Format)
    ensures Header(f, 0, 0) == Riff() + (Le32(0) + (Wave() + (Fmt() + FormatPart(f))))
  {
    var fmt, end := Fmt() + Le32(18) + FormatBytes(f), Data() + Le32(0);
    assert Fmt() + FormatPart(f) == fmt + end;
    assert Header(f, 0, 0) == Riff() + (Le32(0) + (Wave() + (fmt + end)));
  }

  /** The header writes `from` to `to`, of which the first is the device's call `first`, are all complete. */
  ghost predicate PiecesTaken(device: nat -> nat, first: nat, from: nat, to: nat) {
    forall j :: first + from <= j < first + to ==> PieceLength(j - first) <= device(j)
  }

  /** What is accepted of the next piece of a header keeps a part of that header. */
  lemma TakePiece(bytes: seq<byte>, piece: seq<byte>, rest: seq<byte>, limit: nat)
    ensures var taken := Accepted(piece, limit);
            && bytes + taken <= bytes + (piece + rest)
            && (|piece| <= limit ==> (bytes + taken) + rest == bytes + (piece + rest))
            && (|piece| <= limit <==> |taken| >= |piece|)
  {
    assert Accepted(piece, limit) <= piece + rest;
  }

  class WaveWriter {
    var pFile: File?
    var uDataSize: u32
    ghost var format: Format
    ghost var writes: seq<seq<byte>>

    /** Between a successful open and close: an unpatched header and the accepted bytes, the cursor at the end. */
    ghost predicate Recording()
      reads this, pFile
    {
      pFile != null && pFile.cursor == |pFile.bytes| &&
      pFile.bytes == Header(format, 0, 0) + Concat(writes) && uDataSize == Counted(writes)
    }

    /** pgWaveFileZero. */
    constructor ()
      ensures pFile == null && uDataSize == 0
    {
      pFile, uDataSize := null, 0;
      format, writes := Format(0, 0, 0, 0, 0, 0, 0), [];
    }

    /** One fwrite of the header at the end of the file; a short one fails. */
    method PutHeader(piece: seq<byte>, ghost rest: seq<byte>, ghost header: seq<byte>) returns (ok: bool)
      requires pFile != null && pFile.cursor == |pFile.bytes| && pFile.bytes + (piece + rest) == header
      modifies pFile
      ensures ok <==> |piece| <= pFile.device(old(pFile.calls))
      ensures pFile.cursor == |pFile.bytes| && pFile.calls == old(pFile.calls) + 1
      ensures pFile.bytes <= header
      ensures ok ==> pFile.bytes + rest == header
    {
      TakePiece(pFile.bytes, piece, rest, pFile.device(pFile.calls));
      var iWrite := pFile.Fwrite(piece);
      ok := iWrite >= |piece|;
    }

    /** The first four pieces. */
    method PutRiff(ghost f: Format) returns (ok: bool)
      requires pFile != null && pFile.cursor == 0 && pFile.bytes == []
      modifies pFile
      ensures ok <==> PiecesTaken(pFile.device, old(pFile.calls), 0, 4)
      ensures pFile.cursor == |pFile.bytes| && pFile.bytes <= Header(f, 0, 0)
      ensures ok ==> pFile.calls == old(pFile.calls) + 4 && pFile.bytes + FormatPart(f) == Header(f, 0, 0)
    {
      ghost var header := Header(f, 0, 0);
      HeaderInPieces(f);
      ghost var body := Wave() + (Fmt() + FormatPart(f));
      assert [] + (Riff() + (Le32(0) + body)) == header;
      ok := PutHeader(Riff(), Le32(0) + body, header);
      if !ok { return; }
      ok := PutHeader(Le32(0), body, header);
      if !ok { return; }
      ok := PutHeader(Wave(), Fmt() + FormatPart(f), header);
      if !ok { return; }
      ok := PutHeader(Fmt(), FormatPart(f), header);
    }

    /** The last four pieces. */
    method PutFormat(f: Format) returns (ok: bool)
      requires pFile != null && pFile.cursor == |pFile.bytes| && pFile.bytes + FormatPart(f) == Header(f, 0, 0)
      requires pFile.calls >= 4
      modifies this`uDataSize, pFile
      ensures ok <==> PiecesTaken(pFile.device, old(pFile.calls) - 4, 4, 8)
      ensures pFile.cursor == |pFile.bytes| && pFile.bytes <= Header(f, 0, 0)
      ensures ok ==> pFile.bytes == Header(f, 0, 0) && uDataSize == 0
    {
      ghost var header := Header(f, 0, 0);
      ghost var end := Data() + Le32(0);
      ok := PutHeader(Le32(18), FormatBytes(f) + end, header);
      if !ok { return; }
      ok := PutHeader(FormatBytes(f), end, header);
      if !ok { return; }
      ok := PutHeader(Data(), Le32(0), header);
      if !ok { return; }
      uDataSize := 0;
      assert Le32(0) + [] == Le32(0);
      ok := PutHeader(Le32(0), [], header);
    }

    /** pgWaveFileOpen: fopen succeeds when `opens`; any short write or an unknown format closes the file again. */
    method Open(file: File, opens: bool, uFormat: u32, uSampleRate: u32) returns (uRes: int)
      modifies this, file
      ensures uRes == 1 || (uRes == 0 && pFile == null)
      ensures uRes == 1 <==> opens && Known(uFormat) && PiecesTaken(file.device, old(file.calls), 0, 8)
      ensures uRes == 1 ==> pFile == file && Recording() && format == OpenedFormat(uFormat, uSampleRate) && writes == []
      ensures opens ==> file.bytes <= Header(OpenedFormat(uFormat, uSampleRate), 0, 0)
      ensures !opens ==> file.bytes == old(file.bytes)
    {
      uRes := 0;
      label attempt: {
        if !opens {
          pFile := null;
          break attempt;
        }
        pFile := file;
        file.bytes, file.cursor := [], 0;
        var stFmt := OpenedFormat(uFormat, uSampleRate);
        var ok := PutRiff(stFmt);
        if !ok || stFmt.bitsPerSample == 0 {
          break attempt;
        }
        ok := PutFormat(stFmt);
        if !ok {
          break attempt;
        }
        format, writes := stFmt, [];
        uRes := 1;
      }
      if uRes == 0 {
        pFile := null;
      }
    }

    /** pgWaveFileWrite: the accepted part of the data is appended, and -1 returned when no file is open. */
    method Write(lpData: seq<byte>) returns (iWrite: int)
      requires pFile == null || Recording()
      requires |lpData| < TWO32
      modifies this, pFile
      ensures pFile == old(pFile) && format == old(format)
      ensures pFile == null ==> iWrite == -1 && uDataSize == old(uDataSize) && writes == old(writes)
      ensures pFile != null ==> Recording()
      ensures pFile != null ==>
                var taken := Accepted(lpData, pFile.device(old(pFile.calls)));
                writes == old(writes) + [taken] && iWrite == ToInt(|taken|) && pFile.calls == old(pFile.calls) + 1
    {
      if pFile == null {
        return -1;
      }
      var count := pFile.Fwrite(lpData);
      iWrite := ToInt(count);
      CountIfPositive(uDataSize, count);
      if iWrite > 0 {
        uDataSize := Add32(uDataSize, iWrite);
      }
      ghost var taken := Accepted(lpData, pFile.device(old(pFile.calls)));
      AppendWrite(format, writes, taken);
      writes := writes + [taken];
    }

    /** pgWaveFileClose: both length fields are patched in place; complete patches leave the closed file. */
    method Close()
      requires pFile == null || Recording()
      modifies this, pFile
      ensures pFile == null && uDataSize == old(uDataSize)
      ensures old(pFile) != null ==>
                var file := old(pFile);
                var total, size := Add32(38, Counted(old(writes))), Counted(old(writes));
                var first := file.device(old(file.calls));
                var second := file.device(old(file.calls) + 1);
                && file.bytes == Overwrite(Overwrite(old(file.bytes), 4, Accepted(Le32(total), first)),
                                           42, Accepted(Le32(size), second))
                && (first >= 4 && second >= 4 ==> file.bytes == Closed(old(format), old(writes)))
    {
      if pFile != null {
        var uTotalSize := Add32(38, uDataSize);
        PatchHeader(format, uTotalSize, uDataSize, Concat(writes));
        pFile.cursor := 4;
        var iWrite := pFile.Fwrite(Le32(uTotalSize));
        pFile.cursor := 42;
        iWrite := pFile.Fwrite(Le32(uDataSize));
        pFile := null;
      }
    }
  }

  lemma {:induction false} AppendWrite(f: Format, writes: seq<seq<byte>>, taken: seq<byte>)
    ensures Concat(writes + [taken]) == Concat(writes) + taken
    ensures Counted(writes + [taken]) == CountUp(Counted(writes), |taken|)
    ensures (Header(f, 0, 0) + Concat(writes)) + taken == Header(f, 0, 0) + Concat(writes + [taken])
  {
    assert (writes + [taken])[..|writes|] == writes;
  }

  lemma OverwriteMiddle(before: seq<byte>, was: seq<byte>, now: seq<byte>, after: seq<byte>)
    requires |was| == |now|
    ensures Overwrite(before + was + after, |before|, now) == before + now + after
  {
  }

  lemma PatchHeader(f: Format, total: u32, size: u32, data: seq<byte>)
    ensures Overwrite(Overwrite(Header(f, 0, 0) + data, 4, Le32(total)), 42, Le32(size)) ==
            Header(f, total, size) + data
  {
    var tail := Middle(f) + Le32(0) + data;
    assert Header(f, 0, 0) + data == Riff() + Le32(0) + tail;
    OverwriteMiddle(Riff(), Le32(0), Le32(total), tail);
    var front := Riff() + Le32(total) + Middle(f);
    assert Riff() + Le32(total) + tail == front + Le32(0) + data;
    OverwriteMiddle(front, Le32(0), Le32(size), data);
  }

  // ------------------------------------------------------------------ reading back what was written

  lemma PieceAt(before: seq<byte>, piece: seq<byte>, after: seq<byte>)
    ensures (before + piece + after)[|before|..|before| + |piece|] == piece
  {
  }

  lemma ParseOfFormat(f: Format)
    ensures ParseFormat(FormatBytes(f)) == Some(f)
  {
    var front := Le16(f.tag) + Le16(f.channels) + Le32(f.samplesPerSec);
    var middle := Le32(f.avgBytesPerSec);
    var back := Le16(f.blockAlign) + Le16(f.bitsPerSample) + Le16(f.sizeByte);
    var b := FormatBytes(f);
    assert b == front + middle + back;
    assert b[0..2] == front[0..2] == Le16(f.tag);
    assert b[2..4] == front[2..4] == Le16(f.channels);
    assert b[4..8] == front[4..8] == Le32(f.samplesPerSec);
    PieceAt(front, middle, back);
    assert b[12..] == back;
    assert b[12..14] == back[0..2] == Le16(f.blockAlign);
    assert b[14..16] == back[2..4] == Le16(f.bitsPerSample);
    assert b[16..18] == back[4..6] == Le16(f.sizeByte);
    ValueOfLe16(f.tag);
    ValueOfLe16(f.channels);
    ValueOfLe32(f.samplesPerSec);
    ValueOfLe32(f.avgBytesPerSec);
    ValueOfLe16(f.blockAlign);
    ValueOfLe16(f.bitsPerSample);
    ValueOfLe16(f.sizeByte);
  }

  lemma {:induction false} EvenChunk(id: seq<byte>, payload: seq<byte>, rest: seq<byte>)
    requires |id| == 4 && |payload| < TWO32 && |payload| % 2 == 0
    ensures var body := id + Le32(|payload|) + payload + rest;
            Chunks(body) == match Chunks(rest)
                            case None => None
                            case Some(others) => Some([Chunk(id, payload)] + others)
  {
    var body := id + Le32(|payload|) + payload + rest;
    assert body[..4] == id && body[4..8] == Le32(|payload|);
    ValueOfLe32(|payload|);
    assert body[8..8 + |payload|] == payload && body[8 + |payload|..] == rest;
  }

  /** A last chunk of odd length lacks its padding byte. */
  lemma {:induction false} OddLastChunk(id: seq<byte>, payload: seq<byte>)
    requires |id| == 4 && |payload| < TWO32 && |payload| % 2 == 1
    ensures Chunks(id + Le32(|payload|) + payload) == None
  {
    var body := id + Le32(|payload|) + payload;
    assert body[4..8] == Le32(|payload|);
    ValueOfLe32(|payload|);
  }

  predicate AllCounted(writes: seq<seq<byte>>) { forall k :: 0 <= k < |writes| ==> |writes[k]| <= INT_MAX }

  /** The bytes in writes too long for an int. */
  function Missed(writes: seq<seq<byte>>): nat {
    if writes == [] then 0
    else
      var last := |writes[|writes| - 1]|;
      Missed(writes[..|writes| - 1]) + if last <= INT_MAX then 0 else last
  }

  lemma AddAfterWrap(x: int, y: u32)
    ensures Add32(Wrap(x), y) == Wrap(x + y)
  {
  }

  /** The counter falls behind by what was missed, and wraps. */
  lemma {:induction false} CountedIsLength(writes: seq<seq<byte>>)
    ensures Missed(writes) <= |Concat(writes)| && Counted(writes) == Wrap(|Concat(writes)| - Missed(writes))
    ensures Missed(writes) == 0 <==> AllCounted(writes)
  {
    if writes != [] {
      var init, last := writes[..|writes| - 1], writes[|writes| - 1];
      CountedIsLength(init);
      AddAfterWrap(|Concat(init)| - Missed(init), if |last| <= INT_MAX then |last| else 0);
      assert AllCounted(writes) <==> AllCounted(init) && |last| <= INT_MAX by {
        assert forall k :: 0 <= k < |init| ==> init[k] == writes[k];
      }
    }
  }

  /** No write is too long for an int and the whole file is within the 32-bit length field. */
  predicate LengthsFit(writes: seq<seq<byte>>) { AllCounted(writes) && |Concat(writes)| + 38 < TWO32 }

  lemma WrapExact(length: nat, missed: nat)
    requires missed <= length
    ensures Add32(38, Wrap(length - missed)) == 38 + length <==> missed == 0 && length + 38 < TWO32
  {
  }

  /** The patched RIFF length agrees with the file exactly when the lengths fit, and then so does the data length. */
  lemma {:induction false} LengthsAgree(f: Format, writes: seq<seq<byte>>)
    ensures |Closed(f, writes)| == 46 + |Concat(writes)|
    ensures Add32(38, Counted(writes)) == |Closed(f, writes)| - 8 <==> LengthsFit(writes)
    ensures LengthsFit(writes) ==> Counted(writes) == |Concat(writes)|
  {
    CountedIsLength(writes);
    WrapExact(|Concat(writes)|, Missed(writes));
  }

  lemma {:induction false} ChunksOfBody(f: Format, data: seq<byte>)
    requires |data| < TWO32
    ensures Chunks(Fmt() + Le32(18) + FormatBytes(f) + (Data() + Le32(|data|) + data)) ==
            if |data| % 2 == 0 then Some([Chunk(Fmt(), FormatBytes(f)), Chunk(Data(), data)]) else None
  {
    var last := Data() + Le32(|data|) + data;
    EvenChunk(Fmt(), FormatBytes(f), last);
    if |data| % 2 == 0 {
      EvenChunk(Data(), data, []);
      assert last + [] == last;
      assert [Chunk(Data(), data)] + [] == [Chunk(Data(), data)];
      assert [Chunk(Fmt(), FormatBytes(f))] + [Chunk(Data(), data)] ==
             [Chunk(Fmt(), FormatBytes(f)), Chunk(Data(), data)];
    } else {
      OddLastChunk(Data(), data);
    }
  }

  lemma PartsOfFile(f: Format, total: u32, size: u32, data: seq<byte>)
    ensures var file := Header(f, total, size) + data;
            && file[..4] == Riff() && file[4..8] == Le32(total) && file[8..12] == Wave()
            && file[12..] == Fmt() + Le32(18) + FormatBytes(f) + (Data() + Le32(size) + data)
  {
    var file := Header(f, total, size) + data;
    var body := Fmt() + Le32(18) + FormatBytes(f) + (Data() + Le32(size) + data);
    assert file == Riff() + Le32(total) + Wave() + body;
  }

  /** The closed file is a sound with the opened format and all accepted bytes, exactly when the lengths fit and the
      bytes are even in number; otherwise it is not a well-formed file at all. */
  lemma {:induction false} RoundTrip(f: Format, writes: seq<seq<byte>>)
    ensures Parse(Closed(f, writes)) ==
            if LengthsFit(writes) && |Concat(writes)| % 2 == 0 then Some(Sound(f, Concat(writes))) else None
  {
    var data := Concat(writes);
    PartsOfFile(f, Add32(38, Counted(writes)), Counted(writes), data);
    LengthsAgree(f, writes);
    ValueOfLe32(Add32(38, Counted(writes)));
    if LengthsFit(writes) {
      ChunksOfBody(f, data);
      if |data| % 2 == 0 {
        FindBoth(FormatBytes(f), data);
        ParseOfFormat(f);
      }
    }
  }

  lemma FindBoth(format: seq<byte>, data: seq<byte>)
    ensures Find([Chunk(Fmt(), format), Chunk(Data(), data)], Fmt()) == Some(format)
    ensures Find([Chunk(Fmt(), format), Chunk(Data(), data)], Data()) == Some(data)
  {
    assert Fmt()[0] != Data()[0];
    assert [Chunk(Fmt(), format), Chunk(Data(), data)][1..] == [Chunk(Data(), data)];
  }
}
