/**
 The WAVE files of the tools: the header `utils/tinycap.c` writes once a capture
 has ended, and the walk over the chunks with which `utils/tinyplay.c` reads a file.
 */
module WaveFile {
  import opened CTypes
  import opened FrameBytes
  import RingPointers
  import opened Wrappers

  type Byte = b: int | 0 <= b < 256

  const ID_RIFF := 0x4646_4952
  const ID_WAVE := 0x4556_4157
  const ID_FMT := 0x2074_6d66
  const ID_DATA := 0x6174_6164

  const FORMAT_PCM := 1
  const WAVE_FORMAT_IEEE_FLOAT := 3

  // ---------------------------------------------------------------- little-endian numbers

  function Le(v: nat, n: nat): (s: seq<Byte>)
    ensures |s| == n
  {
    if n == 0 then [] else [v % 256] + Le(v / 256, n - 1)
  }

  function Value(s: seq<Byte>): nat {
    if s == [] then 0 else s[0] + 256 * Value(s[1..])
  }

  function Range(n: nat): (r: nat)
    ensures r > 0
  {
    if n == 0 then 1 else 256 * Range(n - 1)
  }

  lemma {:induction false} ValueLe(v: nat, n: nat)
    requires v < Range(n)
    ensures Value(Le(v, n)) == v
  {
    if n > 0 {
      ValueLe(v / 256, n - 1);
      assert Le(v, n)[1..] == Le(v / 256, n - 1);
    }
  }

  /** The bytes of a number, the least significant first. */
  lemma {:induction false} LeBytes(v: nat, n: nat, i: nat)
    requires i < n
    ensures Le(v, n)[i] == v / Range(i) % 256
  {
    if i > 0 {
      LeBytes(v / 256, n - 1, i - 1);
      NestedQuotient(v, 256, Range(i - 1));
    }
  }

  lemma NestedQuotient(v: nat, a: nat, b: nat)
    requires 0 < a && 0 < b
    ensures a * b > 0 && v / a / b == v / (a * b)
  {
    var q, r := v / a, v % a;
    var p, t := q / b, q % b;
    assert v == q * a + r && q == p * b + t;
    assert v == p * (a * b) + (t * a + r) by {
      assert q * a == (p * b + t) * a == p * (a * b) + t * a;
    }
    MulMono(t, b - 1, a);
    assert a * b == (b - 1) * a + a;
    RingPointers.DivModUnique(v, p, t * a + r, a * b);
  }

  /** The identifiers spell RIFF, WAVE, fmt and data. */
  lemma Identifiers()
    ensures Le(ID_RIFF, 4) == [0x52, 0x49, 0x46, 0x46] && Le(ID_WAVE, 4) == [0x57, 0x41, 0x56, 0x45]
    ensures Le(ID_FMT, 4) == [0x66, 0x6d, 0x74, 0x20] && Le(ID_DATA, 4) == [0x64, 0x61, 0x74, 0x61]
  {
    hide Le;
    FourBytes(ID_RIFF);
    FourBytes(ID_WAVE);
    FourBytes(ID_FMT);
    FourBytes(ID_DATA);
  }

  lemma FourBytes(v: nat)
    ensures Le(v, 4) == [v % 256, v / 256 % 256, v / 256 / 256 % 256, v / 256 / 256 / 256 % 256]
  {
    hide Le;
    LeStep(v, 4);
    LeStep(v / 256, 3);
    LeStep(v / 256 / 256, 2);
    LeStep(v / 256 / 256 / 256, 1);
  }

  lemma LeStep(v: nat, n: nat)
    requires n > 0
    ensures Le(v, n) == [v % 256] + Le(v / 256, n - 1) && (n == 1 ==> Le(v / 256, 0) == [])
  {
  }

  lemma Widths()
    ensures Range(2) == 0x1_0000 && Range(4) == UINT_RANGE
  {
    assert Range(1) == 256;
    assert Range(3) == 0x100_0000;
  }

  // ---------------------------------------------------------------- what a file holds

  /** `struct chunk_fmt`: the body of a format chunk. */
  datatype Fmt = Fmt(audioFormat: nat, numChannels: nat, sampleRate: nat, byteRate: nat, blockAlign: nat, bitsPerSample: nat) {
    predicate Valid() {
      && audioFormat < 0x1_0000 && numChannels < 0x1_0000 && blockAlign < 0x1_0000 && bitsPerSample < 0x1_0000
      && sampleRate < UINT_RANGE && byteRate < UINT_RANGE
    }
  }

  function FmtBytes(f: Fmt): (s: seq<Byte>)
    ensures |s| == 16
  {
    Le(f.audioFormat, 2) + Le(f.numChannels, 2) + Le(f.sampleRate, 4) + Le(f.byteRate, 4)
    + Le(f.blockAlign, 2) + Le(f.bitsPerSample, 2)
  }

  function FmtOf(s: seq<Byte>): Fmt
    requires |s| == 16
  {
    Fmt(Value(s[0..2]), Value(s[2..4]), Value(s[4..8]), Value(s[8..12]), Value(s[12..14]), Value(s[14..16]))
  }

  lemma FmtParts(a: seq<Byte>, b: seq<Byte>, c: seq<Byte>, d: seq<Byte>, e: seq<Byte>, f: seq<Byte>)
    requires |a| == |b| == |e| == |f| == 2 && |c| == |d| == 4
    ensures var s := a + b + c + d + e + f;
      s[0..2] == a && s[2..4] == b && s[4..8] == c && s[8..12] == d && s[12..14] == e && s[14..16] == f
  {
    var h, t := a + b + c, d + e + f;
    var s := a + b + c + d + e + f;
    assert s == h + t;
    assert h[0..2] == a && h[2..4] == b && h[4..8] == c;
    assert t[0..4] == d && t[4..6] == e && t[6..8] == f;
    assert s[..8] == h && s[8..] == t;
    assert s[8..12] == t[0..4] && s[12..14] == t[4..6] && s[14..16] == t[6..8];
    assert s[0..2] == h[0..2] && s[2..4] == h[2..4] && s[4..8] == h[4..8];
  }

  lemma FmtRoundTrip(f: Fmt)
    requires f.Valid()
    ensures FmtOf(FmtBytes(f)) == f
  {
    hide Le, Value, Range;
    Widths();
    FmtParts(Le(f.audioFormat, 2), Le(f.numChannels, 2), Le(f.sampleRate, 4), Le(f.byteRate, 4), Le(f.blockAlign, 2), Le(f.bitsPerSample, 2));
    ValueLe(f.audioFormat, 2);
    ValueLe(f.numChannels, 2);
    ValueLe(f.sampleRate, 4);
    ValueLe(f.byteRate, 4);
    ValueLe(f.blockAlign, 2);
    ValueLe(f.bitsPerSample, 2);
  }

  /** A chunk other than the data chunk. */
  datatype Chunk = Chunk(id: nat, body: seq<Byte>) {
    predicate Valid() {
      id < UINT_RANGE && id != ID_DATA && |body| < UINT_RANGE
    }
  }

  /** Chunk bodies are padded to even length; the length in the header does not count the pad. */
  function PaddedBody(c: Chunk): (s: seq<Byte>)
    ensures |s| == |c.body| + |c.body| % 2
  {
    if |c.body| % 2 == 1 then c.body + [0] else c.body
  }

  function ChunkHeader(id: nat, size: nat): (s: seq<Byte>)
    ensures |s| == 8
  {
    Le(id, 4) + Le(size, 4)
  }

  function ChunkBytes(c: Chunk): (s: seq<Byte>)
    ensures |s| == 8 + |PaddedBody(c)|
  {
    ChunkHeader(c.id, |c.body|) + PaddedBody(c)
  }

  function Layout(cs: seq<Chunk>): seq<Byte> {
    if cs == [] then [] else ChunkBytes(cs[0]) + Layout(cs[1..])
  }

  function RiffHeader(size: nat): (s: seq<Byte>)
    ensures |s| == 12
  {
    Le(ID_RIFF, 4) + Le(size, 4) + Le(ID_WAVE, 4)
  }

  /** A WAVE file: the RIFF header, chunks, and the data chunk with whatever follows its header. */
  function FileBytes(riffSize: nat, cs: seq<Chunk>, dataSize: nat, data: seq<Byte>): seq<Byte> {
    RiffHeader(riffSize) + Layout(cs) + ChunkHeader(ID_DATA, dataSize) + data
  }

  /** `s` stands at `pos` of the file. */
  predicate At(file: seq<Byte>, pos: nat, s: seq<Byte>) {
    pos + |s| <= |file| && file[pos..pos + |s|] == s
  }

  lemma AtParts(file: seq<Byte>, pos: nat, a: seq<Byte>, b: seq<Byte>)
    ensures At(file, pos, a + b) <==> At(file, pos, a) && At(file, pos + |a|, b)
  {
    if pos + |a + b| <= |file| {
      var s := file[pos..pos + |a + b|];
      assert s[..|a|] == file[pos..pos + |a|] && s[|a|..] == file[pos + |a|..pos + |a| + |b|];
      assert s == s[..|a|] + s[|a|..];
      assert (a + b)[..|a|] == a && (a + b)[|a|..] == b;
    }
  }

  /** A number as `fread` takes it from the file. */
  function Field(file: seq<Byte>, pos: nat, n: nat): nat
    requires pos + n <= |file|
  {
    Value(file[pos..pos + n])
  }

  lemma FieldLe(file: seq<Byte>, pos: nat, v: nat, n: nat)
    requires v < Range(n) && At(file, pos, Le(v, n))
    ensures Field(file, pos, n) == v
  {
    ValueLe(v, n);
  }

  lemma HeaderFields(file: seq<Byte>, pos: nat, id: nat, size: nat)
    requires id < UINT_RANGE && size < UINT_RANGE && At(file, pos, ChunkHeader(id, size))
    ensures Field(file, pos, 4) == id && Field(file, pos + 4, 4) == size
  {
    hide Le, Range, Field, At;
    Widths();
    AtParts(file, pos, Le(id, 4), Le(size, 4));
    FieldLe(file, pos, id, 4);
    FieldLe(file, pos + 4, size, 4);
  }

  // ---------------------------------------------------------------- parse_wave_file

  datatype Error = NoWaveHeader | NotWave | NoDataChunk | IncompleteFormat

  datatype Parsed = Failed(error: Error) | Found(fmt: Fmt, dataSize: nat, pos: nat)

  /** How far `fseek` moves: not at all in a pipe. */
  function Skipped(seekable: bool, n: nat): nat {
    if seekable then n else 0
  }

  /** The walk of `parse_wave_file` from `pos` on; `fmt` is what the context holds so far. */
  function Walk(file: seq<Byte>, pos: nat, seekable: bool, fmt: Fmt): Parsed
    decreases if pos <= |file| then |file| - pos else 0
  {
    if pos + 8 > |file| then Failed(NoDataChunk)
    else
      var id := Field(file, pos, 4);
      var size := Field(file, pos + 4, 4);
      if id == ID_DATA then Found(fmt, size, pos + 8)
      else if id != ID_FMT then Walk(file, pos + 8 + Skipped(seekable, size), seekable, fmt)
      else if pos + 24 > |file| then Failed(IncompleteFormat)
      else
        Walk(file, pos + 24 + (if size > 16 then Skipped(seekable, size - 16) else 0), seekable, FmtOf(file[pos + 8..pos + 24]))
  }

  function Parse(file: seq<Byte>, seekable: bool, fmt: Fmt): Parsed {
    if |file| < 12 then Failed(NoWaveHeader)
    else if Field(file, 0, 4) != ID_RIFF || Field(file, 8, 4) != ID_WAVE then Failed(NotWave)
    else Walk(file, 12, seekable, fmt)
  }

  /** The passes of the loop: how many chunk headers are read. */
  function Passes(file: seq<Byte>, pos: nat, seekable: bool): nat
    decreases if pos <= |file| then |file| - pos else 0
  {
    if pos + 8 > |file| then 0
    else
      var id, size := Field(file, pos, 4), Field(file, pos + 4, 4);
      if id == ID_DATA then 1
      else if id != ID_FMT then 1 + Passes(file, pos + 8 + Skipped(seekable, size), seekable)
      else if pos + 24 > |file| then 1
      else 1 + Passes(file, pos + 24 + (if size > 16 then Skipped(seekable, size - 16) else 0), seekable)
  }

  /** Where a pass of the walk goes on from. */
  function Onward(file: seq<Byte>, pos: nat, seekable: bool): nat
    requires pos + 8 <= |file|
  {
    var size := Field(file, pos + 4, 4);
    if Field(file, pos, 4) != ID_FMT then pos + 8 + Skipped(seekable, size)
    else pos + 24 + (if size > 16 then Skipped(seekable, size - 16) else 0)
  }

  /** One pass of the walk. */
  lemma WalkCases(file: seq<Byte>, pos: nat, seekable: bool, fmt: Fmt)
    ensures var w, n := Walk(file, pos, seekable, fmt), Passes(file, pos, seekable);
      if pos + 8 > |file| then w == Failed(NoDataChunk) && n == 0
      else if Field(file, pos, 4) == ID_DATA then w == Found(fmt, Field(file, pos + 4, 4), pos + 8) && n == 1
      else if Field(file, pos, 4) == ID_FMT && pos + 24 > |file| then w == Failed(IncompleteFormat) && n == 1
      else
        var next := Onward(file, pos, seekable);
        var fmt' := if Field(file, pos, 4) == ID_FMT then FmtOf(file[pos + 8..pos + 24]) else fmt;
        w == Walk(file, next, seekable, fmt') && n == 1 + Passes(file, next, seekable)
  {
    hide Field, FmtOf;
  }

  /** `struct ctx`, as far as `parse_wave_file` uses it. */
  class Ctx {
    const file: seq<Byte>
    const seekable: bool
    var pos: nat
    var chunkId: nat
    var chunkSize: nat
    var chunkFmt: Fmt

    constructor (file: seq<Byte>, seekable: bool, memory: Fmt)
      ensures this.file == file && this.seekable == seekable && pos == 0 && chunkFmt == memory
    {
      this.file, this.seekable, pos, chunkId, chunkSize, chunkFmt := file, seekable, 0, 0, 0, memory;
    }

    method Fseek(n: nat)
      modifies this`pos
      ensures pos == old(pos) + Skipped(seekable, n)
    {
      if seekable {
        pos := pos + n;
      }
    }

    /** `parse_wave_file`. Each pass of its loop takes a chunk header, so it ends on any file. */
    method ParseWaveFile() returns (error: Option<Error>, ghost passes: nat)
      requires pos == 0
      modifies this
      ensures passes == if |file| < 12 || Parse(file, seekable, old(chunkFmt)) == Failed(NotWave) then 0 else Passes(file, 12, seekable)
      ensures match Parse(file, seekable, old(chunkFmt))
              case Failed(e) => error == Some(e)
              case Found(fmt, size, p) =>
                error == None && chunkFmt == fmt && chunkId == ID_DATA && chunkSize == size && pos == p
    {
      hide Field, FmtOf, Walk, Passes;
      passes := 0;
      if |file| < 12 {
        return Some(NoWaveHeader), passes;
      }
      var riffId, waveId := Field(file, 0, 4), Field(file, 8, 4);
      pos := 12;
      if riffId != ID_RIFF || waveId != ID_WAVE {
        return Some(NotWave), passes;
      }
      var moreChunks := true;
      while moreChunks
        invariant moreChunks ==> passes + Passes(file, pos, seekable) == Passes(file, 12, seekable)
        invariant moreChunks ==> Parse(file, seekable, old(chunkFmt)) == Walk(file, pos, seekable, chunkFmt)
        invariant !moreChunks ==>
          chunkId == ID_DATA && passes == Passes(file, 12, seekable) && Parse(file, seekable, old(chunkFmt)) == Found(chunkFmt, chunkSize, pos)
        decreases moreChunks, |file| - pos
      {
        WalkCases(file, pos, seekable, chunkFmt);
        if pos + 8 > |file| {
          return Some(NoDataChunk), passes;
        }
        chunkId, chunkSize := Field(file, pos, 4), Field(file, pos + 4, 4);
        passes, pos := passes + 1, pos + 8;
        if chunkId == ID_FMT {
          if pos + 16 > |file| {
            return Some(IncompleteFormat), passes;
          }
          chunkFmt := FmtOf(file[pos..pos + 16]);
          pos := pos + 16;
          if chunkSize > 16 {
            Fseek(chunkSize - 16);
          }
        } else if chunkId == ID_DATA {
          moreChunks := false;
        } else {
          Fseek(chunkSize);
        }
      }
      return None, passes;
    }
  }

  // ---------------------------------------------------------------- what the walk finds

  /**
   The chunks the walk steps over exactly: of even length when it is not the format chunk, since
   pads are not skipped, and holding a whole format when it is. A pipe allows no skipping at all.
   */
  predicate SteppedOver(c: Chunk, seekable: bool) {
    if c.id == ID_FMT then |c.body| == 15 || |c.body| == 16 || (|c.body| > 16 && |c.body| % 2 == 0 && seekable)
    else |c.body| == 0 || (|c.body| % 2 == 0 && seekable)
  }

  /** The format in force after a chunk. */
  function FmtAfter(c: Chunk, fmt: Fmt): Fmt {
    if c.id == ID_FMT && |PaddedBody(c)| >= 16 then FmtOf(PaddedBody(c)[..16]) else fmt
  }

  function FmtAfterAll(cs: seq<Chunk>, fmt: Fmt): Fmt {
    if cs == [] then fmt else FmtAfterAll(cs[1..], FmtAfter(cs[0], fmt))
  }

  lemma ChunkStep(file: seq<Byte>, pos: nat, seekable: bool, fmt: Fmt, c: Chunk)
    requires c.Valid() && SteppedOver(c, seekable) && At(file, pos, ChunkBytes(c))
    ensures Walk(file, pos, seekable, fmt) == Walk(file, pos + |ChunkBytes(c)|, seekable, FmtAfter(c, fmt))
  {
    hide Field, Le, ChunkHeader, FmtOf;
    AtParts(file, pos, ChunkHeader(c.id, |c.body|), PaddedBody(c));
    HeaderFields(file, pos, c.id, |c.body|);
    if c.id == ID_FMT {
      assert file[pos + 8..pos + 24] == file[pos + 8..pos + 8 + |PaddedBody(c)|][..16];
    }
  }

  lemma {:induction false} WalkOver(file: seq<Byte>, pos: nat, seekable: bool, fmt: Fmt, cs: seq<Chunk>)
    requires forall c <- cs :: c.Valid() && SteppedOver(c, seekable)
    requires At(file, pos, Layout(cs))
    ensures Walk(file, pos, seekable, fmt) == Walk(file, pos + |Layout(cs)|, seekable, FmtAfterAll(cs, fmt))
    decreases |cs|
  {
    hide Walk, At, SteppedOver, FmtAfter, ChunkBytes;
    if cs != [] {
      AtParts(file, pos, ChunkBytes(cs[0]), Layout(cs[1..]));
      ChunkStep(file, pos, seekable, fmt, cs[0]);
      WalkOver(file, pos + |ChunkBytes(cs[0])|, seekable, FmtAfter(cs[0], fmt), cs[1..]);
    }
  }

  lemma FileParts(riffSize: nat, cs: seq<Chunk>, dataSize: nat, data: seq<Byte>)
    requires riffSize < UINT_RANGE && dataSize < UINT_RANGE
    ensures var file := FileBytes(riffSize, cs, dataSize, data);
      && |file| >= 20 + |Layout(cs)|
      && Field(file, 0, 4) == ID_RIFF && Field(file, 8, 4) == ID_WAVE
      && At(file, 12, Layout(cs)) && At(file, 12 + |Layout(cs)|, ChunkHeader(ID_DATA, dataSize))
  {
    hide Le, Value, Range, Layout, ChunkHeader;
    Widths();
    var file := FileBytes(riffSize, cs, dataSize, data);
    assert file[0..4] == Le(ID_RIFF, 4) && file[8..12] == Le(ID_WAVE, 4);
    FieldLe(file, 0, ID_RIFF, 4);
    FieldLe(file, 8, ID_WAVE, 4);
  }

  lemma DataStep(file: seq<Byte>, pos: nat, seekable: bool, fmt: Fmt, size: nat)
    requires size < UINT_RANGE && At(file, pos, ChunkHeader(ID_DATA, size))
    ensures Walk(file, pos, seekable, fmt) == Found(fmt, size, pos + 8)
  {
    hide Field, Le;
    HeaderFields(file, pos, ID_DATA, size);
  }

  /** Whatever chunks come before the data, if they can be stepped over, the data and the last format are found. */
  lemma FileIsParsed(riffSize: nat, cs: seq<Chunk>, dataSize: nat, data: seq<Byte>, seekable: bool, fmt: Fmt)
    requires riffSize < UINT_RANGE && dataSize < UINT_RANGE
    requires forall c <- cs :: c.Valid() && SteppedOver(c, seekable)
    ensures Parse(FileBytes(riffSize, cs, dataSize, data), seekable, fmt)
         == Found(FmtAfterAll(cs, fmt), dataSize, 20 + |Layout(cs)|)
  {
    hide Walk, At, SteppedOver, FileBytes, ChunkHeader, Field;
    var file := FileBytes(riffSize, cs, dataSize, data);
    FileParts(riffSize, cs, dataSize, data);
    WalkOver(file, 12, seekable, fmt, cs);
    DataStep(file, 12 + |Layout(cs)|, seekable, FmtAfterAll(cs, fmt), dataSize);
  }

  /** Each pass takes a chunk header of its own from the file. */
  lemma {:induction false} PassesBounded(file: seq<Byte>, pos: nat, seekable: bool)
    ensures Passes(file, pos, seekable) > 0 ==> pos + 8 * Passes(file, pos, seekable) <= |file|
    decreases if pos <= |file| then |file| - pos else 0
  {
    hide Field;
    if pos + 8 <= |file| {
      var size := Field(file, pos + 4, 4);
      if Field(file, pos, 4) == ID_FMT {
        if pos + 24 <= |file| {
          PassesBounded(file, pos + 24 + (if size > 16 then Skipped(seekable, size - 16) else 0), seekable);
        }
      } else if Field(file, pos, 4) != ID_DATA {
        PassesBounded(file, pos + 8 + Skipped(seekable, size), seekable);
      }
    }
  }

  /** Data are found behind the header the walk stands at, or behind a later one. */
  lemma {:induction false} FoundBehind(file: seq<Byte>, pos: nat, seekable: bool, fmt: Fmt)
    ensures var r := Walk(file, pos, seekable, fmt); r.Found? ==> r.pos == pos + 8 || r.pos >= pos + 16
    decreases if pos <= |file| then |file| - pos else 0
  {
    hide Field, FmtOf;
    if pos + 8 <= |file| {
      var size := Field(file, pos + 4, 4);
      if Field(file, pos, 4) == ID_FMT {
        if pos + 24 <= |file| {
          FoundBehind(file, pos + 24 + (if size > 16 then Skipped(seekable, size - 16) else 0), seekable, FmtOf(file[pos + 8..pos + 24]));
        }
      } else if Field(file, pos, 4) != ID_DATA {
        FoundBehind(file, pos + 8 + Skipped(seekable, size), seekable, fmt);
      }
    }
  }

  lemma LayoutAppend(cs: seq<Chunk>, c: Chunk, fmt: Fmt)
    ensures Layout(cs + [c]) == Layout(cs) + ChunkBytes(c)
    ensures FmtAfterAll(cs + [c], fmt) == FmtAfter(c, FmtAfterAll(cs, fmt))
  {
    hide ChunkBytes, FmtAfter;
    if cs == [] {
      assert [c][1..] == [];
      assert Layout([c]) == ChunkBytes(c) + Layout([]);
      assert FmtAfterAll([c], fmt) == FmtAfterAll([], FmtAfter(c, fmt));
    } else {
      assert (cs + [c])[1..] == cs[1..] + [c];
      LayoutAppend(cs[1..], c, FmtAfter(cs[0], fmt));
    }
  }

  /**
   The chunk before the data decides: the data chunk of the file is the one found exactly when
   that chunk can be stepped over. A chunk of odd length, or a format of fewer than 15 bytes, hides the data.
   */
  lemma ParsedIff(riffSize: nat, cs: seq<Chunk>, c: Chunk, dataSize: nat, data: seq<Byte>, fmt: Fmt)
    requires riffSize < UINT_RANGE && dataSize < UINT_RANGE && c.Valid()
    requires forall k <- cs :: k.Valid() && SteppedOver(k, true)
    ensures Parse(FileBytes(riffSize, cs + [c], dataSize, data), true, fmt)
         == Found(FmtAfterAll(cs + [c], fmt), dataSize, 20 + |Layout(cs + [c])|)
       <==> SteppedOver(c, true)
  {
    hide FileBytes, Field, ChunkHeader, At, FmtAfterAll, FmtAfter, Layout, Walk;
    if SteppedOver(c, true) {
      FileIsParsed(riffSize, cs + [c], dataSize, data, true, fmt);
    } else {
      var file := FileBytes(riffSize, cs + [c], dataSize, data);
      FileParts(riffSize, cs + [c], dataSize, data);
      LayoutAppend(cs, c, fmt);
      AtParts(file, 12, Layout(cs), ChunkBytes(c));
      WalkOver(file, 12, true, fmt, cs);
      MissedBy(file, 12 + |Layout(cs)|, FmtAfterAll(cs, fmt), c);
    }
  }

  lemma MissedBy(file: seq<Byte>, pos: nat, fmt: Fmt, c: Chunk)
    requires c.Valid() && !SteppedOver(c, true) && At(file, pos, ChunkBytes(c))
    ensures var r := Walk(file, pos, true, fmt); r.Found? ==> r.pos != pos + |ChunkBytes(c)| + 8
  {
    hide Field, FmtOf, Le, ChunkHeader;
    AtParts(file, pos, ChunkHeader(c.id, |c.body|), PaddedBody(c));
    HeaderFields(file, pos, c.id, |c.body|);
    if c.id == ID_FMT {
      if pos + 24 <= |file| {
        FoundBehind(file, pos + 24 + (if |c.body| > 16 then |c.body| - 16 else 0), true, FmtOf(file[pos + 8..pos + 24]));
      }
    } else {
      FoundBehind(file, pos + 8 + |c.body|, true, fmt);
    }
  }

  // ---------------------------------------------------------------- tinycap

  /** `struct wav_header`. */
  datatype Header = Header(riffId: nat, riffSize: nat, riffFmt: nat, fmtId: nat, fmtSize: nat, audioFormat: nat,
                           numChannels: nat, sampleRate: nat, byteRate: nat, blockAlign: nat, bitsPerSample: nat,
                           dataId: nat, dataSize: nat)

  const HEADER_SIZE := 44

  /** The bytes `fwrite` takes from the header. */
  function Encode(h: Header): (s: seq<Byte>)
    ensures |s| == HEADER_SIZE
  {
    Le(h.riffId, 4) + Le(h.riffSize, 4) + Le(h.riffFmt, 4) + Le(h.fmtId, 4) + Le(h.fmtSize, 4)
    + Le(h.audioFormat, 2) + Le(h.numChannels, 2) + Le(h.sampleRate, 4) + Le(h.byteRate, 4)
    + Le(h.blockAlign, 2) + Le(h.bitsPerSample, 2) + Le(h.dataId, 4) + Le(h.dataSize, 4)
  }

  function ToU16(x: int): nat {
    x % 0x1_0000
  }

  function CaptureFormat(bits: nat): Option<PcmFormat> {
    if bits == 32 then Some(S32LE) else if bits == 24 then Some(S24LE) else if bits == 16 then Some(S16LE) else None
  }

  /** The format a header describes. */
  function HeaderFmt(h: Header): Fmt {
    Fmt(h.audioFormat, h.numChannels, h.sampleRate, h.byteRate, h.blockAlign, h.bitsPerSample)
  }

  /** A header is the beginning of a file with one format chunk. */
  lemma HeaderIsFile(h: Header, data: seq<Byte>)
    requires h.riffId == ID_RIFF && h.riffFmt == ID_WAVE && h.fmtId == ID_FMT && h.fmtSize == 16 && h.dataId == ID_DATA
    ensures Encode(h) + data == FileBytes(h.riffSize, [Chunk(ID_FMT, FmtBytes(HeaderFmt(h)))], h.dataSize, data)
  {
    var f := FmtBytes(HeaderFmt(h));
    var c := Chunk(ID_FMT, f);
    assert Layout([c]) == ChunkBytes(c) + Layout([]) == ChunkHeader(ID_FMT, 16) + f;
    hide FmtBytes, Layout, Le;
    var riff := RiffHeader(h.riffSize);
    assert Encode(h) == riff + ChunkHeader(ID_FMT, 16) + f + ChunkHeader(ID_DATA, h.dataSize) by {
      EncodeParts(h);
    }
    Concat(riff, ChunkHeader(ID_FMT, 16), f);
  }

  lemma Concat(a: seq<Byte>, b: seq<Byte>, c: seq<Byte>)
    ensures a + (b + c) == a + b + c
  {
  }

  /** The fields in their order make up the three parts of the header. */
  lemma EncodeParts(h: Header)
    requires h.riffId == ID_RIFF && h.riffFmt == ID_WAVE && h.fmtId == ID_FMT && h.fmtSize == 16 && h.dataId == ID_DATA
    ensures Encode(h) == RiffHeader(h.riffSize) + ChunkHeader(ID_FMT, 16) + FmtBytes(HeaderFmt(h)) + ChunkHeader(ID_DATA, h.dataSize)
  {
    hide Le;
    var r := RiffHeader(h.riffSize);
    Concat(r, Le(ID_FMT, 4), Le(16, 4));
    var p := r + ChunkHeader(ID_FMT, 16);
    var a, b, c := Le(h.audioFormat, 2), Le(h.numChannels, 2), Le(h.sampleRate, 4);
    var d, e, f := Le(h.byteRate, 4), Le(h.blockAlign, 2), Le(h.bitsPerSample, 2);
    Concat(p, a, b);
    Concat(p, a + b, c);
    Concat(p, a + b + c, d);
    Concat(p, a + b + c + d, e);
    Concat(p, a + b + c + d + e, f);
    Concat(p + FmtBytes(HeaderFmt(h)), Le(ID_DATA, 4), Le(h.dataSize, 4));
  }

  /** What a read of the stream delivers. */
  datatype Batch = Batch(frames: nat, bytes: seq<Byte>)

  function Delivered(batches: seq<Batch>): seq<Byte> {
    if batches == [] then [] else Delivered(batches[..|batches| - 1]) + batches[|batches| - 1].bytes
  }

  function FramesOf(batches: seq<Batch>): nat {
    if batches == [] then 0 else FramesOf(batches[..|batches| - 1]) + batches[|batches| - 1].frames
  }

  lemma {:induction false} FramesAreBytes(batches: seq<Batch>, frameBytes: nat)
    requires forall b <- batches :: |b.bytes| == b.frames * frameBytes
    ensures FramesOf(batches) * frameBytes == |Delivered(batches)|
  {
    if batches != [] {
      var most, last := batches[..|batches| - 1], batches[|batches| - 1];
      FramesAreBytes(most, frameBytes);
      assert last in batches;
      MulAdd(FramesOf(most), last.frames, frameBytes);
    }
  }

  lemma OneMore(batches: seq<Batch>, i: nat)
    requires i < |batches|
    ensures Delivered(batches[..i + 1]) == Delivered(batches[..i]) + batches[i].bytes
    ensures FramesOf(batches[..i + 1]) == FramesOf(batches[..i]) + batches[i].frames
  {
    assert batches[..i + 1][..i] == batches[..i];
  }

  /** The time is up when that many seconds' worth of frames has come. */
  lemma TimeUpMeans(total: nat, rate: nat, captureTime: nat)
    requires rate > 0
    ensures TimeUp(total, rate, captureTime) <==> captureTime * rate <= total
  {
    DivBounds(total, rate);
    if captureTime <= total / rate {
      MulMono(captureTime, total / rate, rate);
    } else {
      MulMono(total / rate + 1, captureTime, rate);
      MulAdd(total / rate, 1, rate);
    }
  }

  predicate TimeUp(total: nat, rate: nat, captureTime: nat)
    requires rate > 0
  {
    total / rate >= captureTime
  }

  /**
   `capture_sample`: the batches are those the stream delivers until the capture is interrupted, `taken`
   of them are read. The count returned is that of the frames written, as an `unsigned int`; the first
   batch to complete the capture time is the last.
   */
  method CaptureSample(batches: seq<Batch>, rate: nat, captureTime: nat)
      returns (total: nat, written: seq<Byte>, taken: nat)
    requires rate > 0
    ensures taken <= |batches| && written == Delivered(batches[..taken])
    ensures total == ToUInt(FramesOf(batches[..taken]))
    ensures taken < |batches| ==> taken > 0 && TimeUp(total, rate, captureTime)
    ensures forall k | 0 < k < taken :: !TimeUp(ToUInt(FramesOf(batches[..k])), rate, captureTime)
  {
    hide Delivered, FramesOf, TimeUp;
    total, written, taken := 0, [], 0;
    NothingYet(batches);
    var capturing := true;
    while capturing && taken < |batches|
      invariant taken <= |batches| && written == Delivered(batches[..taken])
      invariant total == ToUInt(FramesOf(batches[..taken]))
      invariant forall k | 0 < k < taken :: !TimeUp(ToUInt(FramesOf(batches[..k])), rate, captureTime)
      invariant taken == 0 ==> capturing
      invariant taken > 0 ==> (capturing <==> !TimeUp(total, rate, captureTime))
      decreases |batches| - taken
    {
      OneMore(batches, taken);
      total := ToUInt(total + batches[taken].frames);
      if TimeUp(total, rate, captureTime) {
        capturing := false;
      }
      written := written + batches[taken].bytes;
      taken := taken + 1;
    }
  }

  lemma NothingYet(batches: seq<Batch>)
    ensures Delivered(batches[..0]) == [] && FramesOf(batches[..0]) == 0
  {
  }

  /** The header of a capture of `frames` frames, as the fields end up. */
  ghost predicate Describes(h: Header, channels: nat, rate: nat, bits: nat, frames: nat) {
    && h.riffId == ID_RIFF && h.riffFmt == ID_WAVE && h.fmtId == ID_FMT && h.fmtSize == 16 && h.dataId == ID_DATA
    && h.audioFormat == FORMAT_PCM && h.numChannels == ToU16(channels) && h.sampleRate == rate
    && h.bitsPerSample == (if bits == 16 then 16 else 32)
    && h.byteRate == ToUInt(h.bitsPerSample / 8 * channels * rate)
    && h.blockAlign == ToU16(channels * (h.bitsPerSample / 8))
    && h.dataSize == ToUInt(frames * h.blockAlign)
    && h.riffSize == ToUInt(h.dataSize + HEADER_SIZE - 8)
  }

  /** Every field at its place in the file, as chapter 2 of the RIFF specification has it. */
  lemma HeaderOffsets(h: Header, data: seq<Byte>)
    requires HeaderFmt(h).Valid() && h.riffSize < UINT_RANGE && h.dataSize < UINT_RANGE
    requires h.riffId == ID_RIFF && h.riffFmt == ID_WAVE && h.fmtId == ID_FMT && h.fmtSize == 16 && h.dataId == ID_DATA
    ensures var file := Encode(h) + data;
      && file[0..4] == [0x52, 0x49, 0x46, 0x46] && Field(file, 4, 4) == h.riffSize && file[8..12] == [0x57, 0x41, 0x56, 0x45]
      && file[12..16] == [0x66, 0x6d, 0x74, 0x20] && Field(file, 16, 4) == 16
      && Field(file, 20, 2) == h.audioFormat && Field(file, 22, 2) == h.numChannels && Field(file, 24, 4) == h.sampleRate
      && Field(file, 28, 4) == h.byteRate && Field(file, 32, 2) == h.blockAlign && Field(file, 34, 2) == h.bitsPerSample
      && file[36..40] == [0x64, 0x61, 0x74, 0x61] && Field(file, 40, 4) == h.dataSize && file[44..] == data
  {
    Identifiers();
    Widths();
    HeaderParts(h, data);
    var file := Encode(h) + data;
    hide Le, Value, Range, Encode;
    ValueLe(h.riffSize, 4);
    ValueLe(16, 4);
    ValueLe(h.audioFormat, 2);
    ValueLe(h.numChannels, 2);
    ValueLe(h.sampleRate, 4);
    ValueLe(h.byteRate, 4);
    ValueLe(h.blockAlign, 2);
    ValueLe(h.bitsPerSample, 2);
    ValueLe(h.dataSize, 4);
  }

  lemma HeaderParts(h: Header, data: seq<Byte>)
    ensures var file := Encode(h) + data;
      && file[0..4] == Le(h.riffId, 4) && file[4..8] == Le(h.riffSize, 4) && file[8..12] == Le(h.riffFmt, 4)
      && file[12..16] == Le(h.fmtId, 4) && file[16..20] == Le(h.fmtSize, 4) && file[20..22] == Le(h.audioFormat, 2)
      && file[22..24] == Le(h.numChannels, 2) && file[24..28] == Le(h.sampleRate, 4) && file[28..32] == Le(h.byteRate, 4)
      && file[32..34] == Le(h.blockAlign, 2) && file[34..36] == Le(h.bitsPerSample, 2) && file[36..40] == Le(h.dataId, 4)
      && file[40..44] == Le(h.dataSize, 4) && file[44..] == data
  {
    hide Le;
    var file := Encode(h) + data;
    var p1 := Le(h.riffId, 4);
    var p2 := p1 + Le(h.riffSize, 4);
    var p3 := p2 + Le(h.riffFmt, 4);
    var p4 := p3 + Le(h.fmtId, 4);
    var p5 := p4 + Le(h.fmtSize, 4);
    var p6 := p5 + Le(h.audioFormat, 2);
    var p7 := p6 + Le(h.numChannels, 2);
    var p8 := p7 + Le(h.sampleRate, 4);
    var p9 := p8 + Le(h.byteRate, 4);
    var p10 := p9 + Le(h.blockAlign, 2);
    var p11 := p10 + Le(h.bitsPerSample, 2);
    var p12 := p11 + Le(h.dataId, 4);
    assert Encode(h) == p12 + Le(h.dataSize, 4);
    hide Encode;
    PartAt(p12, Le(h.dataSize, 4), data, file);
    PartBefore(p11, Le(h.dataId, 4), p12, file);
    PartBefore(p10, Le(h.bitsPerSample, 2), p11, file);
    PartBefore(p9, Le(h.blockAlign, 2), p10, file);
    PartBefore(p8, Le(h.byteRate, 4), p9, file);
    PartBefore(p7, Le(h.sampleRate, 4), p8, file);
    PartBefore(p6, Le(h.numChannels, 2), p7, file);
    PartBefore(p5, Le(h.audioFormat, 2), p6, file);
    PartBefore(p4, Le(h.fmtSize, 4), p5, file);
    PartBefore(p3, Le(h.fmtId, 4), p4, file);
    PartBefore(p2, Le(h.riffFmt, 4), p3, file);
    PartBefore(p1, Le(h.riffSize, 4), p2, file);
    PartBefore([], Le(h.riffId, 4), p1, file);
  }

  lemma PartAt(p: seq<Byte>, x: seq<Byte>, data: seq<Byte>, file: seq<Byte>)
    requires file == p + x + data
    ensures file[|p|..|p| + |x|] == x && file[|p| + |x|..] == data && file[..|p|] == p
  {
  }

  lemma PartBefore(p: seq<Byte>, x: seq<Byte>, q: seq<Byte>, file: seq<Byte>)
    requires q == p + x && |q| <= |file| && file[..|q|] == q
    ensures file[|p|..|p| + |x|] == x && file[..|p|] == p
  {
    assert file[..|q|][|p|..] == file[|p|..|q|] && q[|p|..] == x;
    assert file[..|q|][..|p|] == file[..|p|] && q[..|p|] == p;
  }

  /**
   When nothing is truncated the header adds up: the bytes of a second are the rate times the frame, and the
   RIFF size is that of the file less its first eight bytes.
   */
  lemma HeaderAddsUp(h: Header, channels: nat, rate: nat, bits: nat, frames: nat, data: seq<Byte>)
    requires Describes(h, channels, rate, bits, frames)
    requires channels * (h.bitsPerSample / 8) < 0x1_0000 && h.bitsPerSample / 8 * channels * rate <= UINT_MAX
    requires h.dataSize == |data| && |data| + HEADER_SIZE <= UINT_MAX
    ensures h.blockAlign == h.numChannels * (h.bitsPerSample / 8) && h.byteRate == h.sampleRate * h.blockAlign
    ensures h.riffSize + 8 == |Encode(h) + data|
  {
    var width := h.bitsPerSample / 8;
    DescribedFields(h, channels, rate, bits, frames, width);
    hide *;
    MulMono(1, width, channels);
    Commute3(width, channels, rate);
    Truncations(width * channels * rate, channels * width);
    Truncations(h.dataSize + 36, channels);
    SizeOfHeader(h, data);
  }

  lemma SizeOfHeader(h: Header, data: seq<Byte>)
    ensures |Encode(h) + data| == 44 + |data| && HEADER_SIZE == 44
    ensures 0x1_0000 <= UINT_RANGE == UINT_MAX + 1
  {
  }

  lemma DescribedFields(h: Header, channels: nat, rate: nat, bits: nat, frames: nat, width: nat)
    requires Describes(h, channels, rate, bits, frames) && width == h.bitsPerSample / 8
    ensures h.numChannels == ToU16(channels) && h.blockAlign == ToU16(channels * width) && h.sampleRate == rate
    ensures h.byteRate == ToUInt(width * channels * rate) && h.riffSize == ToUInt(h.dataSize + 36) && 1 <= width
  {
  }

  lemma Commute3(a: nat, b: nat, c: nat)
    ensures a * b * c == c * (b * a)
  {
    assert a * b * c == (b * a) * c == c * (b * a);
  }

  /** The bytes of a frame as they are captured: `config.channels` is the 16-bit count of the header. */
  function CapturedFrameBytes(channels: nat, bits: nat): nat {
    ToU16(channels) * (if bits == 16 then 2 else 4)
  }

  /** `main` of tinycap. No file results from a width it does not support. */
  method Tinycap(channels: nat, rate: nat, bits: nat, batches: seq<Batch>, captureTime: nat)
      returns (file: Option<seq<Byte>>, h: Header, taken: nat)
    requires channels <= UINT_MAX && 0 < rate <= UINT_MAX
    ensures file.None? <==> bits !in {16, 24, 32}
    ensures file.Some? ==>
      && taken <= |batches| && file.value == Encode(h) + Delivered(batches[..taken])
      && Describes(h, channels, rate, bits, ToUInt(FramesOf(batches[..taken])))
      && (taken < |batches| ==> TimeUp(ToUInt(FramesOf(batches[..taken])), rate, captureTime))
  {
    hide Le, Delivered, FramesOf;
    taken := 0;
    h := Header(ID_RIFF, 0, ID_WAVE, ID_FMT, 16, FORMAT_PCM, ToU16(channels), rate, 0, 0, 0, 0, 0);
    var format := CaptureFormat(bits);
    if format.None? {
      return None, h, 0;
    }
    h := h.(bitsPerSample := FormatToBits(format.value));
    h := h.(byteRate := ToUInt(h.bitsPerSample / 8 * channels * rate));
    h := h.(blockAlign := ToU16(channels * (h.bitsPerSample / 8)));
    h := h.(dataId := ID_DATA);
    var frames, data;
    frames, data, taken := CaptureSample(batches, rate, captureTime);
    h := h.(dataSize := ToUInt(frames * h.blockAlign));
    h := h.(riffSize := ToUInt(h.dataSize + HEADER_SIZE - 8));
    file := Some(Encode(h) + data);
  }

  /** `signed_pcm_bits_to_format`. */
  function SignedPcmBitsToFormat(bits: nat): Option<PcmFormat> {
    if bits == 8 then Some(S8)
    else if bits == 16 then Some(S16LE)
    else if bits == 24 then Some(S243LE)
    else if bits == 32 then Some(S32LE)
    else None
  }

  /** The format for a width has that width, and there is one for the whole bytes up to 32 bits. */
  lemma FormatHasItsBits(bits: nat)
    ensures match SignedPcmBitsToFormat(bits)
            case None => bits !in {8, 16, 24, 32}
            case Some(format) => FormatToBits(format) == bits && bits in {8, 16, 24, 32}
  {
  }

  /** The format `ctx_init` plays a parsed file in. */
  function PlayFormat(fmt: Fmt): Option<PcmFormat> {
    if fmt.audioFormat == WAVE_FORMAT_IEEE_FLOAT then Some(FloatLE) else SignedPcmBitsToFormat(fmt.bitsPerSample)
  }

  /** Chunks may be put around the format chunk, as other programs do. */
  function Decorated(h: Header, before: seq<Chunk>, after: seq<Chunk>): seq<Chunk> {
    before + [Chunk(ID_FMT, FmtBytes(HeaderFmt(h)))] + after
  }

  lemma {:induction false} FmtAfterConcat(a: seq<Chunk>, b: seq<Chunk>, fmt: Fmt)
    ensures FmtAfterAll(a + b, fmt) == FmtAfterAll(b, FmtAfterAll(a, fmt))
  {
    hide FmtAfter;
    if a == [] {
      assert a + b == b;
    } else {
      assert (a + b)[1..] == a[1..] + b;
      FmtAfterConcat(a[1..], b, FmtAfter(a[0], fmt));
    }
  }

  lemma {:induction false} FmtAfterUnknown(cs: seq<Chunk>, fmt: Fmt)
    requires forall c <- cs :: c.id != ID_FMT
    ensures FmtAfterAll(cs, fmt) == fmt
  {
    if cs != [] {
      FmtAfterUnknown(cs[1..], fmt);
    }
  }

  /**
   A captured file is read back with the 16-bit channel count, the rate, the bits of the header and the data
   size it was written with, whatever chunks that can be stepped over are added around its format chunk. The
   sample format is recovered exactly for 16 and 32 bits: 24 bits are captured in words of 32.
   */
  lemma CaptureIsPlayed(h: Header, channels: nat, rate: nat, bits: nat, frames: nat, before: seq<Chunk>,
                        after: seq<Chunk>, data: seq<Byte>, seekable: bool, memory: Fmt)
    requires Describes(h, channels, rate, bits, frames) && rate <= UINT_MAX && CaptureFormat(bits).Some?
    requires forall c <- before + after :: c.Valid() && SteppedOver(c, seekable)
    requires forall c <- after :: c.id != ID_FMT
    ensures var cs := Decorated(h, before, after);
      var r := Parse(FileBytes(h.riffSize, cs, h.dataSize, data), seekable, memory);
      && r == Found(HeaderFmt(h), h.dataSize, 20 + |Layout(cs)|)
      && r.fmt.numChannels == ToU16(channels) && r.fmt.sampleRate == rate
      && (PlayFormat(r.fmt) == CaptureFormat(bits) <==> bits != 24)
    ensures before + after == [] ==> FileBytes(h.riffSize, Decorated(h, before, after), h.dataSize, data) == Encode(h) + data
  {
    hide Le, Layout, FmtAfterAll, FmtOf, FmtBytes;
    var f := Chunk(ID_FMT, FmtBytes(HeaderFmt(h)));
    var cs := Decorated(h, before, after);
    forall c | c in cs ensures c.Valid() && SteppedOver(c, seekable) {
      if c != f {
        assert c in before + after;
      }
    }
    FileIsParsed(h.riffSize, cs, h.dataSize, data, seekable, memory);
    FmtAfterConcat(before + [f], after, memory);
    FmtAfterUnknown(after, FmtAfterAll(before + [f], memory));
    LayoutAppend(before, f, memory);
    FmtRoundTrip(HeaderFmt(h));
    assert FmtBytes(HeaderFmt(h))[..16] == FmtBytes(HeaderFmt(h));
    if before + after == [] {
      HeaderIsFile(h, data);
      assert cs == [f];
    }
  }

  /**
   The data size written is that of the data exactly when there are none, or a frame fits the 16-bit
   alignment field and all of them the 32-bit size.
   */
  lemma SizeOfData(h: Header, channels: nat, rate: nat, bits: nat, batches: seq<Batch>)
    requires CapturedFrameBytes(channels, bits) > 0
    requires forall b <- batches :: |b.bytes| == b.frames * CapturedFrameBytes(channels, bits)
    requires Describes(h, channels, rate, bits, ToUInt(FramesOf(batches)))
    ensures h.dataSize == |Delivered(batches)| <==>
        Delivered(batches) == [] || (CapturedFrameBytes(channels, bits) < 0x1_0000 && |Delivered(batches)| < UINT_RANGE)
  {
    hide Delivered, FramesOf, ToU16, ToUInt;
    var frameBytes := CapturedFrameBytes(channels, bits);
    FramesAreBytes(batches, frameBytes);
    AlignTwice(channels, h.bitsPerSample / 8);
    assert h.blockAlign == ToU16(frameBytes);
    StoredProduct(FramesOf(batches), frameBytes);
  }

  lemma AlignTwice(channels: nat, width: nat)
    ensures ToU16(ToU16(channels) * width) == ToU16(channels * width)
  {
    var q, r := channels / 0x1_0000, channels % 0x1_0000;
    MulAdd(r, q * 0x1_0000, width);
    MulSwap(q, 0x1_0000, width);
    RingPointers.ModAddMultiple(r * width, q * width, 0x1_0000);
  }

  /** The product of truncated factors is exact when nothing was truncated. */
  lemma StoredProduct(n: nat, k: nat)
    requires k > 0
    ensures ToUInt(ToUInt(n) * ToU16(k)) == n * k <==> n * k == 0 || (k < 0x1_0000 && n * k < UINT_RANGE)
  {
    hide ToUInt, ToU16;
    var n', k' := ToUInt(n), ToU16(k);
    Truncations(n, k);
    ProductShrinks(n, n', k, k');
    var stored, exact := n' * k', n * k;
    Truncations(stored, k);
  }

  lemma ProductShrinks(n: nat, n': nat, k: nat, k': nat)
    requires n' <= n && k' <= k && 0 < k
    ensures n' * k' <= n * k && n <= n * k
    ensures n' == n && k' == k ==> n' * k' == n * k
    ensures 0 < n && k' < k ==> n' * k' < n * k
    ensures n == 0 ==> n' * k' == n * k == 0
  {
    MulMono(n', n, k');
    Commuted(k', k, n);
    Commuted(1, k, n);
    if 0 < n && k' < k {
      Commuted(k', k - 1, n);
    }
  }

  lemma Commuted(a: nat, b: nat, n: nat)
    requires a <= b
    ensures n * a <= n * b && n * a == a * n && n * b == b * n
  {
    MulMono(a, b, n);
  }

  lemma Truncations(n: nat, k: nat)
    ensures ToUInt(n) <= n && ToUInt(n) < UINT_RANGE && (n < UINT_RANGE ==> ToUInt(n) == n)
    ensures ToU16(k) <= k && ToU16(k) < 0x1_0000 && (k < 0x1_0000 ==> ToU16(k) == k)
  {
  }
}
