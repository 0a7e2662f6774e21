/** Frames and bytes: the conversions of `src/pcm.c` and the byte copy behind a frame copy. */
module FrameBytes {
  import opened CTypes
  import RingPointers

  type byte = bv8

  datatype PcmFormat = S16LE | S32LE | S8 | S24LE | S243LE | S16BE | S24BE | S243BE | S32BE | FloatLE | FloatBE

  /** `pcm_format_to_bits`. */
  function FormatToBits(format: PcmFormat): nat {
    match format
    case S32LE | S32BE | S24LE | S24BE | FloatLE | FloatBE => 32
    case S243LE | S243BE => 24
    case S16LE | S16BE => 16
    case S8 => 8
  }

  /** The parameters of a stream the conversions use. */
  datatype Config = Config(channels: nat, format: PcmFormat) {
    predicate Valid() {
      1 <= channels && channels * 4 <= UINT_MAX
    }

    /** Bytes in a frame. */
    function FrameSize(): nat {
      channels * (FormatToBits(format) / 8)
    }

    /** `pcm_frames_to_bytes`: unsigned products. */
    function FramesToBytes(frames: nat): nat {
      ToUInt(ToUInt(frames * channels) * (FormatToBits(format) / 8))
    }

    /** `pcm_bytes_to_frames`. */
    function BytesToFrames(bytes: nat): nat
      requires Valid()
    {
      FrameSizeFits(this);
      bytes / ToUInt(channels * (FormatToBits(format) / 8))
    }
  }

  lemma FrameSizeFits(c: Config)
    requires c.Valid()
    ensures 0 < c.FrameSize() <= UINT_MAX && ToUInt(c.FrameSize()) == c.FrameSize()
  {
  }

  lemma MulMono(a: nat, b: nat, k: nat)
    requires a <= b
    ensures a * k <= b * k
  {
  }

  lemma DivBounds(x: nat, d: nat)
    requires 0 < d
    ensures x / d * d <= x < x / d * d + d
  {
  }

  lemma DivExact(n: nat, d: nat)
    requires 0 < d
    ensures n * d / d == n
  {
    var q := n * d / d;
    DivBounds(n * d, d);
    if q < n {
      MulMono(q + 1, n, d);
    } else if q > n {
      MulMono(n + 1, q, d);
    }
  }

  lemma FramesToBytesExact(c: Config, frames: nat)
    requires c.Valid()
    ensures c.FramesToBytes(frames) == ToUInt(frames * c.FrameSize())
    ensures frames * c.FrameSize() <= UINT_MAX ==> c.FramesToBytes(frames) == frames * c.FrameSize()
  {
    var width := FormatToBits(c.format) / 8;
    var x := frames * c.channels;
    ProductModulo(x / UINT_RANGE, x % UINT_RANGE, width, UINT_RANGE);
    assert x == x / UINT_RANGE * UINT_RANGE + x % UINT_RANGE;
    MulAssoc(frames, c.channels, width);
  }

  lemma MulAssoc(a: nat, b: nat, c: nat)
    ensures a * b * c == a * (b * c)
  {
  }

  lemma ProductModulo(q: nat, r: nat, w: nat, m: nat)
    requires 0 < m
    ensures (q * m + r) * w % m == r * w % m
  {
    MulAdd(q * m, r, w);
    MulSwap(q, m, w);
    RingPointers.ModAddMultiple(r * w, q * w, m);
  }

  lemma MulSwap(a: nat, b: nat, c: nat)
    ensures a * b * c == a * c * b
  {
  }

  lemma MulAdd(a: nat, b: nat, k: nat)
    ensures (a + b) * k == a * k + b * k
  {
  }

  /** The conversions are inverse exactly when the byte count fits `unsigned int`. */
  lemma FramesRoundTrip(c: Config, frames: nat)
    requires c.Valid()
    ensures c.BytesToFrames(c.FramesToBytes(frames)) == frames <==> frames * c.FrameSize() <= UINT_MAX
  {
    var size := c.FrameSize();
    FrameSizeFits(c);
    FramesToBytesExact(c, frames);
    DivExact(frames, size);
    if frames * size > UINT_MAX {
      var bytes := c.FramesToBytes(frames);
      DivBounds(bytes, size);
      assert bytes <= UINT_MAX < frames * size;
      if bytes / size == frames {
        assert false;
      }
    }
  }

  /** Whole frames of a byte count: at most the count, and less than one frame short of it. */
  lemma BytesRoundTrip(c: Config, bytes: nat)
    requires c.Valid() && bytes <= UINT_MAX
    ensures c.FramesToBytes(c.BytesToFrames(bytes)) <= bytes
    ensures bytes < c.FramesToBytes(c.BytesToFrames(bytes)) + c.FrameSize()
  {
    FrameSizeFits(c);
    DivBounds(bytes, c.FrameSize());
    FramesToBytesExact(c, c.BytesToFrames(bytes));
  }

  // ---------------------------------------------------------------- buffers of bytes as buffers of frames

  /** The bytes of `n` frames, `n * size` by repeated addition: keeps the arithmetic below linear. */
  function Span(n: nat, size: nat): nat {
    if n == 0 then 0 else Span(n - 1, size) + size
  }

  lemma {:induction false} SpanIsProduct(n: nat, size: nat)
    ensures Span(n, size) == n * size
  {
    if n > 0 {
      SpanIsProduct(n - 1, size);
      MulAdd(n - 1, 1, size);
    }
  }

  lemma {:induction false} SpanAdd(a: nat, b: nat, size: nat)
    ensures Span(a + b, size) == Span(a, size) + Span(b, size)
  {
    if b > 0 {
      SpanAdd(a, b - 1, size);
    }
  }

  lemma SpanFits(at: nat, count: nat, n: nat, size: nat)
    requires at + count <= n
    ensures Span(at, size) + Span(count, size) <= Span(n, size)
  {
    hide Span;
    SpanAdd(at, count, size);
    SpanAdd(at + count, n - at - count, size);
  }

  /** The `i`-th frame of `size` bytes of a buffer. */
  ghost function FrameAt<T>(bytes: seq<T>, size: nat, i: nat): seq<T>
    requires Span(i, size) + size <= |bytes|
  {
    bytes[Span(i, size)..Span(i, size) + size]
  }

  lemma FrameFits(n: nat, size: nat, i: nat)
    requires i < n
    ensures Span(i, size) + size <= Span(n, size)
  {
    SpanAdd(i + 1, n - i - 1, size);
  }

  /** The `n` frames of `size` bytes each that a buffer holds. */
  ghost function Frames<T>(bytes: seq<T>, size: nat, n: nat): (frames: seq<seq<T>>)
    requires |bytes| == Span(n, size)
    ensures |frames| == n
  {
    seq(n, i requires 0 <= i < n => FrameFits(n, size, i); FrameAt(bytes, size, i))
  }

  lemma FramesAt<T>(bytes: seq<T>, size: nat, n: nat, i: nat)
    requires |bytes| == Span(n, size) && i < n
    ensures Span(i, size) + size <= |bytes|
    ensures Frames(bytes, size, n)[i] == FrameAt(bytes, size, i)
  {
    FrameFits(n, size, i);
  }

  /** A stretch of whole frames of one buffer, put over whole frames of another. */
  ghost function Splice<T>(dst: seq<T>, at: nat, src: seq<T>, from: nat, length: nat): seq<T>
    requires at + length <= |dst| && from + length <= |src|
  {
    dst[..at] + src[from..from + length] + dst[at + length..]
  }

  lemma SpliceLength<T>(dst: seq<T>, at: nat, src: seq<T>, from: nat, length: nat)
    requires at + length <= |dst| && from + length <= |src|
    ensures |Splice(dst, at, src, from, length)| == |dst|
  {
  }

  /** Where the bytes of frame `i` come from. */
  lemma SplicedFrame<T>(dst: seq<T>, n: nat, at: nat, src: seq<T>, m: nat, from: nat, count: nat, size: nat, i: nat,
                        spliced: seq<T>)
    requires |dst| == Span(n, size) && at + count <= n && |src| == Span(m, size) && from + count <= m && i < n
    requires Span(at, size) + Span(count, size) <= |dst| && Span(from, size) + Span(count, size) <= |src|
    requires spliced == Splice(dst, Span(at, size), src, Span(from, size), Span(count, size)) && |spliced| == |dst|
    ensures Span(i, size) + size <= |dst|
    ensures at <= i < at + count ==> Span(from + i - at, size) + size <= |src|
    ensures FrameAt(spliced, size, i) ==
        if at <= i < at + count then FrameAt(src, size, from + i - at) else FrameAt(dst, size, i)
  {
    hide Span, Splice;
    FrameFits(n, size, i);
    var lo, hi := Span(i, size), Span(i, size) + size;
    if i < at {
      FrameFits(at, size, i);
      SpliceBefore(dst, Span(at, size), src, Span(from, size), Span(count, size), lo, hi);
    } else if i < at + count {
      FrameFits(count, size, i - at);
      FrameFits(m, size, from + i - at);
      SpanAdd(at, i - at, size);
      SpanAdd(from, i - at, size);
      SpliceInside(dst, Span(at, size), src, Span(from, size), Span(count, size), lo, hi);
    } else {
      SpanAdd(at, count, size);
      SpanAdd(at + count, i - at - count, size);
      SpliceAfter(dst, Span(at, size), src, Span(from, size), Span(count, size), lo, hi);
    }
  }

  lemma SpliceBefore<T>(dst: seq<T>, at: nat, src: seq<T>, from: nat, length: nat, lo: nat, hi: nat)
    requires at + length <= |dst| && from + length <= |src| && lo <= hi <= at
    ensures |Splice(dst, at, src, from, length)| == |dst| && Splice(dst, at, src, from, length)[lo..hi] == dst[lo..hi]
  {
    var front, back := dst[..at], src[from..from + length] + dst[at + length..];
    assert Splice(dst, at, src, from, length) == front + back;
    SliceBefore(front, back, lo, hi);
    SliceOfSlice(dst, 0, at, lo, hi);
  }

  lemma SpliceInside<T>(dst: seq<T>, at: nat, src: seq<T>, from: nat, length: nat, lo: nat, hi: nat)
    requires at + length <= |dst| && from + length <= |src| && at <= lo <= hi <= at + length
    ensures |Splice(dst, at, src, from, length)| == |dst|
    ensures Splice(dst, at, src, from, length)[lo..hi] == src[from + lo - at..from + hi - at]
  {
    var front, middle, back := dst[..at], src[from..from + length], dst[at + length..];
    SliceBefore(front + middle, back, lo, hi);
    SliceAfter(front, middle, lo, hi);
    SliceOfSlice(src, from, from + length, lo - at, hi - at);
  }

  lemma SpliceAfter<T>(dst: seq<T>, at: nat, src: seq<T>, from: nat, length: nat, lo: nat, hi: nat)
    requires at + length <= |dst| && from + length <= |src| && at + length <= lo <= hi <= |dst|
    ensures |Splice(dst, at, src, from, length)| == |dst| && Splice(dst, at, src, from, length)[lo..hi] == dst[lo..hi]
  {
    var front, back := dst[..at] + src[from..from + length], dst[at + length..];
    SliceAfter(front, back, lo, hi);
    SliceOfSlice(dst, at + length, |dst|, lo - at - length, hi - at - length);
  }

  lemma SliceBefore<T>(a: seq<T>, b: seq<T>, lo: nat, hi: nat)
    requires lo <= hi <= |a|
    ensures (a + b)[lo..hi] == a[lo..hi]
  {
    var x, y := (a + b)[lo..hi], a[lo..hi];
    forall j | 0 <= j < |x|
      ensures x[j] == y[j]
    {
      assert x[j] == (a + b)[lo + j] == a[lo + j];
    }
  }

  lemma SliceAfter<T>(a: seq<T>, b: seq<T>, lo: nat, hi: nat)
    requires |a| <= lo <= hi <= |a| + |b|
    ensures (a + b)[lo..hi] == b[lo - |a|..hi - |a|]
  {
    var x, y := (a + b)[lo..hi], b[lo - |a|..hi - |a|];
    forall j | 0 <= j < |x|
      ensures x[j] == y[j]
    {
      assert x[j] == (a + b)[lo + j] == b[lo - |a| + j];
    }
  }

  lemma SliceOfSlice<T>(s: seq<T>, from: nat, to: nat, lo: nat, hi: nat)
    requires from <= to <= |s| && lo <= hi <= to - from
    ensures s[from..to][lo..hi] == s[from + lo..from + hi]
  {
    var x, y := s[from..to][lo..hi], s[from + lo..from + hi];
    forall j | 0 <= j < |x|
      ensures x[j] == y[j]
    {
      assert x[j] == s[from..to][lo + j] == s[from + lo + j];
    }
  }

  lemma FrameOfSplice<T>(dst: seq<T>, n: nat, at: nat, src: seq<T>, m: nat, from: nat, count: nat, size: nat, i: nat,
                         spliced: seq<T>)
    requires |dst| == Span(n, size) && at + count <= n && |src| == Span(m, size) && from + count <= m && i < n
    requires Span(at, size) + Span(count, size) <= |dst| && Span(from, size) + Span(count, size) <= |src|
    requires spliced == Splice(dst, Span(at, size), src, Span(from, size), Span(count, size)) && |spliced| == |dst|
    ensures Frames(spliced, size, n)[i] ==
      if at <= i < at + count then Frames(src, size, m)[from + i - at] else Frames(dst, size, n)[i]
  {
    hide *;
    FramesAt(spliced, size, n, i);
    if at <= i < at + count {
      FramesAt(src, size, m, from + i - at);
    } else {
      FramesAt(dst, size, n, i);
    }
    SplicedFrame(dst, n, at, src, m, from, count, size, i, spliced);
  }

  /** Splicing bytes at frame boundaries is splicing frames. */
  lemma SpliceFrames<T>(dst: seq<T>, n: nat, at: nat, src: seq<T>, m: nat, from: nat, count: nat, size: nat)
    requires |dst| == Span(n, size) && at + count <= n
    requires |src| == Span(m, size) && from + count <= m
    ensures Span(at, size) + Span(count, size) <= |dst| && Span(from, size) + Span(count, size) <= |src|
    ensures Frames(Splice(dst, Span(at, size), src, Span(from, size), Span(count, size)), size, n) ==
      Frames(dst, size, n)[..at] + Frames(src, size, m)[from..from + count] + Frames(dst, size, n)[at + count..]
  {
    hide Span, FrameAt, Frames, Splice;
    SpanFits(at, count, n, size);
    SpanFits(from, count, m, size);
    var spliced := Splice(dst, Span(at, size), src, Span(from, size), Span(count, size));
    SpliceLength(dst, Span(at, size), src, Span(from, size), Span(count, size));
    var fs, fd, fr := Frames(spliced, size, n), Frames(dst, size, n), Frames(src, size, m);
    forall i | 0 <= i < n
      ensures fs[i] == if at <= i < at + count then fr[from + i - at] else fd[i]
    {
      FrameOfSplice(dst, n, at, src, m, from, count, size, i, spliced);
    }
    AssembledFrames(fs, fd, fr, at, from, count);
  }

  lemma AssembledFrames<F>(fs: seq<F>, fd: seq<F>, fr: seq<F>, at: nat, from: nat, count: nat)
    requires at + count <= |fd| == |fs| && from + count <= |fr|
    requires forall i :: 0 <= i < |fs| ==> fs[i] == if at <= i < at + count then fr[from + i - at] else fd[i]
    ensures fs == fd[..at] + fr[from..from + count] + fd[at + count..]
  {
  }

  /**
   `pcm_areas_copy`: the byte offsets and sizes are computed as `int`. When the
   products fit, the destination's frames change exactly as a frame copy would change them.
   */
  method AreasCopy(c: Config, capture: bool, mmapBuffer: array<byte>, pcmOffset: nat,
                   buf: array<byte>, srcOffset: nat, frames: nat, ghost ringFrames: nat, ghost userFrames: nat)
    requires c.Valid() && mmapBuffer != buf
    requires mmapBuffer.Length == Span(ringFrames, c.FrameSize()) && pcmOffset + frames <= ringFrames
    requires buf.Length == Span(userFrames, c.FrameSize()) && srcOffset + frames <= userFrames
    requires Span(frames, c.FrameSize()) <= INT_MAX
    requires Span(pcmOffset, c.FrameSize()) <= INT_MAX && Span(srcOffset, c.FrameSize()) <= INT_MAX
    modifies if capture then buf else mmapBuffer
    ensures capture ==>
      Frames(buf[..], c.FrameSize(), userFrames) ==
        old(Frames(buf[..], c.FrameSize(), userFrames)[..srcOffset])
        + Frames(mmapBuffer[..], c.FrameSize(), ringFrames)[pcmOffset..pcmOffset + frames]
        + old(Frames(buf[..], c.FrameSize(), userFrames)[srcOffset + frames..])
    ensures !capture ==>
      Frames(mmapBuffer[..], c.FrameSize(), ringFrames) ==
        old(Frames(mmapBuffer[..], c.FrameSize(), ringFrames)[..pcmOffset])
        + Frames(buf[..], c.FrameSize(), userFrames)[srcOffset..srcOffset + frames]
        + old(Frames(mmapBuffer[..], c.FrameSize(), ringFrames)[pcmOffset + frames..])
  {
    hide Span, Frames;
    ghost var size := c.FrameSize();
    IntBytes(c, frames);
    IntBytes(c, pcmOffset);
    IntBytes(c, srcOffset);
    var sizeBytes := ToInt(c.FramesToBytes(frames));
    var pcmOffsetBytes := ToInt(c.FramesToBytes(pcmOffset));
    var srcOffsetBytes := ToInt(c.FramesToBytes(srcOffset));
    if capture {
      SpliceFrames(buf[..], userFrames, srcOffset, mmapBuffer[..], ringFrames, pcmOffset, frames, size);
      MemCopy(buf, srcOffsetBytes, mmapBuffer, pcmOffsetBytes, sizeBytes);
    } else {
      SpliceFrames(mmapBuffer[..], ringFrames, pcmOffset, buf[..], userFrames, srcOffset, frames, size);
      MemCopy(mmapBuffer, pcmOffsetBytes, buf, srcOffsetBytes, sizeBytes);
    }
  }

  lemma IntBytes(c: Config, frames: nat)
    requires c.Valid() && Span(frames, c.FrameSize()) <= INT_MAX
    ensures ToInt(c.FramesToBytes(frames)) == Span(frames, c.FrameSize())
  {
    SpanIsProduct(frames, c.FrameSize());
    FramesToBytesExact(c, frames);
  }

  /** `memcpy`. */
  method MemCopy(dst: array<byte>, at: nat, src: array<byte>, from: nat, n: nat)
    requires dst != src && at + n <= dst.Length && from + n <= src.Length
    modifies dst
    ensures dst[..] == Splice(old(dst[..]), at, src[..], from, n)
  {
    forall i | 0 <= i < n {
      dst[at + i] := src[from + i];
    }
  }
}
