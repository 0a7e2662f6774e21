/**
 From a plugin's constraints and an application's request to one configuration:
 `pcm_plug_get_params`, `pcm_plug_hw_params_set`, `pcm_plug_hparams` and the part
 of `pcm_set_config` that reads the result back.
 */
module PluginConfig {
  import opened CTypes
  import opened Wrappers
  import opened FrameBytes
  import opened HwParams

  datatype MinMax = MinMax(min: nat, max: nat) {
    predicate Valid() {
      min <= UINT_MAX && max <= UINT_MAX
    }
  }

  /** `struct pcm_plugin_hw_constraints`. */
  datatype Constraints = Constraints(access: set<nat>, format: set<nat>, bitWidth: MinMax, channels: MinMax,
                                     rate: MinMax, periods: MinMax, periodBytes: MinMax) {
    /** The widths of the C fields, and no division by zero in `pcm_plug_get_params`. */
    predicate Valid() {
      && bitWidth.Valid() && channels.Valid() && rate.Valid() && periods.Valid() && periodBytes.Valid()
      && FrameBitsMin() > 0
    }

    function FrameBitsMin(): nat {
      ToUInt(bitWidth.min * channels.min)
    }

    /** The smallest period the plugin admits, in frames: both ends are divided by the smallest frame. */
    function PeriodSize(): MinMax
      requires Valid()
    {
      MinMax(BytesToFramesPlug(periodBytes.min, FrameBitsMin()), BytesToFramesPlug(periodBytes.max, FrameBitsMin()))
    }
  }

  /** `pcm_plug_bytes_to_frames`. */
  function BytesToFramesPlug(size: nat, frameBits: nat): (frames: nat)
    requires frameBits > 0
    ensures frames <= UINT_MAX
  {
    QuotientFits(ToUInt(size * 8), frameBits);
    ToUInt(size * 8) / frameBits
  }

  /** `pcm_plug_frames_to_bytes`. */
  function FramesToBytesPlug(frames: nat, frameBits: nat): nat {
    ToUInt(frames * (frameBits / 8))
  }

  lemma QuotientFits(x: nat, d: nat)
    requires d > 0
    ensures x / d <= x
  {
    DivBounds(x, d);
    MulMono(1, d, x / d);
    assert d * (x / d) == x / d * d;
  }

  function Closed(v: MinMax, integer: bool): Interval {
    Interval(v.min, v.max, false, false, integer)
  }

  /** The intervals `pcm_plug_get_params` fills in; those it does not name stay zero. */
  function ConstraintIntervals(k: Constraints): (s: seq<Interval>)
    requires k.Valid()
    ensures |s| == INTERVALS && forall i :: 0 <= i < INTERVALS ==> s[i].Valid() && !s[i].openmin && !s[i].openmax
  {
    var frameBits := MinMax(k.FrameBitsMin(), ToUInt(k.bitWidth.max * k.channels.max));
    var bufferBytes := MinMax(ToUInt(k.periodBytes.min * k.periods.min), ToUInt(k.periodBytes.max * k.periods.max));
    var bufferSize := MinMax(BytesToFramesPlug(bufferBytes.min, frameBits.min), BytesToFramesPlug(bufferBytes.max, frameBits.min));
    var unset := Interval(0, 0, false, false, false);
    [Closed(k.bitWidth, true), Closed(frameBits, true), Closed(k.channels, true), Closed(k.rate, true),
     unset, Closed(k.PeriodSize(), true), Closed(k.periodBytes, false), Closed(k.periods, true),
     unset, Closed(bufferSize, true), Closed(bufferBytes, true), unset]
  }

  /** `pcm_plug_set_interval` on a zeroed structure. */
  method SetInterval(p: Params, i: nat, v: MinMax, isInteger: bool)
    requires p.Valid() && i < INTERVALS && v.Valid()
    modifies p.intervals
    ensures p.Valid()
    ensures p.intervals[..] == old(p.intervals[..])[i :=
              old(p.intervals[i]).(min := v.min, max := v.max, integer := isInteger || old(p.intervals[i]).integer)]
  {
    p.intervals[i] := p.intervals[i].(min := v.min, max := v.max);
    if isInteger {
      p.intervals[i] := p.intervals[i].(integer := true);
    }
  }

  /**
   `pcm_plug_get_params` into a zeroed structure. The subformat constraint is given as the
   number of the STD subformat, which is 0, where a mask is expected: no bit is set.
   */
  method GetParams(k: Constraints) returns (c: Params)
    requires k.Valid()
    ensures c.Valid() && fresh(c) && fresh(c.masks) && fresh(c.intervals)
    ensures c.intervals[..] == ConstraintIntervals(k)
    ensures c.masks[..] == [k.access, k.format, {}]
  {
    c := new Params.Zero();
    c.masks[0], c.masks[1] := k.access, k.format;
    SetStandard(c, k);
    SetCalculated(c, k);
    assert c.intervals[..] == ConstraintIntervals(k);
  }

  /** The intervals taken over from the constraints. */
  method SetStandard(c: Params, k: Constraints)
    requires c.Valid() && k.Valid()
    requires forall i :: 0 <= i < INTERVALS ==> c.intervals[i] == Interval(0, 0, false, false, false)
    modifies c.intervals
    ensures c.Valid()
    ensures forall i :: 0 <= i < INTERVALS ==>
              c.intervals[i] == if Standard(i) then ConstraintIntervals(k)[i] else Interval(0, 0, false, false, false)
  {
    SetInterval(c, SAMPLE_BITS, k.bitWidth, true);
    SetInterval(c, CHANNELS, k.channels, true);
    SetInterval(c, RATE, k.rate, true);
    SetInterval(c, PERIOD_BYTES, k.periodBytes, false);
    SetInterval(c, PERIODS, k.periods, true);
  }

  predicate Standard(i: int) {
    i == SAMPLE_BITS || i == CHANNELS || i == RATE || i == PERIOD_BYTES || i == PERIODS
  }

  /** The calculated intervals. */
  method SetCalculated(c: Params, k: Constraints)
    requires c.Valid() && k.Valid()
    requires forall i :: 0 <= i < INTERVALS && !Standard(i) ==> c.intervals[i] == Interval(0, 0, false, false, false)
    modifies c.intervals
    ensures c.Valid()
    ensures forall i :: 0 <= i < INTERVALS ==>
              c.intervals[i] == if Standard(i) then old(c.intervals[i]) else ConstraintIntervals(k)[i]
  {
    var frameBits := MinMax(ToUInt(k.bitWidth.min * k.channels.min), ToUInt(k.bitWidth.max * k.channels.max));
    SetInterval(c, FRAME_BITS, frameBits, true);
    var val := MinMax(BytesToFramesPlug(k.periodBytes.min, frameBits.min), BytesToFramesPlug(k.periodBytes.max, frameBits.min));
    SetInterval(c, PERIOD_SIZE, val, true);
    var bufferBytes := MinMax(ToUInt(k.periodBytes.min * k.periods.min), ToUInt(k.periodBytes.max * k.periods.max));
    SetInterval(c, BUFFER_BYTES, bufferBytes, true);
    val := MinMax(BytesToFramesPlug(bufferBytes.min, frameBits.min), BytesToFramesPlug(bufferBytes.max, frameBits.min));
    SetInterval(c, BUFFER_SIZE, val, true);
  }

  datatype Select = SelectMin | SelectMax | SelectVal(val: nat)

  /** `pcm_plug_interval_select`: an interval whose minimum is zero is refused, and its callers do not look. */
  method IntervalSelect(p: Params, i: nat, select: Select) returns (refused: bool)
    requires p.Valid() && i < INTERVALS && (select.SelectVal? ==> select.val <= UINT_MAX)
    modifies p.intervals
    ensures p.Valid() && refused == (old(p.intervals[i]).min == 0)
    ensures p.intervals[..] == old(p.intervals[..])[i := if refused then old(p.intervals[i]) else Selected(old(p.intervals[i]), select)]
  {
    if p.intervals[i].min == 0 {
      return true;
    }
    match select {
      case SelectMin => p.intervals[i] := p.intervals[i].(max := p.intervals[i].min);
      case SelectMax => p.intervals[i] := p.intervals[i].(min := p.intervals[i].max);
      case SelectVal(val) => p.intervals[i] := p.intervals[i].(min := val, max := val);
    }
    return false;
  }

  function Selected(i: Interval, select: Select): Interval {
    match select
    case SelectMin => i.(max := i.min)
    case SelectMax => i.(min := i.max)
    case SelectVal(val) => i.(min := val, max := val)
  }

  /** An end selected is the one value left, and one the interval had. */
  lemma SelectedEnds(i: Interval, select: Select)
    requires i.min <= i.max && !i.openmin && !i.openmax
    ensures var s := Selected(i, select);
      && s.min == s.max && (select.SelectMin? ==> s.min == i.min) && (select.SelectMax? ==> s.min == i.max)
      && (select.SelectVal? ==> s.min == select.val)
      && (!select.SelectVal? ==> i.Has(s.min as real))
  {
    IntOrder(i.min, i.max);
    assert (i.min as real).Floor == i.min && (i.max as real).Floor == i.max;
  }

  /** What a chosen value leaves of an interval. */
  function Fixed(i: Interval, val: nat): Interval {
    if i.min == 0 then i else i.(min := val, max := val)
  }

  /** The parameters chosen first, each at its minimum. */
  predicate Primary(i: int) {
    i == SAMPLE_BITS || i == CHANNELS || i == RATE || i == PERIOD_SIZE || i == PERIODS
  }

  /** The intervals after selection, from those before it. */
  ghost predicate Configured(r: seq<Interval>, s: seq<Interval>) {
    && |r| == |s| == INTERVALS
    && (forall i :: 0 <= i < INTERVALS && Primary(i) ==> s[i] == Fixed(r[i], r[i].min))
    && var frameBits := ToUInt(r[SAMPLE_BITS].min * r[CHANNELS].min);
       var bufferSize := ToUInt(r[PERIOD_SIZE].min * r[PERIODS].min);
    && s[FRAME_BITS] == Fixed(r[FRAME_BITS], frameBits)
    && s[PERIOD_BYTES] == Fixed(r[PERIOD_BYTES], FramesToBytesPlug(r[PERIOD_SIZE].min, frameBits))
    && s[BUFFER_SIZE] == Fixed(r[BUFFER_SIZE], bufferSize)
    && s[BUFFER_BYTES] == Fixed(r[BUFFER_BYTES], FramesToBytesPlug(bufferSize, frameBits))
    && s[PERIOD_TIME] == r[PERIOD_TIME] && s[BUFFER_TIME] == r[BUFFER_TIME] && s[TICK_TIME] == r[TICK_TIME]
  }

  /** The loop of `pcm_plug_hw_params_set` over `param_list`. */
  method SelectMinima(p: Params)
    requires p.Valid()
    modifies p.intervals
    ensures p.Valid()
    ensures forall i :: 0 <= i < INTERVALS ==>
              p.intervals[i] == if Primary(i) then Fixed(old(p.intervals[i]), old(p.intervals[i]).min) else old(p.intervals[i])
  {
    var paramList := [SAMPLE_BITS, CHANNELS, RATE, PERIOD_SIZE, PERIODS];
    for n := 0 to |paramList|
      invariant p.Valid()
      invariant forall i :: 0 <= i < INTERVALS ==>
                  p.intervals[i] == if i in paramList[..n] then Fixed(old(p.intervals[i]), old(p.intervals[i]).min) else old(p.intervals[i])
    {
      assert paramList[..n + 1] == paramList[..n] + [paramList[n]];
      var _ := IntervalSelect(p, paramList[n], SelectMin);
    }
    assert paramList[..|paramList|] == paramList;
  }

  /** `pcm_plug_hw_params_set`. */
  method HwParamsSet(p: Params)
    requires p.Valid()
    modifies p.intervals
    ensures p.Valid() && Configured(old(p.intervals[..]), p.intervals[..])
  {
    SelectMinima(p);
    ghost var r := p.intervals[..];
    var bw, ch := p.intervals[SAMPLE_BITS].min, p.intervals[CHANNELS].min;
    var periodSz, periods := p.intervals[PERIOD_SIZE].min, p.intervals[PERIODS].min;
    var frameBits, bufferSize := ToUInt(bw * ch), ToUInt(periodSz * periods);
    SelectValue(p, FRAME_BITS, frameBits);
    SelectValue(p, PERIOD_BYTES, FramesToBytesPlug(periodSz, frameBits));
    SelectValue(p, BUFFER_SIZE, bufferSize);
    SelectValue(p, BUFFER_BYTES, FramesToBytesPlug(bufferSize, frameBits));
  }

  /** Selecting a computed value; the result of `pcm_plug_interval_select` is not looked at. */
  method SelectValue(p: Params, i: nat, val: nat)
    requires p.Valid() && i < INTERVALS && val <= UINT_MAX
    modifies p.intervals
    ensures p.Valid() && p.intervals[..] == old(p.intervals[..])[i := Fixed(old(p.intervals[i]), val)]
  {
    var _ := IntervalSelect(p, i, SelectVal(val));
  }

  /** All requested intervals refined by their constraints. */
  ghost function RefineAll(r: seq<Interval>, c: seq<Interval>): (s: seq<Interval>)
    requires |r| == |c|
    ensures |s| == |r|
  {
    seq(|r|, i requires 0 <= i < |r| => Refine(r[i], c[i]))
  }

  /** A bit of an `unsigned int`. */
  predicate WordBit(b: int) {
    0 <= b < 32
  }

  /** `pcm_plug_hparams` up to the call of the plugin: `p` is what the plugin is handed. */
  method Hparams(p: Params, k: Constraints)
    requires p.Valid() && k.Valid()
    modifies p, p.masks, p.intervals
    ensures p.Valid() && p.rmask == {}
    ensures Configured(RefineAll(old(p.intervals[..]), ConstraintIntervals(k)), p.intervals[..])
    ensures p.masks[..] == [old(p.masks[0]) * k.access, old(p.masks[1]) * k.format, {}]
  {
    hide Configured, RefineAll;
    p.rmask := set b | 0 <= b < 32 && WordBit(b);
    Hrefine(p, k);
    HwParamsSet(p);
  }

  /** `__pcm_plug_hrefine` with every parameter requested. */
  method Hrefine(p: Params, k: Constraints)
    requires p.Valid() && k.Valid() && forall b :: WordBit(b) ==> b in p.rmask
    modifies p, p.masks, p.intervals
    ensures p.Valid() && p.rmask == {}
    ensures p.intervals[..] == RefineAll(old(p.intervals[..]), ConstraintIntervals(k))
    ensures p.masks[..] == [old(p.masks[0]) * k.access, old(p.masks[1]) * k.format, {}]
  {
    hide Refine, ConstraintIntervals, ChangedBits;
    var c := GetParams(k);
    ghost var r := p.intervals[..];
    assert WordBit(0) && WordBit(1) && WordBit(2);
    HwParamsRefine(p, c);
    assert c.masks[..][0] == k.access && c.masks[..][1] == k.format && c.masks[..][2] == {};
    assert p.masks[2] == {};
    forall i | 0 <= i < INTERVALS
      ensures p.intervals[i] == Refine(r[i], ConstraintIntervals(k)[i])
    {
      assert WordBit(FIRST_INTERVAL + i);
      assert c.intervals[..][i] == ConstraintIntervals(k)[i];
    }
  }

  // ---------------------------------------------------------------- what the plugin is handed

  /** The interval stands for one value. */
  predicate Single(i: Interval, val: nat) {
    i.min == val && i.max == val
  }

  /**
   The configuration is consistent: every quantity is a single value and the derived ones
   follow from the chosen ones, provided no refined minimum is zero and the byte count
   of the buffer fits `unsigned int`.
   */
  lemma SelectionConsistent(r: seq<Interval>, s: seq<Interval>)
    requires Configured(r, s)
    requires forall i :: 0 <= i < INTERVALS && !Time(i) ==> r[i].min > 0
    requires r[SAMPLE_BITS].min * r[CHANNELS].min <= UINT_MAX
    requires r[PERIOD_SIZE].min * r[PERIODS].min <= UINT_MAX
    requires r[PERIOD_SIZE].min * r[PERIODS].min * (r[SAMPLE_BITS].min * r[CHANNELS].min / 8) <= UINT_MAX
    ensures forall i :: 0 <= i < INTERVALS && !Time(i) ==> Single(s[i], s[i].min)
    ensures s[FRAME_BITS].min == s[SAMPLE_BITS].min * s[CHANNELS].min
    ensures s[BUFFER_SIZE].min == s[PERIOD_SIZE].min * s[PERIODS].min
    ensures s[BUFFER_BYTES].min == s[PERIOD_BYTES].min * s[PERIODS].min
    ensures s[FRAME_BITS].min % 8 == 0 ==> s[PERIOD_BYTES].min * 8 == s[PERIOD_SIZE].min * s[FRAME_BITS].min
  {
    var bits := r[SAMPLE_BITS].min * r[CHANNELS].min;
    var frames := r[PERIOD_SIZE].min * r[PERIODS].min;
    hide FramesToBytesPlug, ToUInt;
    BufferIdentities(r[PERIOD_SIZE].min, r[PERIODS].min, bits);
    FitsUInt(bits);
    FitsUInt(frames);
    assert s[PERIOD_SIZE].min == r[PERIOD_SIZE].min && s[PERIODS].min == r[PERIODS].min;
    assert s[SAMPLE_BITS].min == r[SAMPLE_BITS].min && s[CHANNELS].min == r[CHANNELS].min;
    assert s[FRAME_BITS].min == bits && s[BUFFER_SIZE].min == frames;
  }

  lemma FitsUInt(x: nat)
    ensures x <= UINT_MAX ==> ToUInt(x) == x
  {
  }

  /** The parameters that are never selected. */
  predicate Time(i: int) {
    i == PERIOD_TIME || i == BUFFER_TIME || i == TICK_TIME
  }

  lemma BufferIdentities(size: nat, periods: nat, bits: nat)
    requires 0 < periods && size * periods <= UINT_MAX && size * periods * (bits / 8) <= UINT_MAX
    ensures FramesToBytesPlug(size, bits) == size * (bits / 8)
    ensures FramesToBytesPlug(size * periods, bits) == size * (bits / 8) * periods
    ensures bits % 8 == 0 ==> size * (bits / 8) * 8 == size * bits
  {
    BufferBytesFit(size, periods, bits / 8);
    if bits % 8 == 0 {
      EighthOf(size, bits);
    }
  }

  lemma BufferBytesFit(size: nat, periods: nat, width: nat)
    requires 0 < periods
    ensures size * periods * width == size * width * periods
    ensures size * width <= size * width * periods
  {
    MulSwap(size, periods, width);
    MulMono(1, periods, size * width);
  }

  /** A refined interval of an application's plain request. */
  lemma RefinePlain(r: Interval, c: Interval)
    requires !r.openmin && !r.openmax && !c.openmin && !c.openmax
    ensures Refine(r, c).min == (if r.min < c.min then c.min else r.min)
    ensures Refine(r, c).max == (if r.max > c.max then c.max else r.max)
  {
  }

  lemma QuotientAtLeast(x: nat, d: nat, q: nat)
    requires 0 < d
    ensures q <= x / d <==> q * d <= x
  {
    DivBounds(x, d);
    if q <= x / d {
      MulMono(q, x / d, d);
    } else {
      MulMono(x / d + 1, q, d);
    }
  }

  /** The intervals of the constraints, when no product wraps. */
  lemma ConstraintEnds(k: Constraints)
    requires k.Valid() && BitsOf(k.bitWidth.max, k.channels.max) <= UINT_MAX && BitsOf(k.periodBytes.max, k.periods.max) <= UINT_MAX
    requires BitsOf(k.bitWidth.min, k.channels.min) <= UINT_MAX && BitsOf(k.periodBytes.min, k.periods.min) <= UINT_MAX
    ensures var c := ConstraintIntervals(k);
      && c[SAMPLE_BITS] == Closed(k.bitWidth, true) && c[CHANNELS] == Closed(k.channels, true) && c[RATE] == Closed(k.rate, true)
      && c[PERIODS] == Closed(k.periods, true) && c[PERIOD_BYTES] == Closed(k.periodBytes, false)
      && c[PERIOD_SIZE] == Closed(k.PeriodSize(), true)
      && c[FRAME_BITS] == Closed(MinMax(BitsOf(k.bitWidth.min, k.channels.min), BitsOf(k.bitWidth.max, k.channels.max)), true)
      && c[BUFFER_BYTES] == Closed(MinMax(BitsOf(k.periodBytes.min, k.periods.min), BitsOf(k.periodBytes.max, k.periods.max)), true)
      && c[BUFFER_SIZE] == Closed(MinMax(BytesToFramesPlug(BitsOf(k.periodBytes.min, k.periods.min), k.FrameBitsMin()),
                                         BytesToFramesPlug(BitsOf(k.periodBytes.max, k.periods.max), k.FrameBitsMin())), true)
  {
    hide BytesToFramesPlug, ToUInt;
    FitsUInt(BitsOf(k.bitWidth.min, k.channels.min));
    FitsUInt(BitsOf(k.bitWidth.max, k.channels.max));
    FitsUInt(BitsOf(k.periodBytes.min, k.periods.min));
    FitsUInt(BitsOf(k.periodBytes.max, k.periods.max));
  }

  /**
   The derived intervals take in every combination the plugin allows, and nothing beyond the extreme ones: bits of
   a frame, bytes and frames of a buffer. The buffer is divided by the smallest frame at both ends.
   */
  lemma ConstraintsCover(k: Constraints, width: nat, channels: nat, bytes: nat, periods: nat, frames: nat)
    requires k.Valid()
    requires Within(k.bitWidth, width) && Within(k.channels, channels) && Within(k.periodBytes, bytes) && Within(k.periods, periods)
    requires k.bitWidth.max * k.channels.max <= UINT_MAX && k.periodBytes.max * k.periods.max * 8 <= UINT_MAX
    ensures var c := ConstraintIntervals(k);
      && c[RATE] == Closed(k.rate, true)
      && c[FRAME_BITS].min == k.bitWidth.min * k.channels.min <= width * channels <= c[FRAME_BITS].max == k.bitWidth.max * k.channels.max
      && c[BUFFER_BYTES].min == k.periodBytes.min * k.periods.min <= bytes * periods <= c[BUFFER_BYTES].max == k.periodBytes.max * k.periods.max
      && (frames <= c[BUFFER_SIZE].max <==> frames * k.FrameBitsMin() <= k.periodBytes.max * k.periods.max * 8)
      && (frames <= c[BUFFER_SIZE].min <==> frames * k.FrameBitsMin() <= k.periodBytes.min * k.periods.min * 8)
  {
    hide BytesToFramesPlug, ToUInt, ConstraintIntervals, Constraints.FrameBitsMin;
    ProductBetween(k.bitWidth.min, width, k.bitWidth.max, k.channels.min, channels, k.channels.max);
    ProductBetween(k.periodBytes.min, bytes, k.periodBytes.max, k.periods.min, periods, k.periods.max);
    ConstraintEnds(k);
    PlugFramesUpTo(k.periodBytes.max * k.periods.max, k.FrameBitsMin(), frames);
    PlugFramesUpTo(k.periodBytes.min * k.periods.min, k.FrameBitsMin(), frames);
  }

  lemma ProductBetween(a: nat, x: nat, b: nat, c: nat, y: nat, d: nat)
    requires a <= x <= b && c <= y <= d
    ensures a * c <= x * y <= b * d
  {
    MulMono(a, x, c);
    MulMono(c, y, x);
    MulMono(x, b, y);
    MulMono(y, d, b);
  }

  lemma PlugFramesUpTo(size: nat, bits: nat, frames: nat)
    requires 0 < bits && size * 8 <= UINT_MAX
    ensures frames <= BytesToFramesPlug(size, bits) <==> frames * bits <= size * 8
  {
    hide ToUInt;
    FitsUInt(size * 8);
    QuotientAtLeast(size * 8, bits, frames);
  }

  predicate Within(v: MinMax, x: nat) {
    v.min <= x <= v.max
  }

  /**
   When one frame is the smallest frame, the period bounds in frames say what the bounds in bytes say, but for
   the lower bound itself: it is short of the bytes unless the smallest frame divides them.
   */
  lemma PeriodBytesWithin(k: Constraints, frames: nat)
    requires k.Valid() && k.FrameBitsMin() % 8 == 0
    requires k.periodBytes.min * 8 <= UINT_MAX && k.periodBytes.max * 8 <= UINT_MAX
    ensures Within(k.periodBytes, frames * (k.FrameBitsMin() / 8)) <==>
              Within(k.PeriodSize(), frames)
              && (frames == k.PeriodSize().min ==> k.periodBytes.min * 8 % k.FrameBitsMin() == 0)
  {
    var bits, least := k.FrameBitsMin(), k.PeriodSize().min;
    PlugFramesAtLeast(k.periodBytes.max, bits, frames);
    PlugFramesAtLeast(k.periodBytes.min, bits, frames);
    PlugFramesExact(k.periodBytes.min, bits);
    assert bits / 8 > 0;
    hide BytesToFramesPlug;
    if frames < least {
      PlugFramesAtLeast(k.periodBytes.min, bits, least);
      MulMono(frames + 1, least, bits / 8);
      MulAdd(frames, 1, bits / 8);
    }
  }

  lemma PlugFramesExact(size: nat, bits: nat)
    requires 0 < bits && bits % 8 == 0 && size * 8 <= UINT_MAX
    ensures size <= BytesToFramesPlug(size, bits) * (bits / 8) <==> size * 8 % bits == 0
  {
    hide ToUInt;
    FitsUInt(size * 8);
    var frames := BytesToFramesPlug(size, bits);
    EighthOf(frames, bits);
    DivisionExact(size * 8, bits);
    assert frames == size * 8 / bits;
    hide *;
    assert size <= frames * (bits / 8) <==> size * 8 <= frames * (bits / 8) * 8;
  }

  lemma DivisionExact(x: nat, d: nat)
    requires 0 < d
    ensures x <= x / d * d <==> x % d == 0
  {
    assert x == x / d * d + x % d;
  }

  /** For a frame of any width: all periods within the bounds in frames are within those in bytes exactly when the bounds are. */
  lemma PeriodBoundsIff(k: Constraints, bits: nat)
    requires k.Valid() && k.PeriodSize().min <= k.PeriodSize().max
    ensures (forall frames: nat :: Within(k.PeriodSize(), frames) ==> Within(k.periodBytes, BytesOf(frames, bits)))
       <==> k.periodBytes.min <= BytesOf(k.PeriodSize().min, bits) && BytesOf(k.PeriodSize().max, bits) <= k.periodBytes.max
  {
    hide BytesToFramesPlug, BytesOf;
    var size := k.PeriodSize();
    if BytesOf(size.min, bits) >= k.periodBytes.min && BytesOf(size.max, bits) <= k.periodBytes.max {
      forall frames: nat | Within(size, frames)
        ensures Within(k.periodBytes, BytesOf(frames, bits))
      {
        BytesOfMono(size.min, frames, bits);
        BytesOfMono(frames, size.max, bits);
      }
    } else {
      assert Within(size, size.min) && Within(size, size.max);
    }
  }

  lemma BytesOfMono(a: nat, b: nat, bits: nat)
    requires a <= b
    ensures BytesOf(a, bits) <= BytesOf(b, bits)
  {
    MulMono(a, b, bits / 8);
  }

  lemma PlugFramesAtLeast(size: nat, bits: nat, frames: nat)
    requires 0 < bits && bits % 8 == 0 && size * 8 <= UINT_MAX
    ensures frames <= BytesToFramesPlug(size, bits) <==> frames * (bits / 8) <= size
  {
    hide ToUInt;
    FitsUInt(size * 8);
    QuotientAtLeast(size * 8, bits, frames);
    EighthOf(frames, bits);
  }

  lemma EighthOf(frames: nat, bits: nat)
    requires bits % 8 == 0
    ensures frames * bits == frames * (bits / 8) * 8
  {
    MulAssoc(frames, bits / 8, 8);
  }

  /**
   Both bounds fail: with the constraints of the sample plugin, eight channels and 8000 frames, a period within the
   bounds in frames exceeds the bytes; and where the smallest frame does not divide the bytes, the smallest
   period, which is the one selected when the application asks for less, falls short of them.
   */
  lemma PeriodBytesBeyond()
    ensures var k := Constraints({3}, {2}, MinMax(16, 32), MinMax(1, 8), MinMax(8000, 384000), MinMax(1, 8), MinMax(96, 122880));
      && k.Valid()
      && Within(k.PeriodSize(), 8000)
      && FramesToBytesPlug(8000, 16 * 8) > k.periodBytes.max
    ensures var k := Constraints({3}, {2}, MinMax(16, 16), MinMax(1, 1), MinMax(8000, 384000), MinMax(1, 8), MinMax(97, 122880));
      && k.Valid()
      && k.PeriodSize().min == 48
      && FramesToBytesPlug(48, 16) < k.periodBytes.min
  {
  }

  // ---------------------------------------------------------------- pcm_set_config

  /** The part of `struct pcm_config` that decides the buffer. */
  datatype PcmConfig = PcmConfig(channels: nat, rate: nat, periodSize: nat, periodCount: nat, format: PcmFormat) {
    predicate Valid() {
      channels <= UINT_MAX && rate <= UINT_MAX && periodSize <= UINT_MAX && periodCount <= UINT_MAX
    }
  }

  const DEFAULT_CONFIG := PcmConfig(2, 48000, 1024, 4, S16LE)

  /** The intervals `pcm_set_config` asks for; all others are left as `param_init` sets them. */
  function RequestIntervals(config: PcmConfig): (s: seq<Interval>)
    requires config.Valid()
    ensures |s| == INTERVALS && forall i :: 0 <= i < INTERVALS ==> s[i].Valid() && !s[i].openmin && !s[i].openmax
  {
    seq(INTERVALS, i =>
      if i == CHANNELS then Interval(config.channels, config.channels, false, false, true)
      else if i == RATE then Interval(config.rate, config.rate, false, false, true)
      else if i == PERIODS then Interval(config.periodCount, config.periodCount, false, false, true)
      else if i == PERIOD_SIZE then Interval(config.periodSize, UINT_MAX, false, false, false)
      else Interval(0, UINT_MAX, false, false, false))
  }

  function Max(a: nat, b: nat): nat {
    if a < b then b else a
  }

  /**
   What `pcm_set_config` reads back on a plugin stream: the larger of the request and the
   plugin's minimum, whatever the plugin's maximum is. An empty intersection is not noticed.
   */
  lemma ReadBack(config: PcmConfig, k: Constraints, s: seq<Interval>)
    requires config.Valid() && k.Valid()
    requires Configured(RefineAll(RequestIntervals(config), ConstraintIntervals(k)), s)
    ensures s[PERIOD_SIZE].integer && s[PERIODS].integer
    ensures Max(config.periodSize, k.PeriodSize().min) > 0 ==> s[PERIOD_SIZE].max == Max(config.periodSize, k.PeriodSize().min)
    ensures Max(config.periodCount, k.periods.min) > 0 ==> s[PERIODS].max == Max(config.periodCount, k.periods.min)
    ensures Max(config.channels, k.channels.min) > 0 ==> s[CHANNELS].max == Max(config.channels, k.channels.min)
    ensures k.bitWidth.min > 0 ==> s[SAMPLE_BITS].max == k.bitWidth.min
  {
    var r, c := RequestIntervals(config), ConstraintIntervals(k);
    RefinePlain(r[PERIOD_SIZE], c[PERIOD_SIZE]);
    RefinePlain(r[PERIODS], c[PERIODS]);
    RefinePlain(r[CHANNELS], c[CHANNELS]);
    RefinePlain(r[SAMPLE_BITS], c[SAMPLE_BITS]);
  }

  /**
   The sample width handed to the plugin is its smallest, whatever the format: the frame the
   plugin is told of is the frame the library counts bytes with exactly when the two agree.
   */
  lemma FrameBitsAgree(config: PcmConfig, k: Constraints, s: seq<Interval>)
    requires config.Valid() && k.Valid()
    requires Configured(RefineAll(RequestIntervals(config), ConstraintIntervals(k)), s)
    requires 0 < k.bitWidth.min && 0 < Max(config.channels, k.channels.min)
    ensures s[SAMPLE_BITS].max * s[CHANNELS].max == FormatToBits(config.format) * config.channels
      <==> k.bitWidth.min * Max(config.channels, k.channels.min) == FormatToBits(config.format) * config.channels
    ensures k.channels.min <= config.channels ==>
      (s[SAMPLE_BITS].max * s[CHANNELS].max == FormatToBits(config.format) * config.channels
       <==> k.bitWidth.min == FormatToBits(config.format))
  {
    hide Configured, RefineAll, RequestIntervals, ConstraintIntervals, FormatToBits;
    ReadBack(config, k, s);
    if k.channels.min <= config.channels {
      ProductCancels(k.bitWidth.min, FormatToBits(config.format), config.channels);
    }
  }

  /** The configuration obeys the plugin's own constraints. */
  predicate Obeys(s: seq<Interval>, k: Constraints)
    requires |s| == INTERVALS
  {
    && Single(s[SAMPLE_BITS], s[SAMPLE_BITS].min) && Within(k.bitWidth, s[SAMPLE_BITS].min)
    && Single(s[CHANNELS], s[CHANNELS].min) && Within(k.channels, s[CHANNELS].min)
    && Single(s[RATE], s[RATE].min) && Within(k.rate, s[RATE].min)
    && Single(s[PERIODS], s[PERIODS].min) && Within(k.periods, s[PERIODS].min)
    && Single(s[PERIOD_BYTES], s[PERIOD_BYTES].min) && Within(k.periodBytes, s[PERIOD_BYTES].min)
  }

  function BytesOf(frames: nat, frameBits: nat): nat {
    frames * (frameBits / 8)
  }

  function BitsOf(width: nat, channels: nat): nat {
    width * channels
  }

  /** What the plugin is handed in answer to a request, before anything is compared with its maxima. */
  datatype Choice = Choice(channels: nat, rate: nat, periods: nat, periodSize: nat, periodBytes: nat)

  function Chosen(config: PcmConfig, k: Constraints): Choice
    requires k.Valid()
  {
    var channels := Max(config.channels, k.channels.min);
    var periodSize := Max(config.periodSize, k.PeriodSize().min);
    Choice(channels, Max(config.rate, k.rate.min), Max(config.periodCount, k.periods.min), periodSize,
           BytesOf(periodSize, BitsOf(k.bitWidth.min, channels)))
  }

  /**
   The configuration handed to the plugin obeys the plugin's constraints exactly when the request, raised to the
   plugin's minima, is not above its maxima, and the bytes of the period it comes to are within the limits.
   With the fewest channels the last is to say that the period is within the limits in frames, and not the
   smallest one unless the smallest frame divides the bytes.
   */
  lemma SelectionObeysIff(config: PcmConfig, k: Constraints, s: seq<Interval>)
    requires config.Valid() && k.Valid()
    requires Configured(RefineAll(RequestIntervals(config), ConstraintIntervals(k)), s)
    requires var c := Chosen(config, k);
      && k.bitWidth.min > 0 && c.channels > 0 && c.rate > 0 && c.periods > 0 && c.periodSize > 0 && k.periodBytes.min > 0
      && BitsOf(k.bitWidth.min, c.channels) <= UINT_MAX && c.periodBytes <= UINT_MAX
    ensures var c := Chosen(config, k);
      Obeys(s, k) <==>
        && k.bitWidth.min <= k.bitWidth.max && c.channels <= k.channels.max && c.rate <= k.rate.max
        && c.periods <= k.periods.max && Within(k.periodBytes, c.periodBytes)
    ensures var c := Chosen(config, k);
      c.channels == k.channels.min && k.FrameBitsMin() % 8 == 0
      && k.periodBytes.min * 8 <= UINT_MAX && k.periodBytes.max * 8 <= UINT_MAX ==>
        (Within(k.periodBytes, c.periodBytes) <==>
           c.periodSize <= k.PeriodSize().max
           && (config.periodSize <= k.PeriodSize().min ==> k.periodBytes.min * 8 % k.FrameBitsMin() == 0))
  {
    var c := Chosen(config, k);
    hide Configured, RefineAll, RequestIntervals, ConstraintIntervals, BytesToFramesPlug, BytesOf, ToUInt;
    HandedOver(config, k, s);
    if c.channels == k.channels.min && k.FrameBitsMin() % 8 == 0
       && k.periodBytes.min * 8 <= UINT_MAX && k.periodBytes.max * 8 <= UINT_MAX {
      FitsUInt(BitsOf(k.bitWidth.min, k.channels.min));
      PeriodBytesWithin(k, c.periodSize);
      SmallestFrame(k, c.periodSize);
    }
  }

  lemma SmallestFrame(k: Constraints, frames: nat)
    requires BitsOf(k.bitWidth.min, k.channels.min) <= UINT_MAX
    ensures BytesOf(frames, BitsOf(k.bitWidth.min, k.channels.min)) == frames * (k.FrameBitsMin() / 8)
  {
    FitsUInt(BitsOf(k.bitWidth.min, k.channels.min));
  }

  lemma HandedOver(config: PcmConfig, k: Constraints, s: seq<Interval>)
    requires config.Valid() && k.Valid()
    requires Configured(RefineAll(RequestIntervals(config), ConstraintIntervals(k)), s)
    requires var c := Chosen(config, k);
      && k.bitWidth.min > 0 && c.channels > 0 && c.rate > 0 && c.periods > 0 && c.periodSize > 0 && k.periodBytes.min > 0
      && BitsOf(k.bitWidth.min, c.channels) <= UINT_MAX && c.periodBytes <= UINT_MAX
    ensures var c := Chosen(config, k);
      && Single(s[SAMPLE_BITS], k.bitWidth.min) && Single(s[CHANNELS], c.channels) && Single(s[RATE], c.rate)
      && Single(s[PERIODS], c.periods) && Single(s[PERIOD_SIZE], c.periodSize) && Single(s[PERIOD_BYTES], c.periodBytes)
  {
    var r0, k0 := RequestIntervals(config), ConstraintIntervals(k);
    var r := RefineAll(r0, k0);
    var c := Chosen(config, k);
    RequestMinima(config);
    assert k0[PERIOD_SIZE].min == k.PeriodSize().min && k0[PERIOD_BYTES].min == k.periodBytes.min;
    assert k0[SAMPLE_BITS].min == k.bitWidth.min && k0[CHANNELS].min == k.channels.min;
    assert k0[RATE].min == k.rate.min && k0[PERIODS].min == k.periods.min;
    hide RequestIntervals, ConstraintIntervals, BytesToFramesPlug, Refine, ToUInt, BytesOf;
    forall i | 0 <= i < INTERVALS
      ensures r[i].min == if r0[i].min < k0[i].min then k0[i].min else r0[i].min
    {
      RefinePlain(r0[i], k0[i]);
    }
    hide RefineAll;
    FitsUInt(BitsOf(k.bitWidth.min, c.channels));
    FitsUInt(c.periodBytes);
    assert FramesToBytesPlug(c.periodSize, BitsOf(k.bitWidth.min, c.channels)) == ToUInt(c.periodBytes) by {
      RawBytes(c.periodSize, BitsOf(k.bitWidth.min, c.channels));
    }
    hide FramesToBytesPlug;
  }

  lemma RawBytes(frames: nat, bits: nat)
    ensures FramesToBytesPlug(frames, bits) == ToUInt(BytesOf(frames, bits))
  {
  }

  lemma ProductCancels(a: nat, b: nat, c: nat)
    requires 0 < c
    ensures a * c == b * c <==> a == b
  {
    if a < b {
      MulMono(a + 1, b, c);
    } else if b < a {
      MulMono(b + 1, a, c);
    }
  }

  /** When the refined minima are positive, so that every parameter is chosen (RATE and the like need only be asked for). */
  lemma MinimaPositive(config: PcmConfig, k: Constraints)
    requires config.Valid() && k.Valid()
    requires k.bitWidth.min * k.channels.min <= UINT_MAX && k.periodBytes.min * 8 <= UINT_MAX
    requires k.periodBytes.min * k.periods.min * 8 <= UINT_MAX
    ensures var r := RefineAll(RequestIntervals(config), ConstraintIntervals(k));
      && (r[SAMPLE_BITS].min > 0 && r[FRAME_BITS].min > 0)
      && (r[CHANNELS].min > 0)
      && (r[RATE].min > 0 <==> config.rate > 0 || k.rate.min > 0)
      && (r[PERIODS].min > 0 <==> config.periodCount > 0 || k.periods.min > 0)
      && (r[PERIOD_SIZE].min > 0 <==> config.periodSize > 0 || k.FrameBitsMin() <= k.periodBytes.min * 8)
      && (r[PERIOD_BYTES].min > 0 <==> k.periodBytes.min > 0)
      && (r[BUFFER_BYTES].min > 0 <==> k.periodBytes.min * k.periods.min > 0)
      && (r[BUFFER_SIZE].min > 0 <==> k.FrameBitsMin() <= k.periodBytes.min * k.periods.min * 8)
  {
    hide RequestIntervals, ConstraintIntervals, Refine;
    var r, c := RequestIntervals(config), ConstraintIntervals(k);
    RequestMinima(config);
    ConstraintMinima(k);
    forall i | 0 <= i < INTERVALS
      ensures Refine(r[i], c[i]).min == if r[i].min < c[i].min then c[i].min else r[i].min
    {
      RefinePlain(r[i], c[i]);
    }
  }

  lemma ConstraintMinima(k: Constraints)
    requires k.Valid()
    requires k.bitWidth.min * k.channels.min <= UINT_MAX && k.periodBytes.min * 8 <= UINT_MAX
    requires k.periodBytes.min * k.periods.min * 8 <= UINT_MAX
    ensures var c := ConstraintIntervals(k);
      && c[SAMPLE_BITS].min > 0 && c[FRAME_BITS].min > 0 && c[CHANNELS].min > 0
      && c[RATE].min == k.rate.min && c[PERIODS].min == k.periods.min && c[PERIOD_BYTES].min == k.periodBytes.min
      && (c[PERIOD_SIZE].min > 0 <==> k.FrameBitsMin() <= k.periodBytes.min * 8)
      && c[BUFFER_BYTES].min == k.periodBytes.min * k.periods.min
      && (c[BUFFER_SIZE].min > 0 <==> k.FrameBitsMin() <= k.periodBytes.min * k.periods.min * 8)
  {
    hide BytesToFramesPlug;
    PlugFramesPositive(k.periodBytes.min, k.FrameBitsMin());
    PlugFramesPositive(k.periodBytes.min * k.periods.min, k.FrameBitsMin());
    assert ToUInt(k.periodBytes.min * k.periods.min) == k.periodBytes.min * k.periods.min;
    assert k.FrameBitsMin() == k.bitWidth.min * k.channels.min;
    PositiveFactors(k.bitWidth.min, k.channels.min);
  }

  lemma PlugFramesPositive(size: nat, bits: nat)
    requires 0 < bits && size * 8 <= UINT_MAX
    ensures BytesToFramesPlug(size, bits) > 0 <==> bits <= size * 8
  {
    QuotientAtLeast(size * 8, bits, 1);
  }

  lemma PositiveFactors(a: nat, b: nat)
    ensures a * b > 0 <==> a > 0 && b > 0
  {
  }

  lemma RequestMinima(config: PcmConfig)
    requires config.Valid()
    ensures var r := RequestIntervals(config);
      forall i :: 0 <= i < INTERVALS ==>
        r[i].min == if i == CHANNELS then config.channels else if i == RATE then config.rate
                    else if i == PERIODS then config.periodCount else if i == PERIOD_SIZE then config.periodSize else 0
  {
  }

  /** The fields of `struct pcm` that `pcm_set_config` decides. */
  class Pcm {
    var config: PcmConfig
    var bufferSize: nat

    constructor ()
      ensures config == DEFAULT_CONFIG && bufferSize == 0
    {
      config := DEFAULT_CONFIG;
      bufferSize := 0;
    }

    /**
     `pcm_set_config` on a plugin stream. `accepts` is whether the plugin takes the parameters. The buffer size
     is computed from the caller's structure, which is the refined one only if the caller passed none.
     */
    method SetConfig(wanted: Option<PcmConfig>, k: Constraints, accepts: bool) returns (ok: bool)
      requires k.Valid() && (wanted.Some? ==> wanted.value.Valid())
      modifies this
      ensures ok == accepts
      ensures var asked := if wanted.Some? then wanted.value else DEFAULT_CONFIG;
        config == if ok then asked.(periodSize := config.periodSize, periodCount := config.periodCount) else asked
      ensures ok ==>
        var asked := if wanted.Some? then wanted.value else DEFAULT_CONFIG;
        && (Max(asked.periodSize, k.PeriodSize().min) > 0 ==> config.periodSize == Max(asked.periodSize, k.PeriodSize().min))
        && (Max(asked.periodCount, k.periods.min) > 0 ==> config.periodCount == Max(asked.periodCount, k.periods.min))
        && bufferSize == if wanted.Some? then ToUInt(wanted.value.periodCount * wanted.value.periodSize)
                         else ToUInt(config.periodCount * config.periodSize)
      ensures !ok ==> bufferSize == old(bufferSize)
    {
      config := if wanted.Some? then wanted.value else DEFAULT_CONFIG;
      var params := new Params.Zero();
      InitRequest(params, config);
      Hparams(params, k);
      if !accepts {
        return false;
      }
      ReadBack(config, k, params.intervals[..]);
      config := config.(periodSize := GetInt(params, PERIOD_SIZE), periodCount := GetInt(params, PERIODS));
      var caller := if wanted.Some? then wanted.value else config;
      bufferSize := ToUInt(caller.periodCount * caller.periodSize);
      ok := true;
    }
  }

  /** `param_init` and the `param_set_*` calls of `pcm_set_config`; masks are not of interest here. */
  method InitRequest(p: Params, config: PcmConfig)
    requires p.Valid() && config.Valid()
    modifies p.intervals
    ensures p.Valid() && p.intervals[..] == RequestIntervals(config)
  {
    forall i | 0 <= i < INTERVALS {
      p.intervals[i] := Interval(0, UINT_MAX, false, false, false);
    }
    p.intervals[PERIOD_SIZE] := p.intervals[PERIOD_SIZE].(min := config.periodSize);
    p.intervals[CHANNELS] := Interval(config.channels, config.channels, false, false, true);
    p.intervals[PERIODS] := Interval(config.periodCount, config.periodCount, false, false, true);
    p.intervals[RATE] := Interval(config.rate, config.rate, false, false, true);
  }

  /** `param_get_int`. */
  function GetInt(p: Params, i: nat): nat
    requires p.Valid() && i < INTERVALS
    reads p, p.intervals
  {
    if p.intervals[i].integer then p.intervals[i].max else 0
  }

  /**
   With a caller's configuration the buffer size is the product of the period size and count
   the stream ends up with exactly when refinement raised neither.
   */
  lemma BufferSizeAgrees(wanted: PcmConfig, minSize: nat, minCount: nat)
    requires 0 < wanted.periodSize && 0 < wanted.periodCount
    requires Max(wanted.periodCount, minCount) * Max(wanted.periodSize, minSize) <= UINT_MAX
    ensures ToUInt(wanted.periodCount * wanted.periodSize) == Max(wanted.periodCount, minCount) * Max(wanted.periodSize, minSize)
      <==> minSize <= wanted.periodSize && minCount <= wanted.periodCount
  {
    ProductRaised(wanted.periodCount, Max(wanted.periodCount, minCount), wanted.periodSize, Max(wanted.periodSize, minSize));
  }

  lemma ProductRaised(a: nat, a': nat, b: nat, b': nat)
    requires 0 < a <= a' && 0 < b <= b'
    ensures a * b <= a' * b'
    ensures a * b == a' * b' <==> a == a' && b == b'
  {
    MulMono(a, a', b);
    assert a' * b <= a' * b' by {
      MulMono(b, b', a');
    }
    if a < a' {
      MulMono(a + 1, a', b);
    }
    if b < b' {
      MulMono(b + 1, b', a');
    }
  }
}
