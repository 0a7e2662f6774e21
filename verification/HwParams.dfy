/**
 Hardware-parameter refinement and selection: `src/pcm_plugin.c` intersects what
 the application asks for with what the plugin allows, and picks one configuration.
 */
module HwParams {
  import opened CTypes

  // the interval parameters, by their position after the first one
  const SAMPLE_BITS := 0
  const FRAME_BITS := 1
  const CHANNELS := 2
  const RATE := 3
  const PERIOD_TIME := 4
  const PERIOD_SIZE := 5
  const PERIOD_BYTES := 6
  const PERIODS := 7
  const BUFFER_TIME := 8
  const BUFFER_SIZE := 9
  const BUFFER_BYTES := 10
  const TICK_TIME := 11
  const INTERVALS := 12
  const MASKS := 3
  /** Position of the first interval among the bits of `rmask` and `cmask`. */
  const FIRST_INTERVAL := 8

  datatype Interval = Interval(min: nat, max: nat, openmin: bool, openmax: bool, integer: bool) {
    predicate Valid() {
      min <= UINT_MAX && max <= UINT_MAX
    }

    /** The values the interval stands for. */
    ghost predicate Has(x: real) {
      && (if openmin then min as real < x else min as real <= x)
      && (if openmax then x < max as real else x <= max as real)
      && (integer ==> x.Floor as real == x)
    }
  }

  /** The bounds of a refined interval, before an integer interval's open ends are closed. */
  function Merge(r: Interval, c: Interval): Interval {
    var (min, openmin) :=
      if r.min < c.min then (c.min, c.openmin)
      else (r.min, r.openmin || (r.min == c.min && c.openmin));
    var (max, openmax) :=
      if r.max > c.max then (c.max, c.openmax)
      else (r.max, r.openmax || (r.max == c.max && c.openmax));
    Interval(min, max, openmin, openmax, r.integer || c.integer)
  }

  /** The open ends of an integer interval move inwards, in `unsigned int` arithmetic. */
  function CloseEnds(i: Interval): Interval {
    if i.integer then
      Interval(if i.openmin then ToUInt(i.min + 1) else i.min,
               if i.openmax then ToUInt(i.max - 1) else i.max, false, false, true)
    else
      i.(integer := !i.openmin && !i.openmax && i.min == i.max)
  }

  /** One interval refined by its constraint. */
  function Refine(r: Interval, c: Interval): Interval {
    CloseEnds(Merge(r, c))
  }

  /** Does refining set `changed`? */
  predicate Changes(r: Interval, c: Interval) {
    || r.min < c.min || (r.min == c.min && !r.openmin && c.openmin)
    || r.max > c.max || (r.max == c.max && !r.openmax && c.openmax)
    || (!r.integer && c.integer)
  }

  /** Does closing an end step over the range of `unsigned int`? */
  predicate Wraps(i: Interval) {
    i.integer && ((i.openmin && i.min == UINT_MAX) || (i.openmax && i.max == 0))
  }

  /** Refinement computes the intersection exactly when closing the ends does not wrap. */
  lemma RefineIsIntersection(r: Interval, c: Interval)
    requires r.Valid() && c.Valid()
    ensures (forall x :: Refine(r, c).Has(x) <==> r.Has(x) && c.Has(x)) <==> !Wraps(Merge(r, c))
  {
    if Wraps(Merge(r, c)) {
      var refined := Refine(r, c);
      var x := refined.min as real;
      assert x.Floor == refined.min;
      assert refined.Has(x);
      assert !(r.Has(x) && c.Has(x));
    } else {
      forall x
        ensures Refine(r, c).Has(x) <==> r.Has(x) && c.Has(x)
      {
        MergeIsIntersection(r, c, x);
        CloseEndsKeeps(Merge(r, c), x);
      }
    }
  }

  lemma MergeIsIntersection(r: Interval, c: Interval, x: real)
    ensures Merge(r, c).Has(x) <==> r.Has(x) && c.Has(x)
  {
  }

  lemma CloseEndsKeeps(i: Interval, x: real)
    requires i.Valid() && !Wraps(i)
    ensures CloseEnds(i).Has(x) <==> i.Has(x)
  {
    if i.integer {
      if x.Floor as real == x {
        CloseEndsKeepsInteger(i, x.Floor);
      }
    } else if !i.openmin && !i.openmax && i.min == i.max {
      assert i.Has(x) ==> x == i.min as real;
    }
  }

  /** Membership of an integer, without reals. */
  predicate HasInt(i: Interval, k: int) {
    && (if i.openmin then i.min < k else i.min <= k)
    && (if i.openmax then k < i.max else k <= i.max)
  }

  lemma IntOrder(a: int, b: int)
    ensures (a as real < b as real <==> a < b) && (a as real <= b as real <==> a <= b)
  {
  }

  lemma HasIsHasInt(i: Interval, k: int)
    ensures i.Has(k as real) <==> HasInt(i, k)
  {
    IntOrder(i.min, k);
    IntOrder(k, i.max);
    assert (k as real).Floor == k;
  }

  lemma CloseEndsKeepsInteger(i: Interval, k: int)
    requires i.Valid() && !Wraps(i) && i.integer
    ensures CloseEnds(i).Has(k as real) <==> i.Has(k as real)
  {
    HasIsHasInt(i, k);
    HasIsHasInt(CloseEnds(i), k);
  }

  /** A refined interval is marked as an integer when it is down to one value, and has no open ends if it is so marked. */
  lemma SingleIsInteger(r: Interval, c: Interval)
    ensures var i := Refine(r, c);
      && (!i.openmin && !i.openmax && i.min == i.max ==> i.integer)
      && (i.integer ==> !i.openmin && !i.openmax)
      && (i.integer && !r.integer && !c.integer ==> i.min == i.max)
  {
  }

  /** Refining a second time by the same constraint finds nothing to change. */
  lemma RefineIdempotent(r: Interval, c: Interval)
    requires r.Valid() && c.Valid() && !Wraps(Merge(r, c))
    ensures !Changes(Refine(r, c), c) && Refine(Refine(r, c), c) == Refine(r, c)
  {
  }

  /** An interval that loses a value is one whose refinement sets `changed`. */
  lemma ShrinkingChanges(r: Interval, c: Interval, x: real)
    requires r.Valid() && c.Valid()
    requires r.Has(x) && !Refine(r, c).Has(x)
    ensures Changes(r, c)
  {
    if !Changes(r, c) {
      MergeIsIntersection(r, c, x);
      CloseEndsKeepsHeld(r, x);
    }
  }

  /** Closing the ends of an interval that holds a value does not lose it, though it may wrap. */
  lemma CloseEndsKeepsHeld(i: Interval, x: real)
    requires i.Valid() && i.Has(x)
    ensures CloseEnds(i).Has(x)
  {
    IntOrder(i.min, i.max);
    if !Wraps(i) {
      CloseEndsKeeps(i, x);
    }
  }

  /** The converse fails: `changed` is set for an interval that keeps all its values. */
  lemma ChangeWithoutShrinking()
    ensures var r, c := Interval(5, 5, false, false, false), Interval(0, 9, false, false, true);
      && Changes(r, c)
      && forall x :: Refine(r, c).Has(x) <==> r.Has(x)
  {
    var r, c := Interval(5, 5, false, false, false), Interval(0, 9, false, false, true);
    forall x
      ensures Refine(r, c).Has(x) <==> r.Has(x)
    {
      assert r.Has(x) ==> x == 5.0;
    }
  }

  // ---------------------------------------------------------------- the parameter structure

  /** `struct snd_pcm_hw_params`; masks and the parameter masks are sets of bit positions. */
  class Params {
    const masks: array<set<nat>>
    const intervals: array<Interval>
    var rmask: set<nat>
    var cmask: set<nat>

    ghost predicate Valid()
      reads this, intervals
    {
      && masks.Length == MASKS && intervals.Length == INTERVALS
      && forall i :: 0 <= i < INTERVALS ==> intervals[i].Valid()
    }

    /** All zero, as `memset` leaves it. */
    constructor Zero()
      ensures Valid() && fresh(masks) && fresh(intervals)
      ensures forall i :: 0 <= i < MASKS ==> masks[i] == {}
      ensures forall i :: 0 <= i < INTERVALS ==> intervals[i] == Interval(0, 0, false, false, false)
      ensures rmask == {} && cmask == {}
    {
      masks := new set<nat>[MASKS](_ => {});
      intervals := new Interval[INTERVALS](_ => Interval(0, 0, false, false, false));
      rmask, cmask := {}, {};
    }
  }

  ghost predicate Requested(rmask: set<nat>, i: nat) {
    FIRST_INTERVAL + i in rmask
  }

  /** Has any requested interval up to number `n` been changed? The flag is not reset between intervals. */
  ghost predicate ChangedBy(rmask: set<nat>, r: seq<Interval>, c: seq<Interval>, n: nat)
    requires n <= |r| && n <= |c|
  {
    exists j :: 0 <= j < n && Requested(rmask, j) && Changes(r[j], c[j])
  }

  /** The bits of `cmask` that refining the first `n` intervals sets. */
  ghost function ChangedBits(rmask: set<nat>, r: seq<Interval>, c: seq<Interval>, n: nat): set<nat>
    requires n <= |r| && n <= |c|
  {
    set i | 0 <= i < n && Requested(rmask, i) && ChangedBy(rmask, r, c, i + 1) :: FIRST_INTERVAL + i
  }

  lemma ChangedNone(rmask: set<nat>, r: seq<Interval>, c: seq<Interval>)
    ensures !ChangedBy(rmask, r, c, 0) && ChangedBits(rmask, r, c, 0) == {}
  {
  }

  lemma RefineValid(r: Interval, c: Interval)
    requires r.Valid() && c.Valid()
    ensures Refine(r, c).Valid()
  {
  }

  lemma ChangedBitsNext(rmask: set<nat>, r: seq<Interval>, c: seq<Interval>, n: nat)
    requires n < |r| && n < |c|
    ensures ChangedBy(rmask, r, c, n + 1) <==> ChangedBy(rmask, r, c, n) || (Requested(rmask, n) && Changes(r[n], c[n]))
    ensures ChangedBits(rmask, r, c, n + 1) ==
      ChangedBits(rmask, r, c, n)
      + (if Requested(rmask, n) && ChangedBy(rmask, r, c, n + 1) then {FIRST_INTERVAL + n} else {})
  {
  }

  /**
   Every changed interval has its bit set, and the bits are exactly the changed
   intervals when and only when no unchanged requested interval follows a changed one.
   */
  lemma ChangedBitsExact(rmask: set<nat>, r: seq<Interval>, c: seq<Interval>, n: nat)
    requires n <= |r| && n <= |c|
    ensures forall i :: 0 <= i < n && Requested(rmask, i) && Changes(r[i], c[i]) ==>
              FIRST_INTERVAL + i in ChangedBits(rmask, r, c, n)
    ensures ChangedBits(rmask, r, c, n) == (set i | 0 <= i < n && Requested(rmask, i) && Changes(r[i], c[i]) :: FIRST_INTERVAL + i)
      <==> forall i, j :: 0 <= j < i < n && Requested(rmask, j) && Changes(r[j], c[j]) && Requested(rmask, i) ==> Changes(r[i], c[i])
  {
    var exact := set i | 0 <= i < n && Requested(rmask, i) && Changes(r[i], c[i]) :: FIRST_INTERVAL + i;
    var bits := ChangedBits(rmask, r, c, n);
    if bits == exact {
      forall i, j | 0 <= j < i < n && Requested(rmask, j) && Changes(r[j], c[j]) && Requested(rmask, i)
        ensures Changes(r[i], c[i])
      {
        assert ChangedBy(rmask, r, c, i + 1);
        assert FIRST_INTERVAL + i in bits;
      }
    }
    if forall i, j :: 0 <= j < i < n && Requested(rmask, j) && Changes(r[j], c[j]) && Requested(rmask, i) ==> Changes(r[i], c[i]) {
      forall b | b in bits
        ensures b in exact
      {
        var i := b - FIRST_INTERVAL;
        assert ChangedBy(rmask, r, c, i + 1);
      }
    }
  }

  /** `pcm_plug_masks_refine`. */
  method MasksRefine(p: Params, c: Params)
    requires p.Valid() && c.Valid() && p.masks != c.masks
    modifies p.masks, p`cmask
    ensures forall i :: 0 <= i < MASKS ==>
              p.masks[i] == if i in p.rmask then old(p.masks[i]) * c.masks[i] else old(p.masks[i])
    ensures p.cmask == old(p.cmask) + set i | 0 <= i < MASKS && i in p.rmask && old(p.masks[i]) != c.masks[i]
  {
    for idx := 0 to MASKS
      invariant forall i :: 0 <= i < idx ==>
                  p.masks[i] == if i in p.rmask then old(p.masks[i]) * c.masks[i] else old(p.masks[i])
      invariant forall i :: idx <= i < MASKS ==> p.masks[i] == old(p.masks[i])
      invariant p.cmask == old(p.cmask) + set i | 0 <= i < idx && i in p.rmask && old(p.masks[i]) != c.masks[i]
    {
      if idx in p.rmask {
        if p.masks[idx] != c.masks[idx] {
          p.cmask := p.cmask + {idx};
        }
        p.masks[idx] := p.masks[idx] * c.masks[idx];
      }
    }
  }

  /** One pass of the loop of `pcm_plug_interval_refine`, on the interval it is at. */
  method RefineInterval(r: Interval, c: Interval) returns (ri: Interval, changed: bool)
    ensures ri == Refine(r, c) && changed == Changes(r, c)
  {
    hide ToUInt;
    ri, changed := r, false;
    if ri.min < c.min {
      ri := ri.(min := c.min, openmin := c.openmin);
      changed := true;
    } else if ri.min == c.min && !ri.openmin && c.openmin {
      ri := ri.(openmin := true);
      changed := true;
    }
    if ri.max > c.max {
      ri := ri.(max := c.max, openmax := c.openmax);
      changed := true;
    } else if ri.max == c.max && !ri.openmax && c.openmax {
      ri := ri.(openmax := true);
      changed := true;
    }
    if !ri.integer && c.integer {
      ri := ri.(integer := true);
      changed := true;
    }
    if ri.integer {
      if ri.openmin {
        ri := ri.(min := ToUInt(ri.min + 1), openmin := false);
      }
      if ri.openmax {
        ri := ri.(max := ToUInt(ri.max - 1), openmax := false);
      }
    } else if !ri.openmin && !ri.openmax && ri.min == ri.max {
      ri := ri.(integer := true);
    }
  }

  /** `pcm_plug_interval_refine`. */
  method IntervalRefine(p: Params, c: Params)
    requires p.Valid() && c.Valid() && p.intervals != c.intervals
    modifies p.intervals, p`cmask
    ensures p.Valid()
    ensures forall i :: 0 <= i < INTERVALS ==>
              p.intervals[i] == if Requested(p.rmask, i) then Refine(old(p.intervals[i]), c.intervals[i]) else old(p.intervals[i])
    ensures p.cmask == old(p.cmask) + ChangedBits(p.rmask, old(p.intervals[..]), c.intervals[..], INTERVALS)
  {
    hide Refine, Changes, ChangedBy, ChangedBits;
    ghost var r0, c0 := p.intervals[..], c.intervals[..];
    ChangedNone(p.rmask, r0, c0);
    var changed := false;
    for idx := 0 to INTERVALS
      invariant p.Valid()
      invariant forall i :: 0 <= i < idx ==>
                  p.intervals[i] == if Requested(p.rmask, i) then Refine(r0[i], c.intervals[i]) else r0[i]
      invariant forall i :: idx <= i < INTERVALS ==> p.intervals[i] == r0[i]
      invariant changed == ChangedBy(p.rmask, r0, c0, idx)
      invariant p.cmask == old(p.cmask) + ChangedBits(p.rmask, r0, c0, idx)
    {
      ChangedBitsNext(p.rmask, r0, c0, idx);
      if FIRST_INTERVAL + idx in p.rmask {
        var ri, differs := RefineInterval(p.intervals[idx], c.intervals[idx]);
        RefineValid(p.intervals[idx], c.intervals[idx]);
        p.intervals[idx] := ri;
        changed := changed || differs;
        if changed {
          p.cmask := p.cmask + {FIRST_INTERVAL + idx};
        }
      }
    }
  }

  /** `pcm_plug_hw_params_refine`. */
  method HwParamsRefine(p: Params, c: Params)
    requires p.Valid() && c.Valid() && p.intervals != c.intervals && p.masks != c.masks
    modifies p, p.masks, p.intervals
    ensures p.Valid() && p.rmask == {}
    ensures forall i :: 0 <= i < MASKS ==>
              p.masks[i] == if i in old(p.rmask) then old(p.masks[i]) * c.masks[i] else old(p.masks[i])
    ensures forall i :: 0 <= i < INTERVALS ==>
              p.intervals[i] == if Requested(old(p.rmask), i) then Refine(old(p.intervals[i]), c.intervals[i]) else old(p.intervals[i])
    ensures p.cmask == old(p.cmask)
                       + (set i | 0 <= i < MASKS && i in old(p.rmask) && old(p.masks[i]) != c.masks[i])
                       + ChangedBits(old(p.rmask), old(p.intervals[..]), c.intervals[..], INTERVALS)
  {
    MasksRefine(p, c);
    IntervalRefine(p, c);
    p.rmask := {};
  }
}
