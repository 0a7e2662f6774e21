/**
 The control table of `src/mixer.c`: the incremental scan `add_controls`, and
 the lookups across the hardware and the plugin group.
 */
module MixerTable {
  import opened CTypes
  import opened Wrappers

  /** `struct snd_ctl_elem_info`, as far as the table uses it; `Zero` is memory not yet filled in. */
  datatype Info = Zero | Info(numid: nat, name: string)

  /** What an element list entry at position `j` names: the plugin's list starts at 0 whatever the offset. */
  function ListedElem(honoursOffset: bool, offset: nat, j: nat): nat {
    if honoursOffset then offset + j else j
  }

  /** The entries from `oldCount` to `n` are the elements at the places of `eid`. */
  ghost predicate FetchedFrom(table: seq<Info>, oldCount: nat, n: nat, eid: seq<nat>, backend: seq<Info>) {
    && oldCount <= n <= |table| && n - oldCount <= |eid|
    && forall j :: 0 <= j < n - oldCount ==> eid[j] < |backend| && table[oldCount + j] == backend[eid[j]]
  }

  lemma StillFetched(table: seq<Info>, oldCount: nat, n: nat, eid: seq<nat>, backend: seq<Info>, backend': seq<Info>)
    ensures FetchedFrom(table, oldCount, n, eid, backend) && backend <= backend' ==> FetchedFrom(table, oldCount, n, eid, backend')
  {
  }

  /** The entries from `oldCount` to `n` are the elements the backend lists when asked for those from `oldCount` on. */
  ghost predicate Listed(table: seq<Info>, oldCount: nat, n: nat, honoursOffset: bool, backend: seq<Info>) {
    && oldCount <= n <= |table|
    && forall j :: 0 <= j < n - oldCount ==>
         ListedElem(honoursOffset, oldCount, j) < |backend|
         && table[oldCount + j] == backend[ListedElem(honoursOffset, oldCount, j)]
  }

  lemma FetchedIsListed(table: seq<Info>, oldCount: nat, n: nat, honoursOffset: bool, eid: seq<nat>, backend: seq<Info>)
    requires eid == seq(|eid|, j requires 0 <= j => ListedElem(honoursOffset, oldCount, j))
    ensures FetchedFrom(table, oldCount, n, eid, backend) ==> Listed(table, oldCount, n, honoursOffset, backend)
  {
    assert forall j :: 0 <= j < |eid| ==> eid[j] == ListedElem(honoursOffset, oldCount, j);
  }

  lemma NoneListed(table: seq<Info>, n: nat, honoursOffset: bool)
    requires n <= |table|
    ensures forall table', backend :: n <= |table'| ==> Listed(table', n, n, honoursOffset, backend)
  {
  }

  /** `struct mixer_ctl_group` and the backend behind it. */
  class CtlGroup {
    var ctl: array<Info>
    var count: nat
    // the driver or plugin: elements are appended, and are not supposed to be removed
    var backend: seq<Info>
    const honoursOffset: bool
    // how the calls to it went
    ghost var failures: nat
    ghost var fetched: nat       // successful ELEM_INFO calls
    ghost var removals: nat      // times the backend has removed elements all the same

    constructor (backend: seq<Info>, honoursOffset: bool)
      ensures count == 0 && this.backend == backend && this.honoursOffset == honoursOffset
      ensures Valid() && fresh(ctl)
    {
      ctl := new Info[0];
      count := 0;
      this.backend, this.honoursOffset := backend, honoursOffset;
      failures, fetched, removals := 0, 0, 0;
    }

    predicate Valid()
      reads this
    {
      count <= ctl.Length
    }

    /** The controls found so far. */
    ghost function Table(): seq<Info>
      requires Valid()
      reads this, ctl
    {
      ctl[..count]
    }

    /** The table is the first part of what the backend has. */
    ghost predicate Faithful()
      reads this, ctl
    {
      Valid() && count <= |backend| && Table() == backend[..count]
    }

    /** `mixer_realloc_z`. */
    method Realloc(newnum: nat)
      requires Valid() && count <= newnum
      modifies this`ctl
      ensures fresh(ctl) && ctl.Length == newnum && ctl[..count] == old(ctl[..count])
    {
      var newp := new Info[newnum](_ => Zero);
      forall i | 0 <= i < count {
        newp[i] := ctl[i];
      }
      ctl := newp;
    }

    /** A call to the backend, which may fail; the backend may have changed. */
    method Ask() returns (failed: bool)
      modifies `backend, `failures, `removals
      ensures removals >= old(removals) && (removals == old(removals) ==> old(backend) <= backend)
      ensures failures == old(failures) + (if failed then 1 else 0)
    {
      var now: seq<Info> := *;
      removals := removals + (if backend <= now then 0 else 1);
      backend := now;
      failed := *;
      failures := failures + (if failed then 1 else 0);
    }

    /** ELEM_INFO, which fails if there is no such element. */
    method ElemInfo(place: nat) returns (failed: bool, info: Info)
      modifies `backend, `failures, `fetched, `removals
      ensures removals >= old(removals) && (removals == old(removals) ==> old(backend) <= backend)
      ensures failures == old(failures) + (if failed then 1 else 0) && fetched == old(fetched) + (if failed then 0 else 1)
      ensures !failed ==> place < |backend| && info == backend[place]
    {
      failed := Ask();
      if !failed && place >= |backend| {
        failed, failures := true, failures + 1;
      }
      info := if failed then Zero else backend[place];
      fetched := fetched + (if failed then 0 else 1);
    }

    /**
     `add_controls` on this group: a list for the count, a list of the new elements, the
     information of each. Any of these calls may fail, and a backend that has fewer elements than were
     found before is refused. The increase of `total_count` is returned.
     */
    method AddControls() returns (ok: bool, added: nat, ghost refused: bool)
      requires Valid()
      modifies this`ctl, this`count, this`backend, this`failures, this`fetched, this`removals
      ensures Valid() && removals >= old(removals) && (removals == old(removals) ==> old(backend) <= backend)
      ensures count == old(count) + added && (fresh(ctl) || ctl == old(ctl))
      // nothing already in the table changes
      ensures Table()[..old(count)] == old(Table())
      // every control added is the one the backend lists at its place
      ensures removals == old(removals) ==> Listed(ctl[..], old(count), count, honoursOffset, backend)
      // success means all that was there at the start was found
      ensures ok && removals == old(removals) ==> |old(backend)| <= count
      // it fails when refused or with the first call that fails, and keeps what was fetched before
      ensures failures == old(failures) + (if ok || refused then 0 else 1) && fetched == old(fetched) + added
      ensures refused ==> !ok && |backend| < count == old(count) && ctl == old(ctl)
    {
      hide FetchedFrom, Listed;
      added, refused := 0, false;
      var oldCount := count;
      NoneListed(ctl[..], oldCount, honoursOffset);
      var failed := Ask();
      if failed {
        return false, 0, false;
      }
      var newCount := |backend|;
      if oldCount == newCount {
        return true, 0, false;
      }
      if oldCount > newCount {
        return false, 0, true;
      }
      Realloc(newCount);
      failed := Ask();
      if failed {
        return false, 0, false;
      }
      var eid := seq(newCount - oldCount, j requires 0 <= j => ListedElem(honoursOffset, oldCount, j));
      var n := FetchInfos(oldCount, newCount, eid);
      FetchedIsListed(ctl[..], oldCount, n, honoursOffset, eid, backend);
      count, added := n, n - oldCount;
      ok := n == newCount;
    }

    /** The ELEM_INFO loop of `add_controls`: how far it gets. */
    method FetchInfos(oldCount: nat, newCount: nat, eid: seq<nat>) returns (n: nat)
      requires oldCount < newCount && ctl.Length == newCount && |eid| == newCount - oldCount
      modifies ctl, `backend, `failures, `fetched, `removals
      ensures oldCount <= n <= newCount
      ensures removals >= old(removals) && (removals == old(removals) ==> old(backend) <= backend)
      ensures ctl[..oldCount] == old(ctl[..oldCount])
      ensures removals == old(removals) ==> FetchedFrom(ctl[..], oldCount, n, eid, backend)
      ensures failures == old(failures) + (if n == newCount then 0 else 1) && fetched == old(fetched) + n - oldCount
    {
      n := oldCount;
      while n < newCount
        invariant oldCount <= n <= newCount
        invariant removals >= old(removals) && (removals == old(removals) ==> old(backend) <= backend)
        invariant ctl[..oldCount] == old(ctl[..oldCount])
        invariant removals == old(removals) ==> FetchedFrom(ctl[..], oldCount, n, eid, backend)
        invariant failures == old(failures) && fetched == old(fetched) + n - oldCount
      {
        ghost var before := backend;
        var failed, info := ElemInfo(eid[n - oldCount]);
        StillFetched(ctl[..], oldCount, n, eid, before, backend);
        if failed {
          return;
        }
        ctl[n] := info;
        n := n + 1;
      }
    }
  }

  /**
   Scanning keeps the table faithful when the backend's list starts where it is asked to, or when
   nothing had been found before; otherwise only if the elements found again happen to be equal.
   */
  lemma ScanIsFaithful(table: seq<Info>, old_: nat, backend: seq<Info>, honoursOffset: bool)
    requires old_ <= |table| <= |backend|
    requires table[..old_] == backend[..old_] && Listed(table, old_, |table|, honoursOffset, backend)
    ensures honoursOffset || old_ == 0 ==> table == backend[..|table|]
    ensures (forall i, j :: 0 <= i < j < |backend| ==> backend[i] != backend[j]) ==>
              (table == backend[..|table|] <==> honoursOffset || old_ == 0 || old_ == |table|)
  {
    if honoursOffset || old_ == 0 || old_ == |table| {
      forall n | 0 <= n < |table|
        ensures table[n] == backend[n]
      {
        if n < old_ {
          assert table[..old_][n] == backend[..old_][n];
        } else {
          assert table[old_ + (n - old_)] == backend[ListedElem(honoursOffset, old_, n - old_)];
        }
      }
    } else {
      assert table[old_ + 0] == backend[ListedElem(honoursOffset, old_, 0)];
      assert table == backend[..|table|] ==> table[old_] == backend[old_];
    }
  }

  /**
   Any number of scans, however they fail, leave a faithful table if the backend removes nothing; one that
   succeeds at last has found all that was there when it began, so that the table is what one clean scan
   finds if nothing was appended since.
   */
  method Rescan(g: CtlGroup, times: nat) returns (ok: bool, ghost lastStart: seq<Info>)
    requires g.Faithful() && g.honoursOffset
    modifies g
    ensures g.removals >= old(g.removals)
    ensures g.removals == old(g.removals) ==>
      && g.Faithful() && old(g.Table()) <= g.Table()
      && old(g.backend) <= lastStart <= g.backend
      && (ok ==> lastStart <= g.Table())
      && (ok && g.backend == lastStart ==> g.Table() == g.backend)
  {
    ok, lastStart := g.count == |g.backend|, g.backend;
    for i := 0 to times
      invariant g.removals >= old(g.removals)
      invariant g.Valid() && (fresh(g.ctl) || g.ctl == old(g.ctl))
      invariant g.removals == old(g.removals) ==>
        && g.Faithful() && old(g.Table()) <= g.Table()
        && old(g.backend) <= lastStart <= g.backend && (ok ==> lastStart <= g.Table())
    {
      lastStart := g.backend;
      ok := ScanOnce(g);
    }
  }

  method ScanOnce(g: CtlGroup) returns (ok: bool)
    requires g.Valid() && g.honoursOffset
    modifies g
    ensures g.Valid() && g.removals >= old(g.removals)
    ensures fresh(g.ctl) || g.ctl == old(g.ctl)
    ensures old(g.Faithful()) && g.removals == old(g.removals) ==>
      && g.Faithful() && old(g.Table()) <= g.Table() && old(g.backend) <= g.backend
      && (ok ==> old(g.backend) <= g.Table())
  {
    ghost var old_, backend0, removals0, faithful := g.count, g.backend, g.removals, g.Faithful();
    var added;
    ghost var refused;
    ok, added, refused := g.AddControls();
    if faithful && g.removals == removals0 {
      assert g.backend[..old_] == backend0[..old_];
      assert g.count <= |g.backend| by {
        assert g.count > old_ ==> ListedElem(true, old_, g.count - 1 - old_) < |g.backend|;
      }
      ScanIsFaithful(g.Table(), old_, g.backend, true);
    }
  }

  // ---------------------------------------------------------------- both groups

  /** A `struct mixer_ctl *`: the group and the place in it. */
  datatype CtlRef = Hw(index: nat) | Virtual(index: nat)

  /** The positions of a name, in order. */
  function Matches(names: seq<string>, name: string): seq<nat> {
    if names == [] then []
    else Matches(names[..|names| - 1], name) + (if names[|names| - 1] == name then [|names| - 1] else [])
  }

  /** They are all of them, each once, in increasing order. */
  lemma {:induction false} MatchesAreMatches(names: seq<string>, name: string)
    ensures forall i :: i in Matches(names, name) <==> 0 <= i < |names| && names[i] == name
    ensures forall k, l :: 0 <= k < l < |Matches(names, name)| ==> Matches(names, name)[k] < Matches(names, name)[l]
  {
    if names != [] {
      MatchesAreMatches(names[..|names| - 1], name);
      var init := Matches(names[..|names| - 1], name);
      forall k | 0 <= k < |init|
        ensures init[k] < |names| - 1
      {
        assert init[k] in init;
      }
    }
  }

  lemma MatchAt(names: seq<string>, name: string, k: nat)
    requires k < |Matches(names, name)|
    ensures Matches(names, name)[k] < |names| && names[Matches(names, name)[k]] == name
  {
    MatchesAreMatches(names, name);
    assert Matches(names, name)[k] in Matches(names, name);
  }

  lemma NoMatches(name: string)
    ensures Matches([], name) == []
  {
  }

  class Mixer {
    const h: CtlGroup?
    const v: CtlGroup?
    var totalCount: nat

    ghost predicate Valid()
      reads this, h, v
    {
      && (h != null ==> h.Valid()) && (v != null ==> v.Valid())
      && (h != null && v != null ==> h != v && h.ctl != v.ctl)
      && totalCount == HCount() + VCount()
    }

    /** `mixer_grp_get_count`. */
    function HCount(): nat
      reads h
    {
      if h == null then 0 else h.count
    }

    function VCount(): nat
      reads v
    {
      if v == null then 0 else v.count
    }

    /** `mixer_open`, the groups being open and still empty. */
    constructor (h: CtlGroup?, v: CtlGroup?)
      requires (h != null ==> h.Valid() && h.count == 0) && (v != null ==> v.Valid() && v.count == 0)
      requires h != null && v != null ==> h != v && h.ctl != v.ctl
      ensures Valid() && this.h == h && this.v == v && totalCount == 0
    {
      this.h, this.v, totalCount := h, v, 0;
    }

    /** `mixer_add_new_ctls`: the plugin group is scanned even when the hardware group fails. */
    method AddNewCtls() returns (ok: bool, ghost refusedH: bool, ghost refusedV: bool)
      requires Valid()
      modifies this, h, v
      ensures Valid() && HCount() >= old(HCount()) && VCount() >= old(VCount())
      // each group keeps all that was fetched for it, and is complete unless it refused or one of its own calls failed
      ensures h != null ==> h.count == old(h.count) + h.fetched - old(h.fetched)
      ensures v != null ==> v.count == old(v.count) + v.fetched - old(v.fetched)
      ensures h != null && !refusedH && h.failures == old(h.failures) && h.removals == old(h.removals) ==> |old(h.backend)| <= h.count
      ensures v != null && !refusedV && v.failures == old(v.failures) && v.removals == old(v.removals) ==> |old(v.backend)| <= v.count
      ensures ok <==> !refusedH && !refusedV && (h != null ==> h.failures == old(h.failures)) && (v != null ==> v.failures == old(v.failures))
      // only a backend that has fewer elements than were found refuses
      ensures refusedH ==> h != null && |h.backend| < h.count
      ensures refusedV ==> v != null && |v.backend| < v.count
    {
      var ok1, ok2 := true, true;
      refusedH, refusedV := false, false;
      if h != null {
        var added;
        ok1, added, refusedH := h.AddControls();
        totalCount := totalCount + added;
      }
      if v != null {
        var added;
        ok2, added, refusedV := v.AddControls();
        totalCount := totalCount + added;
      }
      ok := ok1 && ok2;
    }

    /** A control whose information gives it the name. */
    ghost predicate HasName(c: CtlRef, name: string)
      requires Valid()
      reads this, h, v, if h == null then {} else {h.ctl}, if v == null then {} else {v.ctl}
    {
      match c
      case Hw(i) => i < HCount() && (h.ctl[i] == Zero || h.ctl[i].name == name) && (h.ctl[i] == Zero ==> name == "")
      case Virtual(i) => i < VCount() && (v.ctl[i] == Zero || v.ctl[i].name == name) && (v.ctl[i] == Zero ==> name == "")
    }

    /** A control with a name is at a position of the name, and the other way round. */
    lemma NamedMatches(name: string, c: CtlRef)
      requires Valid()
      ensures HasName(c, name) <==>
                (match c case Hw(i) => i < HCount() case Virtual(i) => i < VCount()) && IdOf(c) in Matches(Names(), name)
    {
      MatchesAreMatches(Names(), name);
      NamesAt(c);
      hide Matches, Names, GroupNames;
    }

    lemma NamesAt(c: CtlRef)
      requires Valid()
      ensures |Names()| == HCount() + VCount()
      ensures match c
              case Hw(i) => i < HCount() ==> Names()[i] == NameOf(h.ctl[i])
              case Virtual(i) => i < VCount() ==> Names()[HCount() + i] == NameOf(v.ctl[i])
    {
    }

    /** The name of every control in the order of the ids, 0 to `total_count` - 1. */
    ghost function Names(): seq<string>
      requires Valid()
      reads this, h, v, if h == null then {} else {h.ctl}, if v == null then {} else {v.ctl}
    {
      (if h == null then [] else GroupNames(h.ctl[..h.count])) + (if v == null then [] else GroupNames(v.ctl[..v.count]))
    }

    /** The id of a control. */
    function IdOf(c: CtlRef): nat
      reads h
    {
      match c
      case Hw(i) => i
      case Virtual(i) => HCount() + i
    }

    /** `mixer_get_ctl`. */
    method GetCtl(id: nat) returns (c: Option<CtlRef>)
      requires Valid()
      ensures c.Some? <==> id < totalCount
      ensures c.Some? ==> IdOf(c.value) == id && (if id < HCount() then c.value == Hw(id) else c.value == Virtual(id - HCount()))
    {
      if id >= totalCount {
        return None;
      }
      var hCount := HCount();
      if id < hCount {
        return Some(Hw(id));
      }
      var vCount := VCount();
      if id - hCount < vCount {
        return Some(Virtual(id - hCount));
      }
      return None;
    }

    /** The loop of `mixer_get_num_ctls_by_name` over one group. */
    static method CountInGroup(g: CtlGroup, name: string) returns (count: nat)
      requires g.Valid()
      ensures count == |Matches(GroupNames(g.ctl[..g.count]), name)|
    {
      ghost var names := GroupNames(g.ctl[..g.count]);
      count := 0;
      for n := 0 to g.count
        invariant count == |Matches(names[..n], name)|
      {
        MatchesNext(names, n, name);
        if NameOf(g.ctl[n]) == name {
          count := count + 1;
        }
      }
      assert names[..|names|] == names;
    }

    /** `mixer_get_num_ctls_by_name`. */
    method GetNumCtlsByName(name: string) returns (count: nat)
      requires Valid()
      ensures count == |Matches(Names(), name)|
    {
      count := 0;
      ghost var hNames := if h == null then [] else GroupNames(h.ctl[..h.count]);
      ghost var vNames := if v == null then [] else GroupNames(v.ctl[..v.count]);
      if h != null {
        count := CountInGroup(h, name);
      }
      if v != null {
        var more := CountInGroup(v, name);
        count := count + more;
      }
      MatchesAppend(hNames, vNames, name);
    }

    /**
     The loop of `mixer_get_ctl_by_name_and_index` over one group: the place of match number `index`,
     or the number of matches still to be passed over.
     */
    static method FindInGroup(g: CtlGroup, name: string, index: nat) returns (found: Option<nat>, left: nat)
      requires g.Valid()
      ensures var m := Matches(GroupNames(g.ctl[..g.count]), name);
        if index < |m| then found == Some(m[index]) else found == None && left == index - |m|
    {
      ghost var names := GroupNames(g.ctl[..g.count]);
      assert forall n :: 0 <= n < |names| ==> names[n] == NameOf(g.ctl[n]);
      hide Matches, GroupNames, NameOf;
      assert names[..0] == [];
      NoMatches(name);
      left := index;
      for n := 0 to g.count
        invariant |Matches(names[..n], name)| + left == index
      {
        MatchesNext(names, n, name);
        if NameOf(g.ctl[n]) == name {
          if left == 0 {
            MatchesPrefix(names, n + 1, name);
            return Some(n), left;
          }
          left := left - 1;
        }
      }
      assert names[..|names|] == names;
      found := None;
    }

    /** The two loops of `mixer_get_ctl_by_name_and_index`. */
    method Locate(name: string, index: nat) returns (c: Option<CtlRef>)
      requires Valid()
      ensures c.Some? <==> index < |Matches(Names(), name)|
      ensures c.Some? ==> IdOf(c.value) == Matches(Names(), name)[index]
      ensures c.Some? ==> (c.value.Hw? <==> IdOf(c.value) < HCount())
    {
      ghost var hNames := if h == null then [] else GroupNames(h.ctl[..h.count]);
      ghost var vNames := if v == null then [] else GroupNames(v.ctl[..v.count]);
      hide Matches, GroupNames, Shift;
      NoMatches(name);
      MatchesAppend(hNames, vNames, name);
      ShiftAt(Matches(vNames, name), |hNames|);
      var left := index;
      if h != null {
        var found;
        found, left := FindInGroup(h, name, left);
        if found.Some? {
          MatchAt(hNames, name, index);
          return Some(Hw(found.value));
        }
      }
      if v != null {
        var found;
        found, left := FindInGroup(v, name, left);
        if found.Some? {
          return Some(Virtual(found.value));
        }
      }
      return None;
    }

    /**
     `mixer_get_ctl_by_name_and_index`: match number `index` in the order of the ids, and none exactly
     when `mixer_get_num_ctls_by_name` counts no more than `index`.
     */
    method GetCtlByNameAndIndex(name: string, index: nat) returns (c: Option<CtlRef>)
      requires Valid()
      ensures c.Some? <==> index < |Matches(Names(), name)|
      ensures c.Some? ==> IdOf(c.value) == Matches(Names(), name)[index]
      ensures c.Some? ==> (c.value.Hw? <==> IdOf(c.value) < HCount())
      // the control found has the name, and the first is missing only if no control has it
      ensures c.Some? ==> HasName(c.value, name)
      ensures c.None? && index == 0 ==> forall ctl :: !HasName(ctl, name)
    {
      hide Matches, HasName, Names;
      c := Locate(name, index);
      if c.Some? {
        FoundHasName(c.value, name, index);
      } else {
        forall ctl | HasName(ctl, name)
          ensures |Matches(Names(), name)| > 0
        {
          NamedMatches(name, ctl);
        }
      }
    }

    lemma FoundHasName(c: CtlRef, name: string, index: nat)
      requires Valid() && index < |Matches(Names(), name)| && IdOf(c) == Matches(Names(), name)[index]
      requires c.Hw? <==> IdOf(c) < HCount()
      ensures HasName(c, name)
    {
      hide Matches, HasName, Names;
      MatchAt(Names(), name, index);
      NamedMatches(name, c);
      NamesAt(c);
      assert IdOf(c) in Matches(Names(), name);
    }
  }

  function NameOf(info: Info): string {
    if info.Info? then info.name else ""
  }

  function GroupNames(table: seq<Info>): (names: seq<string>)
    ensures |names| == |table|
  {
    seq(|table|, i requires 0 <= i < |table| => NameOf(table[i]))
  }

  /** Positions in the second list are shifted by the length of the first. */
  function Shift(m: seq<nat>, n: nat): (s: seq<nat>)
    ensures |s| == |m|
  {
    seq(|m|, i requires 0 <= i < |m| => m[i] + n)
  }

  lemma MatchesNext(names: seq<string>, n: nat, name: string)
    requires n < |names|
    ensures Matches(names[..n + 1], name) == Matches(names[..n], name) + (if names[n] == name then [n] else [])
  {
    assert names[..n + 1][..n] == names[..n];
  }

  lemma ShiftAt(m: seq<nat>, n: nat)
    ensures forall k :: 0 <= k < |m| ==> Shift(m, n)[k] == m[k] + n
  {
  }

  lemma {:induction false} MatchesAppend(a: seq<string>, b: seq<string>, name: string)
    ensures Matches(a + b, name) == Matches(a, name) + Shift(Matches(b, name), |a|)
  {
    if b == [] {
      assert a + b == a;
    } else {
      var init := b[..|b| - 1];
      MatchesAppend(a, init, name);
      assert (a + b)[..|a + b| - 1] == a + init;
      assert Matches(a + b, name) == Matches(a, name) + Shift(Matches(b, name), |a|);
    }
  }

  lemma {:induction false} MatchesPrefix(names: seq<string>, n: nat, name: string)
    requires n <= |names|
    ensures Matches(names[..n], name) <= Matches(names, name)
    decreases |names|
  {
    if n < |names| {
      MatchesPrefix(names[..|names| - 1], n, name);
      assert names[..|names| - 1][..n] == names[..n];
    } else {
      assert names[..n] == names;
    }
  }

  // ---------------------------------------------------------------- ids

  /** `mixer_ctl_get_id`. */
  function GetId(numid: nat): nat {
    ToUInt(numid - 1)
  }

  /** Does the id a control of number `numid` reports lead to control `c` through `mixer_get_ctl`? */
  predicate LeadsTo(numid: nat, c: CtlRef, hCount: nat, vCount: nat) {
    var id := GetId(numid);
    id < hCount + vCount && (if id < hCount then Hw(id) else Virtual(id - hCount)) == c
  }

  /**
   The id a control reports leads back to it exactly when its number is one more than its place among all
   controls. The plugin numbers its controls from 0, so none of them is led back to, and neither is a hardware
   control the kernel has numbered with a gap before it.
   */
  lemma IdLeadsBack(c: CtlRef, numid: nat, hCount: nat, vCount: nat)
    requires hCount + vCount <= UINT_MAX && numid <= UINT_MAX
    requires match c case Hw(i) => i < hCount case Virtual(i) => i < vCount
    ensures LeadsTo(numid, c, hCount, vCount) <==> numid == (match c case Hw(i) => i case Virtual(i) => hCount + i) + 1
    ensures c.Virtual? && numid == c.index ==> !LeadsTo(numid, c, hCount, vCount)
  {
  }
}
