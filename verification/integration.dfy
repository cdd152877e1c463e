/** The bridge to the game: reading the player's state, switching player
    behaviours on and off by flags, reading the behaviour states back as
    flags, and keeping per-owner lists of menu imposters registered with the
    game's menu tracker. */
module Integration {
  import opened Common
  import BF = BehaviourFlags

  /** The player's main state type. Only `WritingBeaconName` is singled out
      by the core; every other state is an `OtherState`. */
  datatype StateType = WritingBeaconName | OtherState(id: nat)

  /** What the integration can see of the game. `activator` says whether a
      behaviour activator exists. `present` holds the types of the behaviour
      components found under it and `enabled` those of the enabled ones; type
      `t < 19` is the type mapped to table entry `t`, larger numbers are
      other behaviour types. `stateMap` lists the types of the behaviours
      that belong to each player state. */
  datatype Host = Host(
    activator: bool,
    present: set<nat>,
    enabled: set<nat>,
    state: StateType,
    stateMap: map<StateType, seq<nat>>)

  /** Only components that exist are enabled. */
  predicate HostValid(h: Host) {
    h.enabled <= h.present
  }

  /** The current player state type, or none without an activator. */
  function GetCurrentPlayerStateType(h: Host): (r: Option<StateType>)
    ensures r.None? <==> !h.activator
    ensures r.Some? ==> r.value == h.state
  {
    if h.activator then Some(h.state) else None
  }

  /** Flags `f` select the mapped behaviour type `t`: `t` is a table entry
      and `f` has its bit. */
  predicate Selects(f: BF.Flags, t: nat) {
    t < BF.MappedCount && t in f
  }

  /** The behaviour component of type `t` can be found. */
  predicate Present(h: Host, t: nat) {
    h.activator && t in h.present
  }

  /** The behaviour component of type `t` can be found and is enabled. */
  predicate IsEnabled(h: Host, t: nat) {
    Present(h, t) && t in h.enabled
  }

  /** Every mapped behaviour component can be found. */
  predicate AllPresent(h: Host) {
    forall t :: 0 <= t < BF.MappedCount ==> Present(h, t)
  }

  /** The types of the table entries from `i` on whose flag `f` has. */
  function TypesFrom(f: BF.Flags, i: nat): (r: seq<nat>)
    requires i <= BF.MappedCount
    ensures forall t: nat :: t in r <==> i <= t && Selects(f, t)
    decreases BF.MappedCount - i
  {
    BF.TableIsBits();
    if i == BF.MappedCount then []
    else (if BF.HasFlag(f, BF.Table[i]) then [i] else []) + TypesFrom(f, i + 1)
  }

  /** The behaviour types selected by `f`, in table order. */
  function GetFlagBehaviourTypes(f: BF.Flags): (r: seq<nat>)
    ensures forall t: nat :: t in r <==> Selects(f, t)
  {
    TypesFrom(f, 0)
  }

  /** The selected types come in table order: strictly ascending. */
  lemma {:induction false} TypesAscending(f: BF.Flags, i: nat)
    requires i <= BF.MappedCount
    ensures forall k :: 0 <= k < |TypesFrom(f, i)| ==> i <= TypesFrom(f, i)[k]
    ensures forall k, l :: 0 <= k < l < |TypesFrom(f, i)| ==> TypesFrom(f, i)[k] < TypesFrom(f, i)[l]
    decreases BF.MappedCount - i
  {
    if i < BF.MappedCount {
      TypesAscending(f, i + 1);
    }
  }

  /** Flags with every mapped bit, such as `All`, select every mapped type
      in table order; flags with no mapped bit, such as `None`, select none. */
  lemma TypesOfAllAndNone(f: BF.Flags)
    ensures BF.MappedMask <= f ==> GetFlagBehaviourTypes(f) == seq(BF.MappedCount, t => t)
    ensures f * BF.MappedMask == {} ==> GetFlagBehaviourTypes(f) == []
    ensures BF.MappedMask <= BF.All && BF.None * BF.MappedMask == {}
  {
    var r := GetFlagBehaviourTypes(f);
    BF.MaskMembers();
    if BF.MappedMask <= f {
      TypesAscending(f, 0);
      forall t: nat
        ensures t in r <==> t < BF.MappedCount
      {
        assert t < BF.MappedCount ==> t in f;
      }
      SortedRange(r, BF.MappedCount);
    }
    assert f * BF.MappedMask == {} ==> |r| == 0 by {
      if |r| > 0 {
        assert r[0] in r;
        assert r[0] in f * BF.MappedMask;
      }
    }
  }

  /** A strictly ascending sequence holding exactly `0 .. n-1` is that range. */
  lemma {:induction false} SortedRange(r: seq<nat>, n: nat)
    requires forall k, l :: 0 <= k < l < |r| ==> r[k] < r[l]
    requires forall t: nat :: t in r <==> t < n
    ensures r == seq(n, t => t)
  {
    if r == [] {
      assert 0 !in r;
    } else {
      var last := r[|r| - 1];
      var p := r[..|r| - 1];
      assert r == p + [last];
      assert last in r;
      assert n - 1 in r;
      forall k | 0 <= k < |p|
        ensures p[k] < last
      {
        assert r[k] < r[|r| - 1];
      }
      assert last == n - 1;
      forall t: nat
        ensures t in p <==> t < n - 1
      {
        assert t in r <==> t in p || t == last;
      }
      SortedRange(p, n - 1);
      assert seq(n, t => t) == seq(n - 1, t => t) + [n - 1];
    }
  }

  /** Switching behaviours to match `f`. Without an activator nothing
      happens. With `respect`, the behaviours of the current player state are
      enabled exactly when `f` selects their type, and a state missing from
      the state map throws. Otherwise every mapped behaviour that can be found
      is enabled exactly when `f` selects it. The source visits the mapped
      types as the types `All` selects, which are all of them
      (`TypesOfAllAndNone`). */
  function SetBehaviourStates(h: Host, f: BF.Flags, respect: bool): (r: Completion<Host>)
    ensures !h.activator ==> r == Normal(h)
    ensures r.Thrown? <==> h.activator && respect && h.state !in h.stateMap
    ensures r.Thrown? ==> r.state == h && r.error == KeyNotFound
    ensures r.state == h.(present := r.state.present, enabled := r.state.enabled)
    ensures HostValid(h) ==> HostValid(r.state)
    ensures r.Normal? && h.activator && respect ==>
              && (forall t :: t in r.state.present <==> t in h.present || t in h.stateMap[h.state])
              && (forall t :: t in r.state.enabled <==>
                    if t in h.stateMap[h.state] then Selects(f, t) else t in h.present && t in h.enabled)
    ensures h.activator && !respect ==>
              && r.state.present == h.present
              && (forall t :: t in r.state.enabled <==>
                    t in h.present && if t < BF.MappedCount then Selects(f, t) else t in h.enabled)
  {
    if !h.activator then Normal(h)
    else
      var types := GetFlagBehaviourTypes(f);
      if respect then
        if h.state !in h.stateMap then Thrown(h, KeyNotFound)
        else
          var listed := h.stateMap[h.state];
          var present := h.present + (set b | b in listed);
          Normal(h.(present := present,
                    enabled := set t | t in present && if t in listed then t in types else t in h.enabled))
      else
        Normal(h.(enabled := set t | t in h.present && if t < BF.MappedCount then t in types else t in h.enabled))
  }

  /** Setting the behaviours selected by `f` to `state`, leaving the others.
      Without an activator nothing happens; with `respect` only the current
      player state's behaviours are touched, and a state missing from the
      state map throws. */
  function SetBehaviourStatesAll(h: Host, f: BF.Flags, state: bool, respect: bool): (r: Completion<Host>)
    ensures !h.activator ==> r == Normal(h)
    ensures r.Thrown? <==> h.activator && respect && h.state !in h.stateMap
    ensures r.Thrown? ==> r.state == h && r.error == KeyNotFound
    ensures r.state == h.(present := r.state.present, enabled := r.state.enabled)
    ensures HostValid(h) ==> HostValid(r.state)
    ensures r.Normal? && h.activator && respect ==>
              && (forall t :: t in r.state.present <==> t in h.present || (t in h.stateMap[h.state] && Selects(f, t)))
              && (forall t :: t in r.state.enabled <==>
                    if t in h.stateMap[h.state] && Selects(f, t) then state else t in h.present && t in h.enabled)
    ensures h.activator && !respect ==>
              && r.state.present == h.present
              && (forall t :: t in r.state.enabled <==>
                    t in h.present && if Selects(f, t) then state else t in h.enabled)
  {
    if !h.activator then Normal(h)
    else
      var types := GetFlagBehaviourTypes(f);
      if respect then
        if h.state !in h.stateMap then Thrown(h, KeyNotFound)
        else
          var listed := h.stateMap[h.state];
          var present := h.present + (set b | b in listed && b in types);
          Normal(h.(present := present,
                    enabled := set t | t in present && if t in listed && t in types then state else t in h.enabled))
      else
        Normal(h.(enabled := set t | t in h.present && if t in types then state else t in h.enabled))
  }

  /** Reading the table from entry `i` on, with the flags found so far in
      `acc`: a behaviour that cannot be found yields `None`, otherwise each
      enabled behaviour adds its flag. */
  function CurrentFrom(h: Host, i: nat, acc: BF.Flags): (r: BF.Flags)
    requires i <= BF.MappedCount
    ensures (exists j :: i <= j < BF.MappedCount && !Present(h, j)) ==> r == BF.None
    ensures (forall j :: i <= j < BF.MappedCount ==> Present(h, j)) ==>
              forall t: nat :: t in r <==> t in acc || (i <= t < BF.MappedCount && IsEnabled(h, t))
    decreases BF.MappedCount - i
  {
    if i == BF.MappedCount then acc
    else if !Present(h, i) then BF.None
    else CurrentFrom(h, i + 1, if i in h.enabled then acc + BF.Flag(i) else acc)
  }

  /** The behaviour states as flags: exactly the flags of the enabled mapped
      behaviours; `None` as soon as one mapped behaviour (or the activator) is
      missing. */
  function GetCurrentBehaviourStates(h: Host): (r: BF.Flags)
    ensures !AllPresent(h) ==> r == BF.None
    ensures AllPresent(h) ==> forall t: nat :: t in r <==> t < BF.MappedCount && IsEnabled(h, t)
    ensures BF.HasFlag(BF.MappedMask, r)
  {
    CurrentFrom(h, 0, BF.None)
  }

  /** Writing flags and reading them back yields the written flags' mapped
      bits, provided every mapped behaviour exists. */
  lemma SetThenGet(h: Host, f: BF.Flags)
    requires AllPresent(h)
    ensures SetBehaviourStates(h, f, false).Normal?
    ensures GetCurrentBehaviourStates(SetBehaviourStates(h, f, false).state) == f * BF.MappedMask
  {
    var h' := SetBehaviourStates(h, f, false).state;
    WriteKeepsAllPresent(h, f);
    var r := GetCurrentBehaviourStates(h');
    var m := f * BF.MappedMask;
    forall t: nat
      ensures t in r <==> t in m
    {
      SetThenGetAt(h, f, t);
    }
    SameMembers(r, m);
  }

  /** `SetThenGet` for one bit. */
  lemma SetThenGetAt(h: Host, f: BF.Flags, t: nat)
    requires AllPresent(h)
    ensures t in GetCurrentBehaviourStates(SetBehaviourStates(h, f, false).state) <==> t in f * BF.MappedMask
  {
    var h' := SetBehaviourStates(h, f, false).state;
    WriteKeepsAllPresent(h, f);
    BF.MaskMembers();
    ReadBit(h', t);
    if t < BF.MappedCount {
      assert Present(h, t);
    }
  }

  /** One bit of the flags read from a host where every mapped behaviour
      exists. */
  lemma ReadBit(h: Host, t: nat)
    requires AllPresent(h)
    ensures t in GetCurrentBehaviourStates(h) <==> t < BF.MappedCount && t in h.enabled
  {
  }

  /** Two sets of numbers with the same members are equal. */
  lemma SameMembers(a: set<nat>, b: set<nat>)
    requires forall t: nat :: t in a <==> t in b
    ensures a == b
  {
    assert a <= b;
  }

  /** A write finds the same behaviours it found before. */
  lemma WriteKeepsAllPresent(h: Host, f: BF.Flags)
    requires AllPresent(h)
    ensures AllPresent(SetBehaviourStates(h, f, false).state)
  {
    var h' := SetBehaviourStates(h, f, false).state;
    forall t: nat | t < BF.MappedCount
      ensures Present(h', t)
    {
      assert Present(h, t);
    }
  }

  /** Reading the flags and writing them back changes nothing, provided
      every mapped behaviour exists. */
  lemma GetThenSet(h: Host)
    requires AllPresent(h) && HostValid(h)
    ensures SetBehaviourStates(h, GetCurrentBehaviourStates(h), false) == Normal(h)
  {
    RewriteEnabled(h);
  }

  /** Writing back the flags just read leaves the enabled set as it was. */
  lemma RewriteEnabled(h: Host)
    requires AllPresent(h) && HostValid(h)
    ensures SetBehaviourStates(h, GetCurrentBehaviourStates(h), false).state.enabled == h.enabled
  {
    var c := GetCurrentBehaviourStates(h);
    var r := SetBehaviourStates(h, c, false).state;
    forall t: nat
      ensures t in r.enabled <==> t in h.enabled
    {
      RewriteBit(h, t);
    }
    SameMembers(r.enabled, h.enabled);
  }

  /** `RewriteEnabled` for one behaviour type. */
  lemma RewriteBit(h: Host, t: nat)
    requires AllPresent(h) && HostValid(h)
    ensures t in SetBehaviourStates(h, GetCurrentBehaviourStates(h), false).state.enabled <==> t in h.enabled
  {
    ReadBit(h, t);
    if t < BF.MappedCount {
      assert Present(h, t);
    }
  }

  /** The last write wins: writing twice is writing once. */
  lemma SetOverwrites(h: Host, f: BF.Flags, g: BF.Flags)
    ensures SetBehaviourStates(SetBehaviourStates(h, f, false).state, g, false) == SetBehaviourStates(h, g, false)
  {
    if h.activator {
      OverwriteEnabled(h, f, g);
    }
  }

  /** The enabled set after two writes is the one after the second alone. */
  lemma OverwriteEnabled(h: Host, f: BF.Flags, g: BF.Flags)
    requires h.activator
    ensures SetBehaviourStates(SetBehaviourStates(h, f, false).state, g, false).state.enabled
            == SetBehaviourStates(h, g, false).state.enabled
  {
    var hf := SetBehaviourStates(h, f, false).state;
    var a := SetBehaviourStates(hf, g, false).state;
    var b := SetBehaviourStates(h, g, false).state;
    assert hf.present == h.present && hf.activator;
    forall t: nat
      ensures t in a.enabled <==> t in b.enabled
    {
    }
  }

  /** A snapshot taken before any write restores every behaviour, provided
      every mapped behaviour exists when the snapshot is taken. */
  lemma SnapshotRestores(h: Host, f: BF.Flags)
    requires AllPresent(h) && HostValid(h)
    ensures SetBehaviourStates(SetBehaviourStates(h, f, false).state, GetCurrentBehaviourStates(h), false) == Normal(h)
  {
    SetOverwrites(h, f, GetCurrentBehaviourStates(h));
    GetThenSet(h);
  }

  /** Writing `None` disables every mapped behaviour that exists. */
  lemma SetNoneDisablesAll(h: Host, t: nat)
    requires Present(h, t) && t < BF.MappedCount
    ensures t !in SetBehaviourStates(h, BF.None, false).state.enabled
  {
  }

  /** The registered menu imposters: the list per owner (keyed by the
      owner's identity), the imposters the menu tracker tracks, the
      imposters not yet destroyed, and the next imposter's identity. */
  datatype Imposters = Imposters(
    lists: map<nat, seq<nat>>,
    tracked: set<nat>,
    alive: set<nat>,
    next: nat)

  /** No imposters yet. */
  const NoImposters: Imposters := Imposters(map[], {}, {}, 0)

  /** Listed imposters are alive, no imposter is listed under two owners,
      and every identity used so far is below `next`. */
  ghost predicate ImpostersValid(m: Imposters) {
    && (forall o, k :: o in m.lists && 0 <= k < |m.lists[o]| ==> m.lists[o][k] in m.alive)
    && (forall o1, o2, x :: o1 in m.lists && o2 in m.lists && x in m.lists[o1] && x in m.lists[o2] ==> o1 == o2)
    && (forall x :: x in m.alive + m.tracked ==> x < m.next)
  }

  /** Creates an imposter for `owner` and tracks it, if the menu tracker
      exists; otherwise creates nothing. */
  function CreateMenuImposter(m: Imposters, owner: nat, trackerPresent: bool): (r: (Imposters, Option<nat>))
    ensures !trackerPresent ==> r == (m, None)
    ensures trackerPresent ==>
              && r.1 == Some(m.next)
              && (ImpostersValid(m) ==> m.next !in m.alive + m.tracked)
              && r.0.lists == m.lists[owner := (if owner in m.lists then m.lists[owner] else []) + [m.next]]
              && r.0.tracked == m.tracked + {m.next}
              && r.0.alive == m.alive + {m.next}
              && r.0.next > m.next
    ensures ImpostersValid(m) ==> ImpostersValid(r.0)
  {
    if !trackerPresent then (m, None)
    else
      var id := m.next;
      var list := if owner in m.lists then m.lists[owner] else [];
      (Imposters(m.lists[owner := list + [id]], m.tracked + {id}, m.alive + {id}, m.next + 1), Some(id))
  }

  /** Untracks (if the tracker exists) and destroys every imposter of
      `owner`, then forgets the owner; an unknown owner is left alone. */
  function DestroyAllMenuImposters(m: Imposters, owner: nat, trackerPresent: bool): (r: Imposters)
    ensures owner !in m.lists ==> r == m
    ensures owner !in r.lists
    ensures forall o :: o != owner ==> (o in r.lists <==> o in m.lists) && (o in m.lists ==> r.lists[o] == m.lists[o])
    ensures owner in m.lists ==>
              && (forall x :: x in m.lists[owner] ==> x !in r.alive && (trackerPresent ==> x !in r.tracked))
              && (forall x :: x in m.alive && x !in m.lists[owner] ==> x in r.alive)
              && r.tracked <= m.tracked
              && (forall x :: x in m.tracked && x !in m.lists[owner] ==> x in r.tracked)
              && (!trackerPresent ==> r.tracked == m.tracked)
    ensures r.alive <= m.alive && r.next == m.next
    ensures ImpostersValid(m) ==> ImpostersValid(r)
  {
    if owner !in m.lists then m
    else
      var ids := set x | x in m.lists[owner];
      var lists := m.lists - {owner};
      var r := Imposters(lists, if trackerPresent then m.tracked - ids else m.tracked, m.alive - ids, m.next);
      assert ImpostersValid(m) ==> ImpostersValid(r) by {
        if ImpostersValid(m) {
          forall o, k | o in r.lists && 0 <= k < |r.lists[o]|
            ensures r.lists[o][k] in r.alive
          {
            var x := m.lists[o][k];
            assert o != owner && r.lists[o] == m.lists[o] && x in m.lists[o];
            assert x !in ids;
          }
          assert r.alive + r.tracked <= m.alive + m.tracked;
        }
      }
      r
  }
}
