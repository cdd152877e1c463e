/** The overlay's front end in its older variant. Its visibility setter
    switches player behaviours with two-argument calls of the behaviour
    setter, whose second argument is the state-map switch, and takes no
    snapshot; its toggle has no guard and there is no escape binding. Its
    window management is the shared overlay core. */
module StellarHub {
  import opened Common
  import opened Geometry
  import BF = BehaviourFlags
  import I = Integration
  import O = Overlay

  /** The overlay: its windows, the game it talks to, the registered menu
      imposters, its visibility, its identity as an imposter owner, whether
      the game's menu tracker exists, and the imposters whose close signal
      hides it. */
  datatype StellarHub = StellarHub(
    world: O.World,
    host: I.Host,
    imposters: I.Imposters,
    visible: bool,
    id: nat,
    trackerPresent: bool,
    closers: set<nat>)

  ghost predicate Valid(s: StellarHub) {
    O.Valid(s.world) && I.HostValid(s.host) && I.ImpostersValid(s.imposters)
  }

  /** The behaviour types the current player state lists, if the state map
      has the current state. */
  function Listed(h: I.Host): set<nat> {
    if h.state in h.stateMap then set t | t in h.stateMap[h.state] else {}
  }

  /** Showing's behaviour switching as written: every mapped behaviour that
      can be found is enabled, then the current state's listed behaviours
      are switched to input and escape only. The second step throws when
      the state map lacks the current state. Behaviours the state does not
      list stay enabled. */
  function ShowBehaviours(h: I.Host): (r: Completion<I.Host>)
    requires I.HostValid(h)
    ensures I.HostValid(r.state)
    ensures r.state == h.(present := r.state.present, enabled := r.state.enabled)
    ensures r.Thrown? <==> h.activator && h.state !in h.stateMap
    ensures r.Thrown? ==> r.error == KeyNotFound
    ensures !h.activator ==> r == Normal(h)
    ensures r.Normal? && h.activator ==>
              forall t: nat :: t in r.state.enabled <==>
                if t in Listed(h) then t == 0 || t == 9
                else t in h.present && (t < BF.MappedCount || t in h.enabled)
  {
    var h1 := I.SetBehaviourStates(h, BF.All, false).state;
    BF.MaskMembers();
    BF.InputAndEscapeBits();
    I.SetBehaviourStates(h1, BF.InputAndEscape, true)
  }

  /** Hiding's behaviour switching as written: the current state's listed
      behaviours are enabled exactly when they are mapped; it throws when
      the state map lacks the current state. */
  function HideBehaviours(h: I.Host): (r: Completion<I.Host>)
    requires I.HostValid(h)
    ensures I.HostValid(r.state)
    ensures r.state == h.(present := r.state.present, enabled := r.state.enabled)
    ensures r.Thrown? <==> h.activator && h.state !in h.stateMap
    ensures r.Thrown? ==> r == Thrown(h, KeyNotFound)
    ensures !h.activator ==> r == Normal(h)
    ensures r.Normal? && h.activator ==>
              forall t: nat :: t in r.state.enabled <==>
                if t in Listed(h) then t < BF.MappedCount else t in h.present && t in h.enabled
  {
    BF.MaskMembers();
    I.SetBehaviourStates(h, BF.All, true)
  }

  /** The `IsVisible` setter as written: the visibility changes first; then
      showing switches behaviours and registers a closable imposter, and
      hiding switches behaviours and destroys this overlay's imposters. No
      snapshot is taken. When the behaviour switching throws, the imposters
      are left as they were. */
  function SetVisible(s: StellarHub, v: bool): (r: Completion<StellarHub>)
    requires Valid(s)
    ensures Valid(r.state)
    ensures r.state.visible == v
    ensures r.state.world == s.world && r.state.id == s.id && r.state.trackerPresent == s.trackerPresent
    ensures r.Thrown? <==> s.host.activator && s.host.state !in s.host.stateMap
    ensures r.Thrown? ==> r.error == KeyNotFound && r.state.imposters == s.imposters && r.state.closers == s.closers
    ensures v ==> r.state.host == ShowBehaviours(s.host).state
    ensures !v ==> r.state.host == HideBehaviours(s.host).state
    ensures r.Normal? && v && s.trackerPresent ==>
              && s.id in r.state.imposters.lists && s.imposters.next in r.state.imposters.lists[s.id]
              && s.imposters.next in r.state.closers
    ensures r.Normal? && !v ==> s.id !in r.state.imposters.lists && r.state.closers == s.closers
  {
    var c := if v then ShowBehaviours(s.host) else HideBehaviours(s.host);
    var s1 := s.(visible := v, host := c.state);
    if c.Thrown? then Thrown(s1, c.error)
    else if v then
      var (imposters, created) := I.CreateMenuImposter(s.imposters, s.id, s.trackerPresent);
      Normal(s1.(imposters := imposters, closers := if created.Some? then s.closers + {created.value} else s.closers))
    else
      Normal(s1.(imposters := I.DestroyAllMenuImposters(s.imposters, s.id, s.trackerPresent)))
  }

  /** The toggle binding flips the visibility, whatever the player does. */
  function ToggleVisibility(s: StellarHub): (r: Completion<StellarHub>)
    requires Valid(s)
    ensures Valid(r.state) && r.state.visible == !s.visible
    ensures r.Thrown? <==> s.host.activator && s.host.state !in s.host.stateMap
  {
    SetVisible(s, !s.visible)
  }

  /** The game closing imposter `x`: if it is one of this overlay's, its
      close signal hides the overlay. */
  function CloseImposter(s: StellarHub, x: nat): (r: Completion<StellarHub>)
    requires Valid(s)
    ensures Valid(r.state)
    ensures x in s.closers ==> !r.state.visible
    ensures x !in s.closers ==> r == Normal(s)
  {
    if x in s.closers then SetVisible(s, false) else Normal(s)
  }

  /** `AddHubWindow` of this variant is the overlay core's. */
  function AddHubWindow(s: StellarHub, p: O.PanelId, layout: Rect, titleBar: Rect, newElement: nat): (r: Completion<StellarHub>)
    requires Valid(s) && p < |s.world.panels|
    ensures Valid(r.state)
    ensures r.state == s.(world := r.state.world)
    ensures r.Thrown? <==> O.WindowOf(s.world, p).Some?
    ensures r.Normal? ==> O.WindowOf(r.state.world, p) == Some(|s.world.chromes|)
    ensures r.Normal? ==> r.state.world.events == s.world.events + [O.Added(p)]
  {
    match O.AddHubWindow(s.world, p, layout, titleBar, newElement)
    case Normal(w) =>
      O.AddRegisters(s.world, p, layout, titleBar, newElement);
      Normal(s.(world := w))
    case Thrown(w, e) => Thrown(s.(world := w), e)
  }

  /** `RemoveHubWindow` of this variant is the overlay core's. */
  function RemoveHubWindow(s: StellarHub, p: O.PanelId): (r: Completion<StellarHub>)
    requires Valid(s)
    ensures Valid(r.state)
    ensures r.state == s.(world := r.state.world)
    ensures r.Thrown? <==> O.WindowOf(s.world, p).None?
    ensures r.Thrown? ==> r == Thrown(s, KeyNotFound)
    ensures r.Normal? ==> O.WindowOf(r.state.world, p).None? && r.state.world.events == s.world.events + [O.Removed(p)]
  {
    match O.RemoveHubWindow(s.world, p)
    case Normal(w) =>
      O.RemoveUnregisters(s.world, p);
      Normal(s.(world := w))
    case Thrown(w, e) => Thrown(s.(world := w), e)
  }

  /** As written, showing leaves every found mapped behaviour that the
      current state does not list enabled (walking, say, while the state
      lists only other behaviours), and showing in a state the state map
      lacks throws before the imposter is registered. */
  lemma ShowLeavesUnlistedEnabled(h: I.Host, t: nat)
    requires I.HostValid(h) && h.activator && t < BF.MappedCount && t in h.present && t !in Listed(h)
    ensures h.state in h.stateMap ==> ShowBehaviours(h).Normal? && t in ShowBehaviours(h).state.enabled
    ensures h.state !in h.stateMap ==> ShowBehaviours(h).Thrown?
  {
  }

  /** A game where the player walks in a state that lists no behaviour. */
  const Walking: I.Host := I.Host(true, {1}, {}, I.OtherState(0), map[I.OtherState(0) := []])

  /** In that game, showing the overlay as written switches walking on. */
  lemma ShowEnablesWalking()
    ensures 1 !in Walking.enabled
    ensures ShowBehaviours(Walking).Normal? && 1 in ShowBehaviours(Walking).state.enabled
  {
    assert 1 !in Listed(Walking);
  }

  /** Showing's behaviour switching as the calls' shape intends: the
      two-argument calls match `SetBehaviourStatesAll(flags, state)`, so
      every mapped behaviour is switched off and then input and escape are
      switched on. It never throws. */
  function ShowBehavioursIntended(h: I.Host): (r: I.Host)
    requires I.HostValid(h)
    ensures I.HostValid(r)
    ensures r == h.(enabled := r.enabled)
    ensures h.activator ==>
              forall t: nat :: t in r.enabled <==>
                t in h.present && if t < BF.MappedCount then t == 0 || t == 9 else t in h.enabled
    ensures !h.activator ==> r == h
  {
    var h1 := I.SetBehaviourStatesAll(h, BF.All, false, false).state;
    assert h1.present == h.present && h1.activator == h.activator;
    assert h.activator ==> forall t: nat :: t in h1.enabled <==> t in h.present && t >= BF.MappedCount && t in h.enabled by {
      BF.MaskMembers();
    }
    var h2 := I.SetBehaviourStatesAll(h1, BF.InputAndEscape, true, false).state;
    BF.InputAndEscapeBits();
    h2
  }

  /** Hiding's behaviour switching as intended: every mapped behaviour that
      can be found is switched on. */
  function HideBehavioursIntended(h: I.Host): (r: I.Host)
    requires I.HostValid(h)
    ensures I.HostValid(r)
    ensures r == h.(enabled := r.enabled)
    ensures h.activator ==>
              forall t: nat :: t in r.enabled <==> t in h.present && (t < BF.MappedCount || t in h.enabled)
    ensures !h.activator ==> r == h
  {
    BF.MaskMembers();
    I.SetBehaviourStatesAll(h, BF.All, true, false).state
  }

  /** The setter with the intended behaviour switching. */
  function SetVisibleIntended(s: StellarHub, v: bool): (r: StellarHub)
    requires Valid(s)
    ensures Valid(r) && r.visible == v && r.world == s.world
    ensures r.host == if v then ShowBehavioursIntended(s.host) else HideBehavioursIntended(s.host)
    ensures v && s.trackerPresent ==>
              && s.id in r.imposters.lists && s.imposters.next in r.imposters.lists[s.id]
              && s.imposters.next in r.closers
    ensures !v ==> s.id !in r.imposters.lists
  {
    if v then
      var (imposters, created) := I.CreateMenuImposter(s.imposters, s.id, s.trackerPresent);
      s.(visible := true, host := ShowBehavioursIntended(s.host), imposters := imposters,
         closers := if created.Some? then s.closers + {created.value} else s.closers)
    else
      s.(visible := false, host := HideBehavioursIntended(s.host),
         imposters := I.DestroyAllMenuImposters(s.imposters, s.id, s.trackerPresent))
  }

  /** With the intended switching, an open overlay leaves the player input
      and escape only, in every state, and closing it switches every mapped
      behaviour back on, when every mapped behaviour exists. */
  lemma IntendedShowRestricts(s: StellarHub)
    requires Valid(s) && I.AllPresent(s.host)
    ensures I.GetCurrentBehaviourStates(SetVisibleIntended(s, true).host) == BF.InputAndEscape
    ensures I.GetCurrentBehaviourStates(SetVisibleIntended(SetVisibleIntended(s, true), false).host) == BF.MappedMask
  {
    var h1 := ShowBehavioursIntended(s.host);
    ShowReadBack(s.host);
    assert I.AllPresent(h1);
    HideReadBack(h1);
  }

  /** Reading back after the intended show gives input and escape. */
  lemma ShowReadBack(h: I.Host)
    requires I.HostValid(h) && I.AllPresent(h)
    ensures I.GetCurrentBehaviourStates(ShowBehavioursIntended(h)) == BF.InputAndEscape
  {
    var h1 := ShowBehavioursIntended(h);
    assert h1.present == h.present && h1.activator == h.activator;
    assert I.AllPresent(h1) by {
      forall t | 0 <= t < BF.MappedCount
        ensures I.Present(h1, t)
      {
        assert I.Present(h, t);
      }
    }
    BF.InputAndEscapeBits();
    forall t: nat
      ensures t in I.GetCurrentBehaviourStates(h1) <==> t in BF.InputAndEscape
    {
      I.ReadBit(h1, t);
      if t < BF.MappedCount {
        assert I.Present(h, t);
      }
    }
    I.SameMembers(I.GetCurrentBehaviourStates(h1), BF.InputAndEscape);
  }

  /** Reading back after the intended hide gives every mapped flag. */
  lemma HideReadBack(h: I.Host)
    requires I.HostValid(h) && I.AllPresent(h)
    ensures I.GetCurrentBehaviourStates(HideBehavioursIntended(h)) == BF.MappedMask
  {
    var h1 := HideBehavioursIntended(h);
    assert h1.present == h.present && h1.activator == h.activator;
    assert I.AllPresent(h1) by {
      forall t | 0 <= t < BF.MappedCount
        ensures I.Present(h1, t)
      {
        assert I.Present(h, t);
      }
    }
    BF.MaskMembers();
    forall t: nat
      ensures t in I.GetCurrentBehaviourStates(h1) <==> t in BF.MappedMask
    {
      I.ReadBit(h1, t);
      if t < BF.MappedCount {
        assert I.Present(h, t);
      }
    }
    I.SameMembers(I.GetCurrentBehaviourStates(h1), BF.MappedMask);
  }
}
