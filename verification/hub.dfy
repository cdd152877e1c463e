/** The overlay's front end in its current variant: its visibility, which
    restricts the player's behaviours to input and escape while it is shown
    and restores a snapshot of them when it is hidden, the menu imposter the
    game can close it through, the toggle guarded against the beacon-name
    text entry, and the escape binding. Its window management is the shared
    overlay core. */
module Hub {
  import opened Common
  import opened Geometry
  import BF = BehaviourFlags
  import I = Integration
  import O = Overlay

  /** The overlay: its windows, the game it talks to, the registered menu
      imposters, its visibility, the behaviour snapshot taken when it was
      last shown (`None` before the first show), its identity as an
      imposter owner, whether the game's menu tracker exists, and the
      imposters whose close signal hides it. */
  datatype Hub = Hub(
    world: O.World,
    host: I.Host,
    imposters: I.Imposters,
    visible: bool,
    saved: BF.Flags,
    id: nat,
    trackerPresent: bool,
    closers: set<nat>)

  ghost predicate Valid(s: Hub) {
    O.Valid(s.world) && I.HostValid(s.host) && I.ImpostersValid(s.imposters)
  }

  /** The `IsVisible` setter. There is no check against the current value:
      showing snapshots the behaviour states, restricts them to input and
      escape and registers a closable imposter; hiding writes the snapshot
      back and destroys this overlay's imposters. */
  function SetVisible(s: Hub, v: bool): (r: Hub)
    requires Valid(s)
    ensures Valid(r)
    ensures r.visible == v
    ensures r.world == s.world && r.id == s.id && r.trackerPresent == s.trackerPresent
    ensures r.host == s.host.(enabled := r.host.enabled)
    ensures !s.host.activator ==> r.host == s.host
    ensures v ==> r.saved == I.GetCurrentBehaviourStates(s.host)
    ensures v && s.host.activator ==>
              forall t: nat :: t in r.host.enabled <==>
                t in s.host.present && if t < BF.MappedCount then t == 0 || t == 9 else t in s.host.enabled
    ensures v && s.trackerPresent ==>
              && s.id in r.imposters.lists && s.imposters.next in r.imposters.lists[s.id]
              && s.imposters.next in r.imposters.tracked
              && s.imposters.next in r.closers
    ensures v && !s.trackerPresent ==> r.imposters == s.imposters
    ensures !v ==> r.saved == s.saved && r.closers == s.closers
    ensures !v && s.host.activator ==>
              forall t: nat :: t in r.host.enabled <==>
                t in s.host.present && if t < BF.MappedCount then t in s.saved else t in s.host.enabled
    ensures !v ==> s.id !in r.imposters.lists
    ensures !v && s.id in s.imposters.lists ==> forall x :: x in s.imposters.lists[s.id] ==> x !in r.imposters.alive
  {
    if v then
      var host := I.SetBehaviourStates(s.host, BF.InputAndEscape, false).state;
      BF.InputAndEscapeBits();
      var (imposters, created) := I.CreateMenuImposter(s.imposters, s.id, s.trackerPresent);
      s.(visible := true, saved := I.GetCurrentBehaviourStates(s.host), host := host, imposters := imposters,
         closers := if created.Some? then s.closers + {created.value} else s.closers)
    else
      s.(visible := false, host := I.SetBehaviourStates(s.host, s.saved, false).state,
         imposters := I.DestroyAllMenuImposters(s.imposters, s.id, s.trackerPresent))
  }

  /** The constructor ends by hiding the overlay, with the empty snapshot. */
  function NewHub(world: O.World, host: I.Host, imposters: I.Imposters, id: nat, trackerPresent: bool): (r: Hub)
    requires O.Valid(world) && I.HostValid(host) && I.ImpostersValid(imposters)
    ensures Valid(r) && !r.visible && r.saved == BF.None && r.closers == {}
    ensures id !in r.imposters.lists
  {
    SetVisible(Hub(world, host, imposters, false, BF.None, id, trackerPresent, {}), false)
  }

  /** The toggle binding: refused while the player writes a beacon name,
      otherwise the visibility flips. */
  function TryToggle(s: Hub): (r: Hub)
    requires Valid(s)
    ensures Valid(r)
    ensures I.GetCurrentPlayerStateType(s.host) == Some(I.WritingBeaconName) ==> r == s
    ensures I.GetCurrentPlayerStateType(s.host) != Some(I.WritingBeaconName) ==> r.visible == !s.visible
  {
    if I.GetCurrentPlayerStateType(s.host) == Some(I.WritingBeaconName) then s
    else SetVisible(s, !s.visible)
  }

  /** The escape binding hides the overlay, shown or not. */
  function Escape(s: Hub): (r: Hub)
    requires Valid(s)
    ensures Valid(r) && !r.visible
    ensures s.id !in r.imposters.lists
  {
    SetVisible(s, false)
  }

  /** The game closing imposter `x`: if it is one of this overlay's, its
      close signal hides the overlay. */
  function CloseImposter(s: Hub, x: nat): (r: Hub)
    requires Valid(s)
    ensures Valid(r)
    ensures x in s.closers ==> !r.visible
    ensures x !in s.closers ==> r == s
  {
    if x in s.closers then SetVisible(s, false) else s
  }

  /** `AddHubWindow` of this variant is the overlay core's. */
  function AddHubWindow(s: Hub, p: O.PanelId, layout: Rect, titleBar: Rect, newElement: nat): (r: Completion<Hub>)
    requires Valid(s) && p < |s.world.panels|
    ensures Valid(r.state)
    ensures r.state == s.(world := r.state.world)
    ensures r.Thrown? <==> O.WindowOf(s.world, p).Some?
    ensures r.Normal? ==> O.WindowOf(r.state.world, p) == Some(|s.world.chromes|)
    ensures r.Normal? ==> r.state.world.events == s.world.events + [O.Added(p)]
  {
    match O.AddHubWindow(s.world, p, layout, titleBar, newElement)
    case Normal(w) =>
      O.AddRegisters(s.world, p, layout, titleBar, newElement);
      Normal(s.(world := w))
    case Thrown(w, e) => Thrown(s.(world := w), e)
  }

  /** `RemoveHubWindow` of this variant is the overlay core's. */
  function RemoveHubWindow(s: Hub, p: O.PanelId): (r: Completion<Hub>)
    requires Valid(s)
    ensures Valid(r.state)
    ensures r.state == s.(world := r.state.world)
    ensures r.Thrown? <==> O.WindowOf(s.world, p).None?
    ensures r.Thrown? ==> r == Thrown(s, KeyNotFound)
    ensures r.Normal? ==> O.WindowOf(r.state.world, p).None? && r.state.world.events == s.world.events + [O.Removed(p)]
  {
    match O.RemoveHubWindow(s.world, p)
    case Normal(w) =>
      O.RemoveUnregisters(s.world, p);
      Normal(s.(world := w))
    case Thrown(w, e) => Thrown(s.(world := w), e)
  }

  /** While the overlay is shown, reading the behaviour states back gives
      exactly input and escape, when every mapped behaviour exists. */
  lemma ShowRestricts(s: Hub)
    requires Valid(s) && I.AllPresent(s.host)
    ensures I.GetCurrentBehaviourStates(SetVisible(s, true).host) == BF.InputAndEscape
  {
    I.SetThenGet(s.host, BF.InputAndEscape);
    BF.InputAndEscapeBits();
  }

  /** Showing a hidden overlay and hiding it again gives the player's
      behaviours back exactly as they were, and leaves this overlay no
      imposter, when every mapped behaviour exists. */
  lemma ShowThenHideRestores(s: Hub)
    requires Valid(s) && I.AllPresent(s.host)
    ensures var r := SetVisible(SetVisible(s, true), false);
            && r.host == s.host && !r.visible && s.id !in r.imposters.lists
  {
    I.SnapshotRestores(s.host, BF.InputAndEscape);
  }

  /** As written, showing the overlay while one mapped behaviour is
      missing snapshots no flags at all, so the hide that follows switches
      off every mapped behaviour that exists, input included. */
  lemma ShowWithMissingThenHideDisables(s: Hub)
    requires Valid(s) && s.host.activator && !I.AllPresent(s.host)
    ensures forall t: nat :: t < BF.MappedCount ==> t !in SetVisible(SetVisible(s, true), false).host.enabled
  {
    var s1 := SetVisible(s, true);
    assert s1.saved == BF.None;
  }

  /** As written, showing an overlay that is already shown snapshots the
      restricted states over the real snapshot: the next hide leaves the
      player with input and escape only, whatever was enabled before. */
  lemma ShowTwiceLosesSnapshot(s: Hub)
    requires Valid(s) && I.AllPresent(s.host)
    ensures I.GetCurrentBehaviourStates(SetVisible(SetVisible(SetVisible(s, true), true), false).host) == BF.InputAndEscape
  {
    var s1 := SetVisible(s, true);
    I.WriteKeepsAllPresent(s.host, BF.InputAndEscape);
    ShowRestricts(s);
    var s2 := SetVisible(s1, true);
    I.WriteKeepsAllPresent(s1.host, BF.InputAndEscape);
    assert s2.saved == BF.InputAndEscape;
    I.SetThenGet(s2.host, BF.InputAndEscape);
    BF.InputAndEscapeBits();
  }

  /** As written, the constructor hides the overlay with the empty snapshot,
      which switches off every mapped behaviour of the player, input
      included; hiding while hidden later writes the stale snapshot back in
      the same way. */
  lemma NewHubDisablesBehaviours(world: O.World, host: I.Host, imposters: I.Imposters, id: nat, trackerPresent: bool)
    requires O.Valid(world) && I.HostValid(host) && I.ImpostersValid(imposters) && host.activator
    ensures forall t: nat :: t < BF.MappedCount ==> t !in NewHub(world, host, imposters, id, trackerPresent).host.enabled
    ensures forall t: nat :: t < BF.MappedCount ==> t !in Escape(NewHub(world, host, imposters, id, trackerPresent)).host.enabled
  {
  }

  /** The setter with the same check against the current value as the
      panel's own visibility setter: setting the current value does
      nothing. */
  function SetVisibleGuarded(s: Hub, v: bool): (r: Hub)
    requires Valid(s)
    ensures Valid(r) && r.visible == v
    ensures s.visible == v ==> r == s
    ensures s.visible != v ==> r == SetVisible(s, v)
  {
    if s.visible == v then s else SetVisible(s, v)
  }

  /** With the check, a second show neither snapshots again nor registers
      a second imposter, so show, show, hide still gives the player's
      behaviours back exactly as they were. */
  lemma GuardedShowTwiceRestores(s: Hub)
    requires Valid(s) && I.AllPresent(s.host) && !s.visible
    ensures var s1 := SetVisibleGuarded(s, true);
            && SetVisibleGuarded(s1, true) == s1
            && SetVisibleGuarded(SetVisibleGuarded(s1, true), false).host == s.host
  {
    ShowThenHideRestores(s);
  }

  /** With the check, hiding a hidden overlay (the constructor's last step,
      the escape binding, a close signal) leaves the player's behaviours
      alone. */
  lemma GuardedHideWhileHidden(s: Hub)
    requires Valid(s) && !s.visible
    ensures SetVisibleGuarded(s, false).host == s.host
    ensures SetVisibleGuarded(Hub(s.world, s.host, s.imposters, false, BF.None, s.id, s.trackerPresent, {}), false).host == s.host
  {
  }
}
