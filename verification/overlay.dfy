/** The part both hub variants share: the registry pairing each panel with
    its window, the container holding the windows in z-order, and the
    toolbar with one toggle button per registered panel. The registry and
    the toolbar's items are one dictionary object, and every toolbar rebuild
    subscribes a fresh visibility handler per panel. */
module Overlay {
  import opened Common
  import opened Geometry
  import D = Dict
  import P = Panels
  import WC = WindowChrome
  import R = Resizeable

  /** Object identities: panels, windows and toolbar buttons. */
  type PanelId = nat
  type ChromeId = nat
  type ButtonId = nat

  /** The style classes a toolbar button can carry. */
  datatype ButtonClass = ToolbarElement | Checked | Unchecked

  /** A toolbar button: the panel it toggles, its label and its classes. */
  datatype Button = Button(panel: PanelId, text: string, classes: set<ButtonClass>)

  /** A visibility handler subscribed to `panel`, updating `button`. */
  datatype Handler = Handler(panel: PanelId, button: ButtonId)

  /** What a rebuild does with the handlers of the previous build: keep them
      (as the source does) or drop them. */
  datatype Policy = Accumulate | Replace

  /** The toolbar's items: its own empty dictionary until the first
      assignment, afterwards the registry object itself. */
  datatype ItemsRef = OwnEmpty | SharedRegistry

  /** The registry's events, in the order raised. */
  datatype HubEvent = Added(panel: PanelId) | Removed(panel: PanelId)

  /** The overlay's object graph. Objects are identified by their
      creation index: `panels`, `chromes` and `buttons` hold every panel,
      window and toolbar button ever created (a removed window or a cleared
      button keeps existing, detached). `container` lists the container's
      windows back to front, `shown` the toolbar's current buttons, and
      `handlers` every subscribed visibility handler in subscription order. */
  datatype World = World(
    panels: seq<P.Panel>,
    chromes: seq<WC.Chrome>,
    container: seq<ChromeId>,
    registry: D.Dict<PanelId, ChromeId>,
    items: ItemsRef,
    buttons: seq<Button>,
    shown: seq<ButtonId>,
    handlers: seq<Handler>,
    policy: Policy,
    events: seq<HubEvent>)

  /** An overlay with the given panels and no windows or buttons yet. */
  function EmptyWorld(panels: seq<P.Panel>, policy: Policy): (w: World)
    ensures Valid(w) && D.Keys(w.registry) == [] && w.handlers == []
  {
    World(panels, [], [], D.Empty(), OwnEmpty, [], [], [], policy, [])
  }

  /** The window registered for `p`, if any. */
  function WindowOf(w: World, p: PanelId): Option<ChromeId> {
    D.Get(w.registry, p)
  }

  /** The registry's references: registered panels and their windows
      exist, each registered window is in the container and belongs to one
      panel only. */
  ghost predicate RegistryOk(reg: D.Dict<PanelId, ChromeId>, panelCount: nat, chromeCount: nat,
                             container: seq<ChromeId>) {
    && D.Valid(reg)
    && (forall p: PanelId :: D.Get(reg, p).Some? ==>
          p < panelCount && D.Get(reg, p).value < chromeCount && D.Get(reg, p).value in container)
    && (forall p1: PanelId, p2: PanelId :: D.Get(reg, p1).Some? && D.Get(reg, p1) == D.Get(reg, p2) ==> p1 == p2)
  }

  /** The other references: buttons and handlers refer to existing
      objects. */
  ghost predicate ObjectsOk(panelCount: nat, buttons: seq<Button>, shown: seq<ButtonId>, handlers: seq<Handler>) {
    && (forall i :: 0 <= i < |buttons| ==> buttons[i].panel < panelCount)
    && (forall i :: 0 <= i < |shown| ==> shown[i] < |buttons|)
    && (forall i :: 0 <= i < |handlers| ==> handlers[i].panel < panelCount && handlers[i].button < |buttons|)
  }

  /** Every reference in the graph points at an existing object. */
  ghost predicate Valid(w: World) {
    && RegistryOk(w.registry, |w.panels|, |w.chromes|, w.container)
    && ObjectsOk(|w.panels|, w.buttons, w.shown, w.handlers)
  }

  /** The toolbar's `Items` setter: a null assignment is ignored. */
  function AssignItems(current: ItemsRef, value: Option<ItemsRef>): (r: ItemsRef)
    ensures value.None? ==> r == current
    ensures value.Some? ==> r == value.value
  {
    if value.Some? then value.value else current
  }

  /** Marks a button: a hidden panel's button is checked, a shown panel's
      unchecked; other classes stay. */
  function UpdateButtonClassList(classes: set<ButtonClass>, visible: bool): (r: set<ButtonClass>)
    ensures Checked in r <==> !visible
    ensures Unchecked in r <==> visible
    ensures forall c :: c != Checked && c != Unchecked ==> (c in r <==> c in classes)
  {
    if !visible then classes - {Unchecked} + {Checked}
    else classes - {Checked} + {Unchecked}
  }

  /** Exactly one of the two marks is present after an update, and updating
      again with the same value changes nothing. */
  lemma ButtonClassesExclusive(classes: set<ButtonClass>, visible: bool)
    ensures (Checked in UpdateButtonClassList(classes, visible)) != (Unchecked in UpdateButtonClassList(classes, visible))
    ensures UpdateButtonClassList(UpdateButtonClassList(classes, visible), visible) == UpdateButtonClassList(classes, visible)
    ensures UpdateButtonClassList(UpdateButtonClassList(classes, !visible), visible) == UpdateButtonClassList(classes, visible)
  {
    var a := UpdateButtonClassList(UpdateButtonClassList(classes, visible), visible);
    var b := UpdateButtonClassList(classes, visible);
    assert forall c :: c in a <==> c in b;
    var a' := UpdateButtonClassList(UpdateButtonClassList(classes, !visible), visible);
    assert forall c :: c in a' <==> c in b;
  }

  /** The classes of a newly created button for a panel of visibility
      `visible`. */
  function InitialClasses(visible: bool): (r: set<ButtonClass>)
    ensures ToolbarElement in r && (Checked in r <==> !visible) && (Unchecked in r <==> visible)
  {
    UpdateButtonClassList({ToolbarElement}, visible)
  }

  /** Moves a child to the end of its parent's child list, drawing it in
      front; a window outside the list stays where it is. */
  function BringToFront(order: seq<ChromeId>, c: ChromeId): (r: seq<ChromeId>)
    ensures c in order ==> |r| > 0 && r[|r| - 1] == c && Without(r, c) == Without(order, c)
    ensures c !in order ==> r == order
    ensures forall x :: x in r <==> x in order
  {
    if c in order then
      WithoutAppend(Without(order, c), [c], c);
      WithoutAbsent(Without(order, c), c);
      assert Without([c], c) == [];
      Without(order, c) + [c]
    else order
  }

  /** A pointer-down on window `c`: the window's own handler runs, and a
      left press that reaches it (on the frame, not stopped by the content)
      also brings the window to the front of the container. */
  function PressWindow(w: World, c: ChromeId, e: R.PointerEvent, target: WC.Target): (r: World)
    requires Valid(w) && c < |w.chromes|
    ensures Valid(r)
    ensures r == w.(chromes := r.chromes, container := r.container)
    ensures r.chromes == w.chromes[c := WC.ChromePointerDown(w.chromes[c], e, target)]
    ensures forall x :: x in r.container <==> x in w.container
    ensures target == WC.OnFrame && e.button == R.LeftMouse && c in w.container ==>
              r.container[|r.container| - 1] == c && Without(r.container, c) == Without(w.container, c)
    ensures !(target == WC.OnFrame && e.button == R.LeftMouse) ==> r.container == w.container
  {
    var front := target == WC.OnFrame && e.button == R.LeftMouse;
    var r := w.(chromes := w.chromes[c := WC.ChromePointerDown(w.chromes[c], e, target)],
                container := if front then BringToFront(w.container, c) else w.container);
    assert forall q: PanelId :: WindowOf(r, q) == WindowOf(w, q);
    r
  }

  /** Pressing a window twice with the same event is pressing it once: the
      second press takes the same snapshot and the window is already in
      front. */
  lemma PressTwice(w: World, c: ChromeId, e: R.PointerEvent, target: WC.Target)
    requires Valid(w) && c < |w.chromes|
    ensures PressWindow(PressWindow(w, c, e, target), c, e, target) == PressWindow(w, c, e, target)
  {
    FrontTwice(w.container, c);
  }

  /** The button `CreateListElement` makes for panel `p`: labelled with
      the panel's name and marked by its visibility. */
  function ListElement(w: World, p: PanelId): (b: Button)
    requires p < |w.panels|
    ensures b.panel == p && b.text == w.panels[p].name
    ensures ToolbarElement in b.classes && (Checked in b.classes <==> !w.panels[p].visible)
  {
    Button(p, w.panels[p].name, InitialClasses(w.panels[p].visible))
  }

  /** Every key the registry enumerates is a registered, existing panel. */
  lemma KeysRegistered(w: World)
    requires Valid(w)
    ensures forall i :: 0 <= i < |D.Keys(w.registry)| ==>
              WindowOf(w, D.Keys(w.registry)[i]).Some? && D.Keys(w.registry)[i] < |w.panels|
  {
    D.KeysFaithful(w.registry);
    var keys := D.Keys(w.registry);
    forall i | 0 <= i < |keys|
      ensures WindowOf(w, keys[i]).Some? && keys[i] < |w.panels|
    {
      assert keys[i] in keys;
      assert D.Get(w.registry, keys[i]).Some?;
    }
  }

  /** `RebulidList` after its `Items` assignment: the toolbar is cleared
      and gets one new button per registered panel, in the registry's
      enumeration order, each with a new visibility handler for its panel.
      Under `Accumulate` the previous builds' handlers stay subscribed; under
      `Replace` they are dropped. */
  function RebuildList(w: World): (r: World)
    requires Valid(w)
    ensures Valid(r)
    ensures r == w.(items := SharedRegistry, buttons := r.buttons, shown := r.shown, handlers := r.handlers)
    ensures |r.shown| == |D.Keys(w.registry)|
    ensures |r.buttons| == |w.buttons| + |r.shown| && r.buttons[..|w.buttons|] == w.buttons
    ensures forall i :: 0 <= i < |r.shown| ==>
              && r.shown[i] == |w.buttons| + i
              && D.Keys(w.registry)[i] < |w.panels|
              && r.buttons[r.shown[i]] == ListElement(w, D.Keys(w.registry)[i])
    ensures |r.handlers| == |Kept(w)| + |r.shown| && r.handlers[..|Kept(w)|] == Kept(w)
    ensures forall i :: 0 <= i < |r.shown| ==> r.handlers[|Kept(w)| + i] == Handler(D.Keys(w.registry)[i], r.shown[i])
  {
    RebuiltButtons(w);
    RebuiltHandlers(w);
    RebuiltValid(w);
    Rebuilt(w)
  }

  /** The handlers a rebuild keeps from earlier builds. */
  function Kept(w: World): seq<Handler> {
    if w.policy == Accumulate then w.handlers else []
  }

  /** The toolbar state a rebuild produces. */
  function Rebuilt(w: World): World
    requires Valid(w)
  {
    var keys := D.Keys(w.registry);
    KeysRegistered(w);
    var base := |w.buttons|;
    var n := |keys|;
    w.(items := AssignItems(w.items, Some(SharedRegistry)),
       buttons := w.buttons + seq(n, i requires 0 <= i < n => ListElement(w, keys[i])),
       shown := seq(n, i => base + i),
       handlers := Kept(w) + seq(n, i requires 0 <= i < n => Handler(keys[i], base + i)))
  }

  lemma RebuiltButtons(w: World)
    requires Valid(w)
    ensures var r := Rebuilt(w);
            && r == w.(items := SharedRegistry, buttons := r.buttons, shown := r.shown, handlers := r.handlers)
            && |r.shown| == |D.Keys(w.registry)|
            && |r.buttons| == |w.buttons| + |r.shown| && r.buttons[..|w.buttons|] == w.buttons
            && forall i :: 0 <= i < |r.shown| ==>
                 && r.shown[i] == |w.buttons| + i
                 && D.Keys(w.registry)[i] < |w.panels|
                 && r.buttons[r.shown[i]] == ListElement(w, D.Keys(w.registry)[i])
  {
    KeysRegistered(w);
    RebuiltShown(w);
  }

  /** The rebuilt toolbar's buttons, one per key, each the key's list
      element. */
  lemma RebuiltShown(w: World)
    requires Valid(w)
    ensures var r := Rebuilt(w);
            && |r.shown| == |D.Keys(w.registry)| && |r.buttons| == |w.buttons| + |r.shown|
            && forall i :: 0 <= i < |r.shown| ==>
                 && r.shown[i] == |w.buttons| + i && D.Keys(w.registry)[i] < |w.panels|
                 && r.buttons[r.shown[i]] == ListElement(w, D.Keys(w.registry)[i])
  {
    KeysRegistered(w);
    var keys := D.Keys(w.registry);
    var n := |keys|;
    var added := seq(n, i requires 0 <= i < n => ListElement(w, keys[i]));
    var r := Rebuilt(w);
    assert r.buttons == w.buttons + added;
    forall i | 0 <= i < n
      ensures r.shown[i] == |w.buttons| + i && r.buttons[r.shown[i]] == ListElement(w, keys[i])
    {
      assert r.buttons[|w.buttons| + i] == added[i];
    }
  }

  lemma RebuiltHandlers(w: World)
    requires Valid(w)
    ensures var r := Rebuilt(w);
            && |r.handlers| == |Kept(w)| + |r.shown| && r.handlers[..|Kept(w)|] == Kept(w)
            && forall i :: 0 <= i < |r.shown| ==> r.handlers[|Kept(w)| + i] == Handler(D.Keys(w.registry)[i], r.shown[i])
  {
  }

  lemma RebuiltValid(w: World)
    requires Valid(w)
    ensures Valid(Rebuilt(w))
  {
    KeysRegistered(w);
    var r := Rebuilt(w);
    assert RegistryOk(r.registry, |r.panels|, |r.chromes|, r.container);
    forall i | 0 <= i < |r.handlers|
      ensures r.handlers[i].panel < |r.panels| && r.handlers[i].button < |r.buttons|
    {
      if i >= |Kept(w)| {
        assert r.handlers[i] == Handler(D.Keys(w.registry)[i - |Kept(w)|], |w.buttons| + (i - |Kept(w)|));
      }
    }
  }

  /** The panels of the toolbar's current buttons, in toolbar order. */
  ghost function ShownPanels(w: World): seq<PanelId>
    requires Valid(w)
  {
    seq(|w.shown|, i requires 0 <= i < |w.shown| => w.buttons[w.shown[i]].panel)
  }

  /** After a rebuild the toolbar shows one button per registered panel, in
      the registry's enumeration order, each labelled with its panel's name
      and checked exactly when the panel is hidden. */
  lemma RebuildMatchesRegistry(w: World)
    requires Valid(w)
    ensures ShownPanels(RebuildList(w)) == D.Keys(w.registry)
    ensures forall i :: 0 <= i < |RebuildList(w).shown| ==>
              var b := RebuildList(w).buttons[RebuildList(w).shown[i]];
              && b.text == w.panels[b.panel].name
              && (Checked in b.classes <==> !w.panels[b.panel].visible)
              && (Unchecked in b.classes <==> w.panels[b.panel].visible)
  {
  }

  /** The window `AddHubWindow` creates for panel `p`, appended to the
      container before the pairing is added: titled with the panel's name,
      shown exactly when the panel is, with the hub's handle width and the
      panel's content (created now if the panel has none yet). `layout` and
      `titleBar` are what the layout engine assigns, and `newElement` what
      the panel's content factory returns. */
  function WithNewWindow(w: World, p: PanelId, layout: Rect, titleBar: Rect, newElement: nat): (r: World)
    requires Valid(w) && p < |w.panels|
    ensures Valid(r)
    ensures r == w.(panels := r.panels, chromes := r.chromes, container := r.container)
    ensures |r.chromes| == |w.chromes| + 1 && r.chromes[..|w.chromes|] == w.chromes
    ensures r.container == w.container + [|w.chromes|]
    ensures |r.panels| == |w.panels|
    ensures var c := r.chromes[|w.chromes|];
            && c.title == w.panels[p].name
            && c.visible == w.panels[p].visible
            && c.surface.handleWidth == WC.HubHandleWidth
            && c.limitsPending
            && r.panels[p].content == Some(c.content)
    ensures forall q :: 0 <= q < |w.panels| && q != p ==> r.panels[q] == w.panels[q]
    ensures r.panels[p] == w.panels[p].(content := r.panels[p].content, creations := r.panels[p].creations)
  {
    var (panel, element) := P.Content(w.panels[p], newElement);
    var chrome := WC.NewChrome(w.panels[p].name, layout, titleBar, WC.HubHandleWidth, w.panels[p].visible, element);
    var r := w.(panels := w.panels[p := panel], chromes := w.chromes + [chrome], container := w.container + [|w.chromes|]);
    AppendedWindowValid(w, r);
    r
  }

  /** `AddHubWindow`: creates and appends the window, then adds the pairing,
      which throws for a panel already registered, leaving the new window
      in the container unregistered. On success it raises the added event,
      whose subscriber points the toolbar at the registry and rebuilds it. */
  function AddHubWindow(w: World, p: PanelId, layout: Rect, titleBar: Rect, newElement: nat): (r: Completion<World>)
    requires Valid(w) && p < |w.panels|
    ensures Valid(r.state)
    ensures r.Thrown? <==> D.ContainsKey(w.registry, p)
    ensures r.Thrown? ==> r == Thrown(WithNewWindow(w, p, layout, titleBar, newElement), DuplicateKey)
    ensures r.Normal? ==>
              var w1 := WithNewWindow(w, p, layout, titleBar, newElement);
              && D.Add(w.registry, p, |w.chromes|).Normal?
              && r.state == RebuildList(w1.(registry := D.Add(w.registry, p, |w.chromes|).state, events := w.events + [Added(p)]))
  {
    var w1 := WithNewWindow(w, p, layout, titleBar, newElement);
    match D.Add(w.registry, p, |w.chromes|)
    case Thrown(reg, e) => Thrown(w1, e)
    case Normal(reg) =>
      RegisteredValid(w1, p, reg, w.events + [Added(p)]);
      Normal(RebuildList(w1.(registry := reg, events := w.events + [Added(p)])))
  }

  /** Adding a new panel registers it with the new window, leaves every
      other pairing alone, raises one added event and leaves the toolbar
      matching the registry. */
  lemma AddRegisters(w: World, p: PanelId, layout: Rect, titleBar: Rect, newElement: nat)
    requires Valid(w) && p < |w.panels| && !D.ContainsKey(w.registry, p)
    ensures var r := AddHubWindow(w, p, layout, titleBar, newElement);
            && r.Normal?
            && WindowOf(r.state, p) == Some(|w.chromes|)
            && (forall q: PanelId :: q != p ==> WindowOf(r.state, q) == WindowOf(w, q))
            && r.state.events == w.events + [Added(p)]
            && ShownPanels(r.state) == D.Keys(r.state.registry)
            && (|w.registry.free| == 0 ==> D.Keys(r.state.registry) == D.Keys(w.registry) + [p])
            && Without(D.Keys(r.state.registry), p) == D.Keys(w.registry)
  {
    var w1 := WithNewWindow(w, p, layout, titleBar, newElement);
    var w2 := w1.(registry := D.Add(w.registry, p, |w.chromes|).state, events := w.events + [Added(p)]);
    RegisteredValid(w1, p, w2.registry, w2.events);
    RebuildMatchesRegistry(w2);
  }

  /** Adding a registered panel throws after the window has been appended:
      the container gains a window no pairing refers to, and nothing else
      about the registry, the toolbar or the events changes. */
  lemma DuplicateAddLeavesOrphan(w: World, p: PanelId, layout: Rect, titleBar: Rect, newElement: nat)
    requires Valid(w) && p < |w.panels| && D.ContainsKey(w.registry, p)
    ensures var r := AddHubWindow(w, p, layout, titleBar, newElement);
            && r.Thrown? && r.error == DuplicateKey
            && r.state.container == w.container + [|w.chromes|]
            && (forall q: PanelId :: WindowOf(r.state, q) == WindowOf(w, q) && WindowOf(r.state, q) != Some(|w.chromes|))
            && r.state.events == w.events && r.state.shown == w.shown && r.state.handlers == w.handlers
  {
    var r := AddHubWindow(w, p, layout, titleBar, newElement);
    forall q: PanelId
      ensures WindowOf(r.state, q) != Some(|w.chromes|)
    {
      if WindowOf(w, q).Some? {
        assert WindowOf(w, q).value < |w.chromes|;
      }
    }
  }

  /** Appending an unregistered window and updating a panel in place keeps
      the graph valid. */
  lemma AppendedWindowValid(w: World, w1: World)
    requires Valid(w)
    requires |w1.panels| == |w.panels| && |w1.chromes| == |w.chromes| + 1 && w1.container == w.container + [|w.chromes|]
    requires w1 == w.(panels := w1.panels, chromes := w1.chromes, container := w1.container)
    ensures Valid(w1)
  {
  }

  /** Registering panel `p` with the newest window keeps the graph valid. */
  lemma RegisteredValid(w1: World, p: PanelId, reg: D.Dict<PanelId, ChromeId>, events: seq<HubEvent>)
    requires Valid(w1) && p < |w1.panels|
    requires |w1.chromes| > 0 && |w1.container| > 0 && w1.container[|w1.container| - 1] == |w1.chromes| - 1
    requires forall q: PanelId :: WindowOf(w1, q).Some? ==> WindowOf(w1, q).value < |w1.chromes| - 1
    requires D.Valid(reg) && D.Get(reg, p) == Some(|w1.chromes| - 1)
    requires forall q: PanelId :: q != p ==> D.Get(reg, q) == D.Get(w1.registry, q)
    ensures Valid(w1.(registry := reg, events := events))
  {
    var w2 := w1.(registry := reg, events := events);
    assert |w1.chromes| - 1 in w1.container;
    forall q: PanelId | D.Get(reg, q).Some?
      ensures q < |w2.panels| && D.Get(reg, q).value < |w2.chromes| && D.Get(reg, q).value in w2.container
    {
      if q != p {
        assert WindowOf(w1, q) == D.Get(reg, q);
      }
    }
    forall q1: PanelId, q2: PanelId | D.Get(reg, q1).Some? && D.Get(reg, q1) == D.Get(reg, q2)
      ensures q1 == q2
    {
      if q1 != p {
        assert WindowOf(w1, q1) == D.Get(reg, q1);
      }
      if q2 != p {
        assert WindowOf(w1, q2) == D.Get(reg, q2);
      }
    }
  }

  /** `RemoveHubWindow`: looking the panel up throws for an unregistered
      panel; otherwise its window leaves the container, the pairing is
      removed, and the removed event rebuilds the toolbar. */
  function RemoveHubWindow(w: World, p: PanelId): (r: Completion<World>)
    requires Valid(w)
    ensures Valid(r.state)
    ensures r.Thrown? <==> WindowOf(w, p).None?
    ensures r.Thrown? ==> r == Thrown(w, KeyNotFound)
    ensures r.Normal? ==>
              r.state == RebuildList(w.(container := Without(w.container, WindowOf(w, p).value),
                                        registry := D.Remove(w.registry, p),
                                        events := w.events + [Removed(p)]))
  {
    match WindowOf(w, p)
    case None => Thrown(w, KeyNotFound)
    case Some(c) =>
      var w1 := w.(container := Without(w.container, c), registry := D.Remove(w.registry, p),
                   events := w.events + [Removed(p)]);
      UnregisteredValid(w, p, w1);
      Normal(RebuildList(w1))
  }

  /** Removing the pairing of `p` keeps the graph valid. */
  lemma UnregisteredValid(w: World, p: PanelId, w1: World)
    requires Valid(w) && WindowOf(w, p).Some?
    requires w1 == w.(container := Without(w.container, WindowOf(w, p).value), registry := D.Remove(w.registry, p),
                      events := w1.events)
    ensures Valid(w1)
  {
    var c := WindowOf(w, p).value;
    forall q: PanelId | WindowOf(w1, q).Some?
      ensures WindowOf(w1, q).value in w1.container
    {
      assert q != p && WindowOf(w1, q) == WindowOf(w, q);
      assert WindowOf(w, q).value != c;
    }
  }

  /** Removing a registered panel drops exactly its pairing and its window
      from the container, leaves every panel's visibility alone, raises one
      removed event and leaves the toolbar matching the registry. */
  lemma RemoveUnregisters(w: World, p: PanelId)
    requires Valid(w) && WindowOf(w, p).Some?
    ensures var r := RemoveHubWindow(w, p);
            && r.Normal?
            && WindowOf(r.state, p).None?
            && (forall q: PanelId :: q != p ==> WindowOf(r.state, q) == WindowOf(w, q))
            && WindowOf(w, p).value !in r.state.container
            && (forall x :: x in r.state.container <==> x in w.container && x != WindowOf(w, p).value)
            && D.Keys(r.state.registry) == Without(D.Keys(w.registry), p)
            && r.state.panels == w.panels
            && r.state.events == w.events + [Removed(p)]
            && ShownPanels(r.state) == D.Keys(r.state.registry)
  {
    var w1 := w.(container := Without(w.container, WindowOf(w, p).value), registry := D.Remove(w.registry, p),
                 events := w.events + [Removed(p)]);
    UnregisteredValid(w, p, w1);
    RebuildMatchesRegistry(w1);
  }

  /** A visibility handler's body: the toolbar's items are indexed with the
      handler's panel, which throws if the panel is not a key there; the
      window is shown or hidden, brought to front when shown, and the
      handler's button re-marked. */
  function OnVisibilityChanged(w: World, h: Handler, v: bool): (r: Completion<World>)
    requires Valid(w) && h.button < |w.buttons|
    ensures Valid(r.state)
    ensures r.Thrown? <==> !(w.items.SharedRegistry? && WindowOf(w, h.panel).Some?)
    ensures r.Thrown? ==> r == Thrown(w, KeyNotFound)
    ensures r.state == w.(chromes := r.state.chromes, container := r.state.container, buttons := r.state.buttons)
    ensures |r.state.chromes| == |w.chromes| && |r.state.buttons| == |w.buttons|
    ensures r.Normal? ==>
              var c := WindowOf(w, h.panel).value;
              && r.state.chromes == w.chromes[c := w.chromes[c].(visible := v)]
              && r.state.container == (if v then BringToFront(w.container, c) else w.container)
              && r.state.buttons[h.button].classes == UpdateButtonClassList(w.buttons[h.button].classes, v)
              && (forall i :: 0 <= i < |w.buttons| && i != h.button ==> r.state.buttons[i] == w.buttons[i])
  {
    if w.items.OwnEmpty? then Thrown(w, KeyNotFound)
    else match WindowOf(w, h.panel)
      case None => Thrown(w, KeyNotFound)
      case Some(c) =>
        var b := w.buttons[h.button];
        var r := w.(chromes := w.chromes[c := w.chromes[c].(visible := v)],
                    container := if v then BringToFront(w.container, c) else w.container,
                    buttons := w.buttons[h.button := b.(classes := UpdateButtonClassList(b.classes, v))]);
        assert Valid(r) by {
          assert forall q: PanelId :: WindowOf(r, q) == WindowOf(w, q);
        }
        Normal(r)
  }

  /** The window `p` is paired with, when the toolbar's items are the
      registry and `p` is a key there: what every handler of `p` indexes. */
  predicate Reachable(w: World, p: PanelId) {
    w.items.SharedRegistry? && WindowOf(w, p).Some?
  }

  /** Raising panel `p`'s visibility-changed event: its handlers run in
      subscription order, from position `i` on; those of other panels are
      skipped, and the first one that throws ends the invocation. No handler
      changes the registry or the toolbar's items, so either the first
      handler of `p` throws (and the state is as before), or none does: then
      the paired window ends up with the new visibility, in front if shown,
      and no other window changes. */
  function RaiseVisibilityChanged(w: World, i: nat, p: PanelId, v: bool): (r: Completion<World>)
    requires Valid(w) && i <= |w.handlers|
    ensures Valid(r.state)
    ensures r.state == w.(chromes := r.state.chromes, container := r.state.container, buttons := r.state.buttons)
    ensures |r.state.chromes| == |w.chromes| && |r.state.buttons| == |w.buttons|
    ensures r.Thrown? <==> SubscribedFrom(w, i, p) && !Reachable(w, p)
    ensures r.Thrown? ==> r == Thrown(w, KeyNotFound)
    ensures !SubscribedFrom(w, i, p) ==> r == Normal(w)
    ensures SubscribedFrom(w, i, p) && Reachable(w, p) ==>
              var c := WindowOf(w, p).value;
              && r.state.chromes == w.chromes[c := w.chromes[c].(visible := v)]
              && r.state.container == (if v then BringToFront(w.container, c) else w.container)
    decreases |w.handlers| - i
  {
    if i == |w.handlers| then Normal(w)
    else if w.handlers[i].panel != p then
      assert SubscribedFrom(w, i, p) <==> SubscribedFrom(w, i + 1, p) by {
        if SubscribedFrom(w, i, p) {
          var j :| i <= j < |w.handlers| && w.handlers[j].panel == p;
          assert j != i;
        }
      }
      RaiseVisibilityChanged(w, i + 1, p, v)
    else
      assert SubscribedFrom(w, i, p);
      match OnVisibilityChanged(w, w.handlers[i], v)
      case Thrown(s, e) => Thrown(s, e)
      case Normal(w1) =>
        assert WindowOf(w1, p) == WindowOf(w, p) && Reachable(w1, p);
        var r := RaiseVisibilityChanged(w1, i + 1, p, v);
        var c := WindowOf(w, p).value;
        assert r.state.chromes == w1.chromes && r.state.container == w1.container by {
          if SubscribedFrom(w1, i + 1, p) {
            ShowTwice(w.chromes, w1.chromes, r.state.chromes, w.container, w1.container, r.state.container, c, v);
          }
        }
        r
  }

  /** Some handler from position `i` on is subscribed to panel `p`. */
  predicate SubscribedFrom(w: World, i: nat, p: PanelId) {
    exists j :: i <= j < |w.handlers| && w.handlers[j].panel == p
  }

  /** Showing or hiding the same window twice has the effect of doing it
      once. */
  lemma ShowTwice(chromes0: seq<WC.Chrome>, chromes1: seq<WC.Chrome>, chromes2: seq<WC.Chrome>,
                  order0: seq<ChromeId>, order1: seq<ChromeId>, order2: seq<ChromeId>, c: ChromeId, v: bool)
    requires c < |chromes0|
    requires chromes1 == chromes0[c := chromes0[c].(visible := v)]
    requires chromes2 == chromes1[c := chromes1[c].(visible := v)]
    requires order1 == (if v then BringToFront(order0, c) else order0)
    requires order2 == (if v then BringToFront(order1, c) else order1)
    ensures chromes2 == chromes1 && order2 == order1
  {
    if v {
      FrontTwice(order0, c);
    }
  }

  /** Bringing the same window to front twice is bringing it once. */
  lemma FrontTwice(order: seq<ChromeId>, c: ChromeId)
    ensures BringToFront(BringToFront(order, c), c) == BringToFront(order, c)
  {
    if c in order {
      var r := BringToFront(order, c);
      WithoutAbsent(Without(order, c), c);
    }
  }

  /** The panel's visibility setter, followed by the notification it
      raises when the value changes. Setting the current value does
      nothing; otherwise the flag changes even if a handler throws, and a
      handler throws exactly when the panel has one while its window cannot
      be found through the toolbar's items. */
  function SetPanelVisible(w: World, p: PanelId, v: bool): (r: Completion<World>)
    requires Valid(w) && p < |w.panels|
    ensures Valid(r.state)
    ensures r.state.panels == w.panels[p := w.panels[p].(visible := v)]
    ensures r.state.registry == w.registry && r.state.items == w.items && r.state.handlers == w.handlers
    ensures |r.state.chromes| == |w.chromes|
    ensures w.panels[p].visible == v ==> r == Normal(w)
    ensures r.Thrown? <==> w.panels[p].visible != v && SubscribedFrom(w, 0, p) && !Reachable(w, p)
    ensures r.Thrown? ==> r.error == KeyNotFound && r.state == w.(panels := r.state.panels)
    ensures r.Normal? && w.panels[p].visible != v && SubscribedFrom(w, 0, p) ==>
              var c := WindowOf(w, p).value;
              && r.state.chromes == w.chromes[c := w.chromes[c].(visible := v)]
              && r.state.container == (if v then BringToFront(w.container, c) else w.container)
    ensures r.Normal? && !SubscribedFrom(w, 0, p) ==> r.state == w.(panels := r.state.panels)
  {
    var (panel, notes) := P.SetVisible(w.panels[p], v);
    var w1 := w.(panels := w.panels[p := panel]);
    assert Valid(w1) by {
      assert forall q: PanelId :: WindowOf(w1, q) == WindowOf(w, q);
    }
    if notes == [] then
      assert w.panels[p := panel] == w.panels;
      Normal(w1)
    else
      assert notes == [v];
      assert SubscribedFrom(w1, 0, p) == SubscribedFrom(w, 0, p);
      assert Reachable(w1, p) == Reachable(w, p);
      RaiseVisibilityChanged(w1, 0, p, v)
  }

  /** A toolbar button's click flips its panel's visibility; only the
      notification can fail, and then with a missing key. */
  function ClickButton(w: World, b: ButtonId): (r: Completion<World>)
    requires Valid(w) && b < |w.buttons|
    ensures w.buttons[b].panel < |w.panels|
    ensures |r.state.panels| == |w.panels|
    ensures r.state.panels[w.buttons[b].panel].visible != w.panels[w.buttons[b].panel].visible
    ensures forall q :: 0 <= q < |w.panels| && q != w.buttons[b].panel ==> r.state.panels[q] == w.panels[q]
    ensures r.Thrown? <==> SubscribedFrom(w, 0, w.buttons[b].panel) && !Reachable(w, w.buttons[b].panel)
    ensures r.Thrown? ==> r.error == KeyNotFound
  {
    var p := w.buttons[b].panel;
    SetPanelVisible(w, p, !w.panels[p].visible)
  }

  /** A window's close button hides its panel, which hides the window if
      the panel's handlers can reach it. */
  function ClosePanel(w: World, p: PanelId): (r: Completion<World>)
    requires Valid(w) && p < |w.panels|
    ensures |r.state.panels| == |w.panels| && !r.state.panels[p].visible
    ensures |r.state.chromes| == |w.chromes|
    ensures !w.panels[p].visible ==> r == Normal(w)
    ensures r.Normal? && w.panels[p].visible && SubscribedFrom(w, 0, p) && Reachable(w, p) ==>
              !r.state.chromes[WindowOf(w, p).value].visible && r.state.container == w.container
  {
    SetPanelVisible(w, p, false)
  }

  /** Every subscribed handler finds its panel's window through the
      toolbar's items. */
  ghost predicate HandlersReachable(w: World) {
    forall j :: 0 <= j < |w.handlers| ==> Reachable(w, w.handlers[j].panel)
  }

  /** A rebuild subscribes a handler for every registered panel. */
  lemma RebuildSubscribes(w: World, p: PanelId)
    requires Valid(w) && WindowOf(w, p).Some?
    ensures SubscribedFrom(RebuildList(w), 0, p)
  {
    D.KeysFaithful(w.registry);
    var keys := D.Keys(w.registry);
    var i :| 0 <= i < |keys| && keys[i] == p;
    var r := RebuildList(w);
    assert r.handlers[|Kept(w)| + i].panel == p;
  }

  /** Under `Accumulate` a rebuild keeps every earlier subscription. */
  lemma AccumulateKeepsSubscriptions(w: World, p: PanelId)
    requires Valid(w) && w.policy == Accumulate && SubscribedFrom(w, 0, p)
    ensures SubscribedFrom(RebuildList(w), 0, p)
  {
    var j :| 0 <= j < |w.handlers| && w.handlers[j].panel == p;
    assert RebuildList(w).handlers[j] == w.handlers[j];
  }

  /** Under `Replace` a rebuild leaves only handlers of registered panels. */
  lemma {:induction false} ReplaceRebuildReachable(w: World)
    requires Valid(w) && w.policy == Replace
    ensures HandlersReachable(RebuildList(w))
  {
    KeysRegistered(w);
    var r := RebuildList(w);
    forall j | 0 <= j < |r.handlers|
      ensures Reachable(r, r.handlers[j].panel)
    {
      assert r.handlers[j].panel == D.Keys(w.registry)[j];
    }
  }

  /** While every handler is reachable, a visibility change never throws,
      and the handlers stay reachable. */
  lemma ReachableNeverThrows(w: World, p: PanelId, v: bool)
    requires Valid(w) && p < |w.panels| && HandlersReachable(w)
    ensures SetPanelVisible(w, p, v).Normal?
    ensures HandlersReachable(SetPanelVisible(w, p, v).state)
  {
    if SubscribedFrom(w, 0, p) {
      var j :| 0 <= j < |w.handlers| && w.handlers[j].panel == p;
      assert Reachable(w, w.handlers[j].panel);
    }
    var r := SetPanelVisible(w, p, v).state;
    assert forall q: PanelId :: Reachable(r, q) == Reachable(w, q);
  }

  /** Under `Replace`, adding a window keeps every handler reachable,
      whether or not the call throws. */
  lemma ReplaceAddKeepsReachable(w: World, p: PanelId, layout: Rect, titleBar: Rect, newElement: nat)
    requires Valid(w) && w.policy == Replace && p < |w.panels| && HandlersReachable(w)
    ensures HandlersReachable(AddHubWindow(w, p, layout, titleBar, newElement).state)
  {
    var w1 := WithNewWindow(w, p, layout, titleBar, newElement);
    if D.ContainsKey(w.registry, p) {
      assert forall q: PanelId :: Reachable(w1, q) == Reachable(w, q);
    } else {
      ReplaceRebuildReachable(w1.(registry := D.Add(w.registry, p, |w.chromes|).state, events := w.events + [Added(p)]));
    }
  }

  /** Under `Replace`, removing a window keeps every handler reachable,
      whether or not the call throws. */
  lemma ReplaceRemoveKeepsReachable(w: World, p: PanelId)
    requires Valid(w) && w.policy == Replace && HandlersReachable(w)
    ensures HandlersReachable(RemoveHubWindow(w, p).state)
  {
    var c := WindowOf(w, p);
    if c.Some? {
      ReplaceRebuildReachable(w.(container := Without(w.container, c.value), registry := D.Remove(w.registry, p),
                                 events := w.events + [Removed(p)]));
    }
  }

  /** A new overlay has no handlers, so under `Replace` no visibility change
      ever throws, whatever windows are added and removed. */
  lemma ReplaceNeverThrows(panels: seq<P.Panel>, p: PanelId, layout: Rect, titleBar: Rect, newElement: nat)
    requires p < |panels|
    ensures var w1 := AddHubWindow(EmptyWorld(panels, Replace), p, layout, titleBar, newElement).state;
            var w2 := RemoveHubWindow(w1, p).state;
            && |w2.panels| == |panels|
            && SetPanelVisible(w2, p, !w2.panels[p].visible).Normal?
  {
    var w := EmptyWorld(panels, Replace);
    ReplaceAddKeepsReachable(w, p, layout, titleBar, newElement);
    var w1 := AddHubWindow(w, p, layout, titleBar, newElement).state;
    ReplaceRemoveKeepsReachable(w1, p);
    var w2 := RemoveHubWindow(w1, p).state;
    ReachableNeverThrows(w2, p, !w2.panels[p].visible);
  }

  /** As written, handlers accumulate: after a panel's window is added and
      removed again, the handler the first rebuild subscribed still runs when
      the panel's visibility changes, and indexing the registry with the
      removed panel throws. */
  lemma StaleHandlerThrows(panels: seq<P.Panel>, p: PanelId, layout: Rect, titleBar: Rect, newElement: nat)
    requires p < |panels|
    ensures var w1 := AddHubWindow(EmptyWorld(panels, Accumulate), p, layout, titleBar, newElement).state;
            var w2 := RemoveHubWindow(w1, p).state;
            && |w2.panels| == |panels|
            && SetPanelVisible(w2, p, !w2.panels[p].visible) == Thrown(SetPanelVisible(w2, p, !w2.panels[p].visible).state, KeyNotFound)
  {
    var w := EmptyWorld(panels, Accumulate);
    AddRegisters(w, p, layout, titleBar, newElement);
    var w1 := AddHubWindow(w, p, layout, titleBar, newElement).state;
    var w1' := WithNewWindow(w, p, layout, titleBar, newElement);
    var w1'' := w1'.(registry := D.Add(w.registry, p, |w.chromes|).state, events := w.events + [Added(p)]);
    RebuildSubscribes(w1'', p);
    RemoveUnregisters(w1, p);
    var w2' := w1.(container := Without(w1.container, WindowOf(w1, p).value), registry := D.Remove(w1.registry, p),
                   events := w1.events + [Removed(p)]);
    UnregisteredValid(w1, p, w2');
    AccumulateKeepsSubscriptions(w2', p);
    var w2 := RemoveHubWindow(w1, p).state;
    assert WindowOf(w2, p).None?;
  }
}
