# Overlay window manager of StellarModdingToolkit, in Dafny

This project models the in-game overlay of StellarModdingToolkit, a mod
toolkit for a space game. The overlay shows resizeable, draggable windows,
one per registered panel. A toolbar has one toggle button per panel. While
the overlay is shown, the player's behaviours are switched off, apart from
input and escape, and a closable menu proxy is registered with the game's
menu tracker. The model has these parts:

- **Resize/move state machine** (`ResizeModes`, `Geometry`, `Resizeable`).
  - The resize-mode flag byte.
  - The edge hit test.
  - The press/move/release drag with its snapshot.
  - Clamping of the size to the style limits and of the rectangle to the parent.
- **Window chrome** (`WindowChrome`).
  - The mapping from mode to cursor, which can throw.
  - The title bar as move handle and a content area that swallows presses.
  - Size limits taken once, on the first geometry change.
- **Panel contract** (`Panels`): a visibility flag that notifies only on a change, and lazily created content.
- **Shared overlay core** (`Overlay`, over `Dict`).
  - The registry from panel to window, which is also the toolbar's items dictionary.
  - The window container in z-order.
  - The toolbar rebuild.
  - The visibility handlers, which accumulate across rebuilds.
  - `AddHubWindow` and `RemoveHubWindow` with their events.
- **The two front ends** (`Hub` for the current variant, `StellarHub` for the older one): the visibility setter, the toggle, escape, and closing through the menu proxy.
- **Game integration** (`BehaviourFlags`, `Integration`).
  - The behaviour flags.
  - Setting and reading behaviour states.
  - The per-owner table of menu imposters.
- **Asset table** (`AssetLoader`): requested names, first match wins, and the report of missing assets.

Modelling choices:

- **State changes:** every event handler is a pure step function over an immutable state.
- **Exceptions:** a thrown .NET exception is `Completion.Thrown(state, error)`. `state` holds what was already changed, because C# rolls nothing back.
- **Dictionaries:** the .NET `Dictionary` is modelled with its slot array and its last-freed-first free list (`Dict`). Toolbar order and the order of the missing-asset report follow its enumeration order.
- **Flags:** a flags value is the set of its bit positions.
- **Object identity:** objects (panels, windows, buttons, imposters) are identified by their creation index.
- **The game:**
  - the behaviour activator, present or absent;
  - the behaviour components found under it, and which are enabled;
  - the player's state;
  - the state map listing each state's behaviours.
- **Unity inputs:** the layout engine's rectangles and a panel's content factory are parameters.
- **Rectangles:** the engine's float rectangle is stored as origin and size. Its edge getters return the origin and the origin plus the size without reordering, and setting one edge keeps the opposite one. So edges given crossed stay crossed; only the engine's integer rectangle reorders its edges.
- **The Hub variant's panel type:** its source is not part of this model. `Hub` assumes the same contract as `UI/StellarHub/StellarHubWindow.cs`: visible by default, notification only on change, and cached content.

Three behaviours of the code that are easy to misread are kept as written:

- The overlay's visibility setter has no check against the current value in either variant. Setting the current value runs the whole show or hide again. `Hub.SetVisibleGuarded` models the setter with the same change check as the panel's own setter (`UI/StellarHub/StellarHubWindow.cs:44`).
- A pointer move while no drag is active is not ignored. It re-applies the current layout through the parent clamp (`Resizeable.IdleMoveReappliesLayout`).
- The older variant's two-argument calls bind to `SetBehaviourStates(flags, respectStateMap)`. They do not snapshot and restore the behaviours.

## Model

| member | source | states |
|---|---|---|
| ResizeModes.FlagLayout | UI/ResizeableElement.ResizeMode.cs:10-22 | `None` is 0; the four edges are distinct single bits; each corner is the union of its two edges; `Move` shares no bit with any edge |
| ResizeModes.EdgeBits | UI/ResizeableElement.cs:128-129 | adding the four edge values gives a pure edge combination whose bits are exactly the edges hit; it is `None` exactly when no edge is hit |
| ResizeModes.EdgeSetDeterminedByBits | UI/ResizeableElement.cs:128-129 | every edge combination is what the hit-test encoding yields for its own four edge bits, so the encoding loses nothing |
| Geometry.Clamp | UI/ResizeableElement.cs:56 | the maths library's clamp: inside the bounds when they are ordered, the value itself when within, the lower bound below it, the upper bound above it |
| Geometry.ClampOpt | UI/ResizeableElement.cs:50-71 | a clamp against a bound that may be infinite: it never crosses an absent bound, and it agrees with `Clamp` when both bounds are finite |
| Geometry.OptAdd | UI/ResizeableElement.cs:61 | adding to an infinite maximum stays infinite; a finite one is shifted |
| Geometry.OptSubFrom | UI/ResizeableElement.cs:56 | subtracting an infinite maximum gives an unbounded lower limit; a finite one is subtracted |
| Resizeable.HitTest | UI/ResizeableElement.cs:113-134 | each edge bit is set exactly when the point lies in that edge's margin; `Move` is returned exactly when no margin is hit and the point is in the move handle; `None` exactly when neither |
| Resizeable.PointerDown | UI/ResizeableElement.cs:27-39 | a non-left button changes nothing; the left button sets the mode to the hit-test result and snapshots the layout and the pointer position, and changes no other field of the element; the same press bringing the window to front is `Overlay.PressWindow` |
| Resizeable.DraggedLow | UI/ResizeableElement.cs:54-57 | with consistent limits, a dragged left or top edge keeps the size to the snapshot's opposite edge within the limits; it follows the pointer while that size is within them, and otherwise sits at the minimum or the finite maximum size |
| Resizeable.DraggedHigh | UI/ResizeableElement.cs:59-62 | the same for a dragged right or bottom edge, measured from the snapshot's opposite edge |
| Resizeable.DragCandidate | UI/ResizeableElement.cs:41-79 | with consistent limits, a dragged edge follows the pointer's travel from the snapshot edge while the size it gives is within the limits, and otherwise lands at the minimum or maximum size from the snapshot's opposite edge; edges not dragged stay where they are; `Move` translates by the per-event movement |
| Resizeable.UpdateRect | UI/ResizeableElement.cs:91-110 | without a parent nothing changes; otherwise the result lies inside the parent, a rectangle already inside is kept, a `Move` rectangle that fits keeps its size, and the result's edges are ordered when the request's are and it overlaps the parent (always in `Move` mode) |
| Resizeable.UpdateRectOutsideParent | UI/ResizeableElement.cs:106-107 | outside a drag, a rectangle lying wholly left of the parent comes out with its left edge at the parent's and its right edge kept, crossed |
| Resizeable.PointerMove | UI/ResizeableElement.cs:41-82 | a move never changes the mode or the snapshot, and the layout ends inside the parent |
| Resizeable.PointerUp | UI/ResizeableElement.cs:84-88 | releasing always returns the mode to `None` and keeps the layout and snapshot |
| Resizeable.EdgesBeforeMove | UI/ResizeableElement.cs:131 | a point in any edge margin never yields `Move` or `None`, even inside the move handle |
| Resizeable.NarrowElementHitsBothSides | UI/ResizeableElement.cs:115-129 | on an element at most twice its margin wide, a middle point yields `Left \| Right`, which is not a named mode |
| Resizeable.IdleMoveReappliesLayout | UI/ResizeableElement.cs:41-82 | a move with no drag re-applies the current layout through the parent clamp, a no-op when the layout is inside the parent |
| Resizeable.MoveDragKeepsSize | UI/ResizeableElement.cs:75-78 | a `Move` drag ignores the pointer's distance from the snapshot and, in a parent big enough, keeps the size and stays inside |
| Resizeable.HorizontalResizeWithinLimits | UI/ResizeableElement.cs:54-62 | a left or right drag keeps the width within [min, max] pivoting on the opposite edge; after the parent clamp it never exceeds the maximum |
| Resizeable.VerticalResizeWithinLimits | UI/ResizeableElement.cs:64-72 | a top or bottom drag keeps the height within [min, max]; after the parent clamp it never exceeds the maximum |
| Resizeable.BottomRightOvershootHitsMaximum | UI/ResizeableElement.cs:59-72 | an overshooting bottom-right drag lands exactly on the maximum size |
| Resizeable.Drag | UI/ResizeableElement.cs:27-88 | a whole press, moves and release ends with mode `None` and, after any move, inside the parent |
| Resizeable.MoveAll | UI/ResizeableElement.cs:41-82 | a sequence of moves keeps the mode and snapshot fixed and leaves the element inside the parent |
| WindowChrome.SetCursor | UI/Window.cs:95-143 | throws exactly for a mode that is not a named enum value; `None` and `Move` give the default cursor; a missing image gives the red texture and an error log |
| WindowChrome.CursorFollowsEdges | UI/Window.cs:113-128 | every image chosen for a named edge or corner is the one its edges call for (horizontal, vertical, falling or rising diagonal), and with all images loaded each gets its image |
| WindowChrome.NarrowWindowCursorThrows | UI/Window.cs:127 | hovering a narrow window can make the cursor update throw `ArgumentOutOfRange` |
| WindowChrome.NewChrome | UI/Window.cs:18-34 | a new window has no drag in progress, the given layout and margin, and its limit callback still pending |
| WindowChrome.ChromePointerDown | UI/Window.cs:89 | a press in the content area changes nothing; a left press on the frame hit-tests against the title bar as move handle; the front-of-container step of the same press is `Overlay.PressWindow` |
| WindowChrome.HoverCursor | UI/Window.cs:41-52 | while idle the cursor follows the hovered hit-test mode; during a drag it follows the drag's mode |
| WindowChrome.ChromePointerMove | UI/Window.cs:33-52 | the geometry step always happens; on success the window's cursor becomes the one chosen for the hovered mode (idle) or the drag's mode, and every other field is kept; the move throws exactly when the cursor mapping does, keeping the old cursor |
| WindowChrome.MoveCursorFollowsEdges | UI/Window.cs:41-52 | with every image loaded, a pointer move succeeds exactly for a named mode and then shows the default cursor for `None`/`Move`, otherwise the image the mode's edges call for |
| WindowChrome.IdleHoverLeftMargin | UI/Window.cs:43-46 | an idle hover in the left margin only shows the horizontal resize image when it is loaded |
| WindowChrome.ChromePointerUp | UI/ResizeableElement.cs:84-88 | releasing on a window ends its drag and changes nothing else |
| WindowChrome.GeometryChanged | UI/Hub/Hub.cs:156-170 | the first geometry change sets the limits to the panel bounds plus padding and unregisters; later ones do nothing |
| WindowChrome.LimitsAppliedOnce | UI/StellarHub/StellarHub.cs:145-159 | a second geometry change never alters the limits set by the first, which are consistent when the panel's bounds are |
| Panels.NewPanel | UI/StellarHub/StellarHubWindow.cs:12-14 | a new panel is visible and has not created its content |
| Panels.SetVisible | UI/StellarHub/StellarHubWindow.cs:39-50 | a change raises exactly one notification carrying the new value; setting the current value changes nothing and notifies no one |
| Panels.Content | UI/StellarHub/StellarHubWindow.cs:34 | a cached element is returned as is; otherwise the factory runs once and its element is cached |
| Panels.ReadContentRepeatedly | UI/StellarHub/StellarHubWindow.cs:34 | one element is returned per read |
| Panels.ContentCreatedAtMostOnce | UI/StellarHub/StellarHubWindow.cs:34 | however often the content is read, the factory runs at most once and every read returns the cached element |
| Panels.VisibilityNotificationCount | UI/StellarHub/StellarHubWindow.cs:44-48 | setting the same value twice notifies once; flipping twice notifies twice, with both values, and restores the panel |
| Dict.Add | UI/Hub/Hub.cs:172 | adding a present key throws `DuplicateKey` and changes nothing; otherwise the key maps to the value, no other key changes, and the key joins the enumeration (at the end when no slot is free) |
| Dict.Remove | UI/Hub/Hub.cs:184 | the key is gone, the other keys keep their values and their enumeration order; an absent key changes nothing |
| Dict.Set | Assets/AssetLoader.cs:115 | the indexer stores the value under the key without changing any other key; for a present key the enumeration order is unchanged |
| Dict.KeysFaithful | UI/Hub/HubToolbar.cs:28 | enumeration yields every held key exactly once and no other |
| BehaviourFlags.TableIsBits | StellarDriveIntegration/PlayerBehaviourFlags.cs:13-33 | the 19 mapped flags are bits 0 to 18 in table order, so they are distinct, and none is `None` or `All` |
| BehaviourFlags.NoneAndAll | StellarDriveIntegration/PlayerBehaviourFlags.cs:11-35 | every value has `None`'s flags, `None` has no non-empty value, and `All` has every value |
| BehaviourFlags.InputAndEscapeBits | StellarDriveIntegration/PlayerBehaviourFlags.cs:13-23 | `Input \| EscapeControl` is exactly bits 0 and 9, both mapped |
| BehaviourFlags.MaskMembers | StellarDriveIntegration/PlayerBehaviourFlags.cs:35 | `All` is the 32 bits of the underlying type and contains the 19 mapped bits |
| Integration.GetCurrentPlayerStateType | StellarDriveIntegration/IntegrationUtilities.cs:47-57 | no state without an activator, otherwise the player's current state |
| Integration.GetFlagBehaviourTypes | StellarDriveIntegration/IntegrationUtilities.cs:196-211 | a type is returned exactly when it is mapped and its flag is among the given flags |
| Integration.TypesAscending | StellarDriveIntegration/IntegrationUtilities.cs:200-208 | the types come in table order, strictly ascending |
| Integration.TypesOfAllAndNone | StellarDriveIntegration/IntegrationUtilities.cs:214-237 | `All` yields all 19 types in table order and `None` yields none |
| Integration.SetBehaviourStates | StellarDriveIntegration/IntegrationUtilities.cs:143-171 | no activator, no effect; with the state map, each listed behaviour is enabled exactly when the flags select it, and a state missing from the map throws with nothing changed; otherwise each mapped behaviour found is enabled exactly when selected, the rest untouched |
| Integration.SetBehaviourStatesAll | StellarDriveIntegration/IntegrationUtilities.cs:108-136 | only the selected behaviours are set to the given state, all others untouched; same activator and state-map rules |
| Integration.CurrentFrom | StellarDriveIntegration/IntegrationUtilities.cs:181-190 | a missing behaviour from the visited entry on yields `None`; otherwise the flags found so far plus the enabled behaviours' flags |
| Integration.GetCurrentBehaviourStates | StellarDriveIntegration/IntegrationUtilities.cs:177-193 | `None` when any mapped behaviour is missing, otherwise exactly the flags of the enabled mapped behaviours |
| Integration.SetThenGet | StellarDriveIntegration/IntegrationUtilities.cs:143-193 | with every mapped behaviour present, reading after writing `f` gives `f` masked to the 19 mapped bits |
| Integration.GetThenSet | StellarDriveIntegration/IntegrationUtilities.cs:143-193 | writing back what was just read changes nothing |
| Integration.SetOverwrites | StellarDriveIntegration/IntegrationUtilities.cs:162-170 | without the state map the last write wins: two writes are the second alone |
| Integration.SnapshotRestores | StellarDriveIntegration/IntegrationUtilities.cs:143-193 | a snapshot read before any write restores the player's behaviours exactly |
| Integration.SetNoneDisablesAll | StellarDriveIntegration/IntegrationUtilities.cs:164-169 | writing `None` disables every mapped behaviour found |
| Integration.CreateMenuImposter | StellarDriveIntegration/IntegrationUtilities.cs:64-81 | no tracker, nothing created or recorded; otherwise a fresh imposter is appended to the owner's list (created on first use) and tracked; the table's invariant is kept |
| Integration.DestroyAllMenuImposters | StellarDriveIntegration/IntegrationUtilities.cs:87-99 | an unknown owner is a no-op; otherwise exactly that owner's imposters are destroyed (and untracked when the tracker exists) and its entry removed; other owners' lists, live imposters and tracked imposters are kept, nothing is created, and the next identity is unchanged |
| Overlay.EmptyWorld | UI/Hub/Hub.cs:31-37 | a new overlay has an empty registry and no handlers |
| Overlay.AssignItems | UI/Hub/HubToolbar.cs:14-21 | assigning null to the toolbar's items is ignored |
| Overlay.UpdateButtonClassList | UI/Hub/HubToolbar.cs:68-80 | afterwards "checked" is present exactly when the panel is hidden and "unchecked" exactly when shown; other classes stay |
| Overlay.ButtonClassesExclusive | UI/StellarHub/StellarHubToolbar.cs:68-80 | exactly one mark is present after an update, and the update is idempotent and overrides the previous one |
| Overlay.InitialClasses | UI/Hub/HubToolbar.cs:60-62 | a new button carries the element class and the mark of its panel's visibility |
| Overlay.BringToFront | UI/Hub/HubToolbar.cs:54 | the window ends last (in front) with the other windows in their order; a window not in the container leaves it alone; the members are unchanged |
| Overlay.FrontTwice | UI/Hub/HubToolbar.cs:54 | bringing to front twice is bringing once |
| Overlay.PressWindow | UI/ResizeableElement.cs:27-39 | a press runs the window's pointer-down handler; a left press on the frame also brings the window to the front of the container, keeping the other windows' order; any other press leaves the z-order alone |
| Overlay.PressTwice | UI/ResizeableElement.cs:34-38 | pressing a window twice with the same event is pressing it once: same snapshot, already in front |
| Overlay.ListElement | UI/Hub/HubToolbar.cs:37-66 | a button is labelled with its panel's name and checked exactly when the panel is hidden |
| Overlay.KeysRegistered | UI/Hub/HubToolbar.cs:28 | every key the registry enumerates has a window and is an existing panel |
| Overlay.RebuildList | UI/Hub/HubToolbar.cs:24-34 | the toolbar gets one new button per registered panel in enumeration order and one new handler each; earlier handlers are kept (as written) or dropped; items become the registry |
| Overlay.RebuildMatchesRegistry | UI/StellarHub/StellarHubToolbar.cs:24-41 | after a rebuild the toolbar's panels are the registry's keys in order, each button labelled and marked by its panel |
| Overlay.WithNewWindow | UI/Hub/Hub.cs:127-154 | the appended window has the panel's name, its visibility, margin 15 and the panel's (cached) content, with limits pending; no other panel changes |
| Overlay.AddHubWindow | UI/Hub/Hub.cs:125-174 | throws `DuplicateKey` exactly for a registered panel, after the window was appended; otherwise registers the pairing, raises the added event and rebuilds the toolbar |
| Overlay.AddRegisters | UI/StellarHub/StellarHub.cs:114-163 | adding a new panel pairs it with the new window, leaves every other pairing, raises one event and leaves the toolbar matching the registry |
| Overlay.DuplicateAddLeavesOrphan | UI/Hub/Hub.cs:154-172 | a duplicate add leaves an unregistered window in the container and no event, toolbar or registry change |
| Overlay.RemoveHubWindow | UI/Hub/Hub.cs:179-187 | throws `KeyNotFound` exactly for an unregistered panel, changing nothing; otherwise removes the window and the pairing, raises the removed event and rebuilds |
| Overlay.RemoveUnregisters | UI/StellarHub/StellarHub.cs:168-176 | removing drops exactly that pairing and window, leaves the other pairings and every panel alone, raises one event and leaves the toolbar matching the registry |
| Overlay.OnVisibilityChanged | UI/Hub/HubToolbar.cs:50-57 | a handler throws exactly when its panel is not a key of the toolbar's items, changing nothing; otherwise it sets the window's visibility, brings it to front only when shown, and re-marks its button |
| Overlay.RaiseVisibilityChanged | UI/StellarHub/StellarHubWindow.cs:47 | the panel's multicast notification runs the toolbar handlers of `UI/Hub/HubToolbar.cs:50-57` in subscription order: it throws `KeyNotFound` with the state as before exactly when the panel has a handler and its window cannot be reached; with no handler nothing changes; otherwise the panel's window alone gets the new visibility and, if shown, is in front, however many handlers run |
| Overlay.ShowTwice | UI/Hub/HubToolbar.cs:52-54 | running the same visibility update twice equals running it once |
| Overlay.SetPanelVisible | UI/StellarHub/StellarHubWindow.cs:44-48 | the flag changes even when a handler throws; the current value changes nothing; a throw happens exactly on a change for a subscribed, unreachable panel; otherwise the window follows |
| Overlay.ClickButton | UI/Hub/HubToolbar.cs:45-48 | a click flips exactly its panel's visibility, failing only in the notification, with a missing key |
| Overlay.ClosePanel | UI/Hub/Hub.cs:129 | the close button hides the panel, and its window when reachable |
| Overlay.RebuildSubscribes | UI/Hub/Hub.cs:265-275 | a rebuild subscribes a handler for every registered panel |
| Overlay.AccumulateKeepsSubscriptions | UI/Hub/HubToolbar.cs:50 | rebuilding never unsubscribes a handler |
| Overlay.ReplaceRebuildReachable | UI/Hub/HubToolbar.cs:24-34 | a rebuild that drops old handlers leaves only handlers of registered panels |
| Overlay.ReachableNeverThrows | UI/Hub/HubToolbar.cs:52 | while every handler can reach its window, a visibility change never throws and that stays so |
| Overlay.ReplaceAddKeepsReachable | UI/Hub/Hub.cs:265-269 | with dropped handlers, an add keeps every handler reachable |
| Overlay.ReplaceRemoveKeepsReachable | UI/Hub/Hub.cs:271-275 | with dropped handlers, a remove keeps every handler reachable |
| Overlay.ReplaceNeverThrows | UI/Hub/HubToolbar.cs:50-57 | with dropped handlers, add, remove and then toggle the panel never throws |
| Overlay.StaleHandlerThrows | UI/Hub/HubToolbar.cs:50-57 | as written, add, remove and then toggle the panel throws `KeyNotFound` |
| Hub.SetVisible | UI/Hub/Hub.cs:85-111 | showing saves the current behaviour flags, leaves only input and escape enabled and registers a closable imposter; hiding writes the saved flags back and destroys this overlay's imposters; windows untouched |
| Hub.NewHub | UI/Hub/Hub.cs:31-50 | a new overlay is hidden with an empty snapshot, no closers and no imposter of its own |
| Hub.TryToggle | UI/Hub/Hub.cs:114-119 | refused while the player writes a beacon name, otherwise the visibility flips |
| Hub.Escape | UI/Hub/Hub.cs:45-47 | escape always hides and destroys this overlay's imposters |
| Hub.CloseImposter | StellarDriveIntegration/ClosableMenuImposter.cs:23-26 | closing one of this overlay's imposters hides it; any other imposter changes nothing |
| Hub.AddHubWindow | UI/Hub/Hub.cs:125-174 | throws exactly for a registered panel; otherwise the panel maps to the new window and one added event is raised |
| Hub.RemoveHubWindow | UI/Hub/Hub.cs:179-187 | throws exactly for an unregistered panel, changing nothing; otherwise the pairing is gone and one removed event is raised |
| Hub.ShowRestricts | UI/Hub/Hub.cs:96-99 | while shown, the behaviour flags read back as exactly input and escape |
| Hub.ShowThenHideRestores | UI/Hub/Hub.cs:96-108 | show then hide gives the player's behaviours back exactly and leaves no imposter |
| Hub.ShowWithMissingThenHideDisables | UI/Hub/Hub.cs:96-108 | showing while one mapped behaviour is missing snapshots no flags, so the following hide switches off every mapped behaviour, input included |
| Hub.ShowTwiceLosesSnapshot | UI/Hub/Hub.cs:88-99 | as written, show, show, hide leaves only input and escape enabled |
| Hub.NewHubDisablesBehaviours | UI/Hub/Hub.cs:49 | as written, construction, and escape while hidden, disable every mapped behaviour |
| Hub.SetVisibleGuarded | UI/Hub/Hub.cs:85-111 | setting the current value changes nothing; a change is the setter |
| Hub.GuardedShowTwiceRestores | UI/Hub/Hub.cs:96-108 | with the guard, a second show is a no-op and hiding restores the behaviours |
| Hub.GuardedHideWhileHidden | UI/Hub/Hub.cs:45-49 | with the guard, hiding while hidden, including at construction, leaves the behaviours alone |
| StellarHub.ShowBehaviours | UI/StellarHub/StellarHub.cs:90-91 | as written, the state's listed behaviours end as input and escape only; unlisted mapped behaviours end enabled; throws exactly when the state map lacks the state |
| StellarHub.HideBehaviours | UI/StellarHub/StellarHub.cs:98 | as written, the listed behaviours are enabled exactly when mapped, the rest untouched; throws exactly when the state map lacks the state, changing nothing |
| StellarHub.SetVisible | UI/StellarHub/StellarHub.cs:77-102 | the visibility changes even when switching throws, leaving the imposters; otherwise showing registers an imposter and hiding destroys this overlay's |
| StellarHub.ToggleVisibility | UI/StellarHub/StellarHub.cs:105-108 | flips the visibility unconditionally |
| StellarHub.CloseImposter | StellarDriveIntegration/ClosableMenuImposter.cs:23-26 | closing one of this overlay's imposters hides it; any other changes nothing |
| StellarHub.AddHubWindow | UI/StellarHub/StellarHub.cs:114-163 | throws exactly for a registered panel; otherwise the panel maps to the new window and one added event is raised |
| StellarHub.RemoveHubWindow | UI/StellarHub/StellarHub.cs:168-176 | throws exactly for an unregistered panel, changing nothing; otherwise the pairing is gone and one removed event is raised |
| StellarHub.ShowLeavesUnlistedEnabled | UI/StellarHub/StellarHub.cs:88-95 | as written, a mapped behaviour the state does not list ends enabled after showing, and showing throws outside the state map |
| StellarHub.ShowEnablesWalking | UI/StellarHub/StellarHub.cs:90-91 | in a game whose state lists nothing, showing switches walking on |
| StellarHub.ShowBehavioursIntended | UI/StellarHub/StellarHub.cs:90-91 | never throws; every mapped behaviour found ends disabled except input and escape, unmapped ones untouched |
| StellarHub.HideBehavioursIntended | UI/StellarHub/StellarHub.cs:98 | every mapped behaviour found ends enabled, unmapped ones untouched |
| StellarHub.SetVisibleIntended | UI/StellarHub/StellarHub.cs:77-102 | the setter with the intended switching; showing registers an imposter and hiding destroys them |
| StellarHub.IntendedShowRestricts | UI/StellarHub/StellarHub.cs:88-100 | with the intended switching, the flags read back as input and escape while shown and as every mapped flag after hiding |
| AssetLoader.FirstNamed | Assets/AssetLoader.cs:113-115 | an asset of that name with no asset of that name before it, or none exactly when no asset has it |
| AssetLoader.FirstNamedAppend | Assets/AssetLoader.cs:96-103 | the first match in two bundles is the first bundle's if it has one, else the second's |
| AssetLoader.MatchedAppend | Assets/AssetLoader.cs:96-103 | matching bundle by bundle is matching their concatenation |
| AssetLoader.AddNames | Assets/AssetLoader.cs:68-71 | succeeds exactly when no name repeats; then the keys are the names in order, each without an asset; a repeat throws `DuplicateKey` |
| AssetLoader.SetMatchingAssets | Assets/AssetLoader.cs:106-118 | keys and order are unchanged; an unrequested name stays absent, a loaded one keeps its asset, an empty one takes the first asset of its name; exactly those are logged |
| AssetLoader.LoadAndSetAssets | Assets/AssetLoader.cs:91-104 | the bundles before the first broken resource are matched in order; it throws exactly when some resource is broken; keys never change |
| AssetLoader.Missing | Assets/AssetLoader.cs:82-88 | exactly the listed keys without an asset are reported |
| AssetLoader.Initialize | Assets/AssetLoader.cs:66-89 | construction fails exactly when a name repeats; otherwise the keys are exactly the requested names, and a loading failure is recorded, not thrown |
| AssetLoader.InitializeLoadsFirstMatch | Assets/AssetLoader.cs:66-118 | after construction each requested name holds the first reached asset of its name or none, no other name is present, and exactly the empty names are reported missing |
| AssetLoader.GetAsset | Assets/AssetLoader.cs:53-56 | throws `KeyNotFound` exactly for an unrequested name, otherwise returns the stored entry |
| AssetLoader.GetAfterInitialize | Assets/AssetLoader.cs:53-89 | after construction, an unrequested name throws and a requested one gives its first reached asset or none |

## Left out

- Unity runtime objects are left out: `FindObjectOfType`, the reflection on the activator's private fields, the `layout` property set by reflection, pointer capture and release, `worldBound` and `LocalToWorld`. The move handle is a rectangle in local coordinates, and the game's objects are the fields of `Integration.Host`.
- Floating point is left out. Coordinates are exact reals, `float.PositiveInfinity` as a maximum is an absent bound, and the cursor hotspot is not modelled.
- Styles, USS classes other than the toolbar marks, panel settings, document creation and display styles are left out. Only the visibility flags of windows and panels are kept.
- Window position and padding constants (500, 300, radius 10) are left out. The layout engine's rectangles are parameters.
- When `AddHubWindow` fails on a duplicate, the panel's content is moved under the new window. Unity's reparenting is not modelled: the orphaned window only records the content element.
- Logging text is left out. The loader's log is modelled as fields (loaded names, failure, missing names), and the `Msg` call in `CreateMenuImposter` is left out.
- Asset bundle I/O is left out. Each embedded resource is given as a bundle's asset list or as one that fails to load, and the caught exception's kind is not distinguished.
- AssetLoader.GetAsset: the generic overload's cast to `T` is not modelled, so an asset of the wrong type, which would throw `InvalidCastException`, is not represented.
- The menu tracker's own behaviour and the game closing all menus are left out. A close signal is the `CloseImposter` step.
- SMTK.cs, the plugin class, UIUtilities.cs and the imposter shells are left out. Only their effects are kept: the toggle binding, escape, and the close signal.
- Input bindings are left out. Their effects are the `TryToggle`, `ToggleVisibility` and `Escape` steps.
- The overlay's `Windows` property is not modelled. It is the registry's key enumeration (`Dict.Keys`).
- Integration.SetBehaviourStates: with the state map, each behaviour the current state lists is taken to be the component found by its type, one per type, so the listed types join the found components. A listed behaviour that is a second component of a type already found is not represented. The same holds for `Integration.SetBehaviourStatesAll`.
- Resizeable.UpdateRect: a rectangle with crossed edges is stored as it is; how the layout engine draws an element whose layout has a negative size is not modelled.
- Hub.SetVisible: the display style set on the container and toolbar is represented only by the `visible` field.

## Findings

| source | as written | input that shows it | evidently intended | confidence | as-written member | corrected member |
|---|---|---|---|---|---|---|
| UI/Hub/HubToolbar.cs:50-57 | every rebuild subscribes new visibility handlers and never drops the old ones, which index the shared registry | add a panel's window, remove it, then toggle the panel's visibility: the first rebuild's handler throws `KeyNotFoundException` | a panel's handlers go away with its window, so visibility changes never throw | high, not executed | Overlay.StaleHandlerThrows | Overlay.ReplaceNeverThrows |
| UI/Hub/Hub.cs:88-104 | the setter has no check against the current value, so a second show snapshots the already restricted flags | show, show, hide with all behaviours present: only input and escape remain enabled | showing while shown does nothing, so hiding restores the behaviours from before the first show | high, not executed | Hub.ShowTwiceLosesSnapshot | Hub.GuardedShowTwiceRestores |
| UI/Hub/Hub.cs:45-49 | the constructor, and escape while hidden, run the hide branch with the empty or stale snapshot | a new overlay in a game with an activator: every mapped behaviour, input included, is switched off | hiding a hidden overlay leaves the player's behaviours alone | high, not executed | Hub.NewHubDisablesBehaviours | Hub.GuardedHideWhileHidden |
| UI/StellarHub/StellarHub.cs:90-91 | the two-argument calls bind to `SetBehaviourStates(flags, respectStateMap)`, not to `SetBehaviourStatesAll(flags, state)` whose shape they match | a player walking in a state whose behaviour list is empty: showing the overlay switches walking on; in a state missing from the state map, showing throws | showing disables every behaviour except input and escape; hiding enables them again | medium, not executed | StellarHub.ShowEnablesWalking | StellarHub.IntendedShowRestricts |
