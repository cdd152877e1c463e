/** The contract a pluggable panel implements: a name, content-size bounds,
    lazily created content, and a visibility flag that notifies its
    subscribers only when it actually changes. Both hub variants use this
    contract (the newer panel base type is modelled with the same members). */
module Panels {
  import opened Common
  import opened Geometry

  /** A panel. `content` is the cached content element once created;
      `creations` counts calls of the panel's content factory. */
  datatype Panel = Panel(
    name: string,
    minSize: Vec,
    maxSize: Vec,
    visible: bool,
    content: Option<nat>,
    creations: nat)

  /** A new panel is visible and has not created its content yet. */
  function NewPanel(name: string, minSize: Vec, maxSize: Vec): (p: Panel)
    ensures p.visible && p.content.None? && p.creations == 0
    ensures p.name == name && p.minSize == minSize && p.maxSize == maxSize
  {
    Panel(name, minSize, maxSize, true, None, 0)
  }

  /** The visibility setter: the new flag, and the notifications raised
      (each carries the new value). Setting the current value raises none. */
  function SetVisible(p: Panel, v: bool): (r: (Panel, seq<bool>))
    ensures r.0.visible == v
    ensures r.0 == p.(visible := v)
    ensures p.visible != v ==> r.1 == [v]
    ensures p.visible == v ==> r.1 == [] && r.0 == p
  {
    if p.visible != v then (p.(visible := v), [v]) else (p, [])
  }

  /** The content getter: the cached element if there is one, otherwise a
      new element (`newElement`) from the factory, which is then cached. */
  function Content(p: Panel, newElement: nat): (r: (Panel, nat))
    ensures p.content.Some? ==> r == (p, p.content.value)
    ensures p.content.None? ==> r.1 == newElement && r.0 == p.(content := Some(newElement), creations := p.creations + 1)
  {
    match p.content
    case Some(c) => (p, c)
    case None => (p.(content := Some(newElement), creations := p.creations + 1), newElement)
  }

  /** The factory has run exactly when an element is cached. */
  ghost predicate CacheConsistent(p: Panel) {
    p.creations == if p.content.Some? then 1 else 0
  }

  /** Reads the content once per candidate new element, in order. */
  function ReadContentRepeatedly(p: Panel, candidates: seq<nat>): (r: (Panel, seq<nat>))
    ensures |r.1| == |candidates|
    decreases |candidates|
  {
    if candidates == [] then (p, [])
    else
      var (p1, c) := Content(p, candidates[0]);
      var (p2, cs) := ReadContentRepeatedly(p1, candidates[1..]);
      (p2, [c] + cs)
  }

  /** However often the content is read, the factory runs at most once per
      panel and every read returns the same element. */
  lemma {:induction false} ContentCreatedAtMostOnce(p: Panel, candidates: seq<nat>)
    requires CacheConsistent(p)
    ensures CacheConsistent(ReadContentRepeatedly(p, candidates).0)
    ensures ReadContentRepeatedly(p, candidates).0.creations <= 1
    ensures p.content.Some? ==> ReadContentRepeatedly(p, candidates).0 == p
    ensures forall i :: 0 <= i < |candidates| ==>
              ReadContentRepeatedly(p, candidates).0.content == Some(ReadContentRepeatedly(p, candidates).1[i])
    decreases |candidates|
  {
    if candidates != [] {
      var (p1, c) := Content(p, candidates[0]);
      ContentCreatedAtMostOnce(p1, candidates[1..]);
      assert p1.content == Some(c);
    }
  }

  /** Setting a flag twice to the same value notifies once; flipping twice
      notifies twice and restores the panel. */
  lemma VisibilityNotificationCount(p: Panel, v: bool)
    ensures SetVisible(p, v).1 + SetVisible(SetVisible(p, v).0, v).1 == (if p.visible == v then [] else [v])
    ensures SetVisible(SetVisible(p, !p.visible).0, p.visible).0 == p
    ensures SetVisible(p, !p.visible).1 + SetVisible(SetVisible(p, !p.visible).0, p.visible).1 == [!p.visible, p.visible]
  {
  }
}
