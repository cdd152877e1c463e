/** The asset loader: a table from requested asset names to loaded assets,
    filled from the asset bundles embedded in an assembly. Every requested
    name starts out without an asset; the first asset found under a name
    is kept; a loading failure ends loading but not construction; and the
    names still without an asset are reported. */
module AssetLoader {
  import opened Common
  import D = Dict

  /** A loaded asset: its name and an identity telling apart assets with
      the same name. */
  datatype Asset = Asset(name: string, id: nat)

  /** An embedded resource: an asset bundle holding the given assets, in
      the order the bundle yields them, or one whose stream or bundle cannot
      be loaded. */
  datatype Resource = Bundle(assets: seq<Asset>) | Broken

  /** The asset table: requested names to their asset, none until loaded. */
  type Table = D.Dict<string, Option<Asset>>

  /** A constructed loader: the table, and what it tells the logger: the
      names loaded, in loading order; whether loading failed; and the names
      left without an asset, in the table's order. */
  datatype Loader = Loader(assets: Table, loaded: seq<string>, failed: bool, missing: seq<string>)

  /** The first asset named `n`, if any: the reference for what loading
      keeps under a name. */
  function FirstNamed(assets: seq<Asset>, n: string): (r: Option<Asset>)
    ensures r.Some? ==> r.value in assets && r.value.name == n
    ensures r.None? <==> forall i :: 0 <= i < |assets| ==> assets[i].name != n
    ensures r.Some? ==> exists i :: 0 <= i < |assets| && assets[i] == r.value && forall j :: 0 <= j < i ==> assets[j].name != n
  {
    if assets == [] then None
    else if assets[0].name == n then Some(assets[0])
    else FirstNamed(assets[1..], n)
  }

  /** The first asset named `n` in `a + b` is the first in `a` if there is
      one there, otherwise the first in `b`. */
  lemma {:induction false} FirstNamedAppend(a: seq<Asset>, b: seq<Asset>, n: string)
    ensures FirstNamed(a + b, n) == if FirstNamed(a, n).Some? then FirstNamed(a, n) else FirstNamed(b, n)
  {
    if a != [] {
      assert (a + b)[1..] == a[1..] + b;
      FirstNamedAppend(a[1..], b, n);
    } else {
      assert a + b == b;
    }
  }

  /** What the table holds under `n` after matching `assets` against an
      entry `v`: an unrequested name stays absent, a loaded asset stays,
      and an empty entry takes the first asset of that name. */
  function Matched(v: Option<Option<Asset>>, assets: seq<Asset>, n: string): Option<Option<Asset>> {
    if v == Some(None) then Some(FirstNamed(assets, n)) else v
  }

  /** Matching against `a` and then `b` is matching against `a + b`. */
  lemma MatchedAppend(v: Option<Option<Asset>>, a: seq<Asset>, b: seq<Asset>, n: string)
    ensures Matched(Matched(v, a, n), b, n) == Matched(v, a + b, n)
  {
    FirstNamedAppend(a, b, n);
  }

  /** `Initialize`'s first loop: adds each name with no asset, in order.
      A name already present throws, leaving the names before it added. */
  function AddNames(t: Table, names: seq<string>): (r: Completion<Table>)
    requires D.Valid(t) && t.free == []
    ensures D.Valid(r.state) && r.state.free == []
    ensures r.Normal? <==> NoDup(D.Keys(t) + names)
    ensures r.Thrown? ==> r.error == DuplicateKey
    ensures r.Normal? ==> D.Keys(r.state) == D.Keys(t) + names
    ensures r.Normal? ==> forall n :: D.Get(r.state, n) == if n in names then Some(None) else D.Get(t, n)
    decreases |names|
  {
    if names == [] then
      assert D.Keys(t) + names == D.Keys(t);
      D.KeysFaithful(t);
      Normal(t)
    else
      D.KeysFaithful(t);
      match D.Add(t, names[0], None)
      case Thrown(t1, e) =>
        assert names[0] in D.Keys(t);
        NoDupWitness(D.Keys(t) + names, names[0], |D.Keys(t)|);
        Thrown(t1, e)
      case Normal(t1) =>
        assert D.Keys(t) + names == D.Keys(t1) + names[1..];
        AddNames(t1, names[1..])
  }

  /** A sequence holding `x` at position `i` and again before it repeats
      an element. */
  lemma NoDupWitness(s: seq<string>, x: string, i: nat)
    requires i < |s| && s[i] == x && x in s[..i]
    ensures !NoDup(s)
  {
    var j :| 0 <= j < i && s[..i][j] == x;
    assert s[j] == s[i];
  }

  /** `SetMatchingAssets`: each asset whose name is requested and still
      without an asset is stored under its name; others are skipped. The
      names stored are returned in order (they go to the logger). */
  function SetMatchingAssets(t: Table, assets: seq<Asset>): (r: (Table, seq<string>))
    requires D.Valid(t)
    ensures D.Valid(r.0) && D.Keys(r.0) == D.Keys(t) && r.0.free == t.free
    ensures forall n :: D.Get(r.0, n) == Matched(D.Get(t, n), assets, n)
    ensures forall n :: n in r.1 <==> D.Get(t, n) == Some(None) && FirstNamed(assets, n).Some?
    decreases |assets|
  {
    if assets == [] then (t, [])
    else
      var a := assets[0];
      if !D.ContainsKey(t, a.name) || D.Get(t, a.name).value.Some? then
        SetMatchingAssets(t, assets[1..])
      else
        var (t1, names) := SetMatchingAssets(D.Set(t, a.name, Some(a)), assets[1..]);
        (t1, [a.name] + names)
  }

  /** The assets loading reaches: those of the bundles before the first
      resource that fails. */
  function Reached(resources: seq<Resource>): seq<Asset> {
    if resources == [] || resources[0].Broken? then []
    else resources[0].assets + Reached(resources[1..])
  }

  /** Some resource fails to load. */
  predicate AnyBroken(resources: seq<Resource>) {
    exists j :: 0 <= j < |resources| && resources[j].Broken?
  }

  /** `LoadAndSetAssets`: matches the assets of each resource's bundle in
      turn; the first resource that fails throws, with the earlier
      bundles' assets already stored. */
  function LoadAndSetAssets(t: Table, resources: seq<Resource>): (r: Completion<(Table, seq<string>)>)
    requires D.Valid(t)
    ensures D.Valid(r.state.0) && D.Keys(r.state.0) == D.Keys(t) && r.state.0.free == t.free
    ensures r.Thrown? <==> AnyBroken(resources)
    ensures r.Thrown? ==> r.error == LoadError
    ensures forall n :: D.Get(r.state.0, n) == Matched(D.Get(t, n), Reached(resources), n)
    ensures forall n :: n in r.state.1 <==> D.Get(t, n) == Some(None) && FirstNamed(Reached(resources), n).Some?
    decreases |resources|
  {
    if resources == [] then Normal((t, []))
    else if resources[0].Broken? then
      assert forall n :: Matched(D.Get(t, n), [], n) == D.Get(t, n);
      Thrown((t, []), LoadError)
    else
      var (t1, names1) := SetMatchingAssets(t, resources[0].assets);
      var c := LoadAndSetAssets(t1, resources[1..]);
      forall n
        ensures D.Get(c.state.0, n) == Matched(D.Get(t, n), Reached(resources), n)
        ensures n in names1 + c.state.1 <==> D.Get(t, n) == Some(None) && FirstNamed(Reached(resources), n).Some?
      {
        MatchedAppend(D.Get(t, n), resources[0].assets, Reached(resources[1..]), n);
      }
      assert AnyBroken(resources) <==> AnyBroken(resources[1..]) by {
        if AnyBroken(resources) {
          var j :| 0 <= j < |resources| && resources[j].Broken?;
          assert resources[1..][j - 1].Broken?;
        }
        if AnyBroken(resources[1..]) {
          var j :| 0 <= j < |resources[1..]| && resources[1..][j].Broken?;
          assert resources[j + 1].Broken?;
        }
      }
      match c
      case Normal((t2, names2)) => Normal((t2, names1 + names2))
      case Thrown((t2, names2), e) => Thrown((t2, names1 + names2), e)
  }

  /** `Initialize`'s final loop: the keys among `keys` without an asset, in
      order. */
  function Missing(t: Table, keys: seq<string>): (r: seq<string>)
    ensures forall n :: n in r <==> n in keys && D.Get(t, n) == Some(None)
  {
    if keys == [] then []
    else (if D.Get(t, keys[0]) == Some(None) then [keys[0]] else []) + Missing(t, keys[1..])
  }

  /** Construction: adds the requested names (a repeated name throws out of
      the constructor), loads the embedded resources in order (a failure is
      caught and logged), then lists the names left without an asset. */
  function Initialize(names: seq<string>, resources: seq<Resource>): (r: Completion<Loader>)
    ensures r.Thrown? <==> !NoDup(names)
    ensures r.Thrown? ==> r.error == DuplicateKey
    ensures r.Normal? ==> D.Valid(r.state.assets) && D.Keys(r.state.assets) == names
    ensures r.Normal? ==> r.state.failed == AnyBroken(resources)
  {
    match AddNames(D.Empty(), names)
    case Thrown(t, e) =>
      assert D.Keys(D.Empty<string, Option<Asset>>()) + names == names;
      Thrown(Loader(t, [], false, []), e)
    case Normal(t) =>
      assert D.Keys(D.Empty<string, Option<Asset>>()) + names == names;
      var c := LoadAndSetAssets(t, resources);
      Normal(Loader(c.state.0, c.state.1, c.Thrown?, Missing(c.state.0, D.Keys(c.state.0))))
  }

  /** After construction, every requested name holds the first asset of
      that name the reached bundles yield, or none; no other name is in the
      table; and exactly the requested names without an asset are reported
      missing. */
  lemma InitializeLoadsFirstMatch(names: seq<string>, resources: seq<Resource>, n: string)
    requires NoDup(names)
    ensures Initialize(names, resources).Normal?
    ensures D.Get(Initialize(names, resources).state.assets, n) ==
              if n in names then Some(FirstNamed(Reached(resources), n)) else None
    ensures n in Initialize(names, resources).state.missing <==> n in names && FirstNamed(Reached(resources), n).None?
    ensures n in Initialize(names, resources).state.loaded <==> n in names && FirstNamed(Reached(resources), n).Some?
  {
    var e := D.Empty<string, Option<Asset>>();
    assert D.Keys(e) + names == names;
    assert D.Get(e, n) == None;
    var t := AddNames(e, names).state;
    assert D.Get(t, n) == if n in names then Some(None) else None;
    var c := LoadAndSetAssets(t, resources);
    assert D.Keys(c.state.0) == names;
    var l := Initialize(names, resources).state;
    assert l == Loader(c.state.0, c.state.1, c.Thrown?, Missing(c.state.0, D.Keys(c.state.0)));
  }

  /** `GetAsset`: the indexer, which throws for a name never requested. */
  function GetAsset(l: Loader, n: string): (r: Result<Option<Asset>>)
    ensures r.Failure? <==> D.Get(l.assets, n).None?
    ensures r.Failure? ==> r.error == KeyNotFound
    ensures r.Success? ==> Some(r.value) == D.Get(l.assets, n)
  {
    match D.Get(l.assets, n)
    case None => Failure(KeyNotFound)
    case Some(v) => Success(v)
  }

  /** Looking up a constructed loader: an unrequested name throws, a
      requested one yields the first asset of that name the reached bundles
      hold, or none if there is none. */
  lemma GetAfterInitialize(names: seq<string>, resources: seq<Resource>, n: string)
    requires NoDup(names)
    ensures var l := Initialize(names, resources).state;
            && (GetAsset(l, n).Failure? <==> n !in names)
            && (n in names ==> GetAsset(l, n) == Success(FirstNamed(Reached(resources), n)))
  {
    InitializeLoadsFirstMatch(names, resources, n);
  }
}
