/** The runtime's hash dictionary as far as the core can observe it: an
    array of entry slots enumerated in slot order, and a free list of the
    slots vacated by removals, reused last-freed-first. So keys enumerate in
    insertion order until something is removed; a later insertion then takes
    the most recently vacated slot. The registry, the toolbar and the asset
    table all enumerate dictionaries, so the order is part of their
    observable behaviour. */
module Dict {
  import opened Common

  type Slot<K, V> = Option<(K, V)>

  datatype Dict<K, V> = Dict(slots: seq<Slot<K, V>>, free: seq<nat>)

  /** Slot `i` holds key `k`. */
  predicate HasKeyAt<K(==,!new), V>(s: seq<Slot<K, V>>, i: int, k: K)
    requires 0 <= i < |s|
  {
    s[i].Some? && s[i].value.0 == k
  }

  /** No key occupies two slots. */
  predicate UniqueKeys<K(==,!new), V>(s: seq<Slot<K, V>>) {
    forall i, j :: 0 <= i < j < |s| && s[i].Some? && s[j].Some? ==> s[i].value.0 != s[j].value.0
  }

  /** Keys are unique, and the free list names distinct empty slots. */
  predicate Valid<K(==,!new), V>(d: Dict<K, V>) {
    && UniqueKeys(d.slots)
    && NoDup(d.free)
    && (forall n :: 0 <= n < |d.free| ==> d.free[n] < |d.slots| && d.slots[d.free[n]].None?)
  }

  function Empty<K(==,!new), V>(): (d: Dict<K, V>)
    ensures Valid(d) && Keys(d) == []
  {
    Dict([], [])
  }

  /** The keys of some slots, in slot order. */
  function KeysOf<K, V>(s: seq<Slot<K, V>>): seq<K> {
    if s == [] then [] else (if s[0].Some? then [s[0].value.0] else []) + KeysOf(s[1..])
  }

  /** Enumeration order of the keys. */
  function Keys<K, V>(d: Dict<K, V>): seq<K> {
    KeysOf(d.slots)
  }

  /** The slot holding `k`, if any. */
  function Find<K(==,!new), V>(s: seq<Slot<K, V>>, k: K): (r: Option<nat>)
    ensures r.Some? ==> r.value < |s| && HasKeyAt(s, r.value, k)
    ensures r.None? ==> forall j :: 0 <= j < |s| ==> !HasKeyAt(s, j, k)
  {
    if s == [] then None
    else if HasKeyAt(s, 0, k) then Some(0)
    else match Find(s[1..], k)
      case None =>
        assert forall j :: 1 <= j < |s| ==> HasKeyAt(s, j, k) == HasKeyAt(s[1..], j - 1, k);
        None
      case Some(j) => Some(j + 1)
  }

  predicate ContainsKey<K(==,!new), V>(d: Dict<K, V>, k: K) {
    Find(d.slots, k).Some?
  }

  /** `TryGetValue`: the value stored under `k`, if any. */
  function Get<K(==,!new), V>(d: Dict<K, V>, k: K): Option<V> {
    match Find(d.slots, k)
    case None => None
    case Some(i) => Some(d.slots[i].value.1)
  }

  /** `Add`: throws when the key is present, otherwise stores the entry in
      the last vacated slot, or in a new slot at the end when none is free. */
  function Add<K(==,!new), V>(d: Dict<K, V>, k: K, v: V): (r: Completion<Dict<K, V>>)
    requires Valid(d)
    ensures Valid(r.state)
    ensures ContainsKey(d, k) ==> r == Thrown(d, DuplicateKey)
    ensures !ContainsKey(d, k) ==>
              && r.Normal?
              && Get(r.state, k) == Some(v)
              && (forall k' :: k' != k ==> Get(r.state, k') == Get(d, k'))
              && k in Keys(r.state)
              && Without(Keys(r.state), k) == Keys(d)
              && (|d.free| == 0 ==> Keys(r.state) == Keys(d) + [k] && r.state.free == [])
  {
    if ContainsKey(d, k) then Thrown(d, DuplicateKey)
    else
      var r := Insert(d, k, v);
      Normal(r)
  }

  function Insert<K(==,!new), V>(d: Dict<K, V>, k: K, v: V): (r: Dict<K, V>)
    requires Valid(d) && !ContainsKey(d, k)
    ensures Valid(r)
    ensures Get(r, k) == Some(v)
    ensures forall k' :: k' != k ==> Get(r, k') == Get(d, k')
    ensures k in Keys(r)
    ensures Without(Keys(r), k) == Keys(d)
    ensures |d.free| == 0 ==> Keys(r) == Keys(d) + [k] && r.free == []
  {
    if |d.free| == 0 then
      AppendEntry(d, k, v);
      Dict(d.slots + [Some((k, v))], d.free)
    else
      var i := d.free[|d.free| - 1];
      FillFreeSlot(d, k, v);
      Dict(d.slots[i := Some((k, v))], d.free[..|d.free| - 1])
  }

  /** `r` is `d` with the entry `(k, v)` added and nothing else changed. */
  ghost predicate InsertedAs<K(!new), V>(d: Dict<K, V>, r: Dict<K, V>, k: K, v: V) {
    && Valid(r)
    && Get(r, k) == Some(v)
    && (forall k' :: k' != k ==> Get(r, k') == Get(d, k'))
    && k in Keys(r)
    && Without(Keys(r), k) == Keys(d)
  }

  lemma AppendEntry<K(!new), V>(d: Dict<K, V>, k: K, v: V)
    requires Valid(d) && !ContainsKey(d, k)
    ensures InsertedAs(d, Dict(d.slots + [Some((k, v))], d.free), k, v)
    ensures Keys(Dict(d.slots + [Some((k, v))], d.free)) == Keys(d) + [k]
  {
    var s' := d.slots + [Some((k, v))];
    AppendedKeys(d, k, v);
    FindAppend(d.slots, Some((k, v)), k);
    forall k' | k' != k ensures Find(s', k') == Find(d.slots, k') {
      FindAppend(d.slots, Some((k, v)), k');
    }
    forall a, b | 0 <= a < b < |s'| && s'[a].Some? && s'[b].Some?
      ensures s'[a].value.0 != s'[b].value.0
    {
      if b == |d.slots| {
        assert !HasKeyAt(d.slots, a, k);
      }
    }
  }

  /** Appending an entry for an absent key appends the key to the
      enumeration, and dropping that key gives the old enumeration back. */
  lemma AppendedKeys<K(!new), V>(d: Dict<K, V>, k: K, v: V)
    requires Valid(d) && !ContainsKey(d, k)
    ensures Keys(Dict(d.slots + [Some((k, v))], d.free)) == Keys(d) + [k]
    ensures Without(Keys(d) + [k], k) == Keys(d)
  {
    KeysOfAppend(d.slots, [Some((k, v))]);
    assert KeysOf([Some((k, v))]) == [k];
    WithoutAppend(Keys(d), [k], k);
    KeysFind(d.slots, k);
    WithoutAbsent(Keys(d), k);
  }

  lemma FillFreeSlot<K(!new), V>(d: Dict<K, V>, k: K, v: V)
    requires Valid(d) && !ContainsKey(d, k) && |d.free| > 0
    ensures InsertedAs(d, Dict(d.slots[d.free[|d.free| - 1] := Some((k, v))], d.free[..|d.free| - 1]), k, v)
  {
    var i := d.free[|d.free| - 1];
    var s' := d.slots[i := Some((k, v))];
    forall j | 0 <= j < |s'| && j != i ensures !HasKeyAt(s', j, k) {
      assert !HasKeyAt(d.slots, j, k);
    }
    FindUnique(s', i, k);
    forall k' | k' != k ensures Find(s', k') == Find(d.slots, k') {
      FindUpdate(d.slots, i, Some((k, v)), k');
    }
    InsertKeys(d.slots, i, k, v);
    forall a, b | 0 <= a < b < |s'| && s'[a].Some? && s'[b].Some?
      ensures s'[a].value.0 != s'[b].value.0
    {
      if a == i {
        assert !HasKeyAt(s', b, k);
      } else if b == i {
        assert !HasKeyAt(s', a, k);
      }
    }
    var r := Dict(s', d.free[..|d.free| - 1]);
    assert forall n :: 0 <= n < |r.free| ==> r.free[n] != i;
  }

  /** `Remove`: vacates the key's slot and pushes it on the free list; an
      absent key changes nothing. */
  function Remove<K(==,!new), V>(d: Dict<K, V>, k: K): (r: Dict<K, V>)
    requires Valid(d)
    ensures Valid(r)
    ensures !ContainsKey(d, k) ==> r == d
    ensures Keys(r) == Without(Keys(d), k)
    ensures Get(r, k).None?
    ensures forall k' :: k' != k ==> Get(r, k') == Get(d, k')
  {
    match Find(d.slots, k)
    case None =>
      KeysFind(d.slots, k);
      WithoutAbsent(Keys(d), k);
      d
    case Some(i) =>
      RemoveSlot(d, i, k);
      Dict(d.slots[i := None], d.free + [i])
  }

  lemma RemoveSlot<K(!new), V>(d: Dict<K, V>, i: nat, k: K)
    requires Valid(d) && i < |d.slots| && HasKeyAt(d.slots, i, k)
    ensures Valid(Dict(d.slots[i := None], d.free + [i]))
    ensures KeysOf(d.slots[i := None]) == Without(Keys(d), k)
    ensures Find(d.slots[i := None], k).None?
    ensures forall k' :: k' != k ==> Find(d.slots[i := None], k') == Find(d.slots, k')
  {
    var s' := d.slots[i := None];
    forall k' | k' != k ensures Find(s', k') == Find(d.slots, k') {
      FindUpdate(d.slots, i, None, k');
    }
    RemoveKeys(d.slots, i, k);
    KeysFind(s', k);
    assert forall n :: 0 <= n < |d.free| ==> d.free[n] != i;
  }

  /** The indexer's setter: replaces the value of a present key in place,
      and adds an absent key as `Add` does. */
  function Set<K(==,!new), V>(d: Dict<K, V>, k: K, v: V): (r: Dict<K, V>)
    requires Valid(d)
    ensures Valid(r)
    ensures ContainsKey(d, k) ==> Keys(r) == Keys(d) && r.free == d.free
    ensures k in Keys(r)
    ensures Get(r, k) == Some(v)
    ensures forall k' :: k' != k ==> Get(r, k') == Get(d, k')
  {
    match Find(d.slots, k)
    case None => Insert(d, k, v)
    case Some(i) =>
      var s' := d.slots[i := Some((k, v))];
      FindUnique(s', i, k);
      forall k' | k' != k ensures Find(s', k') == Find(d.slots, k') {
        FindUpdate(d.slots, i, Some((k, v)), k');
      }
      SplitKeys(d.slots, i);
      SplitKeys(s', i);
      assert s'[..i] == d.slots[..i] && s'[i + 1..] == d.slots[i + 1..];
      KeysFind(s', k);
      Dict(s', d.free)
  }

  /** Enumeration never repeats a key, and a key is enumerated exactly when
      the dictionary holds it. */
  lemma KeysFaithful<K(!new), V>(d: Dict<K, V>)
    requires Valid(d)
    ensures NoDup(Keys(d))
    ensures forall k :: k in Keys(d) <==> Get(d, k).Some?
  {
    KeysNoDup(d.slots);
    forall k ensures k in Keys(d) <==> Get(d, k).Some? {
      KeysFind(d.slots, k);
    }
  }

  // ---- lemmas about slots ----

  lemma {:induction false} KeysOfAppend<K, V>(a: seq<Slot<K, V>>, b: seq<Slot<K, V>>)
    ensures KeysOf(a + b) == KeysOf(a) + KeysOf(b)
  {
    if a == [] {
      assert a + b == b;
    } else {
      var head := if a[0].Some? then [a[0].value.0] else [];
      assert (a + b)[0] == a[0];
      assert (a + b)[1..] == a[1..] + b;
      assert KeysOf(a + b) == head + KeysOf(a[1..] + b);
      KeysOfAppend(a[1..], b);
      assert KeysOf(a) == head + KeysOf(a[1..]);
    }
  }

  lemma KeysFind<K(!new), V>(s: seq<Slot<K, V>>, k: K)
    ensures k in KeysOf(s) <==> Find(s, k).Some?
  {
    if s != [] {
      KeysFind(s[1..], k);
    }
  }

  lemma KeysNoDup<K(!new), V>(s: seq<Slot<K, V>>)
    requires UniqueKeys(s)
    ensures NoDup(KeysOf(s))
  {
    if s != [] {
      KeysNoDup(s[1..]);
      if s[0].Some? {
        var k := s[0].value.0;
        KeysFind(s[1..], k);
      }
    }
  }

  /** With unique keys, the slot holding a key is the one `Find` returns. */
  lemma FindUnique<K(!new), V>(s: seq<Slot<K, V>>, i: nat, k: K)
    requires i < |s| && HasKeyAt(s, i, k)
    requires forall j :: 0 <= j < |s| && j != i ==> !HasKeyAt(s, j, k)
    ensures Find(s, k) == Some(i)
  {
    if i > 0 {
      assert forall j :: 0 <= j < |s| - 1 ==> HasKeyAt(s[1..], j, k) == HasKeyAt(s, j + 1, k);
      FindUnique(s[1..], i - 1, k);
    }
  }

  lemma FindAppend<K(!new), V>(s: seq<Slot<K, V>>, x: Slot<K, V>, k: K)
    ensures x.Some? && x.value.0 == k && Find(s, k).None? ==> Find(s + [x], k) == Some(|s|)
    ensures !(x.Some? && x.value.0 == k) ==> Find(s + [x], k) == Find(s, k)
  {
    if s != [] {
      assert (s + [x])[1..] == s[1..] + [x];
      FindAppend(s[1..], x, k);
    }
  }

  /** Overwriting a slot that neither held nor now holds `k` does not move
      `k`. */
  lemma FindUpdate<K(!new), V>(s: seq<Slot<K, V>>, i: nat, x: Slot<K, V>, k: K)
    requires i < |s|
    requires !HasKeyAt(s, i, k) && !(x.Some? && x.value.0 == k)
    ensures Find(s[i := x], k) == Find(s, k)
  {
    if i == 0 {
      assert s[i := x][1..] == s[1..];
    } else {
      assert s[i := x][1..] == s[1..][i - 1 := x];
      FindUpdate(s[1..], i - 1, x, k);
    }
  }

  lemma {:induction false} SplitKeys<K(!new), V>(s: seq<Slot<K, V>>, i: nat)
    requires i < |s|
    ensures KeysOf(s) == KeysOf(s[..i]) + KeysOf([s[i]]) + KeysOf(s[i + 1..])
  {
    var a, m, b := s[..i], [s[i]], s[i + 1..];
    assert s == a + m + b;
    KeysOfAppend(a + m, b);
    KeysOfAppend(a, m);
  }

  /** A key in the slots before or after `i` occupies some slot other than `i`. */
  lemma KeyOutsideSlot<K(!new), V>(s: seq<Slot<K, V>>, i: nat, k: K)
    requires i < |s|
    requires k in KeysOf(s[..i]) + KeysOf(s[i + 1..])
    ensures exists j :: 0 <= j < |s| && j != i && HasKeyAt(s, j, k)
  {
    if k in KeysOf(s[..i]) {
      KeysFind(s[..i], k);
      var j := Find(s[..i], k).value;
      assert HasKeyAt(s, j, k);
    } else {
      KeysFind(s[i + 1..], k);
      var j := Find(s[i + 1..], k).value;
      assert HasKeyAt(s, i + 1 + j, k);
    }
  }

  lemma InsertKeys<K(!new), V>(s: seq<Slot<K, V>>, i: nat, k: K, v: V)
    requires i < |s| && s[i].None?
    requires Find(s, k).None?
    ensures k in KeysOf(s[i := Some((k, v))])
    ensures Without(KeysOf(s[i := Some((k, v))]), k) == KeysOf(s)
  {
    var s' := s[i := Some((k, v))];
    SplitKeys(s, i);
    SplitKeys(s', i);
    assert s'[..i] == s[..i] && s'[i + 1..] == s[i + 1..];
    var a, b := KeysOf(s[..i]), KeysOf(s[i + 1..]);
    assert KeysOf([s[i]]) == [];
    assert KeysOf([s'[i]]) == [k];
    if k in a + b {
      KeyOutsideSlot(s, i, k);
    }
    WithoutAppend(a + [k], b, k);
    WithoutAppend(a, [k], k);
    WithoutAbsent(a, k);
    WithoutAbsent(b, k);
  }

  lemma RemoveKeys<K(!new), V>(s: seq<Slot<K, V>>, i: nat, k: K)
    requires i < |s| && HasKeyAt(s, i, k) && UniqueKeys(s)
    ensures KeysOf(s[i := None]) == Without(KeysOf(s), k)
  {
    var s' := s[i := None];
    SplitKeys(s, i);
    SplitKeys(s', i);
    assert s'[..i] == s[..i] && s'[i + 1..] == s[i + 1..];
    var a, b := KeysOf(s[..i]), KeysOf(s[i + 1..]);
    assert KeysOf([s[i]]) == [k];
    assert KeysOf([s'[i]]) == [];
    if k in a + b {
      KeyOutsideSlot(s, i, k);
    }
    WithoutAppend(a + [k], b, k);
    WithoutAppend(a, [k], k);
    WithoutAbsent(a, k);
    WithoutAbsent(b, k);
  }
}
