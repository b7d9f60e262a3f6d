/** `AliasAwareDict`: a dict whose keys are `AliasAwareString`s, so that two
    keys with the same representative are the same key. Python dicts keep
    insertion order, so both the caller's plain dict and the stored entries
    are modelled as ordered sequences of (key, value) items. */
module AliasDicts {
  import opened Wrappers
  import opened Space
  import opened AliasStrings

  // ---------------------------------------------------------------------
  // Plain dicts with `str` keys: the `data` and `**kwargs` arguments
  // ---------------------------------------------------------------------

  ghost function KeySet<V>(items: seq<(string, V)>): set<string>
    decreases |items|
  {
    if items == [] then {} else {items[0].0} + KeySet(items[1..])
  }

  /** No key occurs twice, as in any Python dict. */
  ghost predicate DistinctKeys<V>(items: seq<(string, V)>)
    decreases |items|
  {
    items == [] || (items[0].0 !in KeySet(items[1..]) && DistinctKeys(items[1..]))
  }

  lemma {:induction false} KeySetAppend<V>(a: seq<(string, V)>, b: seq<(string, V)>)
    ensures KeySet(a + b) == KeySet(a) + KeySet(b)
    decreases |a|
  {
    if a == [] {
      assert a + b == b;
    } else {
      assert (a + b)[1..] == a[1..] + b;
      KeySetAppend(a[1..], b);
    }
  }

  /** `d.get(k)`. */
  function Get<V>(items: seq<(string, V)>, k: string): (r: Option<V>)
    ensures r.None? <==> k !in KeySet(items)
    decreases |items|
  {
    if items == [] then None
    else if items[0].0 == k then Some(items[0].1)
    else Get(items[1..], k)
  }

  /** `d[k] = v`: an existing key keeps its place and takes the new value; a
      new key goes at the end. */
  function Put<V>(items: seq<(string, V)>, k: string, v: V): (r: seq<(string, V)>)
    ensures KeySet(r) == KeySet(items) + {k}
    ensures |r| == if k in KeySet(items) then |items| else |items| + 1
    ensures DistinctKeys(items) ==> DistinctKeys(r)
    ensures Get(r, k) == Some(v)
    ensures forall k' :: k' != k ==> Get(r, k') == Get(items, k')
    decreases |items|
  {
    if items == [] then [(k, v)]
    else if items[0].0 == k then [(k, v)] + items[1..]
    else [items[0]] + Put(items[1..], k, v)
  }

  /** `d.update(extra)`: the items of `extra`, in order, each as `d[k] = v`. */
  function Update<V>(items: seq<(string, V)>, extra: seq<(string, V)>): (r: seq<(string, V)>)
    ensures DistinctKeys(items) ==> DistinctKeys(r)
    ensures KeySet(r) == KeySet(items) + KeySet(extra)
    decreases |extra|
  {
    if extra == [] then items
    else Update(Put(items, extra[0].0, extra[0].1), extra[1..])
  }

  /** After `update`, a key of `extra` has `extra`'s value; any other key keeps
      its old one. */
  lemma {:induction false} UpdateOverrides<V>(items: seq<(string, V)>, extra: seq<(string, V)>, k: string)
    requires DistinctKeys(extra)
    ensures Get(Update(items, extra), k) == if Get(extra, k).Some? then Get(extra, k) else Get(items, k)
    decreases |extra|
  {
    if extra != [] {
      UpdateOverrides(Put(items, extra[0].0, extra[0].1), extra[1..], k);
    }
  }

  /** Updating with items whose keys are all new appends them in order; in
      particular `{}.update(kwargs)` is `kwargs`. */
  lemma {:induction false} UpdateWithNewKeys<V>(items: seq<(string, V)>, extra: seq<(string, V)>)
    requires DistinctKeys(extra) && KeySet(items) !! KeySet(extra)
    ensures Update(items, extra) == items + extra
    decreases |extra|
  {
    if extra != [] {
      var e, rest := extra[0], extra[1..];
      NewKeysStep(items, extra);
      UpdateNewFirst(items, extra);
      UpdateWithNewKeys(items + [e], rest);
      assert items + [e] + rest == items + extra;
    }
  }

  lemma NewKeysStep<V>(items: seq<(string, V)>, extra: seq<(string, V)>)
    requires extra != [] && DistinctKeys(extra) && KeySet(items) !! KeySet(extra)
    ensures extra[0].0 !in KeySet(items)
    ensures DistinctKeys(extra[1..]) && KeySet(items + [extra[0]]) !! KeySet(extra[1..])
  {
    var e := extra[0];
    assert KeySet(extra) == {e.0} + KeySet(extra[1..]);
    KeySetAppend(items, [e]);
    assert KeySet([e]) == {e.0} + KeySet([e][1..]);
  }

  lemma UpdateNewFirst<V>(items: seq<(string, V)>, extra: seq<(string, V)>)
    requires extra != [] && extra[0].0 !in KeySet(items)
    ensures Update(items, extra) == Update(items + [extra[0]], extra[1..])
  {
    PutNewKey(items, extra[0].0, extra[0].1);
  }

  lemma {:induction false} PutNewKey<V>(items: seq<(string, V)>, k: string, v: V)
    requires k !in KeySet(items)
    ensures Put(items, k, v) == items + [(k, v)]
    decreases |items|
  {
    if items != [] {
      PutNewKey(items[1..], k, v);
      assert [items[0]] + (items[1..] + [(k, v)]) == items + [(k, v)];
    }
  }

  /** A plain `dict` that the caller owns and `AliasAwareDict` may update. */
  class PlainDict<V> {
    var items: seq<(string, V)>

    ghost predicate Valid()
      reads this
    {
      DistinctKeys(items)
    }

    constructor (items: seq<(string, V)>)
      requires DistinctKeys(items)
      ensures this.items == items && Valid()
    {
      this.items := items;
    }
  }

  // ---------------------------------------------------------------------
  // The stored entries: keys compared through a key function `rep`
  // (for an `AliasAwareDict`, the representative of the key)
  // ---------------------------------------------------------------------

  type Stored<V> = seq<(AliasAwareString, V)>

  /** How the dict compares `AliasAwareString` keys: `__hash__` and `__eq__`
      both go through the representative. This is `Representative` as a
      function value, the form the generic lemmas below take their key
      function in. */
  function RepresentativeOf(k: AliasAwareString): string {
    k.Representative()
  }

  /** No two stored keys are equal. */
  ghost predicate DistinctReps<V>(entries: Stored<V>, rep: AliasAwareString -> string) {
    forall i, j :: 0 <= i < j < |entries| ==> rep(entries[i].0) != rep(entries[j].0)
  }

  /** The dict's probe for a key equal to one with representative `r`. */
  function FindRep<V>(entries: Stored<V>, rep: AliasAwareString -> string, r: string): (i: Option<nat>)
    ensures i.Some? ==> i.value < |entries| && rep(entries[i.value].0) == r
    ensures i.None? ==> forall j :: 0 <= j < |entries| ==> rep(entries[j].0) != r
    decreases |entries|
  {
    if entries == [] then None
    else if rep(entries[0].0) == r then Some(0)
    else
      match FindRep(entries[1..], rep, r)
      case Some(j) => Some(j + 1)
      case None =>
        assert forall j :: 0 < j < |entries| ==> entries[j] == entries[1..][j - 1];
        None
  }

  /** `_data[key] = v`: when an equal key is stored, it stays (the dict
      keeps the old key object) and only its value changes; otherwise the
      new item is appended. */
  function Store<V>(entries: Stored<V>, rep: AliasAwareString -> string, key: AliasAwareString, v: V): Stored<V> {
    match FindRep(entries, rep, rep(key))
    case Some(i) => entries[i := (entries[i].0, v)]
    case None => entries + [(key, v)]
  }

  datatype KeyError = KeyError

  /** `_data[key]`: the value under the key equal to `key`, or `KeyError`. */
  function GetEntry<V>(entries: Stored<V>, rep: AliasAwareString -> string, r: string): Result<V, KeyError> {
    match FindRep(entries, rep, r)
    case Some(i) => Ok(entries[i].1)
    case None => Err(KeyError)
  }

  /** `to_dict`: each stored key replaced by its representative. */
  function ToMap<V>(entries: Stored<V>, rep: AliasAwareString -> string): map<string, V>
    decreases |entries|
  {
    if entries == [] then map[]
    else
      var n := |entries| - 1;
      ToMap(entries[..n], rep)[rep(entries[n].0) := entries[n].1]
  }

  lemma {:induction false} ToMapKeys<V>(entries: Stored<V>, rep: AliasAwareString -> string, r: string)
    ensures r in ToMap(entries, rep) <==> exists i :: 0 <= i < |entries| && rep(entries[i].0) == r
    decreases |entries|
  {
    if entries != [] {
      var n := |entries| - 1;
      var init := entries[..n];
      ToMapKeys(init, rep, r);
      if r in ToMap(init, rep) {
        var i :| 0 <= i < |init| && rep(init[i].0) == r;
        assert entries[i] == init[i];
      }
      if exists i :: 0 <= i < |entries| && rep(entries[i].0) == r {
        var i :| 0 <= i < |entries| && rep(entries[i].0) == r;
        if i < n {
          assert init[i] == entries[i];
        }
      }
    }
  }

  /** In `to_dict`, the last item with a given representative decides its
      value. */
  lemma {:induction false} ToMapLastWins<V>(entries: Stored<V>, rep: AliasAwareString -> string, i: nat)
    requires i < |entries|
    requires forall l :: i < l < |entries| ==> rep(entries[l].0) != rep(entries[i].0)
    ensures rep(entries[i].0) in ToMap(entries, rep) && ToMap(entries, rep)[rep(entries[i].0)] == entries[i].1
    decreases |entries|
  {
    var n := |entries| - 1;
    if i < n {
      var init := entries[..n];
      forall l | i < l < |init| ensures rep(init[l].0) != rep(init[i].0) {
        assert init[l] == entries[l] && init[i] == entries[i];
      }
      ToMapLastWins(init, rep, i);
      assert init[i] == entries[i];
    }
  }

  lemma ToMapValue<V>(entries: Stored<V>, rep: AliasAwareString -> string, i: nat)
    requires DistinctReps(entries, rep) && i < |entries|
    ensures rep(entries[i].0) in ToMap(entries, rep) && ToMap(entries, rep)[rep(entries[i].0)] == entries[i].1
  {
    ToMapLastWins(entries, rep, i);
  }

  /** `to_dict` and `__getitem__` agree: a key is present in one exactly when
      it is in the other, with the same value. */
  lemma GetEntryAgreesWithToMap<V>(entries: Stored<V>, rep: AliasAwareString -> string, r: string)
    requires DistinctReps(entries, rep)
    ensures GetEntry(entries, rep, r) == if r in ToMap(entries, rep) then Ok(ToMap(entries, rep)[r]) else Err(KeyError)
  {
    ToMapKeys(entries, rep, r);
    var f := FindRep(entries, rep, r);
    if f.Some? {
      ToMapValue(entries, rep, f.value);
    }
  }

  /** The shape of a store: the old key objects stay in place, items with
      another representative are untouched, and a new item goes at the end. */
  lemma StoreShape<V>(entries: Stored<V>, rep: AliasAwareString -> string, key: AliasAwareString, v: V)
    ensures var s := Store(entries, rep, key, v);
      && |s| == (if FindRep(entries, rep, rep(key)).Some? then |entries| else |entries| + 1)
      && (forall j :: 0 <= j < |entries| ==> s[j].0 == entries[j].0)
      && (forall j :: 0 <= j < |entries| && rep(entries[j].0) != rep(key) ==> s[j] == entries[j])
      && (|s| > |entries| ==> s[|entries|] == (key, v))
  {
  }

  /** Storing keeps the stored keys pairwise distinct. */
  lemma StoreDistinct<V>(entries: Stored<V>, rep: AliasAwareString -> string, key: AliasAwareString, v: V)
    requires DistinctReps(entries, rep)
    ensures DistinctReps(Store(entries, rep, key, v), rep)
  {
  }

  /** Storing sets the value under the key's representative in `to_dict`. */
  lemma StoreToMap<V>(entries: Stored<V>, rep: AliasAwareString -> string, key: AliasAwareString, v: V)
    requires DistinctReps(entries, rep)
    ensures ToMap(Store(entries, rep, key, v), rep) == ToMap(entries, rep)[rep(key) := v]
  {
    var s := Store(entries, rep, key, v);
    var r := rep(key);
    StoreShape(entries, rep, key, v);
    StoreDistinct(entries, rep, key, v);
    forall r' ensures r' in ToMap(s, rep) <==> r' in ToMap(entries, rep)[r := v] {
      ToMapKeys(s, rep, r');
      ToMapKeys(entries, rep, r');
      if r' in ToMap(entries, rep) {
        var j :| 0 <= j < |entries| && rep(entries[j].0) == r';
        assert rep(s[j].0) == r';
      }
    }
    forall r' | r' in ToMap(s, rep) ensures ToMap(s, rep)[r'] == ToMap(entries, rep)[r := v][r'] {
      ToMapKeys(s, rep, r');
      var j :| 0 <= j < |s| && rep(s[j].0) == r';
      ToMapValue(s, rep, j);
      if r' != r {
        ToMapValue(entries, rep, j);
      }
    }
  }

  /** Storing keeps stored keys distinct, leaves every other item as it was,
      keeps the count when an equal key was present, and sets the value
      under the key's representative. */
  lemma StoreFacts<V>(entries: Stored<V>, rep: AliasAwareString -> string, key: AliasAwareString, v: V)
    requires DistinctReps(entries, rep)
    ensures var s := Store(entries, rep, key, v);
      && DistinctReps(s, rep)
      && ToMap(s, rep) == ToMap(entries, rep)[rep(key) := v]
      && |s| == (if rep(key) in ToMap(entries, rep) then |entries| else |entries| + 1)
      && (forall j :: 0 <= j < |entries| ==> s[j].0 == entries[j].0)
      && (forall j :: 0 <= j < |entries| && rep(entries[j].0) != rep(key) ==> s[j] == entries[j])
      && (|s| > |entries| ==> s[|entries|] == (key, v))
  {
    ToMapKeys(entries, rep, rep(key));
    StoreShape(entries, rep, key, v);
    StoreDistinct(entries, rep, key, v);
    StoreToMap(entries, rep, key, v);
  }

  /** Set-then-get through any key with the same representative returns the
      value just set; keys with other representatives are unaffected. */
  lemma SetThenGet<V>(entries: Stored<V>, rep: AliasAwareString -> string, key: AliasAwareString, v: V, probe: string)
    requires DistinctReps(entries, rep)
    ensures probe == rep(key) ==> GetEntry(Store(entries, rep, key, v), rep, probe) == Ok(v)
    ensures probe != rep(key) ==> GetEntry(Store(entries, rep, key, v), rep, probe) == GetEntry(entries, rep, probe)
  {
    StoreFacts(entries, rep, key, v);
    GetEntryAgreesWithToMap(Store(entries, rep, key, v), rep, probe);
    GetEntryAgreesWithToMap(entries, rep, probe);
  }

  /** `space.str` on a plain key, as a function value for `FromItems`. */
  function Wrapper(space: AliasSpace): string -> AliasAwareString {
    k => Make(space, Plain(k))
  }

  /** The comprehension `{wrap(key): value for key, value in items}`. */
  function FromItems<V>(items: seq<(string, V)>, wrap: string -> AliasAwareString, rep: AliasAwareString -> string): (r: Stored<V>)
    ensures DistinctReps(r, rep)
    decreases |items|
  {
    if items == [] then []
    else
      var n := |items| - 1;
      var prev := FromItems(items[..n], wrap, rep);
      StoreDistinct(prev, rep, wrap(items[n].0), items[n].1);
      Store(prev, rep, wrap(items[n].0), items[n].1)
  }

  /** The items with every key wrapped, before any merging of equal keys. */
  function Wrapped<V>(items: seq<(string, V)>, wrap: string -> AliasAwareString): (r: Stored<V>)
    ensures |r| == |items| && forall i :: 0 <= i < |items| ==> r[i] == (wrap(items[i].0), items[i].1)
  {
    seq(|items|, i requires 0 <= i < |items| => (wrap(items[i].0), items[i].1))
  }

  /** Merging equal keys while storing does not change `to_dict`. */
  lemma {:induction false} FromItemsToMap<V>(items: seq<(string, V)>, wrap: string -> AliasAwareString, rep: AliasAwareString -> string)
    ensures ToMap(FromItems(items, wrap, rep), rep) == ToMap(Wrapped(items, wrap), rep)
    decreases |items|
  {
    if items != [] {
      var n := |items| - 1;
      FromItemsToMap(items[..n], wrap, rep);
      StoreToMap(FromItems(items[..n], wrap, rep), rep, wrap(items[n].0), items[n].1);
      assert Wrapped(items, wrap)[..n] == Wrapped(items[..n], wrap);
    }
  }

  /** One entry per representative among the keys... */
  lemma FromItemsKeys<V>(items: seq<(string, V)>, wrap: string -> AliasAwareString, rep: AliasAwareString -> string, r: string)
    ensures r in ToMap(FromItems(items, wrap, rep), rep) <==> exists i :: 0 <= i < |items| && rep(wrap(items[i].0)) == r
  {
    var w := Wrapped(items, wrap);
    FromItemsToMap(items, wrap, rep);
    ToMapKeys(w, rep, r);
    if exists i :: 0 <= i < |items| && rep(wrap(items[i].0)) == r {
      var i :| 0 <= i < |items| && rep(wrap(items[i].0)) == r;
      assert rep(w[i].0) == r;
    }
  }

  /** ...holding the value of the LAST item whose key has that representative. */
  lemma FromItemsLastWins<V>(items: seq<(string, V)>, wrap: string -> AliasAwareString, rep: AliasAwareString -> string, i: nat)
    requires i < |items|
    requires forall l :: i < l < |items| ==> rep(wrap(items[l].0)) != rep(wrap(items[i].0))
    ensures var m := ToMap(FromItems(items, wrap, rep), rep);
      rep(wrap(items[i].0)) in m && m[rep(wrap(items[i].0))] == items[i].1
  {
    var w := Wrapped(items, wrap);
    FromItemsToMap(items, wrap, rep);
    ToMapLastWins(w, rep, i);
  }

  /** Run the comprehension of `AliasAwareDict.__init__` over `items`. */
  method BuildEntries<V>(space: AliasSpace, items: seq<(string, V)>) returns (built: Stored<V>)
    ensures built == FromItems(items, Wrapper(space), RepresentativeOf)
    ensures forall j :: 0 <= j < |built| ==> built[j].0.space == space
  {
    var wrap := Wrapper(space);
    built := [];
    var i := 0;
    while i < |items|
      invariant 0 <= i <= |items|
      invariant built == FromItems(items[..i], wrap, RepresentativeOf)
      invariant forall j :: 0 <= j < |built| ==> built[j].0.space == space
    {
      assert items[..i + 1][..i] == items[..i];
      StoreShape(built, RepresentativeOf, wrap(items[i].0), items[i].1);
      built := Store(built, RepresentativeOf, wrap(items[i].0), items[i].1);
      i := i + 1;
    }
    assert items[..i] == items;
  }

  // ---------------------------------------------------------------------
  // The dict object
  // ---------------------------------------------------------------------

  class AliasAwareDict<V> {
    const space: AliasSpace
    var entries: Stored<V>

    /** Every key lives in this dict's space and no two keys are equal. */
    ghost predicate Valid()
      reads this
    {
      && (forall i :: 0 <= i < |entries| ==> entries[i].0.space == space)
      && DistinctReps(entries, RepresentativeOf)
    }

    /** `__init__`: `data or {}`, then `update(**kwargs)` on it (mutating the
        caller's dict when it is a non-empty one), then the comprehension. */
    constructor (space: AliasSpace, data: PlainDict?<V>, kwargs: seq<(string, V)>)
      requires DistinctKeys(kwargs)
      requires data != null ==> data.Valid()
      modifies data
      ensures this.space == space && Valid()
      ensures data != null && old(data.items) != [] ==> data.items == Update(old(data.items), kwargs)
      ensures data != null && old(data.items) == [] ==> data.items == []
      ensures entries == FromItems(if data != null && old(data.items) != [] then Update(old(data.items), kwargs) else kwargs,
                                   Wrapper(space), RepresentativeOf)
    {
      this.space := space;
      var merged: seq<(string, V)>;
      if data != null && data.items != [] {
        data.items := Update(data.items, kwargs);
        merged := data.items;
      } else {
        UpdateWithNewKeys([], kwargs);
        assert [] + kwargs == kwargs;
        merged := Update([], kwargs);
      }
      var built := BuildEntries(space, merged);
      entries := built;
    }

    /** `to_dict`. */
    function ToDict(): map<string, V>
      reads this
    {
      ToMap(entries, RepresentativeOf)
    }

    /** `__getitem__`: the value under the item's representative, or `KeyError`. */
    function GetItem(item: Operand): (r: Result<V, KeyError>)
      requires Valid()
      reads this
      ensures var rep := Make(space, item).Representative();
        r == if rep in ToDict() then Ok(ToDict()[rep]) else Err(KeyError)
    {
      GetEntryAgreesWithToMap(entries, RepresentativeOf, Make(space, item).Representative());
      GetEntry(entries, RepresentativeOf, Make(space, item).Representative())
    }

    /** `__setitem__`. */
    method SetItem(key: Operand, v: V)
      requires Valid()
      modifies this
      ensures Valid()
      ensures entries == Store(old(entries), RepresentativeOf, Make(space, key), v)
      ensures ToDict() == old(ToDict())[Make(space, key).Representative() := v]
      ensures |entries| == if Make(space, key).Representative() in old(ToDict()) then |old(entries)| else |old(entries)| + 1
    {
      StoreFacts(entries, RepresentativeOf, Make(space, key), v);
      entries := Store(entries, RepresentativeOf, Make(space, key), v);
    }
  }

  /** `s.dict(holland=12345)["nl"] == 12345` in the case-insensitive
      Netherlands space. */
  lemma NetherlandsDictExample(sp: AliasSpace)
    requires sp.aliases == [("The Netherlands", ["NL", "Netherlands", "Holland"])] && !sp.caseSensitive
    requires forall s :: sp.processFunc(s) == s
    ensures var stored := FromItems([("holland", 12345)], Wrapper(sp), RepresentativeOf);
      && GetEntry(stored, RepresentativeOf, Make(sp, Plain("nl")).Representative()) == Ok(12345)
      && ToMap(stored, RepresentativeOf) == map["The Netherlands" := 12345]
  {
    assert IsNetherlandsSpace(sp);
    NetherlandsAbbreviation(sp);
    NetherlandsHolland(sp);
    var stored := FromItems([("holland", 12345)], Wrapper(sp), RepresentativeOf);
    assert [("holland", 12345)][..0] == [];
    assert stored == [(Make(sp, Plain("holland")), 12345)];
  }

  /** The same scenario through the objects: a fresh space, `s.dict(holland=12345)`,
      then `["nl"]` and `to_dict()`. */
  method NetherlandsDict() returns (hit: Result<int, KeyError>, asDict: map<string, int>)
    ensures hit == Ok(12345)
    ensures asDict == map["The Netherlands" := 12345]
  {
    var sp := new AliasSpace([("The Netherlands", ["NL", "Netherlands", "Holland"])], false, None, None);
    NetherlandsDictExample(sp);
    var d := new AliasAwareDict(sp, null, [("holland", 12345)]);
    hit := d.GetItem(Plain("nl"));
    asDict := d.ToDict();
  }
}
