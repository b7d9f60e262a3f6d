/** `AliasSpace`: a table of representatives and their aliases, a
    normalisation step (optional lower-casing, then a user function), and a
    lazily built lookup table from normalised alias to representative. */
module Space {
  import opened Wrappers
  import opened StringFunctions

  /** One item of the `data` dict, in the dict's iteration order:
      a representative and the list of its aliases. */
  type Entry = (string, seq<string>)

  /** Some alias of `e` normalises to `k`. */
  ghost predicate HasAliasKey(e: Entry, pre: string -> string, k: string) {
    exists j :: 0 <= j < |e.1| && pre(e.1[j]) == k
  }

  /** Some representative normalises to `k`. */
  ghost predicate IsRepKey(entries: seq<Entry>, pre: string -> string, k: string) {
    exists i :: 0 <= i < |entries| && pre(entries[i].0) == k
  }

  /** Some alias of some entry normalises to `k`. */
  ghost predicate IsAliasKey(entries: seq<Entry>, pre: string -> string, k: string) {
    exists i :: 0 <= i < |entries| && HasAliasKey(entries[i], pre, k)
  }

  // ---------------------------------------------------------------------
  // The table `create_mapper` builds, as functions of `data` and `preprocess`
  // ---------------------------------------------------------------------

  /** The comprehension restricted to one entry: each alias, in list order,
      sets `preprocess(alias)` to the representative. */
  function GroupTable(rep: string, aliases: seq<string>, pre: string -> string): map<string, string>
    decreases |aliases|
  {
    if aliases == [] then map[]
    else GroupTable(rep, aliases[..|aliases| - 1], pre)[pre(aliases[|aliases| - 1]) := rep]
  }

  /** The dict comprehension over all entries: a later entry overwrites an
      earlier one on the same key. */
  function AliasTable(entries: seq<Entry>, pre: string -> string): map<string, string>
    decreases |entries|
  {
    if entries == [] then map[]
    else
      var e := entries[|entries| - 1];
      AliasTable(entries[..|entries| - 1], pre) + GroupTable(e.0, e.1, pre)
  }

  /** The loop that then makes every representative its own alias. */
  function RepresentativePass(table: map<string, string>, entries: seq<Entry>, pre: string -> string): map<string, string>
    decreases |entries|
  {
    if entries == [] then table
    else
      var rep := entries[|entries| - 1].0;
      RepresentativePass(table, entries[..|entries| - 1], pre)[pre(rep) := rep]
  }

  /** The full result of `create_mapper`. */
  function MapperOf(entries: seq<Entry>, pre: string -> string): map<string, string> {
    RepresentativePass(AliasTable(entries, pre), entries, pre)
  }

  // ---------------------------------------------------------------------
  // Facts about the two passes
  // ---------------------------------------------------------------------

  lemma {:induction false} GroupTableFacts(rep: string, aliases: seq<string>, pre: string -> string, k: string)
    ensures k in GroupTable(rep, aliases, pre) <==> HasAliasKey((rep, aliases), pre, k)
    ensures k in GroupTable(rep, aliases, pre) ==> GroupTable(rep, aliases, pre)[k] == rep
    decreases |aliases|
  {
    if aliases != [] {
      var init := aliases[..|aliases| - 1];
      GroupTableFacts(rep, init, pre, k);
      if HasAliasKey((rep, init), pre, k) {
        var j :| 0 <= j < |init| && pre(init[j]) == k;
        assert aliases[j] == init[j];
      }
      if HasAliasKey((rep, aliases), pre, k) {
        var j :| 0 <= j < |aliases| && pre(aliases[j]) == k;
        if j < |init| {
          assert init[j] == aliases[j];
        }
      }
    }
  }

  lemma {:induction false} AliasTableKeys(entries: seq<Entry>, pre: string -> string, k: string)
    ensures k in AliasTable(entries, pre) <==> IsAliasKey(entries, pre, k)
    decreases |entries|
  {
    if entries != [] {
      var init, e := entries[..|entries| - 1], entries[|entries| - 1];
      AliasTableKeys(init, pre, k);
      GroupTableFacts(e.0, e.1, pre, k);
      if IsAliasKey(init, pre, k) {
        var i :| 0 <= i < |init| && HasAliasKey(init[i], pre, k);
        assert entries[i] == init[i];
      }
      if IsAliasKey(entries, pre, k) {
        var i :| 0 <= i < |entries| && HasAliasKey(entries[i], pre, k);
        if i < |init| {
          assert init[i] == entries[i];
        }
      }
    }
  }

  /** A key of the alias pass maps to the representative of the LAST entry
      that has an alias with that key. */
  lemma {:induction false} AliasTableLastWins(entries: seq<Entry>, pre: string -> string, k: string, i: nat)
    requires i < |entries| && HasAliasKey(entries[i], pre, k)
    requires forall l :: i < l < |entries| ==> !HasAliasKey(entries[l], pre, k)
    ensures k in AliasTable(entries, pre) && AliasTable(entries, pre)[k] == entries[i].0
    decreases |entries|
  {
    var init, e := entries[..|entries| - 1], entries[|entries| - 1];
    GroupTableFacts(e.0, e.1, pre, k);
    if i < |init| {
      assert init[i] == entries[i];
      forall l | i < l < |init| ensures !HasAliasKey(init[l], pre, k) {
        assert init[l] == entries[l];
      }
      AliasTableLastWins(init, pre, k, i);
    }
  }

  /** Every value of the alias pass is the representative of an entry that
      has an alias with that key. */
  lemma {:induction false} AliasTableValues(entries: seq<Entry>, pre: string -> string, k: string)
    requires k in AliasTable(entries, pre)
    ensures exists i :: 0 <= i < |entries| && HasAliasKey(entries[i], pre, k) && AliasTable(entries, pre)[k] == entries[i].0
    decreases |entries|
  {
    var init, e := entries[..|entries| - 1], entries[|entries| - 1];
    GroupTableFacts(e.0, e.1, pre, k);
    if k in GroupTable(e.0, e.1, pre) {
      assert HasAliasKey(entries[|entries| - 1], pre, k);
    } else {
      AliasTableValues(init, pre, k);
      var i :| 0 <= i < |init| && HasAliasKey(init[i], pre, k) && AliasTable(init, pre)[k] == init[i].0;
      assert entries[i] == init[i];
    }
  }

  lemma {:induction false} RepresentativePassKeys(table: map<string, string>, entries: seq<Entry>, pre: string -> string, k: string)
    ensures k in RepresentativePass(table, entries, pre) <==> k in table || IsRepKey(entries, pre, k)
    ensures !IsRepKey(entries, pre, k) && k in table ==> RepresentativePass(table, entries, pre)[k] == table[k]
    decreases |entries|
  {
    if entries != [] {
      var init := entries[..|entries| - 1];
      RepresentativePassKeys(table, init, pre, k);
      if IsRepKey(init, pre, k) {
        var i :| 0 <= i < |init| && pre(init[i].0) == k;
        assert entries[i] == init[i];
      }
      if IsRepKey(entries, pre, k) {
        var i :| 0 <= i < |entries| && pre(entries[i].0) == k;
        if i < |init| {
          assert init[i] == entries[i];
        }
      }
    }
  }

  /** A representative key maps to the LAST representative with that key,
      whatever the table held before. */
  lemma {:induction false} RepresentativePassLastWins(table: map<string, string>, entries: seq<Entry>, pre: string -> string, i: nat)
    requires i < |entries|
    requires forall l :: i < l < |entries| ==> pre(entries[l].0) != pre(entries[i].0)
    ensures pre(entries[i].0) in RepresentativePass(table, entries, pre)
    ensures RepresentativePass(table, entries, pre)[pre(entries[i].0)] == entries[i].0
    decreases |entries|
  {
    var init := entries[..|entries| - 1];
    if i < |init| {
      assert init[i] == entries[i];
      forall l | i < l < |init| ensures pre(init[l].0) != pre(init[i].0) {
        assert init[l] == entries[l];
      }
      RepresentativePassLastWins(table, init, pre, i);
    }
  }

  /** The last representative with a given key exists whenever one does. */
  lemma {:induction false} LastRepresentative(entries: seq<Entry>, pre: string -> string, k: string) returns (i: nat)
    requires IsRepKey(entries, pre, k)
    ensures i < |entries| && pre(entries[i].0) == k
    ensures forall l :: i < l < |entries| ==> pre(entries[l].0) != k
    decreases |entries|
  {
    var n := |entries| - 1;
    if pre(entries[n].0) == k {
      i := n;
    } else {
      var init := entries[..n];
      var w :| 0 <= w < |entries| && pre(entries[w].0) == k;
      assert init[w] == entries[w];
      i := LastRepresentative(init, pre, k);
      assert entries[i] == init[i];
      forall l | i < l < |entries| ensures pre(entries[l].0) != k {
        if l < n {
          assert init[l] == entries[l];
        }
      }
    }
  }

  /** The last entry whose aliases include a given key exists whenever one does. */
  lemma {:induction false} LastAliasEntry(entries: seq<Entry>, pre: string -> string, k: string) returns (i: nat)
    requires IsAliasKey(entries, pre, k)
    ensures i < |entries| && HasAliasKey(entries[i], pre, k)
    ensures forall l :: i < l < |entries| ==> !HasAliasKey(entries[l], pre, k)
    decreases |entries|
  {
    var n := |entries| - 1;
    if HasAliasKey(entries[n], pre, k) {
      i := n;
    } else {
      var init := entries[..n];
      var w :| 0 <= w < |entries| && HasAliasKey(entries[w], pre, k);
      assert init[w] == entries[w];
      i := LastAliasEntry(init, pre, k);
      assert entries[i] == init[i];
      forall l | i < l < |entries| ensures !HasAliasKey(entries[l], pre, k) {
        if l < n {
          assert init[l] == entries[l];
        }
      }
    }
  }

  // ---------------------------------------------------------------------
  // What the finished table contains
  // ---------------------------------------------------------------------

  /** The keys of the table are exactly the normalised representatives and
      the normalised aliases. */
  lemma MapperKeys(entries: seq<Entry>, pre: string -> string, k: string)
    ensures k in MapperOf(entries, pre) <==> IsRepKey(entries, pre, k) || IsAliasKey(entries, pre, k)
  {
    AliasTableKeys(entries, pre, k);
    RepresentativePassKeys(AliasTable(entries, pre), entries, pre, k);
  }

  /** Every value of the table is a representative, and the key it is found
      under is that representative's own key or the key of one of its aliases. */
  lemma MapperValues(entries: seq<Entry>, pre: string -> string, k: string)
    requires k in MapperOf(entries, pre)
    ensures exists i :: 0 <= i < |entries| && MapperOf(entries, pre)[k] == entries[i].0
                        && (pre(entries[i].0) == k || HasAliasKey(entries[i], pre, k))
  {
    var m := MapperOf(entries, pre);
    RepresentativePassKeys(AliasTable(entries, pre), entries, pre, k);
    if IsRepKey(entries, pre, k) {
      var i := LastRepresentative(entries, pre, k);
      RepresentativePassLastWins(AliasTable(entries, pre), entries, pre, i);
      assert m[k] == entries[i].0;
    } else {
      AliasTableValues(entries, pre, k);
    }
  }

  /** Representatives beat aliases: a key that is some representative's key
      maps to the last representative with that key, even when an alias of a
      later entry has the same key. Reflexivity is the case where
      `entries[i].0` is that last representative. */
  lemma RepresentativeWins(entries: seq<Entry>, pre: string -> string, i: nat)
    requires i < |entries|
    requires forall l :: i < l < |entries| ==> pre(entries[l].0) != pre(entries[i].0)
    ensures pre(entries[i].0) in MapperOf(entries, pre)
    ensures MapperOf(entries, pre)[pre(entries[i].0)] == entries[i].0
  {
    RepresentativePassLastWins(AliasTable(entries, pre), entries, pre, i);
  }

  /** Among aliases that share a key (and no representative has it), the one
      in the latest entry decides the representative. */
  lemma AliasLastWins(entries: seq<Entry>, pre: string -> string, k: string, i: nat)
    requires i < |entries| && HasAliasKey(entries[i], pre, k)
    requires forall l :: i < l < |entries| ==> !HasAliasKey(entries[l], pre, k)
    requires !IsRepKey(entries, pre, k)
    ensures k in MapperOf(entries, pre) && MapperOf(entries, pre)[k] == entries[i].0
  {
    AliasTableLastWins(entries, pre, k, i);
    RepresentativePassKeys(AliasTable(entries, pre), entries, pre, k);
  }

  /** A key that is no representative's resolves to the representative of
      the last entry that lists an alias with that key. */
  lemma AliasKeyResolvesToLastEntry(entries: seq<Entry>, pre: string -> string, k: string) returns (i: nat)
    requires k in MapperOf(entries, pre) && !IsRepKey(entries, pre, k)
    ensures i < |entries| && HasAliasKey(entries[i], pre, k)
    ensures forall l :: i < l < |entries| ==> !HasAliasKey(entries[l], pre, k)
    ensures MapperOf(entries, pre)[k] == entries[i].0
  {
    MapperKeys(entries, pre, k);
    i := LastAliasEntry(entries, pre, k);
    AliasLastWins(entries, pre, k, i);
  }

  /** Processed representatives are pairwise distinct. */
  ghost predicate DistinctRepKeys(entries: seq<Entry>, pre: string -> string) {
    forall i, j :: 0 <= i < j < |entries| ==> pre(entries[i].0) != pre(entries[j].0)
  }

  /** When no two representatives share a key, a representative found in the
      table maps back to itself. */
  lemma RepresentativeFixed(entries: seq<Entry>, pre: string -> string, k: string)
    requires DistinctRepKeys(entries, pre)
    requires k in MapperOf(entries, pre)
    ensures var r := MapperOf(entries, pre)[k]; pre(r) in MapperOf(entries, pre) && MapperOf(entries, pre)[pre(r)] == r
  {
    MapperValues(entries, pre, k);
    var i :| 0 <= i < |entries| && MapperOf(entries, pre)[k] == entries[i].0
             && (pre(entries[i].0) == k || HasAliasKey(entries[i], pre, k));
    forall l | i < l < |entries| ensures pre(entries[l].0) != pre(entries[i].0) {
      assert pre(entries[i].0) != pre(entries[l].0);
    }
    RepresentativeWins(entries, pre, i);
  }

  // One iteration of each loop of `create_mapper`.

  lemma GroupTableStep(before: map<string, string>, rep: string, group: seq<string>, j: nat, pre: string -> string)
    requires j < |group|
    ensures (before + GroupTable(rep, group[..j], pre))[pre(group[j]) := rep] == before + GroupTable(rep, group[..j + 1], pre)
  {
    assert group[..j + 1][..j] == group[..j];
  }

  lemma AliasTableStep(entries: seq<Entry>, i: nat, pre: string -> string)
    requires i < |entries|
    ensures AliasTable(entries[..i + 1], pre) == AliasTable(entries[..i], pre) + GroupTable(entries[i].0, entries[i].1, pre)
  {
    assert entries[..i + 1][..i] == entries[..i];
  }

  lemma RepresentativePassStep(table: map<string, string>, entries: seq<Entry>, k: nat, pre: string -> string)
    requires k < |entries|
    ensures RepresentativePass(table, entries[..k + 1], pre)
         == RepresentativePass(table, entries[..k], pre)[pre(entries[k].0) := entries[k].0]
  {
    assert entries[..k + 1][..k] == entries[..k];
  }

  /** The comprehension's inner `for a in aliases`: one entry's aliases
      written into the table, in list order. */
  method AddGroup(table: map<string, string>, rep: string, group: seq<string>, pre: string -> string)
    returns (result: map<string, string>)
    ensures result == table + GroupTable(rep, group, pre)
  {
    result := table;
    var j := 0;
    while j < |group|
      invariant 0 <= j <= |group|
      invariant result == table + GroupTable(rep, group[..j], pre)
    {
      GroupTableStep(table, rep, group, j, pre);
      result := result[pre(group[j]) := rep];
      j := j + 1;
    }
    assert group[..j] == group;
  }

  // ---------------------------------------------------------------------
  // Lookups
  // ---------------------------------------------------------------------

  /** What `get_representative` returns: a string (the representative, or the
      input itself) or the caller's `missing` value. */
  datatype Resolved<T> = Str(str: string) | Other(other: T)

  /** `mapper.get(key, missing)` followed by the sentinel check. */
  function Resolve<T>(table: map<string, string>, key: string, s: string, missing: Option<T>): Resolved<T> {
    if key in table then Str(table[key])
    else if missing.Some? then Other(missing.value)
    else Str(s)
  }

  /** The state of the `_mapper` cache. */
  datatype Cache = Unbuilt | Built(table: map<string, string>)

  class AliasSpace {
    const aliases: seq<Entry>
    const caseSensitive: bool
    const processFunc: string -> string
    const name: Option<string>
    var cache: Cache

    /** The cache, once built, holds the table `data` determines. */
    ghost predicate Valid()
      reads this
    {
      cache.Built? ==> cache.table == Table()
    }

    constructor (data: seq<Entry>, caseSensitive: bool, processFunc: Option<string -> string>, name: Option<string>)
      ensures aliases == data && this.caseSensitive == caseSensitive && this.name == name
      ensures processFunc.Some? ==> forall s :: this.processFunc(s) == processFunc.value(s)
      ensures processFunc.None? ==> forall s :: this.processFunc(s) == s
      ensures cache == Unbuilt && Valid()
    {
      var identity: string -> string := s => s;
      var chosen: string -> string := if processFunc.Some? then processFunc.value else identity;
      aliases := data;
      this.caseSensitive := caseSensitive;
      this.processFunc := chosen;
      this.name := name;
      cache := Unbuilt;
    }

    /** `preprocess`: lower-case unless case-sensitive, then `process_func`. */
    function Preprocess(s: string): string {
      processFunc(if caseSensitive then s else Lowercased(s))
    }

    /** `preprocess` as a function value, the form the table functions and
        their lemmas take it in. */
    function Pre(): string -> string {
      s => Preprocess(s)
    }

    /** The table `create_mapper` returns. */
    function Table(): map<string, string> {
      MapperOf(aliases, Pre())
    }

    /** Case-insensitive spaces do not tell a string from its lower-cased form. */
    lemma PreprocessIgnoresCase(s: string)
      requires !caseSensitive
      ensures Preprocess(s) == Preprocess(Lowercased(s))
    {
      LowercasedIdempotent(s);
    }

    /** `create_mapper`: the comprehension over the aliases, then the loop
      over the representatives. */
    method CreateMapper() returns (result: map<string, string>)
      ensures result == Table()
    {
      var pre := Pre();
      result := map[];
      var i := 0;
      while i < |aliases|
        invariant 0 <= i <= |aliases|
        invariant result == AliasTable(aliases[..i], pre)
      {
        AliasTableStep(aliases, i, pre);
        result := AddGroup(result, aliases[i].0, aliases[i].1, pre);
        i := i + 1;
      }
      assert aliases[..i] == aliases;
      var k := 0;
      while k < |aliases|
        invariant 0 <= k <= |aliases|
        invariant result == RepresentativePass(AliasTable(aliases, pre), aliases[..k], pre)
      {
        RepresentativePassStep(AliasTable(aliases, pre), aliases, k, pre);
        result := result[pre(aliases[k].0) := aliases[k].0];
        k := k + 1;
      }
      assert aliases[..k] == aliases;
    }

    /** The `mapper` property: build the table on first use, reuse it after. */
    method Mapper() returns (m: map<string, string>)
      requires Valid()
      modifies this`cache
      ensures Valid() && cache == Built(m) && m == Table()
      ensures old(cache).Built? ==> cache == old(cache)
    {
      if cache.Unbuilt? {
        var t := CreateMapper();
        cache := Built(t);
      }
      m := cache.table;
    }

    /** `get_representative` without its side effect on the cache. */
    function Lookup<T>(s: string, missing: Option<T>): (r: Resolved<T>)
      ensures missing.None? ==> r.Str?
    {
      Resolve(Table(), Preprocess(s), s, missing)
    }

    /** `get_representative(string, missing)`. */
    method GetRepresentative<T>(s: string, missing: Option<T>) returns (r: Resolved<T>)
      requires Valid()
      modifies this`cache
      ensures Valid() && cache == Built(Table())
      ensures old(cache).Built? ==> cache == old(cache)
      ensures r == Lookup(s, missing)
    {
      var m := Mapper();
      r := Resolve(m, Preprocess(s), s, missing);
    }

    /** `map(strings, missing, return_list=True)`. */
    method Map<T>(strings: seq<string>, missing: Option<T>) returns (r: seq<Resolved<T>>)
      requires Valid()
      modifies this`cache
      ensures Valid()
      ensures old(cache).Built? || strings == [] ==> cache == old(cache)
      ensures strings != [] ==> cache == Built(Table())
      ensures |r| == |strings|
      ensures forall i :: 0 <= i < |strings| ==> r[i] == Lookup(strings[i], missing)
    {
      r := [];
      var i := 0;
      while i < |strings|
        invariant 0 <= i <= |strings| && |r| == i
        invariant Valid()
        invariant old(cache).Built? || i == 0 ==> cache == old(cache)
        invariant i > 0 ==> cache == Built(Table())
        invariant forall j :: 0 <= j < i ==> r[j] == Lookup(strings[j], missing)
      {
        var x := GetRepresentative(strings[i], missing);
        r := r + [x];
        i := i + 1;
      }
    }

    /** `__repr__`. */
    function ToRepr(): (r: string)
      ensures |r| >= 10 && r[..10] == "AliasSpace"
      ensures name.None? <==> |r| == 10
      ensures name.Some? ==> r[10..] == " " + name.value
    {
      if name.None? then "AliasSpace" else "AliasSpace " + name.value
    }

    // -------------------------------------------------------------------
    // Lookup behaviour stated in terms of `data`
    // -------------------------------------------------------------------

    /** Reflexivity: a representative resolves to itself unless a later
        representative normalises to the same key. */
    lemma RepresentativeResolvesToItself<T>(i: nat, missing: Option<T>)
      requires i < |aliases|
      requires forall l :: i < l < |aliases| ==> Preprocess(aliases[l].0) != Preprocess(aliases[i].0)
      ensures Lookup(aliases[i].0, missing) == Str(aliases[i].0)
    {
      RepresentativeWins(aliases, Pre(), i);
    }

    /** An alias resolves to its entry's representative when no other
        representative and no later entry's alias share its key. The entry's
        own representative may share it. */
    lemma AliasResolvesToRepresentative<T>(i: nat, j: nat, missing: Option<T>)
      requires i < |aliases| && j < |aliases[i].1|
      requires var k := Preprocess(aliases[i].1[j]);
        && (forall l :: 0 <= l < |aliases| && Preprocess(aliases[l].0) == k ==> l == i)
        && (forall l, m :: i < l < |aliases| && 0 <= m < |aliases[l].1| ==> Preprocess(aliases[l].1[m]) != k)
      ensures Lookup(aliases[i].1[j], missing) == Str(aliases[i].0)
    {
      var pre := Pre();
      var k := Preprocess(aliases[i].1[j]);
      if Preprocess(aliases[i].0) == k {
        RepresentativeWins(aliases, pre, i);
      } else {
        assert HasAliasKey(aliases[i], pre, k);
        AliasLastWins(aliases, pre, k, i);
      }
    }

    /** A string whose key is neither a representative's nor an alias's comes
        back unchanged, or as the supplied `missing` value. */
    lemma UnknownStringMisses<T>(s: string, v: T)
      requires forall l :: 0 <= l < |aliases| ==> Preprocess(aliases[l].0) != Preprocess(s)
      requires forall l, m :: 0 <= l < |aliases| && 0 <= m < |aliases[l].1| ==> Preprocess(aliases[l].1[m]) != Preprocess(s)
      ensures Lookup<T>(s, None) == Str(s)
      ensures Lookup(s, Some(v)) == Other(v)
    {
      MapperKeys(aliases, Pre(), Preprocess(s));
    }

    /** A hit is always one of the representatives. */
    lemma HitIsRepresentative<T>(s: string, missing: Option<T>)
      requires Preprocess(s) in Table()
      ensures exists i :: 0 <= i < |aliases| && Lookup(s, missing) == Str(aliases[i].0)
    {
      MapperValues(aliases, Pre(), Preprocess(s));
    }

    /** Two strings with the same key resolve alike when the key is known. */
    lemma SameKeySameResult<T>(x: string, y: string, missing: Option<T>)
      requires Preprocess(x) == Preprocess(y)
      ensures Preprocess(x) in Table() ==> Lookup(x, missing) == Lookup(y, missing)
      ensures missing.Some? ==> Lookup(x, missing) == Lookup(y, missing)
    {
    }

    /** In a case-insensitive space the case of the input does not matter. */
    lemma LookupIgnoresCase<T>(s: string, missing: Option<T>)
      requires !caseSensitive
      ensures Preprocess(s) in Table() || missing.Some? ==> Lookup(s, missing) == Lookup(Lowercased(s), missing)
    {
      PreprocessIgnoresCase(s);
    }

    /** Resolving a resolved string changes nothing, when no two
        representatives share a key. */
    lemma LookupIdempotent(s: string)
      requires DistinctRepKeys(aliases, Pre())
      ensures Lookup<()>(Lookup<()>(s, None).str, None) == Lookup<()>(s, None)
    {
      if Preprocess(s) in Table() {
        RepresentativeFixed(aliases, Pre(), Preprocess(s));
      }
    }
  }

  // ---------------------------------------------------------------------
  // Scenarios
  // ---------------------------------------------------------------------

  /** `{"A": ["x"], "B": ["x"]}`: the later entry wins the shared alias. */
  lemma LastWriteWinsExample(sp: AliasSpace)
    requires sp.aliases == [("A", ["x"]), ("B", ["x"])] && sp.caseSensitive
    requires forall s :: sp.processFunc(s) == s
    ensures sp.Lookup<()>("x", None) == Str("B")
    ensures sp.Lookup<()>("A", None) == Str("A")
  {
    sp.AliasResolvesToRepresentative<()>(1, 0, None);
    sp.RepresentativeResolvesToItself<()>(0, None);
  }

  lemma LowerLongNames()
    ensures Lowercased("The Netherlands") == "the netherlands"
    ensures Lowercased("Netherlands") == "netherlands"
  {
  }

  lemma LowerHolland()
    ensures Lowercased("Holland") == "holland" == Lowercased("HOLLAND") == Lowercased("holland")
  {
  }

  lemma LowerShortNames()
    ensures Lowercased("NL") == "nl" == Lowercased("nl")
    ensures Lowercased("Belgium") == "belgium"
  {
  }

  /** The common case the relaxed hypothesis admits: an alias spelled like its
      own representative up to case, in a case-insensitive space. */
  lemma OwnRepresentativeAlias(sp: AliasSpace)
    requires sp.aliases == [("The Netherlands", ["the netherlands"])] && !sp.caseSensitive
    requires forall s :: sp.processFunc(s) == s
    ensures sp.Lookup<()>("the netherlands", None) == Str("The Netherlands")
  {
    LowerLongNames();
    assert Lowercased("the netherlands") == "the netherlands";
    sp.AliasResolvesToRepresentative<()>(0, 0, None);
  }

  /** The keys of the Netherlands scenario under lower-casing. */
  lemma NetherlandsKeys(sp: AliasSpace)
    requires !sp.caseSensitive
    requires forall s :: sp.processFunc(s) == s
    ensures sp.Preprocess("The Netherlands") == "the netherlands"
    ensures sp.Preprocess("NL") == "nl" == sp.Preprocess("nl")
    ensures sp.Preprocess("Netherlands") == "netherlands"
    ensures sp.Preprocess("Holland") == "holland" == sp.Preprocess("HOLLAND") == sp.Preprocess("holland")
    ensures sp.Preprocess("Belgium") == "belgium"
  {
    LowerLongNames();
    LowerHolland();
    LowerShortNames();
  }

  /** The space of the Netherlands scenario. */
  ghost predicate IsNetherlandsSpace(sp: AliasSpace) {
    && sp.aliases == [("The Netherlands", ["NL", "Netherlands", "Holland"])]
    && !sp.caseSensitive
    && forall s :: sp.processFunc(s) == s
  }

  lemma NetherlandsAbbreviation(sp: AliasSpace)
    requires IsNetherlandsSpace(sp)
    ensures sp.Lookup<()>("nl", None) == Str("The Netherlands") == sp.Lookup<()>("NL", None)
  {
    NetherlandsKeys(sp);
    sp.AliasResolvesToRepresentative<()>(0, 0, None);
  }

  lemma NetherlandsHolland(sp: AliasSpace)
    requires IsNetherlandsSpace(sp)
    ensures sp.Lookup<()>("HOLLAND", None) == Str("The Netherlands") == sp.Lookup<()>("Holland", None)
    ensures sp.Lookup<()>("holland", None) == Str("The Netherlands")
  {
    NetherlandsKeys(sp);
    sp.AliasResolvesToRepresentative<()>(0, 2, None);
  }

  lemma NetherlandsUnknown(sp: AliasSpace)
    requires IsNetherlandsSpace(sp)
    ensures sp.Lookup<()>("Belgium", None) == Str("Belgium")
  {
    NetherlandsKeys(sp);
    sp.UnknownStringMisses<()>("Belgium", ());
  }

  /** `{"The Netherlands": ["NL", "Netherlands", "Holland"]}`, case-insensitive. */
  lemma NetherlandsExample(sp: AliasSpace)
    requires sp.aliases == [("The Netherlands", ["NL", "Netherlands", "Holland"])] && !sp.caseSensitive
    requires forall s :: sp.processFunc(s) == s
    ensures sp.Lookup<()>("nl", None) == Str("The Netherlands") == sp.Lookup<()>("NL", None)
    ensures sp.Lookup<()>("HOLLAND", None) == Str("The Netherlands") == sp.Lookup<()>("Holland", None)
    ensures sp.Lookup<()>("holland", None) == Str("The Netherlands")
    ensures sp.Lookup<()>("Belgium", None) == Str("Belgium")
  {
    NetherlandsAbbreviation(sp);
    NetherlandsHolland(sp);
    NetherlandsUnknown(sp);
  }

  /** The batch scenario: `map(["NL", "Belgium", "Holland"], return_list=True)`
      on a freshly built case-insensitive Netherlands space. */
  method NetherlandsBatch() returns (r: seq<Resolved<()>>)
    ensures r == [Str("The Netherlands"), Str("Belgium"), Str("The Netherlands")]
  {
    var sp := new AliasSpace([("The Netherlands", ["NL", "Netherlands", "Holland"])], false, None, None);
    NetherlandsExample(sp);
    r := MapNetherlands(sp);
  }

  /** The batch on any space where the three point lookups are known. */
  method MapNetherlands(sp: AliasSpace) returns (r: seq<Resolved<()>>)
    requires sp.Valid()
    requires sp.Lookup<()>("NL", None) == Str("The Netherlands") == sp.Lookup<()>("Holland", None)
    requires sp.Lookup<()>("Belgium", None) == Str("Belgium")
    modifies sp`cache
    ensures r == [Str("The Netherlands"), Str("Belgium"), Str("The Netherlands")]
  {
    var inputs := ["NL", "Belgium", "Holland"];
    r := sp.Map(inputs, None);
    assert r[0] == sp.Lookup<()>(inputs[0], None);
    assert r[1] == sp.Lookup<()>(inputs[1], None);
    assert r[2] == sp.Lookup<()>(inputs[2], None);
  }
}
