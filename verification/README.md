# aliases, modelled in Dafny

`aliases` maps alternate spellings of a term to one canonical
representative, such as `"NL"`, `"Holland"` and `"netherlands"` to `"The Netherlands"`.
This project models its core in Dafny. One module per source file:

- `StringFunctions` (string_function.py): the three built-in transforms on a
  Python `str` (identity, lower-casing, right-stripping), and the type dispatch
  of `StringFunction.__call__`. The dispatch either runs the `str` handler,
  hands the call to a pandas or polars handler, or raises `TypeError`.
- `Processors` (processor.py): `StringProcessor`, a left-to-right pipeline of
  string transforms. The `lambda x: f(current(x))` closure that `compose` builds is
  recorded as the datatype `Pipeline`.
- `Space` (space.py): `AliasSpace`.
  - The class keeps its constructor arguments as `const` fields and the
    `_mapper` cache as `var cache: Cache` (`Unbuilt | Built(table)`).
  - `Valid()` ties a built cache to `Table()`, which is the table `create_mapper`
    produces.
  - `create_mapper` first runs the alias comprehension, where later entries
    overwrite earlier ones. It then runs the loop that makes every
    representative its own alias.
  - These two passes are the functions `AliasTable` and `RepresentativePass`.
    The method `CreateMapper` runs the same loops and is proved equal to them.
  - `data` is an ordered sequence of `(representative, aliases)` pairs, because
    dict iteration order decides which entry wins on a shared key.
  - `process_func` is an arbitrary `string -> string` function.
  - `missing` is an `Option`: `None` plays the role of the private `_sentinel`.
- `AliasStrings` (string.py): `AliasAwareString`, a value holding its space and
  its text, whose `==` and hash go through the representative.
- `AliasDicts` (dict.py): `AliasAwareDict`, a class with an ordered sequence of
  `(AliasAwareString, value)` entries, updated in place.
  - Like a CPython dict, storing under a key equal to a stored one keeps the old
    key object and replaces only the value.
  - The caller's plain `data` dict is the class `PlainDict`, so that its
    in-place `update` is visible.

The source has no alias-registration operation, no `contains`, and no
raise-on-miss option in `get_representative`. The model follows the code, so
none of these is modelled.

## Model

| member | source | states |
|---|---|---|
| StringFunctions.Lowercased | src/aliases/string_function.py:84-86 | `str.lower()`: same length, no upper-case letter left, upper-case letters shifted to lower case, every other character unchanged |
| StringFunctions.LowercasedIdempotent | src/aliases/string_function.py:84-86 | lower-casing twice is the same as lower-casing once |
| StringFunctions.RightStripped | src/aliases/string_function.py:98-100 | `str.rstrip()`: result is a prefix of the input, the removed suffix is all whitespace, and the result is empty or ends in a non-whitespace character |
| StringFunctions.RightStrippedUnique | src/aliases/string_function.py:98-100 | those three properties determine the result: any string with them equals `RightStripped(s)` |
| StringFunctions.RightStrippedIdempotent | src/aliases/string_function.py:98-100 | stripping twice equals stripping once, and never lengthens the input |
| StringFunctions.HandleBuiltinStr | src/aliases/string_function.py:70-100 | definition: the `handle_builtin_str` of each transform (lines 71-72, 85-86, 99-100); properties in `IdentityKeepsInput`, `Lowercased`, `RightStripped` |
| StringFunctions.Call | src/aliases/string_function.py:48-67 | a builtin `str` goes to `handle_builtin_str`; the result is a string exactly for `str` input; `TypeError` exactly when the input is of no supported kind or its library is not installed |
| StringFunctions.IdentityKeepsInput | src/aliases/string_function.py:70-72 | `StringIdentity` returns its input unchanged |
| StringFunctions.LowerCaseExample | src/aliases/string_function.py:84-86 | `"HELLO  ".lower() == "hello  "` |
| StringFunctions.RightStripExample | src/aliases/string_function.py:98-100 | `"hello \t\n".rstrip() == "hello"` |
| Processors.NewProcessor | src/aliases/processor.py:12-16 | a default-built processor is the identity; one built from `f` applies `f` |
| Processors.Run | src/aliases/processor.py:24 | definition: a `Then(current, next)` pipeline is the closure `lambda x: f(current(x))`; properties in `StringProcessor.Compose` and `ChainRunsLeftToRight` |
| Processors.StringProcessor.Apply | src/aliases/processor.py:15-16 | definition: `__call__` runs the pipeline `f`; properties in `NewProcessor`, `Compose`, `Lower`, `Rstrip` |
| Processors.StringProcessor.Compose | src/aliases/processor.py:18-25 | `p.compose(g)(x) == g(p(x))` for a function or a processor `g`: the existing pipeline runs first |
| Processors.StringProcessor.Lower | src/aliases/processor.py:27-28 | `p.lower()(x) == lower(p(x))` |
| Processors.StringProcessor.Rstrip | src/aliases/processor.py:30-31 | `p.rstrip()(x) == rstrip(p(x))` |
| Processors.ChainRunsLeftToRight | src/aliases/processor.py:18-25 | a processor built by successive `compose` calls applies its functions in registration order, first one first |
| Processors.ComposeAssociative | src/aliases/processor.py:18-25 | how the composition closures nest does not change the result |
| Processors.LowerThenRstripExample | src/aliases/processor.py:27-31 | `StringProcessor().lower().rstrip()("HELLO  ") == "hello"` and `(" HELLO  ") == " hello"` |
| Space.MapperKeys | src/aliases/space.py:34-46 | a key is in the table exactly when it is the processed form of some representative or some alias |
| Space.GroupTable | src/aliases/space.py:35-39 | definition: one entry's share of the comprehension, later aliases of the list overwriting earlier ones; properties in `AliasLastWins` |
| Space.AliasTable | src/aliases/space.py:35-39 | definition: the comprehension over all entries, a later entry overwriting an earlier one on the same key; properties in `MapperKeys`, `MapperValues`, `AliasLastWins` |
| Space.RepresentativePass | src/aliases/space.py:41-45 | definition: the loop that then sets every representative's key to that representative; properties in `RepresentativeWins` |
| Space.MapperOf | src/aliases/space.py:34-46 | definition: the whole `create_mapper` result; properties in `MapperKeys`, `MapperValues`, `RepresentativeWins`, `AliasLastWins`, `AliasKeyResolvesToLastEntry`, `RepresentativeFixed`, and `AliasSpace.CreateMapper` is proved equal to it |
| Space.MapperValues | src/aliases/space.py:34-46 | every value is a representative of `data`, found under its own processed key or under one of its aliases' keys |
| Space.RepresentativeWins | src/aliases/space.py:41-45 | reflexivity, and representatives override aliases: a representative's key maps to the last representative with that key, whatever aliases share the key |
| Space.AliasLastWins | src/aliases/space.py:35-39 | among aliases sharing a key that no representative has, the latest entry decides the representative |
| Space.AliasKeyResolvesToLastEntry | src/aliases/space.py:34-46 | every key of the table that no representative has maps to the representative of the last entry listing an alias with that key |
| Space.RepresentativeFixed | src/aliases/space.py:34-46 | when processed representatives are distinct, every value of the table maps back to itself |
| Space.LastWriteWinsExample | src/aliases/space.py:34-46 | `{"A": ["x"], "B": ["x"]}` resolves `"x"` to `"B"` and `"A"` to itself |
| Space.OwnRepresentativeAlias | src/aliases/space.py:34-58 | case-insensitive `{"The Netherlands": ["the netherlands"]}` resolves `"the netherlands"` to `"The Netherlands"`: an alias may share its own representative's key |
| Space.AliasSpace.constructor | src/aliases/space.py:11-22 | stores the arguments; a missing `process_func` becomes the identity; the cache starts unbuilt |
| Space.AliasSpace.Preprocess | src/aliases/space.py:28-32 | definition: lower-case unless case-sensitive, then `process_func`; properties in `PreprocessIgnoresCase` and `LookupIgnoresCase` |
| Space.AliasSpace.PreprocessIgnoresCase | src/aliases/space.py:28-32 | in a case-insensitive space a string and its lower-cased form are preprocessed alike |
| Space.AliasSpace.CreateMapper | src/aliases/space.py:34-46 | the comprehension and the loop build exactly the table `Table()` |
| Space.AddGroup | src/aliases/space.py:35-39 | the comprehension's inner loop over one entry's aliases writes exactly that entry's `GroupTable` over the table so far |
| Space.AliasSpace.Mapper | src/aliases/space.py:48-52 | returns the table and leaves the cache built; a cache that was already built is returned as it is, without a rebuild |
| Space.AliasSpace.Lookup | src/aliases/space.py:54-58 | with no `missing` given the answer is always a string (the representative or the input) |
| Space.Resolve | src/aliases/space.py:55-58 | definition: `mapper.get(key, missing)` with the sentinel replaced by the input string; properties in `AliasSpace.Lookup`, `UnknownStringMisses`, `HitIsRepresentative`, `SameKeySameResult` |
| Space.AliasSpace.GetRepresentative | src/aliases/space.py:54-58 | returns `Lookup(s, missing)` and leaves the cache built and valid |
| Space.AliasSpace.Map | src/aliases/space.py:70-79 | one result per input, in order, each equal to the point lookup with the same `missing`; a non-empty batch leaves the cache built with `Table()`, and a cache that was already built, or an empty batch, leaves it as it was |
| Space.AliasSpace.ToRepr | src/aliases/space.py:81-84 | `"AliasSpace"` alone exactly when there is no name; otherwise the name follows a space |
| Space.AliasSpace.RepresentativeResolvesToItself | src/aliases/space.py:41-58 | a representative resolves to itself unless a later representative has the same processed key |
| Space.AliasSpace.AliasResolvesToRepresentative | src/aliases/space.py:34-58 | an alias resolves to its entry's representative when no other entry's representative and no later entry's alias share its key; the entry's own representative may share it |
| Space.AliasSpace.UnknownStringMisses | src/aliases/space.py:54-58 | a string whose key matches nothing comes back unchanged, or as the supplied `missing` value |
| Space.AliasSpace.HitIsRepresentative | src/aliases/space.py:54-58 | a hit always returns one of the representatives |
| Space.AliasSpace.SameKeySameResult | src/aliases/space.py:54-58 | strings with the same processed key resolve alike when the key is known or a `missing` value is given |
| Space.AliasSpace.LookupIgnoresCase | src/aliases/space.py:28-58 | in a case-insensitive space, case does not change a hit, nor a miss with a `missing` value |
| Space.AliasSpace.LookupIdempotent | src/aliases/space.py:34-58 | with distinct processed representatives, resolving a resolved string changes nothing |
| Space.NetherlandsExample | src/temp.py:3-7 | case-insensitive `{"The Netherlands": ["NL", "Netherlands", "Holland"]}`: `"nl"`, `"NL"`, `"HOLLAND"` resolve to `"The Netherlands"`, `"Belgium"` to itself |
| Space.NetherlandsBatch | src/aliases/space.py:70-79 | `map(["NL", "Belgium", "Holland"], return_list=True)` on that space is `["The Netherlands", "Belgium", "The Netherlands"]` |
| Space.MapNetherlands | src/aliases/space.py:70-79 | on any valid space where `"NL"` and `"Holland"` resolve to `"The Netherlands"` and `"Belgium"` to itself, the batch `map` of those three gives those three results in order |
| AliasStrings.Make | src/aliases/string.py:8-10 | the new string belongs to the given space and keeps `str(data)` as its text |
| AliasStrings.AliasAwareString.Representative | src/aliases/string.py:12-14 | definition: the space's lookup of the text with no `missing`; properties in `RepresentativeIsKnownOrSelf` |
| AliasStrings.AliasAwareString.ToString | src/aliases/string.py:16-17 | definition: the stored text; properties in `MakeRoundTrip` |
| AliasStrings.AliasAwareString.Hash | src/aliases/string.py:22-23 | definition: the `str` hash of the representative; properties in `HashConsistent` |
| AliasStrings.AliasAwareString.Equals | src/aliases/string.py:25-26 | definition: representatives compared after re-wrapping the right operand in this string's space; properties in `EqualsIffSameRepresentative`, `EqualsPlain`, `EqualsReflexive`, `EqualsSymmetric`, `EqualsTransitive`, `CrossSpaceEqualityOneSided` |
| AliasStrings.RepresentativeIsKnownOrSelf | src/aliases/string.py:12-14 | `representative` is a representative of the space or, for an unknown string, the string itself |
| AliasStrings.MakeRoundTrip | src/aliases/string.py:16-17 | `str()` returns the original text, not the representative; re-wrapping a string of the same space gives the same string |
| AliasStrings.AliasAwareString.ToRepr | src/aliases/string.py:19-20 | the quoted text followed by `in` and the space's repr |
| AliasStrings.EqualsIffSameRepresentative | src/aliases/string.py:25-26 | within one space, `a == b` exactly when the representatives are equal |
| AliasStrings.EqualsPlain | src/aliases/string.py:25-26 | against a plain `str`, `==` compares with that string's representative in the left operand's space |
| AliasStrings.EqualsReflexive | src/aliases/string.py:25-26 | `a == a` |
| AliasStrings.EqualsSymmetric | src/aliases/string.py:25-26 | within one space, `a == b` exactly when `b == a` |
| AliasStrings.EqualsTransitive | src/aliases/string.py:25-26 | within one space, `a == b` and `b == c` give `a == c` |
| AliasStrings.HashConsistent | src/aliases/string.py:22-26 | equal strings of one space have equal hashes, for any hash function on `str` |
| AliasStrings.CrossSpaceEqualityOneSided | src/aliases/string.py:25-26 | across two spaces `==` resolves both sides in the left operand's space, so it can hold one way and fail the other |
| AliasStrings.NetherlandsStringsEqual | src/temp.py:11 | `s.str("holland") == s.str("NL")`, and `s.str("holland") != "Belgium"` |
| AliasDicts.UpdateOverrides | src/aliases/dict.py:13-14 | after `data.update(**kwargs)` a key of `kwargs` has the keyword value and every other key keeps its old value |
| AliasDicts.UpdateWithNewKeys | src/aliases/dict.py:13-14 | updating with new keys appends them in order, so `{}.update(**kwargs)` is `kwargs` |
| AliasDicts.Get | src/aliases/dict.py:13-14 | `dict.get` on the caller's plain dict: no value exactly when the key is absent |
| AliasDicts.Put | src/aliases/dict.py:14 | one `d[k] = v` of `update`: the key set gains `k`, the size grows only for a new key, keys stay distinct, `k` now gives `v` and every other key keeps its value |
| AliasDicts.Update | src/aliases/dict.py:14 | `data.update(**kwargs)`: keys stay distinct and the key set is the union; per-key values in `UpdateOverrides` |
| AliasDicts.ToMap | src/aliases/dict.py:19-20 | definition: the `to_dict` comprehension; properties in `ToMapKeys`, `ToMapLastWins`, `ToMapValue` |
| AliasDicts.FindRep | src/aliases/dict.py:22-26 | the dict's probe for an equal key: a found index holds a key with that representative, and a miss means no stored key has it |
| AliasDicts.GetEntry | src/aliases/dict.py:22-23 | definition: `_data[key]` as the value at the probed index or `KeyError`; properties in `GetEntryAgreesWithToMap` and `SetThenGet` |
| AliasDicts.Store | src/aliases/dict.py:25-26 | definition: `_data[key] = value`; properties in `StoreFacts` |
| AliasDicts.ToMapKeys | src/aliases/dict.py:19-20 | the keys of `to_dict()` are exactly the representatives of the stored keys |
| AliasDicts.ToMapLastWins | src/aliases/dict.py:19-20 | in the `to_dict` comprehension, the last stored key with a given representative decides that representative's value |
| AliasDicts.ToMapValue | src/aliases/dict.py:19-20 | each stored key's representative is paired with that key's stored value |
| AliasDicts.GetEntryAgreesWithToMap | src/aliases/dict.py:19-23 | `__getitem__` finds a value exactly when `to_dict()` has the representative, and it is the same value; otherwise `KeyError` |
| AliasDicts.StoreFacts | src/aliases/dict.py:25-26 | storing keeps keys distinct, sets the value under the key's representative, keeps the count when an equal key is present (appends otherwise), keeps the old key objects and leaves other entries untouched |
| AliasDicts.SetThenGet | src/aliases/dict.py:22-26 | after `d[k] = v`, `d[k2] == v` for every `k2` with the representative of `k`; other lookups are unchanged |
| AliasDicts.FromItemsToMap | src/aliases/dict.py:15-20 | merging equal keys while the comprehension stores them leaves `to_dict()` the same as a plain pass over the wrapped items |
| AliasDicts.FromItems | src/aliases/dict.py:15-17 | the comprehension `{space.str(key): value ...}`: the stored keys are pairwise distinct; contents in `FromItemsKeys`, `FromItemsLastWins` |
| AliasDicts.FromItemsKeys | src/aliases/dict.py:15-17 | after the comprehension there is one entry per distinct representative among the keys |
| AliasDicts.FromItemsLastWins | src/aliases/dict.py:15-17 | a representative holds the value of the last item whose key has that representative |
| AliasDicts.BuildEntries | src/aliases/dict.py:15-17 | the comprehension loop builds exactly `FromItems`, with every key in the dict's space |
| AliasDicts.AliasAwareDict.constructor | src/aliases/dict.py:9-17 | a non-empty caller dict is updated in place with `kwargs`; an empty or missing one is left alone; the entries are the comprehension over the merged items |
| AliasDicts.AliasAwareDict.ToDict | src/aliases/dict.py:19-20 | definition: `ToMap` of the entries; properties in `ToMapKeys`, `ToMapLastWins`, `ToMapValue` |
| AliasDicts.AliasAwareDict.GetItem | src/aliases/dict.py:22-23 | the value stored under the item's representative in `to_dict()`, or `KeyError` when there is none |
| AliasDicts.AliasAwareDict.SetItem | src/aliases/dict.py:25-26 | `to_dict()` becomes the old one with the key's representative set to the value; the count grows only for a new representative |
| AliasDicts.NetherlandsDictExample | src/temp.py:16-17 | `s.dict(holland=12345)["nl"] == 12345`, and `to_dict()` is `{"The Netherlands": 12345}` |
| AliasDicts.NetherlandsDict | src/temp.py:16-17 | a fresh case-insensitive Netherlands space, `s.dict(holland=12345)` through the constructor, then `GetItem("nl")` is 12345 and `to_dict()` is `{"The Netherlands": 12345}` |

## Left out

- StringFunctions.Lowercased: models `str.lower()` on the ASCII letters only. Other upper-case characters are left as they are, whereas Python applies the full Unicode case mapping. The whitespace set for `rstrip` is the one `str.isspace()` uses, listed explicitly.
- The pandas and polars handlers of every `StringFunction` (string_function.py lines 34-46, 74-81, 88-95, 102-109) run inside those libraries. `Call` records which handler would run and models nothing further.
- `StringProcessor` applied to pandas or polars columns: the processor is modelled on `str` only.
- pandas_accessor.py, polars_accessor.py and third_party_classes.py are not part of this model. They are adapters over library objects, and they use `space.processor` and `space.pandas_process_func`, which `AliasSpace` does not define.
- `AliasSpace.map` returns a lazy `map` object unless `return_list` is true. The model always returns the list, and the `return_list` flag is not a parameter.
- `AliasSpace.__init__` keeps a reference to the caller's `data` dict. Later changes the caller makes to that dict are not modelled: `data` is fixed at construction.
- `data` as a sequence admits a repeated representative, which a dict cannot hold. No lemma depends on that.
- A truthy-or-falsy `process_func`: every callable is treated as truthy.
- The `case_sensitive` property and the `name` attribute are plain reads of constructor arguments.
- The `AliasSpace.str` and `AliasSpace.dict` factories: they are `AliasStrings.Make` and the `AliasAwareDict` constructor.
- AliasStrings.AliasAwareString.Representative: reads the table through `Lookup`, not through the cache. Filling the cache as a side effect of `representative`, `==`, `hash` and dict access is modelled only in `AliasSpace.GetRepresentative`. Once the cache is valid, both give the same answer.
- `str(data)` for objects other than `str` and `AliasAwareString` (any Python object can be passed to `space.str`).
- Python's `hash` on `str` is a parameter of `Hash`.
- `AliasAwareDict.__repr__`: it formats arbitrary values.
- The restriction of `**kwargs` keys to Python identifiers.
