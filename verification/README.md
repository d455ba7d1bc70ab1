# brainiak_api core, modelled in Dafny

brainiak_api is a REST service over a semantic triplestore. This project models its pure core:

- **Instance retrieval** (`get_instance.py`). Query bindings are aggregated into a property map:
  predicates and objects are shortened through a memorizing prefix context, and repeated
  predicates become lists. Super-properties whose value equals their sub-property's are removed.
  `rdf:type` and the language-filtered `rdfs:label` are set, and the instance document is
  assembled.
- **Patching** (`patch_instance.py`). `apply_patch` applies `replace`, `remove` and `add` items to
  an instance's property map. Paths are expanded through the prefix registry. `add` stores
  `sorted(list(set(...)))` under Python 2 ordering. Patched values are laid over the copied data
  at the end.
- **Collection queries** (`get_collection.py`). The pure parts of the `Query` class:
  - which predicate/object pairs are added;
  - the sort variable and the `ORDER BY` clause;
  - the sorted, duplicate-free `SELECT` variables;
  - the `FILTER` block.
- **`merge_by_id`**. Result rows sharing an `@id` are merged key by key into the first such row.
  This is modelled both as a fold (`MergeAll`) and as the source's imperative cursor loop
  (`MergeByIdLoop`), which is proved to compute the fold.
- **Suggest helpers** (`suggest.py`):
  - validation of class and graph restrictions against a predicate's range;
  - title-field choice;
  - type filters;
  - flattening a hit's fields into `instance_fields`;
  - removal of the title field;
  - the union of per-class response fields;
  - the two search-engine request bodies.
- **Prefixes** (`brainiak.prefixes`, used by all of the above). The prefix registry, shortening
  by the longest registered namespace, expansion of `slug:local` forms, and `MemorizeContext`.
  `prefixes.py` is not modelled line by line: its behaviour is taken from its unit tests and
  its callers, with the registry table as a parameter.

Modules:

| module | file | role |
|---|---|---|
| `Wrappers` | wrappers.dfy | `Option`, `Result` with `:-` propagation |
| `Json` | json.dfy | JSON values, Python truthiness, hashability, `dict.get` |
| `Strings` | strings.dfy | `split()`, `join`, ASCII `lower()`/`upper()`, string order |
| `Seqs` | seqs.dfy | order-keeping dedup; sorting without repetition (`sorted(set(...))`) |
| `Prefixes` | prefixes.dfy | prefix registry, shorten/expand, `MemorizeContext` |
| `GetInstance` | get_instance.dfy | `build_items_dict`, `assemble_instance_json`, `get_instance` |
| `PatchInstance` | patch_instance.dfy | `apply_patch` |
| `CollectionQuery` | collection_query.dfy | `Query` predicates, sort, variables, filter |
| `MergeById` | merge_by_id.dfy | `merge_by_id` |
| `Suggest` | suggest.dfy | suggest helpers |

Errors the source raises (`HTTPError`, `KeyError`, `TypeError`, `PrefixError`, `RuntimeError`)
are `Err` values of a `Result`. Python's hash-ordered iteration is an explicit parameter: an
enumeration of the keys, or a sequence of `(key, value)` pairs. The outcome of the
super-property filter depends on that order (`ChainOutcomeDependsOnOrder` shows a case), so
`BuildItemsDict`, `AssembleInstance` and `GetInstance` take it as an argument, and their
contracts hold for every enumeration of the aggregated keys.

## Model

| member | source | states |
|---|---|---|
| Prefixes.ExpandUri | tests/unit/test_prefixes.py:46-56 | http(s) URIs are returned as they are, and `slug:local` becomes the slug's namespace followed by `local`; the remaining cases are inferred from the callers, not shown by the tests: a string without `:` is returned as it is, the slug ends at the first `:`, and an unknown slug is a `PrefixError` |
| Prefixes.SlugToPrefix | tests/unit/test_prefixes.py:31-35 | succeeds exactly for a registered slug, giving its namespace; otherwise `UnknownPrefix(slug)` |
| Prefixes.SafeSlugToPrefix | tests/unit/test_prefixes.py:25-29 | the namespace of a registered slug; any other slug comes back unchanged |
| Prefixes.ExpandShortenRoundTrip | tests/unit/test_prefixes.py:37-56 | with a consistent registry, expanding the short form of an http(s) URI gives the URI back |
| Prefixes.ExtractPrefix | tests/unit/test_prefixes.py:71-76 | the namespace found is registered, non-empty, a prefix of the URI, and at least as long as every registered namespace the URI starts with; none is found exactly when no non-empty registered namespace prefixes the URI |
| Prefixes.LongestRegisteredPrefixWins | tests/unit/test_prefixes.py:71-76 | with `http://some`, `http://someprefix/place/` and `http://someprefix/place/City` registered, the last is the prefix extracted from `http://someprefix/place/City` |
| Prefixes.ContextShortenLaw | tests/unit/test_prefixes.py:93-96 | shortening through a context gives the module-level short form, and the context then records the namespace used under its slug |
| Prefixes.ContextShortenIdempotent | tests/unit/test_prefixes.py:93-96 | shortening the same URI again through the resulting context gives the same short form and leaves the context unchanged |
| Prefixes.AddObjectProperty | tests/unit/test_prefixes.py:84-86 | the property is recorded with its range; other recorded properties and the `@context` are kept |
| GetInstance.Aggregate | src/brainiak/instance/get_instance.py:26-38 | a shortened predicate is a key exactly when some binding has it; its value lists that predicate's shortened objects in binding order, as a scalar exactly when there is one |
| GetInstance.AggregateKeys | src/brainiak/instance/get_instance.py:27-38 | the aggregated keys are exactly the shortened predicates of the bindings |
| GetInstance.AggregateRecordsNamespaces | src/brainiak/instance/get_instance.py:28-29 | the shared context ends up recording the namespace of every shortened predicate and object |
| GetInstance.SubsumptionFilter | src/brainiak/instance/get_instance.py:40-46 | for the given iteration order, the filter fails exactly when some examined super-property's sub-property is no longer a key (a `KeyError` naming it); on success it keeps exactly the entries not equal to their sub-property in the original map, with their values |
| GetInstance.ChainOutcomeDependsOnOrder | src/brainiak/instance/get_instance.py:40-46 | with `a` under `b` under `c`, all equal, the order `a, b, c` keeps only `c`, while `b, a, c` fails on the removed `b`: the outcome depends on the dict's iteration order |
| GetInstance.MissingSubPropertyRaises | src/brainiak/instance/get_instance.py:42-44 | a super-property whose sub-property is no key makes the filter fail, in any order |
| GetInstance.NoChainsSucceed | src/brainiak/instance/get_instance.py:40-46 | when every sub-property is a key and is never removed itself, the filter succeeds in any order |
| GetInstance.SetType | src/brainiak/instance/get_instance.py:48-49 | without a class the items are unchanged; with one, `rdf:type` holds the class's short form and the context records its namespace |
| GetInstance.SetLabel | src/brainiak/instance/get_instance.py:51-55 | if the expanded `rdfs:label` is not a super-property, `rdfs:label` is the last binding's label, failing when there are no bindings; otherwise `rdfs:label` is removed, failing when it is absent |
| GetInstance.BuildItemsDict | src/brainiak/instance/get_instance.py:23-57 | for the given order: fails with the filter's error exactly when the filter fails; otherwise, when the label is kept it fails exactly for no bindings, and when it is removed it fails exactly when no `rdfs:label` survived; on success `rdf:type` is the class's short form, the label the last binding's (or absent when removed), every other key a surviving aggregated predicate with its aggregated value, and the context records the class and every binding |
| GetInstance.NoBindingsFailsUnlessSuppressed | src/brainiak/instance/get_instance.py:51-53 | with no bindings and `rdfs:label` not a super-property, the unbound loop variable makes the build fail |
| GetInstance.Document | src/brainiak/instance/get_instance.py:68-75 | the document's keys are the four identity keys plus the item keys; item values win over the identity defaults |
| GetInstance.AssembleInstance | src/brainiak/instance/get_instance.py:60-75 | fails exactly when building the items fails, with the same error; otherwise the document has exactly the identity keys, `rdf:type`, the label unless removed and the surviving predicates; `rdf:type`, the label and every surviving predicate hold the built values; `_resource_id`, `@id`, `@type` and `@context` hold the instance id, URI, class short form and a context recording every namespace used, unless a surviving predicate of that name overrides them |
| GetInstance.GetInstance | src/brainiak/instance/get_instance.py:9-20 | not found (`None`) exactly when there are no bindings; otherwise the error of assembling, or a document with every property stated for `AssembleInstance` |
| PatchInstance.Step | src/brainiak/instance/patch_instance.py:46-69 | a missing `op` or `path` or a bad path stops with that error; the data copy never gains a key; a key new to the patch was written by this item's `replace` or `add` at its path, and a key gone from the data copy was its `remove` |
| PatchInstance.ApplyPatch | src/brainiak/instance/patch_instance.py:44-73 | an empty patch list returns the data unchanged; a key of the result absent from the data was written by some `replace` or `add` item, and a key of the data absent from the result was named by some `remove` item |
| PatchInstance.ItemPath | src/brainiak/instance/patch_instance.py:46-53 | an item lacking `op` or `path` is exactly the 400 error with the fixed message; otherwise the path is expanded through the registry |
| PatchInstance.Add | src/brainiak/instance/patch_instance.py:60-69 | the existing values come from the original data (a scalar lifted to a list) followed by the new ones; the patch holds them sorted and free of repetition; a list in the original is extended in place; an unhashable value is a `TypeError` |
| PatchInstance.ApplyFromUntouched | src/brainiak/instance/patch_instance.py:46-69 | items that do not address a key leave it unchanged in both the data copy and the patch |
| PatchInstance.UntouchedKeysKept | src/brainiak/instance/patch_instance.py:44-73 | a key no item addresses keeps its original value, or stays absent |
| PatchInstance.AppliedItemsHaveOpAndPath | src/brainiak/instance/patch_instance.py:47-51 | a successful patch had `op` and `path` in every item |
| PatchInstance.MissingOpOrPathRejected | src/brainiak/instance/patch_instance.py:47-51 | an item lacking `op` or `path`, at any position, stops the patch with the 400 error whatever follows it, provided the items before it applied without error (an earlier failing item, such as a `replace` without `value`, raises first) |
| PatchInstance.UnknownOpChangesNothing | src/brainiak/instance/patch_instance.py:55-69 | an item whose `op` is none of the three operations changes nothing |
| PatchInstance.ReplaceSets | src/brainiak/instance/patch_instance.py:55-57 | `replace` sets the expanded key to the value, adding it when absent |
| PatchInstance.RemoveDeletes | src/brainiak/instance/patch_instance.py:58-59 | `remove` deletes the expanded key; an absent key is no error and leaves the data as it was |
| PatchInstance.AddMerges | src/brainiak/instance/patch_instance.py:60-69 | `add` stores the sorted, duplicate-free union of the existing and the new values |
| PatchInstance.LastReplaceWins | src/brainiak/instance/patch_instance.py:55-72 | when a `replace` is the last item to write a key, whatever `remove` items follow, the result holds its value |
| PatchInstance.LastAddWins | src/brainiak/instance/patch_instance.py:60-72 | when an `add` is the last item to write a key, the result holds the sorted, duplicate-free union of the values the data copy held at that point and the added ones |
| PatchInstance.RemoveAfterAddKeepsAdd | src/brainiak/instance/patch_instance.py:58-72 | `add` then `remove` of one key gives the data with that key set to the sorted union, as the patch is laid over the data at the end |
| PatchInstance.AddAfterReplaceIgnoresReplacement | src/brainiak/instance/patch_instance.py:55-69 | `replace` then `add` of one key gives the same result as the `add` alone, since `add` reads the data copy and overwrites the patch |
| PatchInstance.ReplaceAfterAddWins | src/brainiak/instance/patch_instance.py:55-72 | `add` then `replace` of one key gives the data with that key set to the replacement |
| PatchInstance.RemoveAfterReplaceKeepsReplacement | src/brainiak/instance/patch_instance.py:57-72 | a later `remove` does not cancel an earlier `replace` of the same key, since patched values are laid over the data at the end |
| PatchInstance.SecondAddOverridesFirst | src/brainiak/instance/patch_instance.py:64-69 | two `add`s to an absent key keep only the second one's values, because `add` reads the original data and never the patch |
| PatchInstance.AddsAccumulateOnList | src/brainiak/instance/patch_instance.py:64-69 | two `add`s to a key holding a list accumulate, because the first extended that list in place |
| PatchInstance.ShortAndFullPathAgree | src/brainiak/instance/patch_instance.py:53 | a `slug:local` path and the full URI it expands to behave the same in any item |
| PatchInstance.RemoveByShortPath | tests/unit/test_patch_instance.py:79-91 | removing `dbpedia:name` deletes the expanded `http://dbpedia.org/ontology/name` key |
| CollectionQuery.ShouldAdd | src/brainiak/collection/get_collection.py:65-71 | a pair is dropped exactly when its object is a variable and its shortened predicate is a variable or `rdfs:label` in either form |
| CollectionQuery.SortVariable | src/brainiak/collection/get_collection.py:166-180 | empty iff `sort_by` is empty; `?label` for `rdfs:label`; else the first matching tuple's variable object, or `?sort_object`; never empty otherwise |
| CollectionQuery.SortBy | src/brainiak/collection/get_collection.py:182-192 | empty iff the sort variable is empty; otherwise it starts with `ORDER BY`, the upper-cased sort order and `(`, and ends with the sort variable and `)`, and its length leaves room for nothing else (the two share only the `(`), so the clause is exactly `ORDER BY <ORDER>(<variable>)` |
| CollectionQuery.SortClauseVariableSelected | src/brainiak/collection/get_collection.py:182-210 | when there is an `ORDER BY` clause, the variable it sorts on is among the selected variables |
| CollectionQuery.VariableListLaw | src/brainiak/collection/get_collection.py:194-210 | the selected variables are strictly ascending and are exactly the candidates: `?label`, `?subject`, the sort variable when non-empty, and the variable of each added pair |
| CollectionQuery.LiteralFiltersNumbered | src/brainiak/collection/get_collection.py:139-146 | the literal clauses are numbered `?literal1`, `?literal2`, … in tuple order, so the membership check never drops one |
| CollectionQuery.FilterClausesLaw | src/brainiak/collection/get_collection.py:130-160 | the clauses are free of repetition, one per literal or URI object, in order, followed by a `?label` language clause exactly when `lang` is non-empty |
| CollectionQuery.Filter | src/brainiak/collection/get_collection.py:130-160 | the filter statement is empty exactly when there are no clauses (no literal or URI object and no language); every clause's rendering occurs in it |
| MergeById.MergeValue | src/brainiak/collection/get_collection.py:251-256 | a list lacking the incoming value gains it at the end; a list holding it is paired with it; a differing non-list is paired with it; an equal non-list stays; any change ends with the incoming value |
| MergeById.MergeAll | src/brainiak/collection/get_collection.py:233-259 | a successful merge had an `@id` usable as a dict key in every row, and returns at most as many rows, at least one for a non-empty list |
| MergeById.MergeRow | src/brainiak/collection/get_collection.py:250-256 | succeeds exactly when the duplicate has every key of the kept row; keeps the kept row's keys and merges each value; otherwise a `KeyError` |
| MergeById.Find | src/brainiak/collection/get_collection.py:246-247 | the first row with the given `@id`, or none when no row has it |
| MergeById.MergeByIdLoop | src/brainiak/collection/get_collection.py:233-259 | the cursor loop with the `@id` dict, merging duplicates into their kept row and popping them, computes `MergeAll`, including its errors |
| MergeById.MergeStepLaw | src/brainiak/collection/get_collection.py:243-258 | one row appends itself exactly when its `@id` is new; otherwise the length and the `@id`s are kept; every kept row keeps its keys |
| MergeById.MergeAllIds | src/brainiak/collection/get_collection.py:233-259 | the merged rows' `@id`s are the distinct input `@id`s in order of first occurrence |
| MergeById.MergeAllKeys | src/brainiak/collection/get_collection.py:248-256 | each merged row has exactly the keys of the first input row with its `@id` |
| MergeById.DistinctScalarsCollect | src/brainiak/collection/get_collection.py:252-256 | pairwise different scalar values at one key collect into one list, in row order |
| MergeById.EqualScalarsStay | src/brainiak/collection/get_collection.py:255-256 | a scalar repeated in every row stays that scalar |
| MergeById.SameIdRowsMerge | src/brainiak/collection/get_collection.py:243-258 | rows sharing one `@id` merge into a single row holding, at each key, the left-to-right merge of that key's values |
| MergeById.ThirdDuplicateRowNests | src/brainiak/collection/get_collection.py:252-256 | values `a`, `b`, `a` at one key give `[[a, b], a]`, since `a` is in the list but differs from it |
| Suggest.ValidateClassRestriction | src/brainiak/suggest/suggest.py:154-163 | without a restriction, all range classes, each once; with one, the requested classes as given when all lie in the range, otherwise a 400 error naming exactly those outside |
| Suggest.ValidateGraphRestriction | src/brainiak/suggest/suggest.py:166-182 | succeeds exactly when every requested graph is in the range and some graph of the requested (or range) set holds instances; the 400 for graphs outside the range occurs exactly when some requested graph is outside it and names exactly those; a result is non-empty, within the range, and is the requested (or range) graphs minus those without instances; the empty case is its own error |
| Suggest.TitleValue | src/brainiak/suggest/suggest.py:346-351 | succeeds exactly when some title field has a truthy value, and then returns the last such field and its value; otherwise the "no title" error |
| Suggest.TypeFilters | src/brainiak/suggest/suggest.py:334-343 | an object whose only key is `or`, holding a list with one entry per class |
| Suggest.TypeFiltersRoundTrip | src/brainiak/suggest/suggest.py:334-343 | the `or` list of the type filter holds exactly the classes, in their order |
| Suggest.PropertyFields | src/brainiak/suggest/suggest.py:386-406 | one entry per object of the property, a scalar counting as one; `predicate_id` is shortened unless `expand_uri` is `"1"`; `required` defaults to false; `object_id` is present exactly for dict objects |
| Suggest.InstanceFields | src/brainiak/suggest/suggest.py:377-408 | fails exactly when a property lacks a schema entry or title; otherwise one entry per object value in all |
| Suggest.InstanceFieldsAppend | src/brainiak/suggest/suggest.py:386-406 | the entries of a hit are those of its properties, one property after another |
| Suggest.RemoveTitleField | src/brainiak/suggest/suggest.py:424-431 | the title field is gone from `fields` and everything else is unchanged; an absent field leaves the item as it was |
| Suggest.FieldsByClass | src/brainiak/suggest/suggest.py:254-266 | succeeds exactly when every entry is well formed, and then gives exactly the union of all entries' `instance_fields` |
| Suggest.ShouldClauses | src/brainiak/suggest/suggest.py:270-284 | one phrase query per token in order, then one wildcard query per search field, all with the same wildcard pattern |
| Suggest.CompatibleBody | src/brainiak/suggest/suggest.py:269-298 | the body has no `sort` key; `minimum_should_match` is the number of tokens; the `should` list and type filter are as built |
| Suggest.PhraseTokensOfBody | src/brainiak/suggest/suggest.py:271-279 | the phrase queries of the body quote exactly the analyzed tokens, in order |
| Suggest.WildcardOfWords | src/brainiak/suggest/suggest.py:281-283 | a pattern of words separated by single spaces gives those words joined by `*`, lower-cased, with a trailing `*` |
| Suggest.DropDashes | src/brainiak/suggest/suggest.py:303 | no lone `-` remains, and every other word is kept |
| Suggest.BodyQuery | src/brainiak/suggest/suggest.py:301-331 | the query string is required and the same text as a phrase is optional; no `sort` key; the type filter |
| Suggest.QueryStringOfWords | src/brainiak/suggest/suggest.py:302-304 | words without lone dashes give the lower-cased words joined by `* AND `, with a trailing `*` |
| Suggest.QueryStringDropsDashes | src/brainiak/suggest/suggest.py:302-304 | a lone `-` anywhere in the pattern does not change the query string |
| Strings.SplitJoin | src/brainiak/suggest/suggest.py:281 | splitting words joined by single spaces gives the words back |
| Strings.SplitLower | src/brainiak/suggest/suggest.py:302 | lower-casing before or after splitting gives the same words |

## Left out

- Triplestore and search-engine I/O are left out, because they are network calls: the SPARQL
  queries, `run_search`, `run_analyze`, `get_subproperties`, `get_cached_schema` and
  `_get_class_fields_value`. Their results (bindings, range classes and graphs, hit fields,
  schema properties, analyzed tokens) are parameters.
- The super-property map of `get_super_properties` (get_instance.py:24) is not computed: that
  helper of `brainiak.utils.sparql` is not modelled line by line, so the map it derives from the
  bindings is a parameter of `GetInstance.BuildItemsDict`.
- The SPARQL templates, `Query.triples` and `Query.to_string` are left out. They are text
  interpolation, and `to_string` reads the object's members by reflection.
- `cast_item` and the type-mapper casts are left out: they are float and int constructors
  driven by a type table, and numbers are integers here.
- `build_json`, pagination and `calculate_offset` are left out, because they live in modules
  outside the core. The suggest bodies take the page offset and size as parameters, and the
  `int(...)` conversion of `per_page` is not modelled.
- `settings.GRAPHS_WITHOUT_INSTANCES` and `DEFAULT_PER_PAGE` are parameters: `settings.py`
  does not define them.
- `search.py` is left out: it is a thin search-engine wrapper.
- The concrete 23-entry namespace table of `brainiak.prefixes` is left out. The registry is a
  parameter, and the laws hold for every registry (the round trip for every consistent one).
- Python's hash order for `dict.items()` and `list(set(...))` is not computed. Where it decides
  an outcome (the super-property filter of `build_items_dict`), the order is an argument of
  `BuildItemsDict`, `AssembleInstance` and `GetInstance`, and their contracts hold for every
  enumeration of the keys; which enumeration CPython picks is not modelled. Elsewhere
  first-occurrence order stands in, and the contracts state only contents.
- Floating-point numbers are left out: JSON numbers are integers.
- Python's cross-type equality (`1 == True`, `1 == 1.0`) is left out. Equality is structural,
  and in `apply_patch` ordering `False`/`True` sort as 0/1.
- Unicode case mapping and normalisation are left out: `lower()`/`upper()` change ASCII letters
  only.
- PatchInstance.Step: a non-string `path` is an error value (`PathNotString`); the source would
  fail inside `normalize_uri` with a Python exception, which is modelled as this error value.
- Aliasing is modelled inside `apply_patch` (the data copy is shallow), but not its effect on
  the caller's dict: `add` on a list-valued key also extends the caller's list. Likewise
  `merge_by_id` mutates the caller's row dicts and lists, and only the returned list is modelled.
- CollectionQuery.LiteralFilters: the `not in filter_list` check compares structured clauses
  (numbered variable and object) rather than rendered strings. Rendering is injective on them,
  so the outcome is the same.
- GetInstance.AssembleInstance: only a call without a `context` argument is modelled, so the
  build always starts from a fresh `MemorizeContext` (get_instance.py:60-62). A caller-supplied
  context, whose earlier entries would also appear in `@context`, is not modelled.
- GetInstance.AssembleInstance: the side effect on `query_params.resource_url`
  (get_instance.py:65-66) is not modelled, since `build_class_url` is outside this model. Its
  byte-string `"{0}/{1}".format(...)` would raise `UnicodeEncodeError` for a non-ASCII
  `instance_id`, and that failure is not modelled either.
- GetInstance.SetLabel: `expand_uri` at get_instance.py:52 is the one imported from
  `brainiak.utils.sparql` (get_instance.py:6), whose code is not modelled line by line. It is
  modelled by `Prefixes.ExpandUri`, the expansion `apply_patch` uses through `normalize_uri`.
- `MemorizeContext.prefix_to_slug` is modelled only as the `@context` update that shortening
  performs.
- Suggest.InstanceFields: the hit's `fields` dict is given as a sequence of `(key, value)` pairs
  in iteration order, and each schema entry as a map. A `properties` entry that is not a dict is
  not modelled.
- Suggest.FieldsByClass: an `instance_fields` value that is not a list is an error value
  (`NotAList`). Python would build a set of a string's characters or a dict's keys. The
  per-class table the source also builds is never returned, and is not modelled.
- Suggest.CompatibleBody: the analyzed tokens are given as their `token` strings, so a token
  dict lacking `token` is not modelled. Three Python 2 encoding failures are not modelled:
  `str(field)` on a non-ASCII field name (suggest.py:283), and the byte-string formats
  `'"{0}"'.format(token)` (suggest.py:275) and `"{0}*".format(pattern)` (suggest.py:283), which
  raise `UnicodeEncodeError` for a non-ASCII token or pattern. The model builds the body for
  those inputs instead.
- Suggest.ShouldClauses: the phrase and wildcard queries are built for every token and pattern;
  the `UnicodeEncodeError` of the byte-string formats at suggest.py:275 and suggest.py:283 on
  non-ASCII text is not modelled.
- `do_suggest`, `_build_items` and `get_instance_class_schema` are left out: they orchestrate the
  I/O above. `_build_class_fields_query` and `_get_response_fields` are left out as well.
