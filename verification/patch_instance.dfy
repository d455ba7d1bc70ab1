/** `apply_patch`: a list of patch items applied to an instance's property map. Paths are flat
    property keys (expanded through the prefix registry), not RFC 6901 paths. */
module PatchInstance {
  import opened Wrappers
  import opened Json
  import Seqs
  import opened Prefixes

  const ERROR_MSG: string :=
    "Incorrect patch item. Every object in the list must contain the following keys: ['op', 'path']"

  /** A patch item is a JSON object; `op`, `path` and `value` are looked up in it. */
  type PatchItem = map<string, Json>

  datatype PatchError =
    | BadRequest(status: int, message: string)  // an item without `op` or `path`
    | MissingValue                              // `replace`/`add` without `value` (an uncaught KeyError)
    | PathNotString                             // a non-string `path` cannot be normalised
    | PathError(e: PrefixError)                 // a `path` with an unknown prefix
    | Unhashable                                // `add` over a list or object value (set() fails)

  /** The shallow copy of the instance data, and the map of patched values that wins at the end. */
  datatype PatchState = PatchState(original: map<string, Json>, patch: map<string, Json>)

  /** Python 2 ordering of hashable JSON values: None, then numbers (False and True are 0 and
      1), then strings. */
  function AtomKeyOf(j: Json): Seqs.AtomKey {
    match j
    case Null => Seqs.KNone
    case Bool(b) => Seqs.KNum(if b then 1 else 0)
    case Num(n) => Seqs.KNum(n)
    case Str(s) => Seqs.KStr(s)
    case _ => Seqs.KNone
  }

  /** `sorted(list(set(values)))` on hashable values. */
  function SortedSet(values: seq<Json>): (r: seq<Json>)
    ensures Seqs.StrictlySorted(r, AtomKeyOf)
    ensures Seqs.Keys(r, AtomKeyOf) == Seqs.Keys(values, AtomKeyOf)
    ensures forall y :: y in r ==> y in values
  {
    Seqs.SortUnique(values, AtomKeyOf)
  }

  /** The `add` operation at the expanded key `p`. The existing values come from the original
      data (absent means none, a scalar is lifted); when they are a list, that list is the one
      stored in the original data and is extended in place. */
  function Add(st: PatchState, p: string, value: Json): (r: Result<PatchState, PatchError>)
    ensures var values := (if p in st.original then AsList(st.original[p]) else []) + AsList(value);
            && (r.Ok? <==> forall x | x in values :: Hashable(x))
            && (r.Ok? ==> p in r.value.patch && r.value.patch[p] == Arr(SortedSet(values)))
            && (r.Ok? ==> r.value.patch == st.patch[p := Arr(SortedSet(values))])
            && (r.Ok? && p in st.original && st.original[p].Arr? ==>
                  r.value.original == st.original[p := Arr(values)])
            && (r.Ok? && !(p in st.original && st.original[p].Arr?) ==> r.value.original == st.original)
  {
    var existing := if p in st.original then AsList(st.original[p]) else [];
    var values := existing + AsList(value);
    if exists x | x in values :: !Hashable(x) then Err(Unhashable)
    else
      var original := if p in st.original && st.original[p].Arr? then st.original[p := Arr(values)]
                      else st.original;
      Ok(PatchState(original, st.patch[p := Arr(SortedSet(values))]))
  }

  /** The key an item addresses: its `path`, expanded. */
  function ItemPath(reg: Registry, item: PatchItem): (r: Result<string, PatchError>)
    ensures "op" !in item || "path" !in item <==> r == Err(BadRequest(400, ERROR_MSG))
    ensures "op" in item && "path" in item && item["path"].Str? ==>
      match NormalizeUri(reg, item["path"].s, Expand)
      case Ok(p) => r == Ok(p)
      case Err(e) => r == Err(PathError(e))
  {
    if "op" !in item || "path" !in item then Err(BadRequest(400, ERROR_MSG))
    else match item["path"]
      case Str(path) =>
        (match NormalizeUri(reg, path, Expand)
         case Ok(p) => Ok(p)
         case Err(e) => Err(PathError(e)))
      case _ => Err(PathNotString)
  }

  /** One iteration of the loop over the patch list. It stops on a malformed item; otherwise it
      never adds a key to the data copy, a new patched key is one the item writes, and a key
      leaves the data copy only when the item removes it. */
  function Step(reg: Registry, st: PatchState, item: PatchItem): (r: Result<PatchState, PatchError>)
    ensures ItemPath(reg, item).Err? ==> r == Err(ItemPath(reg, item).error)
    ensures r.Ok? ==> r.value.original.Keys <= st.original.Keys
    ensures r.Ok? ==> forall k | k in r.value.patch && k !in st.patch :: Writes(reg, item, k)
    ensures r.Ok? ==> forall k | k in st.original && k !in r.value.original :: Removes(reg, item, k)
  {
    match ItemPath(reg, item)
    case Err(e) => Err(e)
    case Ok(p) =>
      var op := item["op"];
      if op == Str("replace") then
        if "value" !in item then Err(MissingValue)
        else Ok(st.(patch := st.patch[p := item["value"]]))
      else if op == Str("remove") then Ok(st.(original := st.original - {p}))
      else if op == Str("add") then
        if "value" !in item then Err(MissingValue)
        else Add(st, p, item["value"])
      else Ok(st)
  }

  function ApplyFrom(reg: Registry, st: PatchState, items: seq<PatchItem>): Result<PatchState, PatchError>
    decreases |items|
  {
    if items == [] then Ok(st)
    else match Step(reg, st, items[0])
      case Err(e) => Err(e)
      case Ok(st') => ApplyFrom(reg, st', items[1..])
  }

  /** `apply_patch`: the copy of the data, updated item by item, with the patched values laid
      over it. An empty list changes nothing; a key the data lacks is in the result only when
      some item writes it, and a key of the data is missing only when some item removes it. */
  function ApplyPatch(reg: Registry, data: map<string, Json>, items: seq<PatchItem>)
    : (r: Result<map<string, Json>, PatchError>)
    ensures items == [] ==> r == Ok(data)
    ensures r.Ok? ==>
      forall k | k in r.value && k !in data :: exists i | 0 <= i < |items| :: Writes(reg, items[i], k)
    ensures r.Ok? ==>
      forall k | k in data && k !in r.value :: exists i | 0 <= i < |items| :: Removes(reg, items[i], k)
  {
    ApplyFromProvenance(reg, PatchState(data, map[]), items);
    assert data + map[] == data;
    match ApplyFrom(reg, PatchState(data, map[]), items)
    case Err(e) => Err(e)
    case Ok(st) => Ok(st.original + st.patch)
  }

  /** Where the keys of a run come from: the data copy never gains one, a new patched key was
      written by some item, and a key that left the data copy was removed by some item. */
  lemma {:induction false} ApplyFromProvenance(reg: Registry, st: PatchState, items: seq<PatchItem>)
    ensures ApplyFrom(reg, st, items).Ok? ==>
              var st' := ApplyFrom(reg, st, items).value;
              && st'.original.Keys <= st.original.Keys
              && (forall k | k in st'.patch && k !in st.patch ::
                    exists i | 0 <= i < |items| :: Writes(reg, items[i], k))
              && (forall k | k in st.original && k !in st'.original ::
                    exists i | 0 <= i < |items| :: Removes(reg, items[i], k))
    decreases |items|
  {
    if items != [] && ApplyFrom(reg, st, items).Ok? {
      var st1 := Step(reg, st, items[0]).value;
      assert ApplyFrom(reg, st, items) == ApplyFrom(reg, st1, items[1..]);
      ApplyFromProvenance(reg, st1, items[1..]);
      var st' := ApplyFrom(reg, st, items).value;
      forall k | k in st'.patch && k !in st.patch
        ensures exists i | 0 <= i < |items| :: Writes(reg, items[i], k)
      {
        if k in st1.patch {
          assert Writes(reg, items[0], k);
        } else {
          var i :| 0 <= i < |items[1..]| && Writes(reg, items[1..][i], k);
          assert items[1..][i] == items[i + 1];
        }
      }
      forall k | k in st.original && k !in st'.original
        ensures exists i | 0 <= i < |items| :: Removes(reg, items[i], k)
      {
        if k !in st1.original {
          assert Removes(reg, items[0], k);
        } else {
          var i :| 0 <= i < |items[1..]| && Removes(reg, items[1..][i], k);
          assert items[1..][i] == items[i + 1];
        }
      }
    }
  }

  /** The item removes `p`: a `remove` addressing it. */
  predicate Removes(reg: Registry, item: PatchItem, p: string) {
    Addressed(reg, item) == Some(p) && "op" in item && item["op"] == Str("remove")
  }

  /** The key an item addresses when it addresses one. */
  function Addressed(reg: Registry, item: PatchItem): Option<string> {
    match ItemPath(reg, item)
    case Ok(p) => Some(p)
    case Err(_) => None
  }

  /** A step changes the two maps at most at the key its item addresses. */
  lemma StepTouchesOnlyItsKey(reg: Registry, st: PatchState, item: PatchItem, k: string)
    requires Step(reg, st, item).Ok?
    requires Addressed(reg, item) != Some(k)
    ensures var st' := Step(reg, st, item).value;
            && (k in st'.original <==> k in st.original)
            && (k in st.original ==> st'.original[k] == st.original[k])
            && (k in st'.patch <==> k in st.patch)
            && (k in st.patch ==> st'.patch[k] == st.patch[k])
  {
  }

  lemma {:induction false} ApplyFromUntouched(reg: Registry, st: PatchState, items: seq<PatchItem>, k: string)
    requires ApplyFrom(reg, st, items).Ok?
    requires forall i | 0 <= i < |items| :: Addressed(reg, items[i]) != Some(k)
    ensures var st' := ApplyFrom(reg, st, items).value;
            && (k in st'.original <==> k in st.original)
            && (k in st.original ==> st'.original[k] == st.original[k])
            && (k in st'.patch <==> k in st.patch)
            && (k in st.patch ==> st'.patch[k] == st.patch[k])
    decreases |items|
  {
    if items != [] {
      var st1 := Step(reg, st, items[0]).value;
      StepTouchesOnlyItsKey(reg, st, items[0], k);
      assert ApplyFrom(reg, st, items) == ApplyFrom(reg, st1, items[1..]);
      assert forall i | 0 <= i < |items[1..]| :: items[1..][i] == items[i + 1];
      ApplyFromUntouched(reg, st1, items[1..], k);
    }
  }

  /** A key that no patch item addresses keeps its original value (or stays absent). */
  lemma UntouchedKeysKept(reg: Registry, data: map<string, Json>, items: seq<PatchItem>, k: string)
    requires ApplyPatch(reg, data, items).Ok?
    requires forall i | 0 <= i < |items| :: Addressed(reg, items[i]) != Some(k)
    ensures var r := ApplyPatch(reg, data, items).value;
            && (k in r <==> k in data)
            && (k in data ==> r[k] == data[k])
  {
    ApplyFromUntouched(reg, PatchState(data, map[]), items, k);
  }

  /** A successful patch had `op` and `path` in every item. */
  lemma {:induction false} AppliedItemsHaveOpAndPath(reg: Registry, st: PatchState, items: seq<PatchItem>)
    requires ApplyFrom(reg, st, items).Ok?
    ensures forall i | 0 <= i < |items| :: "op" in items[i] && "path" in items[i]
    decreases |items|
  {
    if items != [] {
      var st1 := Step(reg, st, items[0]).value;
      assert ApplyFrom(reg, st, items) == ApplyFrom(reg, st1, items[1..]);
      AppliedItemsHaveOpAndPath(reg, st1, items[1..]);
      forall i | 0 < i < |items|
        ensures "op" in items[i] && "path" in items[i]
      {
        assert items[i] == items[1..][i - 1];
      }
    }
  }

  /** An item that lacks `op` or `path`, reached after every item before it has been applied
      without error, stops the patch with the 400 error, whatever follows it. */
  lemma MissingOpOrPathRejected(reg: Registry, data: map<string, Json>, items: seq<PatchItem>, i: nat)
    requires i < |items|
    requires ApplyFrom(reg, PatchState(data, map[]), items[..i]).Ok?
    requires "op" !in items[i] || "path" !in items[i]
    ensures ApplyPatch(reg, data, items) == Err(BadRequest(400, ERROR_MSG))
  {
    assert items == items[..i] + items[i..];
    ApplyFromAppend(reg, PatchState(data, map[]), items[..i], items[i..]);
    assert items[i..][0] == items[i];
  }

  /** An item whose `op` is none of `replace`, `remove` and `add` changes nothing. */
  lemma UnknownOpChangesNothing(reg: Registry, st: PatchState, item: PatchItem)
    requires ItemPath(reg, item).Ok?
    requires item["op"] != Str("replace") && item["op"] != Str("remove") && item["op"] != Str("add")
    ensures Step(reg, st, item) == Ok(st)
  {
  }

  function ReplaceItem(path: string, value: Json): PatchItem {
    map["op" := Str("replace"), "path" := Str(path), "value" := value]
  }

  function RemoveItem(path: string): PatchItem {
    map["op" := Str("remove"), "path" := Str(path)]
  }

  function AddItem(path: string, value: Json): PatchItem {
    map["op" := Str("add"), "path" := Str(path), "value" := value]
  }

  lemma StepReplace(reg: Registry, st: PatchState, path: string, value: Json)
    requires ExpandUri(reg, path).Ok?
    ensures Step(reg, st, ReplaceItem(path, value))
         == Ok(st.(patch := st.patch[ExpandUri(reg, path).value := value]))
  {
    var item := ReplaceItem(path, value);
    assert "op" in item && "path" in item && "value" in item;
    assert item["path"] == Str(path) && item["op"] == Str("replace") && item["value"] == value;
  }

  lemma StepRemove(reg: Registry, st: PatchState, path: string)
    requires ExpandUri(reg, path).Ok?
    ensures Step(reg, st, RemoveItem(path)) == Ok(st.(original := st.original - {ExpandUri(reg, path).value}))
  {
    var item := RemoveItem(path);
    assert "op" in item && "path" in item;
    assert item["path"] == Str(path) && item["op"] == Str("remove");
  }

  lemma StepAdd(reg: Registry, st: PatchState, path: string, value: Json)
    requires ExpandUri(reg, path).Ok?
    ensures Step(reg, st, AddItem(path, value)) == Add(st, ExpandUri(reg, path).value, value)
  {
    var item := AddItem(path, value);
    assert "op" in item && "path" in item && "value" in item;
    assert item["path"] == Str(path) && item["op"] == Str("add") && item["value"] == value;
  }

  lemma ApplyOne(reg: Registry, st: PatchState, a: PatchItem)
    ensures ApplyFrom(reg, st, [a]) == Step(reg, st, a)
  {
    assert [a][1..] == [];
  }

  lemma ApplyTwo(reg: Registry, st: PatchState, a: PatchItem, b: PatchItem)
    requires Step(reg, st, a).Ok?
    ensures ApplyFrom(reg, st, [a, b]) == Step(reg, Step(reg, st, a).value, b)
  {
    assert [a, b][1..] == [b];
    ApplyOne(reg, Step(reg, st, a).value, b);
  }

  /** `replace` sets the key, adding it when absent. */
  lemma ReplaceSets(reg: Registry, data: map<string, Json>, path: string, value: Json)
    requires ExpandUri(reg, path).Ok?
    ensures ApplyPatch(reg, data, [ReplaceItem(path, value)])
         == Ok(data[ExpandUri(reg, path).value := value])
  {
    var p := ExpandUri(reg, path).value;
    ApplyOne(reg, PatchState(data, map[]), ReplaceItem(path, value));
    StepReplace(reg, PatchState(data, map[]), path, value);
    assert data + map[p := value] == data[p := value];
  }

  /** `remove` deletes the key; an absent key is no error and leaves the data as it was. */
  lemma RemoveDeletes(reg: Registry, data: map<string, Json>, path: string)
    requires ExpandUri(reg, path).Ok?
    ensures ApplyPatch(reg, data, [RemoveItem(path)]) == Ok(data - {ExpandUri(reg, path).value})
    ensures ExpandUri(reg, path).value !in data ==> ApplyPatch(reg, data, [RemoveItem(path)]) == Ok(data)
  {
    var p := ExpandUri(reg, path).value;
    ApplyOne(reg, PatchState(data, map[]), RemoveItem(path));
    StepRemove(reg, PatchState(data, map[]), path);
    assert (data - {p}) + map[] == data - {p};
    if p !in data {
      assert data - {p} == data;
    }
  }

  /** `add` stores the sorted, duplicate-free union of the existing and the new values, each
      side lifted to a list when it is a scalar. */
  lemma AddMerges(reg: Registry, data: map<string, Json>, path: string, value: Json)
    requires ExpandUri(reg, path).Ok?
    requires var p := ExpandUri(reg, path).value;
             forall x | x in (if p in data then AsList(data[p]) else []) + AsList(value) :: Hashable(x)
    ensures var p := ExpandUri(reg, path).value;
            var values := (if p in data then AsList(data[p]) else []) + AsList(value);
            ApplyPatch(reg, data, [AddItem(path, value)]) == Ok(data[p := Arr(SortedSet(values))])
  {
    var p := ExpandUri(reg, path).value;
    var st := PatchState(data, map[]);
    ApplyOne(reg, st, AddItem(path, value));
    StepAdd(reg, st, path, value);
    var st1 := Add(st, p, value).value;
    assert st1.original + st1.patch == data[p := st1.patch[p]];
  }

  /** A later `remove` does not cancel an earlier `replace` of the same key: the patched value
      is laid over the data at the end. */
  lemma RemoveAfterReplaceKeepsReplacement(reg: Registry, data: map<string, Json>, path: string, value: Json)
    requires ExpandUri(reg, path).Ok?
    ensures ApplyPatch(reg, data, [ReplaceItem(path, value), RemoveItem(path)])
         == Ok(data[ExpandUri(reg, path).value := value])
  {
    var p := ExpandUri(reg, path).value;
    var st0 := PatchState(data, map[]);
    var st1 := PatchState(data, map[p := value]);
    StepReplace(reg, st0, path, value);
    StepRemove(reg, st1, path);
    ApplyTwo(reg, st0, ReplaceItem(path, value), RemoveItem(path));
    assert (data - {p}) + map[p := value] == data[p := value];
  }

  /** `add` at an absent key stores the new values alone. */
  lemma AddToAbsent(st: PatchState, p: string, value: Json)
    requires p !in st.original
    requires forall x | x in AsList(value) :: Hashable(x)
    ensures Add(st, p, value) == Ok(PatchState(st.original, st.patch[p := Arr(SortedSet(AsList(value)))]))
  {
    assert [] + AsList(value) == AsList(value);
  }

  /** `add` at a key that holds a list extends that list in the original data. */
  lemma AddOverList(st: PatchState, p: string, value: Json)
    requires p in st.original && st.original[p].Arr?
    requires forall x | x in st.original[p].items + AsList(value) :: Hashable(x)
    ensures var values := st.original[p].items + AsList(value);
            Add(st, p, value) == Ok(PatchState(st.original[p := Arr(values)], st.patch[p := Arr(SortedSet(values))]))
  {
  }

  lemma StepAddToAbsent(reg: Registry, st: PatchState, path: string, value: Json)
    requires ExpandUri(reg, path).Ok? && ExpandUri(reg, path).value !in st.original
    requires forall x | x in AsList(value) :: Hashable(x)
    ensures Step(reg, st, AddItem(path, value))
         == Ok(st.(patch := st.patch[ExpandUri(reg, path).value := Arr(SortedSet(AsList(value)))]))
  {
    StepAdd(reg, st, path, value);
    AddToAbsent(st, ExpandUri(reg, path).value, value);
  }

  lemma StepAddOverList(reg: Registry, st: PatchState, path: string, value: Json, p: string, values: seq<Json>)
    requires ExpandUri(reg, path) == Ok(p)
    requires p in st.original && st.original[p].Arr? && values == st.original[p].items + AsList(value)
    requires forall x | x in values :: Hashable(x)
    ensures Step(reg, st, AddItem(path, value))
         == Ok(PatchState(st.original[p := Arr(values)], st.patch[p := Arr(SortedSet(values))]))
  {
    StepAdd(reg, st, path, value);
    AddOverList(st, p, value);
  }

  lemma UpdateTwice<V>(m: map<string, V>, k: string, a: V, b: V)
    ensures m[k := a][k := b] == m[k := b]
  {
  }

  lemma OverlayOne<V>(m: map<string, V>, k: string, a: V, b: V)
    ensures m[k := a] + map[k := b] == m[k := b]
  {
  }

  lemma ApplyPatchOfTwo(reg: Registry, data: map<string, Json>, a: PatchItem, b: PatchItem,
                        st1: PatchState, st2: PatchState)
    requires Step(reg, PatchState(data, map[]), a) == Ok(st1)
    requires Step(reg, st1, b) == Ok(st2)
    ensures ApplyPatch(reg, data, [a, b]) == Ok(st2.original + st2.patch)
  {
    ApplyTwo(reg, PatchState(data, map[]), a, b);
  }

  lemma ApplyPatchOf(reg: Registry, data: map<string, Json>, items: seq<PatchItem>, st: PatchState)
    requires ApplyFrom(reg, PatchState(data, map[]), items) == Ok(st)
    ensures ApplyPatch(reg, data, items) == Ok(st.original + st.patch)
  {
  }

  /** `add` reads the existing values from the original data, never from earlier patches: two
      `add`s to an absent key keep only the second one's values. */
  lemma SecondAddOverridesFirst(reg: Registry, data: map<string, Json>, path: string, v1: Json, v2: Json)
    requires ExpandUri(reg, path).Ok?
    requires ExpandUri(reg, path).value !in data
    requires forall x | x in AsList(v1) + AsList(v2) :: Hashable(x)
    ensures ApplyPatch(reg, data, [AddItem(path, v1), AddItem(path, v2)])
         == Ok(data[ExpandUri(reg, path).value := Arr(SortedSet(AsList(v2)))])
  {
    var p := ExpandUri(reg, path).value;
    assert forall x | x in AsList(v1) :: x in AsList(v1) + AsList(v2);
    assert forall x | x in AsList(v2) :: x in AsList(v1) + AsList(v2);
    var s1 := Arr(SortedSet(AsList(v1)));
    var s2 := Arr(SortedSet(AsList(v2)));
    var st0 := PatchState(data, map[]);
    var st1 := PatchState(data, map[][p := s1]);
    var st2 := PatchState(data, st1.patch[p := s2]);
    StepAddToAbsent(reg, st0, path, v1);
    StepAddToAbsent(reg, st1, path, v2);
    ApplyPatchOfTwo(reg, data, AddItem(path, v1), AddItem(path, v2), st1, st2);
    UpdateTwice(map[], p, s1, s2);
    OverlaySingle(data, p, s2);
  }

  lemma OverlaySingle<V>(m: map<string, V>, k: string, b: V)
    ensures m + map[k := b] == m[k := b]
  {
  }

  /** Two `add`s to a key that holds a list accumulate: the first extended that list in place,
      so the second reads the extended list. */
  lemma AddsAccumulateOnList(reg: Registry, data: map<string, Json>, path: string, v1: Json, v2: Json)
    requires ExpandUri(reg, path).Ok?
    requires var p := ExpandUri(reg, path).value; p in data && data[p].Arr?
    requires var p := ExpandUri(reg, path).value;
             forall x | x in data[p].items + AsList(v1) + AsList(v2) :: Hashable(x)
    ensures var p := ExpandUri(reg, path).value;
            var values := data[p].items + AsList(v1) + AsList(v2);
            ApplyPatch(reg, data, [AddItem(path, v1), AddItem(path, v2)])
              == Ok(data[p := Arr(SortedSet(values))])
  {
    var p := ExpandUri(reg, path).value;
    var e1 := data[p].items + AsList(v1);
    var all := e1 + AsList(v2);
    assert forall x | x in e1 :: x in all;
    var st1 := PatchState(data[p := Arr(e1)], map[p := Arr(SortedSet(e1))]);
    var st2 := PatchState(st1.original[p := Arr(all)], st1.patch[p := Arr(SortedSet(all))]);
    StepAddOverList(reg, PatchState(data, map[]), path, v1, p, e1);
    StepAddOverList(reg, st1, path, v2, p, all);
    ApplyPatchOfTwo(reg, data, AddItem(path, v1), AddItem(path, v2), st1, st2);
    UpdateTwice(map[], p, Arr(SortedSet(e1)), Arr(SortedSet(all)));
    UpdateTwice(data, p, Arr(e1), Arr(all));
    OverlayOne(data, p, Arr(all), Arr(SortedSet(all)));
  }

  /** The item lays a patched value at `p`: a `replace` or an `add` addressing it. */
  predicate Writes(reg: Registry, item: PatchItem, p: string) {
    Addressed(reg, item) == Some(p) && "op" in item && (item["op"] == Str("replace") || item["op"] == Str("add"))
  }

  /** A step that does not write `p` keeps the patched value at `p`. */
  lemma StepKeepsPatch(reg: Registry, st: PatchState, item: PatchItem, p: string)
    requires Step(reg, st, item).Ok?
    requires !Writes(reg, item, p) && p in st.patch
    ensures p in Step(reg, st, item).value.patch && Step(reg, st, item).value.patch[p] == st.patch[p]
  {
  }

  lemma {:induction false} ApplyFromKeepsPatch(reg: Registry, st: PatchState, items: seq<PatchItem>, p: string)
    requires ApplyFrom(reg, st, items).Ok?
    requires p in st.patch
    requires forall j | 0 <= j < |items| :: !Writes(reg, items[j], p)
    ensures p in ApplyFrom(reg, st, items).value.patch
    ensures ApplyFrom(reg, st, items).value.patch[p] == st.patch[p]
    decreases |items|
  {
    if items != [] {
      var st1 := Step(reg, st, items[0]).value;
      StepKeepsPatch(reg, st, items[0], p);
      assert ApplyFrom(reg, st, items) == ApplyFrom(reg, st1, items[1..]);
      assert forall j | 0 <= j < |items[1..]| :: items[1..][j] == items[j + 1];
      ApplyFromKeepsPatch(reg, st1, items[1..], p);
    }
  }

  /** Applying `a + b` applies `a`, then `b` from where `a` left off. */
  lemma {:induction false} ApplyFromAppend(reg: Registry, st: PatchState, a: seq<PatchItem>, b: seq<PatchItem>)
    ensures ApplyFrom(reg, st, a + b)
         == match ApplyFrom(reg, st, a)
            case Err(e) => Err(e)
            case Ok(s) => ApplyFrom(reg, s, b)
    decreases |a|
  {
    if a == [] {
      assert a + b == b;
    } else {
      assert (a + b)[0] == a[0] && (a + b)[1..] == a[1..] + b;
      match Step(reg, st, a[0])
      case Err(_) =>
      case Ok(st1) => ApplyFromAppend(reg, st1, a[1..], b);
    }
  }

  /** A successful run passes through the state before item `i`, steps over it, and carries on
      from there. */
  lemma ApplyFromSplit(reg: Registry, st: PatchState, items: seq<PatchItem>, i: nat)
    requires i < |items|
    requires ApplyFrom(reg, st, items).Ok?
    ensures ApplyFrom(reg, st, items[..i]).Ok?
    ensures Step(reg, ApplyFrom(reg, st, items[..i]).value, items[i]).Ok?
    ensures ApplyFrom(reg, st, items)
         == ApplyFrom(reg, Step(reg, ApplyFrom(reg, st, items[..i]).value, items[i]).value, items[i + 1..])
  {
    assert items == items[..i] + items[i..];
    ApplyFromAppend(reg, st, items[..i], items[i..]);
    assert items[i..][0] == items[i] && items[i..][1..] == items[i + 1..];
  }

  /** After a successful run the patched values win over the copied data. */
  lemma PatchedValueWins(reg: Registry, data: map<string, Json>, items: seq<PatchItem>, p: string)
    requires ApplyFrom(reg, PatchState(data, map[]), items).Ok?
    requires p in ApplyFrom(reg, PatchState(data, map[]), items).value.patch
    ensures p in ApplyPatch(reg, data, items).value
    ensures ApplyPatch(reg, data, items).value[p] == ApplyFrom(reg, PatchState(data, map[]), items).value.patch[p]
  {
  }

  /** The last `replace` of a key decides its value when no `add` or `replace` of that key
      follows it, whatever `remove`s come after: removal only touches the copied data, over
      which the patched values are laid at the end. */
  lemma LastReplaceWins(reg: Registry, data: map<string, Json>, items: seq<PatchItem>, i: nat, p: string)
    requires ApplyPatch(reg, data, items).Ok?
    requires i < |items|
    requires Addressed(reg, items[i]) == Some(p) && "op" in items[i] && items[i]["op"] == Str("replace")
    requires forall j | i < j < |items| :: !Writes(reg, items[j], p)
    ensures "value" in items[i]
    ensures p in ApplyPatch(reg, data, items).value && ApplyPatch(reg, data, items).value[p] == items[i]["value"]
  {
    var st0 := PatchState(data, map[]);
    ApplyFromSplit(reg, st0, items, i);
    var after := Step(reg, ApplyFrom(reg, st0, items[..i]).value, items[i]).value;
    var rest := items[i + 1..];
    forall j | 0 <= j < |rest|
      ensures !Writes(reg, rest[j], p)
    {
      assert rest[j] == items[i + 1 + j];
    }
    ApplyFromKeepsPatch(reg, after, rest, p);
    PatchedValueWins(reg, data, items, p);
  }

  /** The last `add` to a key decides its value in the same way: the sorted union of the values
      the copied data held at that point and the added ones. */
  lemma LastAddWins(reg: Registry, data: map<string, Json>, items: seq<PatchItem>, i: nat, p: string)
    requires ApplyPatch(reg, data, items).Ok?
    requires i < |items|
    requires Addressed(reg, items[i]) == Some(p) && "op" in items[i] && items[i]["op"] == Str("add")
    requires forall j | i < j < |items| :: !Writes(reg, items[j], p)
    ensures "value" in items[i]
    ensures ApplyFrom(reg, PatchState(data, map[]), items[..i]).Ok?
    ensures var before := ApplyFrom(reg, PatchState(data, map[]), items[..i]).value.original;
            var values := (if p in before then AsList(before[p]) else []) + AsList(items[i]["value"]);
            p in ApplyPatch(reg, data, items).value && ApplyPatch(reg, data, items).value[p] == Arr(SortedSet(values))
  {
    var st0 := PatchState(data, map[]);
    ApplyFromSplit(reg, st0, items, i);
    var after := Step(reg, ApplyFrom(reg, st0, items[..i]).value, items[i]).value;
    var rest := items[i + 1..];
    forall j | 0 <= j < |rest|
      ensures !Writes(reg, rest[j], p)
    {
      assert rest[j] == items[i + 1 + j];
    }
    ApplyFromKeepsPatch(reg, after, rest, p);
    PatchedValueWins(reg, data, items, p);
  }

  lemma UpdateThenDrop<V>(m: map<string, V>, k: string, a: V)
    ensures m[k := a] - {k} == m - {k}
  {
  }

  lemma DropThenOverlay<V>(m: map<string, V>, k: string, b: V)
    ensures (m - {k}) + map[k := b] == m[k := b]
  {
  }

  /** A later `remove` does not cancel an earlier `add` of the same key. */
  lemma RemoveAfterAddKeepsAdd(reg: Registry, data: map<string, Json>, path: string, value: Json)
    requires ExpandUri(reg, path).Ok?
    requires var p := ExpandUri(reg, path).value;
             forall x | x in (if p in data then AsList(data[p]) else []) + AsList(value) :: Hashable(x)
    ensures var p := ExpandUri(reg, path).value;
            var values := (if p in data then AsList(data[p]) else []) + AsList(value);
            ApplyPatch(reg, data, [AddItem(path, value), RemoveItem(path)]) == Ok(data[p := Arr(SortedSet(values))])
  {
    var p := ExpandUri(reg, path).value;
    var values := (if p in data then AsList(data[p]) else []) + AsList(value);
    var s := Arr(SortedSet(values));
    var st0 := PatchState(data, map[]);
    StepAdd(reg, st0, path, value);
    var st1 := Add(st0, p, value).value;
    StepRemove(reg, st1, path);
    var st2 := st1.(original := st1.original - {p});
    ApplyPatchOfTwo(reg, data, AddItem(path, value), RemoveItem(path), st1, st2);
    UpdateThenDrop(data, p, Arr(values));
    assert st2.original == data - {p};
    assert st2.patch == map[p := s];
    DropThenOverlay(data, p, s);
  }

  /** `add` reads the existing values from the copied data, never from earlier patches: an
      `add` after a `replace` of the same key discards the replacement. */
  lemma AddAfterReplaceIgnoresReplacement(reg: Registry, data: map<string, Json>, path: string, v1: Json, v2: Json)
    requires ExpandUri(reg, path).Ok?
    requires var p := ExpandUri(reg, path).value;
             forall x | x in (if p in data then AsList(data[p]) else []) + AsList(v2) :: Hashable(x)
    ensures ApplyPatch(reg, data, [ReplaceItem(path, v1), AddItem(path, v2)])
         == ApplyPatch(reg, data, [AddItem(path, v2)])
  {
    var p := ExpandUri(reg, path).value;
    var values := (if p in data then AsList(data[p]) else []) + AsList(v2);
    var s := Arr(SortedSet(values));
    var st0 := PatchState(data, map[]);
    var st1 := PatchState(data, map[p := v1]);
    StepReplace(reg, st0, path, v1);
    StepAdd(reg, st1, path, v2);
    var st2 := Add(st1, p, v2).value;
    ApplyPatchOfTwo(reg, data, ReplaceItem(path, v1), AddItem(path, v2), st1, st2);
    UpdateTwice(map[], p, v1, s);
    AddMerges(reg, data, path, v2);
    if p in data && data[p].Arr? {
      OverlayOne(data, p, Arr(values), s);
    } else {
      OverlaySingle(data, p, s);
    }
  }

  /** A `replace` after an `add` of the same key wins. */
  lemma ReplaceAfterAddWins(reg: Registry, data: map<string, Json>, path: string, v1: Json, v2: Json)
    requires ExpandUri(reg, path).Ok?
    requires var p := ExpandUri(reg, path).value;
             forall x | x in (if p in data then AsList(data[p]) else []) + AsList(v1) :: Hashable(x)
    ensures ApplyPatch(reg, data, [AddItem(path, v1), ReplaceItem(path, v2)])
         == Ok(data[ExpandUri(reg, path).value := v2])
  {
    var p := ExpandUri(reg, path).value;
    var values := (if p in data then AsList(data[p]) else []) + AsList(v1);
    var s := Arr(SortedSet(values));
    var st0 := PatchState(data, map[]);
    StepAdd(reg, st0, path, v1);
    var st1 := Add(st0, p, v1).value;
    StepReplace(reg, st1, path, v2);
    var st2 := st1.(patch := st1.patch[p := v2]);
    ApplyPatchOfTwo(reg, data, AddItem(path, v1), ReplaceItem(path, v2), st1, st2);
    UpdateTwice(map[], p, s, v2);
    if p in data && data[p].Arr? {
      OverlayOne(data, p, Arr(values), v2);
    } else {
      OverlaySingle(data, p, v2);
    }
  }

  /** A `slug:local` path and the full URI it expands to address the same key, so an item
      behaves the same with either. */
  lemma ShortAndFullPathAgree(reg: Registry, st: PatchState, item: PatchItem, slug: string, local: string)
    requires slug in reg.slugToNamespace && ':' !in slug
    requires !IsHttpUri(slug + ":" + local) && IsHttpUri(reg.slugToNamespace[slug] + local)
    ensures ExpandUri(reg, slug + ":" + local) == Ok(reg.slugToNamespace[slug] + local)
    ensures Step(reg, st, item["path" := Str(slug + ":" + local)])
         == Step(reg, st, item["path" := Str(reg.slugToNamespace[slug] + local)])
  {
    var s := slug + ":" + local;
    var full := reg.slugToNamespace[slug] + local;
    FirstColonOfShortForm(slug, local);
    assert s[..|slug|] == slug;
    assert s[|slug| + 1..] == local;
    assert ItemPath(reg, item["path" := Str(s)]) == ItemPath(reg, item["path" := Str(full)]);
  }

  /** A `slug:local` path that is no http(s) URI expands to the slug's namespace and `local`. */
  lemma ExpandShortPath(reg: Registry, slug: string, local: string)
    requires slug in reg.slugToNamespace && ':' !in slug && slug != "http" && slug != "https"
    ensures ExpandUri(reg, slug + ":" + local) == Ok(reg.slugToNamespace[slug] + local)
  {
    var s := slug + ":" + local;
    FirstColonOfShortForm(slug, local);
    ShortFormNotHttp(slug, local);
    assert s[..|slug|] == slug;
    assert s[|slug| + 1..] == local;
  }

  /** Removing `dbpedia:name` removes the expanded key. */
  lemma RemoveByShortPath(reg: Registry)
    requires "dbpedia" in reg.slugToNamespace && reg.slugToNamespace["dbpedia"] == "http://dbpedia.org/ontology/"
    ensures ApplyPatch(reg, map["http://dbpedia.org/ontology/" + "name" := Str("Francis")],
                       [RemoveItem("dbpedia" + ":" + "name")]) == Ok(map[])
  {
    var key := "http://dbpedia.org/ontology/" + "name";
    var data := map[key := Str("Francis")];
    ExpandShortPath(reg, "dbpedia", "name");
    RemoveDeletes(reg, data, "dbpedia" + ":" + "name");
    assert data - {key} == map[];
  }
}
