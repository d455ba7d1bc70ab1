/** `merge_by_id`: rows of a query result that share an `@id` are merged into the first of
    them, key by key, and the later rows are dropped from the list. */
module MergeById {
  import opened Wrappers
  import opened Json
  import Seqs

  const ID: string := "@id"

  /** A compressed result row. */
  type Row = map<string, Json>

  datatype MergeError =
    | MissingId     // a row without `@id` (a KeyError)
    | UnhashableId  // an `@id` that cannot key a dict
    | MissingKey    // a later row lacks a key of the first one (a KeyError)

  /** The value at one key after a duplicate row arrives: a list gains a value it lacks by
      appending; otherwise differing values are paired, so a list that already holds the value
      is nested in a pair with it. An equal scalar stays; any change ends with the incoming
      value. */
  function MergeValue(kept: Json, incoming: Json): (r: Json)
    ensures !kept.Arr? ==> (r == kept <==> incoming == kept)
    ensures r != kept ==> r.Arr? && r.items != [] && r.items[|r.items| - 1] == incoming
    ensures kept.Arr? && incoming !in kept.items ==> r.Arr? && r.items == kept.items + [incoming]
    ensures kept.Arr? && incoming in kept.items ==> r == Arr([kept, incoming])
    ensures !kept.Arr? && incoming != kept ==> r == Arr([kept, incoming])
  {
    if kept.Arr? && incoming !in kept.items then Arr(kept.items + [incoming])
    else if incoming != kept then Arr([kept, incoming])
    else kept
  }

  /** Merges a duplicate row into the kept one: every key of the kept row is merged, keys only
      the duplicate has are ignored, and a key the duplicate lacks is an error. */
  function MergeRow(kept: Row, dup: Row): (r: Result<Row, MergeError>)
    ensures r.Ok? <==> kept.Keys <= dup.Keys
    ensures r.Ok? ==> r.value.Keys == kept.Keys
    ensures r.Ok? ==> forall k | k in kept :: r.value[k] == MergeValue(kept[k], dup[k])
    ensures r.Err? ==> r.error == MissingKey
  {
    if kept.Keys <= dup.Keys then Ok(map k | k in kept :: MergeValue(kept[k], dup[k]))
    else Err(MissingKey)
  }

  /** The row carries the `@id` `uid`. */
  predicate HasId(row: Row, uid: Json) {
    ID in row && row[ID] == uid
  }

  /** The position of the first row whose `@id` is `uid`. */
  function Find(rows: seq<Row>, uid: Json): (r: Option<nat>)
    ensures r.Some? ==> r.value < |rows| && ID in rows[r.value] && rows[r.value][ID] == uid
    ensures r.Some? ==> forall j | 0 <= j < r.value :: !(ID in rows[j] && rows[j][ID] == uid)
    ensures r.None? <==> forall j | 0 <= j < |rows| :: !(ID in rows[j] && rows[j][ID] == uid)
  {
    if rows == [] then None
    else if ID in rows[0] && rows[0][ID] == uid then Some(0)
    else match Find(rows[1..], uid)
      case None => None
      case Some(j) => Some(j + 1)
  }

  /** One row arriving: a new `@id` is kept at the end, a known one is merged into its row. */
  function MergeStep(out: seq<Row>, row: Row): Result<seq<Row>, MergeError> {
    if ID !in row then Err(MissingId)
    else if !Hashable(row[ID]) then Err(UnhashableId)
    else match Find(out, row[ID])
      case None => Ok(out + [row])
      case Some(j) =>
        (match MergeRow(out[j], row)
         case Err(e) => Err(e)
         case Ok(m) => Ok(out[j := m]))
  }

  /** `merge_by_id` on the whole list. */
  function MergeAll(items: seq<Row>): (r: Result<seq<Row>, MergeError>)
    ensures r.Ok? ==> AllHaveIds(items) && |r.value| <= |items|
    ensures items != [] && r.Ok? ==> r.value != []
    decreases |items|
  {
    if items == [] then Ok([])
    else
      var init := items[..|items| - 1];
      var row := items[|items| - 1];
      assert items == init + [row];
      AllHaveIdsSnoc(init, row);
      match MergeAll(init)
      case Err(e) => Err(e)
      case Ok(out) => MergeStep(out, row)
  }

  /** The `@id` of each row (rows without one are not merged successfully). */
  function Ids(rows: seq<Row>): (r: seq<Json>)
    ensures |r| == |rows|
    ensures forall i | 0 <= i < |rows| :: ID in rows[i] ==> r[i] == rows[i][ID]
  {
    seq(|rows|, i requires 0 <= i < |rows| => if ID in rows[i] then rows[i][ID] else Null)
  }

  predicate AllHaveIds(rows: seq<Row>) {
    forall i | 0 <= i < |rows| :: ID in rows[i] && Hashable(rows[i][ID])
  }

  lemma FindInIds(rows: seq<Row>, uid: Json)
    requires AllHaveIds(rows)
    ensures Find(rows, uid).None? <==> uid !in Ids(rows)
  {
    if uid in Ids(rows) {
      var i :| 0 <= i < |rows| && Ids(rows)[i] == uid;
      assert rows[i][ID] == uid;
    }
  }

  lemma AllHaveIdsSnoc(rows: seq<Row>, row: Row)
    ensures AllHaveIds(rows + [row]) <==> AllHaveIds(rows) && ID in row && Hashable(row[ID])
  {
    var all := rows + [row];
    assert all[|rows|] == row;
    assert forall i | 0 <= i < |rows| :: all[i] == rows[i];
  }

  lemma IdsSnoc(rows: seq<Row>, row: Row)
    requires ID in row
    ensures Ids(rows + [row]) == Ids(rows) + [row[ID]]
  {
  }

  /** One step keeps every row's keys and `@id`, and appends the row exactly when its `@id`
      is new. */
  lemma MergeStepLaw(out: seq<Row>, row: Row)
    requires AllHaveIds(out) && MergeStep(out, row).Ok?
    ensures ID in row && Hashable(row[ID])
    ensures var out' := MergeStep(out, row).value;
            && AllHaveIds(out')
            && (row[ID] !in Ids(out) ==> out' == out + [row])
            && (row[ID] in Ids(out) ==> |out'| == |out| && Ids(out') == Ids(out))
            && (forall j | 0 <= j < |out| :: out'[j].Keys == out[j].Keys)
  {
    var uid := row[ID];
    FindInIds(out, uid);
    if uid in Ids(out) {
      var j := Find(out, uid).value;
      var m := MergeRow(out[j], row).value;
      assert m[ID] == MergeValue(uid, uid) == uid;
      var out' := out[j := m];
      assert MergeStep(out, row).value == out';
      assert forall i | 0 <= i < |out| :: Ids(out')[i] == Ids(out)[i];
    }
  }

  /** The kept rows' `@id`s are the distinct input `@id`s in order of first occurrence. */
  lemma {:induction false} MergeAllIds(items: seq<Row>)
    requires MergeAll(items).Ok?
    ensures AllHaveIds(items) && AllHaveIds(MergeAll(items).value)
    ensures Ids(MergeAll(items).value) == Seqs.Dedup(Ids(items))
    decreases |items|
  {
    if items != [] {
      var init := items[..|items| - 1];
      var row := items[|items| - 1];
      assert items == init + [row];
      MergeAllIds(init);
      var out0 := MergeAll(init).value;
      assert MergeAll(items) == MergeStep(out0, row);
      MergeStepLaw(out0, row);
      AllHaveIdsSnoc(init, row);
      IdsSnoc(init, row);
      Seqs.DedupSnoc(Ids(init), row[ID]);
      if row[ID] !in Ids(out0) {
        IdsSnoc(out0, row);
      }
    }
  }

  /** Each row of `out` has an `@id` found in `items`, and the keys of the first input row
      with that `@id`. */
  ghost predicate KeysFromFirst(items: seq<Row>, out: seq<Row>) {
    forall j | 0 <= j < |out| ::
      ID in out[j] && Find(items, out[j][ID]).Some?
      && out[j].Keys == items[Find(items, out[j][ID]).value].Keys
  }

  lemma KeysFromFirstNew(init: seq<Row>, row: Row, out0: seq<Row>)
    requires KeysFromFirst(init, out0)
    requires ID in row && Find(init, row[ID]).None?
    ensures KeysFromFirst(init + [row], out0 + [row])
  {
    FindSnocKnown(init, row);
    FindSnocNew(init, row);
    var out := out0 + [row];
    forall j | 0 <= j < |out|
      ensures ID in out[j] && Find(init + [row], out[j][ID]).Some?
      ensures out[j].Keys == (init + [row])[Find(init + [row], out[j][ID]).value].Keys
    {
      if j < |out0| {
        assert out[j] == out0[j];
      }
    }
  }

  lemma KeysFromFirstKnown(init: seq<Row>, row: Row, out0: seq<Row>, out: seq<Row>)
    requires KeysFromFirst(init, out0) && AllHaveIds(out0) && AllHaveIds(out)
    requires |out| == |out0| && Ids(out) == Ids(out0)
    requires forall j | 0 <= j < |out0| :: out[j].Keys == out0[j].Keys
    ensures KeysFromFirst(init + [row], out)
  {
    FindSnocKnown(init, row);
    forall j | 0 <= j < |out|
      ensures ID in out[j] && Find(init + [row], out[j][ID]).Some?
      ensures out[j].Keys == (init + [row])[Find(init + [row], out[j][ID]).value].Keys
    {
      assert out[j][ID] == Ids(out)[j] == Ids(out0)[j] == out0[j][ID];
    }
  }

  /** Each kept row has exactly the keys of the first input row with its `@id`. */
  lemma {:induction false} MergeAllKeys(items: seq<Row>)
    requires MergeAll(items).Ok?
    ensures KeysFromFirst(items, MergeAll(items).value)
    decreases |items|
  {
    if items != [] {
      var init := items[..|items| - 1];
      var row := items[|items| - 1];
      assert items == init + [row];
      MergeAllKeys(init);
      MergeAllIds(init);
      var out0 := MergeAll(init).value;
      assert MergeAll(items) == MergeStep(out0, row);
      MergeStepLaw(out0, row);
      var out := MergeAll(items).value;
      if row[ID] !in Ids(out0) {
        assert row[ID] !in Ids(init);
        FindInIds(init, row[ID]);
        KeysFromFirstNew(init, row, out0);
      } else {
        KeysFromFirstKnown(init, row, out0, out);
      }
    }
  }

  /** Appending a row leaves the first occurrence of an `@id` already present where it was. */
  lemma FindSnocKnown(rows: seq<Row>, row: Row)
    ensures forall uid | Find(rows, uid).Some? :: Find(rows + [row], uid) == Find(rows, uid)
  {
    forall uid | Find(rows, uid).Some?
      ensures Find(rows + [row], uid) == Find(rows, uid)
    {
      FindPrefix(rows, [row], uid);
    }
  }

  lemma {:induction false} FindPrefix(rows: seq<Row>, more: seq<Row>, uid: Json)
    requires Find(rows, uid).Some?
    ensures Find(rows + more, uid) == Find(rows, uid)
    decreases |rows|
  {
    assert (rows + more)[0] == rows[0];
    if !(ID in rows[0] && rows[0][ID] == uid) {
      assert (rows + more)[1..] == rows[1..] + more;
      FindPrefix(rows[1..], more, uid);
    }
  }

  /** An `@id` seen for the first time is found at the appended row. */
  lemma FindSnocNew(rows: seq<Row>, row: Row)
    requires ID in row && Find(rows, row[ID]).None?
    ensures Find(rows + [row], row[ID]) == Some(|rows|)
  {
    var all := rows + [row];
    assert all[|rows|] == row;
    assert forall j | 0 <= j < |rows| :: all[j] == rows[j];
  }

  /** Where an `@id` is first found once a row is appended. */
  lemma FindSnoc(rows: seq<Row>, row: Row, uid: Json)
    requires ID in row
    ensures Find(rows + [row], uid)
         == if Find(rows, uid).Some? then Find(rows, uid)
            else if row[ID] == uid then Some(|rows|)
            else None
  {
    var all := rows + [row];
    assert forall j | 0 <= j < |rows| :: all[j] == rows[j];
    if Find(rows, uid).Some? {
      FindPrefix(rows, [row], uid);
    } else if row[ID] == uid {
      FindSnocNew(rows, row);
    } else {
      assert all[|rows|] == row;
    }
  }

  /** Replacing a row by one with the same `@id` moves no first occurrence. */
  lemma FindUpdate(rows: seq<Row>, j: nat, m: Row, uid: Json)
    requires j < |rows| && ID in rows[j] && ID in m && m[ID] == rows[j][ID]
    ensures Find(rows[j := m], uid) == Find(rows, uid)
  {
    FindSame(rows[j := m], rows, uid);
  }

  /** Lists whose rows carry `uid` at the same positions find it at the same place. */
  lemma {:induction false} FindSame(a: seq<Row>, b: seq<Row>, uid: Json)
    requires |a| == |b|
    requires forall i | 0 <= i < |a| :: HasId(a[i], uid) == HasId(b[i], uid)
    ensures Find(a, uid) == Find(b, uid)
    decreases |a|
  {
    if a != [] {
      assert HasId(a[0], uid) == HasId(b[0], uid);
      if !HasId(a[0], uid) {
        forall i | 0 <= i < |a| - 1
          ensures HasId(a[1..][i], uid) == HasId(b[1..][i], uid)
        {
          assert a[1..][i] == a[i + 1] && b[1..][i] == b[i + 1];
        }
        FindSame(a[1..], b[1..], uid);
      }
    }
  }


  /** The dict of the loop maps each `@id` of the kept rows to the position of its row. */
  ghost predicate Indexes(seen: map<Json, nat>, rows: seq<Row>) {
    forall u :: Find(rows, u) == (if u in seen then Some(seen[u]) else None)
  }

  lemma LoopNewId(prefix: seq<Row>, item: Row, seen: map<Json, nat>)
    requires Indexes(seen, prefix)
    requires ID in item && Hashable(item[ID]) && item[ID] !in seen
    ensures MergeStep(prefix, item) == Ok(prefix + [item])
    ensures Indexes(seen[item[ID] := |prefix|], prefix + [item])
  {
    assert Find(prefix, item[ID]) == None;
    forall u
      ensures Find(prefix + [item], u)
           == (if u in seen[item[ID] := |prefix|] then Some(seen[item[ID] := |prefix|][u]) else None)
    {
      FindSnoc(prefix, item, u);
    }
  }

  lemma LoopKnownId(prefix: seq<Row>, item: Row, seen: map<Json, nat>)
    requires Indexes(seen, prefix)
    requires ID in item && Hashable(item[ID]) && item[ID] in seen
    ensures seen[item[ID]] < |prefix|
    ensures var j := seen[item[ID]];
            var merged := MergeRow(prefix[j], item);
            && (merged.Err? ==> MergeStep(prefix, item) == Err(merged.error))
            && (merged.Ok? ==> MergeStep(prefix, item) == Ok(prefix[j := merged.value])
                               && Indexes(seen, prefix[j := merged.value]))
  {
    var uid := item[ID];
    var j := seen[uid];
    assert Find(prefix, uid) == Some(j);
    var merged := MergeRow(prefix[j], item);
    if merged.Ok? {
      var m := merged.value;
      assert m[ID] == MergeValue(uid, uid) == uid;
      forall u
        ensures Find(prefix[j := m], u) == (if u in seen then Some(seen[u]) else None)
      {
        FindUpdate(prefix, j, m, u);
      }
    }
  }

  /** Once a prefix fails, the whole list fails with the same error. */
  lemma {:induction false} MergeAllErrSticks(items: seq<Row>, n: nat)
    requires n <= |items| && MergeAll(items[..n]).Err?
    ensures MergeAll(items) == MergeAll(items[..n])
    decreases |items| - n
  {
    if n == |items| {
      assert items[..n] == items;
    } else {
      assert items[..n + 1][..n] == items[..n];
      MergeAllErrSticks(items, n + 1);
    }
  }

  lemma MergeAllNext(items: seq<Row>, n: nat)
    requires n < |items| && MergeAll(items[..n]).Ok?
    ensures MergeAll(items[..n + 1]) == MergeStep(MergeAll(items[..n]).value, items[n])
  {
    assert items[..n + 1][..n] == items[..n];
  }

  /** The state of the loop of `merge_by_id` after `|items| - pending` rows: the kept rows
      are the merge of the rows seen so far, the pending rows follow them unchanged, and
      `seen` indexes the kept rows. */
  ghost predicate LoopState(items: seq<Row>, list: seq<Row>, index: nat, pending: nat, seen: map<Json, nat>) {
    && pending <= |items| && index + pending == |list|
    && MergeAll(items[..|items| - pending]) == Ok(list[..index])
    && list[index..] == items[|items| - pending..]
    && Indexes(seen, list[..index])
  }

  lemma LoopCurrent(items: seq<Row>, list: seq<Row>, index: nat, pending: nat, seen: map<Json, nat>)
    requires LoopState(items, list, index, pending, seen) && pending > 0
    ensures list[index] == items[|items| - pending]
    ensures list[index + 1..] == items[|items| - pending + 1..]
    ensures MergeAll(items[..|items| - pending + 1]) == MergeStep(list[..index], list[index])
  {
    var done := |items| - pending;
    assert list[index..][0] == items[done..][0];
    assert list[index + 1..] == list[index..][1..];
    assert items[done + 1..] == items[done..][1..];
    MergeAllNext(items, done);
  }

  /** A row with an `@id` not seen yet stays where it is and is indexed. */
  lemma LoopStepNew(items: seq<Row>, list: seq<Row>, index: nat, pending: nat, seen: map<Json, nat>)
    requires LoopState(items, list, index, pending, seen) && pending > 0
    requires ID in list[index] && Hashable(list[index][ID]) && list[index][ID] !in seen
    ensures LoopState(items, list, index + 1, pending - 1, seen[list[index][ID] := index])
  {
    var prefix := list[..index];
    var item := list[index];
    LoopCurrent(items, list, index, pending, seen);
    LoopNewId(prefix, item, seen);
    LoopStateOf(items, prefix + [item], list[index + 1..], pending - 1, seen[item[ID] := index]);
    SplitAt(list, index);
  }

  lemma SplitAt(list: seq<Row>, index: nat)
    requires index < |list|
    ensures list[..index] + [list[index]] + list[index + 1..] == list
  {
  }

  /** A row with a known `@id` is merged into its kept row and removed from the list, or the
      merge fails and so does the whole list. */
  lemma LoopStepKnown(items: seq<Row>, list: seq<Row>, index: nat, pending: nat, seen: map<Json, nat>)
    requires LoopState(items, list, index, pending, seen) && pending > 0
    requires ID in list[index] && Hashable(list[index][ID]) && list[index][ID] in seen
    ensures seen[list[index][ID]] < index
    ensures var j := seen[list[index][ID]];
            var merged := MergeRow(list[j], list[index]);
            && (merged.Err? ==> MergeAll(items) == Err(merged.error))
            && (merged.Ok? ==>
                  LoopState(items, list[..index][j := merged.value] + list[index + 1..], index, pending - 1, seen))
  {
    LoopKnownAt(items, list, index, pending, seen);
    var j := seen[list[index][ID]];
    if MergeRow(list[j], list[index]).Err? {
      LoopKnownFails(items, list, index, pending, seen);
    } else {
      LoopKnownMerges(items, list, index, pending, seen);
    }
  }

  lemma LoopKnownAt(items: seq<Row>, list: seq<Row>, index: nat, pending: nat, seen: map<Json, nat>)
    requires LoopState(items, list, index, pending, seen) && pending > 0
    requires ID in list[index] && Hashable(list[index][ID]) && list[index][ID] in seen
    ensures seen[list[index][ID]] < index
  {
    LoopKnownId(list[..index], list[index], seen);
  }

  lemma LoopKnownFails(items: seq<Row>, list: seq<Row>, index: nat, pending: nat, seen: map<Json, nat>)
    requires LoopState(items, list, index, pending, seen) && pending > 0
    requires ID in list[index] && Hashable(list[index][ID]) && list[index][ID] in seen
    requires seen[list[index][ID]] < index
    requires MergeRow(list[seen[list[index][ID]]], list[index]).Err?
    ensures MergeAll(items) == Err(MergeRow(list[seen[list[index][ID]]], list[index]).error)
  {
    var prefix := list[..index];
    var item := list[index];
    LoopCurrent(items, list, index, pending, seen);
    LoopKnownId(prefix, item, seen);
    assert prefix[seen[item[ID]]] == list[seen[item[ID]]];
    MergeAllErrSticks(items, |items| - pending + 1);
  }

  lemma LoopKnownMerges(items: seq<Row>, list: seq<Row>, index: nat, pending: nat, seen: map<Json, nat>)
    requires LoopState(items, list, index, pending, seen) && pending > 0
    requires ID in list[index] && Hashable(list[index][ID]) && list[index][ID] in seen
    requires seen[list[index][ID]] < index
    requires MergeRow(list[seen[list[index][ID]]], list[index]).Ok?
    ensures var j := seen[list[index][ID]];
            LoopState(items, list[..index][j := MergeRow(list[j], list[index]).value] + list[index + 1..],
                      index, pending - 1, seen)
  {
    var prefix := list[..index];
    var item := list[index];
    var j := seen[item[ID]];
    LoopCurrent(items, list, index, pending, seen);
    LoopKnownId(prefix, item, seen);
    assert prefix[j] == list[j];
    LoopStateOf(items, prefix[j := MergeRow(list[j], item).value], list[index + 1..], pending - 1, seen);
  }

  /** Kept rows followed by the pending ones form a loop state. */
  lemma LoopStateOf(items: seq<Row>, kept: seq<Row>, rest: seq<Row>, pending: nat, seen: map<Json, nat>)
    requires pending <= |items| && |rest| == pending
    requires MergeAll(items[..|items| - pending]) == Ok(kept)
    requires rest == items[|items| - pending..]
    requires Indexes(seen, kept)
    ensures LoopState(items, kept + rest, |kept|, pending, seen)
  {
    assert (kept + rest)[..|kept|] == kept && (kept + rest)[|kept|..] == rest;
  }

  /** A row without a usable `@id` fails the whole list. */
  lemma LoopStepBadId(items: seq<Row>, list: seq<Row>, index: nat, pending: nat, seen: map<Json, nat>)
    requires LoopState(items, list, index, pending, seen) && pending > 0
    requires !(ID in list[index] && Hashable(list[index][ID]))
    ensures MergeAll(items) == Err(if ID !in list[index] then MissingId else UnhashableId)
  {
    LoopCurrent(items, list, index, pending, seen);
    MergeAllErrSticks(items, |items| - pending + 1);
  }

  /** The loop of `merge_by_id` as written: a cursor over the list, a count of rows still
      pending, a dict from `@id` to the position of its kept row, and a duplicate merged into
      that row and popped from the list. It computes `MergeAll`. */
  method MergeByIdLoop(items: seq<Row>) returns (r: Result<seq<Row>, MergeError>)
    ensures r == MergeAll(items)
  {
    var list := items;
    var seen: map<Json, nat> := map[];
    var index: nat := 0;
    var pending: nat := |items|;
    assert items[..0] == [] && list[..0] == [];
    while pending > 0
      invariant index + pending == |list|
      invariant LoopState(items, list, index, pending, seen)
      decreases pending
    {
      var item := list[index];
      if ID !in item {
        LoopStepBadId(items, list, index, pending, seen);
        return Err(MissingId);
      }
      var uid := item[ID];
      if !Hashable(uid) {
        LoopStepBadId(items, list, index, pending, seen);
        return Err(UnhashableId);
      }
      if uid !in seen {
        LoopStepNew(items, list, index, pending, seen);
        seen := seen[uid := index];
        index := index + 1;
      } else {
        LoopStepKnown(items, list, index, pending, seen);
        var j := seen[uid];
        var merged := MergeRow(list[j], item);
        if merged.Err? {
          return Err(merged.error);
        }
        list := list[..index][j := merged.value] + list[index + 1..];
      }
      pending := pending - 1;
    }
    assert items[..|items|] == items && list[..index] == list;
    return Ok(list);
  }

  /** The values one key takes in successive rows, merged from left to right. */
  function MergeValues(vs: seq<Json>): Json
    requires vs != []
    decreases |vs|
  {
    if |vs| == 1 then vs[0] else MergeValue(MergeValues(vs[..|vs| - 1]), vs[|vs| - 1])
  }

  /** Pairwise different scalar values collect into one list, in row order. */
  lemma {:induction false} DistinctScalarsCollect(vs: seq<Json>)
    requires |vs| >= 2 && Seqs.Distinct(vs)
    requires forall i | 0 <= i < |vs| :: !vs[i].Arr?
    ensures MergeValues(vs) == Arr(vs)
    decreases |vs|
  {
    var init := vs[..|vs| - 1];
    var last := vs[|vs| - 1];
    if |vs| == 2 {
      assert init == [vs[0]];
      assert vs == [vs[0], vs[1]];
    } else {
      DistinctScalarsCollect(init);
      assert last !in init;
      assert init + [last] == vs;
    }
  }

  /** A scalar value repeated in every row stays that scalar. */
  lemma {:induction false} EqualScalarsStay(vs: seq<Json>, v: Json)
    requires vs != [] && !v.Arr?
    requires forall i | 0 <= i < |vs| :: vs[i] == v
    ensures MergeValues(vs) == v
    decreases |vs|
  {
    if |vs| > 1 {
      EqualScalarsStay(vs[..|vs| - 1], v);
    }
  }

  /** A value repeated after a different one nests the pair: `a, b, a` gives `[[a, b], a]`,
      since `a` is already in the list `[a, b]` and so differs from it as a whole. */
  lemma ThirdDuplicateNests(a: Json, b: Json)
    requires !a.Arr? && a != b
    ensures MergeValues([a, b, a]) == Arr([Arr([a, b]), a])
  {
    assert [a, b, a][..2] == [a, b];
    assert [a, b][..1] == [a];
    assert MergeValues([a]) == a;
    assert MergeValues([a, b]) == MergeValue(a, b) == Arr([a, b]);
    assert a in Arr([a, b]).items;
    assert MergeValues([a, b, a]) == MergeValue(Arr([a, b]), a);
  }

  /** The values of key `k` down the rows. */
  function Column(rows: seq<Row>, k: string): (r: seq<Json>)
    requires forall i | 0 <= i < |rows| :: k in rows[i]
    ensures |r| == |rows| && forall i | 0 <= i < |rows| :: r[i] == rows[i][k]
  {
    seq(|rows|, i requires 0 <= i < |rows| && k in rows[i] => rows[i][k])
  }

  /** The single row that rows sharing one `@id` merge into. */
  function Merged(rows: seq<Row>): (r: Row)
    requires rows != []
    requires forall i | 0 <= i < |rows| :: rows[0].Keys <= rows[i].Keys
    ensures r.Keys == rows[0].Keys
    ensures forall k | k in r :: r[k] == MergeValues(Column(rows, k))
  {
    map k | k in rows[0] :: MergeValues(Column(rows, k))
  }

  lemma MergedSingle(rows: seq<Row>)
    requires |rows| == 1
    ensures Merged(rows) == rows[0]
  {
    forall k | k in rows[0]
      ensures Merged(rows)[k] == rows[0][k]
    {
      assert Column(rows, k) == [rows[0][k]];
    }
  }

  lemma ColumnSnoc(rows: seq<Row>, k: string)
    requires |rows| >= 2
    requires forall i | 0 <= i < |rows| :: k in rows[i]
    ensures MergeValues(Column(rows, k))
         == MergeValue(MergeValues(Column(rows[..|rows| - 1], k)), rows[|rows| - 1][k])
  {
    var c := Column(rows, k);
    assert c[..|rows| - 1] == Column(rows[..|rows| - 1], k);
  }

  lemma MergedSnoc(rows: seq<Row>)
    requires |rows| >= 2
    requires forall i | 0 <= i < |rows| :: rows[0].Keys <= rows[i].Keys
    ensures MergeRow(Merged(rows[..|rows| - 1]), rows[|rows| - 1]) == Ok(Merged(rows))
  {
    var init := rows[..|rows| - 1];
    var last := rows[|rows| - 1];
    assert init[0] == rows[0];
    var m0 := Merged(init);
    var m := Merged(rows);
    assert m0.Keys == rows[0].Keys == m.Keys;
    var r := MergeRow(m0, last);
    assert r.Ok?;
    forall k | k in m
      ensures m[k] == r.value[k]
    {
      ColumnSnoc(rows, k);
    }
    RowExt(m, r.value);
  }

  lemma RowExt(a: Row, b: Row)
    requires a.Keys == b.Keys
    requires forall k | k in a :: a[k] == b[k]
    ensures a == b
  {
  }

  /** Rows sharing one `@id` merge into a single row that holds, at each key of the first row,
      the merge of that key's values in row order. */
  lemma {:induction false} SameIdRowsMerge(rows: seq<Row>, uid: Json)
    requires rows != [] && Hashable(uid)
    requires forall i | 0 <= i < |rows| :: ID in rows[i] && rows[i][ID] == uid
    requires forall i | 0 <= i < |rows| :: rows[0].Keys <= rows[i].Keys
    ensures MergeAll(rows) == Ok([Merged(rows)])
    decreases |rows|
  {
    var init := rows[..|rows| - 1];
    var row := rows[|rows| - 1];
    if |rows| == 1 {
      assert MergeAll(init) == Ok([]);
      SameIdFirst(rows, uid);
    } else {
      SameIdRowsMerge(init, uid);
      SameIdNext(rows, uid);
    }
    assert MergeAll(rows) == MergeStep(MergeAll(init).value, row);
  }

  lemma SameIdFirst(rows: seq<Row>, uid: Json)
    requires |rows| == 1 && Hashable(uid) && ID in rows[0] && rows[0][ID] == uid
    ensures MergeStep([], rows[0]) == Ok([Merged(rows)])
  {
    MergedSingle(rows);
    assert Find([], uid) == None;
    assert [] + [rows[0]] == [Merged(rows)];
  }

  lemma SameIdNext(rows: seq<Row>, uid: Json)
    requires |rows| >= 2 && Hashable(uid)
    requires forall i | 0 <= i < |rows| :: ID in rows[i] && rows[i][ID] == uid
    requires forall i | 0 <= i < |rows| :: rows[0].Keys <= rows[i].Keys
    ensures var init := rows[..|rows| - 1];
            MergeStep([Merged(init)], rows[|rows| - 1]) == Ok([Merged(rows)])
  {
    var init := rows[..|rows| - 1];
    var last := rows[|rows| - 1];
    SameIdInit(rows, uid);
    MergedId(init, uid);
    var m0 := Merged(init);
    FindSingle(m0, uid);
    MergedSnoc(rows);
    MergeStepKnown([m0], last, 0, Merged(rows));
    assert [m0][0 := Merged(rows)] == [Merged(rows)];
  }

  lemma SameIdInit(rows: seq<Row>, uid: Json)
    requires |rows| >= 2
    requires forall i | 0 <= i < |rows| :: ID in rows[i] && rows[i][ID] == uid
    requires forall i | 0 <= i < |rows| :: rows[0].Keys <= rows[i].Keys
    ensures var init := rows[..|rows| - 1];
            && init != []
            && (forall i | 0 <= i < |init| :: ID in init[i] && init[i][ID] == uid)
            && (forall i | 0 <= i < |init| :: init[0].Keys <= init[i].Keys)
            && ID in rows[|rows| - 1] && rows[|rows| - 1][ID] == uid
  {
    assert rows[..|rows| - 1][0] == rows[0];
  }

  lemma FindSingle(m: Row, uid: Json)
    requires ID in m && m[ID] == uid
    ensures Find([m], uid) == Some(0)
  {
  }

  /** Rows sharing one `@id` merge into a row with that `@id`. */
  lemma MergedId(rows: seq<Row>, uid: Json)
    requires rows != [] && Hashable(uid)
    requires forall i | 0 <= i < |rows| :: ID in rows[i] && rows[i][ID] == uid
    requires forall i | 0 <= i < |rows| :: rows[0].Keys <= rows[i].Keys
    ensures ID in Merged(rows) && Merged(rows)[ID] == uid
  {
    EqualScalarsStay(Column(rows, ID), uid);
  }

  /** A row whose `@id` is kept at `j` and merges into that row replaces it. */
  lemma MergeStepKnown(out: seq<Row>, row: Row, j: nat, m: Row)
    requires ID in row && Hashable(row[ID]) && Find(out, row[ID]) == Some(j)
    requires MergeRow(out[j], row) == Ok(m)
    ensures MergeStep(out, row) == Ok(out[j := m])
  {
  }

  /** Three rows with the keys `@id` and `k` merge key by key. */
  lemma MergedThree(r1: Row, r2: Row, r3: Row, k: string)
    requires r1.Keys == r2.Keys == r3.Keys == {ID, k}
    ensures Merged([r1, r2, r3])
         == map[ID := MergeValues([r1[ID], r2[ID], r3[ID]]), k := MergeValues([r1[k], r2[k], r3[k]])]
  {
    var rows := [r1, r2, r3];
    var want := map[ID := MergeValues([r1[ID], r2[ID], r3[ID]]), k := MergeValues([r1[k], r2[k], r3[k]])];
    assert Column(rows, ID) == [r1[ID], r2[ID], r3[ID]];
    assert Column(rows, k) == [r1[k], r2[k], r3[k]];
    assert Merged(rows).Keys == want.Keys;
    RowExt(Merged(rows), want);
  }

  /** Three rows with one `@id` whose values at `k` are `a`, `b`, `a` give one row holding
      `[[a, b], a]` at `k`. */
  lemma ThirdDuplicateRowNests(uid: Json, k: string, a: Json, b: Json)
    requires Hashable(uid) && k != ID && !a.Arr? && a != b
    ensures var r1 := map[ID := uid, k := a];
            var r2 := map[ID := uid, k := b];
            MergeAll([r1, r2, r1]) == Ok([map[ID := uid, k := Arr([Arr([a, b]), a])]])
  {
    var r1 := map[ID := uid, k := a];
    var r2 := map[ID := uid, k := b];
    assert r1.Keys == r2.Keys == {ID, k};
    SameIdRowsMerge([r1, r2, r1], uid);
    MergedNested(uid, k, a, b);
  }

  lemma MergedNested(uid: Json, k: string, a: Json, b: Json)
    requires Hashable(uid) && k != ID && !a.Arr? && a != b
    ensures var r1 := map[ID := uid, k := a];
            var r2 := map[ID := uid, k := b];
            Merged([r1, r2, r1]) == map[ID := uid, k := Arr([Arr([a, b]), a])]
  {
    var r1 := map[ID := uid, k := a];
    var r2 := map[ID := uid, k := b];
    assert r1.Keys == r2.Keys == {ID, k};
    MergedThree(r1, r2, r1, k);
    ThreeEqualStay(uid);
    ThirdDuplicateNests(a, b);
  }

  lemma ThreeEqualStay(v: Json)
    requires !v.Arr?
    ensures MergeValues([v, v, v]) == v
  {
    EqualScalarsStay([v, v, v], v);
  }

}
