/** The instance document compiler: the query bindings of one resource are folded into a map
    from shortened predicate to a scalar-or-list value, super-properties whose value repeats
    their sub-property's are dropped, `rdf:type` and `rdfs:label` are set, and the result is
    merged with the identity fields and the accumulated `@context`. */
module GetInstance {
  import opened Wrappers
  import Seqs
  import opened Prefixes

  /** One result row of the properties query: predicate (`property`), object (`value`) and the (language-filtered)
      label of the resource. The query binds `?label` in every row. */
  datatype Binding = Binding(property: string, value: string, labelValue: string)

  /** A property's aggregated value: the first binding gives a scalar, later ones a list. */
  datatype PropertyValue = Scalar(value: string) | List(values: seq<string>)

  /** The document's values: properties and identity fields, and the `@context` map. */
  datatype DocValue = Value(v: PropertyValue) | ContextMap(entries: map<string, string>)

  datatype InstanceError =
    | MissingSubProperty(sub: string)  // KeyError at `items_dict[sub_predicate]`
    | MissingLabel                     // KeyError at `items_dict.pop("rdfs:label")`
    | NoBindings                       // the loop variable `item` was never bound
    | Prefix(e: PrefixError)           // `expand_uri` could not expand `rdfs:label`

  /** Identity of the requested instance. */
  datatype InstanceParams = InstanceParams(instanceId: string, instanceUri: string, classUri: string)

  const RDF_TYPE := "rdf:type"
  const RDFS_LABEL := "rdfs:label"

  /** The values a property value holds, in order. */
  function Values(v: PropertyValue): seq<string> {
    match v
    case Scalar(x) => [x]
    case List(xs) => xs
  }

  /** One step of the aggregation loop: store a scalar, or promote to a list and append. */
  function AddValue(items: map<string, PropertyValue>, p: string, value: string): map<string, PropertyValue> {
    if p !in items then items[p := Scalar(value)]
    else match items[p]
      case Scalar(x) => items[p := List([x, value])]
      case List(xs) => items[p := List(xs + [value])]
  }

  /** The aggregation loop from a given state over the remaining bindings; predicate and object
      go through the shared context in that order. */
  function AggregateFrom(reg: Registry, ctx: Context, items: map<string, PropertyValue>, bs: seq<Binding>)
    : (Context, map<string, PropertyValue>)
    decreases |bs|
  {
    if bs == [] then (ctx, items)
    else
      var (c1, p) := ContextShorten(reg, ctx, bs[0].property);
      var (c2, v) := ContextShorten(reg, c1, bs[0].value);
      AggregateFrom(reg, c2, AddValue(items, p, v), bs[1..])
  }

  /** The aggregation loop over all bindings. A predicate is a key exactly when some binding
      has it; its value holds that predicate's objects in binding order, with no deduplication,
      and is a scalar exactly when one binding has it. */
  function Aggregate(reg: Registry, ctx: Context, bs: seq<Binding>): (r: (Context, map<string, PropertyValue>))
    ensures forall p :: p in r.1 <==> ObjectsFor(reg, bs, p) != []
    ensures forall p | p in r.1 :: Values(r.1[p]) == ObjectsFor(reg, bs, p)
    ensures forall p | p in r.1 :: r.1[p].Scalar? <==> |ObjectsFor(reg, bs, p)| == 1
  {
    AggregateFromFresh(reg, ctx, bs);
    AggregateFrom(reg, ctx, map[], bs)
  }

  /** Reference definition: the shortened objects of the bindings whose shortened predicate is
      `p`, in binding order. */
  function ObjectsFor(reg: Registry, bs: seq<Binding>, p: string): seq<string>
    decreases |bs|
  {
    if bs == [] then []
    else
      (if ShortenUri(reg, bs[0].property) == p then [ShortenUri(reg, bs[0].value)] else [])
      + ObjectsFor(reg, bs[1..], p)
  }

  /** The shortened predicates of the bindings, in binding order. */
  function Predicates(reg: Registry, bs: seq<Binding>): (r: seq<string>)
    ensures |r| == |bs|
    ensures forall i :: 0 <= i < |bs| ==> r[i] == ShortenUri(reg, bs[i].property)
  {
    seq(|bs|, i requires 0 <= i < |bs| => ShortenUri(reg, bs[i].property))
  }

  /** The first binding's predicate and object are shortened through the context, in that
      order, and stored. */
  lemma AggregateFromFirst(reg: Registry, ctx: Context, items: map<string, PropertyValue>, bs: seq<Binding>)
    requires bs != []
    ensures AggregateFrom(reg, ctx, items, bs)
         == AggregateFrom(reg, Record(reg, Record(reg, ctx, bs[0].property), bs[0].value),
                          AddValue(items, ShortenUri(reg, bs[0].property), ShortenUri(reg, bs[0].value)), bs[1..])
  {
  }

  /** Storing under `q` leaves every other key as it was. */
  lemma AddValueOther(items: map<string, PropertyValue>, q: string, v: string, p: string)
    requires q != p
    ensures p in AddValue(items, q, v) <==> p in items
    ensures p in items ==> AddValue(items, q, v)[p] == items[p]
  {
  }

  /** Storing under `p` appends the value, and leaves a scalar only on a fresh key. */
  lemma AddValueSame(items: map<string, PropertyValue>, p: string, v: string)
    ensures p in AddValue(items, p, v)
    ensures Values(AddValue(items, p, v)[p]) == (if p in items then Values(items[p]) else []) + [v]
    ensures AddValue(items, p, v)[p].Scalar? <==> p !in items
  {
  }

  lemma {:induction false} AggregateFromLaw(reg: Registry, ctx: Context, items: map<string, PropertyValue>,
                                            bs: seq<Binding>, p: string)
    ensures var r := AggregateFrom(reg, ctx, items, bs).1;
            var objs := ObjectsFor(reg, bs, p);
            && (p in r <==> p in items || objs != [])
            && (p in r ==> Values(r[p]) == (if p in items then Values(items[p]) else []) + objs)
    decreases |bs|
  {
    if bs != [] {
      var c2 := Record(reg, Record(reg, ctx, bs[0].property), bs[0].value);
      var q := ShortenUri(reg, bs[0].property);
      var v := ShortenUri(reg, bs[0].value);
      var items' := AddValue(items, q, v);
      AggregateFromFirst(reg, ctx, items, bs);
      var rest := ObjectsFor(reg, bs[1..], p);
      assert ObjectsFor(reg, bs, p) == (if q == p then [v] else []) + rest;
      AggregateFromLaw(reg, c2, items', bs[1..], p);
      if q != p {
        AddValueOther(items, q, v, p);
      } else {
        AddValueSame(items, p, v);
        var before := if p in items then Values(items[p]) else [];
        assert before + [v] + rest == before + ([v] + rest);
      }
    }
  }

  lemma {:induction false} AggregateFromShape(reg: Registry, ctx: Context, items: map<string, PropertyValue>,
                                              bs: seq<Binding>, p: string)
    ensures var r := AggregateFrom(reg, ctx, items, bs).1;
            var objs := ObjectsFor(reg, bs, p);
            p in r ==> (r[p].Scalar? <==> if p in items then items[p].Scalar? && objs == [] else |objs| == 1)
    decreases |bs|
  {
    if bs != [] {
      var c2 := Record(reg, Record(reg, ctx, bs[0].property), bs[0].value);
      var q := ShortenUri(reg, bs[0].property);
      var v := ShortenUri(reg, bs[0].value);
      var items' := AddValue(items, q, v);
      AggregateFromFirst(reg, ctx, items, bs);
      var rest := ObjectsFor(reg, bs[1..], p);
      assert ObjectsFor(reg, bs, p) == (if q == p then [v] else []) + rest;
      AggregateFromShape(reg, c2, items', bs[1..], p);
      if q != p {
        AddValueOther(items, q, v, p);
      } else {
        AddValueSame(items, p, v);
      }
    }
  }

  /** The aggregation from an empty map holds exactly each predicate's objects. */
  lemma AggregateFromFresh(reg: Registry, ctx: Context, bs: seq<Binding>)
    ensures var items := AggregateFrom(reg, ctx, map[], bs).1;
            && (forall p :: p in items <==> ObjectsFor(reg, bs, p) != [])
            && (forall p | p in items :: Values(items[p]) == ObjectsFor(reg, bs, p))
            && (forall p | p in items :: items[p].Scalar? <==> |ObjectsFor(reg, bs, p)| == 1)
  {
    var items := AggregateFrom(reg, ctx, map[], bs).1;
    forall p
      ensures p in items <==> ObjectsFor(reg, bs, p) != []
      ensures p in items ==> Values(items[p]) == ObjectsFor(reg, bs, p)
      ensures p in items ==> (items[p].Scalar? <==> |ObjectsFor(reg, bs, p)| == 1)
    {
      AggregateFromLaw(reg, ctx, map[], bs, p);
      AggregateFromShape(reg, ctx, map[], bs, p);
      assert [] + ObjectsFor(reg, bs, p) == ObjectsFor(reg, bs, p);
    }
  }

  lemma {:induction false} ObjectsForNonEmpty(reg: Registry, bs: seq<Binding>, p: string)
    ensures ObjectsFor(reg, bs, p) != [] <==> p in Predicates(reg, bs)
    decreases |bs|
  {
    if bs != [] {
      ObjectsForNonEmpty(reg, bs[1..], p);
      assert Predicates(reg, bs) == [ShortenUri(reg, bs[0].property)] + Predicates(reg, bs[1..]);
    }
  }

  /** The aggregated keys are exactly the shortened predicates. */
  lemma AggregateKeys(reg: Registry, ctx: Context, bs: seq<Binding>)
    ensures forall p :: p in Aggregate(reg, ctx, bs).1 <==> p in Predicates(reg, bs)
  {
    forall p
      ensures p in Aggregate(reg, ctx, bs).1 <==> p in Predicates(reg, bs)
    {
      ObjectsForNonEmpty(reg, bs, p);
    }
  }

  /** The registry shortened `uri` by the namespace of `slug`. */
  predicate ShortenedWith(reg: Registry, uri: string, slug: string) {
    ExtractPrefix(reg, uri).Some? && reg.namespaceToSlug[ExtractPrefix(reg, uri).value] == slug
  }

  /** Later shortenings keep what a context records, when slugs identify namespaces. */
  lemma RecordsKept(reg: Registry, ctx: Context, uri: string, other: string)
    requires Valid(reg)
    requires Records(reg, ctx, other)
    ensures Records(reg, Record(reg, ctx, uri), other)
  {
  }

  /** A slug in a context after shortening `uri` was there before or is the one `uri` used. */
  lemma RecordSlugs(reg: Registry, ctx: Context, uri: string, slug: string)
    requires slug in Record(reg, ctx, uri).context
    ensures slug in ctx.context || ShortenedWith(reg, uri, slug)
  {
  }

  /** What a context records survives the rest of the aggregation. */
  lemma {:induction false} AggregateFromKeeps(reg: Registry, ctx: Context, items: map<string, PropertyValue>,
                                              bs: seq<Binding>, u: string)
    requires Valid(reg) && Records(reg, ctx, u)
    ensures Records(reg, AggregateFrom(reg, ctx, items, bs).0, u)
    decreases |bs|
  {
    if bs != [] {
      var c1 := Record(reg, ctx, bs[0].property);
      var c2 := Record(reg, c1, bs[0].value);
      AggregateFromFirst(reg, ctx, items, bs);
      RecordsKept(reg, ctx, bs[0].property, u);
      RecordsKept(reg, c1, bs[0].value, u);
      AggregateFromKeeps(reg, c2, AddValue(items, ShortenUri(reg, bs[0].property), ShortenUri(reg, bs[0].value)),
                         bs[1..], u);
    }
  }

  /** Shortening a binding's predicate and then its object records both namespaces. */
  lemma RecordsBoth(reg: Registry, ctx: Context, b: Binding)
    requires Valid(reg)
    ensures var c2 := Record(reg, Record(reg, ctx, b.property), b.value);
            Records(reg, c2, b.property) && Records(reg, c2, b.value)
  {
    var c1 := Record(reg, ctx, b.property);
    assert Records(reg, c1, b.property);
    RecordsKept(reg, c1, b.value, b.property);
  }

  /** The aggregation records the namespaces of every binding's predicate and object. */
  lemma {:induction false} AggregateFromRecords(reg: Registry, ctx: Context, items: map<string, PropertyValue>,
                                                bs: seq<Binding>, b: Binding)
    requires Valid(reg) && b in bs
    ensures var c := AggregateFrom(reg, ctx, items, bs).0;
            Records(reg, c, b.property) && Records(reg, c, b.value)
    decreases |bs|
  {
    if b == bs[0] {
      AggregateFromRecordsFirst(reg, ctx, items, bs);
    } else {
      var c2 := Record(reg, Record(reg, ctx, bs[0].property), bs[0].value);
      var items' := AddValue(items, ShortenUri(reg, bs[0].property), ShortenUri(reg, bs[0].value));
      AggregateFromFirst(reg, ctx, items, bs);
      assert bs == [bs[0]] + bs[1..];
      AggregateFromRecords(reg, c2, items', bs[1..], b);
    }
  }

  /** The aggregation records the namespaces of the first binding's predicate and object. */
  lemma AggregateFromRecordsFirst(reg: Registry, ctx: Context, items: map<string, PropertyValue>, bs: seq<Binding>)
    requires Valid(reg) && bs != []
    ensures var c := AggregateFrom(reg, ctx, items, bs).0;
            Records(reg, c, bs[0].property) && Records(reg, c, bs[0].value)
  {
    var c2 := Record(reg, Record(reg, ctx, bs[0].property), bs[0].value);
    var items' := AddValue(items, ShortenUri(reg, bs[0].property), ShortenUri(reg, bs[0].value));
    AggregateFromFirst(reg, ctx, items, bs);
    RecordsBoth(reg, ctx, bs[0]);
    AggregateFromKeeps(reg, c2, items', bs[1..], bs[0].property);
    AggregateFromKeeps(reg, c2, items', bs[1..], bs[0].value);
  }

  /** Every slug the aggregation adds is the one some binding's predicate or object used. */
  lemma {:induction false} AggregateFromSlugs(reg: Registry, ctx: Context, items: map<string, PropertyValue>,
                                              bs: seq<Binding>, slug: string)
    requires slug in AggregateFrom(reg, ctx, items, bs).0.context
    ensures slug in ctx.context
            || exists i :: 0 <= i < |bs| &&
                 (ShortenedWith(reg, bs[i].property, slug) || ShortenedWith(reg, bs[i].value, slug))
    decreases |bs|
  {
    if bs != [] {
      var c1 := Record(reg, ctx, bs[0].property);
      var c2 := Record(reg, c1, bs[0].value);
      var items' := AddValue(items, ShortenUri(reg, bs[0].property), ShortenUri(reg, bs[0].value));
      AggregateFromFirst(reg, ctx, items, bs);
      AggregateFromSlugs(reg, c2, items', bs[1..], slug);
      if slug !in c2.context {
        var i :| 0 <= i < |bs[1..]| &&
          (ShortenedWith(reg, bs[1..][i].property, slug) || ShortenedWith(reg, bs[1..][i].value, slug));
        assert bs[1..][i] == bs[i + 1];
      } else {
        RecordSlugs(reg, c1, bs[0].value, slug);
        if slug in c1.context {
          RecordSlugs(reg, ctx, bs[0].property, slug);
        }
        if slug !in ctx.context {
          assert ShortenedWith(reg, bs[0].property, slug) || ShortenedWith(reg, bs[0].value, slug);
        }
      }
    }
  }

  /** The shared context ends up recording the namespace of every predicate and object it
      shortened, and holds nothing else beyond what it held before. */
  lemma AggregateRecordsNamespaces(reg: Registry, ctx: Context, bs: seq<Binding>)
    requires Valid(reg)
    ensures var c := Aggregate(reg, ctx, bs).0;
            && (forall i | 0 <= i < |bs| :: Records(reg, c, bs[i].property) && Records(reg, c, bs[i].value))
            && (forall slug | slug in c.context ::
                  slug in ctx.context
                  || exists i :: 0 <= i < |bs| &&
                       (ShortenedWith(reg, bs[i].property, slug) || ShortenedWith(reg, bs[i].value, slug)))
  {
    forall i | 0 <= i < |bs|
      ensures var c := Aggregate(reg, ctx, bs).0;
              Records(reg, c, bs[i].property) && Records(reg, c, bs[i].value)
    {
      AggregateFromRecords(reg, ctx, map[], bs, bs[i]);
    }
    forall slug | slug in Aggregate(reg, ctx, bs).0.context
      ensures slug in ctx.context
              || exists i :: 0 <= i < |bs| &&
                   (ShortenedWith(reg, bs[i].property, slug) || ShortenedWith(reg, bs[i].value, slug))
    {
      AggregateFromSlugs(reg, ctx, map[], bs, slug);
    }
  }

  /** `order` lists every key of a map exactly once: one possible `dict.items()` order. */
  ghost predicate Enumerates(order: seq<string>, keys: set<string>) {
    Seqs.Distinct(order) && (forall k :: k in order <==> k in keys)
  }

  /** The key `k` is a super-property whose value equals its sub-property's. */
  predicate Subsumed(items: map<string, PropertyValue>, supers: map<string, string>, k: string) {
    k in items && k in supers && supers[k] in items && items[k] == items[supers[k]]
  }

  /** The key `k` is present and not subsumed: the filter keeps it. */
  predicate Survives(items: map<string, PropertyValue>, supers: map<string, string>, k: string) {
    k in items && !Subsumed(items, supers, k)
  }

  /** The removal loop at position `i` of the snapshot order, with the current map. Values are
      read from the snapshot (a Python 2 `items()` list), sub-property values from the current
      map, which is where the loop can raise. */
  function FilterFrom(snapshot: map<string, PropertyValue>, supers: map<string, string>, order: seq<string>,
                      i: nat, current: map<string, PropertyValue>): (r: Result<map<string, PropertyValue>, InstanceError>)
    requires i <= |order|
    requires forall k | k in order :: k in snapshot
    ensures r.Err? ==> r.error.MissingSubProperty?
    decreases |order| - i
  {
    if i == |order| then Ok(current)
    else
      var k := order[i];
      if k !in supers then FilterFrom(snapshot, supers, order, i + 1, current)
      else
        var sub := supers[k];
        if sub !in current then Err(MissingSubProperty(sub))
        else if snapshot[k] == current[sub] then FilterFrom(snapshot, supers, order, i + 1, current - {k})
        else FilterFrom(snapshot, supers, order, i + 1, current)
  }

  /** The entries still present after the first `i` keys of `order` were examined. */
  function Kept(items: map<string, PropertyValue>, supers: map<string, string>, order: seq<string>, i: nat)
    : map<string, PropertyValue>
    requires i <= |order|
  {
    map k | k in items && !(k in order[..i] && Subsumed(items, supers, k)) :: items[k]
  }

  /** Examining the `i`-th key does not raise: its sub-property is bound and was not removed
      earlier in the order. */
  predicate SucceedsAt(items: map<string, PropertyValue>, supers: map<string, string>, order: seq<string>, i: nat)
    requires i < |order|
  {
    order[i] in supers ==>
      var sub := supers[order[i]];
      sub in items && !(sub in order[..i] && Subsumed(items, supers, sub))
  }

  /** No examined key raises. */
  predicate FilterSucceeds(items: map<string, PropertyValue>, supers: map<string, string>, order: seq<string>) {
    forall j | 0 <= j < |order| :: SucceedsAt(items, supers, order, j)
  }

  /** How examining the `i`-th key changes the entries kept so far. */
  lemma KeptStep(items: map<string, PropertyValue>, supers: map<string, string>, order: seq<string>, i: nat)
    requires Enumerates(order, items.Keys)
    requires i < |order|
    ensures var k := order[i];
            var cur := Kept(items, supers, order, i);
            var next := Kept(items, supers, order, i + 1);
            && k in items
            && (k !in supers ==> next == cur)
            && (k in supers ==>
                  && (supers[k] in cur <==> SucceedsAt(items, supers, order, i))
                  && (supers[k] in cur ==>
                        && cur[supers[k]] == items[supers[k]]
                        && next == if items[k] == items[supers[k]] then cur - {k} else cur))
  {
    var k := order[i];
    assert order[..i + 1] == order[..i] + [k];
    assert forall j | 0 <= j < i :: order[..i][j] == order[j] != k;
    assert k !in order[..i];
  }

  lemma {:induction false} FilterFromLaw(items: map<string, PropertyValue>, supers: map<string, string>,
                                         order: seq<string>, i: nat)
    requires Enumerates(order, items.Keys)
    requires i <= |order|
    ensures var r := FilterFrom(items, supers, order, i, Kept(items, supers, order, i));
            && (r.Ok? <==> forall j | i <= j < |order| :: SucceedsAt(items, supers, order, j))
            && (r.Ok? ==> r.value == Kept(items, supers, order, |order|))
    decreases |order| - i
  {
    if i < |order| {
      var cur := Kept(items, supers, order, i);
      var next := Kept(items, supers, order, i + 1);
      KeptStep(items, supers, order, i);
      assert (forall j | i <= j < |order| :: SucceedsAt(items, supers, order, j)) <==>
        SucceedsAt(items, supers, order, i) && (forall j | i + 1 <= j < |order| :: SucceedsAt(items, supers, order, j));
      if SucceedsAt(items, supers, order, i) {
        assert FilterFrom(items, supers, order, i, cur) == FilterFrom(items, supers, order, i + 1, next);
      }
      FilterFromLaw(items, supers, order, i + 1);
    } else {
      assert order[..i] == order;
    }
  }

  /** The super-property filter, iterating the keys in `order`. It fails, on a missing
      sub-property, exactly when some examined super-property finds its sub-property already
      removed or never bound; it then removes exactly the subsumed super-properties and keeps
      every other entry, value included. */
  function SubsumptionFilter(items: map<string, PropertyValue>, supers: map<string, string>, order: seq<string>)
    : (r: Result<map<string, PropertyValue>, InstanceError>)
    requires Enumerates(order, items.Keys)
    ensures r.Ok? <==> FilterSucceeds(items, supers, order)
    ensures r.Err? ==> r.error.MissingSubProperty?
    ensures r.Ok? ==> forall k :: k in r.value <==> Survives(items, supers, k)
    ensures r.Ok? ==> forall k | k in r.value :: k in items && r.value[k] == items[k]
  {
    assert Kept(items, supers, order, 0) == items;
    FilterFromLaw(items, supers, order, 0);
    assert order[..|order|] == order;
    FilterFrom(items, supers, order, 0, items)
  }

  /** A super-property whose sub-property is not a key makes the lookup raise, in any order. */
  lemma MissingSubPropertyRaises(items: map<string, PropertyValue>, supers: map<string, string>,
                                 order: seq<string>, k: string)
    requires Enumerates(order, items.Keys)
    requires k in items && k in supers && supers[k] !in items
    ensures SubsumptionFilter(items, supers, order).Err?
  {
    var j :| 0 <= j < |order| && order[j] == k;
    assert !SucceedsAt(items, supers, order, j);
  }

  /** When every sub-property is bound and none is itself removed, the filter succeeds in any
      order. */
  lemma NoChainsSucceed(items: map<string, PropertyValue>, supers: map<string, string>, order: seq<string>)
    requires Enumerates(order, items.Keys)
    requires forall k | k in items && k in supers ::
               supers[k] in items && !Subsumed(items, supers, supers[k])
    ensures SubsumptionFilter(items, supers, order).Ok?
  {
    forall j | 0 <= j < |order|
      ensures SucceedsAt(items, supers, order, j)
    {
      assert order[j] in items;
    }
  }

  /** With the chain `a` under `b` under `c` and equal values, the outcome depends on the
      order: examining `a` first removes both super-properties, while examining `b` first removes
      `b` and then fails looking up `a`'s sub-property. */
  lemma ChainOutcomeDependsOnOrder(a: string, b: string, c: string, v: PropertyValue)
    requires a != b && b != c && a != c
    ensures SubsumptionFilter(map[a := v, b := v, c := v], map[a := b, b := c], [a, b, c]) == Ok(map[c := v])
    ensures SubsumptionFilter(map[a := v, b := v, c := v], map[a := b, b := c], [b, a, c])
         == Err(MissingSubProperty(b))
  {
    ChainInOrder(a, b, c, v);
    ChainOutOfOrder(a, b, c, v);
  }

  lemma ChainInOrder(a: string, b: string, c: string, v: PropertyValue)
    requires a != b && b != c && a != c
    ensures SubsumptionFilter(map[a := v, b := v, c := v], map[a := b, b := c], [a, b, c]) == Ok(map[c := v])
  {
    var items := map[a := v, b := v, c := v];
    var supers := map[a := b, b := c];
    var order := [a, b, c];
    assert SucceedsAt(items, supers, order, 0);
    assert SucceedsAt(items, supers, order, 1) by {
      assert order[..1] == [a];
    }
    assert SucceedsAt(items, supers, order, 2);
    assert FilterSucceeds(items, supers, order) by {
      forall j | 0 <= j < 3
        ensures SucceedsAt(items, supers, order, j)
      {
        assert j == 0 || j == 1 || j == 2;
      }
    }
    var r := SubsumptionFilter(items, supers, order);
    assert Subsumed(items, supers, a) && Subsumed(items, supers, b) && !Subsumed(items, supers, c);
    assert r.value.Keys == {c};
    assert r.value[c] == v;
    assert r.value == map[c := v];
    assert r == Ok(map[c := v]);
  }

  lemma ChainOutOfOrder(a: string, b: string, c: string, v: PropertyValue)
    requires a != b && b != c && a != c
    ensures SubsumptionFilter(map[a := v, b := v, c := v], map[a := b, b := c], [b, a, c])
         == Err(MissingSubProperty(b))
  {
    var items := map[a := v, b := v, c := v];
    var supers := map[a := b, b := c];
    var order := [b, a, c];
    assert FilterFrom(items, supers, order, 0, items) == FilterFrom(items, supers, order, 1, items - {b});
    assert b !in items - {b};
  }

  /** The keys in the order the aggregation first inserted them. */
  function KeyOrder(reg: Registry, bs: seq<Binding>): seq<string> {
    Seqs.Dedup(Predicates(reg, bs))
  }

  /** Every list of bindings admits an iteration order: first insertion is one. */
  lemma KeyOrderEnumerates(reg: Registry, ctx: Context, bs: seq<Binding>)
    ensures Enumerates(KeyOrder(reg, bs), Aggregate(reg, ctx, bs).1.Keys)
  {
    AggregateKeys(reg, ctx, bs);
  }

  /** Sets `rdf:type` to the class's short form (through the context) when a class is given. */
  function SetType(reg: Registry, ctx: Context, items: map<string, PropertyValue>, classUri: Option<string>)
    : (r: (Context, map<string, PropertyValue>))
    ensures classUri.None? ==> r == (ctx, items)
    ensures classUri.Some? ==>
      r.1 == items[RDF_TYPE := Scalar(ShortenUri(reg, classUri.value))] && r.0 == Record(reg, ctx, classUri.value)
  {
    match classUri
    case None => (ctx, items)
    case Some(c) =>
      var (c2, t) := ContextShorten(reg, ctx, c);
      (c2, items[RDF_TYPE := Scalar(t)])
  }

  /** Label selection: when the expanded `rdfs:label` is no key of the super-property map the
      last binding's label is stored, otherwise the `rdfs:label` entry is removed. */
  function SetLabel(reg: Registry, items: map<string, PropertyValue>, bs: seq<Binding>, supers: map<string, string>)
    : (r: Result<map<string, PropertyValue>, InstanceError>)
    ensures ExpandUri(reg, RDFS_LABEL).Err? ==> r == Err(Prefix(ExpandUri(reg, RDFS_LABEL).error))
    ensures r.Err? && r.error.Prefix? ==> ExpandUri(reg, RDFS_LABEL).Err?
    ensures ExpandUri(reg, RDFS_LABEL).Ok? && ExpandUri(reg, RDFS_LABEL).value !in supers ==>
      && (bs == [] <==> r == Err(NoBindings))
      && (bs != [] ==> r == Ok(items[RDFS_LABEL := Scalar(bs[|bs| - 1].labelValue)]))
    ensures ExpandUri(reg, RDFS_LABEL).Ok? && ExpandUri(reg, RDFS_LABEL).value in supers ==>
      && (RDFS_LABEL !in items <==> r == Err(MissingLabel))
      && (RDFS_LABEL in items ==> r == Ok(items - {RDFS_LABEL}))
  {
    match ExpandUri(reg, RDFS_LABEL)
    case Err(e) => Err(Prefix(e))
    case Ok(rdfsLabel) =>
      if rdfsLabel !in supers then
        if bs == [] then Err(NoBindings)
        else Ok(items[RDFS_LABEL := Scalar(bs[|bs| - 1].labelValue)])
      else if RDFS_LABEL in items then Ok(items - {RDFS_LABEL})
      else Err(MissingLabel)
  }

  /** The label is set from the bindings: `rdfs:label` expands and is no super-property. */
  predicate LabelSet(reg: Registry, supers: map<string, string>) {
    ExpandUri(reg, RDFS_LABEL).Ok? && ExpandUri(reg, RDFS_LABEL).value !in supers
  }

  /** The label is removed: `rdfs:label` expands to a super-property. */
  predicate LabelRemoved(reg: Registry, supers: map<string, string>) {
    ExpandUri(reg, RDFS_LABEL).Ok? && ExpandUri(reg, RDFS_LABEL).value in supers
  }

  /** The `rdf:type` and label steps touch only their two keys. */
  lemma SetTypeLabelLaw(reg: Registry, filtered: map<string, PropertyValue>, typed: map<string, PropertyValue>,
                        items: map<string, PropertyValue>, bs: seq<Binding>, classUri: Option<string>,
                        supers: map<string, string>)
    requires classUri.None? ==> typed == filtered
    requires classUri.Some? ==> typed == filtered[RDF_TYPE := Scalar(ShortenUri(reg, classUri.value))]
    requires SetLabel(reg, typed, bs, supers) == Ok(items)
    ensures ExpandUri(reg, RDFS_LABEL).Ok?
    ensures classUri.Some? ==> RDF_TYPE in items && items[RDF_TYPE] == Scalar(ShortenUri(reg, classUri.value))
    ensures ExpandUri(reg, RDFS_LABEL).value !in supers ==>
              bs != [] && RDFS_LABEL in items && items[RDFS_LABEL] == Scalar(bs[|bs| - 1].labelValue)
    ensures ExpandUri(reg, RDFS_LABEL).value in supers ==> RDFS_LABEL !in items
    ensures forall k | (k != RDF_TYPE || classUri.None?) && k != RDFS_LABEL ::
              && (k in items <==> k in filtered)
              && (k in items ==> items[k] == filtered[k])
  {
  }

  /** The context a build ends with: the aggregation's, then the class shortened through it. */
  function BuildContext(reg: Registry, ctx: Context, bs: seq<Binding>, classUri: Option<string>): Context {
    var c1 := Aggregate(reg, ctx, bs).0;
    if classUri.Some? then Record(reg, c1, classUri.value) else c1
  }

  /** With slugs identifying namespaces, the build's context records the namespace of every
      binding's predicate and object and of the class. */
  lemma BuildContextRecords(reg: Registry, ctx: Context, bs: seq<Binding>, classUri: Option<string>)
    ensures var c := BuildContext(reg, ctx, bs, classUri);
            Valid(reg) ==>
              && (forall i | 0 <= i < |bs| :: Records(reg, c, bs[i].property) && Records(reg, c, bs[i].value))
              && (classUri.Some? ==> Records(reg, c, classUri.value))
  {
    if Valid(reg) {
      var c1 := Aggregate(reg, ctx, bs).0;
      AggregateRecordsNamespaces(reg, ctx, bs);
      if classUri.Some? {
        forall i | 0 <= i < |bs|
          ensures Records(reg, Record(reg, c1, classUri.value), bs[i].property)
          ensures Records(reg, Record(reg, c1, classUri.value), bs[i].value)
        {
          RecordsKept(reg, c1, classUri.value, bs[i].property);
          RecordsKept(reg, c1, classUri.value, bs[i].value);
        }
      }
    }
  }

  /** Every slug the build adds to the context is the one the class or some binding's predicate
      or object was shortened by. */
  lemma BuildContextSlugs(reg: Registry, ctx: Context, bs: seq<Binding>, classUri: Option<string>)
    ensures forall slug | slug in BuildContext(reg, ctx, bs, classUri).context ::
              || slug in ctx.context
              || (classUri.Some? && ShortenedWith(reg, classUri.value, slug))
              || exists i :: 0 <= i < |bs| &&
                   (ShortenedWith(reg, bs[i].property, slug) || ShortenedWith(reg, bs[i].value, slug))
  {
    var c1 := Aggregate(reg, ctx, bs).0;
    forall slug | slug in BuildContext(reg, ctx, bs, classUri).context
      ensures || slug in ctx.context
              || (classUri.Some? && ShortenedWith(reg, classUri.value, slug))
              || exists i :: 0 <= i < |bs| &&
                   (ShortenedWith(reg, bs[i].property, slug) || ShortenedWith(reg, bs[i].value, slug))
    {
      if classUri.Some? {
        RecordSlugs(reg, c1, classUri.value, slug);
      }
      if slug in c1.context {
        AggregateFromSlugs(reg, ctx, map[], bs, slug);
      }
    }
  }

  /** `build_items_dict`, given the super-property map (super-property to sub-property) the
      source obtains from the bindings, and `order`, the order in which Python 2's `items()`
      lists the aggregated keys: whether the filter raises can depend on it. The errors come in
      the order the source meets them: the filter's, then the label's. On success `rdf:type`
      holds the class's short form, the label is the last binding's or absent, every other key
      is an aggregated predicate that was not subsumed, with its aggregated value, and the
      context records every namespace used and nothing else. */
  function BuildItemsDict(reg: Registry, ctx: Context, bs: seq<Binding>, classUri: Option<string>,
                          supers: map<string, string>, order: seq<string>)
    : (r: Result<(Context, map<string, PropertyValue>), InstanceError>)
    requires Enumerates(order, Aggregate(reg, ctx, bs).1.Keys)
    ensures !FilterSucceeds(Aggregate(reg, ctx, bs).1, supers, order) ==>
              r.Err? && r.error.MissingSubProperty?
    ensures FilterSucceeds(Aggregate(reg, ctx, bs).1, supers, order) && ExpandUri(reg, RDFS_LABEL).Err? ==>
              r == Err(Prefix(ExpandUri(reg, RDFS_LABEL).error))
    ensures FilterSucceeds(Aggregate(reg, ctx, bs).1, supers, order) && LabelSet(reg, supers) ==>
              (bs == [] <==> r == Err(NoBindings)) && (bs != [] <==> r.Ok?)
    ensures FilterSucceeds(Aggregate(reg, ctx, bs).1, supers, order) && LabelRemoved(reg, supers) ==>
              && (Survives(Aggregate(reg, ctx, bs).1, supers, RDFS_LABEL) <==> r.Ok?)
              && (r.Err? ==> r == Err(MissingLabel))
    ensures r.Ok? && classUri.Some? ==>
              RDF_TYPE in r.value.1 && r.value.1[RDF_TYPE] == Scalar(ShortenUri(reg, classUri.value))
    ensures r.Ok? && LabelSet(reg, supers) ==>
              bs != [] && RDFS_LABEL in r.value.1 && r.value.1[RDFS_LABEL] == Scalar(bs[|bs| - 1].labelValue)
    ensures r.Ok? && LabelRemoved(reg, supers) ==> RDFS_LABEL !in r.value.1
    ensures r.Ok? ==>
              forall k | (k != RDF_TYPE || classUri.None?) && k != RDFS_LABEL ::
                && (k in r.value.1 <==> Survives(Aggregate(reg, ctx, bs).1, supers, k))
                && (k in r.value.1 ==> r.value.1[k] == Aggregate(reg, ctx, bs).1[k])
    ensures r.Ok? ==> r.value.0 == BuildContext(reg, ctx, bs, classUri)
  {
    var (c1, agg) := Aggregate(reg, ctx, bs);
    match SubsumptionFilter(agg, supers, order)
    case Err(e) => Err(e)
    case Ok(filtered) =>
      var (c2, typed) := SetType(reg, c1, filtered, classUri);
      match SetLabel(reg, typed, bs, supers)
      case Err(e) => Err(e)
      case Ok(labelled) =>
        SetTypeLabelLaw(reg, filtered, typed, labelled, bs, classUri, supers);
        Ok((c2, labelled))
  }

  /** Without bindings there is no last label to store: the source fails on the unbound loop
      variable unless the label is suppressed. */
  lemma NoBindingsFailsUnlessSuppressed(reg: Registry, ctx: Context, classUri: Option<string>,
                                        supers: map<string, string>)
    requires LabelSet(reg, supers)
    ensures BuildItemsDict(reg, ctx, [], classUri, supers, []) == Err(NoBindings)
  {
  }

  /** The instance document: identity fields, the shortened class as `@type` and the context
      as `@context`, each overridden by an item entry of the same name. */
  function Document(reg: Registry, params: InstanceParams, ctx: Context, items: map<string, PropertyValue>)
    : (doc: map<string, DocValue>)
    ensures doc.Keys == {"_resource_id", "@id", "@type", "@context"} + items.Keys
    ensures forall k | k in items :: doc[k] == Value(items[k])
    ensures "_resource_id" !in items ==> doc["_resource_id"] == Value(Scalar(params.instanceId))
    ensures "@id" !in items ==> doc["@id"] == Value(Scalar(params.instanceUri))
    ensures "@type" !in items ==> doc["@type"] == Value(Scalar(ShortenUri(reg, params.classUri)))
    ensures "@context" !in items ==> doc["@context"] == ContextMap(ctx.context)
  {
    var identity := map[
      "_resource_id" := Value(Scalar(params.instanceId)),
      "@id" := Value(Scalar(params.instanceUri)),
      "@type" := Value(Scalar(ShortenUri(reg, params.classUri))),
      "@context" := ContextMap(ctx.context)];
    identity + map k | k in items :: Value(items[k])
  }

  /** `entries` is a complete `@context` for the document of `params` over `bs`: with slugs
      identifying namespaces it records the namespace of the class and of every binding's
      predicate and object, and each of its slugs is the one one of those was shortened by. */
  ghost predicate ContextOf(reg: Registry, params: InstanceParams, bs: seq<Binding>, entries: map<string, string>) {
    && (Valid(reg) ==>
          && Records(reg, Context(entries, map[]), params.classUri)
          && forall i | 0 <= i < |bs| ::
               Records(reg, Context(entries, map[]), bs[i].property) && Records(reg, Context(entries, map[]), bs[i].value))
    && forall slug | slug in entries ::
         || ShortenedWith(reg, params.classUri, slug)
         || exists i :: 0 <= i < |bs| &&
              (ShortenedWith(reg, bs[i].property, slug) || ShortenedWith(reg, bs[i].value, slug))
  }

  /** The keys of the instance document over `bs`: the four identity keys, `rdf:type`, the
      label unless it is removed, and every aggregated predicate that survives the filter. */
  ghost function DocumentKeys(reg: Registry, bs: seq<Binding>, supers: map<string, string>): set<string> {
    var agg := Aggregate(reg, NewContext(), bs).1;
    {"_resource_id", "@id", "@type", "@context", RDF_TYPE}
      + (if LabelSet(reg, supers) then {RDFS_LABEL} else {})
      + (set k | k in agg && !Subsumed(agg, supers, k) && k != RDFS_LABEL)
  }

  /** What the instance document of `params` over the bindings `bs` holds: exactly the
      `DocumentKeys`, the build's items, the identity fields and a complete `@context`. */
  ghost predicate InstanceDocument(reg: Registry, params: InstanceParams, bs: seq<Binding>,
                                   supers: map<string, string>, doc: map<string, DocValue>)
  {
    && doc.Keys == DocumentKeys(reg, bs, supers)
    && DocumentItems(reg, params, bs, supers, doc)
    && DocumentIdentity(reg, params, bs, supers, doc)
    && DocumentContext(reg, params, bs, supers, doc)
  }

  /** `rdf:type` is the class's short form, the label the last binding's, and every other
      surviving predicate holds its aggregated value. */
  ghost predicate DocumentItems(reg: Registry, params: InstanceParams, bs: seq<Binding>,
                                supers: map<string, string>, doc: map<string, DocValue>)
  {
    var agg := Aggregate(reg, NewContext(), bs).1;
    && RDF_TYPE in doc && doc[RDF_TYPE] == Value(Scalar(ShortenUri(reg, params.classUri)))
    && (LabelSet(reg, supers) ==>
          bs != [] && RDFS_LABEL in doc && doc[RDFS_LABEL] == Value(Scalar(bs[|bs| - 1].labelValue)))
    && (forall k | k in agg && !Subsumed(agg, supers, k) && k != RDF_TYPE && k != RDFS_LABEL ::
          k in doc && doc[k] == Value(agg[k]))
  }

  /** An identity key no surviving predicate overrides holds the instance's id, URI or class
      short form. */
  ghost predicate DocumentIdentity(reg: Registry, params: InstanceParams, bs: seq<Binding>,
                                   supers: map<string, string>, doc: map<string, DocValue>)
  {
    var agg := Aggregate(reg, NewContext(), bs).1;
    && (!Survives(agg, supers, "_resource_id") ==>
          "_resource_id" in doc && doc["_resource_id"] == Value(Scalar(params.instanceId)))
    && (!Survives(agg, supers, "@id") ==> "@id" in doc && doc["@id"] == Value(Scalar(params.instanceUri)))
    && (!Survives(agg, supers, "@type") ==>
          "@type" in doc && doc["@type"] == Value(Scalar(ShortenUri(reg, params.classUri))))
  }

  /** Unless a surviving predicate overrides it, `@context` is complete for the document. */
  ghost predicate DocumentContext(reg: Registry, params: InstanceParams, bs: seq<Binding>,
                                  supers: map<string, string>, doc: map<string, DocValue>)
  {
    var agg := Aggregate(reg, NewContext(), bs).1;
    !Survives(agg, supers, "@context") ==>
      "@context" in doc && doc["@context"].ContextMap? && ContextOf(reg, params, bs, doc["@context"].entries)
  }

  /** The build's context, started fresh, is a complete `@context`. */
  lemma FreshBuildContext(reg: Registry, params: InstanceParams, bs: seq<Binding>)
    ensures ContextOf(reg, params, bs, BuildContext(reg, NewContext(), bs, Some(params.classUri)).context)
  {
    var c := BuildContext(reg, NewContext(), bs, Some(params.classUri));
    BuildContextRecords(reg, NewContext(), bs, Some(params.classUri));
    BuildContextSlugs(reg, NewContext(), bs, Some(params.classUri));
    forall u | Records(reg, c, u)
      ensures Records(reg, Context(c.context, map[]), u)
    {
    }
  }

  /** The identity keys are neither `rdf:type` nor `rdfs:label`. */
  lemma IdentityKeysDiffer()
    ensures RDF_TYPE !in {"_resource_id", "@id", "@type", "@context"}
    ensures RDFS_LABEL !in {"_resource_id", "@id", "@type", "@context"}
    ensures RDF_TYPE != RDFS_LABEL
  {
  }

  /** A successful build's keys with the identity keys are the document keys. */
  lemma BuiltKeys(reg: Registry, params: InstanceParams, bs: seq<Binding>, supers: map<string, string>,
                  order: seq<string>, built: (Context, map<string, PropertyValue>))
    requires Enumerates(order, Aggregate(reg, NewContext(), bs).1.Keys)
    requires BuildItemsDict(reg, NewContext(), bs, Some(params.classUri), supers, order) == Ok(built)
    ensures {"_resource_id", "@id", "@type", "@context"} + built.1.Keys == DocumentKeys(reg, bs, supers)
  {
    var agg := Aggregate(reg, NewContext(), bs).1;
    var items := built.1;
    assert FilterSucceeds(agg, supers, order) && ExpandUri(reg, RDFS_LABEL).Ok?;
    assert RDF_TYPE in items;
    assert LabelSet(reg, supers) ==> RDFS_LABEL in items;
    assert LabelRemoved(reg, supers) ==> RDFS_LABEL !in items;
    ItemKeys(agg, supers, items, LabelSet(reg, supers));
  }

  /** The item keys, from what the build states about them. */
  lemma ItemKeys(agg: map<string, PropertyValue>, supers: map<string, string>, items: map<string, PropertyValue>,
                 labelSet: bool)
    requires RDF_TYPE in items
    requires labelSet <==> RDFS_LABEL in items
    requires forall k | k != RDF_TYPE && k != RDFS_LABEL :: k in items <==> Survives(agg, supers, k)
    ensures {"_resource_id", "@id", "@type", "@context"} + items.Keys
         == {"_resource_id", "@id", "@type", "@context", RDF_TYPE}
              + (if labelSet then {RDFS_LABEL} else {})
              + (set k | k in agg && !Subsumed(agg, supers, k) && k != RDFS_LABEL)
  {
    IdentityKeysDiffer();
  }

  /** The document over a successful build is the instance document. */
  lemma AssembledDocument(reg: Registry, params: InstanceParams, bs: seq<Binding>, supers: map<string, string>,
                          order: seq<string>, built: (Context, map<string, PropertyValue>))
    requires Enumerates(order, Aggregate(reg, NewContext(), bs).1.Keys)
    requires BuildItemsDict(reg, NewContext(), bs, Some(params.classUri), supers, order) == Ok(built)
    ensures InstanceDocument(reg, params, bs, supers, Document(reg, params, built.0, built.1))
  {
    BuiltKeys(reg, params, bs, supers, order, built);
    BuiltItems(reg, params, bs, supers, order, built);
    BuiltIdentity(reg, params, bs, supers, order, built);
    BuiltContext(reg, params, bs, supers, order, built);
  }

  lemma BuiltItems(reg: Registry, params: InstanceParams, bs: seq<Binding>, supers: map<string, string>,
                   order: seq<string>, built: (Context, map<string, PropertyValue>))
    requires Enumerates(order, Aggregate(reg, NewContext(), bs).1.Keys)
    requires BuildItemsDict(reg, NewContext(), bs, Some(params.classUri), supers, order) == Ok(built)
    ensures DocumentItems(reg, params, bs, supers, Document(reg, params, built.0, built.1))
  {
    IdentityKeysDiffer();
  }

  lemma BuiltIdentity(reg: Registry, params: InstanceParams, bs: seq<Binding>, supers: map<string, string>,
                      order: seq<string>, built: (Context, map<string, PropertyValue>))
    requires Enumerates(order, Aggregate(reg, NewContext(), bs).1.Keys)
    requires BuildItemsDict(reg, NewContext(), bs, Some(params.classUri), supers, order) == Ok(built)
    ensures DocumentIdentity(reg, params, bs, supers, Document(reg, params, built.0, built.1))
  {
    IdentityKeysDiffer();
  }

  lemma BuiltContext(reg: Registry, params: InstanceParams, bs: seq<Binding>, supers: map<string, string>,
                     order: seq<string>, built: (Context, map<string, PropertyValue>))
    requires Enumerates(order, Aggregate(reg, NewContext(), bs).1.Keys)
    requires BuildItemsDict(reg, NewContext(), bs, Some(params.classUri), supers, order) == Ok(built)
    ensures DocumentContext(reg, params, bs, supers, Document(reg, params, built.0, built.1))
  {
    FreshBuildContext(reg, params, bs);
    IdentityKeysDiffer();
  }

  /** `assemble_instance_json` with a fresh context: it fails exactly when building the items
      fails, with the same error, and otherwise gives the instance document. */
  function AssembleInstance(reg: Registry, bs: seq<Binding>, params: InstanceParams, supers: map<string, string>,
                            order: seq<string>)
    : (r: Result<map<string, DocValue>, InstanceError>)
    requires Enumerates(order, Aggregate(reg, NewContext(), bs).1.Keys)
    ensures r.Err? <==> BuildItemsDict(reg, NewContext(), bs, Some(params.classUri), supers, order).Err?
    ensures r.Err? ==> r.error == BuildItemsDict(reg, NewContext(), bs, Some(params.classUri), supers, order).error
    ensures r.Ok? ==> InstanceDocument(reg, params, bs, supers, r.value)
  {
    match BuildItemsDict(reg, NewContext(), bs, Some(params.classUri), supers, order)
    case Err(e) => Err(e)
    case Ok(built) =>
      AssembledDocument(reg, params, bs, supers, order, built);
      Ok(Document(reg, params, built.0, built.1))
  }

  /** `get_instance`: no bindings means the instance was not found; otherwise the instance
      document, or the error assembling it raised. */
  function GetInstance(reg: Registry, bs: seq<Binding>, params: InstanceParams, supers: map<string, string>,
                       order: seq<string>)
    : (r: Result<Option<map<string, DocValue>>, InstanceError>)
    requires Enumerates(order, Aggregate(reg, NewContext(), bs).1.Keys)
    ensures bs == [] <==> r == Ok(None)
    ensures r.Ok? && r.value.Some? ==> InstanceDocument(reg, params, bs, supers, r.value.value)
    ensures bs != [] ==>
      && (r.Err? <==> AssembleInstance(reg, bs, params, supers, order).Err?)
      && (r.Err? ==> r.error == AssembleInstance(reg, bs, params, supers, order).error)
  {
    if bs == [] then Ok(None)
    else match AssembleInstance(reg, bs, params, supers, order)
      case Ok(doc) => Ok(Some(doc))
      case Err(e) => Err(e)
  }
}
