/** The pure helpers of the suggest service: checking a requested class or graph restriction
    against the range of a predicate, choosing the title of a hit, flattening a hit's fields,
    and building the search-engine request bodies. */
module Suggest {
  import opened Wrappers
  import opened Json
  import Seqs
  import Strings
  import Prefixes

  datatype SuggestError =
    | ClassesOutOfRange(classes: seq<string>)  // 400: requested classes outside the range
    | GraphsOutOfRange(graphs: seq<string>)    // 400: requested graphs outside the range
    | NoGraphWithInstances                     // 400: every remaining graph lacks instances
    | NoTitleField                             // RuntimeError: no title field has a value
    | MissingKey(key: string)                  // KeyError on a schema or request entry
    | UnhashableType                           // TypeError: a list or dict used as a dict key
    | NotAList                                 // `instance_fields` that is not a list

  /** The request's restriction: `classes` and `graphs` are optional keys. */
  datatype SearchParams = SearchParams(
    target: string,
    classes: Option<seq<string>>,
    graphs: Option<seq<string>>)

  /** `list(set(requested).difference(allowed))`: the requested values outside `allowed`,
      each once. */
  function Outside(requested: seq<string>, allowed: seq<string>): (r: seq<string>)
    ensures Seqs.Distinct(r)
    ensures forall x :: x in r <==> x in requested && x !in allowed
  {
    Seqs.Dedup(Keep(requested, allowed))
  }

  function Keep(xs: seq<string>, allowed: seq<string>): (r: seq<string>)
    ensures forall x :: x in r <==> x in xs && x !in allowed
  {
    if xs == [] then []
    else if xs[0] in allowed then Keep(xs[1..], allowed)
    else [xs[0]] + Keep(xs[1..], allowed)
  }

  /** `_validate_class_restriction`: without a restriction every class of the range; with one,
      the requested classes as given, provided they all lie in the range. */
  function ValidateClassRestriction(sp: SearchParams, rangeClasses: seq<string>)
    : (r: Result<seq<string>, SuggestError>)
    ensures sp.classes.None? ==>
              r.Ok? && Seqs.Distinct(r.value)
              && forall c :: c in r.value <==> c in rangeClasses
    ensures sp.classes.Some? ==>
              (r.Ok? <==> forall c | c in sp.classes.value :: c in rangeClasses)
    ensures sp.classes.Some? && r.Ok? ==> r.value == sp.classes.value
    ensures r.Err? ==>
              && r.error.ClassesOutOfRange?
              && sp.classes.Some?
              && forall c :: c in r.error.classes <==> c in sp.classes.value && c !in rangeClasses
  {
    match sp.classes
    case None => Ok(Seqs.Dedup(rangeClasses))
    case Some(requested) =>
      var missing := Outside(requested, rangeClasses);
      if missing != [] then Err(ClassesOutOfRange(missing)) else Ok(requested)
  }

  /** `_validate_graph_restriction`: the requested graphs (or, without a restriction, the graphs
      of the range) minus the graphs that hold no instances, which must leave something. */
  function ValidateGraphRestriction(sp: SearchParams, rangeGraphs: seq<string>,
                                    graphsWithoutInstances: seq<string>)
    : (r: Result<seq<string>, SuggestError>)
    ensures sp.graphs.Some? && (exists g | g in sp.graphs.value :: g !in rangeGraphs) ==>
              r.Err? && r.error.GraphsOutOfRange?
              && forall g :: g in r.error.graphs <==> g in sp.graphs.value && g !in rangeGraphs
    ensures r.Ok? ==>
              && Seqs.Distinct(r.value)
              && r.value != []
              && forall g :: g in r.value <==>
                   && g in (if sp.graphs.Some? then sp.graphs.value else rangeGraphs)
                   && g !in graphsWithoutInstances
    ensures r.Ok? ==> forall g | g in r.value :: g in rangeGraphs
    ensures r.Ok? <==>
              && (sp.graphs.Some? ==> forall g | g in sp.graphs.value :: g in rangeGraphs)
              && exists g | g in (if sp.graphs.Some? then sp.graphs.value else rangeGraphs)
                   :: g !in graphsWithoutInstances
    ensures r.Err? ==> r.error.GraphsOutOfRange? || r.error.NoGraphWithInstances?
    ensures r.Err? && r.error.GraphsOutOfRange? <==>
              sp.graphs.Some? && exists g | g in sp.graphs.value :: g !in rangeGraphs
    ensures r.Err? && r.error.NoGraphWithInstances? <==>
              && (sp.graphs.Some? ==> forall g | g in sp.graphs.value :: g in rangeGraphs)
              && forall g | g in (if sp.graphs.Some? then sp.graphs.value else rangeGraphs)
                   :: g in graphsWithoutInstances
  {
    var base :- match sp.graphs
      case None => Ok(rangeGraphs)
      case Some(requested) =>
        var missing := Outside(requested, rangeGraphs);
        if missing != [] then Err(GraphsOutOfRange(missing)) else Ok(requested);
    var graphs := Outside(base, graphsWithoutInstances);
    if graphs == [] then Err(NoGraphWithInstances) else Ok(graphs)
  }

  /** `_get_title_value`: the last title field whose value in the hit is truthy, with that
      value. */
  function TitleValue(fields: map<string, Json>, titleFields: seq<string>)
    : (r: Result<(string, Json), SuggestError>)
    ensures r.Ok? <==> exists i | 0 <= i < |titleFields| :: Truthy(Get(fields, titleFields[i]))
    ensures r.Err? ==> r.error == NoTitleField
    ensures r.Ok? ==>
              exists i | 0 <= i < |titleFields| ::
                && titleFields[i] == r.value.0
                && r.value.1 == Get(fields, titleFields[i])
                && Truthy(r.value.1)
                && forall j | i < j < |titleFields| :: !Truthy(Get(fields, titleFields[j]))
    decreases |titleFields|
  {
    if titleFields == [] then Err(NoTitleField)
    else
      var field := titleFields[|titleFields| - 1];
      var title := Get(fields, field);
      if Truthy(title) then Ok((field, title))
      else TitleValue(fields, titleFields[..|titleFields| - 1])
  }

  /** `_build_type_filters`: `{"or": [{"type": {"value": c}}, ...]}`, one entry per class. */
  function TypeFilters(classes: seq<string>): (r: Json)
    ensures r.Obj? && r.fields.Keys == {"or"} && r.fields["or"].Arr?
    ensures |r.fields["or"].items| == |classes|
  {
    Obj(map["or" := Arr(seq(|classes|, i requires 0 <= i < |classes| => TypeFilter(classes[i])))])
  }

  function TypeFilter(c: string): Json {
    Obj(map["type" := Obj(map["value" := Str(c)])])
  }

  /** Reads the classes back out of a type filter; `None` for anything else. */
  function FilteredClasses(j: Json): (r: Option<seq<string>>)
  {
    if j.Obj? && "or" in j.fields && j.fields["or"].Arr? then
      FilterValues(j.fields["or"].items)
    else None
  }

  function FilterValues(xs: seq<Json>): Option<seq<string>>
    decreases |xs|
  {
    if xs == [] then Some([])
    else
      var x := xs[0];
      if x.Obj? && "type" in x.fields && x.fields["type"].Obj?
         && "value" in x.fields["type"].fields && x.fields["type"].fields["value"].Str?
      then
        match FilterValues(xs[1..])
        case None => None
        case Some(rest) => Some([x.fields["type"].fields["value"].s] + rest)
      else None
  }

  /** The type filter lists exactly the classes, in their order. */
  lemma TypeFiltersRoundTrip(classes: seq<string>)
    ensures FilteredClasses(TypeFilters(classes)) == Some(classes)
  {
    var items := TypeFilters(classes).fields["or"].items;
    FilterValuesOfFilters(classes, items);
  }

  lemma {:induction false} FilterValuesOfFilters(classes: seq<string>, items: seq<Json>)
    requires |items| == |classes|
    requires forall i | 0 <= i < |classes| :: items[i] == TypeFilter(classes[i])
    ensures FilterValues(items) == Some(classes)
    decreases |classes|
  {
    if classes != [] {
      FilterValuesOfFilters(classes[1..], items[1..]);
      assert classes == [classes[0]] + classes[1..];
    }
  }

  /** One entry of `instance_fields`. `objectId` is present only for an object that is a
      dict. */
  datatype InstanceField = InstanceField(
    objectTitle: Json,
    predicateId: string,
    predicateTitle: Json,
    required: Json,
    objectId: Option<Json>)

  /** The entries for one property of a hit, given the property's schema. */
  function PropertyFields(reg: Prefixes.Registry, expandUri: string, uri: string, value: Json,
                          schema: map<string, Json>): (r: seq<InstanceField>)
    requires "title" in schema
    ensures |r| == |AsList(value)|
    ensures forall k | 0 <= k < |r| ::
              var o := AsList(value)[k];
              && r[k].predicateId == (if expandUri == "1" then uri else Prefixes.ShortenUri(reg, uri))
              && r[k].predicateTitle == schema["title"]
              && r[k].required == (if "required" in schema then schema["required"] else Bool(false))
              && (o.Obj? ==> r[k].objectTitle == Get(o.fields, "title"))
              && (!o.Obj? ==> r[k].objectTitle == o)
              && (r[k].objectId.Some? <==> o.Obj?)
              && (o.Obj? ==> r[k].objectId == Some(Get(o.fields, "@id")))
  {
    var id := if expandUri == "1" then uri else Prefixes.ShortenUri(reg, uri);
    var required := if "required" in schema then schema["required"] else Bool(false);
    var os := AsList(value);
    seq(|os|, k requires 0 <= k < |os| =>
      var o := os[k];
      if o.Obj? then InstanceField(Get(o.fields, "title"), id, schema["title"], required,
                                   Some(Get(o.fields, "@id")))
      else InstanceField(o, id, schema["title"], required, None))
  }

  /** How many entries `get_instance_fields` emits: one per object. */
  function ObjectCount(fields: seq<(string, Json)>): nat {
    if fields == [] then 0
    else ObjectCount(fields[..|fields| - 1]) + |AsList(fields[|fields| - 1].1)|
  }

  /** `get_instance_fields`, over the hit's `fields` in iteration order: each property's entries
      in turn. A property missing from the class schema, or whose schema lacks a title, is a
      KeyError. */
  function InstanceFields(reg: Prefixes.Registry, expandUri: string,
                          fields: seq<(string, Json)>, properties: map<string, map<string, Json>>)
    : (r: Result<seq<InstanceField>, SuggestError>)
    ensures r.Ok? <==>
              forall i | 0 <= i < |fields| ::
                fields[i].0 in properties && "title" in properties[fields[i].0]
    ensures r.Err? ==> r.error.MissingKey?
    ensures r.Ok? ==> |r.value| == ObjectCount(fields)
    decreases |fields|
  {
    if fields == [] then Ok([])
    else
      var init := fields[..|fields| - 1];
      var last := fields[|fields| - 1];
      assert forall i | 0 <= i < |init| :: init[i] == fields[i];
      match InstanceFields(reg, expandUri, init, properties)
      case Err(e) => Err(e)
      case Ok(before) =>
        if last.0 !in properties then Err(MissingKey(last.0))
        else if "title" !in properties[last.0] then Err(MissingKey("title"))
        else Ok(before + PropertyFields(reg, expandUri, last.0, last.1, properties[last.0]))
  }

  /** The entries of a hit are those of its properties, one property after another. */
  lemma InstanceFieldsAppend(reg: Prefixes.Registry, expandUri: string,
                             fields: seq<(string, Json)>, uri: string, value: Json,
                             properties: map<string, map<string, Json>>)
    requires InstanceFields(reg, expandUri, fields + [(uri, value)], properties).Ok?
    ensures InstanceFields(reg, expandUri, fields, properties).Ok?
    ensures uri in properties && "title" in properties[uri]
    ensures InstanceFields(reg, expandUri, fields + [(uri, value)], properties).value
         == InstanceFields(reg, expandUri, fields, properties).value
            + PropertyFields(reg, expandUri, uri, value, properties[uri])
  {
    assert (fields + [(uri, value)])[..|fields|] == fields;
  }

  /** `remove_title_field` on a hit, which must have a `fields` dict: the title field is gone
      and everything else is as it was. */
  function RemoveTitleField(item: map<string, Json>, titleField: string): (r: map<string, Json>)
    requires "fields" in item && item["fields"].Obj?
    ensures r.Keys == item.Keys && "fields" in r && r["fields"].Obj?
    ensures forall k | k in item && k != "fields" :: r[k] == item[k]
    ensures titleField !in r["fields"].fields
    ensures forall k :: k in r["fields"].fields <==> k in item["fields"].fields && k != titleField
    ensures forall k | k in r["fields"].fields :: r["fields"].fields[k] == item["fields"].fields[k]
    ensures titleField !in item["fields"].fields ==> r == item
  {
    var fields := item["fields"].fields;
    if titleField in fields then item["fields" := Obj(fields - {titleField})] else item
  }

  /** Removing the title field a second time changes nothing. */
  lemma RemoveTitleFieldIdempotent(item: map<string, Json>, titleField: string)
    requires "fields" in item && item["fields"].Obj?
    ensures RemoveTitleField(RemoveTitleField(item, titleField), titleField)
         == RemoveTitleField(item, titleField)
  {
  }

  /** `_get_response_fields_from_classes_dict`: the union of every entry's `instance_fields`.
      (The per-class table the source also builds is never returned.) */
  function FieldsByClass(entries: seq<map<string, Json>>): (r: Result<set<Json>, SuggestError>)
    ensures r.Ok? <==> forall i | 0 <= i < |entries| :: WellFormedEntry(entries[i])
    ensures r.Ok? ==>
              forall f :: f in r.value <==>
                exists i | 0 <= i < |entries| :: f in entries[i]["instance_fields"].items
    decreases |entries|
  {
    if entries == [] then Ok({})
    else
      var init := entries[..|entries| - 1];
      var entry := entries[|entries| - 1];
      var before :- FieldsByClass(init);
      if "@type" !in entry then Err(MissingKey("@type"))
      else if "instance_fields" !in entry then Err(MissingKey("instance_fields"))
      else if !Hashable(entry["@type"]) then Err(UnhashableType)
      else if !entry["instance_fields"].Arr? then Err(NotAList)
      else if exists f | f in entry["instance_fields"].items :: !Hashable(f) then Err(UnhashableType)
      else Ok(before + set f | f in entry["instance_fields"].items)
  }

  /** An entry of the request's `classes` list that the source can process. */
  predicate WellFormedEntry(entry: map<string, Json>) {
    && "@type" in entry && "instance_fields" in entry
    && Hashable(entry["@type"])
    && entry["instance_fields"].Arr?
    && forall f | f in entry["instance_fields"].items :: Hashable(f)
  }

  /** The value reached by following `path` through nested objects. */
  function At(j: Json, path: seq<string>): Option<Json>
    decreases |path|
  {
    if path == [] then Some(j)
    else if j.Obj? && path[0] in j.fields then At(j.fields[path[0]], path[1..])
    else None
  }

  function Strs(xs: seq<string>): (r: Json)
    ensures r.Arr? && |r.items| == |xs|
    ensures forall i | 0 <= i < |xs| :: r.items[i] == Str(xs[i])
  {
    Arr(seq(|xs|, i requires 0 <= i < |xs| => Str(xs[i])))
  }

  function Quoted(s: string): string {
    "\"" + s + "\""
  }

  /** The wildcard pattern of the compatible body: the words of the pattern joined by `*`,
      lower-cased, with a trailing `*`. */
  function WildcardPattern(pattern: string): string {
    Strings.Lower(Strings.Join(Strings.Split(pattern), "*")) + "*"
  }

  /** A phrase query for one analyzed token over the search fields. */
  function PhraseClause(token: string, searchFields: seq<string>): (r: Json)
    ensures At(r, ["query_string", "query"]) == Some(Str(Quoted(token)))
    ensures At(r, ["query_string", "fields"]) == Some(Strs(searchFields))
  {
    var r := Obj(map["query_string" := Obj(map["query" := Str(Quoted(token)),
                                               "fields" := Strs(searchFields)])]);
    AtTwo(r, "query_string", "query");
    AtTwo(r, "query_string", "fields");
    r
  }

  /** A wildcard query on one search field. */
  function WildcardClause(field: string, wildcard: string): (r: Json)
    ensures At(r, ["wildcard", field]) == Some(Str(wildcard))
  {
    var r := Obj(map["wildcard" := Obj(map[field := Str(wildcard)])]);
    AtTwo(r, "wildcard", field);
    r
  }

  /** The `should` clauses of the compatible body: a phrase query per analyzed token, then a
      wildcard query per search field. */
  function ShouldClauses(tokens: seq<string>, searchFields: seq<string>, pattern: string)
    : (r: seq<Json>)
    ensures |r| == |tokens| + |searchFields|
    ensures forall i | 0 <= i < |tokens| ::
              && At(r[i], ["query_string", "query"]) == Some(Str(Quoted(tokens[i])))
              && At(r[i], ["query_string", "fields"]) == Some(Strs(searchFields))
    ensures forall i | 0 <= i < |searchFields| ::
              At(r[|tokens| + i], ["wildcard", searchFields[i]])
                == Some(Str(WildcardPattern(pattern)))
  {
    var wildcard := WildcardPattern(pattern);
    seq(|tokens|, i requires 0 <= i < |tokens| => PhraseClause(tokens[i], searchFields))
    + seq(|searchFields|, i requires 0 <= i < |searchFields| => WildcardClause(searchFields[i], wildcard))
  }

  lemma AtOne(j: Json, a: string)
    ensures At(j, [a]) == if j.Obj? && a in j.fields then Some(j.fields[a]) else None
  {
    assert [a][0] == a && [a][1..] == [];
  }

  lemma AtThree(j: Json, a: string, b: string, c: string)
    ensures At(j, [a, b, c]) == if j.Obj? && a in j.fields then At(j.fields[a], [b, c]) else None
  {
    assert [a, b, c][0] == a && [a, b, c][1..] == [b, c];
  }

  lemma AtTwo(j: Json, a: string, b: string)
    ensures At(j, [a, b])
         == if j.Obj? && a in j.fields && j.fields[a].Obj? && b in j.fields[a].fields
            then Some(j.fields[a].fields[b]) else None
  {
    assert [a, b][0] == a && [a, b][1..] == [b];
    assert [b][0] == b && [b][1..] == [];
    if j.Obj? && a in j.fields {
      assert At(j, [a, b]) == At(j.fields[a], [b]);
      var k := j.fields[a];
      if k.Obj? && b in k.fields {
        assert At(k, [b]) == At(k.fields[b], []);
      }
    }
  }

  /** `_build_body_query_compatible_with_uatu_and_es_19_in_envs`. The page offset and size are
      computed by the caller. */
  function CompatibleBody(tokens: seq<string>, classes: seq<string>, searchFields: seq<string>,
                          responseFields: seq<string>, pattern: string, offset: int, size: int)
    : (r: Json)
    ensures r.Obj? && r.fields.Keys == {"from", "size", "fields", "query", "filter"}
    ensures "sort" !in r.fields
    ensures At(r, ["query", "bool", "minimum_should_match"]) == Some(Num(|tokens|))
    ensures At(r, ["query", "bool", "should"]) == Some(Arr(ShouldClauses(tokens, searchFields, pattern)))
    ensures At(r, ["filter"]) == Some(TypeFilters(classes))
    ensures At(r, ["fields"]) == Some(Strs(responseFields))
  {
    Obj(map[
      "from" := Num(offset),
      "size" := Num(size),
      "fields" := Strs(responseFields),
      "query" := Obj(map["bool" := Obj(map[
        "should" := Arr(ShouldClauses(tokens, searchFields, pattern)),
        "minimum_should_match" := Num(|tokens|)])]),
      "filter" := TypeFilters(classes)])
  }

  /** Reads the tokens back out of the phrase queries of a `should` list. */
  function PhraseTokens(clauses: seq<Json>): seq<string>
  {
    if clauses == [] then []
    else match At(clauses[0], ["query_string", "query"])
      case Some(Str(q)) =>
        if |q| >= 2 && q[0] == '"' && q[|q| - 1] == '"' then [q[1..|q| - 1]] + PhraseTokens(clauses[1..])
        else []
      case _ => []
  }

  /** The phrase queries of the compatible body are the analyzed tokens, each once, in order. */
  lemma {:induction false} PhraseTokensOfBody(tokens: seq<string>, searchFields: seq<string>,
                                              pattern: string, n: nat)
    requires n <= |tokens|
    ensures PhraseTokens(ShouldClauses(tokens, searchFields, pattern)[|tokens| - n..|tokens|])
         == tokens[|tokens| - n..]
    decreases n
  {
    var clauses := ShouldClauses(tokens, searchFields, pattern)[|tokens| - n..|tokens|];
    if n > 0 {
      var t := tokens[|tokens| - n];
      assert clauses[0] == ShouldClauses(tokens, searchFields, pattern)[|tokens| - n];
      var q := Quoted(t);
      assert q[1..|q| - 1] == t;
      assert clauses[1..] == ShouldClauses(tokens, searchFields, pattern)[|tokens| - (n - 1)..|tokens|];
      PhraseTokensOfBody(tokens, searchFields, pattern, n - 1);
      assert tokens[|tokens| - n..] == [t] + tokens[|tokens| - (n - 1)..];
    }
  }

  /** A pattern written as words separated by single spaces becomes those words, lower-cased
      and joined by `*`, with a trailing `*`. */
  lemma WildcardOfWords(words: seq<string>)
    requires forall i | 0 <= i < |words| :: Strings.IsWord(words[i])
    ensures WildcardPattern(Strings.Join(words, " ")) == Strings.Lower(Strings.Join(words, "*")) + "*"
  {
    Strings.SplitJoin(words);
  }

  /** The words of a pattern other than a lone `-`. */
  function DropDashes(words: seq<string>): (r: seq<string>)
    ensures "-" !in r
    ensures forall w :: w in r <==> w in words && w != "-"
    ensures "-" !in words ==> r == words
  {
    if words == [] then []
    else if words[0] == "-" then DropDashes(words[1..])
    else [words[0]] + DropDashes(words[1..])
  }

  /** The query string of `_build_body_query`: the lower-cased words of the pattern, without
      lone dashes, joined by `* AND `, with a trailing `*`. */
  function QueryString(pattern: string): string {
    Strings.Join(DropDashes(Strings.Split(Strings.Lower(pattern))), "* AND ") + "*"
  }

  function QueryStringClause(searchFields: seq<string>, query: string, analyzer: string): (r: Json)
    ensures At(r, ["query_string", "query"]) == Some(Str(query))
    ensures At(r, ["query_string", "analyzer"]) == Some(Str(analyzer))
    ensures At(r, ["query_string", "fields"]) == Some(Strs(searchFields))
  {
    var r := Obj(map["query_string" := Obj(map[
      "fields" := Strs(searchFields),
      "query" := Str(query),
      "analyze_wildcard" := Bool(true),
      "analyzer" := Str(analyzer)])]);
    AtTwo(r, "query_string", "query");
    AtTwo(r, "query_string", "analyzer");
    AtTwo(r, "query_string", "fields");
    r
  }

  /** `_build_body_query`: the query string is required, and the same text as a phrase is a
      bonus. The page offset and size are computed by the caller. */
  function BodyQuery(pattern: string, classes: seq<string>, searchFields: seq<string>,
                     responseFields: seq<string>, offset: int, size: int, analyzer: string)
    : (r: Json)
    ensures r.Obj? && r.fields.Keys == {"from", "size", "fields", "query", "filter"}
    ensures "sort" !in r.fields
    ensures At(r, ["query", "bool", "must"])
         == Some(QueryStringClause(searchFields, QueryString(pattern), analyzer))
    ensures At(r, ["query", "bool", "should"])
         == Some(QueryStringClause(searchFields, Quoted(QueryString(pattern)), "default"))
    ensures At(r, ["filter"]) == Some(TypeFilters(classes))
  {
    var query := QueryString(pattern);
    var boolClause := Obj(map[
      "must" := QueryStringClause(searchFields, query, analyzer),
      "should" := QueryStringClause(searchFields, Quoted(query), "default")]);
    var q := Obj(map["bool" := boolClause]);
    var r := Obj(map[
      "from" := Num(offset),
      "size" := Num(size),
      "fields" := Strs(responseFields),
      "query" := q,
      "filter" := TypeFilters(classes)]);
    AtThree(r, "query", "bool", "must");
    AtThree(r, "query", "bool", "should");
    AtTwo(q, "bool", "must");
    AtTwo(q, "bool", "should");
    AtOne(r, "filter");
    BodyQueryKeys(r.fields);
    r
  }

  /** The top-level keys of the body query, none of them `sort`. */
  lemma BodyQueryKeys(m: map<string, Json>)
    requires m.Keys == {"from", "size", "fields", "query", "filter"}
    ensures "sort" !in m
  {
  }

  lemma LowerNotDash(w: string)
    requires w != "-"
    ensures Strings.Lower(w) != "-"
  {
    if |w| == 1 {
      assert Strings.Lower(w)[0] == Strings.LowerChar(w[0]);
    }
  }

  /** The words of a pattern written with single spaces reach the query string lower-cased. */
  lemma QueryStringOfSpaced(words: seq<string>)
    requires forall i | 0 <= i < |words| :: Strings.IsWord(words[i])
    ensures QueryString(Strings.Join(words, " "))
         == Strings.Join(DropDashes(Strings.LowerAll(words)), "* AND ") + "*"
  {
    Strings.SplitLower(Strings.Join(words, " "));
    Strings.SplitJoin(words);
  }

  /** A pattern written as words separated by single spaces, none of them a lone dash, gives
      those words lower-cased and joined by `* AND `, with a trailing `*`. */
  lemma QueryStringOfWords(words: seq<string>)
    requires forall i | 0 <= i < |words| :: Strings.IsWord(words[i]) && words[i] != "-"
    ensures QueryString(Strings.Join(words, " ")) == Strings.Join(Strings.LowerAll(words), "* AND ") + "*"
  {
    QueryStringOfSpaced(words);
    var lowered := Strings.LowerAll(words);
    forall i | 0 <= i < |lowered|
      ensures lowered[i] != "-"
    {
      LowerNotDash(words[i]);
    }
    assert "-" !in lowered;
  }

  /** Lone dashes in the pattern are dropped from the query string. */
  lemma QueryStringDropsDashes(before: seq<string>, after: seq<string>)
    requires forall i | 0 <= i < |before| :: Strings.IsWord(before[i])
    requires forall i | 0 <= i < |after| :: Strings.IsWord(after[i])
    ensures QueryString(Strings.Join(before + ["-"] + after, " "))
         == QueryString(Strings.Join(before + after, " "))
  {
    var withDash := before + ["-"] + after;
    assert Strings.IsWord("-") by {
      assert "-"[0] == '-';
    }
    AllWordsConcat(before, ["-"]);
    AllWordsConcat(before + ["-"], after);
    AllWordsConcat(before, after);
    DashLowered(before, after);
    QueryStringOfSpaced(withDash);
    QueryStringOfSpaced(before + after);
  }

  lemma DashLowered(before: seq<string>, after: seq<string>)
    ensures DropDashes(Strings.LowerAll(before + ["-"] + after)) == DropDashes(Strings.LowerAll(before + after))
  {
    LowerAllDash(before, after);
    DropDashesSplice(Strings.LowerAll(before), Strings.LowerAll(after));
  }

  lemma AllWordsConcat(a: seq<string>, b: seq<string>)
    requires forall i | 0 <= i < |a| :: Strings.IsWord(a[i])
    requires forall i | 0 <= i < |b| :: Strings.IsWord(b[i])
    ensures forall i | 0 <= i < |a + b| :: Strings.IsWord((a + b)[i])
  {
  }

  lemma LowerAllDash(before: seq<string>, after: seq<string>)
    ensures Strings.LowerAll(before + ["-"] + after)
         == Strings.LowerAll(before) + ["-"] + Strings.LowerAll(after)
    ensures Strings.LowerAll(before + after) == Strings.LowerAll(before) + Strings.LowerAll(after)
  {
    assert Strings.Lower("-") == "-" by {
      assert Strings.Lower("-")[0] == Strings.LowerChar('-');
    }
  }

  lemma {:induction false} DropDashesSplice(before: seq<string>, after: seq<string>)
    ensures DropDashes(before + ["-"] + after) == DropDashes(before + after)
    decreases |before|
  {
    if before == [] {
      assert before + ["-"] + after == ["-"] + after;
      assert before + after == after;
      assert (["-"] + after)[0] == "-";
      assert (["-"] + after)[1..] == after;
    } else {
      assert (before + ["-"] + after)[1..] == before[1..] + ["-"] + after;
      assert (before + after)[1..] == before[1..] + after;
      DropDashesSplice(before[1..], after);
    }
  }
}
