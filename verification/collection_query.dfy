/** The decision rules of the collection listing query: which (predicate, object) pairs become
    triples, the sort variable, the selected variables, the filter clauses and the sort clause.
    The SPARQL text around them is template text and is not modelled. */
module CollectionQuery {
  import opened Wrappers
  import Strings
  import Seqs
  import opened Prefixes

  const EXPANDED_RDFS_LABEL: string := "http://www.w3.org/2000/01/rdf-schema#label"
  const SHORTEN_RDFS_LABEL: string := "rdfs:label"

  /** A (predicate, object, index) triple taken from the request's `p`/`o` parameters. */
  datatype PoTuple = PoTuple(pred: string, obj: string, index: int)

  /** The request parameters the rules read. */
  datatype QueryParams = QueryParams(sortBy: string, sortOrder: string, lang: string, tuples: seq<PoTuple>)

  predicate IsVariable(term: string) {
    Strings.StartsWith(term, "?")
  }

  /** Either spelling of `rdfs:label`. */
  predicate IsRdfsLabel(term: string) {
    term == EXPANDED_RDFS_LABEL || term == SHORTEN_RDFS_LABEL
  }

  /** A predicate as the rules compare it: variables as they are, URIs shortened. */
  function ShortenTerm(reg: Registry, term: string): (r: string)
    ensures IsVariable(term) ==> r == term
    ensures !IsVariable(term) ==> r == ShortenUri(reg, term)
  {
    if IsVariable(term) then term else ShortenUri(reg, term)
  }

  /** `should_add_predicate_and_object`: a pair is dropped exactly when its object is a variable
      and its (shortened) predicate is a variable or `rdfs:label`. */
  function ShouldAdd(reg: Registry, pred: string, obj: string): (r: bool)
    ensures !r <==> IsVariable(obj) && (IsVariable(ShortenTerm(reg, pred)) || IsRdfsLabel(ShortenTerm(reg, pred)))
  {
    var p := ShortenTerm(reg, pred);
    var genericPo := IsVariable(p) && IsVariable(obj);
    var rdfsRepetition := IsRdfsLabel(p) && IsVariable(obj);
    !genericPo && !rdfsRepetition
  }

  /** A pair whose object is no variable is always added. */
  lemma ConstantObjectAdded(reg: Registry, pred: string, obj: string)
    requires !IsVariable(obj)
    ensures ShouldAdd(reg, pred, obj)
  {
  }

  /** A variable predicate with a variable object is dropped, whatever the registry. */
  lemma GenericPairDropped(reg: Registry, pred: string, obj: string)
    requires IsVariable(pred) && IsVariable(obj)
    ensures !ShouldAdd(reg, pred, obj)
  {
  }

  /** The index of the first tuple with predicate `pred` and a variable object. */
  function FirstVariableObject(tuples: seq<PoTuple>, pred: string): (r: Option<nat>)
    ensures r.Some? ==> r.value < |tuples| && tuples[r.value].pred == pred && IsVariable(tuples[r.value].obj)
    ensures r.Some? ==> forall i | 0 <= i < r.value :: !(tuples[i].pred == pred && IsVariable(tuples[i].obj))
    ensures r.None? <==> forall i | 0 <= i < |tuples| :: !(tuples[i].pred == pred && IsVariable(tuples[i].obj))
  {
    if tuples == [] then None
    else if tuples[0].pred == pred && IsVariable(tuples[0].obj) then Some(0)
    else match FirstVariableObject(tuples[1..], pred)
      case None => None
      case Some(i) => Some(i + 1)
  }

  /** `get_sort_variable`. */
  function SortVariable(reg: Registry, q: QueryParams): (r: string)
    ensures r == "" <==> q.sortBy == ""
    ensures q.sortBy != "" && IsRdfsLabel(ShortenTerm(reg, q.sortBy)) ==> r == "?label"
    ensures q.sortBy != "" && !IsRdfsLabel(ShortenTerm(reg, q.sortBy)) ==>
      match FirstVariableObject(q.tuples, ShortenTerm(reg, q.sortBy))
      case Some(i) => r == q.tuples[i].obj
      case None => r == "?sort_object"
    ensures r != "" ==> IsVariable(r)
  {
    if q.sortBy == "" then ""
    else
      var sortPredicate := ShortenTerm(reg, q.sortBy);
      if IsRdfsLabel(sortPredicate) then "?label"
      else match FirstVariableObject(q.tuples, sortPredicate)
        case Some(i) => q.tuples[i].obj
        case None => "?sort_object"
  }

  /** `sortby`: no clause without a sort variable. */
  function SortBy(reg: Registry, q: QueryParams): (r: string)
    ensures r == "" <==> SortVariable(reg, q) == ""
    ensures r != "" ==> Strings.StartsWith(r, "ORDER BY " + Strings.Upper(q.sortOrder) + "(")
    ensures r != "" ==> Strings.EndsWith(r, "(" + SortVariable(reg, q) + ")")
    ensures r != "" ==> |r| == |"ORDER BY "| + |q.sortOrder| + |SortVariable(reg, q)| + 2
  {
    var v := SortVariable(reg, q);
    if v == "" then ""
    else "ORDER BY " + Strings.Upper(q.sortOrder) + "(" + v + ")"
  }

  /** The variable a tuple contributes to the selection, if it is added at all. */
  function TupleVariable(reg: Registry, t: PoTuple): seq<string> {
    if !ShouldAdd(reg, t.pred, t.obj) then []
    else if IsVariable(t.pred) then [t.pred]
    else if IsVariable(t.obj) then [t.obj]
    else []
  }

  function TupleVariables(reg: Registry, tuples: seq<PoTuple>): (r: seq<string>)
    ensures forall v :: v in r <==> exists i | 0 <= i < |tuples| :: v in TupleVariable(reg, tuples[i])
  {
    if tuples == [] then []
    else
      var rest := TupleVariables(reg, tuples[1..]);
      assert forall i | 0 < i < |tuples| :: tuples[i] == tuples[1..][i - 1];
      TupleVariable(reg, tuples[0]) + rest
  }

  /** The selection before `sorted(set(...))`. */
  function Candidates(reg: Registry, q: QueryParams): seq<string> {
    var sortVariable := SortVariable(reg, q);
    ["?label", "?subject"] + TupleVariables(reg, q.tuples) + (if sortVariable != "" then [sortVariable] else [])
  }

  function StrKey(s: string): Seqs.AtomKey {
    Seqs.KStr(s)
  }

  /** The selected variables, sorted and without repetition. */
  function VariableList(reg: Registry, q: QueryParams): seq<string> {
    Seqs.SortUnique(Candidates(reg, q), StrKey)
  }

  /** `variables`: the selected variables joined by commas. */
  function Variables(reg: Registry, q: QueryParams): string {
    Strings.Join(VariableList(reg, q), ", ")
  }

  lemma KeysOfStrings(s: seq<string>, v: string)
    ensures v in s <==> StrKey(v) in Seqs.Keys(s, StrKey)
  {
    if StrKey(v) in Seqs.Keys(s, StrKey) {
      var i :| 0 <= i < |s| && StrKey(s[i]) == StrKey(v);
      assert s[i] == v;
    }
  }

  /** The selection is strictly ascending (so free of repetitions) and holds exactly the
      candidate variables: always `?label` and `?subject`, the sort variable when there is
      one, and the variable of each added tuple. */
  lemma VariableListLaw(reg: Registry, q: QueryParams)
    ensures var vs := VariableList(reg, q);
            && Seqs.StrictlySorted(vs, StrKey)
            && (forall v :: v in vs <==> v in Candidates(reg, q))
            && "?label" in vs && "?subject" in vs
            && (SortVariable(reg, q) != "" ==> SortVariable(reg, q) in vs)
            && (forall i | 0 <= i < |q.tuples| :: forall v | v in TupleVariable(reg, q.tuples[i]) :: v in vs)
  {
    var vs := VariableList(reg, q);
    var cs := Candidates(reg, q);
    forall v
      ensures v in vs <==> v in cs
    {
      KeysOfStrings(vs, v);
      KeysOfStrings(cs, v);
    }
    assert cs[0] == "?label" && cs[1] == "?subject";
    if SortVariable(reg, q) != "" {
      assert cs[|cs| - 1] == SortVariable(reg, q);
    }
    forall i | 0 <= i < |q.tuples|
      ensures forall v | v in TupleVariable(reg, q.tuples[i]) :: v in vs
    {
      forall v | v in TupleVariable(reg, q.tuples[i])
        ensures v in cs
      {
        assert v in TupleVariables(reg, q.tuples);
      }
    }
  }

  /** The `ORDER BY` clause sorts on a variable the query selects. */
  lemma SortClauseVariableSelected(reg: Registry, q: QueryParams)
    ensures SortBy(reg, q) != "" ==> SortVariable(reg, q) in VariableList(reg, q)
  {
    VariableListLaw(reg, q);
  }

  /** `next_variable`'s decimal rendering of an index. */
  function NatToString(n: nat): (r: string)
    ensures r != []
    decreases n
  {
    var digit := ["0123456789"[n % 10]];
    if n < 10 then digit else NatToString(n / 10) + digit
  }

  /** A filter clause before rendering: equality of the i-th literal variable with a value, or
      the language restriction on a variable. */
  datatype FilterClause = LiteralFilter(index: nat, value: string) | LangFilter(variable: string, lang: string)

  function Render(c: FilterClause): string {
    match c
    case LiteralFilter(i, v) => "FILTER(str(?literal" + NatToString(i) + ") = \"" + v + "\") ."
    case LangFilter(x, lang) =>
      "FILTER(langMatches(lang(" + x + "), \"" + lang + "\") OR langMatches(lang(" + x + "), \"\")) ."
  }

  /** The literal-equality loop of `filter`: each literal or URL object gets the next index,
      and its clause is appended unless already present. */
  function LiteralFilters(tuples: seq<PoTuple>, isLiteral: string -> bool, isUrl: string -> bool,
                          count: nat, acc: seq<FilterClause>): seq<FilterClause>
    decreases |tuples|
  {
    if tuples == [] then acc
    else
      var o := tuples[0].obj;
      if isLiteral(o) || isUrl(o) then
        var clause := LiteralFilter(count + 1, o);
        LiteralFilters(tuples[1..], isLiteral, isUrl, count + 1, if clause in acc then acc else acc + [clause])
      else LiteralFilters(tuples[1..], isLiteral, isUrl, count, acc)
  }

  /** The objects that are literals or URLs, in tuple order. */
  function LiteralObjects(tuples: seq<PoTuple>, isLiteral: string -> bool, isUrl: string -> bool): seq<string>
    decreases |tuples|
  {
    if tuples == [] then []
    else
      var o := tuples[0].obj;
      (if isLiteral(o) || isUrl(o) then [o] else []) + LiteralObjects(tuples[1..], isLiteral, isUrl)
  }

  /** The clauses numbered from `count + 1` for the given objects. */
  function Numbered(objs: seq<string>, count: nat): (r: seq<FilterClause>)
    ensures |r| == |objs|
    ensures forall i | 0 <= i < |objs| :: r[i] == LiteralFilter(count + 1 + i, objs[i])
  {
    seq(|objs|, i requires 0 <= i < |objs| => LiteralFilter(count + 1 + i, objs[i]))
  }

  lemma NumberedCons(o: string, rest: seq<string>, count: nat)
    ensures [LiteralFilter(count + 1, o)] + Numbered(rest, count + 1) == Numbered([o] + rest, count)
  {
    var r := [LiteralFilter(count + 1, o)] + Numbered(rest, count + 1);
    assert forall i | 1 <= i < |r| :: r[i] == Numbered(rest, count + 1)[i - 1];
  }

  /** The membership test never fires: indices grow, so every literal or URL object yields its
      own clause, numbered in order. */
  lemma {:induction false} LiteralFiltersNumbered(tuples: seq<PoTuple>, isLiteral: string -> bool,
                                                  isUrl: string -> bool, count: nat, acc: seq<FilterClause>)
    requires forall c | c in acc :: c.LiteralFilter? && c.index <= count
    ensures LiteralFilters(tuples, isLiteral, isUrl, count, acc)
         == acc + Numbered(LiteralObjects(tuples, isLiteral, isUrl), count)
    decreases |tuples|
  {
    if tuples == [] {
      assert acc + Numbered([], count) == acc;
    } else {
      var o := tuples[0].obj;
      var rest := LiteralObjects(tuples[1..], isLiteral, isUrl);
      if isLiteral(o) || isUrl(o) {
        var clause := LiteralFilter(count + 1, o);
        assert clause !in acc;
        LiteralFiltersNumbered(tuples[1..], isLiteral, isUrl, count + 1, acc + [clause]);
        assert LiteralObjects(tuples, isLiteral, isUrl) == [o] + rest;
        NumberedCons(o, rest, count);
        assert acc + [clause] + Numbered(rest, count + 1) == acc + ([clause] + Numbered(rest, count + 1));
      } else {
        LiteralFiltersNumbered(tuples[1..], isLiteral, isUrl, count, acc);
        assert LiteralObjects(tuples, isLiteral, isUrl) == rest;
      }
    }
  }

  /** The clauses of `filter`: one per literal or URL object, then the label's language clause
      when a language is requested. */
  function FilterClauses(q: QueryParams, isLiteral: string -> bool, isUrl: string -> bool): seq<FilterClause> {
    LiteralFilters(q.tuples, isLiteral, isUrl, 0, [])
      + (if q.lang != "" then [LangFilter("?label", q.lang)] else [])
  }

  /** `filter`: the rendered clauses, one per line. */
  function Filter(q: QueryParams, isLiteral: string -> bool, isUrl: string -> bool): (r: string)
    ensures r == "" <==> FilterClauses(q, isLiteral, isUrl) == []
    ensures forall c | c in FilterClauses(q, isLiteral, isUrl) :: Strings.Infix(Render(c), r)
  {
    var clauses := FilterClauses(q, isLiteral, isUrl);
    var rendered := seq(|clauses|, i requires 0 <= i < |clauses| => Render(clauses[i]));
    JoinEmpty(rendered, "\n");
    forall c | c in clauses
      ensures Strings.Infix(Render(c), Strings.Join(rendered, "\n"))
    {
      var i :| 0 <= i < |clauses| && clauses[i] == c;
      Strings.JoinHas(rendered, "\n", i);
    }
    Strings.Join(rendered, "\n")
  }

  lemma FilterClausesLaw(q: QueryParams, isLiteral: string -> bool, isUrl: string -> bool)
    ensures var cs := FilterClauses(q, isLiteral, isUrl);
            var objs := LiteralObjects(q.tuples, isLiteral, isUrl);
            && Seqs.Distinct(cs)
            && |cs| == |objs| + (if q.lang != "" then 1 else 0)
            && (forall i | 0 <= i < |objs| :: cs[i] == LiteralFilter(i + 1, objs[i]))
            && (q.lang != "" <==> LangFilter("?label", q.lang) in cs)
            && (forall c | c in cs && c.LangFilter? :: c == LangFilter("?label", q.lang))
  {
    LiteralFiltersNumbered(q.tuples, isLiteral, isUrl, 0, []);
    var objs := LiteralObjects(q.tuples, isLiteral, isUrl);
    assert [] + Numbered(objs, 0) == Numbered(objs, 0);
  }

  /** Joining renders nothing exactly when there are no clauses. */
  lemma JoinEmpty(ws: seq<string>, sep: string)
    requires forall i | 0 <= i < |ws| :: ws[i] != ""
    ensures Strings.Join(ws, sep) == "" <==> ws == []
  {
  }
}
