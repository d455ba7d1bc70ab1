/** The namespace table and the per-document compaction context: shortening a URI to
    `slug:local` by its longest registered namespace, expanding a compact name back, and the
    `@context` a document accumulates while its URIs are shortened. The concrete table of
    namespaces is a parameter. */
module Prefixes {
  import opened Wrappers
  import Strings

  /** The two lookup tables of the namespace registry: slug to namespace URI and back. */
  datatype Registry = Registry(slugToNamespace: map<string, string>, namespaceToSlug: map<string, string>)

  /** A registry whose tables are mutual inverses and whose slugs can be told apart from a
      URI scheme in a compact name. */
  predicate Valid(reg: Registry) {
    && (forall slug | slug in reg.slugToNamespace ::
          reg.slugToNamespace[slug] in reg.namespaceToSlug
          && reg.namespaceToSlug[reg.slugToNamespace[slug]] == slug)
    && (forall ns | ns in reg.namespaceToSlug ::
          reg.namespaceToSlug[ns] in reg.slugToNamespace
          && reg.slugToNamespace[reg.namespaceToSlug[ns]] == ns)
    && (forall slug | slug in reg.slugToNamespace ::
          ':' !in slug && slug != "http" && slug != "https")
  }

  datatype PrefixError = UnknownPrefix(slug: string)

  /** The longest registered non-empty namespace among the first `n` prefixes of `uri`. */
  function LongestPrefixFrom(reg: Registry, uri: string, n: nat): (r: Option<string>)
    requires n <= |uri|
    ensures r.Some? ==>
      && r.value in reg.namespaceToSlug && 0 < |r.value| <= n && uri[..|r.value|] == r.value
      && (forall ns | ns in reg.namespaceToSlug && |ns| <= n && Strings.StartsWith(uri, ns) ::
            |ns| <= |r.value|)
    ensures r.None? ==>
      forall ns | ns in reg.namespaceToSlug && 0 < |ns| <= n :: !Strings.StartsWith(uri, ns)
    decreases n
  {
    if n == 0 then None
    else if uri[..n] in reg.namespaceToSlug then Some(uri[..n])
    else LongestPrefixFrom(reg, uri, n - 1)
  }

  /** The registered namespace that `uri` starts with; the longest one when several do. */
  function ExtractPrefix(reg: Registry, uri: string): (r: Option<string>)
    ensures r.Some? ==>
      && r.value in reg.namespaceToSlug && r.value != "" && Strings.StartsWith(uri, r.value)
      && (forall ns | ns in reg.namespaceToSlug && Strings.StartsWith(uri, ns) :: |ns| <= |r.value|)
    ensures r.None? <==>
      forall ns | ns in reg.namespaceToSlug && ns != "" :: !Strings.StartsWith(uri, ns)
  {
    LongestPrefixFrom(reg, uri, |uri|)
  }

  /** `shorten_uri`: `slug:local` for the longest registered namespace, otherwise `uri` itself. */
  function ShortenUri(reg: Registry, uri: string): string {
    match ExtractPrefix(reg, uri)
    case None => uri
    case Some(ns) => reg.namespaceToSlug[ns] + ":" + uri[|ns|..]
  }

  /** The index of the first `:` in `s`. */
  function FirstColon(s: string): (r: Option<nat>)
    ensures r.Some? ==> r.value < |s| && s[r.value] == ':' && ':' !in s[..r.value]
    ensures r.None? <==> ':' !in s
  {
    if s == [] then None
    else if s[0] == ':' then Some(0)
    else match FirstColon(s[1..])
      case None => None
      case Some(i) =>
        assert s[..i + 1] == [s[0]] + s[1..][..i];
        Some(i + 1)
  }

  predicate IsHttpUri(s: string) {
    Strings.StartsWith(s, "http://") || Strings.StartsWith(s, "https://")
  }

  /** `expand_uri`: full http(s) URIs and names without a `:` pass through; `slug:local`
      becomes the slug's namespace followed by `local`; an unregistered slug is an error. */
  function ExpandUri(reg: Registry, s: string): (r: Result<string, PrefixError>)
    ensures IsHttpUri(s) ==> r == Ok(s)
    ensures !IsHttpUri(s) && ':' !in s ==> r == Ok(s)
    ensures !IsHttpUri(s) && ':' in s ==>
      var i := FirstColon(s).value;
      && (s[..i] in reg.slugToNamespace ==> r == Ok(reg.slugToNamespace[s[..i]] + s[i + 1..]))
      && (s[..i] !in reg.slugToNamespace ==> r == Err(UnknownPrefix(s[..i])))
  {
    if IsHttpUri(s) then Ok(s)
    else match FirstColon(s)
      case None => Ok(s)
      case Some(i) =>
        var slug := s[..i];
        if slug in reg.slugToNamespace then Ok(reg.slugToNamespace[slug] + s[i + 1..])
        else Err(UnknownPrefix(slug))
  }

  /** `slug_to_prefix`: the namespace of a registered slug; an unknown slug is an error. */
  function SlugToPrefix(reg: Registry, slug: string): (r: Result<string, PrefixError>)
    ensures r.Ok? <==> slug in reg.slugToNamespace
    ensures r.Ok? ==> r.value == reg.slugToNamespace[slug]
    ensures r.Err? ==> r.error == UnknownPrefix(slug)
  {
    if slug in reg.slugToNamespace then Ok(reg.slugToNamespace[slug]) else Err(UnknownPrefix(slug))
  }

  /** `safe_slug_to_prefix`: like `SlugToPrefix`, but an unknown slug is returned unchanged. */
  function SafeSlugToPrefix(reg: Registry, slug: string): (r: string)
    ensures SlugToPrefix(reg, slug).Ok? ==> r == SlugToPrefix(reg, slug).value
    ensures SlugToPrefix(reg, slug).Err? ==> r == slug
  {
    if slug in reg.slugToNamespace then reg.slugToNamespace[slug] else slug
  }

  datatype Mode = Shorten | Expand

  /** `normalize_uri(uri, mode)`. */
  function NormalizeUri(reg: Registry, uri: string, mode: Mode): (r: Result<string, PrefixError>)
    ensures mode == Shorten ==> r == Ok(ShortenUri(reg, uri))
    ensures mode == Expand ==> r == ExpandUri(reg, uri)
  {
    match mode
    case Shorten => Ok(ShortenUri(reg, uri))
    case Expand => ExpandUri(reg, uri)
  }

  /** `MemorizeContext`: the growing `@context` (slug to namespace) and the predicates known
      to have an object (resource) range, with that range. */
  datatype Context = Context(context: map<string, string>, objectProperties: map<string, string>)

  function NewContext(): Context {
    Context(map[], map[])
  }

  /** Every entry of the context maps a registered slug to its own namespace. */
  predicate ContextSound(reg: Registry, ctx: Context) {
    forall slug | slug in ctx.context ::
      ctx.context[slug] in reg.namespaceToSlug && reg.namespaceToSlug[ctx.context[slug]] == slug
  }

  /** The context records the namespace `uri` was shortened by, under its slug. */
  predicate Records(reg: Registry, ctx: Context, uri: string) {
    ExtractPrefix(reg, uri).Some? ==>
      var ns := ExtractPrefix(reg, uri).value;
      reg.namespaceToSlug[ns] in ctx.context && ctx.context[reg.namespaceToSlug[ns]] == ns
  }

  /** The context after shortening `uri`: `slug -> namespace` recorded when a namespace matched. */
  function Record(reg: Registry, ctx: Context, uri: string): Context {
    match ExtractPrefix(reg, uri)
    case None => ctx
    case Some(ns) => ctx.(context := ctx.context[reg.namespaceToSlug[ns] := ns])
  }

  /** `MemorizeContext.shorten_uri`: the module-level short form, and the updated context. */
  function ContextShorten(reg: Registry, ctx: Context, uri: string): (Context, string) {
    (Record(reg, ctx, uri), ShortenUri(reg, uri))
  }

  /** Shortening through a context gives the module-level short form; the context then records
      the namespace used, gains at most that one slug, keeps the object properties, and stays
      sound. An unknown URI comes back unchanged and leaves the context as it was. */
  lemma ContextShortenLaw(reg: Registry, ctx: Context, uri: string)
    ensures var (c, short) := ContextShorten(reg, ctx, uri);
      && Records(reg, c, uri)
      && c.objectProperties == ctx.objectProperties
      && (ExtractPrefix(reg, uri).None? ==> c == ctx && short == uri)
      && (ExtractPrefix(reg, uri).Some? ==>
            var ns := ExtractPrefix(reg, uri).value;
            && c.context.Keys == ctx.context.Keys + {reg.namespaceToSlug[ns]}
            && short == reg.namespaceToSlug[ns] + ":" + uri[|ns|..])
      && (ContextSound(reg, ctx) ==> ContextSound(reg, c))
  {
  }

  /** `MemorizeContext.add_object_property`. */
  function AddObjectProperty(ctx: Context, property: string, range: string): (r: Context)
    ensures property in r.objectProperties && r.objectProperties[property] == range
    ensures r.objectProperties.Keys == ctx.objectProperties.Keys + {property}
    ensures r.context == ctx.context
  {
    ctx.(objectProperties := ctx.objectProperties[property := range])
  }

  /** The first `:` of a short form is the one after the slug. */
  lemma FirstColonOfShortForm(slug: string, local: string)
    requires ':' !in slug
    ensures FirstColon(slug + ":" + local) == Some(|slug|)
  {
    var short := slug + ":" + local;
    assert short[|slug|] == ':';
    assert forall k :: 0 <= k < |slug| ==> short[k] == slug[k];
    assert forall j :: |slug| < j <= |short| ==> short[..j][|slug|] == ':';
  }

  /** In a full `http://` or `https://` URI the first `:` ends the scheme. */
  lemma FirstColonOfHttpUri(s: string)
    ensures Strings.StartsWith(s, "http://") ==> FirstColon(s) == Some(4) && s[..4] == "http"
    ensures Strings.StartsWith(s, "https://") ==> FirstColon(s) == Some(5) && s[..5] == "https"
  {
    if Strings.StartsWith(s, "http://") {
      assert s[..7][4] == ':' && s[4] == ':';
      assert forall k :: 0 <= k < 4 ==> s[k] == s[..7][k] != ':';
      assert s[..4] == s[..7][..4];
    }
    if Strings.StartsWith(s, "https://") {
      assert s[..8][5] == ':' && s[5] == ':';
      assert forall k :: 0 <= k < 5 ==> s[k] == s[..8][k] != ':';
      assert s[..5] == s[..8][..5];
    }
  }

  /** A short form whose slug is neither `http` nor `https` is not taken for a full URI. */
  lemma ShortFormNotHttp(slug: string, local: string)
    requires ':' !in slug && slug != "http" && slug != "https"
    ensures !IsHttpUri(slug + ":" + local)
  {
    var short := slug + ":" + local;
    FirstColonOfShortForm(slug, local);
    FirstColonOfHttpUri(short);
    assert short[..|slug|] == slug;
  }

  /** With a valid registry, expanding the short form of an http(s) URI gives the URI back. */
  lemma ExpandShortenRoundTrip(reg: Registry, uri: string)
    requires Valid(reg)
    requires IsHttpUri(uri)
    ensures ExpandUri(reg, ShortenUri(reg, uri)) == Ok(uri)
  {
    match ExtractPrefix(reg, uri)
    case None =>
    case Some(ns) =>
      var slug := reg.namespaceToSlug[ns];
      var local := uri[|ns|..];
      var short := slug + ":" + local;
      assert slug in reg.slugToNamespace && reg.slugToNamespace[slug] == ns;
      assert ':' !in slug && slug != "http" && slug != "https";
      FirstColonOfShortForm(slug, local);
      ShortFormNotHttp(slug, local);
      assert short[..|slug|] == slug;
      assert short[|slug| + 1..] == local;
      assert uri == ns + local;
  }

  /** Shortening a URI a second time through the same context yields the same short form and
      adds nothing to the context. */
  lemma ContextShortenIdempotent(reg: Registry, ctx: Context, uri: string)
    ensures var (c1, s1) := ContextShorten(reg, ctx, uri);
            var (c2, s2) := ContextShorten(reg, c1, uri);
            s2 == s1 && c2 == c1
  {
    var (c1, s1) := ContextShorten(reg, ctx, uri);
    match ExtractPrefix(reg, uri)
    case None =>
    case Some(ns) =>
      var slug := reg.namespaceToSlug[ns];
      assert c1.context[slug := ns] == c1.context;
  }

  /** When one registered namespace extends another, the longer one is used. */
  lemma LongestRegisteredPrefixWins()
    ensures
      var reg := Registry(map[],
        map["http://some" := "some", "http://someprefix/place/" := "place",
            "http://someprefix/place/City" := "place"]);
      ExtractPrefix(reg, "http://someprefix/place/City") == Some("http://someprefix/place/City")
  {
    var reg := Registry(map[],
      map["http://some" := "some", "http://someprefix/place/" := "place",
          "http://someprefix/place/City" := "place"]);
    var uri := "http://someprefix/place/City";
    assert uri[..|uri|] == uri;
    var r := ExtractPrefix(reg, uri);
    assert r.Some?;
    assert |r.value| >= |uri|;
    assert r.value == uri[..|r.value|];
  }

  /** Shortening through a fresh context records the slug and namespace it used. */
  lemma ContextRecordsRdf()
    ensures
      var rdf := "http://www.w3.org/1999/02/22-rdf-syntax-ns#";
      var reg := Registry(map["rdf" := rdf], map[rdf := "rdf"]);
      ContextShorten(reg, NewContext(), rdf + "type") == (Context(map["rdf" := rdf], map[]), "rdf:type")
  {
    var rdf := "http://www.w3.org/1999/02/22-rdf-syntax-ns#";
    var reg := Registry(map["rdf" := rdf], map[rdf := "rdf"]);
    var uri := rdf + "type";
    assert uri[..|rdf|] == rdf;
    var r := ExtractPrefix(reg, uri);
    assert r == Some(rdf);
    assert uri[|rdf|..] == "type";
    assert ShortenUri(reg, uri) == "rdf:type";
    assert reg.namespaceToSlug[rdf] == "rdf";
  }
}
