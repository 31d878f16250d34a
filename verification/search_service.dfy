/** `SearchService` of the gallery module: validation of a search request,
    resolution of its `property,direction` sort descriptor, tokenisation of
    the tag string, merging of semantic-query results, and the image-probe
    search. The result is a `SearchSpec` handed to `ImageSearch`. */
module SearchService {
  import opened Common
  import opened Strings
  import opened ImageEntity
  import opened ImageSearch

  /** The search request as the service reads it; every field may be null. */
  datatype Request = Request(
    page: Option<int>,
    size: Option<int>,
    sort: Option<string>,
    tags: Option<string>,
    keyword: Option<string>,
    randomSeed: Option<string>,
    semanticQuery: Option<string>,
    widthMin: Option<int>,
    widthMax: Option<int>,
    heightMin: Option<int>,
    heightMax: Option<int>,
    sizeMin: Option<int>,
    sizeMax: Option<int>)

  const PageMessage: string := "Page index must be non-negative"
  const SizeMessage: string := "Page size must be greater than zero"
  const SortMessage: string := "Sort must be non-empty"

  /** `validateRequest`: page, then size, then sort, each rejected with its own message. */
  function Validate(req: Request): (r: Outcome)
    ensures r.Done? <==> req.page.Some? && req.page.value >= 0 && req.size.Some? && req.size.value > 0 && HasTextOpt(req.sort)
    ensures (req.page.None? || req.page.value < 0) ==> r == Failed(IllegalArgument(PageMessage))
    ensures req.page.Some? && req.page.value >= 0 && (req.size.None? || req.size.value <= 0) ==>
              r == Failed(IllegalArgument(SizeMessage))
    ensures r.Failed? ==> r.failure in {IllegalArgument(PageMessage), IllegalArgument(SizeMessage), IllegalArgument(SortMessage)}
  {
    if req.page.None? || req.page.value < 0 then Failed(IllegalArgument(PageMessage))
    else if req.size.None? || req.size.value <= 0 then Failed(IllegalArgument(SizeMessage))
    else if !HasTextOpt(req.sort) then Failed(IllegalArgument(SortMessage))
    else Done
  }

  /** `Sort.Direction.fromString`: "ASC" or "DESC" in any case. */
  function ParseDirection(s: string): (d: Option<Direction>)
    ensures d == Some(Asc) <==> EqualsIgnoreCase(s, "ASC")
    ensures d == Some(Desc) <==> EqualsIgnoreCase(s, "DESC")
  {
    if EqualsIgnoreCase(s, "ASC") then Some(Asc)
    else if EqualsIgnoreCase(s, "DESC") then Some(Desc)
    else None
  }

  /** The descriptor splits on ',' into exactly a property and a valid direction. */
  predicate WellFormedSort(sortText: string) {
    var parts := Split(sortText, ',');
    |parts| == 2 && ParseDirection(Trim(parts[1])).Some?
  }

  /** The trimmed property of a well-formed descriptor. */
  function SortProperty(sortText: string): string
    requires WellFormedSort(sortText)
  {
    Trim(Split(sortText, ',')[0])
  }

  function SortDirection(sortText: string): Direction
    requires WellFormedSort(sortText)
  {
    ParseDirection(Trim(Split(sortText, ',')[1])).value
  }

  /** The resolved sort, and the random seed that `buildSort` puts on the spec. */
  datatype SortChoice = SortChoice(orders: seq<SortOrder>, randomSeed: Option<string>)

  const FormatMessage: string := "Sort format must be 'property,direction'"
  const DirectionMessage: string := "Sort direction must be 'ASC' or 'DESC'"
  const SeedMessage: string := "Random seed must be provided for random sorting"
  const PropertyMessage: string := "Sort property cannot be empty"

  /** `buildSort`: the shape of the descriptor is checked first; then "random"
      needs a seed, "similarity" without a semantic query falls back to a
      random order (with the given seed or the fresh one), and any other
      property must be non-blank. */
  function BuildSort(sortText: string, randomSeed: Option<string>, semanticQuery: Option<string>, freshSeed: string): (r: Result<SortChoice>)
    ensures |Split(sortText, ',')| != 2 ==> r == Err(IllegalArgument(FormatMessage))
    ensures |Split(sortText, ',')| == 2 && !WellFormedSort(sortText) ==> r == Err(IllegalArgument(DirectionMessage))
    ensures WellFormedSort(sortText) && EqualsIgnoreCase(SortProperty(sortText), "random") ==>
              if HasTextOpt(randomSeed) then r == Ok(SortChoice([], randomSeed))
              else r == Err(IllegalArgument(SeedMessage))
    ensures WellFormedSort(sortText) && EqualsIgnoreCase(SortProperty(sortText), "similarity") ==>
              && r.Ok?
              && (!HasTextOpt(semanticQuery) ==>
                    r.value == SortChoice([], Some(if HasTextOpt(randomSeed) then randomSeed.value else freshSeed)))
              && (HasTextOpt(semanticQuery) ==>
                    r.value == SortChoice([SortOrder("similarity", SortDirection(sortText))], None))
    ensures WellFormedSort(sortText) && !EqualsIgnoreCase(SortProperty(sortText), "random")
            && !EqualsIgnoreCase(SortProperty(sortText), "similarity") ==>
              if !HasText(SortProperty(sortText)) then r == Err(IllegalArgument(PropertyMessage))
              else r == Ok(SortChoice([SortOrder(SortProperty(sortText), SortDirection(sortText))], None))
  {
    var parts := Split(sortText, ',');
    if |parts| != 2 then Err(IllegalArgument(FormatMessage))
    else
      var property := Trim(parts[0]);
      var direction := ParseDirection(Trim(parts[1]));
      if direction.None? then Err(IllegalArgument(DirectionMessage))
      else if EqualsIgnoreCase(property, "random") then
        if !HasTextOpt(randomSeed) then Err(IllegalArgument(SeedMessage))
        else Ok(SortChoice([], randomSeed))
      else if EqualsIgnoreCase(property, "similarity") then
        if !HasTextOpt(semanticQuery) then
          Ok(SortChoice([], Some(if HasTextOpt(randomSeed) then randomSeed.value else freshSeed)))
        else Ok(SortChoice([SortOrder("similarity", direction.value)], None))
      else if !HasText(property) then Err(IllegalArgument(PropertyMessage))
      else Ok(SortChoice([SortOrder(property, direction.value)], None))
  }

  /** `isSimilaritySort`: the first piece of the descriptor is "similarity". */
  predicate IsSimilaritySort(sortText: string) {
    var parts := Split(sortText, ',');
    |parts| > 0 && EqualsIgnoreCase(Trim(parts[0]), "similarity")
  }

  function DirectionText(d: Direction): string {
    if d == Asc then "asc" else "desc"
  }

  /** A descriptor as a client writes it. */
  function RenderSort(property: string, d: Direction): string {
    property + "," + DirectionText(d)
  }

  lemma TrimOfTrimmed(s: string)
    requires s != [] && !IsTrimmed(s[0]) && !IsTrimmed(s[|s| - 1])
    ensures Trim(s) == s
  {
    assert TrimFrom(s, 0) == 0 && TrimTo(s, 0, |s|) == |s|;
  }

  lemma SplitTwo(a: string, b: string)
    requires ',' !in a && ',' !in b && b != []
    ensures Split(a + "," + b, ',') == [a, b]
  {
    var s := a + "," + b;
    assert Join([a, b], [',']) == s by {
      assert Join([b], [',']) == b;
    }
    PiecesOfJoin([a, b], ',');
    assert ',' in s by { assert s[|a|] == ','; }
  }

  lemma DirectionTextParses(d: Direction)
    ensures ParseDirection(DirectionText(d)) == Some(d)
  {
    if d == Asc {
      assert Lower("asc") == "asc" == Lower("ASC");
    } else {
      assert Lower("desc") == "desc" == Lower("DESC");
    }
  }

  /** Resolving a rendered descriptor gives back its property and direction,
      for an ordinary column name. */
  lemma {:induction false} BuildSortOfRendered(property: string, d: Direction, randomSeed: Option<string>,
                                               semanticQuery: Option<string>, freshSeed: string)
    requires property != [] && !IsTrimmed(property[0]) && !IsTrimmed(property[|property| - 1])
    requires ',' !in property && HasText(property)
    requires !EqualsIgnoreCase(property, "random") && !EqualsIgnoreCase(property, "similarity")
    ensures BuildSort(RenderSort(property, d), randomSeed, semanticQuery, freshSeed)
            == Ok(SortChoice([SortOrder(property, d)], None))
  {
    RenderedParts(property, d);
    BuildSortField(RenderSort(property, d), property, d, randomSeed, semanticQuery, freshSeed);
  }

  /** A rendered descriptor reads back as its property and direction. */
  lemma RenderedParts(property: string, d: Direction)
    requires property != [] && !IsTrimmed(property[0]) && !IsTrimmed(property[|property| - 1])
    requires ',' !in property
    ensures WellFormedSort(RenderSort(property, d))
    ensures SortProperty(RenderSort(property, d)) == property
    ensures SortDirection(RenderSort(property, d)) == d
  {
    var text := DirectionText(d);
    var sortText := RenderSort(property, d);
    SplitTwo(property, text);
    assert Split(sortText, ',') == [property, text];
    TrimOfTrimmed(property);
    TrimOfTrimmed(text);
    DirectionTextParses(d);
  }

  /** A well-formed descriptor naming an ordinary field sorts by that field. */
  lemma BuildSortField(sortText: string, property: string, d: Direction, randomSeed: Option<string>,
                       semanticQuery: Option<string>, freshSeed: string)
    requires WellFormedSort(sortText) && SortProperty(sortText) == property && SortDirection(sortText) == d
    requires HasText(property)
    requires !EqualsIgnoreCase(property, "random") && !EqualsIgnoreCase(property, "similarity")
    ensures BuildSort(sortText, randomSeed, semanticQuery, freshSeed) == Ok(SortChoice([SortOrder(property, d)], None))
  {
  }

  /** A token of the form "-x" with x non-empty excludes the tag x. */
  predicate IsExclusion(tok: string) {
    |tok| > 1 && tok[0] == '-'
  }

  /** The loop of `parseTags` over the tokens, from given sets. */
  function CollectTags(toks: seq<string>, pos: set<string>, neg: set<string>): (r: (set<string>, set<string>))
    ensures forall t :: t in r.0 <==> t in pos || exists i :: 0 <= i < |toks| && toks[i] == t && t != [] && !IsExclusion(toks[i])
    ensures forall t :: t in r.1 <==> t in neg || exists i :: 0 <= i < |toks| && IsExclusion(toks[i]) && toks[i][1..] == t
    decreases |toks|
  {
    if |toks| == 0 then (pos, neg)
    else
      var tok := toks[0];
      var pos' := if !IsExclusion(tok) && tok != [] then pos + {tok} else pos;
      var neg' := if IsExclusion(tok) then neg + {tok[1..]} else neg;
      var r := CollectTags(toks[1..], pos', neg');
      assert forall i :: 1 <= i < |toks| ==> toks[i] == toks[1..][i - 1];
      r
  }

  /** `parseTags`: a search with text is trimmed and split on `\s+`; "-x"
      adds x to the excluded tags, every other non-empty token (a lone "-"
      included) to the required ones. */
  function ParseTags(search: Option<string>): (r: (set<string>, set<string>))
    ensures !HasTextOpt(search) ==> r == ({}, {})
    ensures HasTextOpt(search) ==>
              var toks := Tokens(Trim(search.value));
              && (forall t :: t in r.0 <==> exists i :: 0 <= i < |toks| && toks[i] == t && !IsExclusion(t))
              && (forall t :: t in r.1 <==> exists i :: 0 <= i < |toks| && IsExclusion(toks[i]) && toks[i][1..] == t)
  {
    if !HasTextOpt(search) then ({}, {}) else CollectTags(Tokens(Trim(search.value)), {}, {})
  }

  /** The tag lists the query parser returns; either may be null. */
  datatype Extracted = Extracted(positive: Option<seq<string>>, negative: Option<seq<string>>)

  function Elements(xs: Option<seq<string>>): (r: set<string>)
    ensures forall t :: t in r <==> xs.Some? && t in xs.value
  {
    if xs.None? then {} else set t | t in xs.value
  }

  function SemanticFailure(f: Failure): Failure {
    Runtime("语义搜索解析失败: " + MessageText(f))
  }

  /** The outcome of `processSemanticQuery`: the merged tag sets and the
      embedding put on the spec (absent when none was produced). */
  datatype Semantic = Semantic(positive: set<string>, negative: set<string>, embedding: Option<seq<real>>)

  /** `processSemanticQuery`: the extracted tags are added to the parsed ones;
      a text embedding is requested only for a similarity sort. Any failure
      is rethrown with the semantic-search prefix. */
  function ProcessSemanticQuery(query: string, pos: set<string>, neg: set<string>, isSimilarity: bool,
                                extract: string -> Result<Extracted>, embed: string -> Result<Option<seq<real>>>): (r: Result<Semantic>)
    ensures r.Ok? <==> extract(query).Ok? && (isSimilarity ==> embed(query).Ok?)
    ensures extract(query).Err? ==> r == Err(SemanticFailure(extract(query).failure))
    ensures extract(query).Ok? && isSimilarity && embed(query).Err? ==> r == Err(SemanticFailure(embed(query).failure))
    ensures r.Ok? ==> r.value.positive == pos + Elements(extract(query).value.positive)
    ensures r.Ok? ==> r.value.negative == neg + Elements(extract(query).value.negative)
    ensures r.Ok? ==> (r.value.embedding.Some? <==> isSimilarity && embed(query).value.Some?)
    ensures r.Ok? && r.value.embedding.Some? ==> r.value.embedding == embed(query).value
  {
    match extract(query)
    case Err(f) => Err(SemanticFailure(f))
    case Ok(tags) =>
      var p := pos + Elements(tags.positive);
      var n := neg + Elements(tags.negative);
      if !isSimilarity then Ok(Semantic(p, n, None))
      else
        match embed(query)
        case Err(f) => Err(SemanticFailure(f))
        case Ok(e) => Ok(Semantic(p, n, e))
  }

  /** The spec that `search` builds from a request before searching. */
  function BuildSearchSpec(req: Request, freshSeed: string,
                           extract: string -> Result<Extracted>, embed: string -> Result<Option<seq<real>>>): (r: Result<SearchSpec>)
    ensures Validate(req).Failed? ==> r == Err(Validate(req).failure)
    ensures Validate(req).Done? && BuildSort(req.sort.value, req.randomSeed, req.semanticQuery, freshSeed).Err? ==>
              r == Err(BuildSort(req.sort.value, req.randomSeed, req.semanticQuery, freshSeed).failure)
    ensures !HasTextOpt(req.semanticQuery) ==> (r.Ok? <==> Validate(req).Done? && BuildSort(req.sort.value, req.randomSeed, req.semanticQuery, freshSeed).Ok?)
    ensures r.Ok? ==>
              && Validate(req).Done?
              && var choice := BuildSort(req.sort.value, req.randomSeed, req.semanticQuery, freshSeed);
              && choice.Ok?
              && r.value.pageable == Pageable(req.page.value, req.size.value, choice.value.orders)
              && r.value.randomSeed == choice.value.randomSeed
              && r.value.keyword == Some(if HasTextOpt(req.keyword) then Trim(req.keyword.value) else "")
              && r.value.widthMin == req.widthMin && r.value.widthMax == req.widthMax
              && r.value.heightMin == req.heightMin && r.value.heightMax == req.heightMax
              && r.value.sizeMin == req.sizeMin && r.value.sizeMax == req.sizeMax
              && r.value.distanceThreshold.None?
              && r.value.positiveTags.Some? && ParseTags(req.tags).0 <= r.value.positiveTags.value
              && r.value.negativeTags.Some? && ParseTags(req.tags).1 <= r.value.negativeTags.value
    ensures r.Ok? && !HasTextOpt(req.semanticQuery) ==>
              && r.value.positiveTags == Some(ParseTags(req.tags).0)
              && r.value.negativeTags == Some(ParseTags(req.tags).1)
              && r.value.embedding.None?
  {
    match Validate(req)
    case Failed(f) => Err(f)
    case Done =>
      match BuildSort(req.sort.value, req.randomSeed, req.semanticQuery, freshSeed)
      case Err(f) => Err(f)
      case Ok(choice) =>
        var keyword := if HasTextOpt(req.keyword) then Trim(req.keyword.value) else "";
        var tags := ParseTags(req.tags);
        var base := SearchSpec(Some(keyword), choice.randomSeed, Pageable(req.page.value, req.size.value, choice.orders),
                               req.widthMin, req.widthMax, req.heightMin, req.heightMax, req.sizeMin, req.sizeMax,
                               None, Some(tags.0), Some(tags.1), None);
        if !HasTextOpt(req.semanticQuery) then Ok(base)
        else
          match ProcessSemanticQuery(req.semanticQuery.value, tags.0, tags.1, IsSimilaritySort(req.sort.value), extract, embed)
          case Err(f) => Err(f)
          case Ok(sem) =>
            Ok(base.(positiveTags := Some(sem.positive), negativeTags := Some(sem.negative), embedding := sem.embedding))
  }

  /** `search`: build the spec, then run it against the catalogue. */
  function Search(req: Request, freshSeed: string, extract: string -> Result<Extracted>, embed: string -> Result<Option<seq<real>>>,
                  images: seq<Image>, distance: Image -> int, column: (Image, string) -> int): (r: Result<Page>)
    ensures BuildSearchSpec(req, freshSeed, extract, embed).Err? ==> r == Err(BuildSearchSpec(req, freshSeed, extract, embed).failure)
    ensures BuildSearchSpec(req, freshSeed, extract, embed).Ok? ==>
              r == SearchImages(BuildSearchSpec(req, freshSeed, extract, embed).value, images, distance, column)
  {
    var spec :- BuildSearchSpec(req, freshSeed, extract, embed);
    SearchImages(spec, images, distance, column)
  }

  /** A similarity sort with a semantic query fails once the request is
      valid: the descriptor becomes a sort by the column "similarity", which
      the image does not have. */
  lemma {:induction false} SemanticSimilarityFails(req: Request, freshSeed: string,
                                                   extract: string -> Result<Extracted>, embed: string -> Result<Option<seq<real>>>,
                                                   images: seq<Image>, distance: Image -> int, column: (Image, string) -> int)
    requires Validate(req).Done? && WellFormedSort(req.sort.value)
    requires EqualsIgnoreCase(SortProperty(req.sort.value), "similarity") && HasTextOpt(req.semanticQuery)
    requires BuildSearchSpec(req, freshSeed, extract, embed).Ok?
    ensures Search(req, freshSeed, extract, embed, images, distance, column) == Err(NoProperty("similarity"))
  {
    var spec := BuildSearchSpec(req, freshSeed, extract, embed).value;
    assert spec.pageable.sort == [SortOrder("similarity", SortDirection(req.sort.value))];
    SimilaritySortFailure(spec, SortDirection(req.sort.value));
  }

  /** Requesting a similarity sort without a semantic query never fails once
      the request is valid, and orders the catalogue randomly by the given
      seed or, failing that, the fresh one. */
  lemma {:induction false} SimilarityFallsBackToRandom(req: Request, freshSeed: string,
                                                       extract: string -> Result<Extracted>, embed: string -> Result<Option<seq<real>>>)
    requires Validate(req).Done? && WellFormedSort(req.sort.value)
    requires EqualsIgnoreCase(SortProperty(req.sort.value), "similarity")
    requires !HasTextOpt(req.semanticQuery) && HasText(freshSeed)
    ensures var r := BuildSearchSpec(req, freshSeed, extract, embed);
            var seed := if HasTextOpt(req.randomSeed) then req.randomSeed.value else freshSeed;
            && r.Ok?
            && r.value.pageable.sort == []
            && QueryOrder(r.value, false) == [Random(EffectiveSeed(HashCode(seed)))]
  {
    var choice := BuildSort(req.sort.value, req.randomSeed, req.semanticQuery, freshSeed);
    assert choice.Ok?;
    var r := BuildSearchSpec(req, freshSeed, extract, embed);
    assert r.value.embedding.None?;
  }

  /** `searchByImage`'s threshold conversion: a similarity above 0 becomes the
      largest accepted cosine distance. */
  function DistanceThreshold(threshold: Option<real>): (r: Option<real>)
    ensures r.Some? <==> threshold.Some? && threshold.value > 0.0
    ensures r.Some? ==> 0.0 <= r.value < 1.0
    ensures r.Some? && threshold.value <= 1.0 ==> r.value == 1.0 - threshold.value
    ensures r.Some? && threshold.value > 1.0 ==> r.value == 0.0
  {
    if threshold.Some? && threshold.value > 0.0 then
      Some(if 1.0 - threshold.value > 0.0 then 1.0 - threshold.value else 0.0)
    else None
  }

  const PageIndexMessage: string := "Page index must not be less than zero"
  const PageSizeMessage: string := "Page size must not be less than one"

  /** Unboxing a null `Integer` argument of `searchByImage`. */
  function UnboxNull(variable: string): Failure {
    NullDereference("java.lang.Integer.intValue()", variable)
  }

  /** `PageRequest.of`: the integers are unboxed, page first (null fails with
      the JVM's description), and then checked. */
  function PageRequest(page: Option<int>, size: Option<int>, sort: seq<SortOrder>): (r: Result<Pageable>)
    ensures r.Ok? <==> page.Some? && page.value >= 0 && size.Some? && size.value >= 1
    ensures r.Ok? ==> r.value == Pageable(page.value, size.value, sort)
    ensures page.None? ==> r == Err(UnboxNull("page"))
    ensures page.Some? && size.None? ==> r == Err(UnboxNull("size"))
    ensures r.Err? ==> MessageOf(r.failure).Some?
  {
    if page.None? then Err(UnboxNull("page"))
    else if size.None? then Err(UnboxNull("size"))
    else if page.value < 0 then Err(IllegalArgument(PageIndexMessage))
    else if size.value < 1 then Err(IllegalArgument(PageSizeMessage))
    else Ok(Pageable(page.value, size.value, sort))
  }

  function ProbeFailure(f: Failure): Failure {
    Runtime("以图搜图失败: " + MessageText(f))
  }

  /** The spec of `searchByImage`: the probe's embedding, the converted
      threshold, and a similarity sort ascending; no filters. */
  function ProbeSpec(embedding: seq<real>, threshold: Option<real>, page: Option<int>, size: Option<int>): (r: Result<SearchSpec>)
    ensures r.Ok? <==> PageRequest(page, size, []).Ok?
    ensures r.Err? ==> r.failure == ProbeFailure(PageRequest(page, size, []).failure)
    ensures r.Ok? ==> NoFilters(r.value) && r.value.embedding == Some(embedding)
    ensures r.Ok? ==> r.value.distanceThreshold == DistanceThreshold(threshold)
    ensures r.Ok? ==> r.value.pageable.sort == [SortOrder("similarity", Asc)]
  {
    match PageRequest(page, size, [SortOrder("similarity", Asc)])
    case Err(f) => Err(ProbeFailure(f))
    case Ok(pageable) =>
      Ok(SearchSpec(None, None, pageable, None, None, None, None, None, None,
                    DistanceThreshold(threshold), None, None, Some(embedding)))
  }

  /** `searchByImage`: upload the probe, embed it, search by similarity. Every
      failure is rethrown with the image-search prefix. */
  function SearchByImage(upload: Outcome, embedding: Result<seq<real>>, threshold: Option<real>, page: Option<int>, size: Option<int>,
                         images: seq<Image>, distance: Image -> int, column: (Image, string) -> int): (r: Result<Page>)
    ensures upload.Failed? ==> r == Err(ProbeFailure(upload.failure))
    ensures upload.Done? && embedding.Err? ==> r == Err(ProbeFailure(embedding.failure))
    ensures r.Ok? <==> upload.Done? && embedding.Ok? && ProbeSpec(embedding.value, threshold, page, size).Ok?
                       && SearchImages(ProbeSpec(embedding.value, threshold, page, size).value, images, distance, column).Ok?
    ensures r.Ok? ==> r.value == SearchImages(ProbeSpec(embedding.value, threshold, page, size).value, images, distance, column).value
  {
    if upload.Failed? then Err(ProbeFailure(upload.failure))
    else if embedding.Err? then Err(ProbeFailure(embedding.failure))
    else
      var spec :- ProbeSpec(embedding.value, threshold, page, size);
      match SearchImages(spec, images, distance, column)
      case Err(f) => Err(ProbeFailure(f))
      case Ok(p) => Ok(p)
  }

  /** Every image-probe search fails: once the upload, the embedding and the
      page request succeed, the probe's "similarity" sort is rejected as an
      unknown column and rethrown with the prefix. */
  lemma SearchByImageFails(upload: Outcome, embedding: Result<seq<real>>, threshold: Option<real>, page: Option<int>, size: Option<int>,
                           images: seq<Image>, distance: Image -> int, column: (Image, string) -> int)
    ensures SearchByImage(upload, embedding, threshold, page, size, images, distance, column).Err?
    ensures upload.Done? && embedding.Ok? && ProbeSpec(embedding.value, threshold, page, size).Ok? ==>
              SearchByImage(upload, embedding, threshold, page, size, images, distance, column)
              == Err(ProbeFailure(NoProperty("similarity")))
  {
    if upload.Done? && embedding.Ok? && ProbeSpec(embedding.value, threshold, page, size).Ok? {
      var spec := ProbeSpec(embedding.value, threshold, page, size).value;
      SimilaritySortFailure(spec, Asc);
      assert SearchImages(spec, images, distance, column) == Err(NoProperty("similarity"));
    }
  }

  /** An image-probe search with a non-empty embedding ranks by ascending
      distance and never by the random key, as the specification builds it
      and as the intended order keeps it. */
  lemma ProbeRanksByDistance(embedding: seq<real>, threshold: Option<real>, page: Option<int>, size: Option<int>)
    requires |embedding| > 0 && ProbeSpec(embedding, threshold, page, size).Ok?
    ensures QueryOrder(ProbeSpec(embedding, threshold, page, size).value, false) == [Distance(Asc)]
    ensures IntendedOrder(ProbeSpec(embedding, threshold, page, size).value) == [Distance(Asc)]
  {
    var spec := ProbeSpec(embedding, threshold, page, size).value;
    assert EqualsIgnoreCase("similarity", "similarity");
    assert EmbeddingOrder(spec.pageable.sort)[0] == Distance(Asc);
  }

  /** `searchByImage` as evidently intended: the probe's similarity sort
      ranks the filtered catalogue by ascending distance to the probe. */
  function RankedSearchByImage(upload: Outcome, embedding: Result<seq<real>>, threshold: Option<real>, page: Option<int>, size: Option<int>,
                               images: seq<Image>, distance: Image -> int, column: (Image, string) -> int): (r: Result<Page>)
    ensures upload.Failed? ==> r == Err(ProbeFailure(upload.failure))
    ensures upload.Done? && embedding.Err? ==> r == Err(ProbeFailure(embedding.failure))
    ensures r.Ok? <==> upload.Done? && embedding.Ok? && ProbeSpec(embedding.value, threshold, page, size).Ok?
    ensures r.Ok? ==> r.value.total == |Filtered(ProbeSpec(embedding.value, threshold, page, size).value, images)|
    ensures r.Ok? ==> AllMatch(ProbeSpec(embedding.value, threshold, page, size).value, images, r.value.content)
    ensures r.Ok? && |embedding.value| > 0 ==> SortedByKeys(r.value.content, [Distance(Asc)], distance, column)
  {
    if upload.Failed? then Err(ProbeFailure(upload.failure))
    else if embedding.Err? then Err(ProbeFailure(embedding.failure))
    else
      var spec :- ProbeSpec(embedding.value, threshold, page, size);
      assert |embedding.value| > 0 ==> IntendedOrder(spec) == [Distance(Asc)] by {
        if |embedding.value| > 0 {
          ProbeRanksByDistance(embedding.value, threshold, page, size);
        }
      }
      Ok(IntendedSearch(spec, images, distance, column))
  }
}
