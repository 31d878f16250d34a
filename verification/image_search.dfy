/** `ImageSearchService.searchImages`: a search spec compiled into a set of
    conditions that are AND-combined and an ordering, applied to the catalogue
    as filter, then sort, then page slice. The count query uses the same
    conditions and no ordering, so the total is the number of filtered images. */
module ImageSearch {
  import opened Common
  import opened Strings
  import opened Seqs
  import opened ImageEntity

  datatype Direction = Asc | Desc

  /** One entry of the pageable's sort: a property and its direction. */
  datatype SortOrder = SortOrder(property: string, direction: Direction)

  datatype Pageable = Pageable(page: nat, size: nat, sort: seq<SortOrder>)

  /** The `SearchDto` the retrieval engine receives. */
  datatype SearchSpec = SearchSpec(
    keyword: Option<string>,
    randomSeed: Option<string>,
    pageable: Pageable,
    widthMin: Option<int>,
    widthMax: Option<int>,
    heightMin: Option<int>,
    heightMax: Option<int>,
    sizeMin: Option<int>,
    sizeMax: Option<int>,
    distanceThreshold: Option<real>,
    positiveTags: Option<set<string>>,
    negativeTags: Option<set<string>>,
    embedding: Option<seq<real>>)

  datatype Column = Width | Height | Size

  /** One predicate of the compiled query. */
  datatype Condition =
    | HasTagNamed(name: string)
    | HasNoTagIn(names: set<string>)
    | KeywordLike(pattern: string)
    | AtLeast(column: Column, bound: int)
    | AtMost(column: Column, bound: int)

  function ColumnValue(img: Image, c: Column): int {
    match c
    case Width => img.width
    case Height => img.height
    case Size => img.size
  }

  /** The image has a relation to a tag with this name. */
  predicate HasTagName(img: Image, name: string) {
    exists i :: 0 <= i < |img.relations| && img.relations[i].tag.name == name
  }

  /** `LIKE '%pattern%'` on the lowercased title or file name. */
  predicate TitleOrFileNameContains(img: Image, pattern: string) {
    Contains(Lower(img.title), pattern) || Contains(Lower(img.fileName), pattern)
  }

  /** Whether one condition holds of an image (the SQL semantics of each
      predicate: an EXISTS subquery, a NOT EXISTS over IN, a LIKE, a bound). */
  predicate Holds(c: Condition, img: Image) {
    match c
    case HasTagNamed(n) => HasTagName(img, n)
    case HasNoTagIn(ns) => !exists i :: 0 <= i < |img.relations| && img.relations[i].tag.name in ns
    case KeywordLike(p) => TitleOrFileNameContains(img, p)
    case AtLeast(col, b) => ColumnValue(img, col) >= b
    case AtMost(col, b) => ColumnValue(img, col) <= b
  }

  /** `addRangePredicate`: one condition per bound that is present. */
  function RangeConditions(col: Column, min: Option<int>, max: Option<int>): (cs: set<Condition>)
    ensures forall img: Image :: Keep(cs, img) <==> InRange(ColumnValue(img, col), min, max)
  {
    (if min.Some? then {AtLeast(col, min.value)} else {})
    + (if max.Some? then {AtMost(col, max.value)} else {})
  }

  /** The trimmed, lowercased keyword that the LIKE pattern wraps. */
  function KeywordPattern(keyword: string): string {
    Lower(Trim(keyword))
  }

  /** One EXISTS condition per positive tag, when the set is non-empty. */
  function PositiveConditions(spec: SearchSpec): (cs: set<Condition>)
    ensures forall img: Image :: Keep(cs, img) <==>
              (spec.positiveTags.Some? ==> forall t | t in spec.positiveTags.value :: HasTagName(img, t))
  {
    if spec.positiveTags.Some? && |spec.positiveTags.value| > 0 then
      var cs := set t | t in spec.positiveTags.value :: HasTagNamed(t);
      assert forall t | t in spec.positiveTags.value :: HasTagNamed(t) in cs;
      cs
    else {}
  }

  /** A single NOT EXISTS over all negative tags, when the set is non-empty. */
  function NegativeConditions(spec: SearchSpec): (cs: set<Condition>)
    ensures forall img: Image :: Keep(cs, img) <==>
              (spec.negativeTags.Some? ==> forall t | t in spec.negativeTags.value :: !HasTagName(img, t))
  {
    if spec.negativeTags.Some? && |spec.negativeTags.value| > 0 then {HasNoTagIn(spec.negativeTags.value)} else {}
  }

  /** The LIKE condition, when the keyword has text. */
  function KeywordConditions(spec: SearchSpec): (cs: set<Condition>)
    ensures forall img: Image :: Keep(cs, img) <==>
              (HasTextOpt(spec.keyword) ==> TitleOrFileNameContains(img, KeywordPattern(spec.keyword.value)))
  {
    if HasTextOpt(spec.keyword) then
      var c := KeywordLike(KeywordPattern(spec.keyword.value));
      assert forall img: Image :: Keep({c}, img) <==> TitleOrFileNameContains(img, c.pattern) by {
        forall img: Image ensures Keep({c}, img) <==> Holds(c, img) {
          KeepSingle(c, img);
        }
      }
      {c}
    else {}
  }

  lemma KeepSingle(c: Condition, img: Image)
    ensures Keep({c}, img) <==> Holds(c, img)
  {
    assert c in {c};
  }

  /** The predicates that the specification builds, as a set: the query
      AND-combines them, so their order does not matter. */
  function Conditions(spec: SearchSpec): (cs: set<Condition>)
    ensures NoFilters(spec) ==> cs == {}
  {
    PositiveConditions(spec) + NegativeConditions(spec) + KeywordConditions(spec)
    + RangeConditions(Width, spec.widthMin, spec.widthMax)
    + RangeConditions(Height, spec.heightMin, spec.heightMax)
    + RangeConditions(Size, spec.sizeMin, spec.sizeMax)
  }

  /** The specification sets no tag, keyword or range filter. */
  predicate NoFilters(spec: SearchSpec) {
    && (spec.positiveTags.None? || spec.positiveTags.value == {})
    && (spec.negativeTags.None? || spec.negativeTags.value == {})
    && !HasTextOpt(spec.keyword)
    && spec.widthMin.None? && spec.widthMax.None?
    && spec.heightMin.None? && spec.heightMax.None?
    && spec.sizeMin.None? && spec.sizeMax.None?
  }

  predicate Keep(cs: set<Condition>, img: Image) {
    forall c | c in cs :: Holds(c, img)
  }

  lemma KeepUnion(a: set<Condition>, b: set<Condition>, img: Image)
    ensures Keep(a + b, img) <==> Keep(a, img) && Keep(b, img)
  {
  }

  predicate InRange(v: int, min: Option<int>, max: Option<int>) {
    (min.Some? ==> v >= min.value) && (max.Some? ==> v <= max.value)
  }

  /** Reference definition of the filter, written from the search's intent:
      every positive tag present, no negative tag present, the keyword in the
      title or file name, each column within its inclusive bounds. */
  predicate Matches(spec: SearchSpec, img: Image) {
    && (spec.positiveTags.Some? ==> forall t | t in spec.positiveTags.value :: HasTagName(img, t))
    && (spec.negativeTags.Some? ==> forall t | t in spec.negativeTags.value :: !HasTagName(img, t))
    && (HasTextOpt(spec.keyword) ==> TitleOrFileNameContains(img, KeywordPattern(spec.keyword.value)))
    && InRange(img.width, spec.widthMin, spec.widthMax)
    && InRange(img.height, spec.heightMin, spec.heightMax)
    && InRange(img.size, spec.sizeMin, spec.sizeMax)
  }

  /** The compiled conditions keep exactly the images the reference filter accepts. */
  lemma {:induction false} ConditionsMatch(spec: SearchSpec, img: Image)
    ensures Keep(Conditions(spec), img) <==> Matches(spec, img)
  {
    var pos := PositiveConditions(spec);
    var neg := NegativeConditions(spec);
    var kw := KeywordConditions(spec);
    var w := RangeConditions(Width, spec.widthMin, spec.widthMax);
    var h := RangeConditions(Height, spec.heightMin, spec.heightMax);
    var s := RangeConditions(Size, spec.sizeMin, spec.sizeMax);
    assert Conditions(spec) == pos + neg + kw + w + h + s;
    KeepSix(pos, neg, kw, w, h, s, img);
    assert Keep(w, img) <==> InRange(img.width, spec.widthMin, spec.widthMax);
    assert Keep(h, img) <==> InRange(img.height, spec.heightMin, spec.heightMax);
    assert Keep(s, img) <==> InRange(img.size, spec.sizeMin, spec.sizeMax);
  }

  /** An image passes six sets of conditions together iff it passes each. */
  lemma KeepSix(a: set<Condition>, b: set<Condition>, c: set<Condition>, d: set<Condition>, e: set<Condition>,
                f: set<Condition>, img: Image)
    ensures Keep(a + b + c + d + e + f, img) <==>
            Keep(a, img) && Keep(b, img) && Keep(c, img) && Keep(d, img) && Keep(e, img) && Keep(f, img)
  {
    KeepUnion(a, b, img);
    KeepUnion(a + b, c, img);
    KeepUnion(a + b + c, d, img);
    KeepUnion(a + b + c + d, e, img);
    KeepUnion(a + b + c + d + e, f, img);
  }

  /** The filtered catalogue: also what the count query counts. */
  function Filtered(spec: SearchSpec, images: seq<Image>): (r: seq<Image>)
    ensures forall i :: 0 <= i < |r| ==> r[i] in images && Matches(spec, r[i])
    ensures forall i :: 0 <= i < |images| && Matches(spec, images[i]) ==> images[i] in r
  {
    var cs := Conditions(spec);
    var r := Filter(images, (img: Image) => Keep(cs, img));
    forall img: Image ensures Keep(cs, img) <==> Matches(spec, img) {
      ConditionsMatch(spec, img);
    }
    r
  }

  /** A specification without filters keeps the whole catalogue. */
  lemma NoFiltersKeepAll(spec: SearchSpec, images: seq<Image>)
    requires NoFilters(spec)
    ensures Filtered(spec, images) == images
  {
    FilterAll(images, (img: Image) => Keep(Conditions(spec), img));
  }

  // ---------------------------------------------------------------- ordering

  /** One ORDER BY term. */
  datatype OrderKey =
    | Distance(direction: Direction)
    | ByColumn(property: string, direction: Direction)
    /** Ascending by `|MOD(id * seed, Integer.MAX_VALUE)|`. */
    | Random(seed: int)

  const IntMax: int := 2147483647
  const TwoTo32: int := 0x1_0000_0000

  /** A character as a Java string stores it: one UTF-16 code unit inside the
      Basic Multilingual Plane, a surrogate pair above it. */
  function CodeUnits(c: char): (u: seq<int>)
    ensures |u| == 1 <==> c as int < 0x1_0000
    ensures |u| == 1 || |u| == 2
    ensures |u| == 1 ==> u[0] == c as int
    ensures |u| == 2 ==> 0xD800 <= u[0] < 0xDC00 && 0xDC00 <= u[1] < 0xE000
    ensures forall i :: 0 <= i < |u| ==> 0 <= u[i] < 0x1_0000
  {
    var v := c as int;
    if v < 0x1_0000 then [v]
    else [0xD800 + (v - 0x1_0000) / 0x400, 0xDC00 + (v - 0x1_0000) % 0x400]
  }

  /** A surrogate pair decodes back to its character, so the encoding loses
      nothing. */
  lemma SurrogatesDecode(c: char)
    requires c as int >= 0x1_0000
    ensures var u := CodeUnits(c);
            0x1_0000 + (u[0] - 0xD800) * 0x400 + (u[1] - 0xDC00) == c as int
  {
  }

  /** The UTF-16 code units of a string, in order. */
  function Utf16(s: string): (u: seq<int>)
    ensures |u| >= |s|
    ensures (forall i :: 0 <= i < |s| ==> s[i] as int < 0x1_0000) ==> |u| == |s|
    ensures forall i :: 0 <= i < |u| ==> 0 <= u[i] < 0x1_0000
  {
    if |s| == 0 then [] else Utf16(s[..|s| - 1]) + CodeUnits(s[|s| - 1])
  }

  /** Java `String.hashCode`: the polynomial `u[0]*31^(n-1) + ... + u[n-1]`
      over the string's UTF-16 code units, in 32-bit two's complement
      arithmetic. */
  function HashCode(s: string): (h: int)
    ensures -0x8000_0000 <= h < 0x8000_0000
    ensures h >= 0 ==> h == UnitsHash(Utf16(s))
    ensures h < 0 ==> h + TwoTo32 == UnitsHash(Utf16(s))
  {
    var u := HashBits(s);
    if u >= 0x8000_0000 then u - TwoTo32 else u
  }

  /** The unsigned 32-bit pattern of the hash. */
  function HashBits(s: string): (u: int)
    ensures 0 <= u < TwoTo32
  {
    UnitsHash(Utf16(s))
  }

  /** One more code unit is one more step of the polynomial. */
  lemma {:induction false} UnitsHashAppend(u: seq<int>, x: int)
    ensures UnitsHash(u + [x]) == HashStep(UnitsHash(u), x)
  {
    assert (u + [x])[..|u|] == u;
  }

  /** The hash is built one code unit at a time, as the loop of
      `String.hashCode` does: a last character inside the Basic Multilingual
      Plane adds one step, one above it adds a step for each surrogate. */
  lemma {:induction false} HashBitsStep(s: string)
    requires |s| > 0
    ensures var init := s[..|s| - 1];
            var p := CodeUnits(s[|s| - 1]);
            && (|p| == 1 ==> HashBits(s) == HashStep(HashBits(init), p[0]))
            && (|p| == 2 ==> HashBits(s) == HashStep(HashStep(HashBits(init), p[0]), p[1]))
  {
    var init := s[..|s| - 1];
    var p := CodeUnits(s[|s| - 1]);
    assert Utf16(s) == Utf16(init) + p;
    if |p| == 1 {
      assert p == [p[0]];
      UnitsHashAppend(Utf16(init), p[0]);
    } else {
      var v := Utf16(init) + [p[0]];
      assert Utf16(s) == v + [p[1]];
      UnitsHashAppend(Utf16(init), p[0]);
      UnitsHashAppend(v, p[1]);
    }
  }

  /** One iteration `h = 31 * h + unit` of the hash loop, wrapping as
      Java's `int` arithmetic does. */
  function HashStep(h: int, unit: int): (r: int)
    ensures 0 <= r < TwoTo32
  {
    (31 * h + unit) % TwoTo32
  }

  /** The hash polynomial over code units, as unsigned 32-bit patterns. */
  function UnitsHash(u: seq<int>): (h: int)
    ensures 0 <= h < TwoTo32
  {
    if |u| == 0 then 0 else HashStep(UnitsHash(u[..|u| - 1]), u[|u| - 1])
  }

  /** U+1F600 is stored as the surrogate pair 0xD83D, 0xDE00. */
  lemma SurrogatePairOf1F600()
    ensures Utf16("\U{1F600}") == [0xD83D, 0xDE00]
  {
    var s := "\U{1F600}";
    assert s[..0] == [] && s[0] as int == 0x1F600;
    assert CodeUnits(s[0]) == [0xD83D, 0xDE00];
  }

  /** A character above the Basic Multilingual Plane is hashed as its
      surrogate pair: the hash of U+1F600 is 0xD83D * 31 + 0xDE00, not
      0x1F600. */
  lemma HashOfSurrogatePair()
    ensures HashCode("\U{1F600}") == 0xD83D * 31 + 0xDE00 == 1772899
  {
    SurrogatePairOf1F600();
    var u: seq<int> := [0xD83D, 0xDE00];
    assert u[..1][..0] == [];
    assert UnitsHash(u[..1]) == 0xD83D;
    assert UnitsHash(u) == 1772899;
  }

  /** A zero hash would make every key zero, so it is replaced by 1. */
  function EffectiveSeed(h: int): (s: int)
    ensures s != 0
    ensures h != 0 ==> s == h
  {
    if h == 0 then 1 else h
  }

  function Abs(x: int): (r: nat)
    ensures r == x || r == -x
  {
    if x < 0 then -x else x
  }

  /** SQL `MOD`: the remainder truncated toward zero, with the dividend's sign. */
  function SqlMod(a: int, m: int): (r: int)
    requires m > 0
    ensures Abs(r) < m
    ensures a >= 0 ==> r == a % m
    ensures a < 0 ==> r == -((-a) % m)
  {
    if a >= 0 then a % m else -((-a) % m)
  }

  /** The random-order key of an image: `ABS(MOD(id * seed, Integer.MAX_VALUE))`. */
  function RandomKey(id: int, seed: int): (k: int)
    ensures 0 <= k < IntMax
    ensures k == Abs(id * seed) % IntMax
  {
    Abs(SqlMod(id * seed, IntMax))
  }

  /** A seed and its negation order the catalogue identically. */
  lemma RandomKeyNegatedSeed(id: int, seed: int)
    ensures RandomKey(id, seed) == RandomKey(id, -seed)
  {
    assert id * -seed == -(id * seed);
  }

  /** The embedding is present and non-empty. */
  predicate HasEmbedding(spec: SearchSpec) {
    spec.embedding.Some? && |spec.embedding.value| > 0
  }

  predicate IsDistanceProperty(p: string) {
    EqualsIgnoreCase(p, "similarity") || EqualsIgnoreCase(p, "distance")
  }

  /** `applyEmbeddingSort`: each sort entry by distance or by its column. */
  function EmbeddingOrder(sort: seq<SortOrder>): (r: seq<OrderKey>)
    ensures |sort| == 0 ==> r == [Distance(Asc)]
    ensures |sort| > 0 ==> |r| == |sort|
    ensures |sort| > 0 ==> forall i :: 0 <= i < |sort| ==>
              if IsDistanceProperty(sort[i].property) then r[i] == Distance(sort[i].direction)
              else r[i] == ByColumn(sort[i].property, sort[i].direction)
  {
    if |sort| == 0 then [Distance(Asc)]
    else seq(|sort|, i requires 0 <= i < |sort| =>
           if IsDistanceProperty(sort[i].property) then Distance(sort[i].direction)
           else ByColumn(sort[i].property, sort[i].direction))
  }

  /** The ORDER BY that the specification itself sets on the query. */
  function QueryOrder(spec: SearchSpec, isCount: bool): (r: seq<OrderKey>)
    ensures isCount ==> r == []
    ensures HasEmbedding(spec) ==> forall i :: 0 <= i < |r| ==> !r[i].Random?
    ensures HasEmbedding(spec) && !isCount ==> |r| >= 1
    ensures !HasEmbedding(spec) ==> forall i :: 0 <= i < |r| ==> r[i].Random?
    ensures !HasEmbedding(spec) && !isCount && HasTextOpt(spec.randomSeed) ==>
              r == [Random(EffectiveSeed(HashCode(spec.randomSeed.value)))]
    ensures !HasEmbedding(spec) && !HasTextOpt(spec.randomSeed) ==> r == []
  {
    if HasEmbedding(spec) then
      if isCount then [] else EmbeddingOrder(spec.pageable.sort)
    else if !isCount && HasTextOpt(spec.randomSeed) then
      [Random(EffectiveSeed(HashCode(spec.randomSeed.value)))]
    else []
  }

  /** The persistent attributes of the image entity. The criteria API
      resolves a name against these exactly. */
  const ImageAttributes: set<string> :=
    {"id", "title", "fileName", "extension", "size", "width", "height", "hash",
     "viewCount", "embedding", "tagRelations", "createdAt", "updatedAt"}

  /** The entity's one getter without a persistent attribute: Spring Data's
      property lookup accepts it, the criteria API does not. */
  const GetterOnly: string := "tags"

  predicate IsUpperAscii(c: char) {
    'A' <= c <= 'Z'
  }

  /** `Introspector.decapitalize`, which Spring Data applies to a sort
      property before looking it up: the first letter is lowered unless the
      first two letters are both capitals. */
  function Decapitalize(p: string): (r: string)
    ensures |r| == |p|
    ensures |p| > 0 ==> r[1..] == p[1..]
    ensures |p| > 1 && IsUpperAscii(p[0]) && IsUpperAscii(p[1]) ==> r == p
    ensures |p| > 0 && !(|p| > 1 && IsUpperAscii(p[0]) && IsUpperAscii(p[1])) ==> r[0] == LowerChar(p[0])
  {
    if |p| == 0 || (|p| > 1 && IsUpperAscii(p[0]) && IsUpperAscii(p[1])) then p
    else [LowerChar(p[0])] + p[1..]
  }

  /** A decapitalized name is its own decapitalization, so every attribute
      is found under its own name. */
  lemma DecapitalizeIdempotent(p: string)
    ensures Decapitalize(Decapitalize(p)) == Decapitalize(p)
  {
    if |p| > 0 && !(|p| > 1 && IsUpperAscii(p[0]) && IsUpperAscii(p[1])) {
      var r := Decapitalize(p);
      assert !IsUpperAscii(r[0]);
      assert [LowerChar(r[0])] + r[1..] == r;
    }
  }

  /** The criteria API's error for a name the image entity has no attribute for. */
  function UnknownAttribute(p: string): (f: Failure)
    ensures f.IllegalArgument? && MessageOf(f).Some?
  {
    IllegalArgument("Could not resolve attribute '" + p + "' of 'com.tamakara.bakabooru.module.image.entity.Image'")
  }

  /** Spring Data's error for a sort property the image type does not have. */
  function NoProperty(p: string): (f: Failure)
    ensures f.PropertyReference? && MessageOf(f).Some?
  {
    PropertyReference("No property '" + p + "' found for type 'Image'")
  }

  /** A sort entry `applyEmbeddingSort` can read: a distance name, or an
      attribute looked up by its exact name. */
  predicate EmbeddingReadable(o: SortOrder) {
    IsDistanceProperty(o.property) || o.property in ImageAttributes
  }

  /** `applyEmbeddingSort` looks every non-distance sort property up as an
      attribute of the root, in order; the first unknown one raises. */
  function EmbeddingSortFailure(sort: seq<SortOrder>): (f: Option<Failure>)
    ensures f.None? <==> forall i :: 0 <= i < |sort| ==> EmbeddingReadable(sort[i])
    ensures f.Some? ==> exists i :: 0 <= i < |sort| && !EmbeddingReadable(sort[i]) && f.value == UnknownAttribute(sort[i].property)
  {
    if |sort| == 0 then None
    else if !EmbeddingReadable(sort[0]) then Some(UnknownAttribute(sort[0].property))
    else
      var f := EmbeddingSortFailure(sort[1..]);
      assert f.Some? ==> exists i :: 0 <= i < |sort[1..]| && !EmbeddingReadable(sort[1..][i]) && f.value == UnknownAttribute(sort[1..][i].property);
      f
  }

  /** Spring Data's failure for one sort property: a name that is neither an
      attribute nor a getter has no property path; the getter-only name has
      one, and the criteria API then rejects it. */
  function ColumnFailure(p: string): (f: Failure)
    requires Decapitalize(p) !in ImageAttributes
  {
    if Decapitalize(p) == GetterOnly then UnknownAttribute(GetterOnly) else NoProperty(Decapitalize(p))
  }

  /** Spring Data turns each sort entry, in order, into an ORDER BY term of
      the decapitalized property; the first one that is not an attribute raises. */
  function ColumnSortFailure(sort: seq<SortOrder>): (f: Option<Failure>)
    ensures f.None? <==> forall i :: 0 <= i < |sort| ==> Decapitalize(sort[i].property) in ImageAttributes
    ensures f.Some? ==> exists i :: 0 <= i < |sort| && Decapitalize(sort[i].property) !in ImageAttributes
                                    && f.value == ColumnFailure(sort[i].property)
  {
    if |sort| == 0 then None
    else if Decapitalize(sort[0].property) !in ImageAttributes then Some(ColumnFailure(sort[0].property))
    else
      var f := ColumnSortFailure(sort[1..]);
      assert f.Some? ==> exists i :: 0 <= i < |sort[1..]| && Decapitalize(sort[1..][i].property) !in ImageAttributes
                                    && f.value == ColumnFailure(sort[1..][i].property);
      f
  }

  /** No distance name is an attribute, under its own name or decapitalized. */
  lemma DistanceNeverResolves(p: string)
    requires IsDistanceProperty(p)
    ensures p !in ImageAttributes && Decapitalize(p) !in ImageAttributes
  {
    var q := Decapitalize(p);
    if |p| == 8 {
      assert Lower(p)[0] == 'd';
      assert p[0] == 'd' || p[0] == 'D';
      assert q[0] == 'd' || q[0] == 'D';
    }
  }

  /** A sort property the page query accepts: Spring Data finds it as an
      attribute and, with an embedding, the specification reads it first by
      its exact name. */
  predicate Resolves(spec: SearchSpec, p: string) {
    Decapitalize(p) in ImageAttributes && (HasEmbedding(spec) ==> p in ImageAttributes)
  }

  /** Every sort property resolves exactly when neither the
      specification's lookups nor Spring Data's fail. */
  lemma {:induction false} ResolvesAll(spec: SearchSpec)
    ensures (forall i :: 0 <= i < |spec.pageable.sort| ==> Resolves(spec, spec.pageable.sort[i].property))
            <==> ColumnSortFailure(spec.pageable.sort).None?
                 && (HasEmbedding(spec) ==> EmbeddingSortFailure(spec.pageable.sort).None?)
  {
    var sort := spec.pageable.sort;
    if ColumnSortFailure(sort).None? && (HasEmbedding(spec) ==> EmbeddingSortFailure(sort).None?) {
      forall i | 0 <= i < |sort| ensures Resolves(spec, sort[i].property) {
        assert Decapitalize(sort[i].property) in ImageAttributes;
        if HasEmbedding(spec) {
          assert EmbeddingReadable(sort[i]);
          if IsDistanceProperty(sort[i].property) {
            DistanceNeverResolves(sort[i].property);
            assert false;
          }
        }
      }
    }
  }

  /** The error the page query raises while it is built, if any: the
      specification's own lookups run first, then Spring Data's sort. */
  function SortFailure(spec: SearchSpec): (f: Option<Failure>)
    ensures f.None? <==> forall i :: 0 <= i < |spec.pageable.sort| ==> Resolves(spec, spec.pageable.sort[i].property)
    ensures f.Some? && !HasEmbedding(spec) ==> f == ColumnSortFailure(spec.pageable.sort)
  {
    var sort := spec.pageable.sort;
    ResolvesAll(spec);
    var e := if HasEmbedding(spec) then EmbeddingSortFailure(sort) else None;
    if e.Some? then e else ColumnSortFailure(sort)
  }

  /** The order the page query runs with. Spring Data builds the query from
      the specification and then, when the pageable is sorted, replaces its
      ORDER BY with the pageable's columns; only an unsorted pageable leaves
      the specification's distance or random order in place. */
  function PageOrder(spec: SearchSpec): (r: seq<OrderKey>)
    ensures |spec.pageable.sort| == 0 ==> r == QueryOrder(spec, false)
    ensures |spec.pageable.sort| > 0 ==> |r| == |spec.pageable.sort|
    ensures |spec.pageable.sort| > 0 ==> forall i :: 0 <= i < |r| ==>
              r[i] == ByColumn(Decapitalize(spec.pageable.sort[i].property), spec.pageable.sort[i].direction)
  {
    var sort := spec.pageable.sort;
    if |sort| == 0 then QueryOrder(spec, false)
    else seq(|sort|, i requires 0 <= i < |sort| => ByColumn(Decapitalize(sort[i].property), sort[i].direction))
  }

  /** A sorted pageable decides the order alone: neither the random seed nor
      the embedding changes it, and no term is a distance or a random key. */
  lemma {:induction false} SortedPageableDecides(spec: SearchSpec, seed: Option<string>, embedding: Option<seq<real>>)
    requires |spec.pageable.sort| > 0
    ensures PageOrder(spec.(randomSeed := seed, embedding := embedding)) == PageOrder(spec)
    ensures forall i :: 0 <= i < |PageOrder(spec)| ==> PageOrder(spec)[i].ByColumn?
  {
    var other := spec.(randomSeed := seed, embedding := embedding);
    assert |PageOrder(other)| == |PageOrder(spec)|;
    forall i | 0 <= i < |PageOrder(spec)| ensures PageOrder(other)[i] == PageOrder(spec)[i] {
    }
  }

  /** The order the specification evidently means: its own ORDER BY, with a
      distance name ranking by distance, and the pageable's columns only
      when it sets none. */
  function IntendedOrder(spec: SearchSpec): (r: seq<OrderKey>)
    ensures QueryOrder(spec, false) != [] ==> r == QueryOrder(spec, false)
    ensures QueryOrder(spec, false) == [] ==> |r| == |spec.pageable.sort|
  {
    var q := QueryOrder(spec, false);
    if q != [] then q
    else seq(|spec.pageable.sort|, i requires 0 <= i < |spec.pageable.sort| =>
           ByColumn(spec.pageable.sort[i].property, spec.pageable.sort[i].direction))
  }

  /** With an embedding and only distance names in the sort, the intended
      order ranks by distance alone, in the requested directions. */
  lemma {:induction false} IntendedRanksByDistance(spec: SearchSpec)
    requires HasEmbedding(spec)
    requires forall i :: 0 <= i < |spec.pageable.sort| ==> IsDistanceProperty(spec.pageable.sort[i].property)
    ensures |IntendedOrder(spec)| >= 1
    ensures forall i :: 0 <= i < |IntendedOrder(spec)| ==> IntendedOrder(spec)[i].Distance?
    ensures forall i :: 0 <= i < |spec.pageable.sort| ==> IntendedOrder(spec)[i] == Distance(spec.pageable.sort[i].direction)
  {
    var r := IntendedOrder(spec);
    assert r == EmbeddingOrder(spec.pageable.sort);
  }

  /** The sortable value of one ORDER BY term for an image, negated when
      descending. Cosine distance and column values are opaque ranks. */
  function KeyValue(k: OrderKey, img: Image, distance: Image -> int, column: (Image, string) -> int): int {
    match k
    case Distance(d) => if d == Asc then distance(img) else -distance(img)
    case ByColumn(p, d) => if d == Asc then column(img, p) else -column(img, p)
    case Random(seed) => RandomKey(img.id, seed)
  }

  function SortKey(keys: seq<OrderKey>, img: Image, distance: Image -> int, column: (Image, string) -> int): (r: seq<int>)
    ensures |r| == |keys|
  {
    seq(|keys|, i requires 0 <= i < |keys| => KeyValue(keys[i], img, distance, column))
  }

  /** Lexicographic order on key tuples. */
  predicate LexLeq(a: seq<int>, b: seq<int>)
    decreases |a|
  {
    if |a| == 0 then true
    else if |b| == 0 then false
    else a[0] < b[0] || (a[0] == b[0] && LexLeq(a[1..], b[1..]))
  }

  lemma {:induction false} LexLeqTotal(a: seq<int>, b: seq<int>)
    ensures LexLeq(a, b) || LexLeq(b, a)
    decreases |a|
  {
    if |a| > 0 && |b| > 0 && a[0] == b[0] {
      LexLeqTotal(a[1..], b[1..]);
    }
  }

  lemma {:induction false} LexLeqTransitive(a: seq<int>, b: seq<int>, c: seq<int>)
    requires LexLeq(a, b) && LexLeq(b, c)
    ensures LexLeq(a, c)
    decreases |a|
  {
    if |a| > 0 && |b| > 0 && |c| > 0 && a[0] == b[0] && b[0] == c[0] {
      LexLeqTransitive(a[1..], b[1..], c[1..]);
    }
  }

  /** Images compared by their key tuples. */
  function KeyOrder(keys: seq<OrderKey>, distance: Image -> int, column: (Image, string) -> int): (leq: (Image, Image) -> bool)
    ensures Total(leq) && Transitive(leq)
    ensures forall a, b :: leq(a, b) == LexLeq(SortKey(keys, a, distance, column), SortKey(keys, b, distance, column))
  {
    var leq := (a: Image, b: Image) => LexLeq(SortKey(keys, a, distance, column), SortKey(keys, b, distance, column));
    forall a, b ensures leq(a, b) || leq(b, a) {
      LexLeqTotal(SortKey(keys, a, distance, column), SortKey(keys, b, distance, column));
    }
    forall a, b, c | leq(a, b) && leq(b, c) ensures leq(a, c) {
      LexLeqTransitive(SortKey(keys, a, distance, column), SortKey(keys, b, distance, column), SortKey(keys, c, distance, column));
    }
    leq
  }

  /** Every element comes from the catalogue and passes the filter. */
  predicate AllMatch(spec: SearchSpec, images: seq<Image>, xs: seq<Image>) {
    forall i :: 0 <= i < |xs| ==> xs[i] in images && Matches(spec, xs[i])
  }

  /** The list is in ascending order of key tuples. */
  predicate SortedByKeys(xs: seq<Image>, keys: seq<OrderKey>, distance: Image -> int, column: (Image, string) -> int) {
    forall i, j :: 0 <= i < j < |xs| ==>
      LexLeq(SortKey(keys, xs[i], distance, column), SortKey(keys, xs[j], distance, column))
  }

  /** The filtered images in the given order. Ties are kept in catalogue
      order, one of the orders the database may return. */
  function Ordered(spec: SearchSpec, keys: seq<OrderKey>, images: seq<Image>,
                   distance: Image -> int, column: (Image, string) -> int): (r: seq<Image>)
    ensures multiset(r) == multiset(Filtered(spec, images))
    ensures |r| == |Filtered(spec, images)|
    ensures AllMatch(spec, images, r)
    ensures SortedByKeys(r, keys, distance, column)
  {
    var leq := KeyOrder(keys, distance, column);
    var f := Filtered(spec, images);
    var r := SortBy(f, leq);
    SortedAll(r, leq);
    forall i | 0 <= i < |r| ensures r[i] in images && Matches(spec, r[i]) {
      assert r[i] in multiset(f);
    }
    r
  }

  /** The page of a list: `size` elements starting at `page * size`, cut at the end. */
  function Slice<T>(xs: seq<T>, page: nat, size: nat): (r: seq<T>)
    ensures |r| <= size
    ensures page * size >= |xs| ==> r == []
    ensures page * size < |xs| ==> r == xs[page * size..if page * size + size <= |xs| then page * size + size else |xs|]
  {
    var lo := if page * size <= |xs| then page * size else |xs|;
    var hi := if page * size + size <= |xs| then page * size + size else |xs|;
    xs[lo..hi]
  }

  /** How many elements pages 0..k of a list of length n hold together. */
  function PrefixLength(k: nat, size: nat, n: nat): (r: nat)
    ensures r <= n
  {
    if (k + 1) * size <= n then (k + 1) * size else n
  }

  /** Pages 0..k of a list, concatenated. */
  function PagesUpTo<T>(xs: seq<T>, k: nat, size: nat): seq<T> {
    if k == 0 then Slice(xs, 0, size) else PagesUpTo(xs, k - 1, size) + Slice(xs, k, size)
  }

  /** Concatenating pages 0..k gives a prefix of the full order, with no
      element repeated or skipped. */
  lemma {:induction false} PagesArePrefix<T>(xs: seq<T>, k: nat, size: nat)
    ensures PagesUpTo(xs, k, size) == xs[..PrefixLength(k, size, |xs|)]
  {
    if k > 0 {
      PagesArePrefix(xs, k - 1, size);
      var a := PrefixLength(k - 1, size, |xs|);
      var b := PrefixLength(k, size, |xs|);
      assert (k + 1) * size == k * size + size;
      assert Slice(xs, k, size) == xs[a..b];
      assert xs[..a] + xs[a..b] == xs[..b];
    }
  }

  datatype Page = Page(content: seq<Image>, total: nat)

  lemma SubMatch(spec: SearchSpec, images: seq<Image>, xs: seq<Image>, lo: nat, hi: nat)
    requires lo <= hi <= |xs| && AllMatch(spec, images, xs)
    ensures AllMatch(spec, images, xs[lo..hi])
  {
    forall i | 0 <= i < hi - lo ensures xs[lo..hi][i] in images && Matches(spec, xs[lo..hi][i]) {
      assert xs[lo..hi][i] == xs[lo + i];
    }
  }

  lemma SubSorted(xs: seq<Image>, keys: seq<OrderKey>, distance: Image -> int, column: (Image, string) -> int, lo: nat, hi: nat)
    requires lo <= hi <= |xs| && SortedByKeys(xs, keys, distance, column)
    ensures SortedByKeys(xs[lo..hi], keys, distance, column)
  {
    forall i, j | 0 <= i < j < hi - lo
      ensures LexLeq(SortKey(keys, xs[lo..hi][i], distance, column), SortKey(keys, xs[lo..hi][j], distance, column))
    {
      assert xs[lo..hi][i] == xs[lo + i] && xs[lo..hi][j] == xs[lo + j];
    }
  }

  /** A page of a matching, sorted list is matching and sorted. */
  lemma SliceKeeps(spec: SearchSpec, keys: seq<OrderKey>, images: seq<Image>, xs: seq<Image>, page: nat, size: nat,
                   distance: Image -> int, column: (Image, string) -> int)
    requires AllMatch(spec, images, xs) && SortedByKeys(xs, keys, distance, column)
    ensures AllMatch(spec, images, Slice(xs, page, size))
    ensures SortedByKeys(Slice(xs, page, size), keys, distance, column)
  {
    var n := page * size;
    if n < |xs| {
      var hi := if n + size <= |xs| then n + size else |xs|;
      SubMatch(spec, images, xs, n, hi);
      SubSorted(xs, keys, distance, column, n, hi);
    }
  }

  /** The requested page of the filtered catalogue in the given order, and
      the number of filtered images. */
  function PageOf(spec: SearchSpec, keys: seq<OrderKey>, images: seq<Image>,
                  distance: Image -> int, column: (Image, string) -> int): (r: Page)
    ensures r.total == |Filtered(spec, images)|
    ensures |r.content| <= spec.pageable.size
    ensures AllMatch(spec, images, r.content)
    ensures SortedByKeys(r.content, keys, distance, column)
    ensures r.content == Slice(Ordered(spec, keys, images, distance, column), spec.pageable.page, spec.pageable.size)
  {
    var ordered := Ordered(spec, keys, images, distance, column);
    SliceKeeps(spec, keys, images, ordered, spec.pageable.page, spec.pageable.size, distance, column);
    Page(Slice(ordered, spec.pageable.page, spec.pageable.size), |Filtered(spec, images)|)
  }

  /** `searchImages`: the query fails while it is built when a sort property
      cannot be resolved; otherwise the answer is the requested page of the
      filtered catalogue in the page order, and the number of filtered images. */
  function SearchImages(spec: SearchSpec, images: seq<Image>, distance: Image -> int, column: (Image, string) -> int): (r: Result<Page>)
    ensures r.Err? <==> SortFailure(spec).Some?
    ensures r.Err? ==> r.failure == SortFailure(spec).value
    ensures r.Ok? ==> r.value.total == |Filtered(spec, images)|
    ensures r.Ok? ==> |r.value.content| <= spec.pageable.size
    ensures r.Ok? ==> AllMatch(spec, images, r.value.content)
    ensures r.Ok? ==> SortedByKeys(r.value.content, PageOrder(spec), distance, column)
    ensures r.Ok? ==> r.value.content == Slice(Ordered(spec, PageOrder(spec), images, distance, column),
                                               spec.pageable.page, spec.pageable.size)
  {
    match SortFailure(spec)
    case Some(f) => Err(f)
    case None => Ok(PageOf(spec, PageOrder(spec), images, distance, column))
  }

  /** A sort by a distance name always fails: the specification ranks by
      distance, but Spring Data then looks the name up as a column. */
  lemma DistanceSortFails(spec: SearchSpec, images: seq<Image>, distance: Image -> int, column: (Image, string) -> int, i: nat)
    requires i < |spec.pageable.sort| && IsDistanceProperty(spec.pageable.sort[i].property)
    ensures SearchImages(spec, images, distance, column).Err?
  {
    DistanceNeverResolves(spec.pageable.sort[i].property);
  }

  /** A sort by "similarity" alone fails with Spring Data's unknown-property
      error, with or without an embedding. */
  lemma SimilaritySortFailure(spec: SearchSpec, d: Direction)
    requires spec.pageable.sort == [SortOrder("similarity", d)]
    ensures SortFailure(spec) == Some(NoProperty("similarity"))
  {
    assert IsDistanceProperty("similarity");
    DistanceNeverResolves("similarity");
    assert EmbeddingSortFailure(spec.pageable.sort) == None;
    assert Decapitalize("similarity") == "similarity";
  }

  /** The search the specification evidently means: the page in the
      intended order, which no distance name makes fail. */
  function IntendedSearch(spec: SearchSpec, images: seq<Image>, distance: Image -> int, column: (Image, string) -> int): (r: Page)
    ensures r.total == |Filtered(spec, images)|
    ensures |r.content| <= spec.pageable.size
    ensures AllMatch(spec, images, r.content)
    ensures SortedByKeys(r.content, IntendedOrder(spec), distance, column)
    ensures r.content == Slice(Ordered(spec, IntendedOrder(spec), images, distance, column),
                               spec.pageable.page, spec.pageable.size)
  {
    PageOf(spec, IntendedOrder(spec), images, distance, column)
  }

  /** With an unsorted pageable the search as written and the intended one
      agree. */
  lemma UnsortedAsIntended(spec: SearchSpec, images: seq<Image>, distance: Image -> int, column: (Image, string) -> int)
    requires spec.pageable.sort == []
    ensures SearchImages(spec, images, distance, column) == Ok(IntendedSearch(spec, images, distance, column))
  {
    assert PageOrder(spec) == IntendedOrder(spec);
  }

  /** Changing the requested page changes neither the filter, the order nor
      whether the query fails. */
  lemma PageIndependent(spec: SearchSpec, images: seq<Image>, distance: Image -> int, column: (Image, string) -> int, p: nat)
    ensures var sp := spec.(pageable := spec.pageable.(page := p));
            && SortFailure(sp) == SortFailure(spec)
            && Ordered(sp, PageOrder(sp), images, distance, column) == Ordered(spec, PageOrder(spec), images, distance, column)
  {
    var sp := spec.(pageable := spec.pageable.(page := p));
    assert sp.pageable.sort == spec.pageable.sort && HasEmbedding(sp) == HasEmbedding(spec);
    assert Conditions(sp) == Conditions(spec);
    assert PageOrder(sp) == PageOrder(spec);
  }

  /** Any page of a search is the corresponding slice of one order that all
      pages share, and either every page fails or none does. */
  lemma SearchPageIsSlice(spec: SearchSpec, images: seq<Image>, distance: Image -> int, column: (Image, string) -> int, p: nat)
    ensures var r := SearchImages(spec.(pageable := spec.pageable.(page := p)), images, distance, column);
            && (r.Ok? <==> SearchImages(spec, images, distance, column).Ok?)
            && (r.Ok? ==> r.value.content == Slice(Ordered(spec, PageOrder(spec), images, distance, column), p, spec.pageable.size))
  {
    PageIndependent(spec, images, distance, column, p);
  }
}
