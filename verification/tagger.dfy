/** `CamieTagger`: the execution providers chosen for the inference session,
    and the post-processing of the model's scores into tags grouped by
    category. Inference itself, image preprocessing and the sigmoid are
    floating-point work outside this model: each model output arrives as the
    reals of its first batch row, and the sigmoid is a parameter. */
module Tagger {
  import opened Common
  import opened Strings
  import opened Seqs

  datatype Provider = CudaProvider | CpuProvider

  function UnsupportedDevice(device: string): string {
    "不支持的设备类型: " + device + ". 可选 'cpu' 或 'cuda'."
  }

  /** `_init_session`: CUDA first when asked for, the CPU provider always
      last as the fallback; a device other than "cpu" or "cuda" in any
      letter case is refused. */
  function Providers(device: string): (r: Result<seq<Provider>>)
    ensures r.Ok? <==> Lower(device) == "cuda" || Lower(device) == "cpu"
    ensures r.Ok? ==> |r.value| >= 1 && r.value[|r.value| - 1] == CpuProvider
    ensures r.Ok? ==> (CudaProvider in r.value <==> Lower(device) == "cuda")
    ensures r.Ok? ==> forall i, j :: 0 <= i < j < |r.value| ==> r.value[i] != r.value[j]
    ensures r.Err? ==> r.failure == ValueError(UnsupportedDevice(device))
  {
    var d := Lower(device);
    var first := if d == "cuda" then [CudaProvider] else [];
    if d != "cuda" && d != "cpu" then Err(ValueError(UnsupportedDevice(device)))
    else Ok(first + [CpuProvider])
  }

  /** The device name is matched without regard to letter case. */
  lemma ProvidersIgnoreCase(a: string, b: string)
    requires Lower(a) == Lower(b)
    ensures Providers(a).Ok? <==> Providers(b).Ok?
    ensures Providers(a).Ok? ==> Providers(a).value == Providers(b).value
  {
  }

  /** The argument of `tag`: a PIL image (its pixels are not modelled) or
      any other value. */
  datatype ImageArg = PilImage | NotAnImage

  const NotAnImageMessage := "参数 'image' 必须是 PIL.Image.Image 类型。"

  /** Indexing an empty output list. */
  const NoOutputFailure := IndexOutOfBounds("list index out of range")

  /** `outputs[1] if len(outputs) >= 2 else outputs[0]`: the refined
      prediction of a two-headed model, the only one otherwise. */
  function ChooseLogits(outputs: seq<seq<real>>): (r: Result<seq<real>>)
    ensures r.Err? <==> |outputs| == 0
    ensures r.Err? ==> r.failure == NoOutputFailure
    ensures r.Ok? ==> r.value == outputs[if |outputs| >= 2 then 1 else 0]
  {
    if |outputs| >= 2 then Ok(outputs[1])
    else if |outputs| == 1 then Ok(outputs[0])
    else Err(NoOutputFailure)
  }

  /** `np.where(probs >= threshold)[0]` from index `k` on: the indices whose
      score reaches the threshold, ascending. */
  function AboveFrom(probs: seq<real>, threshold: real, k: nat): (r: seq<nat>)
    requires k <= |probs|
    ensures forall i :: i in r <==> k <= i < |probs| && probs[i] >= threshold
    ensures forall a, b :: 0 <= a < b < |r| ==> r[a] < r[b]
    decreases |probs| - k
  {
    if k == |probs| then []
    else
      var rest := AboveFrom(probs, threshold, k + 1);
      assert forall b :: 0 <= b < |rest| ==> rest[b] in rest;
      if probs[k] >= threshold then [k] + rest else rest
  }

  function Above(probs: seq<real>, threshold: real): (r: seq<nat>)
    ensures forall i :: i in r <==> 0 <= i < |probs| && probs[i] >= threshold
    ensures forall a, b :: 0 <= a < b < |r| ==> r[a] < r[b]
  {
    AboveFrom(probs, threshold, 0)
  }

  /** The indices 0 .. n-1 in order. */
  function Range(n: nat): (r: seq<nat>)
    ensures |r| == n
  {
    if n == 0 then [] else Range(n - 1) + [n - 1]
  }

  lemma {:induction false} RangeCount(n: nat, x: nat)
    ensures multiset(Range(n))[x] == if x < n then 1 else 0
  {
    if n > 0 {
      var last: nat := n - 1;
      var init := Range(last);
      assert Range(n) == init + [last];
      RangeCount(last, x);
      CountSnoc(init, last, x);
    }
  }

  /** Appending `v` adds one occurrence of `v` and of nothing else. */
  lemma CountSnoc<T>(s: seq<T>, v: T, x: T)
    ensures multiset(s + [v])[x] == multiset(s)[x] + (if x == v then 1 else 0)
  {
    assert multiset(s + [v]) == multiset(s) + multiset{v};
  }

  /** A value at two positions occurs at least twice. */
  lemma CountOneDistinct<T>(xs: seq<T>, a: int, b: int)
    requires 0 <= a < b < |xs| && xs[a] == xs[b]
    ensures multiset(xs)[xs[a]] >= 2
  {
    var x := xs[a];
    assert xs == xs[..a] + [x] + xs[a + 1..b] + [x] + xs[b + 1..];
    assert multiset(xs) == multiset(xs[..a]) + multiset{x} + multiset(xs[a + 1..b]) + multiset{x} + multiset(xs[b + 1..]);
  }

  function ProbAt(probs: seq<real>, i: int): real {
    if 0 <= i < |probs| then probs[i] else 0.0
  }

  /** A permutation of the indices 0 .. n-1 holds each of them once. */
  lemma RangePermutation(r: seq<nat>, n: nat)
    requires multiset(r) == multiset(Range(n))
    ensures forall a :: 0 <= a < |r| ==> r[a] < n
    ensures forall a, b :: 0 <= a < b < |r| ==> r[a] != r[b]
    ensures forall j :: 0 <= j < n ==> j in r
  {
    forall a | 0 <= a < |r| ensures r[a] < n {
      assert r[a] in multiset(r);
      RangeCount(n, r[a]);
    }
    forall a, b | 0 <= a < b < |r| ensures r[a] != r[b] {
      if r[a] == r[b] {
        CountOneDistinct(r, a, b);
        RangeCount(n, r[a]);
        assert false;
      }
    }
    forall j | 0 <= j < n ensures j in r {
      RangeCount(n, j);
      assert j in multiset(r);
    }
  }

  /** `np.argsort(probs)`: every index once, by ascending score. */
  function ArgSort(probs: seq<real>): (r: seq<nat>)
    ensures |r| == |probs| && AscendingIndices(probs, r)
  {
    var leq := (i: nat, j: nat) => ProbAt(probs, i) <= ProbAt(probs, j);
    assert Total(leq) && Transitive(leq);
    var r := SortBy(Range(|probs|), leq);
    SortedAll(r, leq);
    RangePermutation(r, |probs|);
    r
  }

  function Reversed<T>(xs: seq<T>): (r: seq<T>)
    ensures |r| == |xs| && forall i :: 0 <= i < |xs| ==> r[i] == xs[|xs| - 1 - i]
  {
    if |xs| == 0 then [] else [xs[|xs| - 1]] + Reversed(xs[..|xs| - 1])
  }

  function Min(a: int, b: int): int {
    if a <= b then a else b
  }

  /** No index outside `r` scores above an index in it. */
  predicate NoneBetterLeftOut(probs: seq<real>, r: seq<nat>) {
    forall j, a :: 0 <= j < |probs| && j !in r && 0 <= a < |r| && r[a] < |probs| ==> probs[j] <= probs[r[a]]
  }

  /** Every index of `probs` once, by ascending score. */
  predicate AscendingIndices(probs: seq<real>, r: seq<nat>) {
    && (forall a :: 0 <= a < |r| ==> r[a] < |probs|)
    && (forall a, b :: 0 <= a < b < |r| ==> r[a] != r[b])
    && (forall j :: 0 <= j < |probs| ==> j in r)
    && (forall a, b :: 0 <= a < b < |r| ==> ProbAt(probs, r[a]) <= ProbAt(probs, r[b]))
  }

  /** The last `m` of an ascending arrangement of all indices, reversed, are
      the `m` best, best first. */
  lemma TopOfAscending(probs: seq<real>, asc: seq<nat>, m: nat, r: seq<nat>)
    requires |asc| == |probs| && m <= |asc| && r == Reversed(asc[|asc| - m..])
    requires AscendingIndices(probs, asc)
    ensures |r| == m
    ensures forall a :: 0 <= a < |r| ==> r[a] < |probs|
    ensures forall a, b :: 0 <= a < b < |r| ==> r[a] != r[b] && probs[r[a]] >= probs[r[b]]
    ensures NoneBetterLeftOut(probs, r)
  {
    assert forall a :: 0 <= a < |r| ==> r[a] == asc[|asc| - 1 - a];
    forall a, b | 0 <= a < b < |r| ensures r[a] != r[b] && probs[r[a]] >= probs[r[b]] {
      assert ProbAt(probs, asc[|asc| - 1 - b]) <= ProbAt(probs, asc[|asc| - 1 - a]);
    }
    forall p | |asc| - m <= p < |asc| ensures asc[p] in r {
      assert r[|asc| - 1 - p] == asc[p];
    }
    forall j, a | 0 <= j < |probs| && j !in r && 0 <= a < |r| ensures probs[j] <= probs[r[a]] {
      assert j in asc;
      var p :| 0 <= p < |asc| && asc[p] == j;
      assert p < |asc| - m;
      assert ProbAt(probs, asc[p]) <= ProbAt(probs, asc[|asc| - 1 - a]);
    }
  }

  /** `np.argsort(probs)[-5:][::-1]`: the five best indices (all of them when
      there are fewer), best first, and no index left out scores above one
      taken. */
  function TopFive(probs: seq<real>): (r: seq<nat>)
    ensures |r| == Min(5, |probs|)
    ensures forall a :: 0 <= a < |r| ==> r[a] < |probs|
    ensures forall a, b :: 0 <= a < b < |r| ==> r[a] != r[b] && probs[r[a]] >= probs[r[b]]
    ensures NoneBetterLeftOut(probs, r)
  {
    var asc := ArgSort(probs);
    var m := Min(5, |probs|);
    var top := Reversed(asc[|asc| - m..]);
    TopOfAscending(probs, asc, m, top);
    top
  }

  /** The indices `tag` keeps: those reaching the threshold when there are at
      least five, otherwise the five best. */
  function Select(probs: seq<real>, threshold: real): (r: seq<nat>)
    ensures forall a :: 0 <= a < |r| ==> r[a] < |probs|
    ensures forall a, b :: 0 <= a < b < |r| ==> r[a] != r[b]
    ensures |Above(probs, threshold)| >= 5 ==>
              forall i :: i in r <==> 0 <= i < |probs| && probs[i] >= threshold
    ensures |Above(probs, threshold)| < 5 ==>
              && |r| == Min(5, |probs|)
              && NoneBetterLeftOut(probs, r)
  {
    var above := Above(probs, threshold);
    if |above| < 5 then TopFive(probs)
    else
      assert forall a :: 0 <= a < |above| ==> above[a] in above;
      above
  }

  /** The metadata's two lookup tables. */
  datatype Metadata = Metadata(idxToTag: map<string, string>, tagToCategory: map<string, string>)

  /** The name of an index: the mapped tag, or "unknown-<idx>". */
  function TagName(meta: Metadata, idx: nat): string {
    var key := NatToString(idx);
    if key in meta.idxToTag then meta.idxToTag[key] else "unknown-" + key
  }

  /** The category of a tag name: the mapped one, or "general". */
  function CategoryOf(meta: Metadata, name: string): string {
    if name in meta.tagToCategory then meta.tagToCategory[name] else "general"
  }

  /** One entry of a category's list: `{"tag": name, "confidence": conf}`. */
  datatype Scored = Scored(tag: string, confidence: real)

  /** The selected indices as (category, entry) pairs, in selection order. */
  function Entries(meta: Metadata, probs: seq<real>, sel: seq<nat>): (r: seq<(string, Scored)>)
    requires forall a :: 0 <= a < |sel| ==> sel[a] < |probs|
    ensures |r| == |sel|
    ensures forall a :: 0 <= a < |sel| ==>
              var name := TagName(meta, sel[a]);
              r[a] == (CategoryOf(meta, name), Scored(name, probs[sel[a]]))
  {
    seq(|sel|, a requires 0 <= a < |sel| =>
      var name := TagName(meta, sel[a]);
      (CategoryOf(meta, name), Scored(name, probs[sel[a]])))
  }

  /** Categories with their lists, in the order a `defaultdict` first met
      each category. */
  type Groups = seq<(string, seq<Scored>)>

  predicate DistinctCategories(g: Groups) {
    forall a, b :: 0 <= a < b < |g| ==> g[a].0 != g[b].0
  }

  /** The entries of category `c`, in item order: the reference for what
      the grouping builds. */
  function Members(items: seq<(string, Scored)>, c: string): (r: seq<Scored>)
    ensures |r| <= |items|
  {
    if |items| == 0 then []
    else Members(items[..|items| - 1], c) + (if items[|items| - 1].0 == c then [items[|items| - 1].1] else [])
  }

  /** An entry is among the members of `c` exactly when some item pairs it
      with `c`. */
  lemma {:induction false} MembersIn(items: seq<(string, Scored)>, c: string, e: Scored)
    ensures e in Members(items, c) <==> exists i :: 0 <= i < |items| && items[i] == (c, e)
  {
    if |items| > 0 {
      var init := items[..|items| - 1];
      MembersIn(init, c, e);
      assert forall i :: 0 <= i < |init| ==> init[i] == items[i];
    }
  }

  /** A category no item names has no members. */
  lemma {:induction false} MembersEmpty(items: seq<(string, Scored)>, c: string)
    requires forall i :: 0 <= i < |items| ==> items[i].0 != c
    ensures Members(items, c) == []
  {
    if |items| > 0 {
      MembersEmpty(items[..|items| - 1], c);
    }
  }

  /** `g` is the grouping of `items`: each category once, each holding
      exactly its entries in item order, and every item's category present. */
  predicate GroupsOf(g: Groups, items: seq<(string, Scored)>) {
    && DistinctCategories(g)
    && (forall a :: 0 <= a < |g| ==> g[a].1 == Members(items, g[a].0) && g[a].1 != [])
    && Covered(g, items)
  }

  /** Category `c` has a list. */
  predicate HasCategory(g: Groups, c: string) {
    exists a :: 0 <= a < |g| && g[a].0 == c
  }

  /** Every item's category has a list. */
  predicate Covered(g: Groups, items: seq<(string, Scored)>) {
    forall i :: 0 <= i < |items| ==> HasCategory(g, items[i].0)
  }

  /** The position of category `c` at or after `k`, or -1. */
  function Find(g: Groups, c: string, k: nat): (r: int)
    requires k <= |g|
    ensures -1 <= r < |g|
    ensures r >= 0 ==> g[r].0 == c
    ensures r < 0 ==> forall a :: k <= a < |g| ==> g[a].0 != c
    decreases |g| - k
  {
    if k == |g| then -1
    else if g[k].0 == c then k
    else Find(g, c, k + 1)
  }

  /** `tags_by_cat[c].append(e)`. */
  function Append(g: Groups, c: string, e: Scored): (r: Groups)
    requires DistinctCategories(g)
    ensures DistinctCategories(r)
    ensures || |r| == |g|
            || (|r| == |g| + 1 && r[|g|] == (c, [e]) && forall a :: 0 <= a < |g| ==> g[a].0 != c)
    ensures forall a :: 0 <= a < |g| ==> r[a].0 == g[a].0 && r[a].1 == if g[a].0 == c then g[a].1 + [e] else g[a].1
    ensures HasCategory(r, c)
  {
    var i := Find(g, c, 0);
    if i >= 0 then g[i := (c, g[i].1 + [e])] else g + [(c, [e])]
  }

  /** Appending the next item keeps the grouping exact. */
  lemma AppendGroups(g: Groups, items: seq<(string, Scored)>)
    requires |items| > 0 && GroupsOf(g, items[..|items| - 1])
    ensures GroupsOf(Append(g, items[|items| - 1].0, items[|items| - 1].1), items)
  {
    var r := Append(g, items[|items| - 1].0, items[|items| - 1].1);
    AppendMembers(g, items, r);
    AppendCovers(g, items, r);
  }

  /** One more item adds its entry to the members of its category only. */
  lemma MembersSnoc(items: seq<(string, Scored)>, c: string)
    requires |items| > 0
    ensures Members(items, c) == Members(items[..|items| - 1], c)
                                 + (if items[|items| - 1].0 == c then [items[|items| - 1].1] else [])
  {
  }

  /** After the append every list is its category's members, and none is empty. */
  lemma AppendMembers(g: Groups, items: seq<(string, Scored)>, r: Groups)
    requires |items| > 0 && GroupsOf(g, items[..|items| - 1])
    requires r == Append(g, items[|items| - 1].0, items[|items| - 1].1)
    ensures forall a :: 0 <= a < |r| ==> r[a].1 == Members(items, r[a].0) && r[a].1 != []
  {
    var init := items[..|items| - 1];
    var last := items[|items| - 1];
    forall a | 0 <= a < |r| ensures r[a].1 == Members(items, r[a].0) && r[a].1 != [] {
      if a < |g| {
        OldCategoryMembers(g, items, r, a);
      } else {
        assert r[a] == (last.0, [last.1]);
        NewCategoryEmpty(g, init, last.0);
        MembersSnoc(items, last.0);
      }
    }
  }

  /** A category already grouped keeps its list, extended when the new item
      belongs to it. */
  lemma OldCategoryMembers(g: Groups, items: seq<(string, Scored)>, r: Groups, a: int)
    requires |items| > 0 && GroupsOf(g, items[..|items| - 1])
    requires r == Append(g, items[|items| - 1].0, items[|items| - 1].1)
    requires 0 <= a < |g|
    ensures r[a].1 == Members(items, r[a].0) && r[a].1 != []
  {
    MembersSnoc(items, g[a].0);
    assert g[a].1 == Members(items[..|items| - 1], g[a].0) && g[a].1 != [];
  }

  /** A category the grouping lacks has no members. */
  lemma NewCategoryEmpty(g: Groups, items: seq<(string, Scored)>, c: string)
    requires GroupsOf(g, items) && forall a :: 0 <= a < |g| ==> g[a].0 != c
    ensures Members(items, c) == []
  {
    forall i | 0 <= i < |items| ensures items[i].0 != c {
      var b :| 0 <= b < |g| && g[b].0 == items[i].0;
    }
    MembersEmpty(items, c);
  }

  /** After the append every item's category has a list. */
  lemma AppendCovers(g: Groups, items: seq<(string, Scored)>, r: Groups)
    requires |items| > 0 && DistinctCategories(g) && Covered(g, items[..|items| - 1])
    requires r == Append(g, items[|items| - 1].0, items[|items| - 1].1)
    ensures Covered(r, items)
  {
    var init := items[..|items| - 1];
    forall i | 0 <= i < |items| ensures HasCategory(r, items[i].0) {
      if i < |init| {
        assert items[i] == init[i];
        var a :| 0 <= a < |g| && g[a].0 == init[i].0;
        assert r[a].0 == items[i].0;
      }
    }
  }

  /** The grouping loop of `tag`: each item appended to its category's list. */
  function Group(items: seq<(string, Scored)>): (r: Groups)
    ensures GroupsOf(r, items)
  {
    if |items| == 0 then []
    else
      var init := items[..|items| - 1];
      var last := items[|items| - 1];
      var g := Group(init);
      AppendGroups(g, items);
      Append(g, last.0, last.1)
  }

  /** Python's `xs[:k]`: a negative `k` counts from the end. */
  function PyPrefix<T>(xs: seq<T>, k: int): (r: seq<T>)
    ensures k >= 0 ==> |r| == Min(k, |xs|)
    ensures k < 0 ==> |r| == if |xs| + k >= 0 then |xs| + k else 0
    ensures r == xs[..|r|]
  {
    if k >= |xs| then xs
    else if k >= 0 then xs[..k]
    else if |xs| + k >= 0 then xs[..|xs| + k]
    else []
  }

  predicate Descending(xs: seq<Scored>) {
    forall a, b :: 0 <= a < b < |xs| ==> xs[a].confidence >= xs[b].confidence
  }

  /** The sort order: higher confidence first. */
  predicate HigherFirst(x: Scored, y: Scored) {
    x.confidence >= y.confidence
  }

  function ConfidenceIs(c: real): Scored -> bool {
    (x: Scored) => x.confidence == c
  }

  /** The entries scored exactly `c`, in list order. */
  function WithConfidence(xs: seq<Scored>, c: real): seq<Scored> {
    Filter(xs, ConfidenceIs(c))
  }

  /** `sorted(..., key=confidence, reverse=True)`. */
  function SortDesc(xs: seq<Scored>): (r: seq<Scored>)
    ensures multiset(r) == multiset(xs)
    ensures Descending(r)
  {
    assert Total(HigherFirst) && Transitive(HigherFirst);
    var r := SortBy(xs, HigherFirst);
    SortedAll(r, HigherFirst);
    r
  }

  /** Python's sort is stable: entries with equal confidence keep their order. */
  lemma SortDescStable(xs: seq<Scored>, c: real)
    ensures WithConfidence(SortDesc(xs), c) == WithConfidence(xs, c)
  {
    assert Total(HigherFirst);
    assert Tied(ConfidenceIs(c), HigherFirst);
    SortByKeepsTies(xs, HigherFirst, ConfidenceIs(c));
  }

  /** A prefix of a descending list is descending and takes nothing new. */
  lemma PrefixOfDescending(xs: seq<Scored>, n: nat)
    requires Descending(xs) && n <= |xs|
    ensures Descending(xs[..n]) && multiset(xs[..n]) <= multiset(xs)
    ensures n == |xs| ==> xs[..n] == xs
  {
    assert xs == xs[..n] + xs[n..];
    assert multiset(xs) == multiset(xs[..n]) + multiset(xs[n..]);
  }

  /** One list after the last loop of `tag`: sorted best first and cut to
      `topK`, so nothing is added and nothing is lost when `topK` covers it. */
  function TopK(xs: seq<Scored>, topK: int): (r: seq<Scored>)
    ensures Descending(r) && multiset(r) <= multiset(xs)
    ensures topK >= |xs| ==> multiset(r) == multiset(xs)
    ensures topK >= 0 ==> |r| <= topK
  {
    var sorted := SortDesc(xs);
    var kept := PyPrefix(sorted, topK);
    PrefixOfDescending(sorted, |kept|);
    kept
  }

  function Finish(g: Groups, topK: int): (r: Groups)
    ensures |r| == |g|
    ensures forall a :: 0 <= a < |g| ==> r[a] == (g[a].0, TopK(g[a].1, topK))
  {
    seq(|g|, a requires 0 <= a < |g| => (g[a].0, TopK(g[a].1, topK)))
  }

  /** `tag`. */
  function Tag(image: ImageArg, outputs: seq<seq<real>>, sigmoid: real -> real, meta: Metadata,
               threshold: real, topK: int): (r: Result<Groups>)
    ensures r.Err? <==> image.NotAnImage? || |outputs| == 0
    ensures image.NotAnImage? ==> r == Err(TypeError(NotAnImageMessage))
    ensures image.PilImage? && |outputs| == 0 ==> r == Err(NoOutputFailure)
    ensures r.Ok? ==> DistinctCategories(r.value)
    ensures r.Ok? ==> forall a :: 0 <= a < |r.value| ==>
              Descending(r.value[a].1) && (topK >= 0 ==> |r.value[a].1| <= topK)
  {
    if image.NotAnImage? then Err(TypeError(NotAnImageMessage))
    else
      var logits :- ChooseLogits(outputs);
      var probs := Map(logits, sigmoid);
      Ok(Finish(Group(Entries(meta, probs, Select(probs, threshold))), topK))
  }

  /** Entry `e` is listed under category `c`. */
  predicate Reported(g: Groups, c: string, e: Scored) {
    exists a :: 0 <= a < |g| && g[a].0 == c && e in g[a].1
  }

  /** Every entry of the finished grouping of `sel` is one of its indices,
      named and scored, in the category of its name. */
  lemma FinishedFromSelection(meta: Metadata, probs: seq<real>, sel: seq<nat>, topK: int, a: int, e: Scored)
    requires forall b :: 0 <= b < |sel| ==> sel[b] < |probs|
    requires var r := Finish(Group(Entries(meta, probs, sel)), topK);
             0 <= a < |r| && e in r[a].1
    ensures var r := Finish(Group(Entries(meta, probs, sel)), topK);
            exists idx :: idx in sel && idx < |probs| && e == Scored(TagName(meta, idx), probs[idx])
                          && r[a].0 == CategoryOf(meta, TagName(meta, idx))
  {
    var items := Entries(meta, probs, sel);
    var g := Group(items);
    var kept := TopK(g[a].1, topK);
    assert e in multiset(kept);
    assert e in Members(items, g[a].0);
    MembersIn(items, g[a].0, e);
    var i :| 0 <= i < |items| && items[i] == (g[a].0, e);
    assert sel[i] in sel;
  }

  /** Every item is in the grouping, in the list of its category. */
  lemma GroupedItem(items: seq<(string, Scored)>, i: int) returns (a: int)
    requires 0 <= i < |items|
    ensures 0 <= a < |Group(items)| && Group(items)[a].0 == items[i].0 && items[i].1 in Group(items)[a].1
  {
    var g := Group(items);
    assert HasCategory(g, items[i].0);
    a :| 0 <= a < |g| && g[a].0 == items[i].0;
    MembersIn(items, items[i].0, items[i].1);
  }

  /** A `topK` covering the list keeps every entry. */
  lemma TopKKeeps(xs: seq<Scored>, topK: int, e: Scored)
    requires topK >= |xs| && e in xs
    ensures e in TopK(xs, topK)
  {
    assert e in multiset(xs);
  }

  /** With `topK` covering the selection, every index of `sel` is in the
      finished grouping, in the category of its name. */
  lemma SelectionInFinished(meta: Metadata, probs: seq<real>, sel: seq<nat>, topK: int, i: int)
    requires forall b :: 0 <= b < |sel| ==> sel[b] < |probs|
    requires 0 <= i < |sel| && topK >= |sel|
    ensures Reported(Finish(Group(Entries(meta, probs, sel)), topK),
                     CategoryOf(meta, TagName(meta, sel[i])), Scored(TagName(meta, sel[i]), probs[sel[i]]))
  {
    var items := Entries(meta, probs, sel);
    var g := Group(items);
    var name := TagName(meta, sel[i]);
    var c := CategoryOf(meta, name);
    var e := Scored(name, probs[sel[i]]);
    assert items[i] == (c, e);
    var a := GroupedItem(items, i);
    assert |g[a].1| <= |items|;
    TopKKeeps(g[a].1, topK, e);
    var r := Finish(g, topK);
    assert r[a] == (c, TopK(g[a].1, topK));
  }

  /** Every tag `tag` reports is a selected index, under its mapped or
      "unknown-<idx>" name and its score, in the category of that name. */
  lemma TagReportsSelected(image: ImageArg, outputs: seq<seq<real>>, sigmoid: real -> real, meta: Metadata,
                           threshold: real, topK: int, a: int, e: Scored)
    requires Tag(image, outputs, sigmoid, meta, threshold, topK).Ok?
    requires var g := Tag(image, outputs, sigmoid, meta, threshold, topK).value;
             0 <= a < |g| && e in g[a].1
    ensures var probs := Map(ChooseLogits(outputs).value, sigmoid);
            var g := Tag(image, outputs, sigmoid, meta, threshold, topK).value;
            exists idx :: idx in Select(probs, threshold)
                          && e == Scored(TagName(meta, idx), probs[idx])
                          && g[a].0 == CategoryOf(meta, TagName(meta, idx))
  {
    var probs := Map(ChooseLogits(outputs).value, sigmoid);
    var sel := Select(probs, threshold);
    assert Tag(image, outputs, sigmoid, meta, threshold, topK).value == Finish(Group(Entries(meta, probs, sel)), topK);
    FinishedFromSelection(meta, probs, sel, topK, a, e);
  }

  /** With `topK` at least the number of selected indices, every selected
      index is reported, in the category of its name. */
  lemma TagReportsAll(image: ImageArg, outputs: seq<seq<real>>, sigmoid: real -> real, meta: Metadata,
                      threshold: real, topK: int, idx: nat)
    requires Tag(image, outputs, sigmoid, meta, threshold, topK).Ok?
    requires var probs := Map(ChooseLogits(outputs).value, sigmoid);
             idx in Select(probs, threshold) && topK >= |Select(probs, threshold)|
    ensures var probs := Map(ChooseLogits(outputs).value, sigmoid);
            Reported(Tag(image, outputs, sigmoid, meta, threshold, topK).value,
                     CategoryOf(meta, TagName(meta, idx)), Scored(TagName(meta, idx), probs[idx]))
  {
    var probs := Map(ChooseLogits(outputs).value, sigmoid);
    var sel := Select(probs, threshold);
    assert Tag(image, outputs, sigmoid, meta, threshold, topK).value == Finish(Group(Entries(meta, probs, sel)), topK);
    var i :| 0 <= i < |sel| && sel[i] == idx;
    SelectionInFinished(meta, probs, sel, topK, i);
  }
}
