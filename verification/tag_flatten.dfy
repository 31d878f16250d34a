/** `TagImageService.tag_image`: the tagger's per-category lists flattened
    into one map from tag name to score. Fetching the object from storage is
    a parameter: its outcome arrives as a `Result`. */
module TagFlatten {
  import opened Common
  import Tagger

  /** One entry of a category list; `confidence` may be missing. */
  datatype Pair = Pair(tag: string, confidence: Option<real>)

  /** The tagger's answer: categories with their lists, in dict order. */
  type Listing = seq<(string, seq<Pair>)>

  /** `pair.get("confidence", 1.0)`. */
  function Score(p: Pair): real {
    p.confidence.GetOr(1.0)
  }

  /** All entries, category after category. */
  function AllPairs(result: Listing): seq<Pair> {
    if |result| == 0 then [] else AllPairs(result[..|result| - 1]) + result[|result| - 1].1
  }

  /** The reference: one assignment per entry, in order, later ones
      overwriting earlier ones. */
  function Collect(ps: seq<Pair>): map<string, real> {
    if |ps| == 0 then map[] else Collect(ps[..|ps| - 1])[ps[|ps| - 1].tag := Score(ps[|ps| - 1])]
  }

  /** Position `i` holds the last entry named `k`. */
  predicate LastFor(ps: seq<Pair>, k: string, i: int) {
    0 <= i < |ps| && ps[i].tag == k && forall j :: i < j < |ps| ==> ps[j].tag != k
  }

  /** The collected map holds exactly the names of the entries, each with the
      score of its last entry. */
  lemma {:induction false} CollectMeaning(ps: seq<Pair>, k: string)
    ensures k in Collect(ps) <==> exists i :: 0 <= i < |ps| && ps[i].tag == k
    ensures forall i :: LastFor(ps, k, i) ==> k in Collect(ps) && Collect(ps)[k] == Score(ps[i])
  {
    if |ps| > 0 {
      var init := ps[..|ps| - 1];
      CollectMeaning(init, k);
      assert forall i :: 0 <= i < |init| ==> init[i] == ps[i];
      forall i | LastFor(ps, k, i) ensures k in Collect(ps) && Collect(ps)[k] == Score(ps[i]) {
        if i < |init| {
          assert LastFor(init, k, i);
        }
      }
    }
  }

  lemma CollectSnoc(ps: seq<Pair>, p: Pair)
    ensures Collect(ps + [p]) == Collect(ps)[p.tag := Score(p)]
  {
    assert (ps + [p])[..|ps|] == ps;
  }

  lemma AllPairsSnoc(result: Listing, c: nat)
    requires c < |result|
    ensures AllPairs(result[..c + 1]) == AllPairs(result[..c]) + result[c].1
  {
    assert result[..c + 1][..c] == result[..c];
  }

  /** The inner loop of `tag_image`: one category's entries, in order. */
  method FlattenCategory(data: map<string, real>, done: seq<Pair>, pairs: seq<Pair>) returns (r: map<string, real>)
    requires data == Collect(done)
    ensures r == Collect(done + pairs)
  {
    r := data;
    var j := 0;
    assert done + pairs[..0] == done;
    while j < |pairs|
      invariant 0 <= j <= |pairs|
      invariant r == Collect(done + pairs[..j])
    {
      var p := pairs[j];
      r := r[p.tag := Score(p)];
      CollectSnoc(done + pairs[..j], p);
      assert done + pairs[..j] + [p] == done + pairs[..j + 1];
      j := j + 1;
    }
    assert pairs[..j] == pairs;
  }

  /** The flattening loops of `tag_image`. */
  method Flatten(result: Listing) returns (data: map<string, real>)
    ensures data == Collect(AllPairs(result))
  {
    data := map[];
    var c := 0;
    while c < |result|
      invariant 0 <= c <= |result|
      invariant data == Collect(AllPairs(result[..c]))
    {
      data := FlattenCategory(data, AllPairs(result[..c]), result[c].1);
      AllPairsSnoc(result, c);
      c := c + 1;
    }
    assert result[..c] == result;
  }

  /** Entries that do not name `k` leave its value alone. */
  lemma {:induction false} CollectSkip(xs: seq<Pair>, ys: seq<Pair>, k: string)
    requires forall j :: 0 <= j < |ys| ==> ys[j].tag != k
    ensures k in Collect(xs + ys) <==> k in Collect(xs)
    ensures k in Collect(xs) ==> Collect(xs + ys)[k] == Collect(xs)[k]
  {
    if |ys| > 0 {
      var init := ys[..|ys| - 1];
      var y := ys[|ys| - 1];
      CollectSkip(xs, init, k);
      assert xs + ys == (xs + init) + [y];
      CollectSnoc(xs + init, y);
    } else {
      assert xs + ys == xs;
    }
  }

  /** A tag listed under several categories takes its score from its last
      entry in the last category that lists it. */
  lemma {:induction false} LaterCategoryWins(result: Listing, b: int, q: int, k: string)
    requires 0 <= b < |result| && 0 <= q < |result[b].1| && result[b].1[q].tag == k
    requires forall j :: q < j < |result[b].1| ==> result[b].1[j].tag != k
    requires forall c, j :: b < c < |result| && 0 <= j < |result[c].1| ==> result[c].1[j].tag != k
    ensures k in Collect(AllPairs(result)) && Collect(AllPairs(result))[k] == Score(result[b].1[q])
  {
    var last := |result| - 1;
    var init := result[..last];
    var xs := AllPairs(init);
    var ys := result[last].1;
    assert AllPairs(result) == xs + ys;
    if b == last {
      var ps := xs + ys;
      assert ps[|xs| + q] == ys[q];
      assert LastFor(ps, k, |xs| + q);
      CollectMeaning(ps, k);
    } else {
      LaterCategoryWins(init, b, q, k);
      CollectSkip(xs, ys, k);
    }
  }

  function FetchMessage(f: Failure): string {
    "无法从 MinIO 获取图像: " + MessageText(f)
  }

  /** The tagger's entries, each with its confidence. */
  function AsListing(g: Tagger.Groups): (r: Listing)
    ensures |r| == |g|
    ensures forall a :: 0 <= a < |g| ==> r[a].0 == g[a].0 && |r[a].1| == |g[a].1|
    ensures forall a, p :: 0 <= a < |g| && 0 <= p < |g[a].1| ==>
              r[a].1[p] == Pair(g[a].1[p].tag, Some(g[a].1[p].confidence))
  {
    seq(|g|, a requires 0 <= a < |g| =>
      (g[a].0, seq(|g[a].1|, p requires 0 <= p < |g[a].1| => Pair(g[a].1[p].tag, Some(g[a].1[p].confidence)))))
  }

  /** The tagger's default number of entries per category. */
  const DefaultTopK := 50

  /** `tag_image`: a failed fetch is reported as a `ValueError` before any
      tagging; a tagger failure propagates; otherwise the flattened map. */
  method TagImage(fetched: Result<Tagger.ImageArg>, outputs: seq<seq<real>>, sigmoid: real -> real,
                  meta: Tagger.Metadata, threshold: real) returns (r: Result<map<string, real>>)
    ensures fetched.Err? ==> r == Err(ValueError(FetchMessage(fetched.failure)))
    ensures fetched.Ok? ==>
              var tagged := Tagger.Tag(fetched.value, outputs, sigmoid, meta, threshold, DefaultTopK);
              && (r.Err? <==> tagged.Err?)
              && (r.Err? ==> r.failure == tagged.failure)
              && (r.Ok? ==> r.value == Collect(AllPairs(AsListing(tagged.value))))
  {
    if fetched.Err? {
      return Err(ValueError(FetchMessage(fetched.failure)));
    }
    var tagged := Tagger.Tag(fetched.value, outputs, sigmoid, meta, threshold, DefaultTopK);
    if tagged.Err? {
      return Err(tagged.failure);
    }
    var data := Flatten(AsListing(tagged.value));
    return Ok(data);
  }
}
