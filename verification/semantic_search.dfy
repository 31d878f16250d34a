/** `SemanticSearchService`: a natural-language description turned into
    positive and negative tag names, and into a text embedding. The language
    model, the tag matcher and the text encoder are parameters. */
module SemanticSearch {
  import opened Common

  /** The language model's reading of the description: for each keyword, in
      dict order, the candidate tags it suggests. */
  type Keywords = seq<(string, seq<string>)>

  datatype Parsed = Parsed(positive: Keywords, negative: Keywords)

  /** `tag_matcher_service.match(tag, threshold)`: a tag name with its
      similarity, nothing, or a failure. */
  type Matcher = (string, real) -> Result<Option<(string, real)>>

  /** The threshold `_match_tags` passes to the matcher. */
  const MatchThreshold: real := 0.9

  /** What asking the matcher about candidate `k` contributes on its own. */
  function Answer(tags: seq<string>, matcher: Matcher, k: int): Result<Option<string>>
    requires 0 <= k < |tags|
  {
    match matcher(tags[k], MatchThreshold)
    case Err(f) => Err(f)
    case Ok(None) => Ok(None)
    case Ok(Some(p)) => Ok(Some(p.0))
  }

  /** The candidates before position `k` all match nothing. */
  predicate Misses(tags: seq<string>, matcher: Matcher, k: int)
    requires 0 <= k <= |tags|
  {
    forall i :: 0 <= i < k ==> matcher(tags[i], MatchThreshold) == Ok(None)
  }

  /** Candidate `k` is the first one that matches or fails, and it gives `r`. */
  predicate DecidedAt(tags: seq<string>, matcher: Matcher, k: int, r: Result<Option<string>>) {
    0 <= k < |tags| && Misses(tags, matcher, k) && r == Answer(tags, matcher, k) && r != Ok(None)
  }

  /** One keyword's inner loop: the first candidate that matches decides and
      ends the loop; a failing matcher call propagates. */
  function FirstMatch(tags: seq<string>, matcher: Matcher): (r: Result<Option<string>>)
    ensures r == Ok(None) <==> Misses(tags, matcher, |tags|)
    ensures r != Ok(None) ==> exists k :: DecidedAt(tags, matcher, k, r)
  {
    if |tags| == 0 then Ok(None)
    else
      var rest := FirstMatch(tags[1..], matcher);
      assert forall i :: 1 <= i < |tags| ==> tags[i] == tags[1..][i - 1];
      match matcher(tags[0], MatchThreshold)
      case Err(f) =>
        assert DecidedAt(tags, matcher, 0, Err(f));
        Err(f)
      case Ok(Some(p)) =>
        assert DecidedAt(tags, matcher, 0, Ok(Some(p.0)));
        Ok(Some(p.0))
      case Ok(None) =>
        assert rest != Ok(None) ==> exists k :: DecidedAt(tags, matcher, k, rest) by {
          if rest != Ok(None) {
            var j :| DecidedAt(tags[1..], matcher, j, rest);
            assert DecidedAt(tags, matcher, j + 1, rest);
          }
        }
        rest
  }

  /** Results of two stretches of keywords, in order: the first failure, or
      both lists one after the other. */
  function Concat(a: Result<seq<string>>, b: Result<seq<string>>): Result<seq<string>> {
    if a.Err? then a else if b.Err? then Err(b.failure) else Ok(a.value + b.value)
  }

  /** The outer loop over keywords: each contributes the name its first
      matching candidate matched to, or nothing. */
  function PickAll(keywords: Keywords, matcher: Matcher): (r: Result<seq<string>>)
    ensures r.Ok? <==> forall k :: 0 <= k < |keywords| ==> FirstMatch(keywords[k].1, matcher).Ok?
    ensures r.Ok? ==> |r.value| <= |keywords|
  {
    if |keywords| == 0 then Ok([])
    else
      var init := keywords[..|keywords| - 1];
      assert forall k :: 0 <= k < |init| ==> init[k] == keywords[k];
      var done :- PickAll(init, matcher);
      var a :- FirstMatch(keywords[|keywords| - 1].1, matcher);
      Ok(done + if a.Some? then [a.value] else [])
  }

  /** Picking over two stretches of keywords is picking over each. */
  lemma {:induction false} PickAllAppend(a: Keywords, b: Keywords, matcher: Matcher)
    ensures PickAll(a + b, matcher) == Concat(PickAll(a, matcher), PickAll(b, matcher))
  {
    if |b| > 0 {
      var init := b[..|b| - 1];
      PickAllAppend(a, init, matcher);
      assert (a + b)[..|a + b| - 1] == a + init;
      assert (a + b)[|a + b| - 1] == b[|b| - 1];
      var pa, pi, f := PickAll(a, matcher), PickAll(init, matcher), FirstMatch(b[|b| - 1].1, matcher);
      if pa.Ok? && pi.Ok? && f.Ok? {
        var tail := if f.value.Some? then [f.value.value] else [];
        assert pa.value + pi.value + tail == pa.value + (pi.value + tail);
      }
    } else {
      assert a + b == a;
      assert PickAll(a, matcher).Ok? ==> PickAll(a, matcher).value + [] == PickAll(a, matcher).value;
    }
  }

  /** A keyword whose candidates all match nothing contributes nothing. */
  lemma NoMatchContributesNothing(keywords: Keywords, k: int, matcher: Matcher)
    requires 0 <= k < |keywords| && Misses(keywords[k].1, matcher, |keywords[k].1|)
    ensures PickAll(keywords, matcher) == PickAll(keywords[..k] + keywords[k + 1..], matcher)
  {
    var before := keywords[..k];
    var after := keywords[k + 1..];
    assert keywords == before + [keywords[k]] + after;
    PickAllAppend(before + [keywords[k]], after, matcher);
    PickAllAppend(before, [keywords[k]], matcher);
    PickAllAppend(before, after, matcher);
    assert [keywords[k]][..0] == [];
    assert PickAll([keywords[k]], matcher) == Ok([]);
    var p := PickAll(before, matcher);
    assert p.Ok? ==> p.value + [] == p.value;
  }

  /** When every keyword finds a match, the output holds one name per
      keyword, in keyword order, repeated names included. */
  lemma {:induction false} AllMatched(keywords: Keywords, matcher: Matcher)
    requires forall k :: 0 <= k < |keywords| ==>
               FirstMatch(keywords[k].1, matcher).Ok? && FirstMatch(keywords[k].1, matcher).value.Some?
    ensures PickAll(keywords, matcher).Ok?
    ensures |PickAll(keywords, matcher).value| == |keywords|
    ensures forall k :: 0 <= k < |keywords| ==>
              PickAll(keywords, matcher).value[k] == FirstMatch(keywords[k].1, matcher).value.value
  {
    if |keywords| > 0 {
      var init := keywords[..|keywords| - 1];
      assert forall k :: 0 <= k < |init| ==> init[k] == keywords[k];
      AllMatched(init, matcher);
    }
  }

  /** Two keywords whose candidates match the same tag both report it. */
  lemma DuplicatesKept(k1: string, t1: string, k2: string, t2: string, name: string, s1: real, s2: real,
                       matcher: Matcher)
    requires matcher(t1, MatchThreshold) == Ok(Some((name, s1)))
    requires matcher(t2, MatchThreshold) == Ok(Some((name, s2)))
    ensures PickAll([(k1, [t1]), (k2, [t2])], matcher) == Ok([name, name])
  {
    var keywords := [(k1, [t1]), (k2, [t2])];
    assert FirstMatch([t1], matcher) == Ok(Some(name));
    assert FirstMatch([t2], matcher) == Ok(Some(name));
    AllMatched(keywords, matcher);
    assert PickAll(keywords, matcher).value == [name, name];
  }

  /** Some candidate of some keyword matched the name. */
  predicate Matched(keywords: Keywords, matcher: Matcher, name: string) {
    exists k, j :: 0 <= k < |keywords| && 0 <= j < |keywords[k].1|
                   && matcher(keywords[k].1[j], MatchThreshold).Ok?
                   && matcher(keywords[k].1[j], MatchThreshold).value.Some?
                   && matcher(keywords[k].1[j], MatchThreshold).value.value.0 == name
  }

  /** Every reported name is one the matcher gave for a candidate. */
  lemma {:induction false} PickAllMatched(keywords: Keywords, matcher: Matcher)
    requires PickAll(keywords, matcher).Ok?
    ensures forall i :: 0 <= i < |PickAll(keywords, matcher).value| ==>
              Matched(keywords, matcher, PickAll(keywords, matcher).value[i])
  {
    if |keywords| > 0 {
      var n := |keywords| - 1;
      var init := keywords[..n];
      assert forall k :: 0 <= k < |init| ==> init[k] == keywords[k];
      PickAllMatched(init, matcher);
      var done := PickAll(init, matcher).value;
      var a := FirstMatch(keywords[n].1, matcher);
      forall i | 0 <= i < |done| ensures Matched(keywords, matcher, done[i]) {
        var k, j :| 0 <= k < |init| && 0 <= j < |init[k].1|
                    && matcher(init[k].1[j], MatchThreshold).Ok?
                    && matcher(init[k].1[j], MatchThreshold).value.Some?
                    && matcher(init[k].1[j], MatchThreshold).value.value.0 == done[i];
        assert keywords[k] == init[k];
      }
      if a.value.Some? {
        var j :| DecidedAt(keywords[n].1, matcher, j, a);
        assert Matched(keywords, matcher, a.value.value) by {
          assert matcher(keywords[n].1[j], MatchThreshold).value.value.0 == a.value.value;
        }
      }
    }
  }

  /** The inner loop of `_match_tags` for one keyword. */
  method MatchKeyword(tags: seq<string>, matcher: Matcher) returns (r: Result<Option<string>>)
    ensures r == FirstMatch(tags, matcher)
  {
    var j := 0;
    while j < |tags|
      invariant 0 <= j <= |tags|
      invariant FirstMatch(tags, matcher) == FirstMatch(tags[j..], matcher)
    {
      var m := matcher(tags[j], MatchThreshold);
      assert tags[j..][1..] == tags[j + 1..];
      if m.Err? {
        return Err(m.failure);
      }
      if m.value.Some? {
        return Ok(Some(m.value.value.0));
      }
      j := j + 1;
    }
    return Ok(None);
  }

  /** What one keyword adds to the output: its failure, or its name if any. */
  function Contribution(a: Result<Option<string>>): Result<seq<string>> {
    if a.Err? then Err(a.failure) else Ok(if a.value.Some? then [a.value.value] else [])
  }

  /** Picking over one more keyword. */
  lemma PickAllStep(keywords: Keywords, k: int, matcher: Matcher)
    requires 0 <= k < |keywords|
    ensures PickAll(keywords[..k + 1], matcher)
            == Concat(PickAll(keywords[..k], matcher), Contribution(FirstMatch(keywords[k].1, matcher)))
  {
    assert keywords[..k + 1][..k] == keywords[..k];
    assert keywords[..k + 1][k] == keywords[k];
  }

  /** A failure among the first keywords is the failure of the whole. */
  lemma PickAllFailsEarly(keywords: Keywords, k: int, matcher: Matcher)
    requires 0 <= k <= |keywords| && PickAll(keywords[..k], matcher).Err?
    ensures PickAll(keywords, matcher) == PickAll(keywords[..k], matcher)
  {
    PickAllAppend(keywords[..k], keywords[k..], matcher);
    assert keywords[..k] + keywords[k..] == keywords;
  }

  /** One of the two outer loops of `_match_tags`. */
  method MatchKeywords(keywords: Keywords, matcher: Matcher) returns (r: Result<seq<string>>)
    ensures r == PickAll(keywords, matcher)
  {
    var names: seq<string> := [];
    var k := 0;
    while k < |keywords|
      invariant 0 <= k <= |keywords|
      invariant PickAll(keywords[..k], matcher) == Ok(names)
    {
      var m := MatchKeyword(keywords[k].1, matcher);
      PickAllStep(keywords, k, matcher);
      if m.Err? {
        PickAllFailsEarly(keywords, k + 1, matcher);
        return Err(m.failure);
      }
      if m.value.Some? {
        names := names + [m.value.value];
      } else {
        assert names + [] == names;
      }
      k := k + 1;
    }
    assert keywords[..k] == keywords;
    return Ok(names);
  }

  /** The pair of results: the positive keywords' failure first, then the
      negative ones', otherwise both lists. */
  function Both(pos: Result<seq<string>>, neg: Result<seq<string>>): Result<(seq<string>, seq<string>)> {
    if pos.Err? then Err(pos.failure) else if neg.Err? then Err(neg.failure) else Ok((pos.value, neg.value))
  }

  /** `_match_tags`: the positive keywords, then the negative ones, each
      matched at threshold 0.9. */
  method MatchTags(parsed: Parsed, matcher: Matcher) returns (r: Result<(seq<string>, seq<string>)>)
    ensures r == Both(PickAll(parsed.positive, matcher), PickAll(parsed.negative, matcher))
    ensures r.Ok? ==> |r.value.0| <= |parsed.positive| && |r.value.1| <= |parsed.negative|
  {
    var pos := MatchKeywords(parsed.positive, matcher);
    if pos.Err? {
      return Err(pos.failure);
    }
    var neg := MatchKeywords(parsed.negative, matcher);
    if neg.Err? {
      return Err(neg.failure);
    }
    return Ok((pos.value, neg.value));
  }

  /** The negative list does not depend on the positive keywords. */
  lemma NegativeIgnoresPositive(p1: Keywords, p2: Keywords, negative: Keywords, matcher: Matcher)
    requires Both(PickAll(p1, matcher), PickAll(negative, matcher)).Ok?
    requires Both(PickAll(p2, matcher), PickAll(negative, matcher)).Ok?
    ensures Both(PickAll(p1, matcher), PickAll(negative, matcher)).value.1
            == Both(PickAll(p2, matcher), PickAll(negative, matcher)).value.1
  {
  }

  datatype TagsResponse = TagsResponse(success: bool, positive: seq<string>, negative: seq<string>,
                                       error: Option<string>)

  /** `parse_tags`: never raises; any failure of the language model or of the
      matcher becomes a failed response carrying its message. */
  method ParseTags(query: string, llm: string -> Result<Parsed>, matcher: Matcher) returns (r: TagsResponse)
    ensures r.success <==> r.error.None?
    ensures !r.success ==> r.positive == [] && r.negative == []
    ensures llm(query).Err? ==> r == TagsResponse(false, [], [], Some(MessageText(llm(query).failure)))
    ensures llm(query).Ok? ==>
              var matched := Both(PickAll(llm(query).value.positive, matcher), PickAll(llm(query).value.negative, matcher));
              && (r.success <==> matched.Ok?)
              && (matched.Ok? ==> r.positive == matched.value.0 && r.negative == matched.value.1)
              && (matched.Err? ==> r.error == Some(MessageText(matched.failure)))
  {
    var parsed := llm(query);
    if parsed.Err? {
      return TagsResponse(false, [], [], Some(MessageText(parsed.failure)));
    }
    var matched := MatchTags(parsed.value, matcher);
    if matched.Err? {
      return TagsResponse(false, [], [], Some(MessageText(matched.failure)));
    }
    return TagsResponse(true, matched.value.0, matched.value.1, None);
  }

  datatype EmbeddingResponse = EmbeddingResponse(success: bool, text: Option<string>,
                                                 embedding: Option<seq<real>>, error: Option<string>)

  /** `generate_embedding`: an empty query is answered without an embedding;
      otherwise the query is encoded, and a failure becomes a failed
      response. */
  function GenerateEmbedding(query: string, encode: string -> Result<seq<real>>): (r: EmbeddingResponse)
    ensures r.success <==> r.error.None?
    ensures r.success <==> query == "" || encode(query).Ok?
    ensures r.text.Some? <==> r.embedding.Some?
    ensures r.text.Some? ==> query != "" && r.text.value == query && encode(query) == Ok(r.embedding.value)
    ensures query == "" ==> r.text.None?
    ensures r.error.Some? ==> r.error.value == MessageText(encode(query).failure)
  {
    if query == "" then EmbeddingResponse(true, None, None, None)
    else match encode(query)
      case Ok(v) => EmbeddingResponse(true, Some(query), Some(v), None)
      case Err(f) => EmbeddingResponse(false, None, None, Some(MessageText(f)))
  }
}
