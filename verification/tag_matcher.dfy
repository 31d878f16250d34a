/** `TagMatcherService.match`: the stored tag nearest to a free-text keyword.
    The text encoder and the vector similarity are parameters (`embed`,
    `similarity`); the `tags` table is a sequence of rows. */
module TagMatcher {
  import opened Common
  import opened Strings
  import opened Seqs

  /** A row of the `tags` table. */
  datatype TagRow = TagRow(name: string, embedding: seq<real>)

  /** `str.replace(a, b)` for single characters. */
  function ReplaceChar(s: string, a: char, b: char): (r: string)
    ensures |r| == |s|
    ensures forall i :: 0 <= i < |s| ==> r[i] == (if s[i] == a then b else s[i])
  {
    seq(|s|, i requires 0 <= i < |s| => if s[i] == a then b else s[i])
  }

  /** `str.replace(c, "")`. */
  function RemoveChar(s: string, c: char): (r: string)
    ensures c !in r
    ensures forall i :: 0 <= i < |s| && s[i] != c ==> s[i] in r
    ensures forall x :: x in r ==> x in s
  {
    Filter(s, x => x != c)
  }

  predicate IsUpper(c: char) {
    'A' <= c <= 'Z'
  }

  /** The text that is embedded: '_' read as a space, parentheses dropped,
      ASCII letters lower-cased. */
  function CleanQuery(query: string): (r: string)
    ensures '_' !in r && '(' !in r && ')' !in r
    ensures forall i :: 0 <= i < |r| ==> !IsUpper(r[i])
    ensures |r| <= |query|
    ensures forall i :: 0 <= i < |query| && query[i] != '(' && query[i] != ')' ==>
              LowerChar(if query[i] == '_' then ' ' else query[i]) in r
  {
    var spaced := ReplaceChar(query, '_', ' ');
    var stripped := RemoveChar(RemoveChar(spaced, '('), ')');
    var r := Lower(stripped);
    assert forall i :: 0 <= i < |query| && query[i] != '(' && query[i] != ')' ==>
             spaced[i] in stripped;
    r
  }

  /** Lower-casing a string without upper-case letters changes nothing. */
  lemma LowerNoUpper(s: string)
    requires forall i :: 0 <= i < |s| ==> !IsUpper(s[i])
    ensures Lower(s) == s
  {
  }

  /** Cleaning an already cleaned keyword changes nothing. */
  lemma CleanQueryIdempotent(query: string)
    ensures CleanQuery(CleanQuery(query)) == CleanQuery(query)
  {
    var q := CleanQuery(query);
    assert ReplaceChar(q, '_', ' ') == q;
    FilterAll(q, x => x != '(');
    FilterAll(q, x => x != ')');
    LowerNoUpper(q);
  }

  /** The rows at or above the threshold. */
  predicate Qualifies(rows: seq<TagRow>, query: seq<real>, similarity: (seq<real>, seq<real>) -> real,
                      threshold: real, i: int)
  {
    0 <= i < |rows| && similarity(rows[i].embedding, query) >= threshold
  }

  /** The query's `WHERE ... >= threshold ORDER BY similarity DESC LIMIT 1`:
      the most similar row at or above the threshold, with its similarity. */
  function Nearest(rows: seq<TagRow>, query: seq<real>, similarity: (seq<real>, seq<real>) -> real,
                   threshold: real): (r: Option<(string, real)>)
    ensures r.None? <==> forall i :: 0 <= i < |rows| ==> !Qualifies(rows, query, similarity, threshold, i)
    ensures r.Some? ==> exists i :: Qualifies(rows, query, similarity, threshold, i)
                                     && r.value == (rows[i].name, similarity(rows[i].embedding, query))
    ensures r.Some? ==> forall i :: Qualifies(rows, query, similarity, threshold, i) ==>
                                      similarity(rows[i].embedding, query) <= r.value.1
  {
    if |rows| == 0 then None
    else
      var rest := Nearest(rows[1..], query, similarity, threshold);
      var s := similarity(rows[0].embedding, query);
      assert forall i :: 1 <= i < |rows| ==>
               (Qualifies(rows, query, similarity, threshold, i) <==> Qualifies(rows[1..], query, similarity, threshold, i - 1));
      if s >= threshold && (rest.None? || s >= rest.value.1) then
        assert Qualifies(rows, query, similarity, threshold, 0);
        Some((rows[0].name, s))
      else
        assert rest.Some? ==> exists i :: Qualifies(rows, query, similarity, threshold, i)
                                          && rest.value == (rows[i].name, similarity(rows[i].embedding, query)) by {
          if rest.Some? {
            var j :| Qualifies(rows[1..], query, similarity, threshold, j)
                     && rest.value == (rows[1..][j].name, similarity(rows[1..][j].embedding, query));
            assert Qualifies(rows, query, similarity, threshold, j + 1);
          }
        }
        rest
  }

  /** `match`: the cleaned keyword is embedded (which may fail) and the
      nearest qualifying row is returned. */
  function Match(query: string, threshold: real, embed: string -> Result<seq<real>>, rows: seq<TagRow>,
                 similarity: (seq<real>, seq<real>) -> real): (r: Result<Option<(string, real)>>)
    ensures r.Err? <==> embed(CleanQuery(query)).Err?
    ensures r.Err? ==> r.failure == embed(CleanQuery(query)).failure
    ensures r.Ok? && r.value.Some? ==> r.value.value.1 >= threshold
                                       && exists i :: 0 <= i < |rows| && rows[i].name == r.value.value.0
  {
    var e :- embed(CleanQuery(query));
    Ok(Nearest(rows, e, similarity, threshold))
  }

  /** Keywords that differ only in case, in '_' against ' ', or in
      parentheses are matched alike. */
  lemma SameCleanSameMatch(a: string, b: string, threshold: real, embed: string -> Result<seq<real>>,
                           rows: seq<TagRow>, similarity: (seq<real>, seq<real>) -> real)
    requires CleanQuery(a) == CleanQuery(b)
    ensures Match(a, threshold, embed, rows, similarity) == Match(b, threshold, embed, rows, similarity)
  {
  }
}
