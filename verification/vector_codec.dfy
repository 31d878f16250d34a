/** `VectorConverter`: the JPA converter between an embedding and the text
    form of a pgvector column, "[e1,e2,...]". The element type is left
    abstract: `show` stands for `String.valueOf(double)` and `parse` for
    `Double.parseDouble`, which may throw. */
module VectorCodec {
  import opened Common
  import opened Strings
  import opened Seqs

  /** `convertToDatabaseColumn`: null stays null; otherwise the rendered
      elements joined by ',' between brackets. */
  function Encode<T>(attribute: Option<seq<T>>, show: T -> string): (r: Option<string>)
    ensures attribute.None? <==> r.None?
    ensures r.Some? ==> |r.value| >= 2 && r.value[0] == '[' && r.value[|r.value| - 1] == ']'
    ensures r.Some? && attribute.value == [] ==> r.value == "[]"
  {
    match attribute
    case None => None
    case Some(xs) => Some("[" + Join(Map(xs, show), ",") + "]")
  }

  /** The stream of `parseDouble` calls: the values in order, or the first
      failure. */
  function ParseAll<T>(pieces: seq<string>, parse: string -> Result<T>): (r: Result<seq<T>>)
    ensures r.Ok? <==> forall i :: 0 <= i < |pieces| ==> parse(pieces[i]).Ok?
    ensures r.Ok? ==> |r.value| == |pieces| && forall i :: 0 <= i < |pieces| ==> r.value[i] == parse(pieces[i]).value
    ensures r.Err? ==> exists k :: 0 <= k < |pieces| && parse(pieces[k]) == Err(r.failure)
                                   && forall i :: 0 <= i < k ==> parse(pieces[i]).Ok?
  {
    if |pieces| == 0 then Ok([])
    else
      match parse(pieces[0])
      case Err(f) => Err(f)
      case Ok(x) =>
        var rest := ParseAll(pieces[1..], parse);
        assert forall i :: 1 <= i < |pieces| ==> pieces[i] == pieces[1..][i - 1];
        match rest
        case Err(f) =>
          var k' :| 0 <= k' < |pieces[1..]| && parse(pieces[1..][k']) == Err(f)
                    && forall i :: 0 <= i < k' ==> parse(pieces[1..][i]).Ok?;
          assert parse(pieces[k' + 1]) == Err(f);
          Err(f)
        case Ok(xs) => Ok([x] + xs)
  }

  /** The failure of `substring(1, length - 1)` on a one-character string. */
  const OneCharFailure := IndexOutOfBounds("begin 1, end 0, length 1")

  /** `convertToEntityAttribute`: null or "" gives null; otherwise the first
      and last characters are dropped unchecked, an empty remainder gives
      the empty vector, and the remainder is split on ',' (trailing empty
      pieces dropped) and each piece parsed. */
  function Decode<T>(dbData: Option<string>, parse: string -> Result<T>): (r: Result<Option<seq<T>>>)
    ensures dbData.None? || dbData.value == "" ==> r == Ok(None)
    ensures dbData.Some? && |dbData.value| == 1 ==> r == Err(OneCharFailure)
    ensures dbData.Some? && |dbData.value| == 2 ==> r == Ok(Some([]))
    ensures dbData.Some? && |dbData.value| > 2 ==>
              var pieces := Split(dbData.value[1..|dbData.value| - 1], ',');
              && (r.Ok? <==> forall i :: 0 <= i < |pieces| ==> parse(pieces[i]).Ok?)
              && (r.Ok? ==> r.value.Some? && |r.value.value| == |pieces|)
  {
    match dbData
    case None => Ok(None)
    case Some(s) =>
      if |s| == 0 then Ok(None)
      else if |s| == 1 then Err(OneCharFailure)
      else
        var content := s[1..|s| - 1];
        if content == "" then Ok(Some([]))
        else
          var xs :- ParseAll(Split(content, ','), parse);
          Ok(Some(xs))
  }

  lemma JoinHead(parts: seq<string>, sep: string)
    requires |parts| >= 1
    ensures |Join(parts, sep)| >= |parts[0]|
  {
  }

  lemma {:induction false} DropNothing(ps: seq<string>)
    requires |ps| >= 1 && ps[|ps| - 1] != ""
    ensures DropTrailingEmpty(ps) == ps
  {
  }

  /** Decoding what was encoded gives the vector back, when every rendered
      element is non-empty, free of ',' and parses back to itself. */
  lemma {:induction false} DecodeEncode<T>(attribute: Option<seq<T>>, show: T -> string, parse: string -> Result<T>)
    requires attribute.Some? ==> forall i :: 0 <= i < |attribute.value| ==>
               var t := show(attribute.value[i]);
               t != "" && ',' !in t && parse(t) == Ok(attribute.value[i])
    ensures Decode(Encode(attribute, show), parse) == Ok(attribute)
  {
    if attribute.Some? && attribute.value != [] {
      var xs := attribute.value;
      var parts := Map(xs, show);
      var joined := Join(parts, ",");
      var s := Encode(attribute, show).value;
      assert s[1..|s| - 1] == joined;
      JoinHead(parts, ",");
      PiecesOfJoin(parts, ',');
      DropNothing(parts);
      assert Split(joined, ',') == parts;
      var r := ParseAll(parts, parse).value;
      assert r == xs;
    }
  }

  /** A string holds one more piece than it holds separators. */
  lemma {:induction false} PiecesCount(s: string, sep: char)
    ensures |Pieces(s, sep)| == multiset(s)[sep] + 1
  {
    if |s| > 0 {
      PiecesCount(s[1..], sep);
      assert s == [s[0]] + s[1..];
    }
  }

  /** A string that does not end in the separator has a non-empty last piece. */
  lemma {:induction false} LastPieceNonEmpty(s: string, sep: char)
    requires |s| > 0 && s[|s| - 1] != sep
    ensures var ps := Pieces(s, sep); ps[|ps| - 1] != ""
  {
    if |s| > 1 {
      LastPieceNonEmpty(s[1..], sep);
    }
  }

  /** When the content between the brackets is non-empty and does not end in
      ',', the vector has one more element than the content has commas. */
  lemma ElementCount<T>(dbData: string, parse: string -> Result<T>)
    requires |dbData| > 2 && dbData[|dbData| - 2] != ','
    requires Decode(Some(dbData), parse).Ok?
    ensures |Decode(Some(dbData), parse).value.value| == multiset(dbData[1..|dbData| - 1])[','] + 1
  {
    var content := dbData[1..|dbData| - 1];
    assert |content| > 0 && content[|content| - 1] == dbData[|dbData| - 2];
    SplitCount(content, ',');
  }

  /** Splitting a non-empty string that does not end in the separator keeps
      every piece: one more than there are separators. */
  lemma SplitCount(s: string, sep: char)
    requires |s| > 0 && s[|s| - 1] != sep
    ensures |Split(s, sep)| == multiset(s)[sep] + 1
  {
    PiecesCount(s, sep);
    LastPieceNonEmpty(s, sep);
    DropNothing(Pieces(s, sep));
  }

  /** A trailing ',' inside the brackets is dropped: "[x,]" decodes like "[x]". */
  lemma TrailingCommaIgnored<T>(x: string, parse: string -> Result<T>)
    requires x != "" && ',' !in x
    ensures Decode(Some("[" + x + ",]"), parse) == Decode(Some("[" + x + "]"), parse)
  {
    var s := "[" + x + ",]";
    assert s[1..|s| - 1] == x + [','] + "";
    PiecesOfJoinStep(x, "", ',');
    PiecesNoSeparator(x, ',');
    var t := "[" + x + "]";
    assert t[1..|t| - 1] == x;
  }

  /** The outer characters are dropped without being checked. */
  lemma BracketsUnchecked<T>(open: char, content: string, close: char, parse: string -> Result<T>)
    ensures Decode(Some([open] + content + [close]), parse) == Decode(Some("[" + content + "]"), parse)
  {
    var s := [open] + content + [close];
    var t := "[" + content + "]";
    assert s[1..|s| - 1] == content == t[1..|t| - 1];
  }
}
