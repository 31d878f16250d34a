/** The image service of the `gallery` module (`gallery/service/ImageService`)
    and the image table it works on. The original file of an image lives on
    the local disk under its hash. This service is written against a tag
    service and an image entity that the repository does not contain: it
    calls `findTag(name)`, `findOrCreateTag(name, type)`, a one-argument
    `tagImage` answering category-to-names lists, and `setTags` with a set of
    tag rows, none of which `TagService` declares, while `gallery/entity/Image`
    keeps its tags as a list of strings. The model gives those calls the
    meaning their names and uses suggest: an image holds a set of tag rows,
    `findTag` is a lookup by name in the tag table, `findOrCreateTag` finds
    or creates a tag, and the tagger's answer is a parameter. */
module GalleryImages {
  import opened Common
  import opened Strings
  import opened Seqs
  import opened ImageEntity
  import TagTable

  datatype GalleryImage = GalleryImage(
    id: int,
    title: string,
    fileName: string,
    extension: string,
    size: int,
    width: Option<int>,
    height: Option<int>,
    hash: string,
    viewCount: Option<int>,
    tags: set<Tag>)

  /** The image rows in insertion order, the tag table, the hashes whose
      original file exists on disk, and the next identity value. */
  datatype Gallery = Gallery(rows: seq<GalleryImage>, tags: TagTable.Tags, files: set<string>, nextId: int)

  /** Ids are unique and were issued before `nextId`. */
  predicate Valid(g: Gallery) {
    && (forall i, j :: 0 <= i < j < |g.rows| ==> g.rows[i].id != g.rows[j].id)
    && (forall i :: 0 <= i < |g.rows| ==> g.rows[i].id < g.nextId)
  }

  const ImageNotFound := "找不到图片"

  predicate HasId(g: Gallery, id: int) {
    exists i :: 0 <= i < |g.rows| && g.rows[i].id == id
  }

  /** `findById(id).orElseThrow(...)`. */
  function FindImage(g: Gallery, id: int): (r: Result<GalleryImage>)
    ensures r.Ok? <==> HasId(g, id)
    ensures r.Ok? ==> r.value in g.rows && r.value.id == id
    ensures r.Err? ==> r.failure == Runtime(ImageNotFound)
  {
    match FirstWhere(g.rows, (row: GalleryImage) => row.id == id)
    case Some(img) => Ok(img)
    case None => Err(Runtime(ImageNotFound))
  }

  /** `findByHash`: the first row with the hash, if any. */
  function FindByHash(g: Gallery, hash: string): (r: Option<GalleryImage>)
    ensures r.Some? ==> r.value in g.rows && r.value.hash == hash
    ensures r.None? <==> forall i :: 0 <= i < |g.rows| ==> g.rows[i].hash != hash
  {
    FirstWhere(g.rows, (row: GalleryImage) => row.hash == hash)
  }

  /** The unique constraint on the hash column. */
  predicate UniqueHashes(g: Gallery) {
    forall i, j :: 0 <= i < j < |g.rows| ==> g.rows[i].hash != g.rows[j].hash
  }

  /** `save` of a new image: the row gets the next identity value. */
  function AddRow(g: Gallery, img: GalleryImage): (r: (int, Gallery))
    ensures r.0 == g.nextId && r.1.nextId == g.nextId + 1
    ensures r.1.rows == g.rows + [img.(id := r.0)]
    ensures r.1.tags == g.tags && r.1.files == g.files
    ensures Valid(g) ==> Valid(r.1) && FindImage(r.1, r.0) == Ok(img.(id := r.0))
    ensures UniqueHashes(g) && FindByHash(g, img.hash).None? ==> UniqueHashes(r.1)
  {
    var row := img.(id := g.nextId);
    var r := (g.nextId, g.(rows := g.rows + [row], nextId := g.nextId + 1));
    assert Valid(g) ==> FindImage(r.1, r.0) == Ok(row) by {
      if Valid(g) {
        FindImageUnique(r.1, |g.rows|);
      }
    }
    r
  }

  /** In a valid table the row found is the one stored under the id. */
  lemma FindImageUnique(g: Gallery, i: int)
    requires Valid(g) && 0 <= i < |g.rows|
    ensures FindImage(g, g.rows[i].id) == Ok(g.rows[i])
  {
    var r := FindImage(g, g.rows[i].id).value;
    var j :| 0 <= j < |g.rows| && g.rows[j] == r;
    assert g.rows[j].id == g.rows[i].id;
  }

  /** Save a changed row: every row with its id becomes `img`. */
  function Put(g: Gallery, img: GalleryImage): (r: Gallery)
    ensures |r.rows| == |g.rows|
    ensures forall i :: 0 <= i < |g.rows| ==> r.rows[i] == if g.rows[i].id == img.id then img else g.rows[i]
    ensures r.tags == g.tags && r.files == g.files && r.nextId == g.nextId
  {
    g.(rows := seq(|g.rows|, i requires 0 <= i < |g.rows| => if g.rows[i].id == img.id then img else g.rows[i]))
  }

  lemma PutKeepsValid(g: Gallery, img: GalleryImage)
    requires Valid(g) && HasId(g, img.id)
    ensures Valid(Put(g, img))
    ensures FindImage(Put(g, img), img.id) == Ok(img)
  {
    var r := Put(g, img);
    assert forall i :: 0 <= i < |r.rows| ==> r.rows[i].id == g.rows[i].id;
    var k :| 0 <= k < |g.rows| && g.rows[k].id == img.id;
    assert r.rows[k] == img;
    FindImageUnique(r, k);
  }

  /** `getImage`: count one more view, a missing count becoming 1. */
  function GetImage(g: Gallery, id: int): (r: Result<(GalleryImage, Gallery)>)
    ensures r.Ok? <==> HasId(g, id)
    ensures r.Err? ==> r.failure == Runtime(ImageNotFound)
    ensures r.Ok? ==>
              var old_ := FindImage(g, id).value;
              && r.value.0 == old_.(viewCount := r.value.0.viewCount)
              && r.value.0.viewCount.Some?
              && (old_.viewCount.None? ==> r.value.0.viewCount == Some(1))
              && (old_.viewCount.Some? ==> r.value.0.viewCount.value == old_.viewCount.value + 1)
              && r.value.1 == Put(g, r.value.0)
  {
    var img :- FindImage(g, id);
    var count := if img.viewCount.None? then 1 else img.viewCount.value + 1;
    var seen := img.(viewCount := Some(count));
    Ok((seen, Put(g, seen)))
  }

  /** Two views of a counted image add two to its count. */
  lemma {:induction false} GetImageTwice(g: Gallery, id: int)
    requires Valid(g) && HasId(g, id) && FindImage(g, id).value.viewCount.Some?
    ensures var (_, g1) := GetImage(g, id).value;
            GetImage(g1, id).Ok?
            && GetImage(g1, id).value.0.viewCount.value == FindImage(g, id).value.viewCount.value + 2
  {
    var (seen, g1) := GetImage(g, id).value;
    PutKeepsValid(g, seen);
  }

  /** `updateImage`: replace the title when one is given; nothing else of the
      row changes. */
  function UpdateImage(g: Gallery, id: int, title: Option<string>): (r: Result<(GalleryImage, Gallery)>)
    ensures r.Ok? <==> HasId(g, id)
    ensures r.Err? ==> r.failure == Runtime(ImageNotFound)
    ensures r.Ok? ==>
              var old_ := FindImage(g, id).value;
              && r.value.0 == old_.(title := r.value.0.title)
              && (title.Some? ==> r.value.0.title == title.value)
              && (title.None? ==> r.value.0 == old_)
              && r.value.1 == Put(g, r.value.0)
  {
    var img :- FindImage(g, id);
    var updated := if title.Some? then img.(title := title.value) else img;
    Ok((updated, Put(g, updated)))
  }

  /** `deleteImage`: remove the row; the file stays, as other rows may share it. */
  function DeleteImage(g: Gallery, id: int): (r: Result<Gallery>)
    ensures r.Ok? <==> HasId(g, id)
    ensures r.Err? ==> r.failure == Runtime(ImageNotFound)
    ensures r.Ok? ==> !HasId(r.value, id) && r.value.files == g.files && r.value.tags == g.tags
    ensures r.Ok? ==> forall i :: 0 <= i < |g.rows| && g.rows[i].id != id ==> g.rows[i] in r.value.rows
    ensures r.Ok? ==> forall i :: 0 <= i < |r.value.rows| ==> r.value.rows[i] in g.rows
  {
    var _ :- FindImage(g, id);
    Ok(g.(rows := Filter(g.rows, (img: GalleryImage) => img.id != id)))
  }

  /** `deleteImages`: delete each id, ignoring the ones that fail. */
  function DeleteImages(g: Gallery, ids: seq<int>): (r: Gallery)
    ensures forall i :: 0 <= i < |ids| ==> !HasId(r, ids[i])
    ensures forall i :: 0 <= i < |g.rows| && g.rows[i].id !in ids ==> g.rows[i] in r.rows
    ensures forall i :: 0 <= i < |r.rows| ==> r.rows[i] in g.rows
    ensures r.files == g.files && r.tags == g.tags
    decreases |ids|
  {
    if |ids| == 0 then g
    else
      var g1 := DeleteIfPresent(g, ids[0]);
      var r := DeleteImages(g1, ids[1..]);
      assert !HasId(r, ids[0]) by {
        forall i | 0 <= i < |r.rows| ensures r.rows[i].id != ids[0] {
          assert r.rows[i] in g1.rows;
        }
      }
      assert forall i :: 1 <= i < |ids| ==> ids[i] == ids[1..][i - 1];
      assert forall i :: 0 <= i < |g.rows| && g.rows[i].id !in ids ==> g.rows[i] in r.rows by {
        forall i | 0 <= i < |g.rows| && g.rows[i].id !in ids ensures g.rows[i] in r.rows {
          assert g.rows[i].id !in ids[1..];
          var j :| 0 <= j < |g1.rows| && g1.rows[j] == g.rows[i];
        }
      }
      r
  }

  /** One id of `deleteImages`: the gallery after deleting it, or unchanged
      when the deletion fails. */
  function DeleteIfPresent(g: Gallery, id: int): (r: Gallery)
    ensures !HasId(r, id) && r.files == g.files && r.tags == g.tags
    ensures forall i :: 0 <= i < |g.rows| && g.rows[i].id != id ==> g.rows[i] in r.rows
    ensures forall i :: 0 <= i < |r.rows| ==> r.rows[i] in g.rows
  {
    match DeleteImage(g, id) case Ok(g1) => g1 case Err(_) => g
  }

  /** `addTag`: the tag must exist by name; it joins the image's tag set. */
  function AddTag(g: Gallery, id: int, name: string): (r: Result<(GalleryImage, Gallery)>)
    ensures !HasId(g, id) ==> r == Err(Runtime(ImageNotFound))
    ensures HasId(g, id) ==> (r.Ok? <==> TagTable.FindByName(g.tags, name).Some?)
    ensures HasId(g, id) && r.Err? ==> r.failure == Runtime("标签不存在，无法添加: " + name)
    ensures r.Ok? ==>
              var old_ := FindImage(g, id).value;
              && r.value.0 == old_.(tags := old_.tags + {TagTable.FindByName(g.tags, name).value})
              && r.value.1 == Put(g, r.value.0)
  {
    var img :- FindImage(g, id);
    match TagTable.FindByName(g.tags, name)
    case None => Err(Runtime("标签不存在，无法添加: " + name))
    case Some(tag) =>
      var tagged := img.(tags := img.tags + {tag});
      Ok((tagged, Put(g, tagged)))
  }

  /** `removeTag`: drop every tag of the image that has the id. */
  function RemoveTag(g: Gallery, id: int, tagId: int): (r: Result<(GalleryImage, Gallery)>)
    ensures r.Ok? <==> HasId(g, id)
    ensures r.Err? ==> r.failure == Runtime(ImageNotFound)
    ensures r.Ok? ==>
              var old_ := FindImage(g, id).value;
              && r.value.0 == old_.(tags := r.value.0.tags)
              && (forall t :: t in r.value.0.tags <==> t in old_.tags && t.id != tagId)
              && r.value.1 == Put(g, r.value.0)
  {
    var img :- FindImage(g, id);
    var untagged := img.(tags := set t | t in img.tags && t.id != tagId);
    Ok((untagged, Put(g, untagged)))
  }

  /** Removing a tag just added by name restores the image's tags, when no
      tag of the image shared its id. */
  lemma RemoveUndoesAdd(g: Gallery, id: int, name: string)
    requires Valid(g) && AddTag(g, id, name).Ok?
    requires forall t :: t in FindImage(g, id).value.tags ==> t.id != TagTable.FindByName(g.tags, name).value.id
    ensures var (_, g1) := AddTag(g, id, name).value;
            var tagId := TagTable.FindByName(g.tags, name).value.id;
            RemoveTag(g1, id, tagId).Ok? && RemoveTag(g1, id, tagId).value.0 == FindImage(g, id).value
  {
    var img := FindImage(g, id).value;
    var tag := TagTable.FindByName(g.tags, name).value;
    var (tagged, g1) := AddTag(g, id, name).value;
    assert tagged == img.(tags := img.tags + {tag});
    PutKeepsValid(g, tagged);
    assert FindImage(g1, id) == Ok(tagged);
    var after := RemoveTag(g1, id, tag.id);
    assert after.Ok?;
    var untagged := after.value.0;
    assert untagged == tagged.(tags := untagged.tags);
    assert tag !in img.tags;
    forall t ensures t in untagged.tags <==> t in img.tags {
    }
    assert untagged.tags == img.tags;
  }

  /** The `(name, type)` pairs of a tagger result, category by category. */
  function Pairs(result: seq<(string, seq<string>)>): (r: seq<(string, string)>)
    ensures forall name, category :: (name, category) in r <==>
              exists i :: 0 <= i < |result| && result[i].0 == category && name in result[i].1
  {
    if |result| == 0 then []
    else
      var head := seq(|result[0].1|, j requires 0 <= j < |result[0].1| => (result[0].1[j], result[0].0));
      var r := head + Pairs(result[1..]);
      assert forall name, category :: (name, category) in head <==> result[0].0 == category && name in result[0].1 by {
        forall name, category | result[0].0 == category && name in result[0].1 ensures (name, category) in head {
          var j :| 0 <= j < |result[0].1| && result[0].1[j] == name;
          assert head[j] == (name, category);
        }
      }
      r
  }

  /** The names of a list of `(name, type)` pairs. */
  function NamesOf(pairs: seq<(string, string)>): set<string> {
    set p | p in pairs :: p.0
  }

  /** The names of a set of tags. */
  function TagNames(tags: set<Tag>): set<string> {
    set tag | tag in tags :: tag.name
  }

  /** Find or create a tag for each pair, in order, collecting the tags. The
      table only grows; a tag that was not in it before carries the category
      of a pair with its name. */
  function FindOrCreateAll(t: TagTable.Tags, pairs: seq<(string, string)>): (r: (set<Tag>, TagTable.Tags))
    ensures TagNames(r.0) == NamesOf(pairs)
    ensures forall tag :: tag in r.0 && tag !in t.rows ==> (tag.name, tag.category) in pairs
    ensures forall tag :: tag in r.0 ==> tag in r.1.rows
    ensures forall tag :: tag in t.rows ==> tag in r.1.rows
    ensures TagTable.Valid(t) ==> TagTable.Valid(r.1)
    decreases |pairs|
  {
    if |pairs| == 0 then ({}, t)
    else
      var (tag, t1) := TagTable.FindOrCreate(t, pairs[0].0, pairs[0].1);
      var (rest, t2) := FindOrCreateAll(t1, pairs[1..]);
      assert TagTable.Valid(t) ==> TagTable.Valid(t1) by {
        if TagTable.Valid(t) {
          TagTable.FindOrCreateStable(t, pairs[0].0, pairs[0].1, pairs[0].1);
        }
      }
      assert tag in t1.rows && (tag !in t.rows ==> tag == Tag(t.nextId, pairs[0].0, pairs[0].1));
      assert forall x :: x in t1.rows ==> x in t.rows || x == tag;
      CollectStep(t.rows, t1.rows, tag, rest, pairs);
      ({tag} + rest, t2)
  }

  /** One step of `FindOrCreateAll`: the first pair's tag joins the tags of
      the others. */
  lemma CollectStep(before: seq<Tag>, after: seq<Tag>, tag: Tag, rest: set<Tag>, pairs: seq<(string, string)>)
    requires |pairs| > 0 && tag.name == pairs[0].0
    requires tag !in before ==> tag == Tag(tag.id, pairs[0].0, pairs[0].1)
    requires forall x :: x in after ==> x in before || x == tag
    requires TagNames(rest) == NamesOf(pairs[1..])
    requires forall x :: x in rest && x !in after ==> (x.name, x.category) in pairs[1..]
    ensures TagNames({tag} + rest) == NamesOf(pairs)
    ensures forall x :: x in {tag} + rest && x !in before ==> (x.name, x.category) in pairs
  {
    assert pairs == [pairs[0]] + pairs[1..];
    assert NamesOf(pairs) == {pairs[0].0} + NamesOf(pairs[1..]);
    assert TagNames({tag} + rest) == {tag.name} + TagNames(rest);
  }

  /** `regenerateTags`: replace the image's tags by the tags named in the
      tagger's result, finding or creating each one with its category. */
  function RegenerateTags(g: Gallery, id: int, tagged: Result<seq<(string, seq<string>)>>): (r: Result<(GalleryImage, Gallery)>)
    ensures !HasId(g, id) ==> r == Err(Runtime(ImageNotFound))
    ensures HasId(g, id) ==> (r.Ok? <==> tagged.Ok?)
    ensures HasId(g, id) && tagged.Err? ==> r == Err(tagged.failure)
    ensures r.Ok? ==>
              var old_ := FindImage(g, id).value;
              var pairs := Pairs(tagged.value);
              && r.value.0 == old_.(tags := r.value.0.tags)
              && TagNames(r.value.0.tags) == NamesOf(pairs)
              && (forall tag :: tag in r.value.0.tags && tag !in g.tags.rows ==> (tag.name, tag.category) in pairs)
              && (forall tag :: tag in r.value.0.tags ==> tag in r.value.1.tags.rows)
              && (TagTable.Valid(g.tags) ==> TagTable.Valid(r.value.1.tags))
              && r.value.1.rows == Put(g, r.value.0).rows
  {
    var img :- FindImage(g, id);
    var result :- tagged;
    var (tags, t1) := FindOrCreateAll(g.tags, Pairs(result));
    var retagged := img.(tags := tags);
    Ok((retagged, Put(g, retagged).(tags := t1)))
  }

  /** The characters the zip entry name replaces by '_'. */
  predicate Reserved(c: char) {
    c == '\\' || c == '/' || c == ':' || c == '*' || c == '?' || c == '"' || c == '<' || c == '>' || c == '|'
  }

  /** `title.replaceAll("[\\\\/:*?\"<>|]", "_")`. */
  function Sanitize(title: string): (r: string)
    ensures |r| == |title|
    ensures forall i :: 0 <= i < |r| ==> !Reserved(r[i])
    ensures forall i :: 0 <= i < |r| ==> (Reserved(title[i]) ==> r[i] == '_') && (!Reserved(title[i]) ==> r[i] == title[i])
  {
    seq(|title|, i requires 0 <= i < |title| => if Reserved(title[i]) then '_' else title[i])
  }

  /** A title without reserved characters is kept as is, so sanitising twice
      is sanitising once. */
  lemma SanitizeIdempotent(title: string)
    ensures (forall i :: 0 <= i < |title| ==> !Reserved(title[i])) ==> Sanitize(title) == title
    ensures Sanitize(Sanitize(title)) == Sanitize(title)
  {
  }

  /** The zip entry name: the sanitised title, '_', the id, '.', the extension. */
  function EntryName(img: GalleryImage): string {
    Sanitize(img.title) + "_" + IntToString(img.id) + "." + img.extension
  }

  /** `downloadImages`: nothing is written when no id names an image;
      otherwise one entry per found image whose file exists. */
  function ZipEntries(g: Gallery, ids: seq<int>): (r: Option<set<string>>)
    ensures r.None? <==> forall i :: 0 <= i < |g.rows| ==> g.rows[i].id !in ids
    ensures r.Some? ==> forall name :: name in r.value <==>
              exists i :: 0 <= i < |g.rows| && g.rows[i].id in ids && g.rows[i].hash in g.files
                          && name == EntryName(g.rows[i])
  {
    var found := Filter(g.rows, (img: GalleryImage) => img.id in ids);
    if |found| == 0 then
      None
    else
      assert found[0] in g.rows && found[0].id in ids;
      Some(set img | img in found && img.hash in g.files :: EntryName(img))
  }
}
