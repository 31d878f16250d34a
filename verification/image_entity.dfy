/** The catalogue's image record and its tag relations. A tag is identified by
    its id: within one persistence context an id has one `Tag` instance, so the
    source's identity comparison of tags is a comparison of ids. */
module ImageEntity {
  import opened Common
  import opened Seqs

  /** A row of the tag table; `category` is the tag's type column. */
  datatype Tag = Tag(id: int, name: string, category: string)

  /** A link between an image and a tag, with the tagger's confidence. */
  datatype Relation = Relation(tag: Tag, score: real)

  datatype Image = Image(
    id: int,
    title: string,
    fileName: string,
    extension: string,
    size: int,
    width: int,
    height: int,
    hash: string,
    viewCount: int,
    embedding: Option<seq<real>>,
    relations: seq<Relation>)

  /** The tag as the image reports it: the tag's fields and the relation's score. */
  datatype TagView = TagView(id: int, name: string, category: string, score: real)

  /** A freshly constructed image: no views yet and no tags. */
  function NewImage(id: int, title: string, fileName: string, extension: string, size: int,
                    width: int, height: int, hash: string, embedding: Option<seq<real>>): (r: Image)
    ensures r.viewCount == 0 && r.relations == []
    ensures r.hash == hash && r.id == id
  {
    Image(id, title, fileName, extension, size, width, height, hash, 0, embedding, [])
  }

  /** The image carries a relation to the tag with this id. */
  predicate HasTag(img: Image, tagId: int) {
    exists i :: 0 <= i < |img.relations| && img.relations[i].tag.id == tagId
  }

  /** The id of the tag a relation links to. */
  function TagIdOf(rel: Relation): int {
    rel.tag.id
  }

  /** No tag is linked twice (the unique (image_id, tag_id) constraint). */
  predicate UniqueTags(img: Image) {
    DistinctKeys(img.relations, TagIdOf)
  }

  /** The two images agree on every column except their relations. */
  predicate SameColumns(a: Image, b: Image) {
    a.(relations := []) == b.(relations := [])
  }

  function View(r: Relation): TagView {
    TagView(r.tag.id, r.tag.name, r.tag.category, r.score)
  }

  function Views(rs: seq<Relation>): (vs: seq<TagView>)
    ensures |vs| == |rs|
    ensures forall i :: 0 <= i < |rs| ==> vs[i] == View(rs[i])
  {
    seq(|rs|, i requires 0 <= i < |rs| => View(rs[i]))
  }

  predicate ByScore(a: TagView, b: TagView) {
    a.score <= b.score
  }

  lemma ByScoreOrder()
    ensures Total(ByScore) && Transitive(ByScore)
  {
  }

  /** `Image.getTags`: one view per relation, in ascending order of score. */
  function GetTags(img: Image): (r: seq<TagView>)
    ensures multiset(r) == multiset(Views(img.relations))
    ensures forall i, j :: 0 <= i < j < |r| ==> r[i].score <= r[j].score
  {
    ByScoreOrder();
    var r := SortBy(Views(img.relations), ByScore);
    SortedAll(r, ByScore);
    r
  }

  /** `Image.addTag`: link the tag with the given score. Relations compare by
      identity, so a new relation is added whatever the image already holds. */
  function AddTag(img: Image, tag: Tag, score: real): (r: Image)
    ensures SameColumns(r, img)
    ensures |r.relations| == |img.relations| + 1
    ensures multiset(r.relations) == multiset(img.relations) + multiset{Relation(tag, score)}
    ensures HasTag(r, tag.id)
    ensures forall id :: HasTag(img, id) ==> HasTag(r, id)
  {
    var r := img.(relations := img.relations + [Relation(tag, score)]);
    assert r.relations[|img.relations|].tag.id == tag.id;
    assert forall i :: 0 <= i < |img.relations| ==> r.relations[i] == img.relations[i];
    r
  }

  /** `Image.deleteTag`: unlink every relation to the tag; the others stay in order. */
  function DeleteTag(img: Image, tag: Tag): (r: Image)
    ensures SameColumns(r, img)
    ensures !HasTag(r, tag.id)
    ensures forall i :: 0 <= i < |img.relations| && img.relations[i].tag.id != tag.id ==>
              img.relations[i] in r.relations
    ensures forall i :: 0 <= i < |r.relations| ==> r.relations[i] in img.relations
  {
    img.(relations := Filter(img.relations, (rel: Relation) => rel.tag.id != tag.id))
  }

  /** Adding a tag the image lacks keeps the tags unique. */
  lemma AddTagKeepsUnique(img: Image, tag: Tag, score: real)
    requires UniqueTags(img) && !HasTag(img, tag.id)
    ensures UniqueTags(AddTag(img, tag, score))
  {
    var r := AddTag(img, tag, score);
    forall i, j | 0 <= i < j < |r.relations|
      ensures r.relations[i].tag.id != r.relations[j].tag.id
    {
      assert r.relations[i] == img.relations[i];
      if j == |img.relations| {
        assert r.relations[j] == Relation(tag, score);
      } else {
        assert r.relations[j] == img.relations[j];
      }
    }
  }

  /** Unlinking a tag keeps the remaining tags unique. */
  lemma DeleteTagKeepsUnique(img: Image, tag: Tag)
    requires UniqueTags(img)
    ensures UniqueTags(DeleteTag(img, tag))
  {
    FilterKeepsDistinct(img.relations, (rel: Relation) => rel.tag.id != tag.id, TagIdOf);
  }

  /** Unlinking depends only on the tag's id. */
  lemma DeleteTagById(img: Image, a: Tag, b: Tag)
    requires a.id == b.id
    ensures DeleteTag(img, a) == DeleteTag(img, b)
  {
    FilterExt(img.relations, (rel: Relation) => rel.tag.id != a.id, (rel: Relation) => rel.tag.id != b.id);
  }

  /** Deleting a tag that was just added to an image lacking it restores the image. */
  lemma {:induction false} DeleteUndoesAdd(img: Image, tag: Tag, score: real)
    requires !HasTag(img, tag.id)
    ensures DeleteTag(AddTag(img, tag, score), tag) == img
  {
    var p := (rel: Relation) => rel.tag.id != tag.id;
    FilterConcat(img.relations, [Relation(tag, score)], p);
    FilterAll(img.relations, p);
    assert Filter([Relation(tag, score)], p) == [];
  }

  /** Deleting the same tag twice is deleting it once. */
  lemma {:induction false} DeleteTagIdempotent(img: Image, tag: Tag)
    ensures DeleteTag(DeleteTag(img, tag), tag) == DeleteTag(img, tag)
  {
    var p := (rel: Relation) => rel.tag.id != tag.id;
    FilterFilter(img.relations, p, p, p);
  }
}
