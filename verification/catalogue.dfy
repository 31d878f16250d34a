/** The catalogue service of the `image` module (`image/service/ImageService`):
    the image table keyed by id, the tag table, and the object store as the set
    of object names it holds. */
module Catalogue {
  import opened Common
  import opened Strings
  import opened Seqs
  import opened ImageEntity
  import opened TagTable

  datatype Catalogue = Catalogue(images: map<int, Image>, tags: Tags, objects: set<string>, nextImageId: int)

  /** Every row sits under its own id, issued before `nextImageId`, and links
      no tag twice. */
  predicate Valid(c: Catalogue) {
    && (forall k :: k in c.images ==> c.images[k].id == k && k < c.nextImageId && UniqueTags(c.images[k]))
    && TagTable.Valid(c.tags)
  }

  /** The unique constraint on the hash column. */
  predicate UniqueHashes(c: Catalogue) {
    forall a, b :: a in c.images && b in c.images && c.images[a].hash == c.images[b].hash ==> a == b
  }

  const ImageNotFound := "找不到图片"

  /** The database's refusal of a second relation between one image and one
      tag, under the unique (image_id, tag_id) constraint. */
  const DuplicateRelation := "duplicate key value violates unique constraint (image_id, tag_id) of image_tag_relation"

  /** The object key of an image's original file. */
  function OriginalKey(hash: string): string {
    "original/" + hash
  }

  function Hashes(c: Catalogue): set<string> {
    set k | k in c.images :: c.images[k].hash
  }

  /** `existImageByHash`: some row carries the hash. */
  function ExistImageByHash(c: Catalogue, hash: string): (r: bool)
    ensures r <==> exists k :: k in c.images && c.images[k].hash == hash
  {
    hash in Hashes(c)
  }

  /** `addImage`: the row is saved under a newly issued id. */
  function AddImage(c: Catalogue, img: Image): (r: (int, Catalogue))
    ensures r.0 !in c.images || !Valid(c)
    ensures r.1.images == c.images[r.0 := img.(id := r.0)]
    ensures r.1.tags == c.tags && r.1.objects == c.objects
    ensures Valid(c) && UniqueTags(img) ==> Valid(r.1)
    ensures ExistImageByHash(r.1, img.hash)
  {
    var id := c.nextImageId;
    var saved := img.(id := id);
    var r := (id, c.(images := c.images[id := saved], nextImageId := id + 1));
    assert r.1.images[id].hash == img.hash;
    r
  }

  /** Adding an image whose hash is not yet stored keeps hashes unique. */
  lemma AddImageKeepsUnique(c: Catalogue, img: Image)
    requires Valid(c) && UniqueHashes(c) && !ExistImageByHash(c, img.hash)
    ensures UniqueHashes(AddImage(c, img).1)
  {
    var (id, c1) := AddImage(c, img);
    forall a, b | a in c1.images && b in c1.images && c1.images[a].hash == c1.images[b].hash
      ensures a == b
    {
      if a != id && b != id {
        assert c1.images[a] == c.images[a] && c1.images[b] == c.images[b];
      }
    }
  }

  /** `imageRepository.findById(...).orElseThrow(...)`. */
  function FindImage(c: Catalogue, id: int): (r: Result<Image>)
    ensures r.Ok? <==> id in c.images
    ensures r.Ok? ==> r.value == c.images[id]
    ensures r.Err? ==> r.failure == Runtime(ImageNotFound)
  {
    if id in c.images then Ok(c.images[id]) else Err(Runtime(ImageNotFound))
  }

  /** The answer `imageMapper.toDto` builds: the saved row with the object
      keys behind its two URLs and the original's download name. */
  datatype ImageDto = ImageDto(image: Image, imageKey: string, downloadName: string, thumbnailKey: string)

  /** A DTO and the catalogue after the call that returned it. */
  datatype Saved = Saved(dto: ImageDto, catalogue: Catalogue)

  /** Whether `toDto` can render an image with this hash: the original is
      stored, the thumbnail size is read, and the thumbnail exists or is
      generated. */
  predicate Renders(objects: set<string>, hash: string, size: Result<int>, generated: Outcome) {
    OriginalKey(hash) in objects && size.Ok? && (ThumbnailKey(size.value, hash) in objects || generated.Done?)
  }

  /** `imageMapper.toDto`: the image URL, then the thumbnail URL, in the
      order of the DTO's properties. `size` is the thumbnail-size setting as
      read, and `generated` the outcome of rendering a missing thumbnail. */
  function ToDto(c: Catalogue, img: Image, size: Result<int>, generated: Outcome): (r: Result<Saved>)
    ensures r.Ok? <==> Renders(c.objects, img.hash, size, generated)
    ensures OriginalKey(img.hash) !in c.objects ==> r == Err(Runtime("文件不存在: " + OriginalKey(img.hash)))
    ensures OriginalKey(img.hash) in c.objects && size.Err? ==> r == Err(size.failure)
    ensures r.Ok? ==> r.value.catalogue == c.(objects := c.objects + {ThumbnailKey(size.value, img.hash)})
    ensures r.Ok? ==> r.value.dto == ImageDto(img, OriginalKey(img.hash), IntToString(img.id) + "_" + img.title + "." + img.extension,
                                              ThumbnailKey(size.value, img.hash))
  {
    var url :- ImageUrl(c, img);
    var s :- size;
    var thumb :- Thumbnail(c, s, img, generated);
    Ok(Saved(ImageDto(img, url.0, url.1, thumb.0), thumb.1))
  }

  /** `addTag(id, tagId)`: link the tag to the image with score 1.0 and
      answer the saved row as a DTO. The image is looked up before the tag.
      A new relation is added even when the image already has the tag, and
      the database refuses it on saving. Any failure, of the save or of the
      DTO, rolls the transaction back, so an error leaves the catalogue as it
      was; a thumbnail uploaded on success stays. */
  function AddTag(c: Catalogue, id: int, tagId: int, size: Result<int>, generated: Outcome): (r: Result<Saved>)
    ensures id !in c.images ==> r == Err(Runtime(ImageNotFound))
    ensures id in c.images && GetTagById(c.tags, tagId).Err? ==>
              r == Err(Runtime(TagTable.NotFoundMessage(IntToString(tagId))))
    ensures id in c.images && GetTagById(c.tags, tagId).Ok? && HasTag(c.images[id], tagId) ==>
              r == Err(DataIntegrity(DuplicateRelation))
    ensures id in c.images ==>
              (r.Ok? <==> GetTagById(c.tags, tagId).Ok? && !HasTag(c.images[id], tagId)
                          && Renders(c.objects, c.images[id].hash, size, generated))
    ensures id in c.images && GetTagById(c.tags, tagId).Ok? && !HasTag(c.images[id], tagId)
            && OriginalKey(c.images[id].hash) !in c.objects ==>
              r == Err(Runtime("文件不存在: " + OriginalKey(c.images[id].hash)))
    ensures Valid(c) && r.Ok? ==> Valid(r.value.catalogue)
    ensures r.Ok? ==>
              var after := r.value.catalogue;
              && id in c.images && id in after.images
              && after.images.Keys == c.images.Keys
              && (forall k :: k in c.images && k != id ==> after.images[k] == c.images[k])
              && SameColumns(after.images[id], c.images[id])
              && HasTag(after.images[id], tagId)
              && multiset(after.images[id].relations)
                 == multiset(c.images[id].relations) + multiset{Relation(GetTagById(c.tags, tagId).value, 1.0)}
              && after.tags == c.tags && after.nextImageId == c.nextImageId
              && after.objects == c.objects + {ThumbnailKey(size.value, c.images[id].hash)}
              && r.value.dto.image == after.images[id]
  {
    var img :- FindImage(c, id);
    var tag :- GetTagById(c.tags, tagId);
    if HasTag(img, tagId) then Err(DataIntegrity(DuplicateRelation))
    else
      var linked := ImageEntity.AddTag(img, tag, 1.0);
      assert Valid(c) ==> UniqueTags(linked) by {
        if Valid(c) {
          AddTagKeepsUnique(img, tag, 1.0);
        }
      }
      ToDto(c.(images := c.images[id := linked]), linked, size, generated)
  }

  /** `removeTag(id, tagId)` as written: the predicate is applied to the list
      that `Image.getTags()` builds afresh, so the image's relations are left
      as they were. The row is then answered as a DTO, which fails when the
      original is missing and may upload a thumbnail. */
  function RemoveTagAsWritten(c: Catalogue, id: int, tagId: int, size: Result<int>, generated: Outcome): (r: Result<Saved>)
    ensures id !in c.images ==> r == Err(Runtime(ImageNotFound))
    ensures id in c.images ==> (r.Ok? <==> Renders(c.objects, c.images[id].hash, size, generated))
    ensures id in c.images && OriginalKey(c.images[id].hash) !in c.objects ==>
              r == Err(Runtime("文件不存在: " + OriginalKey(c.images[id].hash)))
    ensures r.Ok? ==> id in c.images && r.value.dto.image == c.images[id]
    ensures r.Ok? ==> r.value.catalogue == c.(objects := c.objects + {ThumbnailKey(size.value, c.images[id].hash)})
  {
    var img :- FindImage(c, id);
    var views := Filter(GetTags(img), (v: TagView) => v.id != tagId);
    ToDto(c, img, size, generated)
  }

  /** `removeTag(id, tagId)` as intended: unlink every relation of the image
      to that tag, leaving every other relation and every other image alone,
      then answer the row as a DTO. */
  function RemoveTag(c: Catalogue, id: int, tagId: int, size: Result<int>, generated: Outcome): (r: Result<Saved>)
    ensures id !in c.images ==> r == Err(Runtime(ImageNotFound))
    ensures id in c.images ==> (r.Ok? <==> Renders(c.objects, c.images[id].hash, size, generated))
    ensures id in c.images && OriginalKey(c.images[id].hash) !in c.objects ==>
              r == Err(Runtime("文件不存在: " + OriginalKey(c.images[id].hash)))
    ensures r.Ok? ==>
              var after := r.value.catalogue;
              && id in c.images
              && after.images.Keys == c.images.Keys
              && (forall k :: k in c.images && k != id ==> after.images[k] == c.images[k])
              && SameColumns(after.images[id], c.images[id])
              && !HasTag(after.images[id], tagId)
              && (forall i :: 0 <= i < |c.images[id].relations| && c.images[id].relations[i].tag.id != tagId ==>
                    c.images[id].relations[i] in after.images[id].relations)
              && (forall i :: 0 <= i < |after.images[id].relations| ==>
                    after.images[id].relations[i] in c.images[id].relations)
              && after.tags == c.tags && after.nextImageId == c.nextImageId
              && after.objects == c.objects + {ThumbnailKey(size.value, c.images[id].hash)}
              && r.value.dto.image == after.images[id]
    ensures Valid(c) && r.Ok? ==> Valid(r.value.catalogue)
  {
    var img :- FindImage(c, id);
    var tag := Tag(tagId, "", "");
    var unlinked := DeleteTag(img, tag);
    assert Valid(c) ==> UniqueTags(unlinked) by {
      if Valid(c) {
        DeleteTagKeepsUnique(img, tag);
      }
    }
    ToDto(c.(images := c.images[id := unlinked]), unlinked, size, generated)
  }

  /** Overwriting an entry and then writing its old value back restores the map. */
  lemma Restore<K, V>(m: map<K, V>, k: K, v: V)
    requires k in m
    ensures m[k := v][k := m[k]] == m
  {
  }

  /** Removing, as intended, a tag that was just added succeeds and gives
      the catalogue back, apart from the thumbnail the first answer may
      have generated; with the thumbnail already stored it is the catalogue
      itself. */
  lemma RemoveUndoesAddTag(c: Catalogue, id: int, tagId: int, size: Result<int>, first: Outcome, second: Outcome)
    requires AddTag(c, id, tagId, size, first).Ok?
    ensures var c1 := AddTag(c, id, tagId, size, first).value.catalogue;
            && RemoveTag(c1, id, tagId, size, second).Ok?
            && RemoveTag(c1, id, tagId, size, second).value.catalogue
               == c.(objects := c.objects + {ThumbnailKey(size.value, c.images[id].hash)})
  {
    var img := c.images[id];
    var tag := GetTagById(c.tags, tagId).value;
    var linked := ImageEntity.AddTag(img, tag, 1.0);
    var thumb := ThumbnailKey(size.value, img.hash);
    var c1 := c.(images := c.images[id := linked], objects := c.objects + {thumb});
    assert AddTag(c, id, tagId, size, first).value.catalogue == c1;
    DeleteUndoesAdd(img, tag, 1.0);
    DeleteTagById(linked, tag, Tag(tagId, "", ""));
    assert FindImage(c1, id) == Ok(linked);
    assert c1.objects + {thumb} == c1.objects;
    var r := RemoveTag(c1, id, tagId, size, second);
    assert r.value.catalogue == c1.(images := c1.images[id := img]);
    Restore(c.images, id, linked);
  }

  /** The discrepancy: on an image that carries the tag, the code as written
      still reports the tag afterwards whenever it answers, whereas the
      intended removal does not; both answer under the same conditions. */
  lemma RemoveTagAsWrittenKeepsTag(c: Catalogue, id: int, tagId: int, size: Result<int>, generated: Outcome)
    requires id in c.images && HasTag(c.images[id], tagId)
    ensures RemoveTagAsWritten(c, id, tagId, size, generated).Ok? <==> RemoveTag(c, id, tagId, size, generated).Ok?
    ensures RemoveTagAsWritten(c, id, tagId, size, generated).Ok? ==>
              HasTag(RemoveTagAsWritten(c, id, tagId, size, generated).value.catalogue.images[id], tagId)
    ensures RemoveTag(c, id, tagId, size, generated).Ok? ==>
              !HasTag(RemoveTag(c, id, tagId, size, generated).value.catalogue.images[id], tagId)
  {
  }

  /** `deleteImage(id)`: delete the original object, then the row. */
  function DeleteImage(c: Catalogue, id: int): (r: Result<Catalogue>)
    ensures id !in c.images <==> r.Err?
    ensures r.Err? ==> r.failure == Runtime(ImageNotFound)
    ensures r.Ok? ==>
              && r.value.images == c.images - {id}
              && r.value.objects == c.objects - {OriginalKey(c.images[id].hash)}
              && r.value.tags == c.tags
  {
    var img :- FindImage(c, id);
    Ok(c.(objects := c.objects - {OriginalKey(img.hash)}, images := c.images - {id}))
  }

  function DeleteFailure(id: int, f: Failure): Failure {
    Runtime("删除图片失败 (ID: " + IntToString(id) + "): " + MessageText(f))
  }

  /** The effect of deleting the ids one after the other up to the first
      failure: the catalogue reached, and the id that failed with its cause. */
  datatype Progress = Progress(reached: Catalogue, failedAt: Option<(int, Failure)>)

  function DeleteEach(c: Catalogue, ids: seq<int>): (r: Progress)
    ensures r.reached.tags == c.tags
    ensures r.reached.images.Keys <= c.images.Keys && r.reached.objects <= c.objects
    ensures r.failedAt.None? ==> r.reached.images == c.images - set i | i in ids
    ensures r.failedAt.Some? ==> r.failedAt.value.0 in ids && r.failedAt.value.0 !in r.reached.images
    ensures r.failedAt.Some? ==> r.failedAt.value.1 == Runtime(ImageNotFound)
    decreases |ids|
  {
    if |ids| == 0 then Progress(c, None)
    else
      match DeleteImage(c, ids[0])
      case Err(f) => Progress(c, Some((ids[0], f)))
      case Ok(c1) =>
        var r := DeleteEach(c1, ids[1..]);
        assert forall i :: i in ids <==> i == ids[0] || i in ids[1..];
        r
  }

  /** `deleteImages(ids)`: delete one by one and stop at the first id that
      fails. The method is one transaction: on failure the rows come back,
      but the object deletions already made stay made. */
  function DeleteImages(c: Catalogue, ids: seq<int>): (r: (Catalogue, Outcome))
    ensures r.1.Done? ==> r.0.images == c.images - set i | i in ids
    ensures r.1.Failed? ==> r.0.images == c.images
    ensures r.1.Failed? ==> exists i :: i in ids && r.1.failure == DeleteFailure(i, Runtime(ImageNotFound))
    ensures r.0.tags == c.tags && r.0.objects <= c.objects
    ensures (forall i :: i in ids ==> i !in c.images) && ids != [] ==> r.1.Failed?
  {
    var p := DeleteEach(c, ids);
    match p.failedAt
    case None => (p.reached, Done)
    case Some((id, f)) => (p.reached.(images := c.images), Failed(DeleteFailure(id, f)))
  }

  /** Deleting a list of distinct stored ids succeeds and removes exactly those rows. */
  lemma {:induction false} DeleteDistinctStored(c: Catalogue, ids: seq<int>)
    requires forall i :: 0 <= i < |ids| ==> ids[i] in c.images
    requires forall i, j :: 0 <= i < j < |ids| ==> ids[i] != ids[j]
    ensures DeleteEach(c, ids).failedAt.None?
    decreases |ids|
  {
    if |ids| > 0 {
      var c1 := DeleteImage(c, ids[0]).value;
      assert forall i :: 0 <= i < |ids[1..]| ==> ids[1..][i] == ids[i + 1] && ids[i + 1] != ids[0];
      DeleteDistinctStored(c1, ids[1..]);
    }
  }

  /** `getImageUrl`: the object key and the download file name, or a failure
      when the original object is missing. */
  function ImageUrl(c: Catalogue, img: Image): (r: Result<(string, string)>)
    ensures r.Ok? <==> OriginalKey(img.hash) in c.objects
    ensures r.Err? ==> r.failure == Runtime("文件不存在: " + OriginalKey(img.hash))
    ensures r.Ok? ==> r.value.0 == OriginalKey(img.hash)
    ensures r.Ok? ==> r.value.1 == IntToString(img.id) + "_" + img.title + "." + img.extension
  {
    var key := OriginalKey(img.hash);
    if key !in c.objects then Err(Runtime("文件不存在: " + key))
    else Ok((key, IntToString(img.id) + "_" + img.title + "." + img.extension))
  }

  /** The object key of an image's thumbnail at a size. */
  function ThumbnailKey(size: int, hash: string): string {
    "thumbnail/" + IntToString(size) + "/" + hash
  }

  /** `getThumbnailUrl`: the thumbnail key, generated and uploaded only when
      absent; `generated` is the outcome of rendering and uploading it. */
  function Thumbnail(c: Catalogue, size: int, img: Image, generated: Outcome): (r: Result<(string, Catalogue)>)
    ensures ThumbnailKey(size, img.hash) in c.objects ==> r == Ok((ThumbnailKey(size, img.hash), c))
    ensures r.Ok? ==> r.value.0 == ThumbnailKey(size, img.hash) && r.value.0 in r.value.1.objects
    ensures r.Ok? ==> r.value.1 == c.(objects := c.objects + {r.value.0})
    ensures r.Err? <==> ThumbnailKey(size, img.hash) !in c.objects && generated.Failed?
    ensures r.Err? ==> r.failure == Runtime("生成缩略图失败: " + MessageText(generated.failure))
  {
    var key := ThumbnailKey(size, img.hash);
    if key in c.objects then Ok((key, c))
    else
      match generated
      case Failed(f) => Err(Runtime("生成缩略图失败: " + MessageText(f)))
      case Done => Ok((key, c.(objects := c.objects + {key})))
  }

  /** A thumbnail once made is never generated again. */
  lemma ThumbnailOnce(c: Catalogue, size: int, img: Image, first: Outcome, second: Outcome)
    requires Thumbnail(c, size, img, first).Ok?
    ensures var c1 := Thumbnail(c, size, img, first).value.1;
            Thumbnail(c1, size, img, second) == Ok((ThumbnailKey(size, img.hash), c1))
  {
  }
}
