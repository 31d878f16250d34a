/** The upload worker of the `gallery` module (`UploadTaskService`): one
    iteration of its processing loop takes a task id from the queue, runs the
    task's pipeline and settles the task as done or failed. Everything outside
    the service (object store calls, reading the temporary file, ImageIO, the
    tagging and embedding services) answers through an `Answers` record. */
module UploadWorker {
  import opened Common
  import opened Strings
  import opened ImageEntity
  import opened FileUtils
  import opened ImageInfo
  import opened TaskQueue
  import TagTable
  import Catalogue

  /** The pipeline's stages in the order `processTask` runs them. */
  datatype Stage = StoreTemp | Hash | Dedup | Inspect | Tagging | Embedding | Save | Archive

  const Pipeline: seq<Stage> := [StoreTemp, Hash, Dedup, Inspect, Tagging, Embedding, Save, Archive]

  /** What the outside world answers, for one task, at each stage. */
  datatype Answers = Answers(
    /** Uploading the temporary file as an object. */
    upload: Outcome,
    /** Reading the temporary file for hashing. */
    content: Result<seq<JavaByte>>,
    /** The file and decoder as `ImageInfo` finds them. */
    file: FileEntry,
    probe: Probe,
    /** The tag-threshold setting and the tagging call together: the returned
        map's entries in iteration order. */
    tags: Result<seq<(string, real)>>,
    embedding: Result<seq<real>>,
    /** What the database throws when a not-null column of the row is null. */
    rejected: Failure,
    /** Copying the temporary object to its archive key. */
    archive: Outcome,
    /** Deleting the temporary object; a failure here is swallowed. */
    cleanup: Outcome)

  const HashMessage := "计算哈希失败"
  const AnimatedMessage := "暂不支持动图"

  function DuplicateMessage(hash: string): string {
    "图片已存在 (Hash: " + hash + ")"
  }

  /** The exception `processTask` throws for any failure inside its pipeline. */
  function Wrap(f: Failure): Failure {
    Runtime("处理图片失败: " + MessageText(f))
  }

  /** The object key of the temporary upload. */
  function TempKey(id: string): string {
    "temp/upload/" + id
  }

  /** A temporary key never names an archived original. */
  lemma TempKeyNotOriginal(id: string, hash: string)
    ensures TempKey(id) != Catalogue.OriginalKey(hash)
  {
    assert TempKey(id)[0] == 't' && Catalogue.OriginalKey(hash)[0] == 'o';
  }

  function Max(a: int, b: int): int {
    if a < b then b else a
  }

  /** Commons IO `FilenameUtils.getName`: the part after the last '/' or '\'. */
  function FileName(path: string): (r: string)
    ensures '/' !in r && '\\' !in r
    ensures |r| <= |path| && path[|path| - |r|..] == r
    ensures '/' !in path && '\\' !in path ==> r == path
  {
    var a := LastIndexOf(path, '/');
    var b := LastIndexOf(path, '\\');
    var k := Max(a, b);
    NotAfter(path, '/', a, k);
    NotAfter(path, '\\', b, k);
    path[k + 1..]
  }

  /** A character absent after position `a` is absent after any later `k`. */
  lemma NotAfter(s: string, c: char, a: int, k: int)
    requires -1 <= a <= k < |s| && c !in s[a + 1..]
    ensures c !in s[k + 1..]
  {
    assert s[k + 1..] == s[a + 1..][k - a..];
  }

  /** Commons IO `FilenameUtils.getBaseName`: the file name without its
      directories and without the suffix from its last '.'. */
  function BaseName(filename: Option<string>): (r: Option<string>)
    ensures r.None? <==> filename.None?
    ensures r.Some? && '.' !in FileName(filename.value) ==> r.value == FileName(filename.value)
    ensures r.Some? && '.' in FileName(filename.value) ==>
              var n := FileName(filename.value);
              && |r.value| < |n|
              && n[..|r.value|] == r.value
              && n[|r.value|] == '.'
              && '.' !in n[|r.value| + 1..]
  {
    match filename
    case None => None
    case Some(f) =>
      var n := FileName(f);
      var k := LastIndexOf(n, '.');
      if k == -1 then Some(n) else Some(n[..k])
  }

  /** `calculateHash`: the SHA-256 digest of the content in lowercase hex. */
  function HashOf(content: Result<seq<JavaByte>>, sha256: seq<JavaByte> -> seq<JavaByte>): (r: Result<string>)
    ensures r.Err? <==> content.Err?
    ensures r.Err? ==> r.failure == Runtime(HashMessage)
    ensures r.Ok? ==> r.value == HexString(sha256(content.value))
    ensures r.Ok? ==> ParseHex(r.value) == sha256(content.value)
  {
    match content
    case Err(_) => Err(Runtime(HashMessage))
    case Ok(bytes) =>
      ParseHexString(sha256(bytes));
      Ok(HexString(sha256(bytes)))
  }

  /** Link the tags named by the entries, in order, each with its score; the
      first name unknown to the tag table fails the whole save. */
  function Link(img: Image, entries: seq<(string, real)>, tags: TagTable.Tags): (r: Result<Image>)
    ensures r.Ok? <==> forall i :: 0 <= i < |entries| ==> TagTable.GetTagByName(tags, entries[i].0).Ok?
    ensures r.Err? ==> exists i :: 0 <= i < |entries| && TagTable.GetTagByName(tags, entries[i].0).Err?
                                   && r.failure == Runtime(TagTable.NotFoundMessage(entries[i].0))
    ensures r.Ok? ==> Linked(r.value, img, entries, tags)
    decreases |entries|
  {
    if |entries| == 0 then
      assert img.relations[..|img.relations|] == img.relations;
      Ok(img)
    else
      var tag :- TagTable.GetTagByName(tags, entries[0].0);
      var next := ImageEntity.AddTag(img, tag, entries[0].1);
      var r := Link(next, entries[1..], tags);
      assert r.Ok? ==> Linked(r.value, img, entries, tags) by {
        if r.Ok? {
          LinkedStep(img, next, r.value, entries, tags);
        }
      }
      assert forall i :: 1 <= i < |entries| ==> entries[i] == entries[1..][i - 1];
      r
  }

  /** `r` is `img` with one relation appended per entry, in order, to the tag
      the entry names and with its score; nothing else of the row differs. */
  predicate Linked(r: Image, img: Image, entries: seq<(string, real)>, tags: TagTable.Tags) {
    && SameColumns(r, img)
    && |r.relations| == |img.relations| + |entries|
    && r.relations[..|img.relations|] == img.relations
    && forall i :: 0 <= i < |entries| ==>
         && TagTable.GetTagByName(tags, entries[i].0).Ok?
         && r.relations[|img.relations| + i] == Relation(TagTable.GetTagByName(tags, entries[i].0).value, entries[i].1)
  }

  /** Linking the first entry, then the rest, links them all. */
  lemma LinkedStep(img: Image, next: Image, r: Image, entries: seq<(string, real)>, tags: TagTable.Tags)
    requires |entries| > 0 && TagTable.GetTagByName(tags, entries[0].0).Ok?
    requires next == ImageEntity.AddTag(img, TagTable.GetTagByName(tags, entries[0].0).value, entries[0].1)
    requires Linked(r, next, entries[1..], tags)
    ensures Linked(r, img, entries, tags)
  {
    var n := |img.relations|;
    assert next.relations == img.relations + [Relation(TagTable.GetTagByName(tags, entries[0].0).value, entries[0].1)];
    assert r.relations[..n] == r.relations[..n + 1][..n];
    assert r.relations[n] == r.relations[..n + 1][n];
    forall i | 1 <= i < |entries|
      ensures && TagTable.GetTagByName(tags, entries[i].0).Ok?
              && r.relations[n + i] == Relation(TagTable.GetTagByName(tags, entries[i].0).value, entries[i].1)
    {
      assert entries[i] == entries[1..][i - 1];
      assert r.relations[n + i] == r.relations[n + 1 + (i - 1)];
    }
  }

  /** The new row before its tags are linked; a null file name or size is
      replaced by a placeholder, as such a row is never saved. */
  function Row(task: UploadTask, info: Info, hash: string, embedding: seq<real>): (r: Image)
    ensures task.filename.Some? ==> Some(r.title) == BaseName(task.filename) && r.fileName == task.filename.value
    ensures task.size.Some? ==> r.size == task.size.value
    ensures r.extension == info.extension && r.width == info.width && r.height == info.height
    ensures r.hash == hash && r.embedding == Some(embedding)
    ensures r.viewCount == 0 && r.relations == []
  {
    NewImage(0, BaseName(task.filename).GetOr(""), task.filename.GetOr(""), info.extension, task.size.GetOr(0),
             info.width, info.height, hash, Some(embedding))
  }

  /** Linking to an image without tags gives one relation per entry, named
      and scored as the entry says. */
  lemma LinkedNames(img: Image, entries: seq<(string, real)>, tags: TagTable.Tags)
    requires img.relations == [] && Link(img, entries, tags).Ok?
    ensures var r := Link(img, entries, tags).value;
            && |r.relations| == |entries|
            && forall i :: 0 <= i < |entries| ==>
                 r.relations[i].tag.name == entries[i].0 && r.relations[i].score == entries[i].1
  {
    var r := Link(img, entries, tags).value;
    assert Linked(r, img, entries, tags);
  }

  /** The saved row carries what `saveImageMetadata` copies into it: the base
      name as title, the task's file name and size, the detected extension and
      dimensions, the hash, the embedding, no views, and one relation per
      tagger entry, in order, named and scored as the entry says. */
  predicate RowFor(img: Image, task: UploadTask, info: Info, hash: string, embedding: seq<real>,
                   entries: seq<(string, real)>) {
    && task.filename.Some? && task.size.Some?
    && Some(img.title) == BaseName(task.filename)
    && img.fileName == task.filename.value
    && img.extension == info.extension
    && img.size == task.size.value
    && img.width == info.width && img.height == info.height
    && img.hash == hash
    && img.embedding == Some(embedding)
    && img.viewCount == 0
    && |img.relations| == |entries|
    && forall i :: 0 <= i < |entries| ==>
         img.relations[i].tag.name == entries[i].0 && img.relations[i].score == entries[i].1
  }

  /** `saveImageMetadata`: build the row from the task, the image facts, the
      hash and the embedding, link the returned tags, and save it. */
  function SaveImageMetadata(task: UploadTask, info: Info, hash: string, embedding: seq<real>,
                             entries: seq<(string, real)>, c: Catalogue.Catalogue, rejected: Failure): (r: Result<(int, Catalogue.Catalogue)>)
    ensures r.Ok? <==>
              && (forall i :: 0 <= i < |entries| ==> TagTable.GetTagByName(c.tags, entries[i].0).Ok?)
              && task.filename.Some? && task.size.Some?
    ensures r.Err? && (forall i :: 0 <= i < |entries| ==> TagTable.GetTagByName(c.tags, entries[i].0).Ok?) ==>
              r.failure == rejected
    ensures r.Ok? ==>
              && r.value.0 in r.value.1.images
              && r.value == Catalogue.AddImage(c, r.value.1.images[r.value.0])
              && r.value.1.images[r.value.0].id == r.value.0
              && RowFor(r.value.1.images[r.value.0], task, info, hash, embedding, entries)
  {
    var blank := Row(task, info, hash, embedding);
    var linked :- Link(blank, entries, c.tags);
    if task.filename.None? || task.size.None? then Err(rejected)
    else
      var (id, c2) := Catalogue.AddImage(c, linked);
      assert c2.images[id] == linked.(id := id);
      LinkedNames(blank, entries, c.tags);
      Ok((id, c2))
  }

  /** The state reached by the pipeline: the catalogue (rows and objects), the
      stages started in order, and the failure that ended it, if any. */
  datatype Run = Run(catalogue: Catalogue.Catalogue, trace: seq<Stage>, failure: Option<Failure>)

  /** The stages after the hash is known and is new. */
  function Inspected(task: UploadTask, hash: string, c: Catalogue.Catalogue, a: Answers): (r: Run)
    ensures Pipeline[..4] <= r.trace <= Pipeline
    ensures r.failure.None? ==> r.trace == Pipeline
    ensures |r.trace| < 7 ==> r.catalogue == c && r.failure.Some?
    ensures |r.trace| >= 7 ==> Read(a.file, a.probe).Ok? && !Read(a.file, a.probe).value.isAnimated
    ensures (Read(a.file, a.probe).Err? || Read(a.file, a.probe).value.isAnimated) ==> r.trace == Pipeline[..4]
    ensures Read(a.file, a.probe).Ok? && Read(a.file, a.probe).value.isAnimated ==>
              r.failure == Some(UnsupportedOperation(AnimatedMessage))
    ensures |r.trace| == 8 ==>
              && a.tags.Ok? && a.embedding.Ok?
              && SaveImageMetadata(task, Read(a.file, a.probe).value, hash, a.embedding.value, a.tags.value, c, a.rejected).Ok?
              && var c2 := SaveImageMetadata(task, Read(a.file, a.probe).value, hash, a.embedding.value, a.tags.value, c, a.rejected).value.1;
                 && (a.archive.Failed? ==> r.catalogue == c2 && r.failure == Some(a.archive.failure))
                 && (a.archive.Done? ==> r.catalogue == c2.(objects := c2.objects + {Catalogue.OriginalKey(hash)}) && r.failure.None?)
  {
    match Read(a.file, a.probe)
    case Err(f) => Run(c, Pipeline[..4], Some(f))
    case Ok(info) =>
      if info.isAnimated then Run(c, Pipeline[..4], Some(UnsupportedOperation(AnimatedMessage)))
      else
        match a.tags
        case Err(f) => Run(c, Pipeline[..5], Some(f))
        case Ok(entries) =>
          match a.embedding
          case Err(f) => Run(c, Pipeline[..6], Some(f))
          case Ok(embedding) =>
            match SaveImageMetadata(task, info, hash, embedding, entries, c, a.rejected)
            case Err(f) => Run(c, Pipeline[..7], Some(f))
            case Ok((_, c2)) =>
              match a.archive
              case Failed(f) => Run(c2, Pipeline, Some(f))
              case Done => Run(c2.(objects := c2.objects + {Catalogue.OriginalKey(hash)}), Pipeline, None)
  }

  /** The body of the `try` in `processTask`. */
  function Pipelined(task: UploadTask, c: Catalogue.Catalogue, a: Answers, sha256: seq<JavaByte> -> seq<JavaByte>): (r: Run)
    ensures 1 <= |r.trace| && r.trace <= Pipeline
    ensures r.failure.None? ==> r.trace == Pipeline
    ensures a.upload.Failed? ==> r == Run(c, [StoreTemp], Some(a.upload.failure))
    ensures a.upload.Done? && a.content.Err? ==>
              r == Run(c.(objects := c.objects + {TempKey(task.id)}), Pipeline[..2], Some(Runtime(HashMessage)))
    ensures a.upload.Done? && a.content.Ok? ==>
              var hash := HashOf(a.content, sha256).value;
              var c1 := c.(objects := c.objects + {TempKey(task.id)});
              && (Catalogue.ExistImageByHash(c, hash) ==> r == Run(c1, Pipeline[..3], Some(Runtime(DuplicateMessage(hash)))))
              && (!Catalogue.ExistImageByHash(c, hash) ==> r == Inspected(task, hash, c1, a))
  {
    match a.upload
    case Failed(f) => Run(c, [StoreTemp], Some(f))
    case Done =>
      var c1 := c.(objects := c.objects + {TempKey(task.id)});
      match HashOf(a.content, sha256)
      case Err(f) => Run(c1, Pipeline[..2], Some(f))
      case Ok(hash) =>
        assert Catalogue.Hashes(c1) == Catalogue.Hashes(c);
        if Catalogue.ExistImageByHash(c1, hash) then Run(c1, Pipeline[..3], Some(Runtime(DuplicateMessage(hash))))
        else Inspected(task, hash, c1, a)
  }

  /** `processTask`, with its `finally`: the local temporary file is deleted
      and deletion of the temporary object is attempted, whatever happened.
      A null temporary path fails before the `try`, with nothing to clean up. */
  datatype Processed = Processed(catalogue: Catalogue.Catalogue, localFiles: set<string>, trace: seq<Stage>, failure: Option<Failure>)

  function Process(task: UploadTask, c: Catalogue.Catalogue, localFiles: set<string>, a: Answers,
                   sha256: seq<JavaByte> -> seq<JavaByte>): (r: Processed)
    ensures task.tempFilePath.None? ==> r == Processed(c, localFiles, [], Some(ThrownNullPointer))
    ensures task.tempFilePath.Some? ==>
              var run := Pipelined(task, c, a, sha256);
              && r.localFiles == localFiles - {task.tempFilePath.value}
              && r.trace == run.trace
              && r.catalogue.images == run.catalogue.images
              && (a.cleanup.Done? ==> r.catalogue.objects == run.catalogue.objects - {TempKey(task.id)})
              && (a.cleanup.Failed? ==> r.catalogue.objects == run.catalogue.objects)
              && (run.failure.None? <==> r.failure.None?)
              && (run.failure.Some? ==> r.failure == Some(Wrap(run.failure.value)))
  {
    match task.tempFilePath
    case None => Processed(c, localFiles, [], Some(ThrownNullPointer))
    case Some(path) =>
      var run := Pipelined(task, c, a, sha256);
      var objects := if a.cleanup.Done? then run.catalogue.objects - {TempKey(task.id)} else run.catalogue.objects;
      var failure := if run.failure.Some? then Some(Wrap(run.failure.value)) else None;
      Processed(run.catalogue.(objects := objects), localFiles - {path}, run.trace, failure)
  }

  /** The worker's view of the system: the queue, the catalogue, the local
      temporary files and the task being processed (`processingTask`). */
  datatype World = World(queue: Queue, catalogue: Catalogue.Catalogue, localFiles: set<string>, processing: Option<UploadTask>)

  /** The first half of an iteration: nothing was taken, or an id was taken
      and its payload is now the task being processed. */
  datatype Dequeued = Idle(world: World) | Started(id: string, task: UploadTask, world: World)

  function Begin(w: World): (r: Dequeued)
    ensures TakeTask(w.queue).0.None? ==> r == Idle(w)
    ensures TakeTask(w.queue).0.Some? && TakeTask(w.queue).0.value !in w.queue.data ==>
              r == Idle(w.(queue := TakeTask(w.queue).1))
    ensures r.Started? ==>
              && TakeTask(w.queue).0 == Some(r.id)
              && GetTask(w.queue, r.id) == Some(r.task)
              && r.world == w.(queue := TakeTask(w.queue).1, processing := Some(r.task))
  {
    var (taken, q) := TakeTask(w.queue);
    match taken
    case None => Idle(w)
    case Some(id) =>
      match GetTask(q, id)
      case None => Idle(w.(queue := q))
      case Some(task) => Started(id, task, w.(queue := q, processing := Some(task)))
  }

  /** The second half: process the task; on success remove its payload, on
      failure move it to the failed list with the exception's message; in
      both cases nothing is being processed afterwards. */
  function Finish(d: Dequeued, a: Answers, sha256: seq<JavaByte> -> seq<JavaByte>): (r: World)
    ensures d.Idle? ==> r == d.world
    ensures d.Started? ==>
              var p := Process(d.task, d.world.catalogue, d.world.localFiles, a, sha256);
              && r.processing.None?
              && r.catalogue == p.catalogue && r.localFiles == p.localFiles
              && (p.failure.None? ==> r.queue == RemoveTaskData(d.world.queue, d.id))
              && (p.failure.Some? ==> r.queue == MoveToFailed(d.world.queue, d.id, MessageOf(p.failure.value)))
  {
    match d
    case Idle(w) => w
    case Started(id, task, w) =>
      var p := Process(task, w.catalogue, w.localFiles, a, sha256);
      var q := match p.failure
               case None => RemoveTaskData(w.queue, id)
               case Some(f) => MoveToFailed(w.queue, id, MessageOf(f));
      World(q, p.catalogue, p.localFiles, None)
  }

  /** One iteration of `taskProcessingLoop`. */
  function Step(w: World, a: Answers, sha256: seq<JavaByte> -> seq<JavaByte>): World {
    Finish(Begin(w), a, sha256)
  }

  /** A taken id with a payload ends exactly one way: its payload is removed
      and the failed list is as before, or it heads the failed list with its
      payload carrying the error. Either way it has left the pending list. */
  lemma {:induction false} StepSettlesTask(w: World, a: Answers, sha256: seq<JavaByte> -> seq<JavaByte>, id: string)
    requires TaskQueue.Valid(w.queue)
    requires TakeTask(w.queue).0 == Some(id) && id in w.queue.data
    ensures var r := Step(w, a, sha256);
            && r.processing.None?
            && w.queue.pending == r.queue.pending + [id]
            && TaskQueue.Valid(r.queue)
            && ((id !in r.queue.data && r.queue.failed == w.queue.failed)
                != (id in r.queue.data && r.queue.failed == [id] + w.queue.failed))
  {
    var d := Begin(w);
    assert d.Started? && d.id == id;
  }

  /** A task whose content hashes to a stored hash fails at deduplication:
      no row is added, and no tagging, embedding or archiving happens. */
  lemma {:induction false} DuplicateNeverSaved(task: UploadTask, c: Catalogue.Catalogue, local: set<string>, a: Answers,
                                                sha256: seq<JavaByte> -> seq<JavaByte>)
    requires task.tempFilePath.Some? && a.upload.Done? && a.content.Ok?
    requires Catalogue.ExistImageByHash(c, HexString(sha256(a.content.value)))
    ensures var p := Process(task, c, local, a, sha256);
            && p.catalogue.images == c.images
            && p.trace == [StoreTemp, Hash, Dedup]
            && p.failure == Some(Wrap(Runtime(DuplicateMessage(HexString(sha256(a.content.value))))))
  {
  }

  /** Animated content fails at inspection, before any tagging or save. */
  lemma {:induction false} AnimatedNeverTagged(task: UploadTask, c: Catalogue.Catalogue, local: set<string>, a: Answers,
                                                sha256: seq<JavaByte> -> seq<JavaByte>)
    requires task.tempFilePath.Some?
    requires Read(a.file, a.probe).Ok? && Read(a.file, a.probe).value.isAnimated
    ensures var p := Process(task, c, local, a, sha256);
            && Tagging !in p.trace && Save !in p.trace
            && p.catalogue.images == c.images
  {
    var run := Pipelined(task, c, a, sha256);
    var early := [StoreTemp, Hash, Dedup, Inspect];
    assert Pipeline[..4] == early;
    assert run.catalogue.images == c.images && run.trace <= early by {
      if a.upload.Done? && a.content.Ok? {
        var hash := HashOf(a.content, sha256).value;
        var c1 := c.(objects := c.objects + {TempKey(task.id)});
        if !Catalogue.ExistImageByHash(c, hash) {
          assert run == Inspected(task, hash, c1, a);
        }
      }
    }
    assert forall k :: 0 <= k < |run.trace| ==> run.trace[k] == early[k];
  }

  /** A run that reached the archive stage passed every earlier one: its
      hash was new, and its row was saved into the catalogue as it stood
      after the temporary upload. */
  lemma {:induction false} ReachedArchive(task: UploadTask, c: Catalogue.Catalogue, a: Answers,
                                          sha256: seq<JavaByte> -> seq<JavaByte>)
    requires |Pipelined(task, c, a, sha256).trace| == 8
    ensures a.upload.Done? && a.content.Ok? && Read(a.file, a.probe).Ok? && a.tags.Ok? && a.embedding.Ok?
    ensures !Catalogue.ExistImageByHash(c, HexString(sha256(a.content.value)))
    ensures var s := SaveImageMetadata(task, Read(a.file, a.probe).value, HexString(sha256(a.content.value)),
                                       a.embedding.value, a.tags.value,
                                       c.(objects := c.objects + {TempKey(task.id)}), a.rejected);
            && s.Ok?
            && Pipelined(task, c, a, sha256).catalogue.images == s.value.1.images
            && s.value.1.images == c.images[s.value.0 := s.value.1.images[s.value.0]]
            && s.value.1.images[s.value.0].hash == HexString(sha256(a.content.value))
    ensures a.archive.Done? ==>
              Catalogue.OriginalKey(HexString(sha256(a.content.value))) in Pipelined(task, c, a, sha256).catalogue.objects
  {
    var run := Pipelined(task, c, a, sha256);
    assert a.upload.Done? && a.content.Ok?;
    var hash := HexString(sha256(a.content.value));
    var c1 := c.(objects := c.objects + {TempKey(task.id)});
    assert Catalogue.Hashes(c1) == Catalogue.Hashes(c);
    assert run == Inspected(task, hash, c1, a);
  }

  /** A successful run adds exactly one row, carrying the content's hash, and
      leaves the original archived under that hash. */
  lemma {:induction false} SuccessSavesAndArchives(task: UploadTask, c: Catalogue.Catalogue, local: set<string>, a: Answers,
                                                    sha256: seq<JavaByte> -> seq<JavaByte>)
    requires Process(task, c, local, a, sha256).failure.None?
    ensures a.content.Ok?
    ensures var p := Process(task, c, local, a, sha256);
            var hash := HexString(sha256(a.content.value));
            && p.trace == Pipeline
            && !Catalogue.ExistImageByHash(c, hash)
            && (Catalogue.Valid(c) ==>
                  exists id :: id !in c.images && id in p.catalogue.images
                               && p.catalogue.images == c.images[id := p.catalogue.images[id]]
                               && p.catalogue.images[id].hash == hash)
            && Catalogue.OriginalKey(hash) in p.catalogue.objects
  {
    ProcessedRun(task, c, local, a, sha256);
    ReachedArchive(task, c, a, sha256);
    var hash := HexString(sha256(a.content.value));
    TempKeyNotOriginal(task.id, hash);
    var c1 := c.(objects := c.objects + {TempKey(task.id)});
    var s := SaveImageMetadata(task, Read(a.file, a.probe).value, hash, a.embedding.value, a.tags.value, c1, a.rejected);
    assert Catalogue.Valid(c) ==> Catalogue.Valid(c1) && s.value.0 !in c.images;
  }

  /** A process without failure ran the whole pipeline, and what it keeps of
      the run's catalogue. */
  lemma ProcessedRun(task: UploadTask, c: Catalogue.Catalogue, local: set<string>, a: Answers,
                     sha256: seq<JavaByte> -> seq<JavaByte>)
    requires Process(task, c, local, a, sha256).failure.None?
    ensures var p := Process(task, c, local, a, sha256);
            var run := Pipelined(task, c, a, sha256);
            && |run.trace| == 8 && p.trace == Pipeline
            && p.catalogue.images == run.catalogue.images
            && run.catalogue.objects - {TempKey(task.id)} <= p.catalogue.objects
  {
  }

  /** The worker keeps the hash column unique: a row is only added after the
      deduplication check has found its hash absent. */
  lemma {:induction false} StepKeepsHashesUnique(task: UploadTask, c: Catalogue.Catalogue, local: set<string>, a: Answers,
                                                  sha256: seq<JavaByte> -> seq<JavaByte>)
    requires Catalogue.Valid(c) && Catalogue.UniqueHashes(c)
    ensures Catalogue.UniqueHashes(Process(task, c, local, a, sha256).catalogue)
  {
    if task.tempFilePath.Some? && |Pipelined(task, c, a, sha256).trace| == 8 {
      ReachedArchive(task, c, a, sha256);
      var c1 := c.(objects := c.objects + {TempKey(task.id)});
      var s := SaveImageMetadata(task, Read(a.file, a.probe).value, HexString(sha256(a.content.value)),
                                 a.embedding.value, a.tags.value, c1, a.rejected).value;
      Catalogue.AddImageKeepsUnique(c1, s.1.images[s.0]);
    }
  }
}
