/** `UploadQueueService` of the `upload` module: an upload becomes a task in
    the in-memory store, is validated, parked as a pending file, and then
    processed in the same call (the `@Async` method is invoked on `this`, so
    it runs synchronously). Processing rejects a known hash, optionally tags
    the image through the tagger, and saves the row; any exception marks the
    task failed with the exception's message. The storage service, the
    tagger and the metadata reader are answers given as parameters. */
module UploadQueue {
  import opened Common
  import opened Strings
  import opened ImageEntity
  import opened FileUtils
  import opened TaskStore
  import opened GalleryImages
  import TagTable

  /** The defaults `validateFile` passes for the two settings it reads. The
      settings service offers only the one-argument lookups, so these
      defaults stand for a setting that is missing. */
  const DefaultMaxFileSize := 52428800
  const DefaultAllowedExtensions := "jpg,png,webp,gif,jpeg"

  /** The two settings, as configured or defaulted. */
  datatype Limits = Limits(maxFileSize: int, allowedExtensions: string)

  /** The multipart file: its original name (possibly null) and size. */
  datatype Upload = Upload(filename: Option<string>, size: int)

  /** What the code outside this service answers during one upload. */
  datatype Answers = Answers(
    content: Result<seq<JavaByte>>,                  // `file.getBytes()`
    pending: Outcome,                                // `storePendingImage`
    tagged: Result<seq<(string, seq<string>)>>,      // `tagService.tagImage`, category by category
    metadata: Result<Option<(int, int)>>,            // the JPEG directory's width and height, if any
    archive: Outcome,                                // `storeImage`
    rejected: Failure)                               // what `save` throws for a null dimension

  function TooLargeMessage(max: int): string {
    "文件过大。最大允许: " + IntToString(max)
  }

  function UnsupportedMessage(allowed: string): string {
    "不支持的文件类型。允许的类型: " + allowed
  }

  function DuplicateMessage(id: int): string {
    "重复的图片: " + IntToString(id)
  }

  const MetadataMessage := "无法获取图片元数据"

  /** The file name split at its last '.': the title before it and the
      extension after it; a name without '.' is all title. */
  function SplitName(filename: string): (r: (string, string))
    ensures '.' !in filename ==> r == (filename, "")
    ensures '.' in filename ==> r.0 + "." + r.1 == filename && '.' !in r.1
  {
    var k := LastIndexOf(filename, '.');
    if k == -1 then (filename, "")
    else
      assert filename == filename[..k] + "." + filename[k + 1..];
      (filename[..k], filename[k + 1..])
  }

  /** The string with every occurrence of `c` removed (`replace(".", "")`). */
  function Without(s: string, c: char): (r: string)
    ensures c !in r
    ensures c !in s ==> r == s
    ensures forall x :: x != c ==> (x in r <==> x in s)
  {
    if |s| == 0 then s
    else if s[0] == c then Without(s[1..], c)
    else
      assert forall x :: x in s <==> x == s[0] || x in s[1..];
      [s[0]] + Without(s[1..], c)
  }

  lemma LowerConcat(a: string, b: string)
    ensures Lower(a + b) == Lower(a) + Lower(b)
  {
  }

  lemma LowerKeepsDotless(s: string)
    requires '.' !in s
    ensures '.' !in Lower(s)
  {
    forall i | 0 <= i < |s| ensures Lower(s)[i] != '.' {
      assert s[i] != '.';
    }
  }

  /** The extension `validateFile` checks: the lower-cased text after the
      last '.', or "" for a name without one. */
  function CheckedExtension(filename: string): (r: string)
    ensures '.' !in filename ==> r == ""
    ensures '.' in filename ==> r == Lower(SplitName(filename).1)
  {
    var r := Without(Lower(GetExtension(Some(filename))), '.');
    assert '.' in filename ==> r == Lower(SplitName(filename).1) by {
      if '.' in filename {
        ExtensionIsSplitTail(filename);
        LowerDotTail(SplitName(filename).1);
      }
    }
    r
  }

  /** The extension of a dotted name is '.' followed by the split's tail. */
  lemma ExtensionIsSplitTail(filename: string)
    requires '.' in filename
    ensures GetExtension(Some(filename)) == "." + SplitName(filename).1
  {
    var k := LastIndexOf(filename, '.');
    assert GetExtension(Some(filename)) == filename[k..] == "." + filename[k + 1..];
  }

  /** Removing the dots of ".tail", lower-cased, leaves the lower-cased tail. */
  lemma LowerDotTail(tail: string)
    requires '.' !in tail
    ensures Without(Lower("." + tail), '.') == Lower(tail)
  {
    LowerConcat(".", tail);
    LowerKeepsDotless(tail);
    assert Lower("." + tail) == ['.'] + Lower(tail);
    assert (['.'] + Lower(tail))[1..] == Lower(tail);
  }

  /** `validateFile`: a file larger than the limit is refused first; a named
      file must then have a listed extension. A file without a name passes
      the extension check. */
  function ValidateFile(limits: Limits, upload: Upload): (r: Outcome)
    ensures r.Done? <==>
              && upload.size <= limits.maxFileSize
              && (upload.filename.None? || CheckedExtension(upload.filename.value) in Split(limits.allowedExtensions, ','))
    ensures upload.size > limits.maxFileSize ==> r == Outcome.Failed(Runtime(TooLargeMessage(limits.maxFileSize)))
    ensures upload.size <= limits.maxFileSize && r.Failed? ==>
              r.failure == Runtime(UnsupportedMessage(limits.allowedExtensions))
  {
    if upload.size > limits.maxFileSize then
      Outcome.Failed(Runtime(TooLargeMessage(limits.maxFileSize)))
    else if upload.filename.Some? && CheckedExtension(upload.filename.value) !in Split(limits.allowedExtensions, ',') then
      Outcome.Failed(Runtime(UnsupportedMessage(limits.allowedExtensions)))
    else Done
  }

  /** A file within the limit whose extension, in any case, is listed passes. */
  lemma ListedExtensionAccepted(limits: Limits, title: string, ext: string, size: int)
    requires size <= limits.maxFileSize && '.' !in ext
    requires Lower(ext) in Split(limits.allowedExtensions, ',')
    ensures ValidateFile(limits, Upload(Some(title + "." + ext), size)) == Done
  {
    var name := title + "." + ext;
    assert name[|title|] == '.';
    var (t, e) := SplitName(name);
    assert t + "." + e == name && '.' !in e;
    assert e == name[|name| - |e|..];
  }

  /** The exception `processTask` rethrows for a tagging failure:
      `new RuntimeException(e.getMessage())`. Only the message is observed
      afterwards, and it is carried over unchanged (a null message stays
      null). */
  function Rethrow(f: Failure): (r: Failure)
    ensures MessageOf(r) == MessageOf(f)
  {
    match MessageOf(f)
    case Some(m) => Runtime(m)
    case None => f
  }

  /** Where `processTask` got to: the task as last updated, the gallery, the
      statuses set in order, and whether an exception escaped. */
  datatype Processed = Processed(task: StoredTask, gallery: Gallery, trace: seq<Status>, outcome: Outcome)

  /** The image row `processTask` builds for the task. */
  function NewRow(task: StoredTask, filename: string, tags: set<Tag>, dims: (int, int)): GalleryImage {
    var (title, extension) := SplitName(filename);
    GalleryImage(0, title, filename, extension, task.size, Some(dims.0), Some(dims.1), task.hash, Some(0), tags)
  }

  /** What `originalFilename.lastIndexOf('.')` raises on a task without a file name. */
  const FilenameNull: Failure := NullDereference("String.lastIndexOf(int)", "originalFilename")

  /** The save step, after tagging: split the name, read the dimensions,
      move the file under its hash, save the row. */
  function Save(task: StoredTask, g: Gallery, tags: set<Tag>, trace: seq<Status>, a: Answers): (r: Processed)
    ensures r.task == task.(status := Saving) && r.trace == trace + [Saving]
    ensures r.gallery.tags == g.tags && r.gallery.files <= g.files + {task.hash}
    ensures r.outcome.Done? ==>
              && task.filename.Some? && a.metadata.Ok? && a.metadata.value.Some? && a.archive.Done?
              && r.gallery == AddRow(g.(files := g.files + {task.hash}),
                                     NewRow(task, task.filename.value, tags, a.metadata.value.value)).1
    ensures r.outcome.Failed? ==> r.gallery.rows == g.rows && r.gallery.nextId == g.nextId
    ensures GalleryImages.Valid(g) && UniqueHashes(g) && FindByHash(g, task.hash).None? ==>
              GalleryImages.Valid(r.gallery) && UniqueHashes(r.gallery)
    ensures task.filename.None? ==> r.outcome == Outcome.Failed(FilenameNull) && MessageOf(FilenameNull).Some?
    ensures task.filename.Some? && a.metadata.Err? ==> r.outcome == Outcome.Failed(Runtime(MetadataMessage))
  {
    var saving := task.(status := Saving);
    var trace' := trace + [Saving];
    match task.filename
    case None => Processed(saving, g, trace', Outcome.Failed(FilenameNull))
    case Some(filename) =>
      match a.metadata
      case Err(_) => Processed(saving, g, trace', Outcome.Failed(Runtime(MetadataMessage)))
      case Ok(dims) =>
        if a.archive.Failed? then Processed(saving, g, trace', a.archive)
        else
          var stored := g.(files := g.files + {task.hash});
          match dims
          case None => Processed(saving, stored, trace', Outcome.Failed(a.rejected))
          case Some(wh) =>
            var (_, g1) := AddRow(stored, NewRow(task, filename, tags, wh));
            Processed(saving, g1, trace', Done)
  }

  /** `processTask` on the task found in the store: `PROCESSING`, the
      duplicate check, optional `TAGGING`, then `SAVING` and `COMPLETED`. */
  function Process(task: StoredTask, g: Gallery, a: Answers): (r: Processed)
    ensures r.task.id == task.id && r.task.hash == task.hash && r.task.filename == task.filename
    ensures r.task.errorMessage == task.errorMessage
    ensures r.outcome.Done? <==> r.task.status == Completed
    ensures FindByHash(g, task.hash).Some? ==>
              r == Processed(task.(status := Processing), g, [Processing],
                             Outcome.Failed(Runtime(DuplicateMessage(FindByHash(g, task.hash).value.id))))
    ensures r.outcome.Failed? ==> r.gallery.rows == g.rows
    ensures forall tag :: tag in g.tags.rows ==> tag in r.gallery.tags.rows
    ensures TagTable.Valid(g.tags) ==> TagTable.Valid(r.gallery.tags)
    ensures GalleryImages.Valid(g) && UniqueHashes(g) ==> GalleryImages.Valid(r.gallery) && UniqueHashes(r.gallery)
  {
    var processing := task.(status := Processing);
    match FindByHash(g, task.hash)
    case Some(img) => Processed(processing, g, [Processing], Outcome.Failed(Runtime(DuplicateMessage(img.id))))
    case None => TagAndSave(processing, g, a)
  }

  /** `processTask` past the duplicate check: tag when asked to, then save. */
  function TagAndSave(task: StoredTask, g: Gallery, a: Answers): (r: Processed)
    ensures r.task.id == task.id && r.task.hash == task.hash && r.task.filename == task.filename
    ensures r.task.errorMessage == task.errorMessage
    ensures r.outcome.Done? <==> r.task.status == Completed
    ensures r.outcome.Failed? ==> r.gallery.rows == g.rows
    ensures forall tag :: tag in g.tags.rows ==> tag in r.gallery.tags.rows
    ensures TagTable.Valid(g.tags) ==> TagTable.Valid(r.gallery.tags)
    ensures GalleryImages.Valid(g) && UniqueHashes(g) && FindByHash(g, task.hash).None? ==>
              GalleryImages.Valid(r.gallery) && UniqueHashes(r.gallery)
  {
    if !task.enableTagging then
      Complete(Save(task, g, {}, [task.status], a))
    else
      var tagging := task.(status := Tagging);
      match a.tagged
      case Err(f) => Processed(tagging, g, [task.status, Tagging], Outcome.Failed(Rethrow(f)))
      case Ok(result) =>
        var (tags, t1) := FindOrCreateAll(g.tags, Pairs(result));
        var g1 := g.(tags := t1);
        assert g1.rows == g.rows && g1.nextId == g.nextId;
        assert FindByHash(g1, task.hash) == FindByHash(g, task.hash);
        assert GalleryImages.Valid(g) ==> GalleryImages.Valid(g1);
        assert UniqueHashes(g) ==> UniqueHashes(g1);
        var saved := Save(tagging, g1, tags, [task.status, Tagging], a);
        Complete(saved)
  }

  /** The last `updateStatus(COMPLETED)`, reached when the save went through. */
  function Complete(saved: Processed): (r: Processed)
    ensures saved.outcome.Failed? ==> r == saved
    ensures saved.outcome.Done? ==> r == saved.(task := saved.task.(status := Completed), trace := saved.trace + [Completed])
  {
    if saved.outcome.Done? then saved.(task := saved.task.(status := Completed), trace := saved.trace + [Completed])
    else saved
  }

  /** The task as `createTask` returns it, and the store and gallery after it. */
  datatype Created = Created(task: StoredTask, store: Store, gallery: Gallery)

  /** The catch block: the task is marked failed with the exception's message. */
  function MarkFailed(task: StoredTask, f: Failure): (r: StoredTask)
    ensures r.status == Status.Failed && r.errorMessage == MessageOf(f)
    ensures r.(status := task.status, errorMessage := task.errorMessage) == task
  {
    task.(status := Status.Failed, errorMessage := MessageOf(f))
  }

  /** `createTask`. The hash is computed before the task exists, so a failure
      there propagates; after that every exception is caught. */
  function CreateTask(s: Store, g: Gallery, limits: Limits, taskId: string, upload: Upload,
                      enableTagging: Option<bool>, sha256: seq<JavaByte> -> seq<JavaByte>, a: Answers): (r: Result<Created>)
    ensures r.Err? <==> a.content.Err?
    ensures r.Err? ==> r.failure == Runtime("Failed to calculate hash")
    ensures r.Ok? ==>
              r == Ok(Settle(AddTask(s, NewTask(taskId, upload, enableTagging, CalculateHash(a.content, sha256).value)),
                             g, NewTask(taskId, upload, enableTagging, CalculateHash(a.content, sha256).value), limits, upload, a))
  {
    var hash :- CalculateHash(a.content, sha256);
    var task := NewTask(taskId, upload, enableTagging, hash);
    Ok(Settle(AddTask(s, task), g, task, limits, upload, a))
  }

  /** The task `createTask` stores: `PENDING`, tagging only when asked for
      explicitly. */
  function NewTask(taskId: string, upload: Upload, enableTagging: Option<bool>, hash: string): (t: StoredTask)
    ensures t.id == taskId && t.filename == upload.filename && t.size == upload.size && t.hash == hash
    ensures t.enableTagging <==> enableTagging == Some(true)
    ensures t.status == Pending && t.errorMessage.None?
  {
    StoredTask(taskId, upload.filename, upload.size, hash, enableTagging == Some(true), Pending, None)
  }

  /** The try block of `createTask` and its catch, on the stored task. The
      task object in the store is the one returned, so both carry the final
      status. */
  function Settle(s: Store, g: Gallery, task: StoredTask, limits: Limits, upload: Upload, a: Answers): (r: Created)
    requires task.status == Pending && task.errorMessage.None?
    ensures r.task.id == task.id && r.task.hash == task.hash && r.task.filename == task.filename
    ensures r.task.size == task.size && r.task.enableTagging == task.enableTagging
    ensures r.store == s.(tasks := s.tasks[task.id := r.task])
    ensures r.task.status == Completed || r.task.status == Status.Failed
    ensures r.task.status == Completed ==> r.task.errorMessage.None?
    ensures r.task.status == Status.Failed ==> r.gallery.rows == g.rows
    ensures ValidateFile(limits, upload).Failed? ==>
              r.task.errorMessage == MessageOf(ValidateFile(limits, upload).failure) && r.gallery == g
    ensures GalleryImages.Valid(g) && UniqueHashes(g) ==> GalleryImages.Valid(r.gallery) && UniqueHashes(r.gallery)
  {
    var valid := ValidateFile(limits, upload);
    if valid.Failed? then Fail(s, g, task, valid.failure)
    else if a.pending.Failed? then Fail(s, g, task, a.pending.failure)
    else
      var p := Process(task, g, a);
      if p.outcome.Failed? then Fail(s, p.gallery, p.task, p.outcome.failure)
      else Created(p.task, s.(tasks := s.tasks[task.id := p.task]), p.gallery)
  }

  /** The task failed with `f`, written back to where the store holds it. */
  function Fail(s: Store, g: Gallery, task: StoredTask, f: Failure): (r: Created)
    ensures r.task == MarkFailed(task, f) && r.gallery == g
    ensures r.store == s.(tasks := s.tasks[task.id := r.task])
  {
    var failed := MarkFailed(task, f);
    Created(failed, s.(tasks := s.tasks[task.id := failed]), g)
  }

  /** The answers under which a task whose hash is new gets saved. */
  predicate Accepted(a: Answers, enableTagging: bool) {
    && a.pending.Done?
    && (enableTagging ==> a.tagged.Ok?)
    && a.metadata.Ok? && a.metadata.value.Some?
    && a.archive.Done?
  }

  /** An upload whose hash is already in the gallery fails with the id of the
      image that has it; the gallery does not change. */
  lemma DuplicateRejected(s: Store, g: Gallery, limits: Limits, taskId: string, upload: Upload,
                          enableTagging: Option<bool>, sha256: seq<JavaByte> -> seq<JavaByte>, a: Answers)
    requires a.content.Ok? && ValidateFile(limits, upload).Done? && a.pending.Done?
    requires FindByHash(g, CalculateHash(a.content, sha256).value).Some?
    ensures var r := CreateTask(s, g, limits, taskId, upload, enableTagging, sha256, a);
            var img := FindByHash(g, CalculateHash(a.content, sha256).value).value;
            && r.Ok?
            && r.value.task.status == Status.Failed
            && r.value.task.errorMessage == Some(DuplicateMessage(img.id))
            && r.value.gallery == g
  {
  }

  /** A valid upload of a new image, answered without failure, completes:
      the gallery gains exactly one row, carrying the hash and the file name
      split into title and extension, and the file is stored under the hash. */
  lemma NewImageCompletes(s: Store, g: Gallery, limits: Limits, taskId: string, upload: Upload,
                          enableTagging: Option<bool>, sha256: seq<JavaByte> -> seq<JavaByte>, a: Answers)
    requires GalleryImages.Valid(g) && a.content.Ok? && ValidateFile(limits, upload).Done?
    requires upload.filename.Some? && Accepted(a, enableTagging == Some(true))
    requires FindByHash(g, CalculateHash(a.content, sha256).value).None?
    ensures var r := CreateTask(s, g, limits, taskId, upload, enableTagging, sha256, a);
            var hash := CalculateHash(a.content, sha256).value;
            var (title, extension) := SplitName(upload.filename.value);
            && r.Ok?
            && r.value.task.status == Completed
            && |r.value.gallery.rows| == |g.rows| + 1
            && r.value.gallery.rows[..|g.rows|] == g.rows
            && var row := r.value.gallery.rows[|g.rows|];
               && row.id == g.nextId && row.hash == hash
               && row.title == title && row.extension == extension && row.fileName == upload.filename.value
               && row.size == upload.size && row.viewCount == Some(0)
               && hash in r.value.gallery.files
  {
    var hash := CalculateHash(a.content, sha256).value;
    var task := NewTask(taskId, upload, enableTagging, hash);
    var p := Process(task, g, a);
    assert p.outcome.Done?;
  }

  /** Tags created while tagging stay in the tag table even when the save
      fails afterwards: nothing rolls the tagging back. */
  lemma TagsOutliveFailedSave(task: StoredTask, g: Gallery, a: Answers)
    requires task.enableTagging && a.tagged.Ok? && FindByHash(g, task.hash).None?
    requires a.metadata.Err?
    ensures var r := Process(task, g, a);
            && r.outcome == Outcome.Failed(if task.filename.None? then FilenameNull else Runtime(MetadataMessage))
            && r.gallery.rows == g.rows
            && r.gallery.tags == FindOrCreateAll(g.tags, Pairs(a.tagged.value)).1
  {
  }

  /** The trace is a prefix of `full` that ends in the task's status, and
      the whole of `full` exactly when processing went through. */
  predicate TraceOrdered(r: Processed, full: seq<Status>) {
    && 1 <= |r.trace| <= |full|
    && r.trace == full[..|r.trace|]
    && r.task.status == r.trace[|r.trace| - 1]
    && (r.outcome.Done? <==> r.trace == full)
  }

  /** Saving after a trace ends the trace with `SAVING`, then `COMPLETED` if
      the save went through. */
  lemma SaveThenComplete(task: StoredTask, g: Gallery, tags: set<Tag>, trace: seq<Status>, a: Answers,
                         full: seq<Status>)
    requires |trace| >= 1 && full == trace + [Saving, Completed]
    ensures TraceOrdered(Complete(Save(task, g, tags, trace, a)), full)
  {
    var saved := Save(task, g, tags, trace, a);
    assert saved.trace == full[..|trace| + 1];
  }

  /** The statuses a processed task passes through, in order: `PROCESSING`,
      `TAGGING` only when tagging is enabled, `SAVING`, `COMPLETED`; a failure
      cuts the sequence short. */
  lemma StatusOrder(task: StoredTask, g: Gallery, a: Answers)
    ensures TraceOrdered(Process(task, g, a),
                         if task.enableTagging then [Processing, Tagging, Saving, Completed]
                         else [Processing, Saving, Completed])
  {
    var processing := task.(status := Processing);
    if FindByHash(g, task.hash).None? {
      assert Process(task, g, a) == TagAndSave(processing, g, a);
      if !task.enableTagging {
        SaveThenComplete(processing, g, {}, [Processing], a, [Processing, Saving, Completed]);
      } else if a.tagged.Ok? {
        var (tags, t1) := FindOrCreateAll(g.tags, Pairs(a.tagged.value));
        SaveThenComplete(processing.(status := Tagging), g.(tags := t1), tags, [Processing, Tagging], a,
                         [Processing, Tagging, Saving, Completed]);
      }
    }
  }
}
