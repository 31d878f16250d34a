/** `UploadTaskStore` of the `upload` module: the in-memory task map with a
    deque of ids, newest first. */
module TaskStore {
  import opened Common
  import opened Seqs

  /** The states an upload task passes through. */
  datatype Status = Pending | Processing | Tagging | Saving | Completed | Failed

  /** An upload task with the fields its service reads and writes. The
      repository's `UploadTask` class declares only the id, file name, size,
      temporary path and error message; the status, hash, tagging flag and
      the `UploadStatus` values are what the store and the service assume. */
  datatype StoredTask = StoredTask(
    id: string,
    filename: Option<string>,
    size: int,
    hash: string,
    enableTagging: bool,
    status: Status,
    errorMessage: Option<string>)

  datatype Store = Store(tasks: map<string, StoredTask>, order: seq<string>)

  /** Tasks sit under their own id and every stored id is in the deque. */
  predicate Valid(s: Store) {
    forall id :: id in s.tasks ==> s.tasks[id].id == id && id in s.order
  }

  /** A task that `clearCompletedOrFailed` removes. */
  predicate Finished(t: StoredTask) {
    t.status == Completed || t.status == Status.Failed
  }

  function EmptyStore(): (s: Store)
    ensures Valid(s) && s.tasks == map[] && s.order == []
  {
    Store(map[], [])
  }

  /** `addTask`: put the task in the map and its id at the front of the deque. */
  function AddTask(s: Store, t: StoredTask): (r: Store)
    ensures Valid(s) ==> Valid(r)
    ensures r.tasks == s.tasks[t.id := t]
    ensures r.order == [t.id] + s.order
  {
    Store(s.tasks[t.id := t], [t.id] + s.order)
  }

  /** `getTask`: the task, or null. */
  function GetTask(s: Store, id: string): (r: Option<StoredTask>)
    ensures r.Some? <==> id in s.tasks
    ensures r.Some? ==> r.value == s.tasks[id]
  {
    if id in s.tasks then Some(s.tasks[id]) else None
  }

  lemma GetAfterAdd(s: Store, t: StoredTask, id: string)
    ensures GetTask(AddTask(s, t), t.id) == Some(t)
    ensures id != t.id ==> GetTask(AddTask(s, t), id) == GetTask(s, id)
  {
  }

  /** Adding a task whose id is already stored replaces the task but leaves
      the id in the deque twice. */
  lemma ReAddKeepsBothIds(s: Store, t: StoredTask)
    requires t.id in s.order
    ensures var r := AddTask(s, t);
            r.tasks[t.id] == t && multiset(r.order)[t.id] >= 2
  {
  }

  /** `removeTask`: delete the map entry and the first occurrence of the id. */
  function RemoveTask(s: Store, id: string): (r: Store)
    ensures Valid(s) ==> Valid(r)
    ensures r.tasks == s.tasks - {id}
    ensures r.order == RemoveFirst(s.order, id)
  {
    var r := Store(s.tasks - {id}, RemoveFirst(s.order, id));
    assert Valid(s) ==> Valid(r) by {
      if Valid(s) {
        forall k | k in r.tasks ensures k in r.order {
          assert multiset(r.order)[k] == multiset(s.order)[k];
        }
      }
    }
    r
  }

  /** Membership of an id in the task map. */
  function Stored(s: Store): string -> bool {
    id => id in s.tasks
  }

  /** The ids `getAllTasks` reports: the deque, newest first, skipping ids
      without a task. */
  function Listed(s: Store): seq<string> {
    Filter(s.order, Stored(s))
  }

  /** `getAllTasks`: the tasks of the listed ids, newest first. */
  function GetAllTasks(s: Store): (r: seq<StoredTask>)
    ensures |r| == |Listed(s)|
    ensures forall i :: 0 <= i < |r| ==> Listed(s)[i] in s.tasks && r[i] == s.tasks[Listed(s)[i]]
  {
    var ids := Listed(s);
    seq(|ids|, i requires 0 <= i < |ids| => s.tasks[ids[i]])
  }

  /** A new task is listed first, in front of everything listed before. */
  lemma {:induction false} AddedListedFirst(s: Store, t: StoredTask)
    requires t.id !in s.tasks && t.id !in s.order
    ensures Listed(AddTask(s, t)) == [t.id] + Listed(s)
  {
    var r := AddTask(s, t);
    FilterConcat([t.id], s.order, Stored(r));
    assert [t.id] + s.order == r.order;
    assert forall i :: 0 <= i < |s.order| ==> s.order[i] != t.id;
    FilterExt(s.order, Stored(r), Stored(s));
  }

  /** The ids of the remaining tasks after visiting `ids` in order and
      removing each one whose task is finished. */
  function ClearFrom(s: Store, ids: seq<string>): (r: Store)
    ensures r.tasks.Keys <= s.tasks.Keys
    ensures forall id :: id in r.tasks ==> r.tasks[id] == s.tasks[id]
    ensures forall id :: id in s.tasks ==> (id in r.tasks <==> !(id in ids && Finished(s.tasks[id])))
    decreases |ids|
  {
    if |ids| == 0 then s
    else
      var id := ids[0];
      var s1 := if id in s.tasks && Finished(s.tasks[id]) then RemoveTask(s, id) else s;
      assert forall k :: k in ids <==> k == id || k in ids[1..];
      ClearFrom(s1, ids[1..])
  }

  /** `clearCompletedOrFailed`: walk the deque and remove each id whose task
      is completed or failed. Removal only ever takes out the id being
      visited, so walking a snapshot of the deque gives the same result. */
  function ClearCompletedOrFailed(s: Store): (r: Store)
    ensures Valid(s) ==> r.tasks == map id | id in s.tasks && !Finished(s.tasks[id]) :: s.tasks[id]
  {
    ClearFrom(s, s.order)
  }

  /** Removals by `ClearFrom` only take out ids that the predicate drops, so
      filtering by it sees the same sequence before and after. */
  lemma {:induction false} ClearFromOrder(s: Store, ids: seq<string>, p: string -> bool)
    requires forall id :: id in s.tasks && Finished(s.tasks[id]) ==> !p(id)
    ensures Filter(ClearFrom(s, ids).order, p) == Filter(s.order, p)
    decreases |ids|
  {
    if |ids| > 0 {
      var id := ids[0];
      if id in s.tasks && Finished(s.tasks[id]) {
        var s1 := RemoveTask(s, id);
        ClearFromOrder(s1, ids[1..], p);
        FilterRemoveFirst(s.order, id, p);
      } else {
        ClearFromOrder(s, ids[1..], p);
      }
    }
  }

  /** An id the clear keeps: stored with a task that is not finished. */
  function Kept(s: Store): string -> bool {
    id => id in s.tasks && !Finished(s.tasks[id])
  }

  /** Clearing lists exactly the unfinished tasks, in their previous order. */
  lemma {:induction false} ClearKeepsUnfinishedInOrder(s: Store)
    requires Valid(s)
    ensures Listed(ClearCompletedOrFailed(s)) == Filter(Listed(s), Kept(s))
  {
    var r := ClearCompletedOrFailed(s);
    ClearFromOrder(s, s.order, Stored(r));
    FilterExt(s.order, Stored(r), Kept(s));
    FilterFilter(s.order, Stored(s), Kept(s), Kept(s));
  }

  /** `size`: the number of tasks in the map. */
  function Size(s: Store): (n: nat)
    ensures n == |s.tasks|
    ensures n == 0 <==> s.tasks == map[]
  {
    |s.tasks|
  }
}
