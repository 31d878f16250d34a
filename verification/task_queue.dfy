/** `UploadTaskQueue`: the worker's queue kept in Redis, as a state machine
    over a pending list, a failed list and the task payloads. Lists follow
    Redis semantics with index 0 as the left end: `LPUSH` prepends, `RPOP`
    takes the last element, `RPUSH` appends, `LREM key 1 v` removes the first
    occurrence. Payload expiry and the blocking timeout are not modelled. */
module TaskQueue {
  import opened Common
  import opened Seqs

  /** The payload of an upload task. */
  datatype UploadTask = UploadTask(
    id: string,
    filename: Option<string>,
    size: Option<int>,
    tempFilePath: Option<string>,
    errorMessage: Option<string>)

  datatype Queue = Queue(pending: seq<string>, failed: seq<string>, data: map<string, UploadTask>)

  /** Payloads are stored under their own id. */
  predicate Valid(q: Queue) {
    forall k | k in q.data :: q.data[k].id == k
  }

  function EmptyQueue(): (q: Queue)
    ensures Valid(q) && q.pending == [] && q.failed == []
  {
    Queue([], [], map[])
  }

  /** `getTask`: the payload, or null. */
  function GetTask(q: Queue, id: string): (r: Option<UploadTask>)
    ensures r.Some? <==> id in q.data
    ensures r.Some? ==> r.value == q.data[id]
  {
    if id in q.data then Some(q.data[id]) else None
  }

  /** `addTask`: store the payload, then push the id on the left of the pending list. */
  function AddTask(q: Queue, t: UploadTask): (r: Queue)
    ensures Valid(q) ==> Valid(r)
    ensures GetTask(r, t.id) == Some(t)
    ensures forall k | k != t.id :: GetTask(r, k) == GetTask(q, k)
    ensures |r.pending| == |q.pending| + 1 && r.pending[1..] == q.pending && r.pending[0] == t.id
    ensures r.failed == q.failed
  {
    Queue([t.id] + q.pending, q.failed, q.data[t.id := t])
  }

  /** `takeTask`: pop from the right; null when the list is empty. The payload stays. */
  function TakeTask(q: Queue): (r: (Option<string>, Queue))
    ensures q.pending == [] <==> r.0.None?
    ensures r.0.Some? ==> q.pending == r.1.pending + [r.0.value]
    ensures r.0.None? ==> r.1 == q
    ensures r.1.data == q.data && r.1.failed == q.failed
  {
    if |q.pending| == 0 then (None, q)
    else
      var n := |q.pending|;
      assert q.pending == q.pending[..n - 1] + [q.pending[n - 1]];
      (Some(q.pending[n - 1]), q.(pending := q.pending[..n - 1]))
  }

  /** First in, first out: the first id added to an empty pending list is
      the next one taken... */
  lemma TakeFromSingle(q: Queue, t: UploadTask)
    requires q.pending == []
    ensures TakeTask(AddTask(q, t)).0 == Some(t.id)
    ensures TakeTask(AddTask(q, t)).1.pending == []
  {
  }

  /** ...and adding behind a non-empty list does not change which id comes
      next: taking then adding is adding then taking. */
  lemma {:induction false} TakeAfterAdd(q: Queue, t: UploadTask)
    requires q.pending != []
    ensures TakeTask(AddTask(q, t)).0 == TakeTask(q).0
    ensures TakeTask(AddTask(q, t)).1 == AddTask(TakeTask(q).1, t)
  {
    var n := |q.pending|;
    var p := [t.id] + q.pending;
    assert p[..n] == [t.id] + q.pending[..n - 1];
  }

  /** `moveToFailed`: record the message on the payload when there is one,
      and push the id on the left of the failed list in every case. */
  function MoveToFailed(q: Queue, id: string, message: Option<string>): (r: Queue)
    ensures Valid(q) ==> Valid(r)
    ensures r.failed == [id] + q.failed && r.pending == q.pending
    ensures r.data.Keys == q.data.Keys
    ensures id in q.data ==> r.data[id] == q.data[id].(errorMessage := message)
    ensures forall k | k in q.data && k != id :: r.data[k] == q.data[k]
  {
    var data := if id in q.data then q.data[id := q.data[id].(errorMessage := message)] else q.data;
    Queue(q.pending, [id] + q.failed, data)
  }

  /** `retryTask`: remove the first occurrence of the id from the failed
      list; if one was removed and the payload exists, clear its error and
      push the id on the right of the pending list. */
  function RetryTask(q: Queue, id: string): (r: Queue)
    ensures Valid(q) ==> Valid(r)
    ensures id !in q.failed ==> r == q
    ensures id in q.failed ==> multiset(r.failed) == multiset(q.failed) - multiset{id}
    ensures id in q.failed && id in q.data ==>
              && r.pending == q.pending + [id]
              && r.data == q.data[id := q.data[id].(errorMessage := None)]
    ensures id in q.failed && id !in q.data ==> r.pending == q.pending && r.data == q.data
  {
    if id !in q.failed then q
    else
      var failed := RemoveFirst(q.failed, id);
      if id in q.data then
        Queue(q.pending + [id], failed, q.data[id := q.data[id].(errorMessage := None)])
      else
        q.(failed := failed)
  }

  /** A retried task with a payload is the next one taken. */
  lemma RetriedIsNext(q: Queue, id: string)
    requires id in q.failed && id in q.data
    ensures TakeTask(RetryTask(q, id)).0 == Some(id)
  {
  }

  /** A failed task moved back by retry loses its error and rejoins the queue. */
  lemma {:induction false} RetryUndoesMoveToFailed(q: Queue, id: string, message: Option<string>)
    requires id in q.data && q.data[id].errorMessage.None?
    ensures RetryTask(MoveToFailed(q, id, message), id) == q.(pending := q.pending + [id])
  {
    var m := MoveToFailed(q, id, message);
    assert RemoveFirst(m.failed, id) == q.failed;
    assert m.data[id := m.data[id].(errorMessage := None)] == q.data;
  }

  /** The ids that have a payload, in list order and with their repetitions. */
  function Present(ids: seq<string>, data: map<string, UploadTask>): (r: seq<string>)
    ensures forall i :: 0 <= i < |r| ==> r[i] in data
  {
    if |ids| == 0 then []
    else (if ids[0] in data then [ids[0]] else []) + Present(ids[1..], data)
  }

  /** Every id kept is listed and has a payload, and every listed id with a
      payload is kept. */
  lemma {:induction false} PresentMembers(ids: seq<string>, data: map<string, UploadTask>)
    ensures var r := Present(ids, data);
            && |r| <= |ids|
            && (forall i :: 0 <= i < |r| ==> r[i] in data && r[i] in ids)
            && (forall j :: 0 <= j < |ids| && ids[j] in data ==> ids[j] in r)
  {
    if |ids| > 0 {
      PresentMembers(ids[1..], data);
      assert forall j :: 1 <= j < |ids| ==> ids[j] == ids[1..][j - 1];
    }
  }

  /** The payloads of a list of ids, in list order, skipping missing ones:
      one payload per listed id that has one. */
  function Payloads(ids: seq<string>, data: map<string, UploadTask>): seq<UploadTask> {
    if |ids| == 0 then []
    else (if ids[0] in data then [data[ids[0]]] else []) + Payloads(ids[1..], data)
  }

  /** The i-th payload listed is the one stored under the i-th listed id
      that has a payload. */
  lemma {:induction false} PayloadsIndexed(ids: seq<string>, data: map<string, UploadTask>)
    ensures |Payloads(ids, data)| == |Present(ids, data)|
    ensures forall i :: 0 <= i < |Payloads(ids, data)| ==> Payloads(ids, data)[i] == data[Present(ids, data)[i]]
  {
    if |ids| > 0 {
      PayloadsIndexed(ids[1..], data);
      var rest, present := Payloads(ids[1..], data), Present(ids[1..], data);
      if ids[0] in data {
        var r, p := [data[ids[0]]] + rest, [ids[0]] + present;
        assert Payloads(ids, data) == r && Present(ids, data) == p;
        forall i | 1 <= i < |r| ensures r[i] == data[p[i]] {
          assert r[i] == rest[i - 1] && p[i] == present[i - 1];
        }
      } else {
        assert Payloads(ids, data) == rest && Present(ids, data) == present;
      }
    }
  }

  /** Listing a concatenation lists each part in turn, so the payloads keep
      the order of the ids they come from. */
  lemma {:induction false} PayloadsAppend(a: seq<string>, b: seq<string>, data: map<string, UploadTask>)
    ensures Payloads(a + b, data) == Payloads(a, data) + Payloads(b, data)
  {
    if |a| == 0 {
      assert a + b == b;
    } else {
      assert (a + b)[0] == a[0];
      assert (a + b)[1..] == a[1..] + b;
      PayloadsAppend(a[1..], b, data);
      var head := if a[0] in data then [data[a[0]]] else [];
      ConcatAssoc(head, Payloads(a[1..], data), Payloads(b, data));
    }
  }

  /** An id with a payload is listed as often as it occurs; one without
      is not listed. */
  lemma {:induction false} PresentCounts(ids: seq<string>, data: map<string, UploadTask>, k: string)
    ensures multiset(Present(ids, data))[k] == if k in data then multiset(ids)[k] else 0
  {
    if |ids| > 0 {
      assert ids == [ids[0]] + ids[1..];
      PresentCounts(ids[1..], data, k);
    }
  }

  /** `getFailedTasks`: the payloads of the failed ids, in failed-list order;
      an id listed twice gives its payload twice, and an id without a payload
      gives nothing. */
  function GetFailedTasks(q: Queue): (r: seq<UploadTask>)
    ensures |r| == |Present(q.failed, q.data)|
    ensures forall i :: 0 <= i < |r| ==> r[i] == q.data[Present(q.failed, q.data)[i]]
  {
    PayloadsIndexed(q.failed, q.data);
    Payloads(q.failed, q.data)
  }

  /** Every listed failed task is the payload of a failed id. */
  lemma ListedIsFailedPayload(q: Queue, i: int)
    requires 0 <= i < |GetFailedTasks(q)|
    ensures exists j :: 0 <= j < |q.failed| && q.failed[j] in q.data && q.data[q.failed[j]] == GetFailedTasks(q)[i]
  {
    var present := Present(q.failed, q.data);
    PresentMembers(q.failed, q.data);
    var j :| 0 <= j < |q.failed| && q.failed[j] == present[i];
  }

  /** Every failed id with a payload has it listed. */
  lemma FailedPayloadListed(q: Queue, j: int)
    requires 0 <= j < |q.failed| && q.failed[j] in q.data
    ensures q.data[q.failed[j]] in GetFailedTasks(q)
  {
    var present := Present(q.failed, q.data);
    PresentMembers(q.failed, q.data);
    var i :| 0 <= i < |present| && present[i] == q.failed[j];
    assert GetFailedTasks(q)[i] == q.data[q.failed[j]];
  }

  /** Every listed failed task is the payload of a failed id, every failed id
      with a payload has it listed, and the list is empty exactly when no
      failed id has a payload. */
  lemma FailedTasksMembership(q: Queue)
    ensures var r := GetFailedTasks(q);
            && (forall i :: 0 <= i < |r| ==> exists j :: 0 <= j < |q.failed| && q.failed[j] in q.data && q.data[q.failed[j]] == r[i])
            && (forall j :: 0 <= j < |q.failed| && q.failed[j] in q.data ==> q.data[q.failed[j]] in r)
            && (r == [] <==> forall j :: 0 <= j < |q.failed| ==> q.failed[j] !in q.data)
  {
    var r := GetFailedTasks(q);
    forall i | 0 <= i < |r|
      ensures exists j :: 0 <= j < |q.failed| && q.failed[j] in q.data && q.data[q.failed[j]] == r[i]
    {
      ListedIsFailedPayload(q, i);
    }
    forall j | 0 <= j < |q.failed| && q.failed[j] in q.data
      ensures q.data[q.failed[j]] in r
    {
      FailedPayloadListed(q, j);
    }
    if r != [] {
      ListedIsFailedPayload(q, 0);
    }
  }

  /** The queue together with the local files the tasks point to. */
  datatype Cleared = Cleared(queue: Queue, files: set<string>, outcome: Outcome)

  /** The loop of `clearFailedTasks`: delete each task's temp file, then its
      payload. A task without a temp path stops the loop with a null
      dereference, leaving the earlier deletions in place. */
  function DeletePayloads(tasks: seq<UploadTask>, q: Queue, files: set<string>): (r: Cleared)
    ensures r.queue.pending == q.pending && r.queue.failed == q.failed
    ensures r.outcome.Done? <==> forall i :: 0 <= i < |tasks| ==> tasks[i].tempFilePath.Some?
    ensures r.outcome.Failed? ==> r.outcome.failure == ThrownNullPointer
    ensures r.queue.data.Keys <= q.data.Keys && r.files <= files
    ensures r.outcome.Done? ==>
              && (forall k :: k in r.queue.data <==> k in q.data && forall i :: 0 <= i < |tasks| ==> tasks[i].id != k)
              && (forall f :: f in r.files <==> f in files && forall i :: 0 <= i < |tasks| ==> tasks[i].tempFilePath != Some(f))
    ensures forall k | k in r.queue.data :: r.queue.data[k] == q.data[k]
  {
    if |tasks| == 0 then Cleared(q, files, Done)
    else if tasks[0].tempFilePath.None? then Cleared(q, files, Failed(ThrownNullPointer))
    else
      var t := tasks[0];
      var r := DeletePayloads(tasks[1..], q.(data := q.data - {t.id}), files - {t.tempFilePath.value});
      assert forall i :: 1 <= i < |tasks| ==> tasks[i] == tasks[1..][i - 1];
      r
  }

  lemma FailedIdListed(q: Queue, k: string)
    requires Valid(q) && k in q.data && k in q.failed
    ensures exists i :: 0 <= i < |GetFailedTasks(q)| && GetFailedTasks(q)[i].id == k
  {
    var tasks := GetFailedTasks(q);
    FailedTasksMembership(q);
    var j :| 0 <= j < |q.failed| && q.failed[j] == k;
    assert q.data[k] in tasks;
    var i :| 0 <= i < |tasks| && tasks[i] == q.data[k];
  }

  lemma ListedIdFailed(q: Queue, k: string, i: int)
    requires Valid(q) && 0 <= i < |GetFailedTasks(q)| && GetFailedTasks(q)[i].id == k
    ensures k in q.data && k in q.failed
  {
    var tasks := GetFailedTasks(q);
    FailedTasksMembership(q);
    var j :| 0 <= j < |q.failed| && q.failed[j] in q.data && q.data[q.failed[j]] == tasks[i];
  }

  /** Under `Valid`, the listed failed payloads are exactly those of the
      stored ids on the failed list. */
  lemma FailedPayloadIds(q: Queue)
    ensures Valid(q) ==> forall k | k in q.data ::
              (k in q.failed <==> exists i :: 0 <= i < |GetFailedTasks(q)| && GetFailedTasks(q)[i].id == k)
  {
    var tasks := GetFailedTasks(q);
    forall k | k in q.data && Valid(q)
      ensures k in q.failed <==> exists i :: 0 <= i < |tasks| && tasks[i].id == k
    {
      if k in q.failed {
        FailedIdListed(q, k);
      }
      if exists i :: 0 <= i < |tasks| && tasks[i].id == k {
        var i :| 0 <= i < |tasks| && tasks[i].id == k;
        ListedIdFailed(q, k, i);
      }
    }
  }

  /** `clearFailedTasks`: nothing happens when no failed id has a payload.
      Otherwise every listed payload and its temp file are deleted and the
      failed list is dropped; the pending list is never touched. */
  function ClearFailedTasks(q: Queue, files: set<string>): (r: Cleared)
    ensures GetFailedTasks(q) == [] ==> r == Cleared(q, files, Done)
    ensures r.queue.pending == q.pending
    ensures r.queue.data.Keys <= q.data.Keys
    ensures forall k | k in r.queue.data :: r.queue.data[k] == q.data[k]
    ensures GetFailedTasks(q) != [] && r.outcome.Done? ==> r.queue.failed == []
    ensures Valid(q) && r.outcome.Done? ==> forall k :: k in r.queue.data <==> k in q.data && k !in q.failed
    ensures r.outcome.Failed? ==> r.queue.failed == q.failed
  {
    var tasks := GetFailedTasks(q);
    if tasks == [] then
      FailedTasksMembership(q);
      Cleared(q, files, Done)
    else
      var r := DeletePayloads(tasks, q, files);
      FailedPayloadIds(q);
      if r.outcome.Failed? then r
      else Cleared(r.queue.(failed := []), r.files, Done)
  }

  /** Clearing keeps payloads stored under their own ids. */
  lemma ClearKeepsValid(q: Queue, files: set<string>)
    requires Valid(q)
    ensures Valid(ClearFailedTasks(q, files).queue)
  {
  }

  /** `removeTaskData`: delete only the payload. */
  function RemoveTaskData(q: Queue, id: string): (r: Queue)
    ensures Valid(q) ==> Valid(r)
    ensures GetTask(r, id).None?
    ensures forall k | k != id :: GetTask(r, k) == GetTask(q, k)
    ensures r.pending == q.pending && r.failed == q.failed
  {
    q.(data := q.data - {id})
  }

  /** `getPendingCount`: the length of the pending list. */
  function GetPendingCount(q: Queue): (n: nat)
    ensures n == |q.pending|
    ensures n == 0 <==> TakeTask(q).0.None?
  {
    |q.pending|
  }
}
