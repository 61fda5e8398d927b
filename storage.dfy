/**
 * The in-memory store: three JavaScript maps keyed by id, and one id counter per
 * table, each starting at 1 and post-incremented on every insert.
 */
module Storage {
  import opened Wrappers
  import opened JsArrays
  import opened JsMaps
  import opened Schema
  import OrgChart

  /**
   * A table issued by a counter: its keys are all below the counter, at least 1,
   * and listed in increasing order (each insert takes the counter's current value).
   */
  ghost predicate Issued<V>(m: OrderedMap<V>, next: int) {
    && JsMaps.Valid(m)
    && 1 <= next
    && Increasing(m.keys)
    && (forall i :: 0 <= i < |m.keys| ==> 1 <= m.keys[i] < next)
  }

  /** Inserting under the counter's value keeps a table issued by the raised counter. */
  lemma IssuedAfterInsert<V>(m: OrderedMap<V>, next: int, v: V)
    requires Issued(m, next)
    ensures next !in m.entries
    ensures Issued(Set(m, next, v), next + 1)
  {
  }

  class MemStorage {
    var users: OrderedMap<User>
    var workers: OrderedMap<Worker>
    var permits: OrderedMap<Permit>
    /** `currentId.users`, `currentId.workers`, `currentId.permits` */
    var nextUserId: int
    var nextWorkerId: int
    var nextPermitId: int

    /**
     * Users and permits are stored under their own id. Workers need not be: an
     * update may carry an `id` field.
     */
    ghost predicate Valid()
      reads this
    {
      && Issued(users, nextUserId)
      && Issued(workers, nextWorkerId)
      && Issued(permits, nextPermitId)
      && (forall k :: k in users.entries ==> users.entries[k].id == k)
      && (forall k :: k in permits.entries ==> permits.entries[k].id == k)
    }

    constructor ()
      ensures Valid()
      ensures users == Empty() && workers == Empty() && permits == Empty()
      ensures nextUserId == 1 && nextWorkerId == 1 && nextPermitId == 1
    {
      users, workers, permits := Empty(), Empty(), Empty();
      nextUserId, nextWorkerId, nextPermitId := 1, 1, 1;
    }

    // User methods

    method GetUser(id: int) returns (u: Option<User>)
      requires Valid()
      ensures u.Some? <==> id in users.entries
      ensures u.Some? ==> u.value == users.entries[id] && u.value.id == id
    {
      u := Get(users, id);
    }

    /** The earliest-registered user with this name, or `undefined`. */
    method GetUserByUsername(username: string) returns (u: Option<User>)
      requires Valid()
      ensures u.None? <==> forall k :: k in users.entries ==> users.entries[k].username != username
      ensures u.Some? ==> u.value.id in users.entries && users.entries[u.value.id] == u.value
      ensures u.Some? ==> u.value.username == username
      ensures u.Some? ==> forall k :: k in users.entries && users.entries[k].username == username ==>
                                        u.value.id <= k
    {
      var all := Values(users);
      ghost var i := FindIndex(all, (x: User) => x.username == username);
      u := Find(all, (x: User) => x.username == username);
      assert u == if i.Some? then Some(all[i.value]) else None;
      if i.Some? {
        forall k | k in users.entries && users.entries[k].username == username
          ensures users.keys[i.value] <= k
        {
          var j :| 0 <= j < |users.keys| && users.keys[j] == k;
          assert all[j].username == username;
        }
      } else {
        forall k | k in users.entries
          ensures users.entries[k].username != username
        {
          var j :| 0 <= j < |users.keys| && users.keys[j] == k;
          assert all[j] == users.entries[k];
        }
      }
    }

    /** Registers a user as an employee; an existing user of the same name is no obstacle. */
    method CreateUser(input: InsertUser) returns (u: User)
      requires Valid()
      modifies this
      ensures Valid()
      ensures u == NewUser(input, old(nextUserId)) && old(nextUserId) !in old(users.entries)
      ensures users == Set(old(users), u.id, u) && nextUserId == old(nextUserId) + 1
      ensures Values(users) == Values(old(users)) + [u]
      ensures workers == old(workers) && permits == old(permits)
      ensures nextWorkerId == old(nextWorkerId) && nextPermitId == old(nextPermitId)
    {
      var id := nextUserId;
      nextUserId := nextUserId + 1;
      u := NewUser(input, id);
      ValuesAfterSetNew(users, id, u);
      IssuedAfterInsert(users, id, u);
      users := Set(users, id, u);
    }

    // Worker methods

    /** Every worker in the order it was created (increasing key order). */
    method GetWorkers() returns (ws: seq<Worker>)
      requires Valid()
      ensures |ws| == |workers.keys|
      ensures forall i :: 0 <= i < |ws| ==> ws[i] == workers.entries[workers.keys[i]]
      ensures forall i, j :: 0 <= i < j < |ws| ==> workers.keys[i] < workers.keys[j]
    {
      ws := Values(workers);
    }

    method GetWorker(id: int) returns (w: Option<Worker>)
      requires Valid()
      ensures w.Some? <==> id in workers.entries
      ensures w.Some? ==> w.value == workers.entries[id]
    {
      w := Get(workers, id);
    }

    /** Stores the input under a fresh id, which also becomes the record's `id`. */
    method CreateWorker(input: InsertWorker) returns (w: Worker)
      requires Valid()
      modifies this
      ensures Valid()
      ensures w == NewWorker(input, old(nextWorkerId)) && old(nextWorkerId) !in old(workers.entries)
      ensures workers == Set(old(workers), w.id, w) && nextWorkerId == old(nextWorkerId) + 1
      ensures Get(workers, w.id) == Some(w)
      ensures Values(workers) == Values(old(workers)) + [w]
      ensures users == old(users) && permits == old(permits)
      ensures nextUserId == old(nextUserId) && nextPermitId == old(nextPermitId)
    {
      var id := nextWorkerId;
      nextWorkerId := nextWorkerId + 1;
      w := NewWorker(input, id);
      ValuesAfterSetNew(workers, id, w);
      IssuedAfterInsert(workers, id, w);
      workers := Set(workers, id, w);
    }

    /**
     * Merges the patch over the stored worker, which keeps its key and its place;
     * throws "Worker not found" and changes nothing when the key is absent.
     */
    method UpdateWorker(id: int, patch: WorkerPatch) returns (r: Result<Worker>)
      requires Valid()
      modifies this
      ensures Valid()
      ensures id !in old(workers.entries) ==> r == Err("Worker not found") && workers == old(workers)
      ensures id in old(workers.entries) ==>
        && r == Ok(MergeWorker(old(workers.entries[id]), patch))
        && workers == Set(old(workers), id, r.value)
        && workers.keys == old(workers.keys)
      ensures users == old(users) && permits == old(permits)
      ensures nextUserId == old(nextUserId) && nextWorkerId == old(nextWorkerId)
      ensures nextPermitId == old(nextPermitId)
    {
      var existing := Get(workers, id);
      if existing.None? {
        return Err("Worker not found");
      }
      var updated := MergeWorker(existing.value, patch);
      workers := Set(workers, id, updated);
      r := Ok(updated);
    }

    /**
     * Removes the key if present. Other workers are left as they are, including
     * any whose `supervisorId` names the removed key.
     */
    method DeleteWorker(id: int)
      requires Valid()
      modifies this
      ensures Valid()
      ensures workers == Delete(old(workers), id) && id !in workers.entries
      ensures id !in old(workers.entries) ==> workers == old(workers)
      ensures forall k :: k in old(workers.entries) && k != id ==>
                            k in workers.entries && workers.entries[k] == old(workers.entries[k])
      ensures forall i :: 0 <= i < |old(workers.keys)| && old(workers.keys)[i] == id ==>
                            Values(workers) == Values(old(workers))[..i] + Values(old(workers))[i + 1..]
      ensures users == old(users) && permits == old(permits)
      ensures nextUserId == old(nextUserId) && nextWorkerId == old(nextWorkerId)
      ensures nextPermitId == old(nextPermitId)
    {
      if id !in workers.entries {
        DeleteAbsent(workers, id);
      }
      forall i | 0 <= i < |workers.keys| && workers.keys[i] == id
        ensures Values(Delete(workers, id)) == Values(workers)[..i] + Values(workers)[i + 1..]
      {
        ValuesAfterDelete(workers, i);
      }
      WithoutKeepsIncreasing(workers.keys, id);
      workers := Delete(workers, id);
    }

    // Permit methods

    /** Every permit in the order it was created, which is increasing id order. */
    method GetPermits() returns (ps: seq<Permit>)
      requires Valid()
      ensures |ps| == |permits.keys|
      ensures forall i :: 0 <= i < |ps| ==> ps[i] == permits.entries[permits.keys[i]]
      ensures forall i, j :: 0 <= i < j < |ps| ==> ps[i].id < ps[j].id
    {
      ps := Values(permits);
    }

    method GetPermit(id: int) returns (p: Option<Permit>)
      requires Valid()
      ensures p.Some? <==> id in permits.entries
      ensures p.Some? ==> p.value == permits.entries[id] && p.value.id == id
    {
      p := Get(permits, id);
    }

    /** Stores a pending permit under a fresh id, stamped with the clock reading `now`. */
    method CreatePermit(input: InsertPermit, now: Timestamp) returns (p: Permit)
      requires Valid()
      modifies this
      ensures Valid()
      ensures p == NewPermit(input, old(nextPermitId), now) && old(nextPermitId) !in old(permits.entries)
      ensures p.status == "pending" && p.createdAt == now
      ensures permits == Set(old(permits), p.id, p) && nextPermitId == old(nextPermitId) + 1
      ensures Values(permits) == Values(old(permits)) + [p]
      ensures users == old(users) && workers == old(workers)
      ensures nextUserId == old(nextUserId) && nextWorkerId == old(nextWorkerId)
    {
      var id := nextPermitId;
      nextPermitId := nextPermitId + 1;
      p := NewPermit(input, id, now);
      ValuesAfterSetNew(permits, id, p);
      IssuedAfterInsert(permits, id, p);
      permits := Set(permits, id, p);
    }

    /**
     * Merges the patch over the stored permit, whatever its current status;
     * throws "Permit not found" and changes nothing when the key is absent.
     */
    method UpdatePermit(id: int, patch: PermitPatch) returns (r: Result<Permit>)
      requires Valid()
      modifies this
      ensures Valid()
      ensures id !in old(permits.entries) ==> r == Err("Permit not found") && permits == old(permits)
      ensures id in old(permits.entries) ==>
        && r == Ok(MergePermit(old(permits.entries[id]), patch))
        && permits == Set(old(permits), id, r.value)
        && permits.keys == old(permits.keys)
        && (patch.status.Some? ==> r.value.status == patch.status.value)
      ensures users == old(users) && workers == old(workers)
      ensures nextUserId == old(nextUserId) && nextWorkerId == old(nextWorkerId)
      ensures nextPermitId == old(nextPermitId)
    {
      var existing := Get(permits, id);
      if existing.None? {
        return Err("Permit not found");
      }
      var updated := MergePermit(existing.value, patch);
      permits := Set(permits, id, updated);
      r := Ok(updated);
    }
  }

  /**
   * Ids per table are 1, 2, 3, ... and the counters are independent: a permit
   * created between two workers still gets id 1.
   */
  method IdsAreIssuedInSequence(w: InsertWorker, p: InsertPermit, now: Timestamp)
    returns (first: Worker, second: Worker, permit: Permit, third: Worker)
    ensures first.id == 1 && second.id == 2 && third.id == 3 && permit.id == 1
  {
    var store := new MemStorage();
    first := store.CreateWorker(w);
    second := store.CreateWorker(w.(id := Some(first.id)));
    permit := store.CreatePermit(p, now);
    third := store.CreateWorker(w);
  }

  /**
   * A permit asked for as approved is stored pending; it can then be approved and
   * sent back to pending, since no transition is refused.
   */
  method PermitStatusRoundTrip(p: InsertPermit, now: Timestamp)
    returns (created: Permit, approved: Result<Permit>, reopened: Result<Permit>)
    ensures created.status == "pending"
    ensures approved.Ok? && approved.value.status == "approved"
    ensures reopened.Ok? && reopened.value.status == "pending"
    ensures reopened.value == created
  {
    var store := new MemStorage();
    created := store.CreatePermit(p.(status := Some("approved")), now);
    approved := store.UpdatePermit(created.id, NoPermitChange.(status := Some("approved")));
    reopened := store.UpdatePermit(created.id, NoPermitChange.(status := Some("pending")));
  }

  /**
   * After a delete the worker reads as `undefined`, updating it throws, and a
   * worker it supervised still names it.
   */
  method DeleteLeavesDanglingSupervisor(boss: InsertWorker, report: InsertWorker)
    returns (b: Worker, afterDelete: Option<Worker>, update: Result<Worker>, r: Option<Worker>)
    ensures afterDelete.None?
    ensures update == Err("Worker not found")
    ensures r.Some? && r.value.supervisorId == Some(b.id)
  {
    var store := new MemStorage();
    b := store.CreateWorker(boss);
    var created := store.CreateWorker(report.(supervisorId := Some(b.id)));
    store.DeleteWorker(b.id);
    afterDelete := store.GetWorker(b.id);
    update := store.UpdateWorker(b.id, NoWorkerChange.(name := Some("x")));
    r := store.GetWorker(created.id);
  }

  /**
   * The two quirks together: worker 3 is patched to carry id 1, then worker 1 is
   * deleted. Worker 2 still names 1 as its supervisor, and the chart's lookup by
   * record id now finds worker 3 (stored under key 3).
   */
  method PatchedIdTakesOverDanglingReference(a: InsertWorker, b: InsertWorker, c: InsertWorker)
    returns (report: Worker, impostor: Worker, listed: seq<Worker>, boss: Option<Worker>)
    ensures report.id == 2 && report.supervisorId == Some(1)
    ensures impostor.id == 1 && impostor.name == c.name && impostor.department == c.department
    ensures |listed| == 2 && listed[0] == report && listed[1] == impostor
    ensures boss == Some(impostor)
  {
    var store;
    store, report, impostor := ThreeWorkersThirdPatchedToFirstId(a, b, c);
    listed := DeleteFirstOfThree(store, report, impostor);
    OrgChart.SupervisorIsFirstMatch(report, listed, 1);
    boss := OrgChart.SupervisorOf(report, listed);
  }

  /** Workers 1, 2 (reporting to 1) and 3 are created; worker 3 is then patched to id 1. */
  method ThreeWorkersThirdPatchedToFirstId(a: InsertWorker, b: InsertWorker, c: InsertWorker)
    returns (store: MemStorage, report: Worker, impostor: Worker)
    ensures fresh(store) && store.Valid()
    ensures report.id == 2 && report.supervisorId == Some(1)
    ensures impostor.id == 1 && impostor.name == c.name && impostor.department == c.department
    ensures store.workers.keys == [1, 2, 3]
    ensures 2 in store.workers.entries && store.workers.entries[2] == report
    ensures 3 in store.workers.entries && store.workers.entries[3] == impostor
  {
    store := new MemStorage();
    var first := store.CreateWorker(a);
    report := store.CreateWorker(b.(supervisorId := Some(first.id)));
    var third := store.CreateWorker(c);
    assert store.workers.keys == [1, 2, 3] && store.workers.entries[2] == report;
    var updated := store.UpdateWorker(third.id, NoWorkerChange.(id := Some(first.id)));
    impostor := updated.value;
  }

  /** Deleting key 1 from keys 1, 2, 3 leaves the other two workers listed in order. */
  method DeleteFirstOfThree(store: MemStorage, second: Worker, third: Worker) returns (listed: seq<Worker>)
    requires store.Valid() && store.workers.keys == [1, 2, 3]
    requires 2 in store.workers.entries && store.workers.entries[2] == second
    requires 3 in store.workers.entries && store.workers.entries[3] == third
    modifies store
    ensures store.Valid() && store.workers.keys == [2, 3]
    ensures |listed| == 2 && listed[0] == second && listed[1] == third
  {
    WithoutAt(store.workers.keys, 0);
    assert [1, 2, 3][..0] + [1, 2, 3][1..] == [2, 3];
    store.DeleteWorker(1);
    assert store.workers.keys == [2, 3];
    assert store.workers.entries[2] == second && store.workers.entries[3] == third;
    listed := store.GetWorkers();
  }
}
