/**
 * The record shapes of the users, workers and permits tables, the shapes the
 * store accepts on insert and on partial update, and the object spreads
 * (`{ ...existing, ...patch }`) the store builds records with.
 */
module Schema {
  import opened Wrappers

  /** A point in time as the clock reports it; the store only copies it. */
  type Timestamp = int

  datatype User = User(id: int, username: string, password: string, role: string)

  /** The insert shape of a user picks only the username and the password. */
  datatype InsertUser = InsertUser(username: string, password: string)

  /** `supervisorId` is `None` when the column is null or was never given. */
  datatype Worker = Worker(
    id: int, name: string, lastname: string, department: string, role: string,
    supervisorId: Option<int>)

  /** The insert shape of a worker keeps every column, `id` included (optional). */
  datatype InsertWorker = InsertWorker(
    id: Option<int>, name: string, lastname: string, department: string, role: string,
    supervisorId: Option<int>)

  /**
   * `Partial<InsertWorker>`: `None` for a field the patch does not carry.
   * `supervisorId` may be carried with the value null, hence the nested option.
   */
  datatype WorkerPatch = WorkerPatch(
    id: Option<int>, name: Option<string>, lastname: Option<string>,
    department: Option<string>, role: Option<string>, supervisorId: Option<Option<int>>)

  datatype Permit = Permit(
    id: int, workerId: int, permitType: string, startDate: string, endDate: string,
    reason: string, status: string, supervisorId: Option<int>, createdAt: Timestamp)

  /** The insert shape of a permit omits `id` and `createdAt`; `status` is optional. */
  datatype InsertPermit = InsertPermit(
    workerId: int, permitType: string, startDate: string, endDate: string,
    reason: string, status: Option<string>, supervisorId: Option<int>)

  /** `Partial<InsertPermit>`: it can carry neither `id` nor `createdAt`. */
  datatype PermitPatch = PermitPatch(
    workerId: Option<int>, permitType: Option<string>, startDate: Option<string>,
    endDate: Option<string>, reason: Option<string>, status: Option<string>,
    supervisorId: Option<Option<int>>)

  const NoWorkerChange := WorkerPatch(None, None, None, None, None, None)
  const NoPermitChange := PermitPatch(None, None, None, None, None, None, None)

  function Pick<T>(supplied: Option<T>, kept: T): T {
    match supplied
    case Some(v) => v
    case None => kept
  }

  /** `{ ...insertUser, id, role: "employee" }` */
  function NewUser(input: InsertUser, id: int): User {
    User(id, input.username, input.password, "employee")
  }

  /** `{ ...worker, id }`: the fresh id is written after the spread. */
  function NewWorker(input: InsertWorker, id: int): Worker {
    Worker(id, input.name, input.lastname, input.department, input.role, input.supervisorId)
  }

  /** `{ ...permit, id, createdAt, status: "pending" }` */
  function NewPermit(input: InsertPermit, id: int, now: Timestamp): Permit {
    Permit(id, input.workerId, input.permitType, input.startDate, input.endDate,
           input.reason, "pending", input.supervisorId, now)
  }

  /** `{ ...existing, ...patch }` for workers. */
  function MergeWorker(existing: Worker, patch: WorkerPatch): Worker {
    Worker(
      Pick(patch.id, existing.id), Pick(patch.name, existing.name),
      Pick(patch.lastname, existing.lastname), Pick(patch.department, existing.department),
      Pick(patch.role, existing.role), Pick(patch.supervisorId, existing.supervisorId))
  }

  /** `{ ...existing, ...patch }` for permits. */
  function MergePermit(existing: Permit, patch: PermitPatch): Permit {
    Permit(
      existing.id, Pick(patch.workerId, existing.workerId),
      Pick(patch.permitType, existing.permitType), Pick(patch.startDate, existing.startDate),
      Pick(patch.endDate, existing.endDate), Pick(patch.reason, existing.reason),
      Pick(patch.status, existing.status), Pick(patch.supervisorId, existing.supervisorId),
      existing.createdAt)
  }

  /** `{ ...p, ...q }` on two worker patches: the later patch wins field by field. */
  function ThenWorker(p: WorkerPatch, q: WorkerPatch): WorkerPatch {
    WorkerPatch(
      if q.id.Some? then q.id else p.id, if q.name.Some? then q.name else p.name,
      if q.lastname.Some? then q.lastname else p.lastname,
      if q.department.Some? then q.department else p.department,
      if q.role.Some? then q.role else p.role,
      if q.supervisorId.Some? then q.supervisorId else p.supervisorId)
  }

  /** The patch that carries every field of `w`. */
  function WorkerAsPatch(w: Worker): WorkerPatch {
    WorkerPatch(Some(w.id), Some(w.name), Some(w.lastname), Some(w.department), Some(w.role),
                Some(w.supervisorId))
  }

  /** Only the fields where `a` and `b` differ. */
  function WorkerDiff(a: Worker, b: Worker): WorkerPatch {
    WorkerPatch(
      if a.id == b.id then None else Some(b.id),
      if a.name == b.name then None else Some(b.name),
      if a.lastname == b.lastname then None else Some(b.lastname),
      if a.department == b.department then None else Some(b.department),
      if a.role == b.role then None else Some(b.role),
      if a.supervisorId == b.supervisorId then None else Some(b.supervisorId))
  }

  /** The fresh id overrides any `id` the insert carried; every other column is the input's. */
  lemma NewWorkerIgnoresInputId(input: InsertWorker, id: int, otherId: Option<int>)
    ensures NewWorker(input, id).id == id
    ensures NewWorker(input, id) == NewWorker(input.(id := otherId), id)
  {
  }

  /** A new permit is pending whatever status the input carried. */
  lemma NewPermitIsPending(input: InsertPermit, id: int, now: Timestamp)
    ensures NewPermit(input, id, now).status == "pending"
    ensures NewPermit(input, id, now) == NewPermit(input.(status := Some("approved")), id, now)
    ensures NewPermit(input, id, now).createdAt == now && NewPermit(input, id, now).id == id
  {
  }

  /** A new user is an employee whatever it is called. */
  lemma NewUserIsEmployee(input: InsertUser, id: int)
    ensures NewUser(input, id).role == "employee" && NewUser(input, id).id == id
  {
  }

  /** A patch that carries nothing leaves the record as it is. */
  lemma MergeWorkerNothing(w: Worker)
    ensures MergeWorker(w, NoWorkerChange) == w
  {
  }

  /** Merging a diff turns one record into the other: supplied fields win, absent ones are kept. */
  lemma MergeWorkerDiff(a: Worker, b: Worker)
    ensures MergeWorker(a, WorkerDiff(a, b)) == b
    ensures MergeWorker(a, WorkerAsPatch(b)) == b
  {
  }

  /** Applying the same patch twice is applying it once. */
  lemma MergeWorkerIdempotent(w: Worker, p: WorkerPatch)
    ensures MergeWorker(MergeWorker(w, p), p) == MergeWorker(w, p)
  {
  }

  /** Two successive updates equal one update with the combined patch. */
  lemma MergeWorkerThen(w: Worker, p: WorkerPatch, q: WorkerPatch)
    ensures MergeWorker(MergeWorker(w, p), q) == MergeWorker(w, ThenWorker(p, q))
  {
  }

  /** A worker patch may carry an `id`, and the merged record then disagrees with its old id. */
  lemma MergeWorkerCanChangeId(w: Worker)
    ensures MergeWorker(w, NoWorkerChange.(id := Some(w.id + 1))).id != w.id
  {
  }

  /** A permit patch cannot touch `id` or `createdAt`. */
  lemma MergePermitKeepsIdentity(p: Permit, patch: PermitPatch)
    ensures MergePermit(p, patch).id == p.id
    ensures MergePermit(p, patch).createdAt == p.createdAt
  {
  }

  /** No transition rule: any status can follow any status, `approved` to `pending` included. */
  lemma AnyStatusFollowsAny(p: Permit, status: string)
    ensures MergePermit(p, NoPermitChange.(status := Some(status))) == p.(status := status)
  {
  }

  lemma MergePermitNothing(p: Permit)
    ensures MergePermit(p, NoPermitChange) == p
  {
  }
}
