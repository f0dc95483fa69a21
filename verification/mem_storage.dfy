/** The in-memory directory of users and jobs
    (cmd/server/internal/storage/mem_storage.go): looking a user up by
    e-mail, the permission rule, and the job map. */
module MemStorage {
  import opened Wrappers
  import Storage

  /** A user's role. */
  datatype Permission = Read | Write

  datatype User = User(id: string, email: string, role: Permission)

  /** The users keyed by id, and the jobs keyed by job id. A Go `*Job` is
      stored by value here. */
  datatype Store = Store(users: map<string, User>, jobs: map<string, Storage.Job>)

  /** Every user is filed under its own id. */
  predicate KeysMatch(m: Store) {
    forall k :: k in m.users ==> m.users[k].id == k
  }

  /** `NewMemStorage` followed by `init`: one Write user and one Read user,
      no jobs. `writerId` and `readerId` are the fresh strings
      `uuid.NewString` would return. */
  function NewMemStorage(writerId: string, readerId: string): (m: Store)
    ensures KeysMatch(m)
    ensures m.jobs == map[]
    ensures m.users.Keys == {writerId, readerId}
    ensures m.users[readerId] == User(readerId, "marcel+client2@email.com", Read)
    ensures writerId != readerId ==> m.users[writerId] == User(writerId, "marcel+client@email.com", Write)
  {
    var users := map[writerId := User(writerId, "marcel+client@email.com", Write)];
    Store(users[readerId := User(readerId, "marcel+client2@email.com", Read)], map[])
  }

  /** `GetUserId`: the id of some user with this e-mail. Go's map iteration
      order decides which one when several match; here the choice is
      arbitrary. */
  method GetUserId(m: Store, email: string) returns (id: string, ok: bool)
    ensures ok <==> exists k :: k in m.users && m.users[k].email == email
    ensures ok ==> exists k :: k in m.users && m.users[k].email == email && m.users[k].id == id
    ensures !ok ==> id == ""
  {
    if k :| k in m.users && m.users[k].email == email {
      id, ok := m.users[k].id, true;
    } else {
      id, ok := "", false;
    }
  }

  /** `Authorized`: a known user may do anything, except that a Read user
      may neither run nor stop a job. */
  function Authorized(m: Store, userId: string, op: Storage.Operation): (allowed: bool)
    ensures userId !in m.users ==> !allowed
    ensures userId in m.users && m.users[userId].role == Read ==>
              (allowed <==> op == Storage.Status || op == Storage.Output)
    ensures userId in m.users && m.users[userId].role == Write ==> allowed
  {
    if userId !in m.users then false
    else if (op.Run? || op.Stop?) && m.users[userId].role == Read then false
    else true
  }

  /** `SaveJob` */
  function SaveJob(m: Store, jobId: string, job: Storage.Job): (m': Store)
    ensures m'.users == m.users
    ensures jobId in m'.jobs && m'.jobs[jobId] == job
    ensures m'.jobs.Keys == m.jobs.Keys + {jobId}
    ensures forall k :: k in m.jobs && k != jobId ==> m'.jobs[k] == m.jobs[k]
  {
    m.(jobs := m.jobs[jobId := job])
  }

  /** `GetJob`: the job stored under the id, if any. */
  function GetJob(m: Store, jobId: string): (r: Option<Storage.Job>)
    ensures r.Some? <==> jobId in m.jobs
    ensures r.Some? ==> r.value == m.jobs[jobId]
  {
    if jobId in m.jobs then Some(m.jobs[jobId]) else None
  }

  /** A saved job is found under its id, and no other lookup changes. */
  lemma SaveThenGet(m: Store, jobId: string, job: Storage.Job, other: string)
    ensures GetJob(SaveJob(m, jobId, job), jobId) == Some(job)
    ensures other != jobId ==> GetJob(SaveJob(m, jobId, job), other) == GetJob(m, other)
  {
  }

  /** Saving jobs never changes the users, so the directory stays well keyed. */
  lemma SaveJobKeepsUsers(m: Store, jobId: string, job: Storage.Job)
    requires KeysMatch(m)
    ensures KeysMatch(SaveJob(m, jobId, job))
  {
  }

  /** A series of SaveJob calls. */
  function SaveJobs(m: Store, saves: seq<(string, Storage.Job)>): (m': Store)
    ensures m'.users == m.users
    decreases |saves|
  {
    if saves == [] then m else SaveJobs(SaveJob(m, saves[0].0, saves[0].1), saves[1..])
  }

  /** After a series of saves, GetJob finds exactly the ids that were
      stored before or saved since; any other id is not found. */
  lemma {:induction false} GetJobFindsOnlySaved(m: Store, saves: seq<(string, Storage.Job)>, jobId: string)
    ensures GetJob(SaveJobs(m, saves), jobId).Some? <==>
              jobId in m.jobs || exists i :: 0 <= i < |saves| && saves[i].0 == jobId
    decreases |saves|
  {
    if saves != [] {
      var m1 := SaveJob(m, saves[0].0, saves[0].1);
      GetJobFindsOnlySaved(m1, saves[1..], jobId);
      if exists i :: 0 <= i < |saves[1..]| && saves[1..][i].0 == jobId {
        var i :| 0 <= i < |saves[1..]| && saves[1..][i].0 == jobId;
        assert saves[i + 1].0 == jobId;
      }
      if exists i :: 0 <= i < |saves| && saves[i].0 == jobId {
        var i :| 0 <= i < |saves| && saves[i].0 == jobId;
        if i > 0 {
          assert saves[1..][i - 1].0 == jobId;
        }
      }
    }
  }

  /** In a well-keyed directory the id GetUserId returns names a stored
      user with that e-mail, so the permission check that follows it finds
      the user. */
  lemma FoundUserIsKnown(m: Store, email: string, id: string)
    requires KeysMatch(m)
    requires exists k :: k in m.users && m.users[k].email == email && m.users[k].id == id
    ensures id in m.users && m.users[id].email == email
    ensures Authorized(m, id, Storage.Status) && Authorized(m, id, Storage.Output)
  {
  }

  /** In the seeded directory the Write user may run jobs and the Read user
      may not. */
  lemma SeededPermissions(writerId: string, readerId: string)
    requires writerId != readerId
    ensures Authorized(NewMemStorage(writerId, readerId), writerId, Storage.Run)
    ensures !Authorized(NewMemStorage(writerId, readerId), readerId, Storage.Run)
    ensures !Authorized(NewMemStorage(writerId, readerId), readerId, Storage.Stop)
    ensures Authorized(NewMemStorage(writerId, readerId), readerId, Storage.Output)
  {
  }
}
