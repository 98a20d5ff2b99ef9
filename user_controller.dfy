/**
 * The user handlers of the admin area. Their routes run authentication and then the admin gate
 * (RoleMiddleware.RestrictToAdmin), so each handler receives an authenticated administrator.
 * No response carries a password: the shapes below have no field for it.
 */
module UserController {
  import opened Wrappers
  import opened Entities
  import opened Ordering
  import opened Pagination
  import TaskController

  /** A user in the admin list: the selected fields and `_count.tasks`. */
  datatype UserSummary = UserSummary(id: int, email: string, name: string, role: Role,
                                     createdAt: int, taskCount: nat)

  /** The `data` of the user list: one page of users and the pagination block. */
  datatype UserPage = UserPage(users: seq<UserSummary>, pagination: PageInfo)

  /** A task as selected inside a user's detail: no `userId`. */
  datatype TaskDigest = TaskDigest(id: int, title: string, description: Option<string>,
                                   status: Status, createdAt: int)

  /** A user's detail: the selected fields and all of the user's tasks. */
  datatype UserDetail = UserDetail(id: int, email: string, name: string, role: Role,
                                   createdAt: int, tasks: seq<TaskDigest>)

  function Summarize(u: User, tasks: map<int, Task>): UserSummary {
    UserSummary(u.id, u.email, u.name, u.role, u.createdAt, TaskCount(tasks, u.id))
  }

  function Digest(t: Task): TaskDigest {
    TaskDigest(t.id, t.title, t.description, t.status, t.createdAt)
  }

  /** All users, newest first: the rows the admin list pages through. */
  function UserListing(users: map<int, User>): (s: seq<User>)
    requires UsersKeyed(users)
    ensures |s| == |users|
    ensures forall i :: 0 <= i < |s| ==> s[i].id in users && users[s[i].id] == s[i]
    ensures forall k :: k in users ==> users[k] in s
    ensures forall i, j :: 0 <= i < j < |s| ==> s[i].createdAt >= s[j].createdAt
  {
    var stamps := map k | k in users :: users[k].createdAt;
    var ks := NewestFirst(stamps);
    UsersAtListedKeys(users, stamps, ks);
    RowsAt(users, ks)
  }

  /** Reading the users at keys in listing order reads each stored user once, newest first. */
  lemma UsersAtListedKeys(users: map<int, User>, stamps: map<int, int>, ks: seq<int>)
    requires UsersKeyed(users)
    requires stamps == map k | k in users :: users[k].createdAt
    requires InListingOrder(stamps, ks)
    ensures forall i :: 0 <= i < |ks| ==> ks[i] in users
    ensures var s := RowsAt(users, ks);
      && |s| == |users|
      && (forall i :: 0 <= i < |s| ==> s[i].id in users && users[s[i].id] == s[i])
      && (forall k :: k in users ==> users[k] in s)
      && (forall i, j :: 0 <= i < j < |s| ==> s[i].createdAt >= s[j].createdAt)
  {
    ListedRows(users, stamps, ks);
    var s := RowsAt(users, ks);
    forall i | 0 <= i < |s|
      ensures s[i].id in users && users[s[i].id] == s[i]
    {
      assert ks[i] in users && s[i] == users[ks[i]] && users[ks[i]].id == ks[i];
    }
    forall i, j | 0 <= i < j < |s|
      ensures s[i].createdAt >= s[j].createdAt
    {
      assert s[i].createdAt == stamps[ks[i]] && s[j].createdAt == stamps[ks[j]];
    }
  }

  /** The summary of each user, position by position. */
  function Summaries(us: seq<User>, tasks: map<int, Task>): (r: seq<UserSummary>)
    ensures |r| == |us|
    ensures forall i :: 0 <= i < |r| ==> r[i] == Summarize(us[i], tasks)
  {
    seq(|us|, i requires 0 <= i < |us| => Summarize(us[i], tasks))
  }

  /** The digest of each task, position by position. */
  function Digests(ts: seq<Task>): (r: seq<TaskDigest>)
    ensures |r| == |ts|
    ensures forall i :: 0 <= i < |r| ==> r[i] == Digest(ts[i])
  {
    seq(|ts|, i requires 0 <= i < |ts| => Digest(ts[i]))
  }

  /** Summaries of stored users are summaries of the stored rows. */
  lemma SummariesOfStoredUsers(users: map<int, User>, tasks: map<int, Task>, us: seq<User>)
    requires forall i :: 0 <= i < |us| ==> us[i].id in users && users[us[i].id] == us[i]
    ensures var listed := Summaries(us, tasks);
      forall i :: 0 <= i < |listed| ==>
        listed[i].id in users && listed[i] == Summarize(users[listed[i].id], tasks)
  {
    var listed := Summaries(us, tasks);
    forall i | 0 <= i < |listed|
      ensures listed[i].id in users && listed[i] == Summarize(users[listed[i].id], tasks)
    {
      assert listed[i].id == us[i].id;
    }
  }

  /** The summary of each user of `us` is among the summaries of `us`. */
  lemma SummaryOfMember(us: seq<User>, tasks: map<int, Task>, u: User)
    requires u in us
    ensures Summarize(u, tasks) in Summaries(us, tasks)
  {
    var i :| 0 <= i < |us| && us[i] == u;
    assert Summaries(us, tasks)[i] == Summarize(u, tasks);
  }

  /** Summarising keeps the newest-first order. */
  lemma SummariesKeepOrder(us: seq<User>, tasks: map<int, Task>)
    requires forall i, j :: 0 <= i < j < |us| ==> us[i].createdAt >= us[j].createdAt
    ensures var listed := Summaries(us, tasks);
      forall i, j :: 0 <= i < j < |listed| ==> listed[i].createdAt >= listed[j].createdAt
  {
    var listed := Summaries(us, tasks);
    forall i, j | 0 <= i < j < |listed|
      ensures listed[i].createdAt >= listed[j].createdAt
    {
      assert listed[i].createdAt == us[i].createdAt && listed[j].createdAt == us[j].createdAt;
    }
  }

  /** A window of the listing holds stored users and keeps the listing's order. */
  lemma ListingWindow(users: map<int, User>, skip: nat, size: nat)
    requires UsersKeyed(users)
    ensures var w := Window(UserListing(users), skip, size);
      && |w| <= size
      && (forall i :: 0 <= i < |w| ==> w[i].id in users && users[w[i].id] == w[i])
      && (forall i, j :: 0 <= i < j < |w| ==> w[i].createdAt >= w[j].createdAt)
  {
    var all := UserListing(users);
    var w := Window(all, skip, size);
    forall i, j | 0 <= i < j < |w|
      ensures w[i].createdAt >= w[j].createdAt
    {
      assert w[i] == all[skip + i] && w[j] == all[skip + j];
    }
  }

  /** The summaries of the users in one window of the listing, in listing order. */
  function SummaryWindow(users: map<int, User>, tasks: map<int, Task>, skip: nat, size: nat)
    : (listed: seq<UserSummary>)
    requires UsersKeyed(users)
    ensures listed == Summaries(Window(UserListing(users), skip, size), tasks)
    ensures |listed| <= size
    ensures forall i :: 0 <= i < |listed| ==>
      listed[i].id in users && listed[i] == Summarize(users[listed[i].id], tasks)
    ensures forall i, j :: 0 <= i < j < |listed| ==> listed[i].createdAt >= listed[j].createdAt
  {
    ListingWindow(users, skip, size);
    var window := Window(UserListing(users), skip, size);
    SummariesOfStoredUsers(users, tasks, window);
    SummariesKeepOrder(window, tasks);
    Summaries(window, tasks)
  }

  /**
   * GET /users. All users, newest first, one page of them, each with the number of tasks it owns.
   * The model answers a negative page or limit with 500; the database's own reading of a negative
   * `skip` or `take` is not modelled.
   */
  function GetAllUsers(users: map<int, User>, tasks: map<int, Task>, page: Option<int>, limit: Option<int>)
    : (r: Reply<UserPage>)
    requires UsersKeyed(users)
    ensures r.status == 200 || r.status == 500
    ensures r.status == 200 <==> PageParam(page) >= 1 && LimitParam(limit) >= 1
    ensures r.success <==> r.status == 200
    ensures r.status == 200 ==> r.data.Some?
    ensures r.status == 200 ==>
      var listed := r.data.value.users;
      && |listed| <= LimitParam(limit)
      && (forall i :: 0 <= i < |listed| ==>
            listed[i].id in users && listed[i] == Summarize(users[listed[i].id], tasks))
      && (forall i, j :: 0 <= i < j < |listed| ==> listed[i].createdAt >= listed[j].createdAt)
    ensures r.status == 200 ==>
      r.data.value.pagination ==
        PageInfo(PageParam(page), CeilDiv(|users|, LimitParam(limit)), |users|, LimitParam(limit))
  {
    var pageNo := PageParam(page);
    var size := LimitParam(limit);
    if pageNo < 1 || size < 1 then
      Fail(500, "Error fetching users")
    else
      MulMonotone(0, pageNo - 1, size);
      var listed := SummaryWindow(users, tasks, Skip(pageNo, size), size);
      Reply(200, true, None, Some(UserPage(listed, PageInfo(pageNo, CeilDiv(|users|, size), |users|, size))))
  }

  /** Every task of user `id` appears in its unfiltered listing. */
  lemma OwnListingComplete(tasks: map<int, Task>, id: int)
    requires TasksKeyed(tasks)
    ensures var own := TaskController.Listing(tasks, id, None);
      && |own| == TaskCount(tasks, id)
      && forall k :: k in tasks && tasks[k].userId == id ==> tasks[k] in own
  {
    assert TaskController.Matching(tasks, id, None) == TasksOf(tasks, id);
  }

  /** The digests of all of user `id`'s tasks, newest first. */
  function TaskDigests(tasks: map<int, Task>, id: int): (ds: seq<TaskDigest>)
    requires TasksKeyed(tasks)
    ensures |ds| == TaskCount(tasks, id)
    ensures forall i :: 0 <= i < |ds| ==>
      ds[i].id in tasks && tasks[ds[i].id].userId == id && ds[i] == Digest(tasks[ds[i].id])
    ensures forall k :: k in tasks && tasks[k].userId == id ==> Digest(tasks[k]) in ds
    ensures forall i, j :: 0 <= i < j < |ds| ==> ds[i].createdAt >= ds[j].createdAt
  {
    var own := TaskController.Listing(tasks, id, None);
    OwnListingComplete(tasks, id);
    DigestsOfOwnTasks(tasks, id, own);
    DigestsKeepOrder(own);
    Digests(own)
  }

  /** The digests of a list holding exactly the stored tasks of user `id` are the digests of those tasks. */
  lemma DigestsOfOwnTasks(tasks: map<int, Task>, id: int, own: seq<Task>)
    requires forall i :: 0 <= i < |own| ==> own[i].id in tasks && tasks[own[i].id] == own[i] && own[i].userId == id
    requires forall k :: k in tasks && tasks[k].userId == id ==> tasks[k] in own
    ensures var ds := Digests(own);
      && (forall i :: 0 <= i < |ds| ==>
            ds[i].id in tasks && tasks[ds[i].id].userId == id && ds[i] == Digest(tasks[ds[i].id]))
      && (forall k :: k in tasks && tasks[k].userId == id ==> Digest(tasks[k]) in ds)
  {
    var ds := Digests(own);
    forall i | 0 <= i < |ds|
      ensures ds[i].id in tasks && tasks[ds[i].id].userId == id && ds[i] == Digest(tasks[ds[i].id])
    {
      assert ds[i] == Digest(own[i]) && ds[i].id == own[i].id;
    }
    forall k | k in tasks && tasks[k].userId == id
      ensures Digest(tasks[k]) in ds
    {
      var i :| 0 <= i < |own| && own[i] == tasks[k];
      assert ds[i] == Digest(tasks[k]);
    }
  }

  /** Taking digests keeps the newest-first order. */
  lemma DigestsKeepOrder(own: seq<Task>)
    requires forall i, j :: 0 <= i < j < |own| ==> own[i].createdAt >= own[j].createdAt
    ensures var ds := Digests(own);
      forall i, j :: 0 <= i < j < |ds| ==> ds[i].createdAt >= ds[j].createdAt
  {
    var ds := Digests(own);
    forall i, j | 0 <= i < j < |ds|
      ensures ds[i].createdAt >= ds[j].createdAt
    {
      assert ds[i].createdAt == own[i].createdAt && ds[j].createdAt == own[j].createdAt;
    }
  }

  /**
   * GET /users/:id. 404 for an unknown id; otherwise the user without its password and with
   * exactly its own tasks, newest first.
   */
  function GetUserById(users: map<int, User>, tasks: map<int, Task>, id: int): (r: Reply<UserDetail>)
    requires TasksKeyed(tasks)
    ensures r.status == 404 <==> id !in users
    ensures r.status == 200 <==> id in users
    ensures r.success <==> r.status == 200
    ensures id !in users ==> r == Fail(404, "User not found")
    ensures id in users ==> r.data.Some?
    ensures id in users ==>
      var u := users[id];
      var d := r.data.value;
      && (d.id, d.email, d.name, d.role, d.createdAt) == (u.id, u.email, u.name, u.role, u.createdAt)
      && |d.tasks| == TaskCount(tasks, id)
      && (forall i :: 0 <= i < |d.tasks| ==>
            d.tasks[i].id in tasks && tasks[d.tasks[i].id].userId == id
            && d.tasks[i] == Digest(tasks[d.tasks[i].id]))
      && (forall k :: k in tasks && tasks[k].userId == id ==> Digest(tasks[k]) in d.tasks)
      && (forall i, j :: 0 <= i < j < |d.tasks| ==> d.tasks[i].createdAt >= d.tasks[j].createdAt)
  {
    if id !in users then
      Fail(404, "User not found")
    else
      var u := users[id];
      Reply(200, true, None, Some(UserDetail(u.id, u.email, u.name, u.role, u.createdAt, TaskDigests(tasks, id))))
  }

  /**
   * DELETE /users/:id. 404 for an unknown id, checked before the self-delete guard; 400 when the
   * administrator names their own id; both without a write. Otherwise the user goes and, by the
   * cascade, every task it owned; nothing else changes.
   */
  method DeleteUser(db: Database, admin: Principal, id: int) returns (res: Reply<()>)
    requires db.Valid()
    modifies db
    ensures db.Valid()
    ensures db.nextTaskId == old(db.nextTaskId)
    ensures id !in old(db.users) ==>
      res == Fail(404, "User not found") && db.users == old(db.users) && db.tasks == old(db.tasks)
    ensures id in old(db.users) && id == admin.id ==>
      res == Fail(400, "You cannot delete your own account")
      && db.users == old(db.users) && db.tasks == old(db.tasks)
    ensures id in old(db.users) && id != admin.id ==>
      && res == Reply(200, true, Some("User deleted successfully"), None)
      && db.users == old(db.users) - {id}
      && db.tasks == Cascade(old(db.tasks), id)
  {
    if id !in db.users {
      return Fail(404, "User not found");
    }
    if db.users[id].id == admin.id {
      return Fail(400, "You cannot delete your own account");
    }
    db.users := db.users - {id};
    db.tasks := Cascade(db.tasks, id);
    res := Reply(200, true, Some("User deleted successfully"), None);
  }

  /** A page of the admin list after the last one is an empty page, not an error. */
  lemma UserPageAfterLastIsEmpty(users: map<int, User>, tasks: map<int, Task>, page: int, limit: int)
    requires UsersKeyed(users)
    requires limit >= 1 && page >= 1
    requires page > CeilDiv(|users|, limit)
    ensures GetAllUsers(users, tasks, Some(page), Some(limit)).status == 200
    ensures GetAllUsers(users, tasks, Some(page), Some(limit)).data.value.users == []
  {
    PastLastPage(|users|, page, limit);
  }

  /** Every page of the admin list from the first to the last holds at least one user. */
  lemma UserPageUpToLastIsNonEmpty(users: map<int, User>, tasks: map<int, Task>, page: int, limit: int)
    requires UsersKeyed(users)
    requires limit >= 1 && 1 <= page <= CeilDiv(|users|, limit)
    ensures GetAllUsers(users, tasks, Some(page), Some(limit)).status == 200
    ensures GetAllUsers(users, tasks, Some(page), Some(limit)).data.value.users != []
  {
    WithinLastPage(|users|, page, limit);
    UserPageIsWindow(users, tasks, page, limit);
  }

  /** Every user is in the window of the listing that starts at one of the pages 1 to totalPages. */
  lemma UserInSomeWindow(users: map<int, User>, limit: int, id: int) returns (page: int, skip: nat)
    requires UsersKeyed(users)
    requires limit >= 1
    requires id in users
    ensures 1 <= page <= CeilDiv(|users|, limit)
    ensures skip == Skip(page, limit)
    ensures users[id] in Window(UserListing(users), skip, limit)
  {
    var all := UserListing(users);
    assert users[id] in all;
    var i :| 0 <= i < |all| && all[i] == users[id];
    page, skip := PageOfRow(i, |all|, limit);
    InWindow(all, i, skip, limit);
  }

  /** Page `page` of the admin list summarises the window of the listing that starts at `Skip(page, limit)`. */
  lemma UserPageIsWindow(users: map<int, User>, tasks: map<int, Task>, page: int, limit: int)
    requires UsersKeyed(users)
    requires limit >= 1 && page >= 1
    ensures Skip(page, limit) >= 0
    ensures GetAllUsers(users, tasks, Some(page), Some(limit)).data.value.users ==
      Summaries(Window(UserListing(users), Skip(page, limit), limit), tasks)
  {
    MulMonotone(0, page - 1, limit);
  }

  /** Every user is listed, with its task count, on one of the pages 1 to totalPages. */
  lemma PageOfUser(users: map<int, User>, tasks: map<int, Task>, limit: int, id: int) returns (page: int)
    requires UsersKeyed(users)
    requires limit >= 1
    requires id in users
    ensures 1 <= page <= CeilDiv(|users|, limit)
    ensures Summarize(users[id], tasks) in GetAllUsers(users, tasks, Some(page), Some(limit)).data.value.users
  {
    var skip;
    page, skip := UserInSomeWindow(users, limit, id);
    SummaryOfMember(Window(UserListing(users), skip, limit), tasks, users[id]);
    UserPageIsWindow(users, tasks, page, limit);
  }

  /** The cascade leaves every other user's tasks exactly as they were. */
  lemma {:induction false} CascadeSparesOthers(tasks: map<int, Task>, uid: int, other: int)
    requires other != uid
    ensures TasksOf(Cascade(tasks, uid), other) == TasksOf(tasks, other)
  {
    var after := Cascade(tasks, uid);
    forall k
      ensures k in TasksOf(after, other) <==> k in TasksOf(tasks, other)
    {
      assert k in after && after[k].userId == other <==> k in tasks && tasks[k].userId == other;
    }
  }

  /** Deleting a user changes no other user's task list, on any filter and any page. */
  lemma DeleteUserSparesOtherLists(tasks: map<int, Task>, uid: int, user: Principal,
                                   status: Option<Status>, page: Option<int>, limit: Option<int>)
    requires TasksKeyed(tasks)
    requires user.id != uid
    ensures TasksKeyed(Cascade(tasks, uid))
    ensures TaskController.GetUserTasks(Cascade(tasks, uid), user, status, page, limit)
         == TaskController.GetUserTasks(tasks, user, status, page, limit)
  {
    CascadeSparesOthers(tasks, uid, user.id);
    TaskController.ListSeesOnlyOwnRows(Cascade(tasks, uid), tasks, user, status, page, limit);
  }

  /**
   * Nothing of a deleted user remains: it owns no task, its detail is a 404, and every remaining
   * task still has a stored owner.
   */
  lemma DeletedUserIsGone(users: map<int, User>, tasks: map<int, Task>, uid: int)
    requires TasksKeyed(tasks) && TasksOwned(tasks, users)
    ensures TaskCount(Cascade(tasks, uid), uid) == 0
    ensures GetUserById(users - {uid}, Cascade(tasks, uid), uid) == Fail(404, "User not found")
    ensures TasksOwned(Cascade(tasks, uid), users - {uid})
  {
    assert TasksOf(Cascade(tasks, uid), uid) == map[];
  }

  /** Each task a deleted user owned is a 404 for every requester, admins included. */
  lemma DeletedUsersTasksAreGone(users: map<int, User>, tasks: map<int, Task>, uid: int,
                                 requester: Principal, id: int)
    requires TasksKeyed(tasks) && TasksOwned(tasks, users)
    requires id in tasks && tasks[id].userId == uid
    ensures TasksOwned(Cascade(tasks, uid), users - {uid})
    ensures TaskController.GetTaskById(Cascade(tasks, uid), users - {uid}, requester, id)
         == Fail(404, "Task not found")
  {
    DeletedUserIsGone(users, tasks, uid);
  }
}
