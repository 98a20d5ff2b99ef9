/**
 * The task handlers: create, list, read, update and delete tasks of the requesting user.
 * Every route runs after authentication, so each handler receives the requester as a `Principal`;
 * only create runs after body validation, whose outcome arrives as the flag `valid`.
 */
module TaskController {
  import opened Wrappers
  import opened Truthiness
  import opened Entities
  import opened Ordering
  import opened Pagination

  /** The owner fields selected by `include: { user: { select: { id, name, email } } }`. */
  datatype OwnerSummary = OwnerSummary(id: int, name: string, email: string)

  datatype TaskWithOwner = TaskWithOwner(task: Task, user: OwnerSummary)

  /** The `data` of a task list: one page of tasks and the pagination block. */
  datatype TaskPage = TaskPage(tasks: seq<Task>, pagination: PageInfo)

  function Owner(u: User): OwnerSummary {
    OwnerSummary(u.id, u.name, u.email)
  }

  /**
   * The row `createTask` inserts: owned by the requester, with status PENDING unless a status
   * was supplied.
   */
  function NewTask(id: int, user: Principal, title: string, description: Option<string>,
                   status: Option<Status>, now: int): (t: Task)
    ensures t.userId == user.id
    ensures status.None? ==> t.status == Pending
    ensures status.Some? ==> t.status == status.value
    ensures t.id == id && t.title == title && t.description == description && t.createdAt == now
  {
    Task(id, title, description, status.GetOr(Pending), user.id, now)
  }

  /**
   * POST /tasks. A failed validation answers 400 and writes nothing; otherwise the new task
   * takes the next id and the clock reading `now`.
   */
  method CreateTask(db: Database, user: Principal, valid: bool, title: string,
                    description: Option<string>, status: Option<Status>, now: int)
    returns (res: Reply<TaskWithOwner>)
    requires db.Valid()
    requires user.id in db.users
    modifies db
    ensures db.Valid()
    ensures db.users == old(db.users)
    ensures !valid ==> res.status == 400 && !res.success && res.data.None?
    ensures !valid ==> db.tasks == old(db.tasks) && db.nextTaskId == old(db.nextTaskId)
    ensures valid ==>
      var t := NewTask(old(db.nextTaskId), user, title, description, status, now);
      && t.id !in old(db.tasks)
      && db.tasks == old(db.tasks)[t.id := t]
      && db.nextTaskId == old(db.nextTaskId) + 1
      && res == Reply(201, true, Some("Task created successfully"),
                      Some(TaskWithOwner(t, Owner(db.users[user.id]))))
  {
    if !valid {
      return Reply(400, false, None, None);
    }
    var t := NewTask(db.nextTaskId, user, title, description, status, now);
    db.tasks := db.tasks[t.id := t];
    db.nextTaskId := db.nextTaskId + 1;
    res := Reply(201, true, Some("Task created successfully"),
                 Some(TaskWithOwner(t, Owner(db.users[user.id]))));
  }

  /** The `where` clause of the list: the requester's tasks, of one status when one is asked for. */
  function Matching(tasks: map<int, Task>, userId: int, status: Option<Status>): (m: map<int, Task>)
    ensures forall k :: k in m <==>
      k in tasks && tasks[k].userId == userId && (status.Some? ==> tasks[k].status == status.value)
    ensures forall k :: k in m ==> m[k] == tasks[k]
  {
    map k | k in tasks && tasks[k].userId == userId && (status.None? || tasks[k].status == status.value)
      :: tasks[k]
  }

  /** The requester's tasks of the requested status, newest first: the rows the list pages through. */
  function Listing(tasks: map<int, Task>, userId: int, status: Option<Status>): (s: seq<Task>)
    requires TasksKeyed(tasks)
    ensures |s| == |Matching(tasks, userId, status)|
    ensures forall i :: 0 <= i < |s| ==>
      && s[i].id in tasks && tasks[s[i].id] == s[i]
      && s[i].userId == userId && (status.Some? ==> s[i].status == status.value)
    ensures forall k :: k in Matching(tasks, userId, status) ==> tasks[k] in s
    ensures forall i, j :: 0 <= i < j < |s| ==> s[i].createdAt >= s[j].createdAt
  {
    var matching := Matching(tasks, userId, status);
    var stamps := map k | k in matching :: matching[k].createdAt;
    var ks := NewestFirst(stamps);
    ListedRows(matching, stamps, ks);
    var s := RowsAt(matching, ks);
    forall i | 0 <= i < |s|
      ensures && s[i].id in tasks && tasks[s[i].id] == s[i]
              && s[i].userId == userId && (status.Some? ==> s[i].status == status.value)
    {
      assert ks[i] in matching && s[i] == tasks[ks[i]];
    }
    forall i, j | 0 <= i < j < |s|
      ensures s[i].createdAt >= s[j].createdAt
    {
      assert s[i].createdAt == stamps[ks[i]] && s[j].createdAt == stamps[ks[j]];
    }
    s
  }

  /** A window of the listing holds matching stored tasks and keeps the listing's order. */
  lemma ListingWindow(tasks: map<int, Task>, userId: int, status: Option<Status>, skip: nat, size: nat)
    requires TasksKeyed(tasks)
    ensures var w := Window(Listing(tasks, userId, status), skip, size);
      && (forall i :: 0 <= i < |w| ==>
            && w[i].id in tasks && tasks[w[i].id] == w[i]
            && w[i].userId == userId && (status.Some? ==> w[i].status == status.value))
      && (forall i, j :: 0 <= i < j < |w| ==> w[i].createdAt >= w[j].createdAt)
  {
    var all := Listing(tasks, userId, status);
    var w := Window(all, skip, size);
    forall i, j | 0 <= i < j < |w|
      ensures w[i].createdAt >= w[j].createdAt
    {
      assert w[i] == all[skip + i] && w[j] == all[skip + j];
    }
  }

  /**
   * GET /tasks. The requester's tasks (of the requested status), newest first, one page of them.
   * The model answers a negative page or limit with 500; the database's own reading of a negative
   * `skip` or `take` is not modelled.
   */
  function GetUserTasks(tasks: map<int, Task>, user: Principal, status: Option<Status>,
                        page: Option<int>, limit: Option<int>): (r: Reply<TaskPage>)
    requires TasksKeyed(tasks)
    ensures r.status == 200 || r.status == 500
    ensures r.status == 200 <==> PageParam(page) >= 1 && LimitParam(limit) >= 1
    ensures r.success <==> r.status == 200
    ensures r.status == 200 ==> r.data.Some?
    ensures r.status == 200 ==>
      var listed := r.data.value.tasks;
      && |listed| <= LimitParam(limit)
      && (forall i :: 0 <= i < |listed| ==>
            && listed[i].id in tasks && tasks[listed[i].id] == listed[i]
            && listed[i].userId == user.id && (status.Some? ==> listed[i].status == status.value))
      && (forall i, j :: 0 <= i < j < |listed| ==> listed[i].createdAt >= listed[j].createdAt)
    ensures r.status == 200 ==>
      var n := |Matching(tasks, user.id, status)|;
      r.data.value.pagination == PageInfo(PageParam(page), CeilDiv(n, LimitParam(limit)), n, LimitParam(limit))
  {
    var pageNo := PageParam(page);
    var size := LimitParam(limit);
    if pageNo < 1 || size < 1 then
      Fail(500, "Error fetching tasks")
    else
      MulMonotone(0, pageNo - 1, size);
      var all := Listing(tasks, user.id, status);
      var listed := Window(all, Skip(pageNo, size), size);
      ListingWindow(tasks, user.id, status, Skip(pageNo, size), size);
      var total := |all|;
      Reply(200, true, None, Some(TaskPage(listed, PageInfo(pageNo, CeilDiv(total, size), total, size))))
  }

  /** A page after the last one is an empty page, not an error. */
  lemma PageAfterLastIsEmpty(tasks: map<int, Task>, user: Principal, status: Option<Status>,
                             page: int, limit: int)
    requires TasksKeyed(tasks)
    requires limit >= 1 && page >= 1
    requires page > CeilDiv(|Matching(tasks, user.id, status)|, limit)
    ensures GetUserTasks(tasks, user, status, Some(page), Some(limit)).status == 200
    ensures GetUserTasks(tasks, user, status, Some(page), Some(limit)).data.value.tasks == []
  {
    PastLastPage(|Matching(tasks, user.id, status)|, page, limit);
  }

  /** Every page from the first to the last holds at least one task. */
  lemma PageUpToLastIsNonEmpty(tasks: map<int, Task>, user: Principal, status: Option<Status>,
                               page: int, limit: int)
    requires TasksKeyed(tasks)
    requires limit >= 1 && 1 <= page <= CeilDiv(|Matching(tasks, user.id, status)|, limit)
    ensures GetUserTasks(tasks, user, status, Some(page), Some(limit)).status == 200
    ensures GetUserTasks(tasks, user, status, Some(page), Some(limit)).data.value.tasks != []
  {
    WithinLastPage(|Matching(tasks, user.id, status)|, page, limit);
    PageIsWindow(tasks, user, status, page, limit);
  }

  /** Page `page` of the list is the window of the listing that starts at `Skip(page, limit)`. */
  lemma PageIsWindow(tasks: map<int, Task>, user: Principal, status: Option<Status>, page: int, limit: int)
    requires TasksKeyed(tasks)
    requires limit >= 1 && page >= 1
    ensures Skip(page, limit) >= 0
    ensures GetUserTasks(tasks, user, status, Some(page), Some(limit)).data ==
      Some(TaskPage(Window(Listing(tasks, user.id, status), Skip(page, limit), limit),
                    GetUserTasks(tasks, user, status, Some(page), Some(limit)).data.value.pagination))
  {
    MulMonotone(0, page - 1, limit);
  }

  /** Each of the requester's matching tasks is listed on one of the pages 1 to totalPages. */
  lemma PageOfTask(tasks: map<int, Task>, user: Principal, status: Option<Status>, limit: int, id: int)
    returns (page: int)
    requires TasksKeyed(tasks)
    requires limit >= 1
    requires id in tasks && tasks[id].userId == user.id
    requires status.Some? ==> tasks[id].status == status.value
    ensures 1 <= page <= CeilDiv(|Matching(tasks, user.id, status)|, limit)
    ensures tasks[id] in GetUserTasks(tasks, user, status, Some(page), Some(limit)).data.value.tasks
  {
    var all := Listing(tasks, user.id, status);
    assert id in Matching(tasks, user.id, status);
    assert tasks[id] in all;
    var i :| 0 <= i < |all| && all[i] == tasks[id];
    var skip;
    page, skip := PageOfRow(i, |all|, limit);
    InWindow(all, i, skip, limit);
    PageIsWindow(tasks, user, status, page, limit);
  }

  /**
   * The list shows nothing but the requester's rows: two stores that agree on the requester's
   * tasks give the same answer.
   */
  lemma ListSeesOnlyOwnRows(tasks1: map<int, Task>, tasks2: map<int, Task>, user: Principal,
                            status: Option<Status>, page: Option<int>, limit: Option<int>)
    requires TasksKeyed(tasks1) && TasksKeyed(tasks2)
    requires TasksOf(tasks1, user.id) == TasksOf(tasks2, user.id)
    ensures GetUserTasks(tasks1, user, status, page, limit) == GetUserTasks(tasks2, user, status, page, limit)
  {
    var own := TasksOf(tasks1, user.id);
    assert Matching(tasks1, user.id, status) == Matching(tasks2, user.id, status) by {
      forall k
        ensures k in Matching(tasks1, user.id, status) <==> k in Matching(tasks2, user.id, status)
      {
        assert k in tasks1 && tasks1[k].userId == user.id <==> k in own;
        assert k in tasks2 && tasks2[k].userId == user.id <==> k in own;
      }
    }
  }

  /**
   * GET /tasks/:id. 404 for an unknown id; 403 when the requester neither owns the task nor is
   * an admin; otherwise the task with its owner.
   */
  function GetTaskById(tasks: map<int, Task>, users: map<int, User>, user: Principal, id: int)
    : (r: Reply<TaskWithOwner>)
    requires TasksOwned(tasks, users)
    ensures r.status == 404 <==> id !in tasks
    ensures r.status == 403 <==> id in tasks && tasks[id].userId != user.id && user.role != AdminRole
    ensures r.status == 200 <==> id in tasks && (tasks[id].userId == user.id || user.role == AdminRole)
    ensures r.success <==> r.status == 200
    ensures r.status == 200 ==>
      r.data == Some(TaskWithOwner(tasks[id], Owner(users[tasks[id].userId])))
  {
    if id !in tasks then
      Fail(404, "Task not found")
    else if tasks[id].userId != user.id && user.role != AdminRole then
      Fail(403, "Not authorized to access this task")
    else
      Reply(200, true, None, Some(TaskWithOwner(tasks[id], Owner(users[tasks[id].userId]))))
  }

  /**
   * The "truthy field wins" merge of PUT /tasks/:id: each of title, description and status is
   * replaced only by a supplied truthy value; id, owner and timestamp stay.
   */
  function Merge(t: Task, title: Option<string>, description: Option<string>, status: Option<Status>)
    : (u: Task)
    ensures u.id == t.id && u.userId == t.userId && u.createdAt == t.createdAt
    ensures u.title == (if StringTruthy(title) then title.value else t.title)
    ensures u.description == (if StringTruthy(description) then description else t.description)
    ensures u.status == (if status.Some? then status.value else t.status)
  {
    t.(title := if StringTruthy(title) then title.value else t.title,
       description := if StringTruthy(description) then description else t.description,
       status := status.GetOr(t.status))
  }

  /**
   * PUT /tasks/:id. 404 for an unknown id and 403 for anyone but the owner (an admin included),
   * both without a write; otherwise the merged task replaces the stored one.
   */
  method UpdateTask(db: Database, user: Principal, id: int, title: Option<string>,
                    description: Option<string>, status: Option<Status>)
    returns (res: Reply<Task>)
    requires db.Valid()
    modifies db
    ensures db.Valid()
    ensures db.users == old(db.users) && db.nextTaskId == old(db.nextTaskId)
    ensures id !in old(db.tasks) ==> res == Fail(404, "Task not found") && db.tasks == old(db.tasks)
    ensures id in old(db.tasks) && old(db.tasks)[id].userId != user.id ==>
      res == Fail(403, "Not authorized to update this task") && db.tasks == old(db.tasks)
    ensures id in old(db.tasks) && old(db.tasks)[id].userId == user.id ==>
      var u := Merge(old(db.tasks)[id], title, description, status);
      && db.tasks == old(db.tasks)[id := u]
      && res == Reply(200, true, Some("Task updated successfully"), Some(u))
  {
    if id !in db.tasks {
      return Fail(404, "Task not found");
    }
    var existing := db.tasks[id];
    if existing.userId != user.id {
      return Fail(403, "Not authorized to update this task");
    }
    var u := Merge(existing, title, description, status);
    db.tasks := db.tasks[id := u];
    res := Reply(200, true, Some("Task updated successfully"), Some(u));
  }

  /**
   * DELETE /tasks/:id. 404 for an unknown id and 403 for anyone but the owner, both without a
   * write; otherwise exactly that task is removed.
   */
  method DeleteTask(db: Database, user: Principal, id: int) returns (res: Reply<()>)
    requires db.Valid()
    modifies db
    ensures db.Valid()
    ensures db.users == old(db.users) && db.nextTaskId == old(db.nextTaskId)
    ensures id !in old(db.tasks) ==> res == Fail(404, "Task not found") && db.tasks == old(db.tasks)
    ensures id in old(db.tasks) && old(db.tasks)[id].userId != user.id ==>
      res == Fail(403, "Not authorized to delete this task") && db.tasks == old(db.tasks)
    ensures id in old(db.tasks) && old(db.tasks)[id].userId == user.id ==>
      db.tasks == old(db.tasks) - {id} && res == Reply(200, true, Some("Task deleted successfully"), None)
  {
    if id !in db.tasks {
      return Fail(404, "Task not found");
    }
    if db.tasks[id].userId != user.id {
      return Fail(403, "Not authorized to delete this task");
    }
    db.tasks := db.tasks - {id};
    res := Reply(200, true, Some("Task deleted successfully"), None);
  }

  /** Removing a task of another owner changes none of the requester's list pages. */
  lemma {:induction false} DeleteSparesOtherLists(tasks: map<int, Task>, id: int, user: Principal,
                                                  status: Option<Status>, page: Option<int>, limit: Option<int>)
    requires TasksKeyed(tasks)
    requires id in tasks && tasks[id].userId != user.id
    ensures TasksKeyed(tasks - {id})
    ensures GetUserTasks(tasks - {id}, user, status, page, limit) == GetUserTasks(tasks, user, status, page, limit)
  {
    var after := tasks - {id};
    assert TasksOf(after, user.id) == TasksOf(tasks, user.id) by {
      forall k
        ensures k in TasksOf(after, user.id) <==> k in TasksOf(tasks, user.id)
      {
        assert k in after && after[k].userId == user.id <==> k in tasks && tasks[k].userId == user.id;
      }
    }
    ListSeesOnlyOwnRows(after, tasks, user, status, page, limit);
  }

  /** Merging into a task of another owner changes none of the requester's list pages. */
  lemma {:induction false} UpdateSparesOtherLists(tasks: map<int, Task>, id: int, title: Option<string>,
                                                  description: Option<string>, newStatus: Option<Status>,
                                                  user: Principal, status: Option<Status>,
                                                  page: Option<int>, limit: Option<int>)
    requires TasksKeyed(tasks)
    requires id in tasks && tasks[id].userId != user.id
    ensures TasksKeyed(tasks[id := Merge(tasks[id], title, description, newStatus)])
    ensures GetUserTasks(tasks[id := Merge(tasks[id], title, description, newStatus)], user, status, page, limit)
         == GetUserTasks(tasks, user, status, page, limit)
  {
    var after := tasks[id := Merge(tasks[id], title, description, newStatus)];
    assert TasksOf(after, user.id) == TasksOf(tasks, user.id) by {
      forall k
        ensures k in TasksOf(after, user.id) <==> k in TasksOf(tasks, user.id)
      {
        assert k in after && after[k].userId == user.id <==> k in tasks && tasks[k].userId == user.id;
      }
    }
    ListSeesOnlyOwnRows(after, tasks, user, status, page, limit);
  }
}
