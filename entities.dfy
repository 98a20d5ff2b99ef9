/**
 * The persisted records and the in-memory store that stands in for the relational database.
 * Ids are integers handed out by the store; `createdAt` is an integer timestamp.
 */
module Entities {
  import opened Wrappers

  /** The `Role` enum: 'USER' and 'ADMIN'. */
  datatype Role = UserRole | AdminRole

  /** The `TaskStatus` enum: 'PENDING', 'IN_PROGRESS' and 'COMPLETED'. */
  datatype Status = Pending | InProgress | Completed

  datatype Task = Task(
    id: int,
    title: string,
    description: Option<string>,
    status: Status,
    userId: int,
    createdAt: int)

  datatype User = User(
    id: int,
    email: string,
    name: string,
    password: string,
    role: Role,
    createdAt: int)

  /** The identity the authentication middleware attaches to the request as `req.user`. */
  datatype Principal = Principal(id: int, role: Role)

  /**
   * The JSON envelope a handler writes: the HTTP status, the `success` flag,
   * an optional `message` and an optional `data` payload.
   */
  datatype Reply<T> = Reply(status: int, success: bool, message: Option<string>, data: Option<T>)

  function Fail<T>(status: int, message: string): Reply<T> {
    Reply(status, false, Some(message), None)
  }

  /** Every user is stored under its own id. */
  predicate UsersKeyed(users: map<int, User>) {
    forall k :: k in users ==> users[k].id == k
  }

  /** Every task is stored under its own id. */
  predicate TasksKeyed(tasks: map<int, Task>) {
    forall k :: k in tasks ==> tasks[k].id == k
  }

  /** The foreign key of `Task.userId`: every task belongs to a stored user. */
  predicate TasksOwned(tasks: map<int, Task>, users: map<int, User>) {
    forall k :: k in tasks ==> tasks[k].userId in users
  }

  /** The `tasks` relation of a user: the stored tasks whose `userId` is `uid`. */
  function TasksOf(tasks: map<int, Task>, uid: int): (m: map<int, Task>)
    ensures forall k :: k in m <==> k in tasks && tasks[k].userId == uid
    ensures forall k :: k in m ==> m[k] == tasks[k]
  {
    map k | k in tasks && tasks[k].userId == uid :: tasks[k]
  }

  /** `_count: { tasks }`: how many stored tasks belong to `uid`. */
  function TaskCount(tasks: map<int, Task>, uid: int): nat {
    |TasksOf(tasks, uid)|
  }

  /** The task count is the number of stored tasks whose `userId` is `uid`. */
  lemma TaskCountCountsOwnedTasks(tasks: map<int, Task>, uid: int)
    ensures TaskCount(tasks, uid) == |set k | k in tasks && tasks[k].userId == uid|
  {
    assert TasksOf(tasks, uid).Keys == set k | k in tasks && tasks[k].userId == uid;
  }

  /** `onDelete: Cascade`: what is left of the tasks once user `uid` is deleted. */
  function Cascade(tasks: map<int, Task>, uid: int): (m: map<int, Task>)
    ensures forall k :: k in m <==> k in tasks && tasks[k].userId != uid
    ensures forall k :: k in m ==> m[k] == tasks[k]
  {
    map k | k in tasks && tasks[k].userId != uid :: tasks[k]
  }

  /**
   * The database: the `User` and `Task` tables and the autoincrement counter of task ids.
   * Users are added by registration, which is not part of this model, so the store starts
   * from a given set of users.
   */
  class Database {
    var users: map<int, User>
    var tasks: map<int, Task>
    var nextTaskId: int

    ghost predicate Valid()
      reads this
    {
      && UsersKeyed(users)
      && TasksKeyed(tasks)
      && TasksOwned(tasks, users)
      && (forall k :: k in tasks ==> k < nextTaskId)
    }

    constructor (registered: map<int, User>)
      requires UsersKeyed(registered)
      ensures Valid()
      ensures users == registered && tasks == map[] && nextTaskId == 1
    {
      users := registered;
      tasks := map[];
      nextTaskId := 1;
    }
  }
}
