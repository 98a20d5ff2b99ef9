# Task manager backend: a verified model of its handlers

This project models the decision logic of the task manager's REST backend in Dafny:

- the task handlers `createTask`, `getUserTasks`, `getTaskById`, `updateTask` and `deleteTask`;
- the admin user handlers `getAllUsers`, `getUserById` and `deleteUser`, including the cascade that removes a deleted user's tasks;
- the admin gate `restrictToAdmin`;
- the global `errorHandler`.

The database is replaced by an in-memory store. The `Database` class holds the `User` table and the `Task` table as maps from integer id to row, plus the autoincrement counter for task ids.

The handlers that write take that object and change it in place:

- `CreateTask`, `UpdateTask` and `DeleteTask`;
- `DeleteUser`.

The read-only handlers are pure functions over the two maps. Each returns the HTTP status, the `success` flag, the message and the `data` the handler sends.

Each handler states which status it answers in which case and how the store changes: exactly one write, or none. Beyond that, the model proves:

- the paging arithmetic: the defaults, `skip = (page - 1) * limit`, `totalPages = ceil(total / limit)`, that pages after the last one are empty while every page up to it is not, and that every row lands on some page under one fixed order of tied rows;
- the ownership rules: any owner-or-admin read succeeds; update and delete are owner-only, with no admin override;
- the cascade: nothing of a deleted user remains, and no other user's rows change.

Modules:

- `Wrappers` and `Truthiness`: `Option`, standing for a missing value, and JavaScript's `||` and truthiness on strings and numbers.
- `Entities`: the rows and the response envelope, the store invariant (`Database.Valid`), the `tasks` relation of a user, its `_count`, and the cascade.
- `Ordering`: `orderBy: { createdAt: 'desc' }` over a keyed table.
- `Pagination`: the `page`/`limit` query parameters, `skip`/`take` and `totalPages`.
- `TaskController`, `UserController`, `RoleMiddleware` and `ErrorHandler`: one per source file.

How the route wiring is reflected:

- Every task route runs after authentication, so each handler receives the requester as a `Principal` (id and role).
- Only `POST /tasks` runs after body validation. Its outcome reaches `CreateTask` as the flag `valid`.
- The user routes run after authentication and `restrictToAdmin`. `RoleMiddleware.PassedRequestsAreAdmin` states that such a request carries an admin. The user handlers do not need that fact for their own contracts. `GetAllUsers` and `GetUserById` take no requester, and `DeleteUser` takes the requester only for the self-delete guard.
- The `page` and `limit` query parameters arrive already parsed, as `Option<int>`. `None` stands for a missing parameter and for `NaN`.
- A path id arrives as a plain `int`.
- The `status` query parameter and the `status` fields of the create and update bodies arrive as `Option<Status>`. `None` stands for a missing value and for the empty string.

The code's `ADMIN` role is `AdminRole`. The code tests for no other role name, so the model has a single non-admin role, `UserRole`, for the code's `USER`.

## Model

| member | source | states |
|---|---|---|
| Truthiness.IntOr | backend/src/controllers/taskController.js:62-63 | `n \|\| d` on a number: the number when it is present and non-zero, otherwise the fallback; never 0 when the fallback is not 0 |
| Truthiness.StringOr | backend/src/middleware/errorHandler.js:9 | `s \|\| d` on a string: the string when it is present and non-empty, otherwise the fallback |
| Pagination.PageParam | backend/src/controllers/taskController.js:62 | the page is the query value when it is present and non-zero, and 1 when it is missing, not a number or 0; it is never 0 |
| Pagination.LimitParam | backend/src/controllers/taskController.js:63 | the limit is the query value when it is present and non-zero, and 10 otherwise; it is never 0 |
| Pagination.CeilDiv | backend/src/controllers/taskController.js:91 | `Math.ceil(n / d)` for `d >= 1`: the least `q` with `q * d >= n`, that is `q * d >= n > (q - 1) * d` |
| Pagination.Window | backend/src/controllers/taskController.js:76-79 | `skip`/`take`: at most `take` rows; exactly the rows from position `skip` on, in order; empty when `skip` is at or past the end; its length is `min(take, n - skip)` otherwise |
| Pagination.PastLastPage | backend/src/controllers/taskController.js:64 | a page after `totalPages` starts at or after the last row |
| Pagination.WithinLastPage | backend/src/controllers/taskController.js:64 | every page from 1 to `totalPages` starts at a row that exists |
| Pagination.PageOfRow | backend/src/controllers/taskController.js:64 | row `i` of `n` lies on a page between 1 and `totalPages`, within that page's `skip`/`take` |
| Pagination.InWindow | backend/src/controllers/taskController.js:76-79 | a row between `skip` and `skip + take` is in the window |
| Ordering.NewestFirst | backend/src/controllers/taskController.js:80-82 | the keys of a table, each exactly once, each newer than or as new as every key after it |
| Ordering.ListedRows | backend/src/controllers/userController.js:31-33 | reading a table at its keys in that order reads every row, once each, newest first |
| Entities.TasksOf | backend/src/controllers/userController.js:74-81 | a user's `tasks` relation holds exactly the stored tasks whose `userId` is that user, unchanged |
| Entities.TaskCountCountsOwnedTasks | backend/src/controllers/userController.js:27-29 | `_count.tasks` equals the number of stored tasks whose `userId` is that user |
| Entities.Cascade | backend/src/controllers/userController.js:137-140 | after the cascade, exactly the tasks of other users remain, unchanged |
| TaskController.NewTask | backend/src/controllers/taskController.js:22-28 | the new row belongs to the requester; its status is the supplied one, or PENDING when none is supplied; its title and description are the supplied ones |
| TaskController.CreateTask | backend/src/controllers/taskController.js:8-44 | failed validation gives 400 and no write; otherwise the new task is inserted under a fresh id and nothing else changes; 201 "Task created successfully" with the task and its owner's id, name and email |
| TaskController.Matching | backend/src/controllers/taskController.js:66-70 | the `where` clause holds the requester's tasks, restricted to the requested status when one is given |
| TaskController.Listing | backend/src/controllers/taskController.js:72-83 | the rows matched by `where`, each once, every matching row present, newest first |
| TaskController.GetUserTasks | backend/src/controllers/taskController.js:58-96 | 200 with at most `limit` tasks, each a stored task of the requester with the requested status, newest first, and the pagination block `{page, ceil(total/limit), total, limit}` with `total` the number of matching tasks; the defaults apply to the page and limit |
| TaskController.ListingWindow | backend/src/controllers/taskController.js:76-83 | every window of the listing holds stored tasks of the requester with the requested status, newest first |
| TaskController.PageAfterLastIsEmpty | backend/src/controllers/taskController.js:73-91 | a page after `totalPages` answers 200 with no tasks |
| TaskController.PageUpToLastIsNonEmpty | backend/src/controllers/taskController.js:73-91 | every page from 1 to `totalPages` answers 200 with at least one task |
| TaskController.PageIsWindow | backend/src/controllers/taskController.js:62-83 | page `p` is the window of the listing starting at `(p - 1) * limit`, `limit` long |
| TaskController.PageOfTask | backend/src/controllers/taskController.js:62-91 | every task of the requester with the requested status is listed on some page between 1 and `totalPages` |
| TaskController.ListSeesOnlyOwnRows | backend/src/controllers/taskController.js:66-83 | the list depends on the requester's own tasks only: two stores that agree on them give the same answer |
| TaskController.GetTaskById | backend/src/controllers/taskController.js:127-145 | 404 "Task not found" iff the id is absent; 403 iff the requester neither owns the task nor is an admin; 200 iff owner or admin, with the task and its owner |
| TaskController.Merge | backend/src/controllers/taskController.js:185-191 | each of title, description and status is overwritten only by a truthy supplied value; id, owner and `createdAt` stay |
| TaskController.UpdateTask | backend/src/controllers/taskController.js:159-198 | 404 "Task not found" for an absent id; 403 "Not authorized to update this task" for any non-owner, admins included; both leave the store unchanged; otherwise only that task is replaced, by the merge, and 200 returns it |
| TaskController.DeleteTask | backend/src/controllers/taskController.js:212-244 | 404 for an absent id and 403 "Not authorized to delete this task" for any non-owner, both leaving the store unchanged; otherwise exactly that id is removed; 200 "Task deleted successfully" |
| TaskController.DeleteSparesOtherLists | backend/src/controllers/taskController.js:236-239 | deleting a task changes no list page of any other user |
| TaskController.UpdateSparesOtherLists | backend/src/controllers/taskController.js:184-192 | updating a task changes no list page of any other user |
| UserController.UserListing | backend/src/controllers/userController.js:18-34 | all users, each once, every stored user present, newest first |
| UserController.ListingWindow | backend/src/controllers/userController.js:18-20 | every window of the user listing holds stored users, newest first |
| UserController.SummaryWindow | backend/src/controllers/userController.js:18-34 | the selected fields of each user in the window: stored user, with its `_count.tasks`, newest first |
| UserController.GetAllUsers | backend/src/controllers/userController.js:7-56 | 200 with at most `limit` users, each the selected fields of a stored user with its task count, newest first, and the pagination block `{page, ceil(totalUsers/limit), totalUsers, limit}`; no password is returned |
| UserController.UserPageAfterLastIsEmpty | backend/src/controllers/userController.js:15-42 | a page after `totalPages` answers 200 with no users |
| UserController.UserPageUpToLastIsNonEmpty | backend/src/controllers/userController.js:15-42 | every page from 1 to `totalPages` answers 200 with at least one user |
| UserController.UserPageIsWindow | backend/src/controllers/userController.js:10-20 | page `p` summarises the window of the user listing starting at `(p - 1) * limit` |
| UserController.PageOfUser | backend/src/controllers/userController.js:10-42 | every user is listed, with its task count, on some page between 1 and `totalPages` |
| UserController.TaskDigests | backend/src/controllers/userController.js:74-85 | exactly the user's tasks, as many as it owns, each with the selected fields of a stored task of that user, newest first |
| UserController.GetUserById | backend/src/controllers/userController.js:61-99 | 404 "User not found" iff the id is absent; otherwise 200 with the user's selected fields, no password, and exactly its tasks, newest first |
| UserController.DeleteUser | backend/src/controllers/userController.js:113-145 | 404 for an absent id, checked before the self-delete guard; 400 "You cannot delete your own account"; both leave the store unchanged; otherwise the user and exactly its tasks are removed, everything else stays, and the store invariant holds |
| UserController.CascadeSparesOthers | backend/src/controllers/userController.js:137-140 | the cascade leaves every other user's tasks exactly as they were |
| UserController.DeleteUserSparesOtherLists | backend/src/controllers/userController.js:137-140 | deleting a user changes no list page of any other user |
| UserController.DeletedUserIsGone | backend/src/controllers/userController.js:137-140 | after any user is deleted, it owns no task, its detail is 404, and every remaining task still has a stored owner |
| UserController.DeletedUsersTasksAreGone | backend/src/controllers/userController.js:137-140 | every task the deleted user owned is 404 for every requester, admins included |
| RoleMiddleware.RestrictToAdmin | backend/src/middleware/roleMiddleware.js:4-22 | 401 "Not authenticated" iff there is no user; 403 "Access denied. Admin privileges required." iff a non-admin user; `next()` iff an admin; the authentication check comes first |
| RoleMiddleware.PassedRequestsAreAdmin | backend/src/middleware/roleMiddleware.js:21 | a request passed on carries an admin |
| ErrorHandler.HandleError | backend/src/middleware/errorHandler.js:3-28 | status is the error's truthy status code, else 500; message is its truthy message, else "Internal Server Error"; code P2002 gives 400 "A record with this value already exists" and P2025 gives 404 "Record not found", whatever the error says; `success` is false; `stack` is present only in development, and there it is the error's stack |
| ErrorHandler.StackHiddenOutsideDevelopment | backend/src/middleware/errorHandler.js:23-27 | outside development two errors that differ only in their stacks get the same envelope |

## Left out

- The database engine is not modelled. The tables are maps keyed by integer id. The autoincrement counter stands for the server-generated id, and `createdAt` is an integer clock reading that `CreateTask` receives as `now`.
- Each handler is modelled as one atomic step over one snapshot of the tables. The source issues separate queries with no transaction: a count and then a page query in the list handlers, and a lookup and then a write in update, delete and user delete. Interleavings with concurrent requests are not captured. In the source, those interleavings can make the page total disagree with the page returned. They can also turn an update or delete that passed its checks into a 500 "record not found" error. In the model the pagination block always agrees with the page.
- Failed queries are not modelled. Each handler's `catch` answers 500 when the database fails, and that I/O failure is outside the model.
- Logging to the console is not modelled, in the error handler and in every `catch`.
- Connection setup and shutdown (`backend/src/config/database.js`), the Express server, CORS and route registration are not modelled. The route wiring appears only as the handlers' inputs, as described above.
- Authentication (`protect`), registration and login, and the body validation rules are not part of this model. Validation appears only as the flag `valid`.
- Parsing of query and path parameters is not modelled. A path id that is not a number, which makes the database query fail, is not modelled either.
- TaskController.CreateTask: the 400 response's `errors` array, the list of validation messages, is not modelled.
- TaskController.CreateTask: it requires the requester to be a stored user, which authentication guarantees.
- TaskController.GetUserTasks: a `status` query value outside PENDING, IN_PROGRESS and COMPLETED cannot be expressed, because the parameter has type `Option<Status>`. The source passes such a value (`?status=DONE`) to the database query, which fails, so the source answers 500.
- TaskController.UpdateTask: no validator runs before update, so the body's fields can hold any JSON value. The model cannot express a `status` outside the three statuses, or a truthy `title` or `description` that is not a string (`{"title": 42}`, `{"description": true}`). The source passes such a value through the truthy spread to the database write, which fails, and answers 500.
- TaskController.UpdateTask: the update timestamp the database maintains is not modelled.
- TaskController.GetUserTasks: a negative `page` or `limit`, which `|| 1` and `|| 10` let through, is answered 500 in the model. The database's own treatment of a negative `skip` or `take` is not modelled. The pagination lemmas take `limit >= 1` and `page >= 1`.
- UserController.GetAllUsers: the same holds for a negative `page` or `limit`.
- Ordering.NewestFirst: the database leaves the order of rows with equal `createdAt` open. The model lists the smaller id first among them.
- TaskController.PageOfTask: it holds in the source only if the database orders rows with equal `createdAt` the same way in every page query. The database does not promise that. Each page is a separate query with its own `skip` and `take`, so two tied rows that straddle a page boundary can be listed one twice and the other never.
- UserController.PageOfUser: it likewise holds in the source only if the database orders users with equal `createdAt` the same way in every page query, which it does not promise.
- Pagination.CeilDiv: it is integer ceiling division. `Math.ceil` on a floating-point quotient gives the same value for the positive limits the model allows.
- The frontend (React pages, local storage, HTTP calls, toasts) is not part of this model.
