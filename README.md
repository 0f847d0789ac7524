# Task store of the task-list server

A model of the in-memory task store in `server/server.js`. The server keeps
a module-level array of tasks, each `{id, text, completed}`. It starts with
three seed tasks and offers four route handlers: list, create, toggle
completion and delete. Here that array is the `tasks` field of the class
`Server.TaskStore`, a `seq<Task>`. Each handler body is one method of the
class. HTTP responses are replaced by the datatype `Outcome`: `Created(task)`,
`Toggled(task)`, `NotFound` and `Deleted`.

Two inputs are abstracted:

- The id path parameter is an `Option<int>`. `None` stands for the `NaN` that
  `parseInt` gives for non-numeric input. Under `===`, `NaN` equals no id, so
  `None` matches no task (`Server.Matches`).
- The request's `text` is an `Option<string>`, because `req.body.text` may be
  absent.

`findIndex` and the `filter` predicate become the pure functions
`Server.FindIndex` and `Server.Without`. The methods are proved against
`FindIndex`, `Without`, `AfterToggle` and `ToggleOutcome`. The lemmas prove
the documented properties about those functions.

The model keeps the source's id rule, `tasks.length + 1`. That rule can hand
out an id that is already taken once a task has been deleted.
`Server.DeleteThenCreateCollides` proves this in general.
`Server.SeedDeleteOneThenCreate` and the client method
`Server.DeleteSeedThenCreate` show it on the seed: delete id 1, then create,
and there are two tasks with id 3. Creates alone keep ids unique
(`Server.CreateKeepsIdsUnique`), and so do deletes alone
(`Server.DeleteKeepsIdsUnique`).

Files: `wrappers.dfy` (the `Option` type), `server.dfy` (everything else).
The client methods `CreateOnSeed`, `ToggleSeedTwice`, `ToggleSeedMissing` and
`DeleteSeedThenCreate` walk through the documented request sequences using
only the methods' contracts.

## Model

| member | source | states |
|---|---|---|
| `Server.Seed` | server/server.js:14-18 | the initial store has exactly three tasks, with ids 1, 2, 3 in that order, none completed, and no two sharing an id |
| `Server.TaskStore.constructor` | server/server.js:14-18 | a new store holds exactly the seed tasks |
| `Server.TaskStore.List` | server/server.js:21-23 | returns the current tasks unchanged and in insertion order; the store is not modified |
| `Server.TaskStore.Create` | server/server.js:26-35 | the new tasks are the old tasks followed by one task `{id: old length + 1, text, completed: false}`; earlier tasks are unchanged, the length grows by one, and that same task is returned as `Created` |
| `Server.CreatesInOrder` | server/server.js:26-35 | after any series of creates, the earlier tasks come first, unchanged; then come exactly the new tasks in request order, each not completed, with ids equal to their positions |
| `Server.CreateKeepsIdsUnique` | server/server.js:28 | if ids are unique and all lie in 1..length, a create keeps them unique |
| `Server.FindIndex` | server/server.js:40 | returns -1 exactly when no task has the id; otherwise returns the position of the first task with that id |
| `Server.AfterToggle` | server/server.js:40-43 | the length, and every task's id and text, stay the same; `completed` changes only at the first matching task, where it is inverted; every other task is unchanged; with no match, nothing changes |
| `Server.ToggleOutcome` | server/server.js:42-46 | reports `NotFound` exactly when no task has the id; otherwise reports `Toggled` with the updated task, whose id matches |
| `Server.TaskStore.Toggle` | server/server.js:38-48 | the new tasks are `AfterToggle` of the old ones, and the result is `ToggleOutcome` of the old ones |
| `Server.ToggleNaN` | server/server.js:39-46 | an id that did not parse gives `NotFound` and leaves the tasks unchanged |
| `Server.FindIndexSameIds` | server/server.js:40 | the search result depends only on the tasks' ids, so flipping `completed` does not move it |
| `Server.ToggleTwice` | server/server.js:43 | toggling the same id twice restores the original tasks; the second toggle reports the task as it was before the first |
| `Server.Without` | server/server.js:53 | a task remains exactly when it was present and its id does not match; the result is never longer than the input |
| `Server.WithoutSplits` | server/server.js:53 | the filter distributes over concatenation, so kept tasks keep their original relative order |
| `Server.WithoutKeepsUnmatched` | server/server.js:53 | when no task has the id, a delete leaves the tasks exactly as they were |
| `Server.TaskStore.Delete` | server/server.js:51-55 | the new tasks are the old ones minus every task with the id; the result is always `Deleted`, even when nothing matched |
| `Server.DeleteIdempotent` | server/server.js:53 | deleting an id twice gives the same tasks as deleting it once |
| `Server.DeleteKeepsIdsUnique` | server/server.js:53 | if ids were unique before a delete, they are unique after it |
| `Server.DeleteFromNumbered` | server/server.js:53 | when ids are 1..n in order, deleting id k removes exactly the k-th task and keeps the rest in order |
| `Server.DeleteThenCreateCollides` | server/server.js:28 | when ids are 1..n in order and any id below n is deleted, the next create gets id n, which the last remaining task already has, so ids are no longer unique |
| `Server.SeedDeleteOneThenCreate` | server/server.js:14-18 | from the seed, deleting id 1 leaves tasks 2 and 3, and the next create gets id 3, a duplicate |

## Left out

- Express setup, `cors()`, `bodyParser.json()`, `app.listen` and console logging (server/server.js:2-11, 57-59). These are framework and I/O plumbing.
- HTTP status codes and JSON serialisation: `Outcome` replaces `res.status(...).json(...)`. The 404 body `{message: 'Task not found'}` is `NotFound`, and `{message: 'Task deleted'}` is `Deleted`.
- The string semantics of `parseInt`, such as leading whitespace or `"12abc"` parsing as 12. The model takes the id already parsed, as `Option<int>`.
- Any type other than a string, or absence, for `text`. The body is not validated, so the source would store whatever JSON value it receives.
- Request interleaving. Handlers run to completion one at a time, so each operation is one atomic method.
- Object identity of tasks. In the source, toggle writes `completed` into the task object held by the array. Nothing else holds a reference to that object, so the model replaces the element of the sequence instead.
- A corrected id scheme, such as a monotonic counter. The model reproduces the length-based ids, and the collision lemmas describe what that rule does.
