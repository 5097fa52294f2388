# go-todo-cli: the todo record store

A Dafny model of the record store behind the `go-todo` command-line todo
manager (`cmd/todo.go`). The store is one JSON file, `todos.json`, holding an
array of todo records `{id, title, due_date, status}`. Each of the five
commands reads the whole file, works on the decoded slice, and prints a
message, rewrites the whole file, or both:

- **create** (`CreateTodo`) gives the new record the larger of 0 and the
  largest stored ID, plus one in 64-bit arithmetic, resolves the due date,
  sets status `pending`, appends the record and writes the file;
- **view** (`ViewTodos`) sorts the records by due date for display;
- **get** (`ViewTodoByID`) parses the ID and shows the first record with it;
- **delete** (`DeleteTodo`) drops every record with the ID and writes the rest;
- **update** (`UpdateTodoStatus`) checks the status text and sets the status
  of the first record with the ID, in place.

How the model stands in for the program:

- The file as read is an `Option<seq<Todo>>`: `None` when it is absent or
  cannot be opened. View, get, delete and update return an `Outcome`
  (`NoTodos`, `InvalidId`, `InvalidStatus`, `NotFound`, `Ok`) for the message
  they print. Delete and update also return the records they would write, an
  `Option<seq<Todo>>` that is `None` when the file is left alone; view and
  get return the records they would display. Create prints nothing and
  returns only the records it writes, a `seq<Todo>`, since it always writes.
- IDs are Go `int`s on a 64-bit platform (`Strconv.Int64`); `maxID + 1` wraps
  as Go's addition does (`Strconv.Wrap64`).
- `strconv.Atoi` is `Strconv.Atoi`: an optional `+` or `-`, at least one
  ASCII digit, and a value that fits in 64 bits.
- Due dates are integer timestamps in nanoseconds; `Before` is `<`. The clock
  reading `time.Now()` is the parameter `now`, and the two `time.Parse`
  calls (RFC 3339, then the layout `2006-01-02`) are the function parameters
  `rfc3339` and `dateOnly`, which return `None` when parsing fails.
- The status is a string, as Go's `type TodoStatus string` is; the three
  accepted values are the constants `Pending`, `InProgress`, `Completed`.
- The slice that `sort.Slice` sorts in place and the slice whose element
  update changes one status in place are Dafny arrays; the slice that
  delete builds by appending is a sequence.

Modules: `Wrappers` (the `Option` type), `Strconv` (64-bit integers and
`Atoi`), `Todos` (the record, the definitions the commands are specified
by, and the lemmas about them), `TodoCommands` (the five commands),
`TodoScenarios` (two commands run one after the other).

Where the code behaves differently from what a user might expect, the model
follows the code:

- IDs can be reused. The new ID is the larger of 0 and the largest remaining
  ID, plus one, so it can be an ID used before: with IDs 1 and 2, deleting 2
  makes the next create get 2 again; with IDs 1 and 3, deleting 3 makes the
  next create get 2 (`Todos.IdReusedAfterDelete`).
- The display order is not stable: `sort.Slice` makes no promise about
  records with equal due dates, so the model promises only an ordered
  permutation.
- Get, delete and update report an absent or empty store before they parse
  the ID, so `get abc` on an empty store reports "No todos found.", not an
  invalid ID.
- Update validates the status text after the store and ID checks, not first.
- Delete removes every record with the ID; update changes only the first.
- A delete followed by a get of the same ID reports "No todos found." rather
  than "Todo not found." when the delete removed the last record
  (`TodoScenarios.DeleteThenGet`).

## Model

| member | source | states |
|---|---|---|
| `Strconv.Wrap64` | cmd/todo.go:61 | Go's 64-bit `+`: values in range are unchanged, and the result is congruent to the unbounded sum modulo 2^64 |
| `Strconv.Atoi` | cmd/todo.go:139-143 | an accepted ID text is non-empty, starts with a digit or a sign, continues with digits only, and is negative only after a `-` |
| `Strconv.AtoiItoa` | cmd/todo.go:139 | every 64-bit ID written in decimal is parsed back to itself |
| `Strconv.AtoiDigits` | cmd/todo.go:139-143 | a digit string alone or after `+` is accepted with its decimal value when that is at most 2^63-1, after `-` with the negated value when that is at least -2^63, and rejected otherwise |
| `Strconv.AtoiUnsigned` | cmd/todo.go:139-143 | a digit string with no sign is accepted with its decimal value when that is at most 2^63-1, and rejected otherwise |
| `Strconv.AtoiPlus` | cmd/todo.go:139-143 | a digit string after `+` is accepted with its decimal value when that is at most 2^63-1, and rejected otherwise |
| `Strconv.AtoiMinus` | cmd/todo.go:139-143 | a digit string after `-` is accepted with the negated value when that is at least -2^63, and rejected otherwise |
| `Strconv.AtoiRejects` | cmd/todo.go:139-143 | `abc`, the empty text, a bare sign and `1x` are invalid IDs |
| `Strconv.AtoiAccepts` | cmd/todo.go:139 | `+7`, `-7` and `007` are accepted, with the values 7, -7 and 7 |
| `Todos.MaxId` | cmd/todo.go:40-45 | the running maximum starting from 0 is at least 0 and every stored ID, and is 0 or the ID of some stored record |
| `Todos.NextId` | cmd/todo.go:61 | the new ID is 1 for an empty store; below the top of the 64-bit range it is at least 1 and exceeds every stored ID; at the top it wraps to the most negative value |
| `Todos.CreateKeepsIdsUnique` | cmd/todo.go:40-66 | below the top of the 64-bit range, appending a record with the new ID to a store with distinct IDs keeps them distinct |
| `Todos.IdReusedAfterDelete` | cmd/todo.go:40-45 | examples of ID reuse, the new ID being the larger of 0 and the largest remaining ID, plus one: with IDs 1 and 2 it is 3, and after deleting 2 it is 2 again; with IDs 1 and 3 it is 4, and after deleting 3 it is 2 |
| `Todos.NextIdWrapsAtTop` | cmd/todo.go:61 | a store holding the ID 2^63-1 gives the new record the ID -2^63 |
| `Todos.FirstIndex` | cmd/todo.go:145-152 | the scan finds a position with the ID before which no record has it, or reports that no record has it |
| `Todos.LookupAfterCreate` | cmd/todo.go:60-66 | below the top of the 64-bit range, a lookup of the new ID in the appended store finds the appended record |
| `Todos.Without` | cmd/todo.go:181-189 | the filtered store is no longer than the stored one |
| `Todos.WithoutMembers` | cmd/todo.go:183-189 | a record is kept exactly when it is stored and its ID differs |
| `Todos.WithoutSnoc` | cmd/todo.go:183-188 | one more stored record is appended to the kept ones exactly when its ID differs |
| `Todos.WithoutAppend` | cmd/todo.go:181-189 | filtering a concatenation is concatenating the filtered parts, so kept records keep their relative order |
| `Todos.WithoutNoMatch` | cmd/todo.go:183-189 | with no record of the ID, the filtered store is the stored one |
| `Todos.LookupAfterDelete` | cmd/todo.go:183-189 | no record of the deleted ID is left for a lookup to find |
| `Todos.DeleteRemovesOne` | cmd/todo.go:183-189 | with distinct IDs, deleting a matching ID removes exactly the first matching record and keeps everything before and after it |
| `Todos.DeleteKeepsIdsUnique` | cmd/todo.go:181-189 | deleting from a store with distinct IDs keeps them distinct |
| `Todos.LookupAfterUpdate` | cmd/todo.go:243-248 | after the first record of an ID gets a status, a lookup of that ID finds the same position with that status, and distinct IDs stay distinct |
| `TodoCommands.CreateTodo` | cmd/todo.go:30-74 | the written records are the stored ones (none for an absent file) followed by one record with the new ID, the given title, status `pending` and the due date: now + 24h for empty text, else the RFC 3339 parse, else the date-only parse, else now + 24h |
| `TodoCommands.SortByDueDate` | cmd/todo.go:93-95 | in place, the records end up ordered by due date and are a permutation of the records before |
| `TodoCommands.ViewTodos` | cmd/todo.go:76-95 | an absent or empty store reports no todos and shows nothing; otherwise the shown records are the stored ones, each as often, ordered by due date |
| `TodoCommands.ViewTodoByID` | cmd/todo.go:122-156 | an absent or empty store reports no todos whatever the ID text; else an unparseable ID is invalid; else the first record with the ID is shown, or it is reported not found |
| `TodoCommands.DeleteTodo` | cmd/todo.go:158-204 | the same three checks in the same order; with a match the written records are the stored ones with every record of the ID removed, others in order; without one it reports not found and writes nothing |
| `TodoCommands.UpdateTodoStatus` | cmd/todo.go:206-264 | the store and ID checks come first, then any text other than `pending`, `in-progress`, `completed` is an invalid status and nothing is written; with a match the written records have the same length, the first matching record has the new status and its other fields, and every other record is unchanged; without one it reports not found and writes nothing |
| `TodoScenarios.CreateThenGet` | cmd/todo.go:60-66 | below the top of the ID range, a get of the new ID right after a create shows the new `pending` record, whose ID is the larger of 0 and the largest stored ID, plus one |
| `TodoScenarios.DeleteThenGet` | cmd/todo.go:183-202 | after a successful delete a get of the same ID text reports not found, or no todos when the file is now empty, and shows nothing |
| `TodoScenarios.UpdateThenGet` | cmd/todo.go:242-262 | after a successful update a get of the same ID shows a record with that ID and the new status, and distinct stored IDs stay distinct in the written file |

## Left out

- File I/O (`os.Open`, `os.Create`, closing) and JSON encoding and decoding: the file as read is an input and the records to write are an output. Decode errors are ignored by the code, so a file that does not decode is modelled only as absent or as whatever records it yields.
- Write failures: the `panic` in create when the file cannot be created and the "Failed to update todos." branches of delete and update are I/O failures; the model returns what would be written.
- Terminal output: the table, the colours, the `2006-01-02 15:04` date format and the printed messages, which the `Outcome` values stand for.
- `time.Now` and the layout parsing inside `time.Parse` are library code; they are the parameters `now`, `rfc3339` and `dateOnly`. Timestamps are unbounded integers, so the range limits of Go's `time.Time` arithmetic are not modelled.
- `Strconv.Atoi`: works on characters where Go works on bytes (a non-ASCII character is rejected either way) and does not distinguish Go's syntax and range errors, which the code treats alike.
- `TodoCommands.SortByDueDate`: an insertion sort stands for `sort.Slice`; the contract does not state the order of records with equal due dates, which `sort.Slice` leaves unspecified.
- `Todos.NextId`: the new ID exceeds every stored ID only below the top of the 64-bit range; at the top it wraps, as the code does.
- The command-line dispatch in `cmd/root.go` (Cobra commands, the unused `toggle` flag, the exit code).
- Two processes running commands at once can lose updates; that is a property of the environment, not of this code.
