# Kanban board model

A Dafny model of the core of a minimalistic console kanban board
(`kanban.py`): tasks with an id and an append-only message log, named
columns holding ordered lists of tasks, and a board of columns on which tasks
are added, moved, advanced one column to the right, retired from the last
column into a completed-task file, and cleaned out of the last column in bulk.

The model follows the program's own shape:

- `Tasks` — class `Task` (an immutable id and name, a `messages` log that only
  grows) and class `IdCounter`, the id counter every new task draws from; the
  decimal display line `"{id}. {name}"` and the proof that it determines the
  task's id and name.
- `Columns` — class `Column` with its `tasks` list and the in-place
  `AddTask`, `RemoveTask`, `Contains` and `GetContents`.
- `Layouts` — the placement of tasks on a board as a value (one sequence of
  tasks per column) and each board transition as a function on that value:
  `Moved`, `Advanced`, `Cleared`, `Placed`. The board invariants (each task id
  at most once on the board, every id below the counter) are proved to be kept
  by `Moved`, `Advanced` and `Cleared`, and by `Placed` when the task's id is
  not yet on the board. `add_task` of a task already held by another column
  puts a second entry of its id on the board, as the program does.
- `Boards` — class `Board` with its `columns`; every method is proved against
  the `Layouts` function that specifies it (`Placement() ==
  old(Moved(Placement(), column, id))` and so on). The completed-task file is
  a ghost sequence `finished` of `Completed` records, and `Written` gives the
  lines the program writes for each record. `GetContents` models the
  ChainMap merge of the columns' contents.
- `Workflow` — creating a task and putting it into the first column, which
  keeps the board invariants together with the id counter.

Python object identity (`task in self.m_tasks`, `not t in selected_tasks`)
is reference equality on `Task` objects. Python's `None` result of
`remove_task` is `null`.

## Model

| member | source | states |
|---|---|---|
| Tasks.IdCounter.constructor | kanban.py:25 | the id counter starts at 0 |
| Tasks.Task.constructor | kanban.py:26-30 | a new task's id is the counter's current value, the counter goes up by exactly one, the name is kept and the log is empty |
| Tasks.Task.AddMessage | kanban.py:35-36 | the log gains exactly the message, at its end; nothing before it changes |
| Tasks.NatToString | kanban.py:41-42 | an id is rendered as a non-empty run of decimal digits |
| Tasks.ParseNatToString | kanban.py:41-42 | reading the rendered digits back gives the id: the rendering is injective |
| Tasks.Line | kanban.py:41-42 | the display line is the id's decimal digits, which read back as the id, then ". ", then the name |
| Tasks.Task.ToString | kanban.py:41-42 | the task's display line; its leading digits read back as the task's id and what follows ". " is its name |
| Tasks.Entry | kanban.py:53 | the message a column records: "> ", the column's name, " : ", then the timestamp |
| Tasks.LineDeterminesTask | kanban.py:41-42 | two equal display lines come from the same id and the same name, whatever characters the name holds |
| Tasks.Lines | kanban.py:70 | one display line per task, in column order; two equal lines belong to tasks with the same id and name |
| Columns.Column.constructor | kanban.py:46-48 | a new column has the given name and no tasks |
| Columns.Column.AddTask | kanban.py:50-56 | the task is appended, and true returned, exactly when that task object is not already in the column; exactly then it gains the entry message "> name : stamp" |
| Columns.Column.RemoveTask | kanban.py:58-64 | the result is non-null exactly when some task has the id; it is then the earliest such task; the column keeps its other tasks in order, and is unchanged when none had the id |
| Columns.Column.Contains | kanban.py:66-67 | true exactly when some task of the column has the id |
| Columns.Column.GetContents | kanban.py:69-70 | one key, the column's name, mapped to the display line of each task in order |
| Layouts.WithId | kanban.py:59 | exactly the column's tasks with the id (non-empty exactly when the id is present) |
| Layouts.WithoutId | kanban.py:61 | exactly the column's tasks with another id; together with WithId it accounts for every task |
| Layouts.Excluding | kanban.py:61 | exactly the column's tasks that are not among the selected objects |
| Layouts.ExcludingSelected | kanban.py:59-61 | dropping the selected task objects is dropping the id, since the selection is every task with that id |
| Layouts.WithoutAbsent | kanban.py:58-64 | removing an id no task has leaves the column as it was |
| Layouts.WithIdFirst | kanban.py:59-62 | the task remove_task returns is the earliest one with the id |
| Layouts.WithIdAfterWithout | kanban.py:58-64 | after removing id y, the tasks with id x are as before, and none remain when x is y |
| Layouts.Owners | kanban.py:98 | the indices, ascending, of exactly the columns that hold the id |
| Layouts.Owner | kanban.py:98-101 | the first column holding the id; no earlier column holds it |
| Layouts.Picked | kanban.py:101-103 | the task advance and move_task relocate carries the id and sits in the owning column |
| Layouts.Removed | kanban.py:90 | move_task's sweep collects one task per column holding the id |
| Layouts.RemovedFirst | kanban.py:90-93 | the first task the sweep collects is the one advance would pick |
| Layouts.RemovedFacts | kanban.py:90-93 | the sweep collects nothing exactly when no column holds the id, and the board is then unchanged; with one owner it collects exactly one task, the picked one |
| Layouts.Strip | kanban.py:90 | every column with the id removed, each keeping its other tasks in order |
| Layouts.StripSingle | kanban.py:97-103 | when one column holds the id, removing it everywhere is removing it from that column |
| Layouts.StripAbsent | kanban.py:88-95 | a move of an id no column holds leaves every column as it was |
| Layouts.Moved | kanban.py:88-95 | move_task on a board holding the id: every column loses the id, and the target column then ends with the picked task |
| Layouts.Advanced | kanban.py:97-113 | advance on a board holding the id: the owning column loses the id, the next column (if any) ends with the picked task, every other column is unchanged |
| Layouts.Cleared | kanban.py:115-119 | clean_completed: the last column is empty and every other column is unchanged |
| Layouts.Placed | kanban.py:81-86 | add_task on a column in range: the column holds the task afterwards, appended at its end unless it already held that very task; the other columns are unchanged |
| Layouts.MovedIsPlaced | kanban.py:90-93 | a move is the sweep followed by add_task of the picked task, which the target column no longer holds |
| Layouts.MovedShape | kanban.py:88-95 | after a move the task sits at the end of the target column and nowhere else; every column's other tasks are as before, in order |
| Layouts.AdvancedIsPlaced | kanban.py:101-106 | advancing from a column other than the last removes the id from the owner and appends the picked task to the next column, which did not hold it |
| Layouts.AdvanceIsMove | kanban.py:102-106 | advancing from a column other than the last is move_task to the next column |
| Layouts.AdvanceFromLast | kanban.py:105-111 | advancing from the last column takes the id off the board and leaves every other task where it was |
| Layouts.OwnedBy | kanban.py:98-101 | the column advance selects is the owner |
| Layouts.RetireFacts | kanban.py:103-111 | from the last column, what remove_task returns is the picked task and only that column changes |
| Layouts.ForwardFacts | kanban.py:103-106 | from another column, what remove_task returns is the picked task, which the next column lacks and then receives |
| Layouts.CountIsOwners | kanban.py:100 | when no column holds an id twice, its number of entries on the board is its number of owning columns |
| Layouts.CountAtMostOneIff | kanban.py:100 | an id has at most one entry on the board exactly when at most one column holds it and that column holds it at most once |
| Layouts.UniqueIff | kanban.py:92 | the uniqueness invariant holds exactly when every id passes the single-owner assertion of move_task and advance and sits at most once in its column |
| Layouts.UniqueSingleOwners | kanban.py:115-119 | on a board satisfying the invariant, every id of any column has at most one owner, so clean_completed's precondition holds and none of its advance calls trips the assertion |
| Layouts.UniqueSingleOwner | kanban.py:100 | on a board satisfying the invariant the single-owner assertion of move_task and advance always holds |
| Layouts.MovedCounts | kanban.py:88-95 | after a move the moved id has exactly one entry and every other id's count is unchanged |
| Layouts.AdvancedCounts | kanban.py:97-113 | after advance the id keeps one entry, or none when it left the last column; every other id's count is unchanged |
| Layouts.ClearedCounts | kanban.py:115-119 | after cleaning, each id loses exactly its entries in the last column |
| Layouts.PlacedCounts | kanban.py:81-86 | add_task adds one entry of the task's id exactly when the column did not hold that task |
| Layouts.MoveKeepsInvariant | kanban.py:88-95 | move_task keeps each id at most once on the board and every id below the counter |
| Layouts.AdvanceKeepsInvariant | kanban.py:97-113 | advance keeps each id at most once on the board and every id below the counter |
| Layouts.ClearKeepsInvariant | kanban.py:115-119 | clean_completed keeps each id at most once on the board and every id below the counter |
| Layouts.PlaceFreshKeepsUnique | kanban.py:81-86 | adding a task whose id is not on the board keeps each id at most once |
| Layouts.PlaceNewKeepsInvariant | kanban.py:172-174 | adding a newly created task, whose id is the counter's value, keeps each id at most once and every id below the advanced counter |
| Layouts.Ids | kanban.py:116 | the ids of the last column's tasks, in order |
| Layouts.StripAll | kanban.py:117-118 | the column with every listed id removed: exactly its tasks whose id is not listed |
| Layouts.FirstsOfDistinct | kanban.py:115-119 | when the ids in the last column are distinct, every task there is the first of its id, so every one is recorded |
| Layouts.CleanStepOwners | kanban.py:116-118 | while cleaning, the id of the i-th captured task is held by the last column alone, or by no column exactly when an earlier captured task had that id |
| Layouts.CleanStepFacts | kanban.py:117-118 | each advance in clean_completed either finds nothing (an earlier duplicate) and changes nothing, or retires that task from the last column and takes the cleaning one step on |
| Layouts.CleanedAll | kanban.py:115-119 | once every captured id has been advanced, the last column is empty and the other columns are as they were |
| Boards.Written | kanban.py:108-111 | the file gets the task's display line, then each message after a tab, in order |
| Boards.WrittenRecord | kanban.py:108-111 | the lines written for a retired task determine its id, its name and its whole message log |
| Boards.WrittenDetermines | kanban.py:108-111 | the written lines determine the record: id, name and every message |
| Boards.KeptWhole | kanban.py:115-119 | cleaning records the first task of each captured id, in the order of the last column |
| Boards.ChainHas | kanban.py:122 | the merged mapping has exactly the keys of the columns' mappings |
| Boards.ChainFirst | kanban.py:122 | a key takes its value from the first mapping that has it |
| Boards.Board.GetContents | kanban.py:121-122 | the keys are exactly the column names; a name maps to the display lines of the first column with that name |
| Boards.Board.constructor | kanban.py:73-74 | a new board has no columns and no completed records |
| Boards.Board.AddColumn | kanban.py:76-79 | a fresh empty column with the name is appended and its index returned; the tasks of the other columns are unchanged |
| Boards.Board.AddTask | kanban.py:81-86 | true exactly when the index is in range; the board is then the task added to that column (unchanged when it already held that task object), and the task gains the column's entry message exactly when it was appended |
| Boards.Board.RemoveFromAll | kanban.py:90 | every column loses the id and the tasks collected are one per owning column, in column order |
| Boards.Board.MoveTask | kanban.py:88-95 | true exactly when the index is in range and some column holds the id; the board is then Moved and the moved task gains the target column's entry message, otherwise nothing changes |
| Boards.Board.Advance | kanban.py:97-113 | true exactly when some column holds the id; the board is then Advanced; the task gains the next column's entry message, or its record is appended to the completed records when it left the last column |
| Boards.Board.AdvanceAt | kanban.py:101-111 | advance once the owning column is known: forward with the entry message, or retire with the record |
| Boards.Board.Forward | kanban.py:103-106 | the task leaves its column and is appended to the next one with that column's entry message |
| Boards.Board.Retire | kanban.py:107-111 | the task leaves the last column and its record is appended to the completed records |
| Boards.Board.Archive | kanban.py:108-111 | exactly the task's record is appended to the completed records |
| Boards.Board.CleanStep | kanban.py:117-118 | one turn of the cleaning loop advances the captured id and keeps the record of its task exactly when the id was not seen earlier |
| Boards.Board.CleanCompleted | kanban.py:115-119 | returns the number of tasks the last column held on entry; afterwards the last column is empty, every other column unchanged, and the records of the first task of each captured id are appended in order |
| Workflow.NewTask | kanban.py:172-174 | the new task takes the counter's value as its id and the counter goes up by one; it is appended to column 0 with that column's entry message (nowhere if there is no column); each id stays at most once on the board and below the counter |

Message logs only grow: `Task.AddMessage` is the only writer of `messages`,
and every board method that can change a task names that one task in its
`modifies` clause and states its new log as the old log plus one entry; every
other task is outside the frame and keeps its log.

## Left out

- The `Kanban` class: the console loop, menu, colours, parsing of typed ids,
  and saving and loading with pickle. These are user interface and I/O. The
  one part kept is the core of the "new task" command (kanban.py:172-174),
  as `Workflow.NewTask`.
- The completed-task file is not written. It is a ghost sequence `finished`
  of `Completed` records, and `Written` gives the lines of each record.
  Newline characters and file-system errors are not modelled.
- The clock: the `datetime.now()` timestamp of an entry message is a `stamp`
  string parameter. Its format is not modelled.
- `Task.LAST_TASK_ID` is a class-level global in the program. Here it is an
  `IdCounter` object passed to the constructor.
- `get_id` and `get_messages` are plain field reads (`id`, `messages`).
- Boards.Board.AddTask: the column index is a `nat`. A negative index, which
  Python accepts and counts from the end, is not modelled.
- Task ids are `nat` in `Columns.Column.RemoveTask`, `Columns.Column.Contains`,
  `Boards.Board.MoveTask` and `Boards.Board.Advance`. The program accepts any
  integer typed at the console. A negative id matches no task, so the program
  behaves as for an absent id; the model does not take negative ids.
- Boards.Board.MoveTask: the column index is a `nat`, as for `AddTask`. The
  single-owner `assert` is a precondition. The program checks it only after
  stripping the id from every column, so a failing assertion leaves the board
  changed; the model does not describe that state.
- Boards.Board.Advance: the single-owner `assert` is a precondition. The
  second assertion (a task was found and the next index is at most the
  number of columns) is proved to hold, not assumed.
- Boards.Board.CleanCompleted: the program raises `IndexError` on a board
  with no columns; the model requires at least one column. The precondition
  `SingleOwners` requires that each captured id is held by at most one column
  on entry. This is exactly the condition under which none of the `advance`
  calls trips its assertion.
- `get_contents` on the board: the program merges with `ChainMap`, where the
  first column with a given name wins. The model follows the program.
