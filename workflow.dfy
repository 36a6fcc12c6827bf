/** Creating a task from the console's "new task" command: the id comes from the
    counter and the task goes into the board's first column. */
module Workflow {
  import opened Tasks
  import opened Layouts
  import opened Boards

  /** A new task with the given name, its id drawn from the counter, put into
      column 0 (nowhere when the board has no column yet). The board keeps each
      id at most once and every id below the counter. */
  method NewTask(board: Board, counter: IdCounter, name: string, stamp: string) returns (task: Task)
    requires board.Valid()
    modifies board.columns, counter
    ensures board.Valid() && fresh(task)
    ensures task.id == old(counter.next) && task.name == name && counter.next == old(counter.next) + 1
    ensures |board.columns| == 0 ==> board.Placement() == old(board.Placement()) && task.messages == []
    ensures |board.columns| >= 1 ==>
      board.Placement() == old(board.Placement())[0 := old(board.Placement())[0] + [task]] &&
      task.messages == [Entry(board.columns[0].name, stamp)]
    ensures old(Unique(board.Placement()) && IdsBelow(board.Placement(), counter.next)) ==>
      Unique(board.Placement()) && IdsBelow(board.Placement(), counter.next)
  {
    ghost var L := board.Placement();
    task := new Task(name, counter);
    var ok := board.AddTask(0, task, stamp);
    if ok {
      assert task !in L[0];
      if Unique(L) && IdsBelow(L, task.id) {
        PlaceNewKeepsInvariant(L, 0, task, task.id);
      }
    }
  }
}
