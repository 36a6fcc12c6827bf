/** A named, insertion-ordered list of tasks (class Column of kanban.py). */
module Columns {
  import opened Tasks
  import opened Layouts

  class Column {
    const name: string
    var tasks: seq<Task>

    constructor (name: string)
      ensures this.name == name && tasks == []
    {
      this.name := name;
      tasks := [];
    }

    /** Appends the task unless this very task object is already in the column;
        an appended task gets one message naming the column. */
    method AddTask(task: Task, stamp: string) returns (added: bool)
      modifies this, task
      ensures added <==> task !in old(tasks)
      ensures tasks == if added then old(tasks) + [task] else old(tasks)
      ensures task.messages ==
        if added then old(task.messages) + [Entry(name, stamp)] else old(task.messages)
    {
      if task !in tasks {
        tasks := tasks + [task];
        task.AddMessage(Entry(name, stamp));
        added := true;
      } else {
        added := false;
      }
    }

    /** Drops every task with the id and returns the first of them, or null
        when there is none (the column is then unchanged). */
    method RemoveTask(id: nat) returns (removed: Task?)
      modifies this
      ensures removed != null <==> HasId(old(tasks), id)
      ensures removed != null ==> removed.id == id && removed in old(tasks)
      ensures removed != null ==> removed == WithId(old(tasks), id)[0]
      ensures tasks == WithoutId(old(tasks), id)
      ensures removed == null ==> tasks == old(tasks)
    {
      var selected := WithId(tasks, id);
      if selected != [] {
        ExcludingSelected(tasks, selected, id);
        tasks := Excluding(tasks, selected);
        removed := selected[0];
        assert removed in selected;
      } else {
        WithoutAbsent(tasks, id);
        removed := null;
      }
    }

    /** Whether a task with the id is in the column. */
    function Contains(id: nat): (r: bool)
      reads this
      ensures r <==> exists i :: 0 <= i < |tasks| && tasks[i].id == id
    {
      assert HasId(tasks, id) <==> exists i :: 0 <= i < |tasks| && tasks[i].id == id;
      |WithId(tasks, id)| > 0
    }

    /** The column's name mapped to the display lines of its tasks, in order. */
    function GetContents(): (m: map<string, seq<string>>)
      reads this
      ensures m.Keys == {name} && |m[name]| == |tasks|
      ensures forall i :: 0 <= i < |tasks| ==> m[name][i] == tasks[i].ToString()
    {
      map[name := Lines(tasks)]
    }
  }
}
