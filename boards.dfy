/** An ordered list of columns and the transitions between them (class Board
    of kanban.py). The placement of tasks is read off the columns as a Layout,
    and every transition is stated against the Layout function that specifies it. */
module Boards {
  import opened Tasks
  import opened Layouts
  import opened Columns

  /** What advance hands to the completed-task file for a task leaving the
      board: its id, its name and its messages. */
  datatype Completed = Completed(id: nat, name: string, log: seq<string>)

  function Record(t: Task): Completed
    reads t
  {
    Completed(t.id, t.name, t.messages)
  }

  /** The lines advance appends to the file for a record: the task's display
      line, then each message indented by a tab (newlines left out). */
  function Written(c: Completed): (w: seq<string>)
    ensures |w| == |c.log| + 1 && w[0] == Line(c.id, c.name)
    ensures forall i :: 0 <= i < |c.log| ==> w[i + 1] == "\t" + c.log[i]
  {
    [Line(c.id, c.name)] + seq(|c.log|, i requires 0 <= i < |c.log| => "\t" + c.log[i])
  }

  /** The file text of a record determines the record. */
  lemma WrittenDetermines(c1: Completed, c2: Completed)
    requires Written(c1) == Written(c2)
    ensures c1 == c2
  {
    var w1, w2 := Written(c1), Written(c2);
    LineDeterminesTask(c1.id, c1.name, c2.id, c2.name);
    assert |c1.log| == |c2.log|;
    forall i | 0 <= i < |c1.log| ensures c1.log[i] == c2.log[i] {
      assert w1[i + 1] == w2[i + 1];
      assert ("\t" + c1.log[i])[1..] == c1.log[i];
      assert ("\t" + c2.log[i])[1..] == c2.log[i];
    }
  }

  /** What advance writes for a retired task determines the task's id, its name
      and its whole message log at the time it left the board. */
  lemma WrittenRecord(t1: Task, t2: Task)
    requires Written(Record(t1)) == Written(Record(t2))
    ensures t1.id == t2.id && t1.name == t2.name && t1.messages == t2.messages
  {
    WrittenDetermines(Record(t1), Record(t2));
  }

  /** The records of ts, in order. */
  function Records(ts: seq<Task>): (r: seq<Completed>)
    reads ts
    ensures |r| == |ts| && forall i :: 0 <= i < |ts| ==> r[i] == Record(ts[i])
  {
    if ts == [] then [] else Records(ts[..|ts| - 1]) + [Record(ts[|ts| - 1])]
  }

  /** Records read only the tasks: while no task changes, neither do they. */
  twostate lemma RecordsUnchanged(ts: seq<Task>)
    requires forall t :: t in ts ==> unchanged(t)
    ensures Records(ts) == old(Records(ts))
  {
    var now, before := Records(ts), old(Records(ts));
    forall k | 0 <= k < |ts| ensures now[k] == before[k] {
      assert ts[k] in ts;
    }
  }

  lemma RecordsStep(ts: seq<Task>, t: Task, take: bool)
    ensures Records(ts + if take then [t] else []) == Records(ts) + if take then [Record(t)] else []
  {
    if take {
      assert (ts + [t])[..|ts|] == ts;
    } else {
      assert ts + [] == ts;
    }
  }

  /** The records clean_completed has kept after one more entry of s. */
  lemma FinishedStep(s: seq<Task>, i: nat)
    requires i < |s|
    ensures Records(Firsts(s[..i + 1])) ==
      Records(Firsts(s[..i])) + if s[i].id in Ids(s)[..i] then [] else [Record(s[i])]
  {
    FirstsStep(s, i);
    RecordsStep(Firsts(s[..i]), s[i], s[i].id !in Ids(s)[..i]);
  }

  /** The records clean_completed has kept after advancing the ids of s[..i],
      recs[k] being the record of s[k]: one for each entry whose id is new. */
  function Kept(s: seq<Task>, recs: seq<Completed>, i: nat): seq<Completed>
    requires |recs| == |s| && i <= |s|
  {
    if i == 0 then [] else Kept(s, recs, i - 1) + if s[i - 1].id in Ids(s)[..i - 1] then [] else [recs[i - 1]]
  }

  /** One more entry of s: its record is kept after those before it, when its id
      is new. */
  lemma KeptNext(base: seq<Completed>, s: seq<Task>, recs: seq<Completed>, i: nat)
    requires |recs| == |s| && i < |s|
    ensures base + Kept(s, recs, i + 1) ==
      base + Kept(s, recs, i) + if s[i].id in Ids(s)[..i] then [] else [recs[i]]
  {
    var step := if s[i].id in Ids(s)[..i] then [] else [recs[i]];
    assert Kept(s, recs, i + 1) == Kept(s, recs, i) + step;
    assert base + (Kept(s, recs, i) + step) == base + Kept(s, recs, i) + step;
  }

  /** Over the whole column, the records kept are those of the first task of
      each id. */
  lemma KeptWhole(s: seq<Task>)
    ensures Kept(s, Records(s), |s|) == Records(Firsts(s))
  {
    KeptAll(s, |s|);
    assert s[..|s|] == s;
  }

  /** With the records of s itself, what is kept is the records of the first task
      of each id. */
  lemma {:induction false} KeptAll(s: seq<Task>, i: nat)
    requires i <= |s|
    ensures Kept(s, Records(s), i) == Records(Firsts(s[..i]))
  {
    if i > 0 {
      var j, recs := i - 1, Records(s);
      KeptAll(s, j);
      FinishedStep(s, j);
      assert recs[j] == Record(s[j]);
      assert Kept(s, recs, j + 1) == Kept(s, recs, j) + if s[j].id in Ids(s)[..j] then [] else [recs[j]];
    } else {
      assert s[..0] == [];
    }
  }

  /** Column names mapped to display lines. */
  type Contents = map<string, seq<string>>

  /** A chain of maps looked up front to back, flattened: a key maps to its value
      in the first map that has it. */
  function Chain(ms: seq<Contents>): Contents {
    if ms == [] then map[] else Chain(ms[1..]) + ms[0]
  }

  /** The flattened chain has exactly the keys of its maps. */
  lemma {:induction false} ChainHas(ms: seq<Contents>, k: string)
    ensures k in Chain(ms) <==> exists i :: 0 <= i < |ms| && k in ms[i]
  {
    if ms != [] {
      var rest := ms[1..];
      ChainHas(rest, k);
      if k in Chain(rest) {
        var i :| 0 <= i < |rest| && k in rest[i];
        assert k in ms[i + 1];
      }
      if exists i :: 0 <= i < |ms| && k in ms[i] {
        var i :| 0 <= i < |ms| && k in ms[i];
        if i > 0 {
          assert k in rest[i - 1];
        }
      }
    }
  }

  /** A key takes its value from the first map that has it. */
  lemma {:induction false} ChainFirst(ms: seq<Contents>, i: nat, k: string)
    requires i < |ms| && k in ms[i]
    requires forall j :: 0 <= j < i ==> k !in ms[j]
    ensures k in Chain(ms) && Chain(ms)[k] == ms[i][k]
  {
    if i > 0 {
      var rest := ms[1..];
      assert k !in ms[0];
      assert rest[i - 1] == ms[i];
      assert forall j :: 0 <= j < i - 1 ==> k !in rest[j] by {
        forall j | 0 <= j < i - 1 ensures k !in rest[j] {
          assert rest[j] == ms[j + 1];
        }
      }
      ChainFirst(rest, i - 1, k);
    }
  }

  /** A chain of maps each keyed by one name has exactly those names as keys. */
  lemma ChainNames(ms: seq<Contents>, names: seq<string>, k: string)
    requires |ms| == |names| && forall i :: 0 <= i < |ms| ==> ms[i].Keys == {names[i]}
    ensures k in Chain(ms) <==> exists i :: 0 <= i < |names| && names[i] == k
  {
    ChainHas(ms, k);
    assert forall i :: 0 <= i < |ms| ==> (k in ms[i] <==> names[i] == k);
  }

  /** In such a chain, a name takes its value from the first map keyed by it. */
  lemma ChainNamesFirst(ms: seq<Contents>, names: seq<string>, i: nat)
    requires |ms| == |names| && forall k :: 0 <= k < |ms| ==> ms[k].Keys == {names[k]}
    requires i < |ms| && forall j :: 0 <= j < i ==> names[j] != names[i]
    ensures names[i] in Chain(ms) && Chain(ms)[names[i]] == ms[i][names[i]]
  {
    ChainFirst(ms, i, names[i]);
  }

  class Board {
    var columns: seq<Column>
    /** Records of the tasks advance took off the board, oldest first. */
    ghost var finished: seq<Completed>
    /** The index at which each column was added: it makes the columns distinct objects. */
    ghost var pos: map<Column, nat>

    /** The board's columns are distinct objects: each sits at the index pos gives it. */
    ghost predicate Valid()
      reads this`columns, this`pos
    {
      forall i :: 0 <= i < |columns| ==> columns[i] in pos && pos[columns[i]] == i
    }

    /** The tasks of each column, in column order. */
    function Placement(): (L: Layout)
      reads this`columns, columns
      ensures |L| == |columns| && forall i :: 0 <= i < |columns| ==> L[i] == columns[i].tasks
    {
      var cs := columns;
      seq(|cs|, i requires 0 <= i < |cs| reads cs => cs[i].tasks)
    }

    /** What each column's get_contents returns, in column order. */
    function ColumnContents(): (ms: seq<Contents>)
      reads this`columns, columns
      ensures |ms| == |columns| && forall i :: 0 <= i < |columns| ==> ms[i] == columns[i].GetContents()
    {
      var cs := columns;
      seq(|cs|, i requires 0 <= i < |cs| reads cs => cs[i].GetContents())
    }

    /** Column names mapped to the display lines of their tasks; when two columns
        share a name, the earlier column's lines are the ones shown. */
    function GetContents(): (m: Contents)
      reads this`columns, columns
      ensures forall k :: k in m <==> exists i :: 0 <= i < |columns| && columns[i].name == k
      ensures forall i :: 0 <= i < |columns| && (forall j :: 0 <= j < i ==> columns[j].name != columns[i].name) ==>
        columns[i].name in m && m[columns[i].name] == Lines(columns[i].tasks)
    {
      var ms, cs := ColumnContents(), columns;
      var names := seq(|cs|, i requires 0 <= i < |cs| => cs[i].name);
      forall k ensures k in Chain(ms) <==> exists i :: 0 <= i < |columns| && columns[i].name == k {
        ChainNames(ms, names, k);
      }
      forall i | 0 <= i < |columns| && (forall j :: 0 <= j < i ==> columns[j].name != columns[i].name)
        ensures columns[i].name in Chain(ms) && Chain(ms)[columns[i].name] == Lines(columns[i].tasks)
      {
        ChainNamesFirst(ms, names, i);
        assert ms[i][names[i]] == Lines(columns[i].tasks);
      }
      Chain(ms)
    }

    /** The task move_task would take: the first with the id in the first column
        holding it, if any. */
    ghost function Moving(id: nat): set<Task>
      reads this`columns, columns
    {
      if Owners(Placement(), id) != [] then {Picked(Placement(), id)} else {}
    }

    /** The task advance would hand on to the next column, if any. */
    ghost function Forwarded(id: nat): set<Task>
      reads this`columns, columns
    {
      var L := Placement();
      if Owners(L, id) != [] && Owner(L, id) + 1 < |L| then {Picked(L, id)} else {}
    }

    constructor ()
      ensures Valid() && columns == [] && finished == []
    {
      columns := [];
      finished := [];
      pos := map[];
    }

    /** Appends an empty column and returns its index. */
    method AddColumn(name: string) returns (index: nat)
      requires Valid()
      modifies this`columns, this`pos
      ensures Valid() && index == |old(columns)|
      ensures |columns| == index + 1 && columns[..index] == old(columns)
      ensures fresh(columns[index]) && columns[index].name == name
      ensures Placement() == old(Placement()) + [[]]
    {
      var column := new Column(name);
      pos := pos[column := |columns|];
      columns := columns + [column];
      index := |columns| - 1;
      assert columns[..index] == old(columns);
      Extensional(Placement(), old(Placement()) + [[]]);
    }

    /** remove_task on column i, seen on the whole board. */
    method RemoveAt(i: nat, id: nat) returns (removed: Task?)
      requires Valid() && i < |columns|
      modifies columns[i]
      ensures Placement() == old(Placement())[i := WithoutId(old(Placement())[i], id)]
      ensures removed != null <==> HasId(old(Placement())[i], id)
      ensures removed != null ==> removed == WithId(old(Placement())[i], id)[0]
    {
      ghost var L := Placement();
      assert forall j :: 0 <= j < |columns| && j != i ==> columns[j] != columns[i];
      removed := columns[i].RemoveTask(id);
      Extensional(Placement(), L[i := WithoutId(L[i], id)]);
    }

    /** add_task on column c, seen on the whole board. */
    method PutInto(c: nat, task: Task, stamp: string) returns (added: bool)
      requires Valid() && c < |columns|
      modifies columns[c], task
      ensures Placement() == Placed(old(Placement()), c, task)
      ensures added <==> task !in old(Placement())[c]
      ensures task.messages ==
        old(task.messages) + if added then [Entry(columns[c].name, stamp)] else []
    {
      ghost var L := Placement();
      assert forall j :: 0 <= j < |columns| && j != c ==> columns[j] != columns[c];
      added := columns[c].AddTask(task, stamp);
      Extensional(Placement(), Placed(L, c, task));
    }

    /** Puts the task into the column when the index is in range; reports success
        even when the column already held that very task. */
    method AddTask(column: nat, task: Task, stamp: string) returns (ok: bool)
      requires Valid()
      modifies columns, task
      ensures ok <==> column < |columns|
      ensures ok ==> Placement() == Placed(old(Placement()), column, task)
      ensures !ok ==> Placement() == old(Placement()) && task.messages == old(task.messages)
      ensures ok && task in old(Placement())[column] ==> task.messages == old(task.messages)
      ensures ok && task !in old(Placement())[column] ==>
        task.messages == old(task.messages) + [Entry(columns[column].name, stamp)]
    {
      if column < |columns| {
        var _ := PutInto(column, task, stamp);
        ok := true;
      } else {
        ok := false;
      }
    }

    /** One step of move_task's sweep: remove_task on column i, the columns
        before it already stripped of the id and their finds collected in
        moving; what the call returned is appended. */
    method StripColumn(ghost L: Layout, id: nat, i: nat, moving: seq<Task>) returns (collected: seq<Task>)
      requires Valid() && i < |columns| == |L|
      requires Placement() == StrippedUpTo(L, id, i) && moving == Removed(L[..i], id)
      modifies columns[i]
      ensures Placement() == StrippedUpTo(L, id, i + 1)
      ensures collected == Removed(L[..i + 1], id)
    {
      StrippedStep(L, id, i);
      RemovedStep(L, i, id);
      var removed := RemoveAt(i, id);
      collected := if removed != null then moving + [removed] else moving;
    }

    /** remove_task on every column in turn, collecting what each returned
        (the list move_task filters). */
    method RemoveFromAll(id: nat) returns (moving: seq<Task>)
      requires Valid()
      modifies columns
      ensures Placement() == Strip(old(Placement()), id)
      ensures moving == Removed(old(Placement()), id)
    {
      ghost var L := Placement();
      StrippedNone(L, id);
      moving := [];
      var i := 0;
      while i < |columns|
        invariant i <= |columns| == |L|
        invariant Placement() == StrippedUpTo(L, id, i)
        invariant moving == Removed(L[..i], id)
      {
        moving := StripColumn(L, id, i, moving);
        i := i + 1;
      }
      SweepDone(L, id, i);
    }

    /** Takes every task with the id off every column and, when one was found,
        appends it to the target column. The target must be in range for
        anything to happen; a task found in more than one column is refused. */
    method MoveTask(column: nat, id: nat, stamp: string) returns (ok: bool)
      requires Valid()
      requires column < |columns| ==> SingleOwner(Placement(), id)
      modifies columns, if column < |columns| then Moving(id) else {}
      ensures ok <==> column < |columns| && old(Owners(Placement(), id)) != []
      ensures !ok ==> Placement() == old(Placement())
      ensures ok ==> Placement() == old(Moved(Placement(), column, id))
      ensures ok ==> var t := old(Picked(Placement(), id));
        t.messages == old(t.messages) + [Entry(columns[column].name, stamp)]
    {
      ghost var L := Placement();
      if column >= |columns| {
        return false;
      }
      var moving := RemoveFromAll(id);
      RemovedFacts(L, id);
      if moving == [] {
        return false;
      }
      MovedIsPlaced(L, column, id);
      var _ := PutInto(column, moving[0], stamp);
      ok := true;
    }

    /** Moves the task one column to the right, or off the board into the
        completed records when it sits in the last column; false when no
        column holds the id. */
    method Advance(id: nat, stamp: string) returns (ok: bool)
      requires Valid()
      requires SingleOwner(Placement(), id)
      modifies columns, Forwarded(id), this`finished
      ensures ok <==> old(Owners(Placement(), id)) != []
      ensures !ok ==> Placement() == old(Placement()) && finished == old(finished)
      ensures ok ==> Placement() == old(Advanced(Placement(), id))
      ensures ok && old(Owner(Placement(), id)) + 1 < |columns| ==>
        var o, t := old(Owner(Placement(), id)), old(Picked(Placement(), id));
        t.messages == old(t.messages) + [Entry(columns[o + 1].name, stamp)] && finished == old(finished)
      ensures ok && old(Owner(Placement(), id)) + 1 == |columns| ==>
        finished == old(finished) + [Record(old(Picked(Placement(), id)))]
    {
      if Owners(Placement(), id) == [] {
        return false;
      }
      AdvanceOwned(id, stamp);
      ok := true;
    }

    /** advance once some column is known to hold the id. */
    method AdvanceOwned(id: nat, stamp: string)
      requires Valid() && SingleOwner(Placement(), id) && Owners(Placement(), id) != []
      modifies columns, Forwarded(id), this`finished
      ensures Placement() == old(Advanced(Placement(), id))
      ensures old(Owner(Placement(), id)) + 1 < |columns| ==>
        var o, t := old(Owner(Placement(), id)), old(Picked(Placement(), id));
        t.messages == old(t.messages) + [Entry(columns[o + 1].name, stamp)] && finished == old(finished)
      ensures old(Owner(Placement(), id)) + 1 == |columns| ==>
        finished == old(finished) + [Record(old(Picked(Placement(), id)))]
    {
      ghost var L := Placement();
      var o := Owners(Placement(), id)[0];
      OwnedBy(L, id, o);
      AdvanceAt(L, o, id, stamp, Picked(L, id));
    }

    /** advance once the owning column o and the task t it takes are known. */
    method AdvanceAt(ghost L: Layout, o: nat, id: nat, stamp: string, ghost t: Task)
      requires Valid() && L == Placement()
      requires Owners(L, id) == [o] && t == Picked(L, id)
      modifies columns, if o + 1 < |L| then {t} else {}, this`finished
      ensures Placement() == Advanced(L, id)
      ensures o + 1 < |L| ==>
        t.messages == old(t.messages) + [Entry(columns[o + 1].name, stamp)] && finished == old(finished)
      ensures o + 1 == |L| ==> finished == old(finished) + [Record(t)]
    {
      if o + 1 < |columns| {
        ForwardFacts(L, id, o);
        Forward(L, o, id, stamp, t);
      } else {
        RetireFacts(L, id, o);
        Retire(L, o, id);
      }
    }

    /** advance of a task held by column o, not the last: t, its first task with
        the id, moves to the end of the next column. */
    method Forward(ghost L: Layout, o: nat, id: nat, stamp: string, ghost t: Task)
      requires Valid() && L == Placement() && o + 1 < |L|
      requires HasId(L[o], id) && t == WithId(L[o], id)[0]
      modifies columns[o], columns[o + 1], t
      ensures Placement() == Placed(L[o := WithoutId(L[o], id)], o + 1, t)
      ensures t !in L[o + 1] ==> t.messages == old(t.messages) + [Entry(columns[o + 1].name, stamp)]
    {
      var task := RemoveAt(o, id);
      var added := PutInto(o + 1, task, stamp);
    }

    /** advance of a task held by the last column, o: its first task with the
        id leaves the board and its record is kept. */
    method Retire(ghost L: Layout, o: nat, id: nat)
      requires Valid() && L == Placement() && o + 1 == |L| && HasId(L[o], id)
      modifies columns[o], this`finished
      ensures Placement() == L[o := WithoutId(L[o], id)]
      ensures finished == old(finished) + [Record(WithId(L[o], id)[0])]
    {
      var task := RemoveAt(o, id);
      Archive(task);
    }

    /** Advances, in order, the id of every task the last column holds on entry
        and returns how many there were; an id seen earlier in that column finds
        nothing left to advance. Each first task of its id leaves the board and
        its record is kept. */
    method CleanCompleted(stamp: string) returns (count: nat)
      requires Valid() && |columns| >= 1
      requires SingleOwners(Placement(), columns[|columns| - 1].tasks)
      modifies columns, this`finished
      ensures count == |old(columns[|columns| - 1].tasks)|
      ensures Placement() == old(Cleared(Placement()))
      ensures finished == old(finished) + Records(Firsts(old(columns[|columns| - 1].tasks)))
    {
      ghost var L := Placement();
      ghost var s := L[|L| - 1];
      ghost var recs := Records(s);
      var ids := Ids(columns[|columns| - 1].tasks);
      assert ids == Ids(s) && SingleOwners(L, s);
      var i := 0;
      while i < |ids|
        invariant i <= |ids|
        invariant Valid() && |columns| == |L| && Placement() == CleanedUpTo(L, i)
        invariant Records(s) == recs
        invariant finished == old(finished) + Kept(s, recs, i)
      {
        CleanOne(L, s, i, ids[i], stamp, old(finished), recs);
        i := i + 1;
      }
      CleanedAll(L);
      assert Placement() == Cleared(L);
      KeptWhole(s);
      count := |ids|;
    }

    /** clean_completed's loop body: s being the last column on entry, recs its
        records and the ids of s[..i] advanced, s[i]'s id is advanced next. */
    method CleanOne(ghost L: Layout, ghost s: seq<Task>, i: nat, id: nat, stamp: string,
                    ghost base: seq<Completed>, ghost recs: seq<Completed>)
      requires Valid() && |L| >= 1 && s == L[|L| - 1] && i < |s| && id == s[i].id
      requires SingleOwners(L, s)
      requires Placement() == CleanedUpTo(L, i)
      requires Records(s) == recs
      requires finished == base + Kept(s, recs, i)
      modifies columns, this`finished
      ensures Valid() && Placement() == CleanedUpTo(L, i + 1)
      ensures Records(s) == recs
      ensures finished == base + Kept(s, recs, i + 1)
    {
      SingleOwnersAt(L, s, i);
      CleanStep(L, i, id, stamp, recs[i]);
      RecordsUnchanged(s);
      KeptNext(base, s, recs, i);
    }

    /** One turn of clean_completed's loop: s being the last column on entry
        and the ids of s[..i] advanced, s[i]'s id is advanced next. */
    method CleanStep(ghost L: Layout, i: nat, id: nat, stamp: string, ghost rec: Completed)
      requires Valid() && |L| >= 1 && i < |L[|L| - 1]| && id == L[|L| - 1][i].id
      requires SingleOwner(L, id)
      requires Placement() == CleanedUpTo(L, i)
      requires rec == Record(L[|L| - 1][i])
      modifies columns, this`finished
      ensures Valid() && Placement() == CleanedUpTo(L, i + 1)
      ensures finished == old(finished) + if id in Ids(L[|L| - 1])[..i] then [] else [rec]
    {
      CleanStepFacts(L, i);
      AdvanceKnown(CleanedUpTo(L, i), CleanedUpTo(L, i + 1), id, stamp, L[|L| - 1][i], id !in Ids(L[|L| - 1])[..i]);
    }

    /** advance of an id that no column holds, or that only the last column
        holds, with its outcome N and the task t it takes off known. */
    method AdvanceKnown(ghost M: Layout, ghost N: Layout, id: nat, stamp: string, ghost t: Task, ghost take: bool)
      requires Valid() && M == Placement() && |M| >= 1
      requires take ==> Owners(M, id) == [|M| - 1] && Picked(M, id) == t && Advanced(M, id) == N
      requires !take ==> Owners(M, id) == [] && N == M
      modifies columns, this`finished
      ensures Valid() && Placement() == N
      ensures finished == old(finished) + if take then [old(Record(t))] else []
    {
      assert take ==> Owner(M, id) == |M| - 1;
      assert Forwarded(id) == {};
      var _ := Advance(id, stamp);
    }

    /** Appends the task's record to the completed-task records. */
    method Archive(task: Task)
      modifies this`finished
      ensures finished == old(finished) + [Record(task)]
    {
      finished := finished + [Record(task)];
    }
  }
}
