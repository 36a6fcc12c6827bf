/** The placement of tasks on a board as a value: one sequence of tasks per
    column, in column order. The board's transitions (kanban.py, class Board)
    are specified here as functions on that value, and the board's invariants
    (each id at most once on the board, every id below the counter) are proved
    to be kept by them. */
module Layouts {
  import opened Tasks

  type Layout = seq<seq<Task>>

  /** Some task of ts has the given id. */
  predicate HasId(ts: seq<Task>, id: nat) {
    exists t :: t in ts && t.id == id
  }

  /** The tasks of ts with the given id, in their order in ts
      (the list selected_tasks of Column.remove_task). */
  function WithId(ts: seq<Task>, id: nat): (r: seq<Task>)
    ensures forall t :: t in r ==> t in ts && t.id == id
    ensures forall t :: t in ts && t.id == id ==> t in r
    ensures |r| <= |ts|
    ensures r != [] <==> HasId(ts, id)
  {
    if ts == [] then []
    else
      assert ts == ts[..|ts| - 1] + [ts[|ts| - 1]];
      WithId(ts[..|ts| - 1], id) + (if ts[|ts| - 1].id == id then [ts[|ts| - 1]] else [])
  }

  /** The tasks of ts whose id differs from the given one, in their order in ts. */
  function WithoutId(ts: seq<Task>, id: nat): (r: seq<Task>)
    ensures forall t :: t in r ==> t in ts && t.id != id
    ensures forall t :: t in ts && t.id != id ==> t in r
    ensures |r| + |WithId(ts, id)| == |ts|
  {
    if ts == [] then []
    else
      assert ts == ts[..|ts| - 1] + [ts[|ts| - 1]];
      WithoutId(ts[..|ts| - 1], id) + (if ts[|ts| - 1].id != id then [ts[|ts| - 1]] else [])
  }

  /** The tasks of ts that are not (as objects) in sel, in their order in ts. */
  function Excluding(ts: seq<Task>, sel: seq<Task>): (r: seq<Task>)
    ensures forall t :: t in r ==> t in ts && t !in sel
    ensures forall t :: t in ts && t !in sel ==> t in r
  {
    if ts == [] then []
    else
      assert ts == ts[..|ts| - 1] + [ts[|ts| - 1]];
      Excluding(ts[..|ts| - 1], sel) + (if ts[|ts| - 1] !in sel then [ts[|ts| - 1]] else [])
  }

  /** Dropping the selected objects is dropping the selected id, when the
      selection is exactly the tasks with that id. */
  lemma {:induction false} ExcludingSelected(ts: seq<Task>, sel: seq<Task>, id: nat)
    requires forall t :: t in ts ==> (t in sel <==> t.id == id)
    ensures Excluding(ts, sel) == WithoutId(ts, id)
  {
    if ts != [] {
      ExcludingSelected(ts[..|ts| - 1], sel, id);
    }
  }

  /** Removing an id that is absent changes nothing. */
  lemma {:induction false} WithoutAbsent(ts: seq<Task>, id: nat)
    requires !HasId(ts, id)
    ensures WithoutId(ts, id) == ts
  {
    if ts != [] {
      var p, t := ts[..|ts| - 1], ts[|ts| - 1];
      assert ts == p + [t];
      assert t in ts;
      assert !HasId(p, id) by {
        forall u | u in p ensures u.id != id {
          assert u in ts;
        }
      }
      WithoutAbsent(p, id);
      calc {
        WithoutId(ts, id);
        WithoutId(p, id) + [t];
        p + [t];
      }
    }
  }

  /** The first task with the id is the first element of WithId: remove_task
      returns the earliest entry. */
  lemma {:induction false} WithIdFirst(ts: seq<Task>, id: nat, k: nat)
    requires k < |ts| && ts[k].id == id
    requires forall j :: 0 <= j < k ==> ts[j].id != id
    ensures WithId(ts, id) != [] && WithId(ts, id)[0] == ts[k]
  {
    var p := ts[..|ts| - 1];
    if k < |ts| - 1 {
      WithIdFirst(p, id, k);
    } else {
      assert !HasId(p, id) by {
        forall t | t in p ensures t.id != id {
          var j :| 0 <= j < |p| && p[j] == t;
        }
      }
    }
  }

  /** Filtering by one id after removing another: removing y leaves exactly
      the x-tasks there were, and none when x == y. */
  lemma {:induction false} WithIdAfterWithout(ts: seq<Task>, y: nat, x: nat)
    ensures WithId(WithoutId(ts, y), x) == if x == y then [] else WithId(ts, x)
  {
    if ts != [] {
      var p, t := ts[..|ts| - 1], ts[|ts| - 1];
      assert ts == p + [t];
      WithIdAfterWithout(p, y, x);
      WithoutIdAppend(p, t, y);
      WithIdAppend(p, t, x);
      if t.id != y {
        WithIdAppend(WithoutId(p, y), t, x);
      } else {
        assert WithoutId(ts, y) == WithoutId(p, y);
        assert x != y ==> WithId(ts, x) == WithId(p, x);
      }
    }
  }

  /** Filtering a sequence extended by one task. */
  lemma WithIdAppend(ts: seq<Task>, t: Task, x: nat)
    ensures WithId(ts + [t], x) == WithId(ts, x) + if t.id == x then [t] else []
  {
    assert (ts + [t])[..|ts|] == ts;
  }

  lemma WithoutIdAppend(ts: seq<Task>, t: Task, x: nat)
    ensures WithoutId(ts + [t], x) == WithoutId(ts, x) + if t.id != x then [t] else []
  {
    assert (ts + [t])[..|ts|] == ts;
  }

  /** Indices of the columns that hold a task with the given id, ascending
      (the enumerate/filter of Board.advance). */
  function Owners(L: Layout, id: nat): (r: seq<nat>)
    ensures forall i {:trigger i in r} :: i in r ==> i < |L| && HasId(L[i], id)
    ensures forall i {:trigger HasId(L[i], id)} :: 0 <= i < |L| && HasId(L[i], id) ==> i in r
    ensures forall a, b :: 0 <= a < b < |r| ==> r[a] < r[b]
  {
    if L == [] then []
    else
      var q := Owners(L[..|L| - 1], id);
      assert forall i :: 0 <= i < |L| - 1 ==> L[..|L| - 1][i] == L[i];
      assert forall a :: 0 <= a < |q| ==> q[a] in q;
      q + (if HasId(L[|L| - 1], id) then [|L| - 1] else [])
  }

  /** The guard both move_task and advance assert: at most one column holds the id. */
  predicate SingleOwner(L: Layout, id: nat) {
    |Owners(L, id)| <= 1
  }

  /** The first column holding the id. */
  function Owner(L: Layout, id: nat): (o: nat)
    requires Owners(L, id) != []
    ensures o < |L| && HasId(L[o], id)
    ensures forall i :: 0 <= i < o ==> !HasId(L[i], id)
  {
    var r := Owners(L, id);
    assert r[0] in r;
    assert forall i :: 0 <= i < r[0] ==> i !in r;
    r[0]
  }

  /** The task advance and move_task relocate: the first task with the id in
      the first column holding it. */
  function Picked(L: Layout, id: nat): (t: Task)
    requires Owners(L, id) != []
    ensures t.id == id && t in L[Owner(L, id)]
  {
    var w := WithId(L[Owner(L, id)], id);
    assert w[0] in w;
    w[0]
  }

  /** The tasks move_task collects by calling remove_task on every column:
      one per column that holds the id, in column order. */
  function Removed(L: Layout, id: nat): (r: seq<Task>)
    ensures |r| == |Owners(L, id)|
  {
    if L == [] then []
    else
      Removed(L[..|L| - 1], id)
      + (if HasId(L[|L| - 1], id) then [WithId(L[|L| - 1], id)[0]] else [])
  }

  /** Collecting from one more column. */
  lemma RemovedStep(L: Layout, i: nat, id: nat)
    requires i < |L|
    ensures Removed(L[..i + 1], id) ==
      Removed(L[..i], id) + if HasId(L[i], id) then [WithId(L[i], id)[0]] else []
  {
    assert L[..i + 1][..i] == L[..i];
  }

  /** The first task move_task collects is the one advance would pick. */
  lemma {:induction false} RemovedFirst(L: Layout, id: nat)
    requires Owners(L, id) != []
    ensures Removed(L, id)[0] == Picked(L, id)
  {
    var p := L[..|L| - 1];
    assert forall i :: 0 <= i < |p| ==> p[i] == L[i];
    if Owners(p, id) != [] {
      RemovedFirst(p, id);
      assert Owner(p, id) == Owner(L, id);
    } else {
      assert Owner(L, id) == |L| - 1;
    }
  }

  /** Every column with the id removed (move_task's loop of remove_task). */
  function Strip(L: Layout, id: nat): (r: Layout)
    ensures |r| == |L|
    ensures forall i :: 0 <= i < |L| ==> r[i] == WithoutId(L[i], id)
  {
    seq(|L|, i requires 0 <= i < |L| => WithoutId(L[i], id))
  }

  /** When one column at most holds the id, stripping every column is the same
      as stripping the owner. */
  lemma StripSingle(L: Layout, id: nat)
    requires Owners(L, id) != [] && SingleOwner(L, id)
    ensures Strip(L, id) == L[Owner(L, id) := WithoutId(L[Owner(L, id)], id)]
  {
    var o := Owner(L, id);
    assert Owners(L, id) == [o];
    StripOnly(L, id, o);
  }

  lemma StripOnly(L: Layout, id: nat, o: nat)
    requires Owners(L, id) == [o]
    ensures o < |L| && Strip(L, id) == L[o := WithoutId(L[o], id)]
  {
    assert o in Owners(L, id);
    var r := L[o := WithoutId(L[o], id)];
    forall i | 0 <= i < |L|
      ensures Strip(L, id)[i] == r[i]
    {
      if i != o {
        assert i !in Owners(L, id);
        WithoutAbsent(L[i], id);
      }
    }
    Extensional(Strip(L, id), r);
  }

  /** Part-way through stripping: the first i columns stripped, the rest as they were. */
  function StrippedUpTo(L: Layout, id: nat, i: nat): (r: Layout)
    requires i <= |L|
    ensures |r| == |L|
    ensures forall j :: 0 <= j < i ==> r[j] == WithoutId(L[j], id)
    ensures forall j :: i <= j < |L| ==> r[j] == L[j]
  {
    Strip(L[..i], id) + L[i..]
  }

  /** Stripping column i takes the next step. */
  lemma StrippedStep(L: Layout, id: nat, i: nat)
    requires i < |L|
    ensures StrippedUpTo(L, id, i)[i := WithoutId(L[i], id)] == StrippedUpTo(L, id, i + 1)
  {
    Extensional(StrippedUpTo(L, id, i)[i := WithoutId(L[i], id)], StrippedUpTo(L, id, i + 1));
  }

  /** Nothing stripped is the board. */
  lemma StrippedNone(L: Layout, id: nat)
    ensures StrippedUpTo(L, id, 0) == L
  {
    Extensional(StrippedUpTo(L, id, 0), L);
  }

  /** Once every column is swept, the sweep is Strip and what it collected is Removed. */
  lemma SweepDone(L: Layout, id: nat, i: nat)
    requires i == |L|
    ensures StrippedUpTo(L, id, i) == Strip(L, id)
    ensures Removed(L[..i], id) == Removed(L, id)
  {
    assert L[..i] == L;
    Extensional(StrippedUpTo(L, id, i), Strip(L, id));
  }

  /** move_task is a strip followed by placing the picked task, which the strip
      has taken out of the target column. */
  lemma MovedIsPlaced(L: Layout, c: nat, id: nat)
    requires c < |L| && Owners(L, id) != []
    ensures Picked(L, id) !in Strip(L, id)[c]
    ensures Moved(L, c, id) == Placed(Strip(L, id), c, Picked(L, id))
  {
  }

  /** advance from a column other than the last is dropping the id from the
      owner and placing the picked task into the next column, which lacks it. */
  lemma AdvancedIsPlaced(L: Layout, id: nat)
    requires Owners(L, id) != [] && SingleOwner(L, id)
    requires Owner(L, id) + 1 < |L|
    ensures var o := Owner(L, id);
      && Picked(L, id) !in L[o + 1]
      && Advanced(L, id) == Placed(L[o := WithoutId(L[o], id)], o + 1, Picked(L, id))
  {
    OthersLack(L, Owner(L, id), id);
  }

  /** The facts move_task needs about what it collected. */
  lemma RemovedFacts(L: Layout, id: nat)
    ensures Removed(L, id) == [] <==> Owners(L, id) == []
    ensures Owners(L, id) == [] ==> Strip(L, id) == L
    ensures Owners(L, id) != [] && SingleOwner(L, id) ==>
      |Removed(L, id)| == 1 && Removed(L, id)[0] == Picked(L, id)
  {
    if Owners(L, id) == [] {
      StripAbsent(L, id);
    } else {
      RemovedFirst(L, id);
    }
  }

  lemma UpdateTwice(L: Layout, n: nat, a: seq<Task>, b: seq<Task>)
    requires n < |L|
    ensures L[n := a][n := b] == L[n := b]
  {
    Extensional(L[n := a][n := b], L[n := b]);
  }

  lemma Extensional(a: Layout, b: Layout)
    requires |a| == |b| && forall i :: 0 <= i < |a| ==> a[i] == b[i]
    ensures a == b
  {
  }

  /** move_task(c, id) on a board where the id is present. */
  function Moved(L: Layout, c: nat, id: nat): (r: Layout)
    requires c < |L| && Owners(L, id) != []
    ensures |r| == |L|
    ensures r[c] == WithoutId(L[c], id) + [Picked(L, id)]
    ensures forall i :: 0 <= i < |L| && i != c ==> r[i] == WithoutId(L[i], id)
  {
    var s := Strip(L, id);
    s[c := s[c] + [Picked(L, id)]]
  }

  /** advance(id) on a board where the id is present: one column right, or
      off the board from the last column. */
  function Advanced(L: Layout, id: nat): (r: Layout)
    requires Owners(L, id) != []
    ensures |r| == |L| && r[Owner(L, id)] == WithoutId(L[Owner(L, id)], id)
    ensures Owner(L, id) + 1 < |L| ==> r[Owner(L, id) + 1] == L[Owner(L, id) + 1] + [Picked(L, id)]
    ensures forall i :: 0 <= i < |L| && i != Owner(L, id) && i != Owner(L, id) + 1 ==> r[i] == L[i]
  {
    var o := Owner(L, id);
    var s := L[o := WithoutId(L[o], id)];
    if o + 1 < |L| then s[o + 1 := s[o + 1] + [Picked(L, id)]] else s
  }

  /** clean_completed: the last column emptied. */
  function Cleared(L: Layout): (r: Layout)
    requires |L| >= 1
    ensures |r| == |L| && r[|L| - 1] == []
    ensures forall i :: 0 <= i < |L| - 1 ==> r[i] == L[i]
  {
    L[|L| - 1 := []]
  }

  /** Board.add_task(c, t) with c in range: appended unless the column already
      holds that very task. */
  function Placed(L: Layout, c: nat, t: Task): (r: Layout)
    requires c < |L|
    ensures |r| == |L| && t in r[c]
    ensures t in L[c] ==> r[c] == L[c]
    ensures t !in L[c] ==> r[c] == L[c] + [t]
    ensures forall i :: 0 <= i < |L| && i != c ==> r[i] == L[i]
  {
    if t in L[c] then L else L[c := L[c] + [t]]
  }

  /** With no column holding the id, stripping it changes nothing (a move_task
      of an absent id leaves the board as it was). */
  lemma StripAbsent(L: Layout, id: nat)
    requires Owners(L, id) == []
    ensures Strip(L, id) == L
  {
    forall i | 0 <= i < |L| ensures Strip(L, id)[i] == L[i] {
      assert i !in Owners(L, id);
      WithoutAbsent(L[i], id);
    }
    Extensional(Strip(L, id), L);
  }

  /** After move_task the task sits exactly once on the board, at the end of
      the target column; every column's other tasks are as before, in order. */
  lemma MovedShape(L: Layout, c: nat, id: nat)
    requires c < |L| && Owners(L, id) != []
    ensures var r := Moved(L, c, id);
      && |r| == |L|
      && r[c] != [] && r[c][|r[c]| - 1] == Picked(L, id)
      && (forall i :: 0 <= i < |L| ==> WithoutId(r[i], id) == WithoutId(L[i], id))
      && (forall i :: 0 <= i < |L| ==> |WithId(r[i], id)| == if i == c then 1 else 0)
  {
    var r := Moved(L, c, id);
    var t := Picked(L, id);
    forall i | 0 <= i < |L|
      ensures WithoutId(r[i], id) == WithoutId(L[i], id)
      ensures |WithId(r[i], id)| == if i == c then 1 else 0
    {
      var w := WithoutId(L[i], id);
      WithoutAbsent(w, id);
      WithIdAfterWithout(L[i], id, id);
      if i == c {
        assert r[i] == w + [t];
        assert (w + [t])[..|w + [t]| - 1] == w;
      }
    }
  }

  /** From the last column, advance only drops the id from that column. */
  lemma AdvancedAtEnd(L: Layout, id: nat)
    requires Owners(L, id) != [] && Owner(L, id) + 1 == |L|
    ensures Advanced(L, id) == L[|L| - 1 := WithoutId(L[|L| - 1], id)]
  {
  }

  /** The column found by advance's enumerate/filter is the owner. */
  lemma OwnedBy(L: Layout, id: nat, o: nat)
    requires SingleOwner(L, id) && Owners(L, id) != [] && o == Owners(L, id)[0]
    ensures Owners(L, id) == [o] && Owner(L, id) == o
  {
  }

  /** advance from the last column o: what remove_task returns there is the
      picked task, and the board loses it from o only. */
  lemma RetireFacts(L: Layout, id: nat, o: nat)
    requires Owners(L, id) == [o] && o + 1 == |L|
    ensures HasId(L[o], id) && WithId(L[o], id)[0] == Picked(L, id)
    ensures Advanced(L, id) == L[o := WithoutId(L[o], id)]
  {
    assert o in Owners(L, id);
    assert o == Owner(L, id);
    AdvancedAtEnd(L, id);
  }

  /** advance from column o, not the last: what remove_task returns there is
      the picked task, which the next column lacks and then receives. */
  lemma ForwardFacts(L: Layout, id: nat, o: nat)
    requires Owners(L, id) == [o] && o + 1 < |L|
    ensures HasId(L[o], id) && WithId(L[o], id)[0] == Picked(L, id)
    ensures Picked(L, id) !in L[o + 1]
    ensures Advanced(L, id) == Placed(L[o := WithoutId(L[o], id)], o + 1, Picked(L, id))
  {
    OwnedBy(L, id, o);
    AdvancedIsPlaced(L, id);
  }

  /** From a column other than the last, advance is move_task to the next column. */
  lemma AdvanceIsMove(L: Layout, id: nat)
    requires Owners(L, id) != [] && SingleOwner(L, id)
    requires Owner(L, id) + 1 < |L|
    ensures Advanced(L, id) == Moved(L, Owner(L, id) + 1, id)
  {
    StripSingle(L, id);
  }

  /** From the last column, advance takes the id off the board and leaves every
      other task where it was. */
  lemma AdvanceFromLast(L: Layout, id: nat)
    requires Owners(L, id) != [] && SingleOwner(L, id)
    requires Owner(L, id) + 1 == |L|
    ensures Owners(Advanced(L, id), id) == []
    ensures forall i :: 0 <= i < |L| ==> WithoutId(Advanced(L, id)[i], id) == WithoutId(L[i], id)
  {
    var r := Advanced(L, id);
    StripSingle(L, id);
    assert r == Strip(L, id);
    forall i | 0 <= i < |L|
      ensures !HasId(r[i], id) && WithoutId(r[i], id) == WithoutId(L[i], id)
    {
      WithoutAbsent(WithoutId(L[i], id), id);
    }
  }

  // ---------------------------------------------------------------------
  // Counting: how many entries of the board carry an id.

  /** Entries with the given id across all columns. */
  function CountIn(L: Layout, x: nat): nat {
    if L == [] then 0 else CountIn(L[..|L| - 1], x) + |WithId(L[|L| - 1], x)|
  }

  /** Replacing one column changes the count by exactly that column's difference. */
  lemma {:induction false} CountUpdate(L: Layout, i: nat, s: seq<Task>, x: nat)
    requires i < |L|
    ensures CountIn(L[i := s], x) == CountIn(L, x) - |WithId(L[i], x)| + |WithId(s, x)|
  {
    var n := |L| - 1;
    if i == n {
      assert L[i := s][..n] == L[..n];
    } else {
      assert L[i := s][..n] == L[..n][i := s];
      CountUpdate(L[..n], i, s, x);
    }
  }

  /** Stripping an id leaves no entry of it and the count of every other id. */
  lemma {:induction false} CountStrip(L: Layout, id: nat, x: nat)
    ensures CountIn(Strip(L, id), x) == if x == id then 0 else CountIn(L, x)
  {
    if L != [] {
      var n := |L| - 1;
      assert Strip(L, id)[..n] == Strip(L[..n], id);
      CountStrip(L[..n], id, x);
      WithIdAfterWithout(L[n], id, x);
    }
  }

  /** Each owning column holds at least one entry. */
  lemma {:induction false} OwnersAtMostCount(L: Layout, x: nat)
    ensures |Owners(L, x)| <= CountIn(L, x)
  {
    if L != [] {
      OwnersAtMostCount(L[..|L| - 1], x);
    }
  }

  /** No column holds more entries of an id than the board does. */
  lemma ColumnAtMostCount(L: Layout, i: nat, x: nat)
    requires i < |L|
    ensures |WithId(L[i], x)| <= CountIn(L, x)
  {
    CountUpdate(L, i, [], x);
  }

  /** When no column holds an id twice, the board's count of it is its number
      of owning columns. */
  lemma {:induction false} CountIsOwners(L: Layout, x: nat)
    requires OncePerColumn(L, x)
    ensures CountIn(L, x) == |Owners(L, x)|
  {
    if L != [] {
      var n := |L| - 1;
      assert forall i :: 0 <= i < n ==> L[..n][i] == L[i];
      CountIsOwners(L[..n], x);
    }
  }

  // ---------------------------------------------------------------------
  // Invariants.

  /** Each task id sits at most once on the board. */
  ghost predicate Unique(L: Layout) {
    forall x :: CountIn(L, x) <= 1
  }

  /** Every id on the board is below n (the counter's next value). */
  ghost predicate IdsBelow(L: Layout, n: nat) {
    forall x :: n <= x ==> CountIn(L, x) == 0
  }

  /** No column holds the id more than once. */
  predicate OncePerColumn(L: Layout, x: nat) {
    forall i :: 0 <= i < |L| ==> |WithId(L[i], x)| <= 1
  }

  /** An id occurs at most once on the board exactly when at most one column
      holds it and that column holds it at most once. */
  lemma CountAtMostOneIff(L: Layout, x: nat)
    ensures CountIn(L, x) <= 1 <==> SingleOwner(L, x) && OncePerColumn(L, x)
  {
    OwnersAtMostCount(L, x);
    if CountIn(L, x) <= 1 {
      forall i | 0 <= i < |L| ensures |WithId(L[i], x)| <= 1 {
        ColumnAtMostCount(L, i, x);
      }
    }
    if OncePerColumn(L, x) {
      CountIsOwners(L, x);
    }
  }

  /** Unique says exactly: each id is held by at most one column, and at most
      once in that column. */
  lemma UniqueIff(L: Layout)
    ensures Unique(L) <==> forall x :: SingleOwner(L, x) && OncePerColumn(L, x)
  {
    forall x ensures CountIn(L, x) <= 1 <==> SingleOwner(L, x) && OncePerColumn(L, x) {
      CountAtMostOneIff(L, x);
    }
  }

  /** Entry counts after move_task: the moved id exactly once, all else as before. */
  lemma MovedCounts(L: Layout, c: nat, id: nat, x: nat)
    requires c < |L| && Owners(L, id) != []
    ensures CountIn(Moved(L, c, id), x) == if x == id then 1 else CountIn(L, x)
  {
    var s, t := Strip(L, id), Picked(L, id);
    assert Moved(L, c, id) == s[c := s[c] + [t]];
    CountStrip(L, id, x);
    CountUpdate(s, c, s[c] + [t], x);
    WithIdAppend(s[c], t, x);
  }

  /** Entry counts after advance: the advanced id once if it stays on the board,
      none if it left from the last column; all else as before. */
  lemma AdvancedCounts(L: Layout, id: nat, x: nat)
    requires Owners(L, id) != [] && SingleOwner(L, id)
    ensures CountIn(Advanced(L, id), x) ==
      if x != id then CountIn(L, x)
      else if Owner(L, id) + 1 < |L| then 1 else 0
  {
    var o := Owner(L, id);
    if o + 1 < |L| {
      AdvanceIsMove(L, id);
      MovedCounts(L, o + 1, id, x);
    } else {
      StripSingle(L, id);
      CountStrip(L, id, x);
    }
  }

  /** Entry counts after clean_completed: the last column's entries are gone. */
  lemma ClearedCounts(L: Layout, x: nat)
    requires |L| >= 1
    ensures CountIn(Cleared(L), x) == CountIn(L, x) - |WithId(L[|L| - 1], x)|
  {
    CountUpdate(L, |L| - 1, [], x);
  }

  /** Entry counts after add_task: one more of the task's id when it was appended. */
  lemma PlacedCounts(L: Layout, c: nat, t: Task, x: nat)
    requires c < |L|
    ensures CountIn(Placed(L, c, t), x) ==
      CountIn(L, x) + if x == t.id && t !in L[c] then 1 else 0
  {
    if t !in L[c] {
      CountUpdate(L, c, L[c] + [t], x);
      WithIdAppend(L[c], t, x);
    }
  }

  /** An id occurring at most once on the board has at most one owner. */
  lemma UniqueSingleOwner(L: Layout, id: nat)
    requires Unique(L)
    ensures SingleOwner(L, id)
  {
    OwnersAtMostCount(L, id);
  }

  /** On a board where each id occurs at most once, every id of ts has at most
      one owner: clean_completed's precondition holds for any column. */
  lemma {:induction false} UniqueSingleOwners(L: Layout, ts: seq<Task>)
    requires Unique(L)
    ensures SingleOwners(L, ts)
  {
    if ts != [] {
      UniqueSingleOwner(L, ts[0].id);
      UniqueSingleOwners(L, ts[1..]);
    }
  }

  /** move_task keeps each id at most once on the board, and below the counter. */
  lemma MoveKeepsInvariant(L: Layout, c: nat, id: nat, n: nat)
    requires c < |L| && Owners(L, id) != []
    ensures Unique(L) ==> Unique(Moved(L, c, id))
    ensures IdsBelow(L, n) ==> IdsBelow(Moved(L, c, id), n)
  {
    OwnersAtMostCount(L, id);
    forall x ensures CountIn(Moved(L, c, id), x) == if x == id then 1 else CountIn(L, x) {
      MovedCounts(L, c, id, x);
    }
  }

  /** advance keeps each id at most once on the board, and below the counter. */
  lemma AdvanceKeepsInvariant(L: Layout, id: nat, n: nat)
    requires Owners(L, id) != [] && SingleOwner(L, id)
    ensures Unique(L) ==> Unique(Advanced(L, id))
    ensures IdsBelow(L, n) ==> IdsBelow(Advanced(L, id), n)
  {
    OwnersAtMostCount(L, id);
    forall x ensures CountIn(Advanced(L, id), x) <= CountIn(L, x) {
      AdvancedCounts(L, id, x);
    }
  }

  /** clean_completed keeps each id at most once on the board, and below the counter. */
  lemma ClearKeepsInvariant(L: Layout, n: nat)
    requires |L| >= 1
    ensures Unique(L) ==> Unique(Cleared(L))
    ensures IdsBelow(L, n) ==> IdsBelow(Cleared(L), n)
  {
    forall x ensures CountIn(Cleared(L), x) <= CountIn(L, x) {
      ClearedCounts(L, x);
    }
  }

  /** Placing a task whose id is not on the board yet keeps each id at most once. */
  lemma PlaceFreshKeepsUnique(L: Layout, c: nat, t: Task)
    requires c < |L| && Unique(L) && CountIn(L, t.id) == 0
    ensures Unique(Placed(L, c, t))
  {
    forall x ensures CountIn(Placed(L, c, t), x) <= 1 {
      PlacedCounts(L, c, t, x);
    }
  }

  /** Placing a newly created task, whose id is the counter's value, keeps each id
      at most once on the board and every id below the advanced counter. */
  lemma PlaceNewKeepsInvariant(L: Layout, c: nat, t: Task, n: nat)
    requires c < |L| && t.id == n
    requires Unique(L) && IdsBelow(L, n)
    ensures Unique(Placed(L, c, t)) && IdsBelow(Placed(L, c, t), n + 1)
  {
    forall x ensures CountIn(Placed(L, c, t), x) <= 1 && (n + 1 <= x ==> CountIn(Placed(L, c, t), x) == 0) {
      PlacedCounts(L, c, t, x);
    }
  }

  // ---------------------------------------------------------------------
  // clean_completed: the ids of the last column, advanced one after another.

  /** The ids of ts, in order. */
  function Ids(ts: seq<Task>): (r: seq<nat>)
    ensures |r| == |ts| && forall i :: 0 <= i < |ts| ==> r[i] == ts[i].id
  {
    if ts == [] then [] else Ids(ts[..|ts| - 1]) + [ts[|ts| - 1].id]
  }

  /** ts with every id of ids removed, one id after another. */
  function StripAll(ts: seq<Task>, ids: seq<nat>): (r: seq<Task>)
    ensures forall t :: t in r ==> t in ts && t.id !in ids
    ensures forall t :: t in ts && t.id !in ids ==> t in r
  {
    if ids == [] then ts
    else WithoutId(StripAll(ts, ids[..|ids| - 1]), ids[|ids| - 1])
  }

  /** Removing ids other than x leaves the x-tasks untouched. */
  lemma {:induction false} WithIdAfterStripAll(ts: seq<Task>, ids: seq<nat>, x: nat)
    requires x !in ids
    ensures WithId(StripAll(ts, ids), x) == WithId(ts, x)
  {
    if ids != [] {
      var p := ids[..|ids| - 1];
      WithIdAfterStripAll(ts, p, x);
      WithIdAfterWithout(StripAll(ts, p), ids[|ids| - 1], x);
    }
  }

  /** The first task of each id in ts, in order (each is what advance hands to
      the completed-task sink when clean_completed reaches its id). */
  function Firsts(ts: seq<Task>): seq<Task> {
    if ts == [] then []
    else
      var p := ts[..|ts| - 1];
      Firsts(p) + if ts[|ts| - 1].id in Ids(p) then [] else [ts[|ts| - 1]]
  }

  /** When the ids of ts are distinct, every task of ts is the first of its id. */
  lemma {:induction false} FirstsOfDistinct(ts: seq<Task>)
    requires forall i, j :: 0 <= i < j < |ts| ==> ts[i].id != ts[j].id
    ensures Firsts(ts) == ts
  {
    if ts != [] {
      var p := ts[..|ts| - 1];
      FirstsOfDistinct(p);
      assert ts == p + [ts[|ts| - 1]];
    }
  }

  /** Extending a prefix of s by one entry extends its firsts by that entry
      exactly when its id is new. */
  lemma FirstsStep(s: seq<Task>, i: nat)
    requires i < |s|
    ensures Firsts(s[..i + 1]) == Firsts(s[..i]) + if s[i].id in Ids(s)[..i] then [] else [s[i]]
  {
    var q := s[..i + 1];
    assert q[..|q| - 1] == s[..i] && q[|q| - 1] == s[i];
    IdsPrefix(s, i);
  }

  /** The ids of a prefix are the prefix of the ids. */
  lemma IdsPrefix(s: seq<Task>, i: nat)
    requires i <= |s|
    ensures Ids(s[..i]) == Ids(s)[..i]
  {
    var a, b := Ids(s[..i]), Ids(s)[..i];
    forall k | 0 <= k < i ensures a[k] == b[k] {
      assert s[..i][k] == s[k];
    }
  }

  /** No column holds the id: no owners. */
  lemma {:induction false} OwnersNone(L: Layout, x: nat)
    requires forall j :: 0 <= j < |L| ==> !HasId(L[j], x)
    ensures Owners(L, x) == []
  {
    if L != [] {
      var p := L[..|L| - 1];
      assert forall j :: 0 <= j < |p| ==> p[j] == L[j];
      OwnersNone(p, x);
    }
  }

  /** Only the last column may hold the id. */
  lemma OwnersLastOnly(L: Layout, x: nat)
    requires |L| >= 1 && forall j :: 0 <= j < |L| - 1 ==> !HasId(L[j], x)
    ensures Owners(L, x) == if HasId(L[|L| - 1], x) then [|L| - 1] else []
  {
    var p := L[..|L| - 1];
    assert forall j :: 0 <= j < |p| ==> p[j] == L[j];
    OwnersNone(p, x);
  }

  /** A column holding an id that has a single owner is the only one holding it. */
  lemma OthersLack(L: Layout, k: nat, x: nat)
    requires k < |L| && HasId(L[k], x) && SingleOwner(L, x)
    ensures forall j :: 0 <= j < |L| && j != k ==> !HasId(L[j], x)
  {
    assert k in Owners(L, x);
    assert Owners(L, x) == [k];
  }

  /** Each id of ts is held by at most one column of L (the guard advance
      asserts, for every task clean_completed advances). */
  predicate SingleOwners(L: Layout, ts: seq<Task>) {
    ts == [] || (SingleOwner(L, ts[0].id) && SingleOwners(L, ts[1..]))
  }

  lemma {:induction false} SingleOwnersAt(L: Layout, ts: seq<Task>, k: nat)
    requires SingleOwners(L, ts) && k < |ts|
    ensures SingleOwner(L, ts[k].id)
  {
    if k > 0 {
      SingleOwnersAt(L, ts[1..], k - 1);
      assert ts[1..][k - 1] == ts[k];
    }
  }

  /** The board clean_completed has reached after advancing the ids of s[..i],
      where s was its last column. */
  function CleanedUpTo(L: Layout, i: nat): Layout
    requires |L| >= 1 && i <= |L[|L| - 1]|
  {
    var s := L[|L| - 1];
    L[|L| - 1 := StripAll(s, Ids(s)[..i])]
  }

  /** An id absent from the ids before position i is first seen at i. */
  lemma FirstOfId(s: seq<Task>, i: nat)
    requires i < |s| && s[i].id !in Ids(s)[..i]
    ensures forall j :: 0 <= j < i ==> s[j].id != s[i].id
  {
    forall j | 0 <= j < i ensures s[j].id != s[i].id {
      assert Ids(s)[..i][j] == s[j].id;
    }
  }

  /** One step of clean_completed: advancing s[i].id, where s was the last column
      and the ids of s[..i] have been advanced, finds at most one owner; it finds
      none exactly when an earlier entry had the same id. */
  lemma CleanStepOwners(L: Layout, i: nat)
    requires |L| >= 1 && i < |L[|L| - 1]|
    requires SingleOwner(L, L[|L| - 1][i].id)
    ensures var s := L[|L| - 1];
      Owners(CleanedUpTo(L, i), s[i].id) ==
        if s[i].id in Ids(s)[..i] then [] else [|L| - 1]
  {
    var n, s := |L| - 1, L[|L| - 1];
    var x, p := s[i].id, Ids(s)[..i];
    var m := CleanedUpTo(L, i);
    assert s[i] in s;
    OthersLack(L, n, x);
    assert forall j :: 0 <= j < n ==> m[j] == L[j];
    OwnersLastOnly(m, x);
    if x !in p {
      assert s[i] in m[n];
    }
  }

  /** What advancing s[i]'s id does to the board clean_completed has reached. */
  lemma CleanStepFacts(L: Layout, i: nat)
    requires |L| >= 1 && i < |L[|L| - 1]|
    requires SingleOwner(L, L[|L| - 1][i].id)
    ensures var s, M, N := L[|L| - 1], CleanedUpTo(L, i), CleanedUpTo(L, i + 1);
      if s[i].id in Ids(s)[..i] then Owners(M, s[i].id) == [] && N == M
      else Owners(M, s[i].id) == [|L| - 1] && Picked(M, s[i].id) == s[i] && Advanced(M, s[i].id) == N
  {
    CleanStepOwners(L, i);
    if L[|L| - 1][i].id in Ids(L[|L| - 1])[..i] {
      CleanStepSkip(L, i);
    } else {
      CleanStepTake(L, i);
    }
  }

  /** An earlier entry of the same id already took it: the step changes nothing. */
  lemma CleanStepSkip(L: Layout, i: nat)
    requires |L| >= 1 && i < |L[|L| - 1]|
    requires L[|L| - 1][i].id in Ids(L[|L| - 1])[..i]
    ensures CleanedUpTo(L, i + 1) == CleanedUpTo(L, i)
  {
    var s := L[|L| - 1];
    var x, p := s[i].id, Ids(s)[..i];
    assert Ids(s)[..i + 1] == p + [x];
    WithoutAbsent(StripAll(s, p), x);
  }

  /** The first entry of its id: advance takes exactly s[i] off the board from
      the last column, which is then the last column with the ids of s[..i + 1]
      advanced. */
  lemma CleanStepTake(L: Layout, i: nat)
    requires |L| >= 1 && i < |L[|L| - 1]|
    requires Owners(CleanedUpTo(L, i), L[|L| - 1][i].id) == [|L| - 1]
    requires L[|L| - 1][i].id !in Ids(L[|L| - 1])[..i]
    ensures Owner(CleanedUpTo(L, i), L[|L| - 1][i].id) == |L| - 1
    ensures Picked(CleanedUpTo(L, i), L[|L| - 1][i].id) == L[|L| - 1][i]
    ensures Advanced(CleanedUpTo(L, i), L[|L| - 1][i].id) == CleanedUpTo(L, i + 1)
  {
    CleanTakePicked(L, i);
    CleanTakeAdvanced(L, i);
  }

  lemma CleanTakePicked(L: Layout, i: nat)
    requires |L| >= 1 && i < |L[|L| - 1]|
    requires Owners(CleanedUpTo(L, i), L[|L| - 1][i].id) == [|L| - 1]
    requires L[|L| - 1][i].id !in Ids(L[|L| - 1])[..i]
    ensures Picked(CleanedUpTo(L, i), L[|L| - 1][i].id) == L[|L| - 1][i]
  {
    var s := L[|L| - 1];
    var x, p := s[i].id, Ids(s)[..i];
    WithIdAfterStripAll(s, p, x);
    FirstOfId(s, i);
    WithIdFirst(s, x, i);
  }

  lemma CleanTakeAdvanced(L: Layout, i: nat)
    requires |L| >= 1 && i < |L[|L| - 1]|
    requires Owners(CleanedUpTo(L, i), L[|L| - 1][i].id) == [|L| - 1]
    ensures Advanced(CleanedUpTo(L, i), L[|L| - 1][i].id) == CleanedUpTo(L, i + 1)
  {
    var n, s := |L| - 1, L[|L| - 1];
    var x := s[i].id;
    var a, b := StripAll(s, Ids(s)[..i]), StripAll(s, Ids(s)[..i + 1]);
    var m := CleanedUpTo(L, i);
    StripAllStep(s, i);
    LastOwnerAdvanced(m, x);
    assert m[n] == a;
    UpdateTwice(L, n, a, b);
  }

  /** Removing the ids of s[..i + 1] is removing those of s[..i], then s[i]'s. */
  lemma StripAllStep(s: seq<Task>, i: nat)
    requires i < |s|
    ensures StripAll(s, Ids(s)[..i + 1]) == WithoutId(StripAll(s, Ids(s)[..i]), s[i].id)
  {
    var q := Ids(s)[..i + 1];
    assert q[..|q| - 1] == Ids(s)[..i] && q[|q| - 1] == s[i].id;
  }

  /** advance of an id held by the last column only. */
  lemma LastOwnerAdvanced(L: Layout, id: nat)
    requires |L| >= 1 && Owners(L, id) == [|L| - 1]
    ensures Advanced(L, id) == L[|L| - 1 := WithoutId(L[|L| - 1], id)]
  {
    assert Owners(L, id)[0] == |L| - 1;
    assert Owner(L, id) == |L| - 1;
    AdvancedAtEnd(L, id);
  }

  /** Removing ids from a sequence extended by one task. */
  lemma {:induction false} StripAllAppend(ts: seq<Task>, t: Task, ids: seq<nat>)
    ensures StripAll(ts + [t], ids) == StripAll(ts, ids) + if t.id in ids then [] else [t]
  {
    if ids != [] {
      var p, y := ids[..|ids| - 1], ids[|ids| - 1];
      assert ids == p + [y];
      StripAllAppend(ts, t, p);
      var a := StripAll(ts, p);
      if t.id in p {
        assert StripAll(ts + [t], p) == a;
      } else {
        WithoutIdAppend(a, t, y);
      }
    }
  }

  /** Removing every id that occurs in ts leaves nothing. */
  lemma {:induction false} StripAllCovered(ts: seq<Task>, ids: seq<nat>)
    requires forall k :: 0 <= k < |ts| ==> ts[k].id in ids
    ensures StripAll(ts, ids) == []
  {
    if ts == [] {
      StripAllEmpty(ids);
    } else {
      var p := ts[..|ts| - 1];
      assert ts == p + [ts[|ts| - 1]];
      StripAllCovered(p, ids);
      StripAllAppend(p, ts[|ts| - 1], ids);
    }
  }

  lemma {:induction false} StripAllEmpty(ids: seq<nat>)
    ensures StripAll([], ids) == []
  {
    if ids != [] {
      StripAllEmpty(ids[..|ids| - 1]);
    }
  }

  /** Once every id of the last column has been advanced, the column is empty
      and the rest of the board is as it was. */
  lemma CleanedAll(L: Layout)
    requires |L| >= 1
    ensures CleanedUpTo(L, |L[|L| - 1]|) == Cleared(L)
  {
    var s := L[|L| - 1];
    assert Ids(s)[..|s|] == Ids(s);
    StripAllIds(s);
  }

  /** Removing every id of a column leaves nothing of it. */
  lemma StripAllIds(s: seq<Task>)
    ensures StripAll(s, Ids(s)) == []
  {
    StripAllCovered(s, Ids(s));
  }
}
