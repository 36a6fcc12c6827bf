/** A task: an identity drawn from a counter, a name, and an append-only
    message log (class Task of kanban.py). */
module Tasks {

  predicate IsDigit(c: char) {
    '0' <= c <= '9'
  }

  predicate AllDigits(s: string) {
    forall i :: 0 <= i < |s| ==> IsDigit(s[i])
  }

  function DigitChar(d: nat): (c: char)
    requires d < 10
    ensures IsDigit(c)
  {
    ('0' as int + d) as char
  }

  function DigitValue(c: char): (d: nat)
    requires IsDigit(c)
    ensures d < 10
  {
    c as int - '0' as int
  }

  /** Decimal rendering of a natural number, as str() renders an int. */
  function NatToString(n: nat): (s: string)
    ensures |s| >= 1 && AllDigits(s)
    decreases n
  {
    if n < 10 then [DigitChar(n)] else NatToString(n / 10) + [DigitChar(n % 10)]
  }

  /** Reads a run of decimal digits back as a number: the inverse of NatToString. */
  function ParseNat(s: string): nat
    requires AllDigits(s)
  {
    if s == [] then 0 else ParseNat(s[..|s| - 1]) * 10 + DigitValue(s[|s| - 1])
  }

  lemma {:induction false} ParseNatToString(n: nat)
    ensures ParseNat(NatToString(n)) == n
  {
    if n >= 10 {
      var s := NatToString(n);
      assert s[..|s| - 1] == NatToString(n / 10);
      ParseNatToString(n / 10);
    }
  }

  /** The display line of a task: "{id}. {name}". */
  function Line(id: nat, name: string): (r: string)
    ensures var k := |NatToString(id)|;
      && k + 2 <= |r| && AllDigits(r[..k]) && ParseNat(r[..k]) == id
      && r[k..k + 2] == ". " && r[k + 2..] == name
  {
    var d := NatToString(id);
    var r := d + ". " + name;
    assert r[..|d|] == d && r[|d|..|d| + 2] == ". " && r[|d| + 2..] == name;
    ParseNatToString(id);
    r
  }

  /** A display line determines both the id and the name it was made from,
      even when the name itself contains digits, dots or spaces. */
  lemma LineDeterminesTask(id1: nat, name1: string, id2: nat, name2: string)
    requires Line(id1, name1) == Line(id2, name2)
    ensures id1 == id2 && name1 == name2
  {
    var a, b := NatToString(id1), NatToString(id2);
    var l := Line(id1, name1);
    assert l == Line(id2, name2);
    var r := Line(id2, name2);
    var k := if |a| < |b| then |a| else |b|;
    assert l[k] == r[k];
    assert k == |a| ==> l[k] == '.';
    assert k == |b| ==> r[k] == '.';
    assert a == l[..|a|] == b;
    ParseNatToString(id1);
    ParseNatToString(id2);
    assert name1 == l[|a| + 2..] == name2;
  }

  /** The message a column records when a task enters it; the timestamp is
      supplied by the caller (the clock is outside the model). */
  function Entry(column: string, stamp: string): (r: string)
    ensures |r| == |column| + |stamp| + 5 && r[..2] == "> "
    ensures r[2..|column| + 2] == column && r[|column| + 2..|column| + 5] == " : "
    ensures r[|column| + 5..] == stamp
  {
    "> " + column + " : " + stamp
  }

  /** The id counter (Task.LAST_TASK_ID): the id the next task will get. */
  class IdCounter {
    var next: nat

    constructor ()
      ensures next == 0
    {
      next := 0;
    }
  }

  class Task {
    const id: nat
    const name: string
    var messages: seq<string>

    /** Takes the counter's current value as the id and advances the counter by one. */
    constructor (name: string, counter: IdCounter)
      modifies counter
      ensures id == old(counter.next) && counter.next == old(counter.next) + 1
      ensures this.name == name && messages == []
    {
      id := counter.next;
      this.name := name;
      messages := [];
      new;
      counter.next := counter.next + 1;
    }

    method AddMessage(msg: string)
      modifies this
      ensures messages == old(messages) + [msg]
    {
      messages := messages + [msg];
    }

    /** The display line; the id and the name can be read back from it. */
    function ToString(): (r: string)
      ensures var k := |NatToString(id)|;
        && k + 2 <= |r| && AllDigits(r[..k]) && ParseNat(r[..k]) == id && r[k + 2..] == name
    {
      Line(id, name)
    }
  }

  /** The display lines of a sequence of tasks, in order. */
  function Lines(ts: seq<Task>): (r: seq<string>)
    ensures |r| == |ts| && forall i :: 0 <= i < |ts| ==> r[i] == ts[i].ToString()
    ensures forall i, j :: 0 <= i < |ts| && 0 <= j < |ts| && r[i] == r[j] ==>
      ts[i].id == ts[j].id && ts[i].name == ts[j].name
  {
    var r := seq(|ts|, i requires 0 <= i < |ts| => ts[i].ToString());
    assert forall i, j :: 0 <= i < |ts| && 0 <= j < |ts| && r[i] == r[j] ==>
      ts[i].id == ts[j].id && ts[i].name == ts[j].name by {
      forall i, j | 0 <= i < |ts| && 0 <= j < |ts| && r[i] == r[j]
        ensures ts[i].id == ts[j].id && ts[i].name == ts[j].name
      {
        LineDeterminesTask(ts[i].id, ts[i].name, ts[j].id, ts[j].name);
      }
    }
    r
  }
}
