/**
 * The task store of the task manager: a list of tasks and the reducer that
 * turns (current list, action) into the next list. Tasks have no identity of
 * their own; toggle and remove address a task by its position in the list.
 */
module TaskList {

  /** One entry of the list: its label and whether it is done. */
  datatype Task = Task(text: string, completed: bool)

  /**
   * The actions the reducer understands, one constructor per `type` tag
   * ("ADD_TASK", "TOGGLE_TASK", "REMOVE_TASK"); any other tag is `Unknown`.
   * Positions are integers so that negative and too-large payloads are covered.
   */
  datatype Action =
    | Add(text: string)
    | Toggle(index: int)
    | Remove(index: int)
    | Unknown(kind: string)

  /** The task with its `completed` flag negated and its text kept. */
  function Flip(t: Task): (r: Task)
    ensures r.text == t.text && r.completed == !t.completed
  {
    t.(completed := !t.completed)
  }

  /**
   * `state.map((task, index) => index === i ? flipped : task)`: walking the
   * list, the position being looked for moves one step closer with each task.
   */
  function ToggleAt(s: seq<Task>, i: int): (r: seq<Task>)
    ensures |r| == |s|
    ensures forall k :: 0 <= k < |s| ==> r[k] == if k == i then Flip(s[k]) else s[k]
  {
    if s == [] then []
    else [if i == 0 then Flip(s[0]) else s[0]] + ToggleAt(s[1..], i - 1)
  }

  /**
   * `state.filter((_, index) => index !== i)`: every task is kept except the
   * one whose position equals `i`; when no position equals `i`, all are kept.
   */
  function RemoveAt(s: seq<Task>, i: int): (r: seq<Task>)
    ensures 0 <= i < |s| ==> r == s[..i] + s[i + 1..]
    ensures !(0 <= i < |s|) ==> r == s
  {
    if s == [] then []
    else
      var rest := RemoveAt(s[1..], i - 1);
      if i == 0 then
        assert s[1..] == s[..0] + s[1..];
        rest
      else
        assert 0 < i < |s| ==> s[..i] + s[i + 1..] == [s[0]] + (s[1..][..i - 1] + s[1..][i..]);
        [s[0]] + rest
  }

  /**
   * The reducer. The list's length moves by exactly one for an add and for a
   * remove at a position that exists, and stays put otherwise.
   */
  function Reduce(s: seq<Task>, a: Action): (r: seq<Task>)
    ensures |r| == match a
                   case Add(_) => |s| + 1
                   case Remove(i) => if 0 <= i < |s| then |s| - 1 else |s|
                   case _ => |s|
  {
    match a
    case Add(text) => s + [Task(text, false)]
    case Toggle(i) => ToggleAt(s, i)
    case Remove(i) => RemoveAt(s, i)
    case Unknown(_) => s
  }

  /** The list after dispatching `actions` one after another, starting from `s`. */
  function Run(s: seq<Task>, actions: seq<Action>): (r: seq<Task>)
    ensures |r| <= |s| + |actions|
    decreases |actions|
  {
    if actions == [] then s else Run(Reduce(s, actions[0]), actions[1..])
  }

  /** `tasks.filter((task) => task.completed)`: the done tasks, in list order. */
  function CompletedTasks(s: seq<Task>): (r: seq<Task>)
    ensures |r| <= |s|
    ensures forall k :: 0 <= k < |r| ==> r[k].completed
    ensures multiset(r) <= multiset(s)
    ensures forall t :: t in s && t.completed ==> multiset(r)[t] == multiset(s)[t]
  {
    if s == [] then []
    else
      assert s == [s[0]] + s[1..];
      (if s[0].completed then [s[0]] else []) + CompletedTasks(s[1..])
  }

  /** The "Completed Tasks" figure: how many tasks are done. */
  function CompletedCount(s: seq<Task>): (n: nat)
    ensures n <= |s|
  {
    |CompletedTasks(s)|
  }

  /** The positions of the done tasks: an independent description of the count. */
  ghost function CompletedPositions(s: seq<Task>): set<int>
  {
    set k | 0 <= k < |s| && s[k].completed
  }

  // ---------------------------------------------------------------------------
  // Properties of the reducer
  // ---------------------------------------------------------------------------

  /** ADD puts a fresh, not-done task after all existing ones, which stay as they were. */
  lemma AddAppends(s: seq<Task>, text: string)
    ensures |Reduce(s, Add(text))| == |s| + 1
    ensures Reduce(s, Add(text))[|s|] == Task(text, false)
    ensures Reduce(s, Add(text))[..|s|] == s
  {
  }

  /**
   * TOGGLE at an existing position flips only that task's flag, keeps its text,
   * and leaves every other task identical.
   */
  lemma ToggleInRange(s: seq<Task>, i: int)
    requires 0 <= i < |s|
    ensures |Reduce(s, Toggle(i))| == |s|
    ensures Reduce(s, Toggle(i))[i].text == s[i].text
    ensures Reduce(s, Toggle(i))[i].completed == !s[i].completed
    ensures forall k :: 0 <= k < |s| && k != i ==> Reduce(s, Toggle(i))[k] == s[k]
  {
  }

  /** Toggling the same position twice gives back the original list, for any position. */
  lemma ToggleTwice(s: seq<Task>, i: int)
    ensures Reduce(Reduce(s, Toggle(i)), Toggle(i)) == s
  {
    var r := Reduce(Reduce(s, Toggle(i)), Toggle(i));
    assert forall k :: 0 <= k < |s| ==> r[k] == s[k];
  }

  /** TOGGLE and REMOVE at a position the list does not have leave it as it is. */
  lemma OutOfRangeIsNoOp(s: seq<Task>, i: int)
    requires i < 0 || i >= |s|
    ensures Reduce(s, Toggle(i)) == s
    ensures Reduce(s, Remove(i)) == s
  {
    assert forall k :: 0 <= k < |s| ==> ToggleAt(s, i)[k] == s[k];
  }

  /**
   * REMOVE at an existing position drops exactly that one task: the tasks
   * before it keep their positions, the ones after it move up by one, and the
   * removed task leaves the multiset of tasks once, even if others are equal to it.
   */
  lemma RemoveInRange(s: seq<Task>, i: int)
    requires 0 <= i < |s|
    ensures Reduce(s, Remove(i)) == s[..i] + s[i + 1..]
    ensures |Reduce(s, Remove(i))| == |s| - 1
    ensures forall k :: 0 <= k < i ==> Reduce(s, Remove(i))[k] == s[k]
    ensures forall k :: i <= k < |s| - 1 ==> Reduce(s, Remove(i))[k] == s[k + 1]
    ensures multiset(Reduce(s, Remove(i))) + multiset{s[i]} == multiset(s)
  {
    assert s == s[..i] + [s[i]] + s[i + 1..];
  }

  /** Dispatching two batches in turn is dispatching their concatenation. */
  lemma {:induction false} RunConcat(s: seq<Task>, first: seq<Action>, second: seq<Action>)
    ensures Run(s, first + second) == Run(Run(s, first), second)
    decreases |first|
  {
    if first == [] {
      assert first + second == second;
    } else {
      assert (first + second)[1..] == first[1..] + second;
      RunConcat(Reduce(s, first[0]), first[1..], second);
    }
  }

  /** An action with an unrecognised type tag, dispatched anywhere in a batch, changes nothing. */
  lemma UnknownInRunIsNoOp(s: seq<Task>, before: seq<Action>, kind: string, after: seq<Action>)
    ensures Run(s, before + [Unknown(kind)] + after) == Run(s, before + after)
  {
    var mid := Run(s, before);
    assert before + [Unknown(kind)] + after == before + ([Unknown(kind)] + after);
    RunConcat(s, before, [Unknown(kind)] + after);
    RunConcat(s, before, after);
    assert ([Unknown(kind)] + after)[1..] == after;
    assert Run(mid, [Unknown(kind)] + after) == Run(mid, after);
  }

  /** An action with an unrecognised type tag returns the list unchanged. */
  lemma UnknownIsNoOp(s: seq<Task>, kind: string)
    ensures Reduce(s, Unknown(kind)) == s
  {
  }

  // ---------------------------------------------------------------------------
  // Properties of the completed count
  // ---------------------------------------------------------------------------

  /** Filtering a concatenation filters each part. */
  lemma {:induction false} CompletedTasksConcat(a: seq<Task>, b: seq<Task>)
    ensures CompletedTasks(a + b) == CompletedTasks(a) + CompletedTasks(b)
  {
    if a == [] {
      assert a + b == b;
    } else {
      assert (a + b)[1..] == a[1..] + b;
      CompletedTasksConcat(a[1..], b);
    }
  }

  /** The positions of the done tasks after one more task is appended. */
  lemma PositionsSnoc(p: seq<Task>, last: Task)
    ensures CompletedPositions(p + [last])
            == CompletedPositions(p) + (if last.completed then {|p|} else {})
  {
    var s := p + [last];
    forall k
      ensures k in CompletedPositions(s) <==> k in CompletedPositions(p) + (if last.completed then {|p|} else {})
    {
      if 0 <= k < |p| {
        assert s[k] == p[k];
      }
    }
  }

  /** The count is the number of positions holding a done task. */
  lemma {:induction false} CountIsCompletedPositions(s: seq<Task>)
    ensures CompletedCount(s) == |CompletedPositions(s)|
  {
    if s == [] {
      assert CompletedPositions(s) == {};
    } else {
      var p, last := s[..|s| - 1], s[|s| - 1];
      assert s == p + [last];
      CountIsCompletedPositions(p);
      CompletedTasksConcat(p, [last]);
      CountOfOne(last);
      PositionsSnoc(p, last);
      assert |p| !in CompletedPositions(p);
    }
  }

  /** The count of a single task. */
  lemma CountOfOne(t: Task)
    ensures CompletedCount([t]) == if t.completed then 1 else 0
  {
    assert [t][1..] == [];
  }

  /** The count splits into the tasks before a position, the task there, and the tasks after it. */
  lemma CountAround(s: seq<Task>, i: int)
    requires 0 <= i < |s|
    ensures CompletedCount(s)
            == CompletedCount(s[..i]) + (if s[i].completed then 1 else 0) + CompletedCount(s[i + 1..])
  {
    assert s == s[..i] + ([s[i]] + s[i + 1..]);
    CompletedTasksConcat(s[..i], [s[i]] + s[i + 1..]);
    CompletedTasksConcat([s[i]], s[i + 1..]);
    CountOfOne(s[i]);
  }

  /** ADD never changes the count: the new task is not done. */
  lemma AddKeepsCount(s: seq<Task>, text: string)
    ensures CompletedCount(Reduce(s, Add(text))) == CompletedCount(s)
  {
    CompletedTasksConcat(s, [Task(text, false)]);
    CountOfOne(Task(text, false));
  }

  /** TOGGLE at an existing position moves the count by exactly one, in the direction of the flip. */
  lemma ToggleChangesCountByOne(s: seq<Task>, i: int)
    requires 0 <= i < |s|
    ensures CompletedCount(Reduce(s, Toggle(i)))
            == CompletedCount(s) + (if s[i].completed then -1 else 1)
  {
    var r := Reduce(s, Toggle(i));
    assert r[..i] == s[..i];
    assert r[i + 1..] == s[i + 1..];
    CountAround(s, i);
    CountAround(r, i);
  }

  /** REMOVE at an existing position lowers the count by one exactly when the removed task was done. */
  lemma RemoveChangesCount(s: seq<Task>, i: int)
    requires 0 <= i < |s|
    ensures CompletedCount(Reduce(s, Remove(i)))
            == CompletedCount(s) - (if s[i].completed then 1 else 0)
  {
    CompletedTasksConcat(s[..i], s[i + 1..]);
    CountAround(s, i);
  }

  /**
   * A sample session: from an empty list, add "a", add "b", toggle the
   * first task and remove the second; one task remains, done, and the count is 1.
   */
  lemma SampleSession()
    ensures Run([], [Add("a"), Add("b"), Toggle(0), Remove(1)]) == [Task("a", true)]
    ensures CompletedCount(Run([], [Add("a"), Add("b"), Toggle(0), Remove(1)])) == 1
  {
    var s0: seq<Task> := [];
    var actions := [Add("a"), Add("b"), Toggle(0), Remove(1)];
    var s1 := Reduce(s0, Add("a"));
    var s2 := Reduce(s1, Add("b"));
    var s3 := Reduce(s2, Toggle(0));
    var s4 := Reduce(s3, Remove(1));
    assert s2 == [Task("a", false), Task("b", false)];
    assert s3 == [Task("a", true), Task("b", false)];
    assert s4 == [Task("a", true)];
    assert Run(s0, actions) == Run(s1, actions[1..]);
    assert Run(s1, actions[1..]) == Run(s2, actions[2..]);
    assert Run(s2, actions[2..]) == Run(s3, actions[3..]);
    assert Run(s3, actions[3..]) == Run(s4, []);
    CountOfOne(Task("a", true));
  }
}
