/** The to-do list: an ordered sequence of tasks, most recent first, and the
    pure state updates behind its add, toggle, delete, edit, clear-completed
    and filter controls. Ids and timestamps are inputs; persistence and
    rendering are not modelled. */
module Todos {
  import opened Text

  /** One to-do entry. `createdAt` is a millisecond timestamp. */
  datatype Task = Task(id: string, text: string, done: bool, createdAt: int)

  /** The list view selector: every task, the open ones, or the finished ones.
      Any filter name other than "active" and "done" shows every task, so
      `All` stands for all of them. */
  datatype Filter = All | Active | Done

  /** How an inline edit ended: Enter or leaving the field saves, Escape
      cancels. */
  datatype EditMode = Save | Cancel

  predicate IsActive(t: Task) { !t.done }

  predicate IsDone(t: Task) { t.done }

  /** The ids in use. */
  function Ids(ts: seq<Task>): set<string> {
    set t | t in ts :: t.id
  }

  /** No two tasks share an id. */
  predicate UniqueIds(ts: seq<Task>) {
    forall i, j :: 0 <= i < j < |ts| ==> ts[i].id != ts[j].id
  }

  /** The shape every task the list can hold has: a non-empty text with no
      white space at either end. */
  predicate WellFormedTask(t: Task) {
    t.text != [] && IsTrimmed(t.text)
  }

  /** The list invariant: unique ids and well-formed tasks. */
  predicate WellFormed(ts: seq<Task>) {
    UniqueIds(ts) && forall t :: t in ts ==> WellFormedTask(t)
  }

  /** `r` can be obtained from `s` by dropping elements, keeping the order of
      the rest. */
  ghost predicate IsSubsequence<T>(r: seq<T>, s: seq<T>)
    decreases |s|
  {
    if r == [] then true
    else if s == [] then false
    else (r[0] == s[0] && IsSubsequence(r[1..], s[1..])) || IsSubsequence(r, s[1..])
  }

  /** `Array.prototype.filter`: the tasks of `ts` that `keep` accepts, in
      their original order, each as often as it occurs in `ts`. */
  function Select(ts: seq<Task>, keep: Task -> bool): (r: seq<Task>)
    ensures IsSubsequence(r, ts)
    ensures forall i :: 0 <= i < |r| ==> keep(r[i])
    ensures forall t :: multiset(r)[t] == if keep(t) then multiset(ts)[t] else 0
    ensures forall t :: t in r <==> t in ts && keep(t)
  {
    if ts == [] then []
    else
      assert ts == [ts[0]] + ts[1..];
      if keep(ts[0]) then [ts[0]] + Select(ts[1..], keep)
      else Select(ts[1..], keep)
  }

  /** A subsequence holds no more copies of anything than the whole. */
  lemma {:induction false} SubsequenceMultiset<T>(r: seq<T>, s: seq<T>)
    requires IsSubsequence(r, s)
    ensures multiset(r) <= multiset(s)
    decreases |s|
  {
    if r != [] {
      assert s == [s[0]] + s[1..];
      if r[0] == s[0] && IsSubsequence(r[1..], s[1..]) {
        SubsequenceMultiset(r[1..], s[1..]);
        assert r == [r[0]] + r[1..];
      } else {
        SubsequenceMultiset(r, s[1..]);
      }
    }
  }

  /** The contract of `Select` determines its result: any order-preserving
      selection of the accepted tasks, with their multiplicities, is it. */
  lemma {:induction false} SelectIsUnique(ts: seq<Task>, keep: Task -> bool, r: seq<Task>)
    requires IsSubsequence(r, ts)
    requires forall i :: 0 <= i < |r| ==> keep(r[i])
    requires forall t :: multiset(r)[t] == if keep(t) then multiset(ts)[t] else 0
    ensures r == Select(ts, keep)
    decreases |ts|
  {
    if ts == [] {
      return;
    }
    var x, rest := ts[0], ts[1..];
    assert ts == [x] + rest;
    assert multiset(ts)[x] == multiset(rest)[x] + 1;
    if r == [] {
      assert !keep(x) by {
        assert multiset(r)[x] == 0;
      }
      SelectIsUnique(rest, keep, r);
    } else if keep(x) {
      assert r[0] == x && IsSubsequence(r[1..], rest) by {
        if !(r[0] == x && IsSubsequence(r[1..], rest)) {
          assert IsSubsequence(r, rest);
          SubsequenceMultiset(r, rest);
          assert false;
        }
      }
      assert r == [x] + r[1..];
      assert forall t :: multiset(r[1..])[t] == if keep(t) then multiset(rest)[t] else 0 by {
        forall t
          ensures multiset(r[1..])[t] == if keep(t) then multiset(rest)[t] else 0
        {
          assert multiset(r)[t] == multiset{x}[t] + multiset(r[1..])[t];
        }
      }
      SelectIsUnique(rest, keep, r[1..]);
    } else {
      assert r[0] != x;
      SelectIsUnique(rest, keep, r);
    }
  }

  /** Selecting from a list whose every task is accepted changes nothing. */
  lemma {:induction false} SelectKeepsAll(ts: seq<Task>, keep: Task -> bool)
    requires forall i :: 0 <= i < |ts| ==> keep(ts[i])
    ensures Select(ts, keep) == ts
  {
    if ts != [] {
      SelectKeepsAll(ts[1..], keep);
    }
  }

  /** Selecting keeps ids distinct and tasks well formed. */
  lemma SelectWellFormed(ts: seq<Task>, keep: Task -> bool)
    requires WellFormed(ts)
    ensures WellFormed(Select(ts, keep))
  {
    SelectUniqueIds(ts, keep);
  }

  /** Selecting keeps ids distinct. */
  lemma {:induction false} SelectUniqueIds(ts: seq<Task>, keep: Task -> bool)
    requires UniqueIds(ts)
    ensures UniqueIds(Select(ts, keep))
  {
    if ts != [] {
      var rest := ts[1..];
      SelectUniqueIds(rest, keep);
      var s := Select(rest, keep);
      if keep(ts[0]) {
        forall t | t in s
          ensures t.id != ts[0].id
        {
          var k :| 0 <= k < |rest| && rest[k] == t;
          assert ts[k + 1] == t;
        }
        ConsUniqueIds(ts[0], s);
      }
    }
  }

  /** Putting a task with a new id in front keeps ids distinct. */
  lemma ConsUniqueIds(x: Task, s: seq<Task>)
    requires UniqueIds(s)
    requires forall t :: t in s ==> t.id != x.id
    ensures UniqueIds([x] + s)
  {
    var r := [x] + s;
    forall i, j | 0 <= i < j < |r|
      ensures r[i].id != r[j].id
    {
      assert r[j] == s[j - 1];
      if i > 0 {
        assert r[i] == s[i - 1];
      }
    }
  }

  /** The open and the finished tasks together make up the whole list. */
  lemma {:induction false} ActiveDonePartition(ts: seq<Task>)
    ensures |Select(ts, IsActive)| + |Select(ts, IsDone)| == |ts|
  {
    if ts != [] {
      ActiveDonePartition(ts[1..]);
    }
  }

  /** The tasks the list shows under a filter, in list order (getFilteredTodos). */
  function Visible(ts: seq<Task>, f: Filter): (r: seq<Task>)
    ensures IsSubsequence(r, ts)
    ensures f == All ==> r == ts
    ensures f == Active ==> forall t :: t in r <==> t in ts && !t.done
    ensures f == Done ==> forall t :: t in r <==> t in ts && t.done
    ensures f == Active ==> forall t :: multiset(r)[t] == if t.done then 0 else multiset(ts)[t]
    ensures f == Done ==> forall t :: multiset(r)[t] == if t.done then multiset(ts)[t] else 0
  {
    match f
    case Active => Select(ts, IsActive)
    case Done => Select(ts, IsDone)
    case All => SubsequenceReflexive(ts); ts
  }

  /** Every sequence is a subsequence of itself. */
  lemma {:induction false} SubsequenceReflexive<T>(s: seq<T>)
    ensures IsSubsequence(s, s)
  {
    if s != [] {
      SubsequenceReflexive(s[1..]);
    }
  }

  /** The open-task counter shown under the list: the number of tasks not yet
      done, which is everything except the finished view. */
  function ActiveCount(ts: seq<Task>): (n: nat)
    ensures n + |Visible(ts, Done)| == |ts|
  {
    ActiveDonePartition(ts);
    |Select(ts, IsActive)|
  }

  /** The counter under the list is the length of the "active" view. */
  lemma ActiveViewIsCounter(ts: seq<Task>)
    ensures |Visible(ts, Active)| == ActiveCount(ts)
  {
  }

  /** Submitting the new-task form. Input that trims to nothing leaves the
      list alone; anything else puts a fresh open task with the trimmed text
      at the front. */
  function Add(ts: seq<Task>, input: string, id: string, now: int): (r: seq<Task>)
    ensures AllSpace(input) ==> r == ts
    ensures !AllSpace(input) ==>
      && |r| == |ts| + 1 && r[1..] == ts
      && r[0].id == id && r[0].createdAt == now && !r[0].done
      && r[0].text == Trim(input) && WellFormedTask(r[0])
  {
    var text := Trim(input);
    if text == [] then ts else [Task(id, text, false, now)] + ts
  }

  /** Applies `f` to the tasks whose id is `x`; the others stay as they are. */
  function UpdateWhere(ts: seq<Task>, x: string, f: Task -> Task): (r: seq<Task>)
    ensures |r| == |ts|
    ensures forall i :: 0 <= i < |ts| ==> r[i] == if ts[i].id == x then f(ts[i]) else ts[i]
  {
    seq(|ts|, i requires 0 <= i < |ts| => if ts[i].id == x then f(ts[i]) else ts[i])
  }

  /** Clicking a task's check mark: flips `done` on the task with id `x`. */
  function Toggle(ts: seq<Task>, x: string): (r: seq<Task>)
    ensures |r| == |ts|
    ensures forall i :: 0 <= i < |ts| ==>
      && r[i].id == ts[i].id && r[i].text == ts[i].text && r[i].createdAt == ts[i].createdAt
      && (r[i].done != ts[i].done <==> ts[i].id == x)
  {
    UpdateWhere(ts, x, (t: Task) => t.(done := !t.done))
  }

  /** Clicking a task's delete button: the tasks whose id is not `x`, in
      their order. */
  function Delete(ts: seq<Task>, x: string): (r: seq<Task>)
    ensures IsSubsequence(r, ts)
    ensures forall t :: t in r <==> t in ts && t.id != x
    ensures forall t :: multiset(r)[t] == if t.id == x then 0 else multiset(ts)[t]
    ensures x !in Ids(r)
  {
    Select(ts, (t: Task) => t.id != x)
  }

  /** Finishing an inline edit of the task with id `x`. Only a save whose
      trimmed text is non-empty changes anything, and then only that task's
      text. */
  function Edit(ts: seq<Task>, x: string, mode: EditMode, input: string): (r: seq<Task>)
    ensures mode == Cancel || AllSpace(input) ==> r == ts
    ensures |r| == |ts|
    ensures forall i :: 0 <= i < |ts| ==>
      && r[i].id == ts[i].id && r[i].done == ts[i].done && r[i].createdAt == ts[i].createdAt
      && (r[i].text != ts[i].text ==> ts[i].id == x && r[i].text == Trim(input))
    ensures mode == Save && !AllSpace(input) ==>
      forall i :: 0 <= i < |ts| && ts[i].id == x ==> r[i].text == Trim(input)
  {
    var text := Trim(input);
    if mode == Save && text != [] then UpdateWhere(ts, x, (t: Task) => t.(text := text))
    else ts
  }

  /** The "clear completed" button: exactly the open tasks, in order. The
      open-task counter is unaffected, and now counts the whole list. */
  function ClearCompleted(ts: seq<Task>): (r: seq<Task>)
    ensures IsSubsequence(r, ts)
    ensures forall t :: t in r <==> t in ts && !t.done
    ensures forall t :: multiset(r)[t] == if t.done then 0 else multiset(ts)[t]
    ensures ActiveCount(r) == ActiveCount(ts) == |r|
  {
    var r := Select(ts, IsActive);
    SelectKeepsAll(r, IsActive);
    r
  }

  /** Adding with a fresh id keeps the list well formed. */
  lemma AddWellFormed(ts: seq<Task>, input: string, id: string, now: int)
    requires WellFormed(ts) && id !in Ids(ts)
    ensures WellFormed(Add(ts, input, id, now))
  {
    if !AllSpace(input) {
      var r := Add(ts, input, id, now);
      assert r == [r[0]] + ts;
      ConsUniqueIds(r[0], ts);
    }
  }

  /** Deleting a task just added with a fresh id restores the list. */
  lemma AddThenDelete(ts: seq<Task>, input: string, id: string, now: int)
    requires id !in Ids(ts)
    ensures Delete(Add(ts, input, id, now), id) == ts
  {
    var keep := (t: Task) => t.id != id;
    SelectKeepsAll(ts, keep);
    if !AllSpace(input) {
      var r := Add(ts, input, id, now);
      assert r == [r[0]] + ts;
      assert Select(r, keep) == Select(ts, keep);
    }
  }

  /** A successful add raises the open-task counter by one. */
  lemma AddActiveCount(ts: seq<Task>, input: string, id: string, now: int)
    ensures ActiveCount(Add(ts, input, id, now)) == ActiveCount(ts) + (if AllSpace(input) then 0 else 1)
  {
    if !AllSpace(input) {
      var r := Add(ts, input, id, now);
      assert r == [r[0]] + ts;
    }
  }

  /** Toggling the same id twice restores the list. */
  lemma ToggleTwice(ts: seq<Task>, x: string)
    ensures Toggle(Toggle(ts, x), x) == ts
  {
  }

  /** Toggling an id no task has changes nothing. */
  lemma ToggleAbsent(ts: seq<Task>, x: string)
    requires x !in Ids(ts)
    ensures Toggle(ts, x) == ts
  {
    var r := Toggle(ts, x);
    forall i | 0 <= i < |ts|
      ensures r[i] == ts[i]
    {
      assert ts[i] in ts;
    }
  }

  /** Toggling keeps the list well formed. */
  lemma ToggleWellFormed(ts: seq<Task>, x: string)
    requires WellFormed(ts)
    ensures WellFormed(Toggle(ts, x))
  {
    var r := Toggle(ts, x);
    forall t | t in r
      ensures WellFormedTask(t)
    {
      var i :| 0 <= i < |r| && r[i] == t;
      assert ts[i] in ts;
    }
  }

  /** Two lists whose tasks agree position by position on `done` have the
      same number of open tasks. */
  lemma {:induction false} SameFlagsSameCount(a: seq<Task>, b: seq<Task>)
    requires |a| == |b|
    requires forall i :: 0 <= i < |a| ==> a[i].done == b[i].done
    ensures ActiveCount(a) == ActiveCount(b)
  {
    if a != [] {
      SameFlagsSameCount(a[1..], b[1..]);
    }
  }

  /** The open-task counter of a list with one task put in front. */
  lemma ActiveCountCons(t: Task, ts: seq<Task>)
    ensures ActiveCount([t] + ts) == ActiveCount(ts) + (if t.done then 0 else 1)
  {
    assert ([t] + ts)[1..] == ts;
  }

  /** The tail of a list with distinct ids has distinct ids, none of them the
      head's. */
  lemma UniqueIdsTail(ts: seq<Task>)
    requires UniqueIds(ts) && ts != []
    ensures UniqueIds(ts[1..]) && ts[0].id !in Ids(ts[1..])
  {
  }

  /** Toggling works task by task from the front. */
  lemma ToggleCons(ts: seq<Task>, x: string)
    requires ts != []
    ensures Toggle(ts, x) == [Toggle(ts, x)[0]] + Toggle(ts[1..], x)
  {
    assert Toggle(ts, x)[1..] == Toggle(ts[1..], x);
  }

  /** With distinct ids, toggling the task with id `x` moves the open-task
      counter by exactly one, up if the task was done and down if not. */
  lemma {:induction false} ToggleActiveCount(ts: seq<Task>, x: string, k: nat)
    requires UniqueIds(ts) && k < |ts| && ts[k].id == x
    ensures ActiveCount(Toggle(ts, x)) == ActiveCount(ts) + (if ts[k].done then 1 else -1)
  {
    var r := Toggle(ts, x);
    var rest := ts[1..];
    var r' := Toggle(rest, x);
    ToggleCons(ts, x);
    assert ts == [ts[0]] + rest;
    ActiveCountCons(r[0], r');
    ActiveCountCons(ts[0], rest);
    UniqueIdsTail(ts);
    if k == 0 {
      assert r[0].done != ts[0].done;
      ToggleAbsent(rest, x);
    } else {
      assert ts[0].id != x;
      assert r[0].done == ts[0].done;
      assert rest[k - 1] == ts[k];
      ToggleActiveCount(rest, x, k - 1);
    }
  }

  /** Deleting an id no task has changes nothing. */
  lemma DeleteAbsent(ts: seq<Task>, x: string)
    requires x !in Ids(ts)
    ensures Delete(ts, x) == ts
  {
    SelectKeepsAll(ts, (t: Task) => t.id != x);
  }

  /** With distinct ids, deleting an id in use removes exactly one task. */
  lemma {:induction false} DeleteOne(ts: seq<Task>, x: string)
    requires UniqueIds(ts) && x in Ids(ts)
    ensures |Delete(ts, x)| == |ts| - 1
  {
    var rest := ts[1..];
    assert ts == [ts[0]] + rest;
    UniqueIdsTail(ts);
    if ts[0].id == x {
      DeleteAbsent(rest, x);
    } else {
      var t :| t in ts && t.id == x;
      assert t in rest;
      DeleteOne(rest, x);
    }
  }

  /** Deleting keeps the list well formed. */
  lemma DeleteWellFormed(ts: seq<Task>, x: string)
    requires WellFormed(ts)
    ensures WellFormed(Delete(ts, x))
  {
    SelectWellFormed(ts, (t: Task) => t.id != x);
  }

  /** Editing keeps the list well formed and the open-task counter fixed. */
  lemma EditInvariants(ts: seq<Task>, x: string, mode: EditMode, input: string)
    requires WellFormed(ts)
    ensures WellFormed(Edit(ts, x, mode, input))
    ensures ActiveCount(Edit(ts, x, mode, input)) == ActiveCount(ts)
  {
    EditWellFormed(ts, x, mode, input);
    SameFlagsSameCount(Edit(ts, x, mode, input), ts);
  }

  /** Editing keeps ids and well-formed texts. */
  lemma EditWellFormed(ts: seq<Task>, x: string, mode: EditMode, input: string)
    requires WellFormed(ts)
    ensures WellFormed(Edit(ts, x, mode, input))
  {
    var r := Edit(ts, x, mode, input);
    assert UniqueIds(r) by {
      assert forall i :: 0 <= i < |r| ==> r[i].id == ts[i].id;
    }
    forall t | t in r
      ensures WellFormedTask(t)
    {
      var i :| 0 <= i < |r| && r[i] == t;
      EditTaskWellFormed(ts, x, mode, input, i);
    }
  }

  /** One task after an edit: either untouched, or carrying the trimmed,
      non-empty input. */
  lemma EditTaskWellFormed(ts: seq<Task>, x: string, mode: EditMode, input: string, i: int)
    requires WellFormed(ts) && 0 <= i < |ts|
    ensures WellFormedTask(Edit(ts, x, mode, input)[i])
  {
    var r := Edit(ts, x, mode, input);
    if r[i].text == ts[i].text {
      assert ts[i] in ts;
    }
  }

  /** Clearing completed tasks leaves the open view as it was, empties the
      finished view, and keeps a well-formed list well formed. */
  lemma ClearCompletedViews(ts: seq<Task>)
    ensures WellFormed(ts) ==> WellFormed(ClearCompleted(ts))
    ensures Visible(ClearCompleted(ts), Active) == Visible(ts, Active)
    ensures Visible(ClearCompleted(ts), Done) == []
  {
    var r := ClearCompleted(ts);
    if WellFormed(ts) {
      SelectWellFormed(ts, IsActive);
    }
    SelectKeepsAll(r, IsActive);
  }
}
