/**
  The task list as a value: an ordered sequence of task records, and one
  function per change the page makes to it. The class in module Store applies
  these changes in place; the lemmas here say what each change means and when
  it keeps the list well formed (unique ids, trimmed non-empty texts):
  `Without` and `SetCompleted` always do; `Added` when the id is fresh and the
  text trims to something non-empty; `SetText` when the new text is a task
  text; `Reordered` when its id list has no duplicates.
 */
module Tasks {
  import opened Text

  type TaskId = string

  /** One record of the list, `{id, text, completed}`. */
  datatype Task = Task(id: TaskId, text: string, completed: bool)

  datatype Option<T> = None | Some(value: T)

  /** The ids of the list, in list order. */
  function Ids(ts: seq<Task>): (r: seq<TaskId>)
    ensures |r| == |ts|
    ensures forall k :: 0 <= k < |ts| ==> r[k] == ts[k].id
  {
    if ts == [] then [] else [ts[0].id] + Ids(ts[1..])
  }

  predicate NoDuplicates<T(==)>(xs: seq<T>) {
    forall i, j :: 0 <= i < j < |xs| ==> xs[i] != xs[j]
  }

  predicate UniqueIds(ts: seq<Task>) {
    NoDuplicates(Ids(ts))
  }

  /** What every change of the page keeps: no two tasks share an id, and every
      text is trimmed and non-empty. */
  predicate WellFormed(ts: seq<Task>) {
    UniqueIds(ts) && TaskTexts(ts)
  }

  predicate TaskTexts(ts: seq<Task>) {
    forall k :: 0 <= k < |ts| ==> IsTaskText(ts[k].text)
  }

  lemma IdsCons(t: Task, rest: seq<Task>)
    ensures Ids([t] + rest) == [t.id] + Ids(rest)
  {
    assert ([t] + rest)[1..] == rest;
  }

  /** Prepending a task keeps the ids unique exactly when its id is new. */
  lemma UniqueIdsCons(t: Task, rest: seq<Task>)
    ensures UniqueIds([t] + rest) <==> t.id !in Ids(rest) && UniqueIds(rest)
  {
    var ids := Ids([t] + rest);
    IdsCons(t, rest);
    assert ids[1..] == Ids(rest);
    if UniqueIds([t] + rest) {
      forall i, j | 0 <= i < j < |rest| ensures Ids(rest)[i] != Ids(rest)[j] {
        assert ids[i + 1] != ids[j + 1];
      }
    }
  }

  /** Prepending a task keeps the list well formed exactly when the task's id
      is new and its text is a task text. */
  lemma WellFormedCons(t: Task, rest: seq<Task>)
    ensures WellFormed([t] + rest) <==> t.id !in Ids(rest) && IsTaskText(t.text) && WellFormed(rest)
  {
    UniqueIdsCons(t, rest);
    TaskTextsCons(t, rest);
  }

  lemma TaskTextsCons(t: Task, rest: seq<Task>)
    ensures TaskTexts([t] + rest) <==> IsTaskText(t.text) && TaskTexts(rest)
  {
    var ts := [t] + rest;
    if TaskTexts(ts) {
      assert IsTaskText(ts[0].text);
      forall k | 0 <= k < |rest| ensures IsTaskText(rest[k].text) {
        assert rest[k] == ts[k + 1];
      }
    }
    if IsTaskText(t.text) && TaskTexts(rest) {
      forall k | 0 <= k < |ts| ensures IsTaskText(ts[k].text) {
        if k > 0 {
          assert ts[k] == rest[k - 1];
        }
      }
    }
  }

  /** The ids of a list are those of its members. */
  lemma IdsOfMembers(a: seq<Task>, b: seq<Task>)
    requires forall t :: t in a ==> t in b
    ensures forall x :: x in Ids(a) ==> x in Ids(b)
  {
    forall x | x in Ids(a) ensures x in Ids(b) {
      var k :| 0 <= k < |a| && Ids(a)[k] == x;
      assert a[k] in b;
      var m :| 0 <= m < |b| && b[m] == a[k];
      assert Ids(b)[m] == x;
    }
  }

  /** `a` is `b` with some elements left out, the rest in their order. */
  predicate SubsequenceOf<T(==)>(a: seq<T>, b: seq<T>)
    decreases |b|
  {
    if a == [] then true
    else if b == [] then false
    else if a[0] == b[0] then SubsequenceOf(a[1..], b[1..])
    else SubsequenceOf(a, b[1..])
  }

  /** `i` is where `find` stops: the first index whose task has the id. */
  predicate FirstWithId(ts: seq<Task>, id: TaskId, i: nat) {
    i < |ts| && ts[i].id == id && forall j :: 0 <= j < i ==> ts[j].id != id
  }

  /** The index `tasks.find(t => t.id === id)` stops at: the first task with
      that id, or none. */
  function FindIndex(ts: seq<Task>, id: TaskId): (r: Option<nat>)
    ensures r.Some? ==> FirstWithId(ts, id, r.value)
    ensures r.None? <==> id !in Ids(ts)
  {
    if ts == [] then None
    else if ts[0].id == id then Some(0)
    else match FindIndex(ts[1..], id)
      case None => None
      case Some(i) => Some(i + 1)
  }

  /** `tasks.find(t => t.id === id)`. */
  function Find(ts: seq<Task>, id: TaskId): (r: Option<Task>)
    ensures r.Some? ==> r.value in ts && r.value.id == id
    ensures r.Some? ==> exists i: nat :: FirstWithId(ts, id, i) && r.value == ts[i]
    ensures r.None? <==> id !in Ids(ts)
  {
    match FindIndex(ts, id)
    case None => None
    case Some(i) => Some(ts[i])
  }

  // ---------------------------------------------------------------------
  // addTask

  /** The list after `tasks.unshift({id, text, completed: false})`. */
  function Added(ts: seq<Task>, id: TaskId, text: string): (r: seq<Task>)
    ensures |r| == |ts| + 1 && r[1..] == ts
    ensures r[0].id == id && r[0].text == text && !r[0].completed
  {
    [Task(id, text, false)] + ts
  }

  /** A new task with a fresh id and a trimmed non-empty text keeps the list
      well formed. */
  lemma AddedWellFormed(ts: seq<Task>, id: TaskId, text: string)
    requires WellFormed(ts) && id !in Ids(ts) && Trim(text) != []
    ensures WellFormed(Added(ts, id, Trim(text)))
  {
    TrimIdempotent(text);
    WellFormedCons(Task(id, Trim(text), false), ts);
  }

  // ---------------------------------------------------------------------
  // deleteTask

  /** `tasks.filter(t => t.id !== id)`. */
  function Without(ts: seq<Task>, id: TaskId): (r: seq<Task>)
    ensures |r| <= |ts|
    ensures id !in Ids(r)
    ensures forall t :: t in r ==> t in ts
    ensures id !in Ids(ts) ==> r == ts
  {
    if ts == [] then []
    else if ts[0].id == id then Without(ts[1..], id)
    else [ts[0]] + Without(ts[1..], id)
  }

  /** The tasks that remain keep their relative order. */
  lemma {:induction false} WithoutIsSubsequence(ts: seq<Task>, id: TaskId)
    ensures SubsequenceOf(Without(ts, id), ts)
  {
    if ts != [] {
      WithoutIsSubsequence(ts[1..], id);
      var rest := Without(ts[1..], id);
      if ts[0].id == id && rest != [] {
        assert rest[0].id == Ids(rest)[0];
      }
    }
  }

  /** Exactly the tasks with that id are gone; every other task is kept as
      often as it occurred. */
  lemma {:induction false} WithoutCount(ts: seq<Task>, id: TaskId, t: Task)
    ensures multiset(Without(ts, id))[t] == if t.id == id then 0 else multiset(ts)[t]
  {
    if ts != [] {
      WithoutCount(ts[1..], id, t);
      assert ts == [ts[0]] + ts[1..];
      assert multiset(ts) == multiset{ts[0]} + multiset(ts[1..]);
      if ts[0].id != id {
        assert Without(ts, id) == [ts[0]] + Without(ts[1..], id);
        assert multiset(Without(ts, id)) == multiset{ts[0]} + multiset(Without(ts[1..], id));
      } else {
        assert Without(ts, id) == Without(ts[1..], id);
      }
    }
  }

  /** Deleting twice is deleting once. */
  lemma WithoutIdempotent(ts: seq<Task>, id: TaskId)
    ensures Without(Without(ts, id), id) == Without(ts, id)
  {
  }

  /** In a list with unique ids, deleting a present id removes exactly one
      task. */
  lemma {:induction false} WithoutRemovesOne(ts: seq<Task>, id: TaskId)
    requires UniqueIds(ts) && id in Ids(ts)
    ensures |Without(ts, id)| == |ts| - 1
  {
    if ts[0].id == id {
      assert forall k :: 0 <= k < |ts| - 1 ==> Ids(ts[1..])[k] == Ids(ts)[k + 1];
      assert id !in Ids(ts[1..]);
    } else {
      assert forall k :: 0 <= k < |ts| - 1 ==> Ids(ts[1..])[k] == Ids(ts)[k + 1];
      WithoutRemovesOne(ts[1..], id);
    }
  }

  /** Removing tasks keeps the list well formed. */
  lemma WithoutWellFormed(ts: seq<Task>, id: TaskId)
    requires WellFormed(ts)
    ensures WellFormed(Without(ts, id))
  {
    WithoutUniqueIds(ts, id);
    MembersTaskTexts(Without(ts, id), ts);
  }

  lemma {:induction false} WithoutUniqueIds(ts: seq<Task>, id: TaskId)
    requires UniqueIds(ts)
    ensures UniqueIds(Without(ts, id))
  {
    if ts != [] {
      var rest := Without(ts[1..], id);
      assert ts == [ts[0]] + ts[1..];
      UniqueIdsCons(ts[0], ts[1..]);
      WithoutUniqueIds(ts[1..], id);
      if ts[0].id != id {
        IdsOfMembers(rest, ts[1..]);
        UniqueIdsCons(ts[0], rest);
      }
    }
  }

  /** A list made of members of a list of task texts is one too. */
  lemma MembersTaskTexts(a: seq<Task>, b: seq<Task>)
    requires TaskTexts(b) && forall t :: t in a ==> t in b
    ensures TaskTexts(a)
  {
    forall k | 0 <= k < |a| ensures IsTaskText(a[k].text) {
      assert a[k] in b;
      var m :| 0 <= m < |b| && b[m] == a[k];
    }
  }

  lemma {:induction false} SubsequenceMembers<T>(a: seq<T>, b: seq<T>)
    requires SubsequenceOf(a, b)
    ensures forall x :: x in a ==> x in b
    decreases |b|
  {
    if a != [] {
      if a[0] == b[0] {
        SubsequenceMembers(a[1..], b[1..]);
        assert a == [a[0]] + a[1..];
      } else {
        SubsequenceMembers(a, b[1..]);
      }
    }
  }

  // ---------------------------------------------------------------------
  // toggleComplete and disableEdit: change the first task with the id

  /** The list after `tasks.find(t => t.id === id).completed = done`, or the
      list unchanged when no task has that id. */
  function SetCompleted(ts: seq<Task>, id: TaskId, done: bool): (r: seq<Task>)
    ensures |r| == |ts|
  {
    if ts == [] then []
    else if ts[0].id == id then [ts[0].(completed := done)] + ts[1..]
    else [ts[0]] + SetCompleted(ts[1..], id, done)
  }

  /** The list after `tasks.find(x => x.id === id).text = text`, or the list
      unchanged when no task has that id. */
  function SetText(ts: seq<Task>, id: TaskId, text: string): (r: seq<Task>)
    ensures |r| == |ts|
  {
    if ts == [] then []
    else if ts[0].id == id then [ts[0].(text := text)] + ts[1..]
    else [ts[0]] + SetText(ts[1..], id, text)
  }

  /** When `find` finds nothing, no task has the id. */
  lemma FindIndexNone(ts: seq<Task>, id: TaskId)
    requires FindIndex(ts, id).None?
    ensures forall k :: 0 <= k < |ts| ==> ts[k].id != id
  {
    forall k | 0 <= k < |ts| ensures ts[k].id != id {
      assert Ids(ts)[k] == ts[k].id;
    }
  }

  lemma FirstWithIdTail(ts: seq<Task>, id: TaskId, i: nat)
    requires FirstWithId(ts, id, i) && ts[0].id != id
    ensures i > 0 && FirstWithId(ts[1..], id, i - 1)
  {
  }

  /** Toggling changes only the task `find` stops at, and only its flag. */
  lemma {:induction false} SetCompletedAt(ts: seq<Task>, id: TaskId, done: bool, i: nat)
    requires FirstWithId(ts, id, i)
    ensures SetCompleted(ts, id, done) == ts[i := ts[i].(completed := done)]
  {
    var t := ts[i].(completed := done);
    if ts[0].id != id {
      FirstWithIdTail(ts, id, i);
      SetCompletedAt(ts[1..], id, done, i - 1);
      UpdateCons(ts, i, t);
      assert SetCompleted(ts, id, done) == [ts[0]] + SetCompleted(ts[1..], id, done);
    } else {
      assert i == 0;
      assert SetCompleted(ts, id, done) == [t] + ts[1..];
    }
  }

  /** Renaming changes only the task `find` stops at, and only its text. */
  lemma {:induction false} SetTextAt(ts: seq<Task>, id: TaskId, text: string, i: nat)
    requires FirstWithId(ts, id, i)
    ensures SetText(ts, id, text) == ts[i := ts[i].(text := text)]
  {
    var t := ts[i].(text := text);
    if ts[0].id != id {
      FirstWithIdTail(ts, id, i);
      SetTextAt(ts[1..], id, text, i - 1);
      UpdateCons(ts, i, t);
      assert SetText(ts, id, text) == [ts[0]] + SetText(ts[1..], id, text);
    } else {
      assert i == 0;
      assert SetText(ts, id, text) == [t] + ts[1..];
    }
  }

  /** Without a task that has the id, toggling changes nothing. */
  lemma {:induction false} SetCompletedAbsent(ts: seq<Task>, id: TaskId, done: bool)
    requires forall k :: 0 <= k < |ts| ==> ts[k].id != id
    ensures SetCompleted(ts, id, done) == ts
  {
    if ts != [] {
      SetCompletedAbsent(ts[1..], id, done);
    }
  }

  /** Without a task that has the id, renaming changes nothing. */
  lemma {:induction false} SetTextAbsent(ts: seq<Task>, id: TaskId, text: string)
    requires forall k :: 0 <= k < |ts| ==> ts[k].id != id
    ensures SetText(ts, id, text) == ts
  {
    if ts != [] {
      SetTextAbsent(ts[1..], id, text);
    }
  }

  lemma UpdateCons(ts: seq<Task>, i: nat, t: Task)
    requires 0 < i < |ts|
    ensures ts[i := t] == [ts[0]] + ts[1..][i - 1 := t]
  {
  }

  /** With unique ids, `find` stops at a task exactly when it has the id. */
  lemma FindIndexUnique(ts: seq<Task>, id: TaskId, k: nat)
    requires UniqueIds(ts) && k < |ts|
    ensures FindIndex(ts, id) == Some(k) <==> ts[k].id == id
  {
    if ts[k].id == id {
      assert Ids(ts)[k] == id;
      forall j | 0 <= j < |ts| && j != k ensures ts[j].id != id {
        assert Ids(ts)[j] != Ids(ts)[k];
      }
    }
  }

  /** With unique ids the first match is the only match: toggling changes the
      flag of the task with that id and of no other. */
  lemma SetCompletedOnly(ts: seq<Task>, id: TaskId, done: bool, k: nat)
    requires UniqueIds(ts) && k < |ts|
    ensures SetCompleted(ts, id, done)[k] ==
      if ts[k].id == id then ts[k].(completed := done) else ts[k]
  {
    FindIndexUnique(ts, id, k);
    var f := FindIndex(ts, id);
    if f.Some? {
      SetCompletedAt(ts, id, done, f.value);
    } else {
      FindIndexNone(ts, id);
      SetCompletedAbsent(ts, id, done);
    }
  }

  /** With unique ids, renaming changes the text of the task with that id and
      of no other. */
  lemma SetTextOnly(ts: seq<Task>, id: TaskId, text: string, k: nat)
    requires UniqueIds(ts) && k < |ts|
    ensures SetText(ts, id, text)[k] ==
      if ts[k].id == id then ts[k].(text := text) else ts[k]
  {
    FindIndexUnique(ts, id, k);
    var f := FindIndex(ts, id);
    if f.Some? {
      SetTextAt(ts, id, text, f.value);
    } else {
      FindIndexNone(ts, id);
      SetTextAbsent(ts, id, text);
    }
  }

  /** Replacing a task by one with the same id and a task text keeps the list
      well formed. */
  lemma ReplaceWellFormed(ts: seq<Task>, i: nat, t: Task)
    requires WellFormed(ts) && i < |ts| && t.id == ts[i].id && IsTaskText(t.text)
    ensures WellFormed(ts[i := t])
  {
    var r := ts[i := t];
    ReplaceIds(ts, i, t);
    assert TaskTexts(r) by {
      forall k | 0 <= k < |r| ensures IsTaskText(r[k].text) {
        if k != i {
          assert r[k] == ts[k];
        }
      }
    }
  }

  lemma ReplaceIds(ts: seq<Task>, i: nat, t: Task)
    requires i < |ts| && t.id == ts[i].id
    ensures Ids(ts[i := t]) == Ids(ts)
  {
    var r := ts[i := t];
    forall k | 0 <= k < |ts| ensures Ids(r)[k] == Ids(ts)[k] {
      assert r[k].id == ts[k].id;
    }
  }

  lemma SetCompletedWellFormed(ts: seq<Task>, id: TaskId, done: bool)
    requires WellFormed(ts)
    ensures WellFormed(SetCompleted(ts, id, done))
  {
    var f := FindIndex(ts, id);
    if f.Some? {
      SetCompletedAt(ts, id, done, f.value);
      ReplaceWellFormed(ts, f.value, ts[f.value].(completed := done));
    } else {
      FindIndexNone(ts, id);
      SetCompletedAbsent(ts, id, done);
    }
  }

  lemma SetTextWellFormed(ts: seq<Task>, id: TaskId, text: string)
    requires WellFormed(ts) && IsTaskText(text)
    ensures WellFormed(SetText(ts, id, text))
  {
    var f := FindIndex(ts, id);
    if f.Some? {
      SetTextAt(ts, id, text, f.value);
      ReplaceWellFormed(ts, f.value, ts[f.value].(text := text));
    } else {
      FindIndexNone(ts, id);
      SetTextAbsent(ts, id, text);
    }
  }

  // ---------------------------------------------------------------------
  // the drop handler

  /** `ids.map(id => tasks.find(t => t.id === id)).filter(Boolean)`: the
      tasks named by `ids`, in the order of `ids`, unknown ids dropped. */
  function Reordered(ts: seq<Task>, ids: seq<TaskId>): (r: seq<Task>)
    ensures |r| <= |ids|
    ensures forall t :: t in r ==> t in ts && t.id in ids
  {
    if ids == [] then []
    else match Find(ts, ids[0])
      case Some(t) => [t] + Reordered(ts, ids[1..])
      case None => Reordered(ts, ids[1..])
  }

  /** Each task of the result is the first task of the old list with its id. */
  lemma {:induction false} ReorderedFirstMatch(ts: seq<Task>, ids: seq<TaskId>, k: nat)
    requires k < |Reordered(ts, ids)|
    ensures Find(ts, Reordered(ts, ids)[k].id) == Some(Reordered(ts, ids)[k])
  {
    var r := Reordered(ts, ids);
    var f := Find(ts, ids[0]);
    var rest := Reordered(ts, ids[1..]);
    if f.Some? {
      assert r == [f.value] + rest;
      if k > 0 {
        assert r[k] == rest[k - 1];
        ReorderedFirstMatch(ts, ids[1..], k - 1);
      }
    } else {
      assert r == rest;
      ReorderedFirstMatch(ts, ids[1..], k);
    }
  }

  /** The ids of `ids` that occur in `known`, in the order of `ids`. */
  function Present(ids: seq<TaskId>, known: seq<TaskId>): (r: seq<TaskId>)
    ensures forall x :: x in r <==> x in ids && x in known
  {
    if ids == [] then []
    else if ids[0] in known then [ids[0]] + Present(ids[1..], known)
    else Present(ids[1..], known)
  }

  /** The result lists the input ids that are present, in input order. */
  lemma {:induction false} ReorderedIds(ts: seq<Task>, ids: seq<TaskId>)
    ensures Ids(Reordered(ts, ids)) == Present(ids, Ids(ts))
    ensures SubsequenceOf(Ids(Reordered(ts, ids)), ids)
    ensures (forall x :: x in ids ==> x in Ids(ts)) ==> Ids(Reordered(ts, ids)) == ids
  {
    if ids != [] {
      ReorderedIds(ts, ids[1..]);
      var r := Reordered(ts, ids);
      var rest := Reordered(ts, ids[1..]);
      if Find(ts, ids[0]).None? {
        if Ids(rest) != [] {
          assert SubsequenceOf(Ids(rest), ids[1..]);
          SubsequenceMembers(Ids(rest), ids[1..]);
          assert Ids(rest)[0] == rest[0].id;
          assert Ids(rest)[0] != ids[0];
        }
      } else {
        IdsCons(Find(ts, ids[0]).value, rest);
        assert Ids(r) == [ids[0]] + Ids(rest);
      }
      if forall x :: x in ids ==> x in Ids(ts) {
        assert forall x :: x in ids[1..] ==> x in ids;
      }
    }
  }

  /** The drop handler distributes over concatenation of the id list. */
  lemma {:induction false} ReorderedConcat(ts: seq<Task>, a: seq<TaskId>, b: seq<TaskId>)
    ensures Reordered(ts, a + b) == Reordered(ts, a) + Reordered(ts, b)
  {
    if a == [] {
      assert a + b == b;
    } else {
      assert (a + b)[0] == a[0] && (a + b)[1..] == a[1..] + b;
      ReorderedConcat(ts, a[1..], b);
    }
  }

  /** Rearranging the input ids rearranges the result the same way. */
  lemma {:induction false} ReorderedPermute(ts: seq<Task>, a: seq<TaskId>, b: seq<TaskId>)
    requires multiset(a) == multiset(b)
    ensures multiset(Reordered(ts, a)) == multiset(Reordered(ts, b))
    decreases |a|
  {
    if a != [] {
      assert a[0] in multiset(b);
      var k :| 0 <= k < |b| && b[k] == a[0];
      var b' := b[..k] + b[k + 1..];
      assert b == b[..k] + [b[k]] + b[k + 1..];
      assert a == [a[0]] + a[1..];
      assert multiset(b) == multiset(b[..k]) + multiset([b[k]]) + multiset(b[k + 1..]);
      assert multiset(b') == multiset(b[..k]) + multiset(b[k + 1..]);
      assert multiset(a) == multiset([a[0]]) + multiset(a[1..]);
      assert multiset(a[1..]) == multiset(a) - multiset{a[0]};
      assert multiset(b') == multiset(b) - multiset{b[k]};
      ReorderedPermute(ts, a[1..], b');
      ReorderedConcat(ts, [a[0]], a[1..]);
      ReorderedConcat(ts, b[..k], b[k + 1..]);
      ReorderedConcat(ts, b[..k] + [b[k]], b[k + 1..]);
      ReorderedConcat(ts, b[..k], [b[k]]);
    }
  }

  /** Reading the ids of a list with unique ids back gives the same list. */
  lemma {:induction false} ReorderedOwnIds(ts: seq<Task>)
    requires UniqueIds(ts)
    ensures Reordered(ts, Ids(ts)) == ts
  {
    if ts != [] {
      assert forall k :: 0 <= k < |ts| - 1 ==> Ids(ts[1..])[k] == Ids(ts)[k + 1];
      assert Ids(ts)[1..] == Ids(ts[1..]);
      ReorderedOwnIds(ts[1..]);
      ReorderedSkipHead(ts, Ids(ts[1..]));
    }
  }

  /** Tasks looked up by ids other than the head's are found past the head. */
  lemma {:induction false} ReorderedSkipHead(ts: seq<Task>, ids: seq<TaskId>)
    requires ts != [] && ts[0].id !in ids
    ensures Reordered(ts, ids) == Reordered(ts[1..], ids)
  {
    if ids != [] {
      assert ids[0] != ts[0].id;
      assert Find(ts, ids[0]) == Find(ts[1..], ids[0]);
      ReorderedSkipHead(ts, ids[1..]);
    }
  }

  /** Dropping a complete rearrangement of the ids of a list with unique ids
      rearranges the list: no task is lost or duplicated. */
  lemma ReorderedIsPermutation(ts: seq<Task>, ids: seq<TaskId>)
    requires UniqueIds(ts) && multiset(ids) == multiset(Ids(ts))
    ensures multiset(Reordered(ts, ids)) == multiset(ts)
  {
    ReorderedPermute(ts, ids, Ids(ts));
    ReorderedOwnIds(ts);
  }

  /** A duplicate-free id list keeps the list well formed. */
  lemma ReorderedWellFormed(ts: seq<Task>, ids: seq<TaskId>)
    requires WellFormed(ts) && NoDuplicates(ids)
    ensures WellFormed(Reordered(ts, ids))
  {
    ReorderedUniqueIds(ts, ids);
    MembersTaskTexts(Reordered(ts, ids), ts);
  }

  lemma {:induction false} ReorderedUniqueIds(ts: seq<Task>, ids: seq<TaskId>)
    requires NoDuplicates(ids)
    ensures UniqueIds(Reordered(ts, ids))
  {
    if ids != [] {
      assert NoDuplicates(ids[1..]);
      ReorderedUniqueIds(ts, ids[1..]);
      var f := Find(ts, ids[0]);
      var rest := Reordered(ts, ids[1..]);
      if f.Some? {
        assert Reordered(ts, ids) == [f.value] + rest;
        UniqueIdsCons(f.value, rest);
      }
    }
  }
}
