/** The task list of the to-do component and the pure transforms its handlers
    apply to it: the map in addTodo (edit) and toggleComplete, the prepend in
    addTodo (add), the filters in deleteTodo and filteredTodos, and the
    remove-then-insert reorder of handleDrop. */
module Todos {
  import opened Js

  /** One task record `{id, text, completed, dueDate, priority}`.  A record read
      back from storage may lack dueDate or priority, hence the options. */
  datatype Todo = Todo(id: string, text: string, completed: bool,
                       dueDate: Option<string>, priority: Option<string>)

  predicate HasId(todos: seq<Todo>, id: string) {
    exists i :: 0 <= i < |todos| && todos[i].id == id
  }

  /** No two todos share an id. */
  predicate UniqueIds(todos: seq<Todo>) {
    forall i, j :: 0 <= i < |todos| && 0 <= j < |todos| && i != j ==> todos[i].id != todos[j].id
  }

  /** `todos.findIndex(t => t.id === id)`. */
  function IndexOf(todos: seq<Todo>, id: string): (k: int)
    ensures -1 <= k < |todos|
    ensures k == -1 <==> !HasId(todos, id)
    ensures 0 <= k ==> todos[k].id == id && forall i :: 0 <= i < k ==> todos[i].id != id
  {
    FindIndex(todos, (t: Todo) => t.id == id)
  }

  lemma IndexOfUnique(todos: seq<Todo>, id: string, i: nat)
    requires UniqueIds(todos) && i < |todos| && todos[i].id == id
    ensures IndexOf(todos, id) == i
  {
  }

  // ---------------------------------------------------------------------------
  // addTodo
  // ---------------------------------------------------------------------------

  /** The record addTodo creates: the given text, not completed, and the due-date
      and priority inputs as they stand. */
  function NewTodo(id: string, text: string, dueDate: string, priority: string): (t: Todo)
    ensures t.id == id && t.text == text && !t.completed
    ensures t.dueDate == Some(dueDate) && t.priority == Some(priority)
  {
    Todo(id, text, false, Some(dueDate), Some(priority))
  }

  /** Prepending a todo whose id is fresh keeps the ids pairwise distinct. */
  lemma PrependKeepsUniqueIds(todos: seq<Todo>, t: Todo)
    requires UniqueIds(todos) && !HasId(todos, t.id)
    ensures UniqueIds([t] + todos)
  {
    var r := [t] + todos;
    forall i, j | 0 <= i < |r| && 0 <= j < |r| && i != j ensures r[i].id != r[j].id {
      if i > 0 && j > 0 {
        assert r[i] == todos[i - 1] && r[j] == todos[j - 1];
      } else if i == 0 {
        assert r[j] == todos[j - 1];
      } else {
        assert r[i] == todos[i - 1];
      }
    }
  }

  /** The todo `{ ...todo, text, dueDate, priority }` that an edit writes. */
  function Edited(t: Todo, text: string, dueDate: string, priority: string): (e: Todo)
    ensures e.id == t.id && e.completed == t.completed
    ensures e.text == text && e.dueDate == Some(dueDate) && e.priority == Some(priority)
  {
    t.(text := text, dueDate := Some(dueDate), priority := Some(priority))
  }

  /** The edit branch of addTodo: every todo whose id is `id` gets the new text,
      due date and priority; its id, completion and position are kept, and
      every other todo is left as it was. */
  function EditTodos(todos: seq<Todo>, id: string, text: string, dueDate: string, priority: string): (r: seq<Todo>)
    ensures |r| == |todos|
    ensures forall i :: 0 <= i < |todos| ==>
      r[i].id == todos[i].id && r[i].completed == todos[i].completed
    ensures forall i :: 0 <= i < |todos| && todos[i].id == id ==>
      r[i].text == text && r[i].dueDate == Some(dueDate) && r[i].priority == Some(priority)
    ensures forall i :: 0 <= i < |todos| && todos[i].id != id ==> r[i] == todos[i]
  {
    Map(todos, (t: Todo) => if t.id == id then Edited(t, text, dueDate, priority) else t)
  }

  /** Editing an id that no todo has changes nothing (no "not found" signal). */
  lemma EditAbsentIsNoOp(todos: seq<Todo>, id: string, text: string, dueDate: string, priority: string)
    requires !HasId(todos, id)
    ensures EditTodos(todos, id, text, dueDate, priority) == todos
  {
    var r := EditTodos(todos, id, text, dueDate, priority);
    assert forall i :: 0 <= i < |todos| ==> r[i] == todos[i];
  }

  /** With distinct ids, an edit of a present id rewrites exactly that one todo. */
  lemma EditRewritesOne(todos: seq<Todo>, id: string, text: string, dueDate: string, priority: string)
    requires UniqueIds(todos) && HasId(todos, id)
    ensures var k := IndexOf(todos, id);
      0 <= k && EditTodos(todos, id, text, dueDate, priority) == todos[k := Edited(todos[k], text, dueDate, priority)]
  {
    var k := IndexOf(todos, id);
    var r := EditTodos(todos, id, text, dueDate, priority);
    assert forall i :: 0 <= i < |todos| && i != k ==> todos[i].id != id;
    assert forall i :: 0 <= i < |todos| ==> r[i] == todos[k := Edited(todos[k], text, dueDate, priority)][i];
  }

  /** An edit keeps every id, so distinct ids stay distinct. */
  lemma EditKeepsUniqueIds(todos: seq<Todo>, id: string, text: string, dueDate: string, priority: string)
    requires UniqueIds(todos)
    ensures UniqueIds(EditTodos(todos, id, text, dueDate, priority))
  {
    var r := EditTodos(todos, id, text, dueDate, priority);
    assert forall i :: 0 <= i < |r| ==> r[i].id == todos[i].id;
  }

  // ---------------------------------------------------------------------------
  // toggleComplete
  // ---------------------------------------------------------------------------

  /** toggleComplete: the todos whose id is `id` have `completed` flipped; no
      other field, no other todo and no position changes. */
  function ToggleTodos(todos: seq<Todo>, id: string): (r: seq<Todo>)
    ensures |r| == |todos|
    ensures forall i :: 0 <= i < |todos| ==>
      r[i].(completed := todos[i].completed) == todos[i] &&
      r[i].completed == (todos[i].completed != (todos[i].id == id))
  {
    Map(todos, (t: Todo) => if t.id == id then t.(completed := !t.completed) else t)
  }

  /** Toggling the same id twice restores the list. */
  lemma ToggleTwiceIsIdentity(todos: seq<Todo>, id: string)
    ensures ToggleTodos(ToggleTodos(todos, id), id) == todos
  {
    var r := ToggleTodos(ToggleTodos(todos, id), id);
    assert forall i :: 0 <= i < |todos| ==> r[i] == todos[i];
  }

  /** Toggling an id that no todo has changes nothing. */
  lemma ToggleAbsentIsNoOp(todos: seq<Todo>, id: string)
    requires !HasId(todos, id)
    ensures ToggleTodos(todos, id) == todos
  {
    var r := ToggleTodos(todos, id);
    assert forall i :: 0 <= i < |todos| ==> r[i] == todos[i];
  }

  /** Toggling keeps every id, so distinct ids stay distinct. */
  lemma ToggleKeepsUniqueIds(todos: seq<Todo>, id: string)
    requires UniqueIds(todos)
    ensures UniqueIds(ToggleTodos(todos, id))
  {
    var r := ToggleTodos(todos, id);
    assert forall i :: 0 <= i < |r| ==> r[i].id == todos[i].id;
  }

  // ---------------------------------------------------------------------------
  // deleteTodo
  // ---------------------------------------------------------------------------

  /** deleteTodo: no todo with that id is left, and the rest keep their
      relative order. */
  function DeleteTodos(todos: seq<Todo>, id: string): (r: seq<Todo>)
    ensures !HasId(r, id)
    ensures IsSubsequence(r, todos)
  {
    var p := (t: Todo) => t.id != id;
    var r := Filter(todos, p);
    FilterIsSubsequence(todos, p);
    forall i | 0 <= i < |r| ensures r[i].id != id {
      FilterMember(todos, p, r[i]);
    }
    r
  }

  /** Every todo with another id is kept, as often as the list has it. */
  lemma DeleteKeepsOthers(todos: seq<Todo>, id: string, t: Todo)
    requires t.id != id
    ensures multiset(DeleteTodos(todos, id))[t] == multiset(todos)[t]
  {
    FilterCount(todos, (t: Todo) => t.id != id, t);
  }

  /** Deleting the same id twice is deleting it once. */
  lemma DeleteIdempotent(todos: seq<Todo>, id: string)
    ensures DeleteTodos(DeleteTodos(todos, id), id) == DeleteTodos(todos, id)
  {
    FilterIdempotent(todos, (t: Todo) => t.id != id);
  }

  /** Deleting an id that no todo has changes nothing. */
  lemma DeleteAbsentIsNoOp(todos: seq<Todo>, id: string)
    requires !HasId(todos, id)
    ensures DeleteTodos(todos, id) == todos
  {
    FilterKeepsAll(todos, (t: Todo) => t.id != id);
  }

  /** With distinct ids, deleting a present id removes exactly that one todo. */
  lemma DeleteRemovesOne(todos: seq<Todo>, id: string)
    requires UniqueIds(todos) && HasId(todos, id)
    ensures var k := IndexOf(todos, id);
      0 <= k && DeleteTodos(todos, id) == todos[..k] + todos[k + 1..]
  {
    var k := IndexOf(todos, id);
    var p := (t: Todo) => t.id != id;
    FilterRemovesAt(todos, p, k);
  }

  /** A filter that rejects exactly the element at k removes just that element. */
  lemma {:induction false} FilterRemovesAt<T>(s: seq<T>, p: T -> bool, k: nat)
    requires k < |s| && !p(s[k])
    requires forall i :: 0 <= i < |s| && i != k ==> p(s[i])
    ensures Filter(s, p) == s[..k] + s[k + 1..]
  {
    var tail := s[1..];
    assert forall i :: 0 <= i < |tail| ==> tail[i] == s[i + 1];
    if k == 0 {
      FilterKeepsAll(tail, p);
    } else {
      FilterRemovesAt(tail, p, k - 1);
      assert [s[0]] + tail[..k - 1] == s[..k];
      assert tail[k..] == s[k + 1..];
      calc {
        Filter(s, p);
        [s[0]] + Filter(tail, p);
        [s[0]] + (tail[..k - 1] + tail[k..]);
        s[..k] + s[k + 1..];
      }
    }
  }

  /** Removing one todo keeps the remaining ids distinct. */
  lemma RemoveAtKeepsUniqueIds(todos: seq<Todo>, k: nat)
    requires UniqueIds(todos) && k < |todos|
    ensures UniqueIds(todos[..k] + todos[k + 1..])
  {
    var r := todos[..k] + todos[k + 1..];
    forall i, j | 0 <= i < |r| && 0 <= j < |r| && i != j ensures r[i].id != r[j].id {
      var i' := if i < k then i else i + 1;
      var j' := if j < k then j else j + 1;
      assert r[i] == todos[i'] && r[j] == todos[j'];
    }
  }

  /** Deleting keeps the remaining ids distinct. */
  lemma DeleteKeepsUniqueIds(todos: seq<Todo>, id: string)
    requires UniqueIds(todos)
    ensures UniqueIds(DeleteTodos(todos, id))
  {
    if HasId(todos, id) {
      DeleteRemovesOne(todos, id);
      RemoveAtKeepsUniqueIds(todos, IndexOf(todos, id));
    } else {
      DeleteAbsentIsNoOp(todos, id);
    }
  }

  // ---------------------------------------------------------------------------
  // filteredTodos
  // ---------------------------------------------------------------------------

  /** The per-todo test of filteredTodos: `'active'` shows the open todos,
      `'completed'` the done ones, any other filter value shows all. */
  predicate Shown(filter: string, t: Todo) {
    if filter == "active" then !t.completed
    else if filter == "completed" then t.completed
    else true
  }

  /** filteredTodos: the view shown under the current filter, in list order:
      under 'active' only open todos, under 'completed' only done ones. */
  function FilteredTodos(todos: seq<Todo>, filter: string): (r: seq<Todo>)
    ensures IsSubsequence(r, todos)
    ensures filter == "active" ==> forall i :: 0 <= i < |r| ==> !r[i].completed
    ensures filter == "completed" ==> forall i :: 0 <= i < |r| ==> r[i].completed
  {
    var p := (t: Todo) => Shown(filter, t);
    var r := Filter(todos, p);
    FilterIsSubsequence(todos, p);
    forall i | 0 <= i < |r| ensures Shown(filter, r[i]) {
      FilterMember(todos, p, r[i]);
    }
    r
  }

  /** The view holds each todo the filter shows exactly as often as the list
      does, and no other todo. */
  lemma FilteredCount(todos: seq<Todo>, filter: string, t: Todo)
    ensures multiset(FilteredTodos(todos, filter))[t] == if Shown(filter, t) then multiset(todos)[t] else 0
  {
    FilterCount(todos, (t: Todo) => Shown(filter, t), t);
  }

  /** Any filter other than 'active' and 'completed' (such as 'all') shows the
      whole list unchanged. */
  lemma FilterAllShowsEverything(todos: seq<Todo>, filter: string)
    requires filter != "active" && filter != "completed"
    ensures FilteredTodos(todos, filter) == todos
  {
    FilterKeepsAll(todos, (t: Todo) => Shown(filter, t));
  }

  /** The 'active' and 'completed' views partition the list: together they hold
      every todo exactly as often as the list does, and no todo is in both. */
  lemma ActiveCompletedPartition(todos: seq<Todo>)
    ensures multiset(FilteredTodos(todos, "active")) + multiset(FilteredTodos(todos, "completed")) == multiset(todos)
    ensures forall t :: !(t in FilteredTodos(todos, "active") && t in FilteredTodos(todos, "completed"))
  {
    var a := FilteredTodos(todos, "active");
    var c := FilteredTodos(todos, "completed");
    forall t ensures (multiset(a) + multiset(c))[t] == multiset(todos)[t] {
      FilteredCount(todos, "active", t);
      FilteredCount(todos, "completed", t);
    }
    forall t ensures !(t in a && t in c) {
      FilteredCount(todos, "active", t);
      FilteredCount(todos, "completed", t);
    }
  }

  // ---------------------------------------------------------------------------
  // handleDrop
  // ---------------------------------------------------------------------------

  /** Where the element at index i of MoveTo(s, from, to) came from in s. */
  function MoveSource(from: nat, to: nat, i: nat): nat {
    if i == to then from
    else if from < to && from <= i < to then i + 1
    else if to < from && to < i <= from then i - 1
    else i
  }

  /** Distinct positions of the result come from distinct positions of s. */
  lemma MoveSourceInjective(from: nat, to: nat, i: nat, j: nat)
    requires i != j
    ensures MoveSource(from, to, i) != MoveSource(from, to, j)
  {
  }

  /** s with the element at `from` taken out and then inserted so that it sits at
      index `to`: with index `to` of the result and index `from` of s left out,
      both read the same. */
  function MoveTo<T>(s: seq<T>, from: nat, to: nat): (r: seq<T>)
    requires from < |s| && to < |s|
    ensures |r| == |s| && r[to] == s[from]
    ensures r[..to] + r[to + 1..] == s[..from] + s[from + 1..]
  {
    var rest := s[..from] + s[from + 1..];
    var r := rest[..to] + [s[from]] + rest[to..];
    assert r[..to] == rest[..to];
    assert r[to + 1..] == rest[to..];
    r
  }

  /** Moving one element is a permutation. */
  lemma MoveToPermutes<T>(s: seq<T>, from: nat, to: nat)
    requires from < |s| && to < |s|
    ensures multiset(MoveTo(s, from, to)) == multiset(s)
  {
    var r := MoveTo(s, from, to);
    assert r == r[..to] + [r[to]] + r[to + 1..];
    assert s == s[..from] + [s[from]] + s[from + 1..];
    calc {
      multiset(r);
      multiset(r[..to] + r[to + 1..]) + multiset{s[from]};
      multiset(s[..from] + s[from + 1..]) + multiset{s[from]};
      multiset(s);
    }
  }

  /** Element by element: index i of the result holds index MoveSource(from, to, i)
      of s; the elements between the two indices shift by one towards `from`. */
  lemma MoveToSource<T>(s: seq<T>, from: nat, to: nat, i: nat)
    requires from < |s| && to < |s| && i < |s|
    ensures MoveSource(from, to, i) < |s| && MoveTo(s, from, to)[i] == s[MoveSource(from, to, i)]
  {
    var r := MoveTo(s, from, to);
    var rest := s[..from] + s[from + 1..];
    if i != to {
      var j := if i < to then i else i - 1;
      assert r[i] == (r[..to] + r[to + 1..])[j];
      assert r[i] == rest[j];
      assert rest[j] == if j < from then s[j] else s[j + 1];
    }
  }

  /** Moving one todo keeps the ids pairwise distinct. */
  lemma MoveToKeepsUniqueIds(s: seq<Todo>, from: nat, to: nat)
    requires from < |s| && to < |s| && UniqueIds(s)
    ensures UniqueIds(MoveTo(s, from, to))
  {
    var r := MoveTo(s, from, to);
    forall i, j | 0 <= i < |r| && 0 <= j < |r| && i != j ensures r[i].id != r[j].id {
      MoveToSource(s, from, to, i);
      MoveToSource(s, from, to, j);
      MoveSourceInjective(from, to, i, j);
    }
  }

  /** The index handleDrop removes the dragged todo from: its index when present;
      when absent, findIndex gives -1 and splice(-1, 1) takes the last todo. */
  function DragIndex(todos: seq<Todo>, draggedId: string): (k: nat)
    requires |todos| > 0
    ensures k < |todos|
    ensures HasId(todos, draggedId) ==> k == IndexOf(todos, draggedId)
    ensures !HasId(todos, draggedId) ==> k == |todos| - 1
  {
    RelativeIndex(IndexOf(todos, draggedId), |todos|)
  }

  /** handleDrop's reorder as written: the indices of the dragged and the target
      todo are both taken from the list before the dragged todo is removed, and
      the dragged todo is then inserted at the target's original index. */
  function Reorder(todos: seq<Todo>, draggedId: string, targetId: string): (r: seq<Todo>)
    requires HasId(todos, targetId)
    ensures |r| == |todos|
    ensures draggedId == targetId ==> r == todos
  {
    if draggedId == targetId then todos
    else MoveTo(todos, DragIndex(todos, draggedId), IndexOf(todos, targetId))
  }

  /** The reorder is a permutation of the list, whatever the ids. */
  lemma ReorderPermutes(todos: seq<Todo>, draggedId: string, targetId: string)
    requires HasId(todos, targetId)
    ensures multiset(Reorder(todos, draggedId, targetId)) == multiset(todos)
  {
    if draggedId != targetId {
      MoveToPermutes(todos, DragIndex(todos, draggedId), IndexOf(todos, targetId));
    }
  }

  /** With both ids present and distinct, the dragged todo lands at the target's
      original index, and with it taken out the list reads as the original with
      the dragged todo taken out. */
  lemma ReorderPlacesDragged(todos: seq<Todo>, draggedId: string, targetId: string)
    requires HasId(todos, draggedId) && HasId(todos, targetId) && draggedId != targetId
    ensures var d, t, r := IndexOf(todos, draggedId), IndexOf(todos, targetId), Reorder(todos, draggedId, targetId);
      0 <= d && 0 <= t && r[t] == todos[d] && r[..t] + r[t + 1..] == todos[..d] + todos[d + 1..]
  {
  }

  /** Which side of the target the dragged todo ends on: dragging downwards
      leaves it just after the target, dragging upwards just before it. */
  lemma ReorderSide(todos: seq<Todo>, draggedId: string, targetId: string)
    requires HasId(todos, draggedId) && HasId(todos, targetId) && draggedId != targetId
    ensures var d, t, r := IndexOf(todos, draggedId), IndexOf(todos, targetId), Reorder(todos, draggedId, targetId);
      0 <= d && 0 <= t &&
      (d < t ==> r[t - 1] == todos[t] && r[t] == todos[d]) &&
      (t < d ==> r[t + 1] == todos[t] && r[t] == todos[d])
  {
    var d, t := IndexOf(todos, draggedId), IndexOf(todos, targetId);
    assert Reorder(todos, draggedId, targetId) == MoveTo(todos, d, t);
    MoveToSide(todos, d, t);
  }

  /** Moving down leaves the element that was at `to` just before the moved one;
      moving up leaves it just after. */
  lemma MoveToSide<T>(s: seq<T>, from: nat, to: nat)
    requires from < |s| && to < |s|
    ensures from < to ==> MoveTo(s, from, to)[to - 1] == s[to]
    ensures to < from ==> MoveTo(s, from, to)[to + 1] == s[to]
  {
    if from < to {
      MoveToSource(s, from, to, to - 1);
    } else if to < from {
      MoveToSource(s, from, to, to + 1);
    }
  }

  /** Moving the element back from `to` to `from` restores the sequence. */
  lemma MoveToUndo<T>(s: seq<T>, from: nat, to: nat)
    requires from < |s| && to < |s|
    ensures MoveTo(MoveTo(s, from, to), to, from) == s
  {
    var r := MoveTo(s, from, to);
    EqualWithoutIndex(MoveTo(r, to, from), s, from);
  }

  /** A drag can be undone: with distinct ids, dragging the moved todo back onto
      the todo that now sits at its old index restores the list. */
  lemma ReorderUndo(todos: seq<Todo>, draggedId: string, targetId: string)
    requires UniqueIds(todos) && HasId(todos, draggedId) && HasId(todos, targetId) && draggedId != targetId
    ensures var d, r := IndexOf(todos, draggedId), Reorder(todos, draggedId, targetId);
      0 <= d && HasId(r, r[d].id) && Reorder(r, draggedId, r[d].id) == todos
  {
    var d, t := IndexOf(todos, draggedId), IndexOf(todos, targetId);
    var r := Reorder(todos, draggedId, targetId);
    assert r == MoveTo(todos, d, t);
    ReorderKeepsUniqueIds(todos, draggedId, targetId);
    IndexOfUnique(r, draggedId, t);
    IndexOfUnique(r, r[d].id, d);
    assert r[d].id != draggedId;
    MoveToUndo(todos, d, t);
  }

  /** An absent dragged id moves the last todo to the target's index. */
  lemma ReorderAbsentDraggedMovesLast(todos: seq<Todo>, draggedId: string, targetId: string)
    requires HasId(todos, targetId) && !HasId(todos, draggedId)
    ensures var t, r := IndexOf(todos, targetId), Reorder(todos, draggedId, targetId);
      0 <= t && r[t] == todos[|todos| - 1] &&
      r[..t] + r[t + 1..] == todos[..|todos| - 1]
  {
    assert draggedId != targetId;
    assert todos[..|todos| - 1] + todos[|todos|..] == todos[..|todos| - 1];
  }

  /** The reorder keeps the ids pairwise distinct. */
  lemma ReorderKeepsUniqueIds(todos: seq<Todo>, draggedId: string, targetId: string)
    requires UniqueIds(todos) && HasId(todos, targetId)
    ensures UniqueIds(Reorder(todos, draggedId, targetId))
  {
    if draggedId != targetId {
      MoveToKeepsUniqueIds(todos, DragIndex(todos, draggedId), IndexOf(todos, targetId));
    }
  }

  /** The two splices of handleDrop compute Reorder: splice(draggedIndex, 1)
      takes out exactly one todo, and splice(targetIndex, 0, item) puts it back
      at the target's original index. */
  lemma SplicesReorder(todos: seq<Todo>, draggedId: string, targetId: string)
    requires HasId(todos, targetId) && draggedId != targetId
    ensures var cut := Splice(todos, IndexOf(todos, draggedId), 1, []);
      |cut.removed| == 1 &&
      Splice(cut.after, IndexOf(todos, targetId), 0, [cut.removed[0]]).after == Reorder(todos, draggedId, targetId)
  {
    SplicesMove(todos, IndexOf(todos, draggedId), IndexOf(todos, targetId));
  }

  /** Removing the element at a findIndex result with splice(start, 1) and
      inserting it with splice(to, 0, x) moves it to index `to`. */
  lemma SplicesMove<T>(s: seq<T>, start: int, to: nat)
    requires -1 <= start < |s| && to < |s|
    ensures var cut := Splice(s, start, 1, []);
      |cut.removed| == 1 &&
      Splice(cut.after, to, 0, [cut.removed[0]]).after == MoveTo(s, RelativeIndex(start, |s|), to)
  {
    var d := RelativeIndex(start, |s|);
    SpliceRemovesOne(s, start);
    var cut := Splice(s, start, 1, []);
    SpliceInsertsOne(cut.after, to, s[d]);
    EqualWithoutIndex(Splice(cut.after, to, 0, [s[d]]).after, MoveTo(s, d, to), to);
  }

  /** Two sequences of one length that agree at k and agree once index k is
      taken out of both are equal. */
  lemma EqualWithoutIndex<T>(a: seq<T>, b: seq<T>, k: nat)
    requires |a| == |b| && k < |a| && a[k] == b[k]
    requires a[..k] + a[k + 1..] == b[..k] + b[k + 1..]
    ensures a == b
  {
    forall i | 0 <= i < |a| ensures a[i] == b[i] {
      if i < k {
        assert a[i] == (a[..k] + a[k + 1..])[i];
        assert b[i] == (b[..k] + b[k + 1..])[i];
      } else if i > k {
        assert a[i] == (a[..k] + a[k + 1..])[i - 1];
        assert b[i] == (b[..k] + b[k + 1..])[i - 1];
      }
    }
  }
}
