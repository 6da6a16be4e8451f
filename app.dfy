/** The state of the to-do component (its useState cells) and the handlers that
    change it, each one an atomic transition.  The two effects that write to
    storage after a change are folded into the handlers: the ghost fields hold
    what storage holds, and Valid() says they match the state. */
module TodoApp {
  import opened Js
  import opened Todos
  import Theme

  class App {
    var todos: seq<Todo>
    var filter: string
    var editingId: Option<string>
    var taskInput: string
    var dueDateInput: string
    var priorityInput: string
    var isDarkMode: bool

    /** The values stored under 'todoapp-tasks-v1' and 'todoapp-theme'. */
    ghost var savedTodos: seq<Todo>
    ghost var savedTheme: string

    /** Ids are distinct, and storage mirrors the list and the theme. */
    ghost predicate Valid()
      reads this
    {
      UniqueIds(todos) && savedTodos == todos && savedTheme == Theme.ThemeName(isDarkMode)
    }

    /** The component's first render: an empty list (reading saved todos back is
        not modelled), filter 'all', nothing being edited, empty inputs, and the
        theme chosen from storage and the host's preference. */
    constructor (storedTheme: Option<string>, prefersDark: bool)
      ensures Valid()
      ensures todos == [] && filter == "all" && editingId == None
      ensures taskInput == "" && dueDateInput == "" && priorityInput == ""
      ensures isDarkMode == Theme.InitialDark(storedTheme, prefersDark)
    {
      todos, filter, editingId := [], "all", None;
      taskInput, dueDateInput, priorityInput := "", "", "";
      var dark := Theme.InitialDark(storedTheme, prefersDark);
      isDarkMode := dark;
      savedTodos := [];
      savedTheme := Theme.ThemeName(dark);
    }

    /** setTodos together with the effect that follows it: the list is replaced
        and storage is written with the new list. */
    method SetTodos(newTodos: seq<Todo>)
      requires Valid() && UniqueIds(newTodos)
      modifies this`todos, this`savedTodos
      ensures Valid() && todos == newTodos
    {
      todos, savedTodos := newTodos, newTodos;
    }

    /** addTodo.  newId is the id the source draws from the clock and a random
        number; it is assumed fresh. */
    method AddTodo(newId: string)
      requires Valid() && !HasId(todos, newId)
      modifies this
      ensures Valid()
      ensures filter == old(filter) && isDarkMode == old(isDarkMode)
      // a blank task text is rejected and nothing changes
      ensures Blank(old(taskInput)) ==>
        todos == old(todos) && editingId == old(editingId) && taskInput == old(taskInput) &&
        dueDateInput == old(dueDateInput) && priorityInput == old(priorityInput)
      // editing: the todo with the edited id is rewritten in place
      ensures !Blank(old(taskInput)) && Truthy(old(editingId)) ==>
        todos == EditTodos(old(todos), old(editingId).value, Trim(old(taskInput)), old(dueDateInput), old(priorityInput)) &&
        editingId == None
      // adding: a new open todo goes to the front
      ensures !Blank(old(taskInput)) && !Truthy(old(editingId)) ==>
        todos == [NewTodo(newId, Trim(old(taskInput)), old(dueDateInput), old(priorityInput))] + old(todos) &&
        editingId == old(editingId)
      ensures !Blank(old(taskInput)) ==> taskInput == "" && dueDateInput == "" && priorityInput == ""
    {
      var text := Trim(taskInput);
      if text == "" {
        return;
      }
      if Truthy(editingId) {
        EditKeepsUniqueIds(todos, editingId.value, text, dueDateInput, priorityInput);
        SetTodos(EditTodos(todos, editingId.value, text, dueDateInput, priorityInput));
        editingId := None;
      } else {
        var t := NewTodo(newId, text, dueDateInput, priorityInput);
        PrependKeepsUniqueIds(todos, t);
        SetTodos([t] + todos);
      }
      taskInput := "";
      dueDateInput := "";
      priorityInput := "";
    }

    /** toggleComplete. */
    method ToggleComplete(id: string)
      requires Valid()
      modifies this
      ensures Valid()
      ensures todos == ToggleTodos(old(todos), id)
      ensures filter == old(filter) && editingId == old(editingId) && isDarkMode == old(isDarkMode)
      ensures taskInput == old(taskInput) && dueDateInput == old(dueDateInput) && priorityInput == old(priorityInput)
    {
      ToggleKeepsUniqueIds(todos, id);
      SetTodos(ToggleTodos(todos, id));
    }

    /** deleteTodo. */
    method DeleteTodo(id: string)
      requires Valid()
      modifies this
      ensures Valid()
      ensures todos == DeleteTodos(old(todos), id)
      ensures filter == old(filter) && editingId == old(editingId) && isDarkMode == old(isDarkMode)
      ensures taskInput == old(taskInput) && dueDateInput == old(dueDateInput) && priorityInput == old(priorityInput)
    {
      DeleteKeepsUniqueIds(todos, id);
      SetTodos(DeleteTodos(todos, id));
    }

    /** startEdit: load a todo into the form; a missing due date or priority
        loads as ''. */
    method StartEdit(todo: Todo)
      requires Valid()
      modifies this
      ensures Valid()
      ensures editingId == Some(todo.id) && taskInput == todo.text
      ensures dueDateInput == OrEmpty(todo.dueDate) && priorityInput == OrEmpty(todo.priority)
      ensures todos == old(todos) && filter == old(filter) && isDarkMode == old(isDarkMode)
    {
      editingId := Some(todo.id);
      taskInput := todo.text;
      dueDateInput := OrEmpty(todo.dueDate);
      priorityInput := OrEmpty(todo.priority);
    }

    /** handleDrop, once the dragged id has been read from the drag event.  The
        target is the todo the item was dropped on, so its id is in the list;
        the dragged id comes from the event and may not be. */
    method HandleDrop(draggedId: string, targetId: string)
      requires Valid() && HasId(todos, targetId)
      modifies this
      ensures Valid()
      ensures todos == Reorder(old(todos), draggedId, targetId)
      ensures filter == old(filter) && editingId == old(editingId) && isDarkMode == old(isDarkMode)
      ensures taskInput == old(taskInput) && dueDateInput == old(dueDateInput) && priorityInput == old(priorityInput)
    {
      if draggedId != targetId {
        var newTodos := DropReorder(todos, draggedId, targetId);
        ReorderKeepsUniqueIds(todos, draggedId, targetId);
        SetTodos(newTodos);
      }
    }

    /** filteredTodos: the list shown under the current filter. */
    method FilteredTodos() returns (shown: seq<Todo>)
      ensures shown == Todos.FilteredTodos(todos, filter)
    {
      shown := Todos.FilteredTodos(todos, filter);
    }

    /** The filter buttons. */
    method SetFilter(f: string)
      requires Valid()
      modifies this`filter
      ensures Valid() && filter == f
    {
      filter := f;
    }

    /** The text, due-date and priority inputs of the form. */
    method SetInputs(text: string, dueDate: string, priority: string)
      requires Valid()
      modifies this`taskInput, this`dueDateInput, this`priorityInput
      ensures Valid()
      ensures taskInput == text && dueDateInput == dueDate && priorityInput == priority
    {
      taskInput, dueDateInput, priorityInput := text, dueDate, priority;
    }

    /** The light/dark toggle; the new theme is stored. */
    method ToggleDarkMode()
      requires Valid()
      modifies this
      ensures Valid()
      ensures isDarkMode == !old(isDarkMode)
      ensures todos == old(todos) && filter == old(filter) && editingId == old(editingId)
      ensures taskInput == old(taskInput) && dueDateInput == old(dueDateInput) && priorityInput == old(priorityInput)
    {
      isDarkMode := !isDarkMode;
      savedTheme := Theme.ThemeName(isDarkMode);
    }
  }

  /** The list work of handleDrop: find both indices in the current list, copy
      it, splice the dragged todo out and splice it back in at the target's
      index.  The result is Reorder. */
  method DropReorder(todos: seq<Todo>, draggedId: string, targetId: string) returns (newTodos: seq<Todo>)
    requires HasId(todos, targetId) && draggedId != targetId
    ensures newTodos == Reorder(todos, draggedId, targetId)
  {
    var draggedIndex := IndexOf(todos, draggedId);
    var targetIndex := IndexOf(todos, targetId);
    SplicesReorder(todos, draggedId, targetId);
    newTodos := todos;
    var cut := Splice(newTodos, draggedIndex, 1, []);
    newTodos := cut.after;
    var draggedItem := cut.removed[0];
    newTodos := Splice(newTodos, targetIndex, 0, [draggedItem]).after;
  }
}
