/**
 * The five todo commands. Each one takes the file as it was read (`None`
 * when it is absent or unreadable) and returns what it reports and, for the
 * commands that rewrite the file, the records it would write. Clock readings
 * and the two `time.Parse` layouts are parameters.
 */
module TodoCommands {
  import opened Wrappers
  import opened Strconv
  import opened Todos

  /**
   * Create: the new record gets the larger of 0 and the largest stored ID,
   * plus one in 64-bit arithmetic, the resolved due date and status
   * `pending`, and is appended to the stored records. The file is always
   * written.
   */
  method CreateTodo(stored: Option<seq<Todo>>, title: string, due: string, now: Timestamp,
                    rfc3339: string -> Option<Timestamp>, dateOnly: string -> Option<Timestamp>)
    returns (written: seq<Todo>)
    ensures |written| == |Loaded(stored)| + 1
    ensures written[..|written| - 1] == Loaded(stored)
    ensures written[|written| - 1].id == NextId(Loaded(stored))
    ensures written[|written| - 1].title == title
    ensures written[|written| - 1].status == Pending
    ensures due == "" ==> written[|written| - 1].dueDate == now + Day
    ensures due != "" && rfc3339(due).Some? ==> written[|written| - 1].dueDate == rfc3339(due).value
    ensures due != "" && rfc3339(due).None? && dateOnly(due).Some? ==>
              written[|written| - 1].dueDate == dateOnly(due).value
    ensures due != "" && rfc3339(due).None? && dateOnly(due).None? ==>
              written[|written| - 1].dueDate == now + Day
  {
    var todos := Loaded(stored);

    var maxId: Int64 := 0;
    for i := 0 to |todos|
      invariant maxId == MaxId(todos[..i])
    {
      assert todos[..i + 1][..i] == todos[..i];
      if todos[i].id > maxId {
        maxId := todos[i].id;
      }
    }
    assert todos[..|todos|] == todos;

    var dueDate: Timestamp;
    if due != "" {
      match rfc3339(due)
      case Some(t) =>
        dueDate := t;
      case None =>
        match dateOnly(due)
        case Some(t) =>
          dueDate := t;
        case None =>
          dueDate := now + Day;
    } else {
      dueDate := now + Day;
    }

    var todo := Todo(Wrap64(maxId + 1), title, dueDate, Pending);
    todos := todos + [todo];
    written := todos;
  }

  /**
   * Sorts by due date in place, standing for `sort.Slice` with the `Before`
   * comparison: the result is ordered and a permutation of the input.
   */
  method SortByDueDate(a: array<Todo>)
    modifies a
    ensures SortedByDue(a[..])
    ensures multiset(a[..]) == old(multiset(a[..]))
  {
    var i := 0;
    while i < a.Length
      invariant 0 <= i <= a.Length
      invariant forall k, l :: 0 <= k < l < i ==> a[k].dueDate <= a[l].dueDate
      invariant multiset(a[..]) == old(multiset(a[..]))
    {
      InsertIntoSorted(a, i);
      i := i + 1;
    }
  }

  /** Moves `a[i]` down into the sorted prefix `a[..i]`, leaving `a[..i + 1]` sorted. */
  method InsertIntoSorted(a: array<Todo>, i: nat)
    requires i < a.Length
    requires forall k, l :: 0 <= k < l < i ==> a[k].dueDate <= a[l].dueDate
    modifies a
    ensures forall k, l :: 0 <= k < l <= i ==> a[k].dueDate <= a[l].dueDate
    ensures multiset(a[..]) == old(multiset(a[..]))
  {
    var j := i;
    while j > 0 && a[j].dueDate < a[j - 1].dueDate
      invariant 0 <= j <= i
      invariant forall k, l :: 0 <= k < l <= i && k != j && l != j ==> a[k].dueDate <= a[l].dueDate
      invariant forall l :: j < l <= i ==> a[j].dueDate <= a[l].dueDate
      invariant multiset(a[..]) == old(multiset(a[..]))
    {
      SwapDown(a, j);
      j := j - 1;
    }
  }

  /** Exchanges `a[j - 1]` and `a[j]`. */
  method SwapDown(a: array<Todo>, j: nat)
    requires 0 < j < a.Length
    modifies a
    ensures a[j - 1] == old(a[j]) && a[j] == old(a[j - 1])
    ensures forall k :: 0 <= k < a.Length && k != j - 1 && k != j ==> a[k] == old(a[k])
    ensures multiset(a[..]) == old(multiset(a[..]))
  {
    a[j - 1], a[j] := a[j], a[j - 1];
  }

  /**
   * View: an absent or empty store reports that there are no todos;
   * otherwise the stored records are shown ordered by due date. Nothing is
   * written back.
   */
  method ViewTodos(stored: Option<seq<Todo>>) returns (o: Outcome, shown: seq<Todo>)
    ensures !HasTodos(stored) ==> o == NoTodos && shown == []
    ensures HasTodos(stored) ==> o == Ok && SortedByDue(shown) &&
                                 multiset(shown) == multiset(stored.value)
  {
    if stored.None? {
      return NoTodos, [];
    }
    var todos := stored.value;
    if |todos| == 0 {
      return NoTodos, [];
    }
    var a := new Todo[|todos|](k requires 0 <= k < |todos| => todos[k]);
    assert a[..] == todos;
    SortByDueDate(a);
    return Ok, a[..];
  }

  /**
   * Get: an absent or empty store is reported before the ID is parsed; then
   * an ID that is not a 64-bit decimal is invalid; then the first record
   * with that ID is shown, or it is reported not found.
   */
  method ViewTodoByID(stored: Option<seq<Todo>>, todoId: string) returns (o: Outcome, shown: Option<Todo>)
    ensures !HasTodos(stored) ==> o == NoTodos && shown == None
    ensures HasTodos(stored) && Atoi(todoId).None? ==> o == InvalidId && shown == None
    ensures HasTodos(stored) && Atoi(todoId).Some? ==>
              var s, id := stored.value, Atoi(todoId).value;
              if FirstIndex(s, id).None? then o == NotFound && shown == None
              else o == Ok && shown == Some(s[FirstIndex(s, id).value])
  {
    if stored.None? {
      return NoTodos, None;
    }
    var todos := stored.value;
    if |todos| == 0 {
      return NoTodos, None;
    }
    var parsed := Atoi(todoId);
    if parsed.None? {
      return InvalidId, None;
    }
    var id := parsed.value;

    var found := false;
    shown := None;
    var i := 0;
    while i < |todos|
      invariant 0 <= i <= |todos|
      invariant !found && shown == None
      invariant forall k :: 0 <= k < i ==> todos[k].id != id
    {
      if todos[i].id == id {
        shown := Some(todos[i]);
        found := true;
        break;
      }
      i := i + 1;
    }
    if !found {
      return NotFound, None;
    }
    o := Ok;
  }

  /**
   * Delete: the same checks as get, in the same order; then every record
   * with the ID is dropped and the rest are written back in order. With no
   * match it reports not found and writes nothing.
   */
  method DeleteTodo(stored: Option<seq<Todo>>, todoId: string) returns (o: Outcome, written: Option<seq<Todo>>)
    ensures !HasTodos(stored) ==> o == NoTodos && written == None
    ensures HasTodos(stored) && Atoi(todoId).None? ==> o == InvalidId && written == None
    ensures HasTodos(stored) && Atoi(todoId).Some? ==>
              var s, id := stored.value, Atoi(todoId).value;
              if FirstIndex(s, id).None? then o == NotFound && written == None
              else o == Ok && written == Some(Without(s, id))
  {
    if stored.None? {
      return NoTodos, None;
    }
    var todos := stored.value;
    if |todos| == 0 {
      return NoTodos, None;
    }
    var parsed := Atoi(todoId);
    if parsed.None? {
      return InvalidId, None;
    }
    var id := parsed.value;

    var newTodos: seq<Todo> := [];
    var found := false;
    ghost var at: nat := 0;
    for i := 0 to |todos|
      invariant newTodos == Without(todos[..i], id)
      invariant found ==> at < i && todos[at].id == id
      invariant !found ==> forall k :: 0 <= k < i ==> todos[k].id != id
    {
      assert Without(todos[..i + 1], id) ==
             Without(todos[..i], id) + (if todos[i].id == id then [] else [todos[i]]) by {
        assert todos[..i + 1] == todos[..i] + [todos[i]];
        WithoutSnoc(todos[..i], todos[i], id);
      }
      if todos[i].id == id {
        found, at := true, i;
        continue;
      }
      newTodos := newTodos + [todos[i]];
    }
    assert todos[..|todos|] == todos;

    if !found {
      return NotFound, None;
    }
    return Ok, Some(newTodos);
  }

  /**
   * Update status: the same checks as get, then the status text must be one
   * of the three values, before any record is looked at. Only the first
   * record with the ID gets the new status, in place; with no match it
   * reports not found and writes nothing.
   */
  method UpdateTodoStatus(stored: Option<seq<Todo>>, todoId: string, status: string)
    returns (o: Outcome, written: Option<seq<Todo>>)
    ensures !HasTodos(stored) ==> o == NoTodos && written == None
    ensures HasTodos(stored) && Atoi(todoId).None? ==> o == InvalidId && written == None
    ensures HasTodos(stored) && Atoi(todoId).Some? && !IsTodoStatus(status) ==>
              o == InvalidStatus && written == None
    ensures HasTodos(stored) && Atoi(todoId).Some? && IsTodoStatus(status) ==>
              var s, id := stored.value, Atoi(todoId).value;
              if FirstIndex(s, id).None? then o == NotFound && written == None
              else
                var i := FirstIndex(s, id).value;
                o == Ok && written.Some? && |written.value| == |s| &&
                written.value[i] == Todo(s[i].id, s[i].title, s[i].dueDate, status) &&
                forall k :: 0 <= k < |s| && k != i ==> written.value[k] == s[k]
  {
    if stored.None? {
      return NoTodos, None;
    }
    var todos := stored.value;
    if |todos| == 0 {
      return NoTodos, None;
    }
    var parsed := Atoi(todoId);
    if parsed.None? {
      return InvalidId, None;
    }
    var id := parsed.value;

    var newStatus: TodoStatus;
    if status == Pending {
      newStatus := Pending;
    } else if status == InProgress {
      newStatus := InProgress;
    } else if status == Completed {
      newStatus := Completed;
    } else {
      return InvalidStatus, None;
    }

    var a := new Todo[|todos|](k requires 0 <= k < |todos| => todos[k]);
    var found := false;
    var i := 0;
    while i < a.Length
      invariant 0 <= i <= a.Length
      invariant !found && a[..] == todos
      invariant forall k :: 0 <= k < i ==> todos[k].id != id
    {
      if a[i].id == id {
        a[i] := a[i].(status := newStatus);
        found := true;
        break;
      }
      i := i + 1;
    }

    if !found {
      return NotFound, None;
    }
    return Ok, Some(a[..]);
  }
}
