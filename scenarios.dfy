/**
 * Two commands run one after the other on the same file: the second reads
 * what the first wrote, or the unchanged file when the first wrote nothing.
 * Each method states what the second command reports.
 */
module TodoScenarios {
  import opened Wrappers
  import opened Strconv
  import opened Todos
  import opened TodoCommands

  /** A record just created is found by its ID, spelled in decimal. */
  method CreateThenGet(stored: Option<seq<Todo>>, title: string, due: string, now: Timestamp,
                       rfc3339: string -> Option<Timestamp>, dateOnly: string -> Option<Timestamp>)
    returns (written: seq<Todo>, o: Outcome, shown: Option<Todo>)
    requires MaxId(Loaded(stored)) < MaxInt64
    ensures |written| == |Loaded(stored)| + 1
    ensures o == Ok && shown == Some(written[|written| - 1])
    ensures shown.value.id == MaxId(Loaded(stored)) + 1 && shown.value.status == Pending
  {
    written := CreateTodo(stored, title, due, now, rfc3339, dateOnly);
    var s := Loaded(stored);
    var t := written[|written| - 1];
    assert written == s + [t];
    LookupAfterCreate(s, t);
    AtoiItoa(t.id);
    o, shown := ViewTodoByID(Some(written), Itoa(t.id));
  }

  /**
   * After a successful delete, a lookup of the same ID text finds nothing:
   * it reports not found, or no todos at all when the delete emptied the file.
   */
  method DeleteThenGet(stored: Option<seq<Todo>>, todoId: string)
    returns (deleted: Outcome, written: Option<seq<Todo>>, o: Outcome, shown: Option<Todo>)
    ensures deleted == Ok ==> written.Some?
    ensures deleted == Ok ==> o == (if |written.value| == 0 then NoTodos else NotFound)
    ensures deleted == Ok ==> shown == None
  {
    deleted, written := DeleteTodo(stored, todoId);
    if deleted == Ok {
      LookupAfterDelete(stored.value, Atoi(todoId).value);
    }
    o, shown := ViewTodoByID(if written.Some? then written else stored, todoId);
  }

  /** After a successful status update, a lookup of the same ID shows the new status. */
  method UpdateThenGet(stored: Option<seq<Todo>>, todoId: string, status: string)
    returns (updated: Outcome, written: Option<seq<Todo>>, o: Outcome, shown: Option<Todo>)
    ensures updated == Ok ==> HasTodos(stored) && Atoi(todoId).Some? && written.Some?
    ensures updated == Ok ==> IsTodoStatus(status)
    ensures updated == Ok ==> o == Ok && shown.Some? && shown.value.status == status
    ensures updated == Ok ==> shown.value.id == Atoi(todoId).value
    ensures updated == Ok && UniqueIds(stored.value) ==> UniqueIds(written.value)
  {
    updated, written := UpdateTodoStatus(stored, todoId, status);
    if updated == Ok {
      var s, id := stored.value, Atoi(todoId).value;
      var i := FirstIndex(s, id).value;
      assert written.value == s[i := s[i].(status := status)];
      LookupAfterUpdate(s, id, status);
    }
    o, shown := ViewTodoByID(if written.Some? then written else stored, todoId);
  }
}
