/**
 * The todo record and the pure definitions the commands are specified by:
 * the largest stored ID and the ID a new record gets, the first record with a
 * given ID, the store with every record of an ID removed, and ordering by due
 * date. The lemmas relate these definitions to one another: what a lookup
 * finds after a create, a delete or a status update.
 */
module Todos {
  import opened Wrappers
  import opened Strconv

  /** Go's `TodoStatus` is a named string type; a stored file may hold any text in it. */
  type TodoStatus = string

  const Pending: TodoStatus := "pending"
  const InProgress: TodoStatus := "in-progress"
  const Completed: TodoStatus := "completed"

  /** The three status values the update command accepts, compared case-sensitively. */
  predicate IsTodoStatus(text: string) {
    text == Pending || text == InProgress || text == Completed
  }

  /** A point in time, in nanoseconds. */
  type Timestamp = int

  /** `24 * time.Hour`, in nanoseconds. */
  const Day: int := 24 * 60 * 60 * 1_000_000_000

  datatype Todo = Todo(id: Int64, title: string, dueDate: Timestamp, status: TodoStatus)

  /** What a command reports; `Ok` stands for each command's own success message or output. */
  datatype Outcome = NoTodos | InvalidId | InvalidStatus | NotFound | Ok

  /**
   * The records a command works on: the decoded file, or nothing when the
   * file is absent or unreadable.
   */
  function Loaded(stored: Option<seq<Todo>>): (s: seq<Todo>) {
    if stored.Some? then stored.value else []
  }

  /** The file exists and holds at least one record; every command but create checks this first. */
  predicate HasTodos(stored: Option<seq<Todo>>) {
    stored.Some? && |stored.value| > 0
  }

  predicate UniqueIds(s: seq<Todo>) {
    forall i, j :: 0 <= i < j < |s| ==> s[i].id != s[j].id
  }

  // ---------------------------------------------------------------- IDs

  /** The largest ID in the store, or 0 when none is larger (in particular for an empty store). */
  function MaxId(s: seq<Todo>): (m: Int64)
    ensures 0 <= m
    ensures forall k :: 0 <= k < |s| ==> s[k].id <= m
    ensures m == 0 || exists k :: 0 <= k < |s| && s[k].id == m
  {
    if |s| == 0 then 0
    else
      var m := MaxId(s[..|s| - 1]);
      assert forall k :: 0 <= k < |s| - 1 ==> s[..|s| - 1][k] == s[k];
      if s[|s| - 1].id > m then s[|s| - 1].id else m
  }

  /**
   * The ID a new record gets: the larger of 0 and the largest ID, plus one in
   * 64-bit arithmetic.
   * Below the top of the range it exceeds every stored ID; at the top it wraps.
   */
  function NextId(s: seq<Todo>): (n: Int64)
    ensures MaxId(s) < MaxInt64 ==> 1 <= n && forall k :: 0 <= k < |s| ==> s[k].id < n
    ensures |s| == 0 ==> n == 1
    ensures MaxId(s) == MaxInt64 ==> n == MinInt64
  {
    Wrap64(MaxId(s) + 1)
  }

  /** A record given the next ID keeps the IDs of the store distinct. */
  lemma CreateKeepsIdsUnique(s: seq<Todo>, t: Todo)
    requires UniqueIds(s) && MaxId(s) < MaxInt64 && t.id == NextId(s)
    ensures UniqueIds(s + [t])
  {
  }

  /**
   * IDs can be reused: the new ID is the larger of 0 and the largest remaining
   * ID, plus one, so it can be an ID used before. With IDs 1 and 2, deleting 2
   * makes the next create get 2 again; with IDs 1 and 3 (a gap where 2 was
   * deleted), deleting 3 makes the next create get 2, not 3.
   */
  lemma IdReusedAfterDelete(a: Todo, b: Todo, c: Todo)
    requires a.id == 1 && b.id == 2 && c.id == 3
    ensures NextId([a, b]) == 3
    ensures NextId(Without([a, b], 2)) == 2
    ensures NextId([a, c]) == 4
    ensures NextId(Without([a, c], 3)) == 2
  {
  }

  /** At the top of the 64-bit range the next ID wraps to the most negative value. */
  lemma NextIdWrapsAtTop(t: Todo)
    requires t.id == MaxInt64
    ensures NextId([t]) == MinInt64
  {
  }

  // ---------------------------------------------------------------- lookup

  /** The position of the first record with ID `id`, if there is one. */
  function FirstIndex(s: seq<Todo>, id: int): (r: Option<nat>)
    ensures r.Some? ==> r.value < |s| && s[r.value].id == id
    ensures r.Some? ==> forall k :: 0 <= k < r.value ==> s[k].id != id
    ensures r.None? ==> forall k :: 0 <= k < |s| ==> s[k].id != id
  {
    if |s| == 0 then None
    else if s[0].id == id then Some(0)
    else
      match FirstIndex(s[1..], id)
      case None => None
      case Some(k) => Some(k + 1)
  }

  /** The record a create appends is the one a lookup of its ID finds. */
  lemma LookupAfterCreate(s: seq<Todo>, t: Todo)
    requires MaxId(s) < MaxInt64 && t.id == NextId(s)
    ensures FirstIndex(s + [t], t.id) == Some(|s|)
  {
    var s' := s + [t];
    forall k | 0 <= k < |s| ensures s'[k].id != t.id {
      assert s'[k] == s[k];
    }
    assert s'[|s|] == t;
  }

  // ---------------------------------------------------------------- delete

  /** The store with every record of ID `id` dropped, the others kept in order. */
  function Without(s: seq<Todo>, id: int): (r: seq<Todo>)
    ensures |r| <= |s|
  {
    if |s| == 0 then []
    else
      var last := s[|s| - 1];
      Without(s[..|s| - 1], id) + (if last.id == id then [] else [last])
  }

  /** The kept records are exactly the stored records whose ID differs. */
  lemma {:induction false} WithoutMembers(s: seq<Todo>, id: int)
    ensures forall t :: t in Without(s, id) <==> t in s && t.id != id
  {
    if |s| > 0 {
      WithoutMembers(s[..|s| - 1], id);
      assert s == s[..|s| - 1] + [s[|s| - 1]];
    }
  }

  /** Appending one record keeps it exactly when its ID differs. */
  lemma WithoutSnoc(p: seq<Todo>, x: Todo, id: int)
    ensures Without(p + [x], id) == Without(p, id) + (if x.id == id then [] else [x])
  {
  }

  /** Filtering distributes over concatenation, so the kept records stay in their order. */
  lemma {:induction false} WithoutAppend(a: seq<Todo>, b: seq<Todo>, id: int)
    ensures Without(a + b, id) == Without(a, id) + Without(b, id)
  {
    if |b| == 0 {
      assert a + b == a;
    } else {
      var b' := b[..|b| - 1];
      assert (a + b)[..|a + b| - 1] == a + b';
      WithoutAppend(a, b', id);
    }
  }

  /** With no record of that ID, nothing is dropped. */
  lemma {:induction false} WithoutNoMatch(s: seq<Todo>, id: int)
    requires forall k :: 0 <= k < |s| ==> s[k].id != id
    ensures Without(s, id) == s
  {
    if |s| > 0 {
      WithoutNoMatch(s[..|s| - 1], id);
      assert s == s[..|s| - 1] + [s[|s| - 1]];
    }
  }

  /** After a delete, no record of the deleted ID is left for a lookup to find. */
  lemma LookupAfterDelete(s: seq<Todo>, id: int)
    ensures FirstIndex(Without(s, id), id).None?
  {
  }

  /** With distinct IDs, a delete that matches removes exactly the one matching record. */
  lemma DeleteRemovesOne(s: seq<Todo>, id: int)
    requires UniqueIds(s) && FirstIndex(s, id).Some?
    ensures var i := FirstIndex(s, id).value; Without(s, id) == s[..i] + s[i + 1..]
    ensures |Without(s, id)| == |s| - 1
  {
    var i := FirstIndex(s, id).value;
    var p, x, q := s[..i], s[i], s[i + 1..];
    forall k | 0 <= k < |q| ensures q[k].id != id {
      assert q[k] == s[i + 1 + k];
    }
    WithoutAroundOne(p, x, q, id);
    assert s == p + [x] + q;
  }

  /** The step of DeleteRemovesOne: only the middle record has the ID. */
  lemma WithoutAroundOne(p: seq<Todo>, x: Todo, q: seq<Todo>, id: int)
    requires x.id == id
    requires forall k :: 0 <= k < |p| ==> p[k].id != id
    requires forall k :: 0 <= k < |q| ==> q[k].id != id
    ensures Without(p + [x] + q, id) == p + q
  {
    assert Without(p + [x], id) == p by {
      WithoutAppend(p, [x], id);
      WithoutNoMatch(p, id);
      assert [x][..0] == [];
      assert Without([x], id) == [];
      assert p + [] == p;
    }
    assert Without(q, id) == q by { WithoutNoMatch(q, id); }
    WithoutAppend(p + [x], q, id);
  }

  /** A delete keeps the IDs of the store distinct. */
  lemma {:induction false} DeleteKeepsIdsUnique(s: seq<Todo>, id: int)
    requires UniqueIds(s)
    ensures UniqueIds(Without(s, id))
  {
    if |s| > 0 {
      var p, last := s[..|s| - 1], s[|s| - 1];
      DeleteKeepsIdsUnique(p, id);
      var w := Without(p, id);
      WithoutMembers(p, id);
      forall t | t in w ensures t.id != last.id {
        var k :| 0 <= k < |p| && p[k] == t;
        assert s[k] == t;
      }
      if last.id != id {
        var r := w + [last];
        forall i, j | 0 <= i < j < |r| ensures r[i].id != r[j].id {
          assert r[i] == w[i] && r[i] in w;
          if j < |w| {
            assert r[j] == w[j];
          }
        }
      }
    }
  }

  // ---------------------------------------------------------------- update

  /**
   * After the first record of an ID gets a new status, a lookup of that ID
   * finds the same position with the new status, and the IDs stay distinct.
   */
  lemma LookupAfterUpdate(s: seq<Todo>, id: int, st: TodoStatus)
    requires FirstIndex(s, id).Some?
    ensures var i := FirstIndex(s, id).value;
            var s' := s[i := s[i].(status := st)];
            FirstIndex(s', id) == Some(i) && s'[i].status == st &&
            (UniqueIds(s) ==> UniqueIds(s'))
  {
  }

  // ---------------------------------------------------------------- view

  /** Non-decreasing by due date; records with equal due dates may be in any order. */
  predicate SortedByDue(s: seq<Todo>) {
    forall i, j :: 0 <= i < j < |s| ==> s[i].dueDate <= s[j].dueDate
  }
}
