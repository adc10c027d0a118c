/** The todo items and the pure list computations the todo component performs
    on them: the `map` that flips one item's flag, the `filter` that drops an
    item, the completed count and the rounded progress percentage. */
module Todos {

  /** The store's identifier (`_id`), opaque to the client. */
  type Id = string

  /** One item as the store returns it. `userId` is the owner field the
      component writes on creation. */
  datatype Todo = Todo(id: Id, title: string, completed: bool, userId: int)

  datatype Option<T> = None | Some(value: T)

  /** Some item of `todos` carries `id`. */
  predicate HasId(todos: seq<Todo>, id: Id)
  {
    exists k :: 0 <= k < |todos| && todos[k].id == id
  }

  /** No two items of `todos` share an id. */
  predicate UniqueIds(todos: seq<Todo>)
  {
    forall i, j :: 0 <= i < j < |todos| ==> todos[i].id != todos[j].id
  }

  /** How many items of `todos` carry `id`. */
  function CountId(todos: seq<Todo>, id: Id): (n: nat)
    ensures n <= |todos|
    ensures n == 0 <==> !HasId(todos, id)
  {
    if todos == [] then 0
    else
      var n := CountId(todos[1..], id);
      assert forall k :: 0 < k < |todos| ==> todos[k] == todos[1..][k - 1];
      assert HasId(todos[1..], id) ==> HasId(todos, id);
      (if todos[0].id == id then 1 else 0) + n
  }

  // ---------------------------------------------------------------------------
  // Toggling: todos.map(t => t._id === id ? { ...t, completed: !t.completed } : t)

  /** The list after the toggle handler's successful update of `id`: each item
      whose id matches has its own current flag negated. */
  function Toggled(todos: seq<Todo>, id: Id): (r: seq<Todo>)
    ensures |r| == |todos|
  {
    if todos == [] then []
    else
      var t := todos[0];
      [if t.id == id then t.(completed := !t.completed) else t] + Toggled(todos[1..], id)
  }

  /** Position by position, toggling keeps every field but `completed`, and
      negates `completed` exactly where the id matches. */
  lemma {:induction false} ToggledAt(todos: seq<Todo>, id: Id, k: nat)
    requires k < |todos|
    ensures Toggled(todos, id)[k].(completed := todos[k].completed) == todos[k]
    ensures Toggled(todos, id)[k].completed == (todos[k].completed != (todos[k].id == id))
  {
    if k > 0 {
      ToggledAt(todos[1..], id, k - 1);
    }
  }

  /** Toggling the same id twice restores the list. */
  lemma {:induction false} ToggledTwice(todos: seq<Todo>, id: Id)
    ensures Toggled(Toggled(todos, id), id) == todos
  {
    if todos != [] {
      ToggledTwice(todos[1..], id);
    }
  }

  /** Toggling keeps the sequence of ids, so it keeps their uniqueness and
      which ids are present. */
  lemma {:induction false} ToggledKeepsIds(todos: seq<Todo>, id: Id)
    ensures forall k :: 0 <= k < |todos| ==> Toggled(todos, id)[k].id == todos[k].id
    ensures UniqueIds(todos) ==> UniqueIds(Toggled(todos, id))
  {
    forall k | 0 <= k < |todos| ensures Toggled(todos, id)[k].id == todos[k].id {
      ToggledAt(todos, id, k);
    }
  }

  // ---------------------------------------------------------------------------
  // Deleting: todos.filter(t => t._id !== id)

  /** The list after the delete handler's successful call for `id`. */
  function Removed(todos: seq<Todo>, id: Id): (r: seq<Todo>)
    ensures |r| <= |todos|
    ensures forall t :: t in r <==> t in todos && t.id != id
  {
    if todos == [] then []
    else
      var t := todos[0];
      var rest := Removed(todos[1..], id);
      assert forall u :: u in todos <==> u == t || u in todos[1..];
      if t.id == id then rest else [t] + rest
  }

  /** Removing distributes over concatenation: what remains keeps its
      relative order. */
  lemma {:induction false} RemovedConcat(a: seq<Todo>, b: seq<Todo>, id: Id)
    ensures Removed(a + b, id) == Removed(a, id) + Removed(b, id)
  {
    if a != [] {
      assert (a + b)[1..] == a[1..] + b;
      RemovedConcat(a[1..], b, id);
    } else {
      assert a + b == b;
    }
  }

  /** The length drops by the number of items carrying `id`. */
  lemma {:induction false} RemovedLength(todos: seq<Todo>, id: Id)
    ensures |Removed(todos, id)| == |todos| - CountId(todos, id)
  {
    if todos != [] {
      RemovedLength(todos[1..], id);
    }
  }

  /** With unique ids there is at most one match. */
  lemma {:induction false} UniqueCountId(todos: seq<Todo>, id: Id)
    requires UniqueIds(todos)
    ensures CountId(todos, id) <= 1
  {
    if todos != [] {
      UniqueCountId(todos[1..], id);
    }
  }

  /** With unique ids and `id` present, deleting it shortens the list by
      exactly one; with `id` absent the list is unchanged. */
  lemma {:induction false} RemovedOne(todos: seq<Todo>, id: Id)
    ensures UniqueIds(todos) && HasId(todos, id) ==> |Removed(todos, id)| == |todos| - 1
    ensures !HasId(todos, id) ==> Removed(todos, id) == todos
  {
    RemovedLength(todos, id);
    if UniqueIds(todos) {
      UniqueCountId(todos, id);
    }
    if !HasId(todos, id) {
      RemovedAbsent(todos, id);
    }
  }

  lemma {:induction false} RemovedAbsent(todos: seq<Todo>, id: Id)
    requires !HasId(todos, id)
    ensures Removed(todos, id) == todos
  {
    if todos != [] {
      assert todos[0].id != id;
      assert !HasId(todos[1..], id) by {
        forall k | 0 <= k < |todos[1..]| ensures todos[1..][k].id != id {
          assert todos[1..][k] == todos[k + 1];
        }
      }
      RemovedAbsent(todos[1..], id);
      assert todos == [todos[0]] + todos[1..];
    }
  }

  /** Deleting the same id twice is deleting it once. */
  lemma {:induction false} RemovedTwice(todos: seq<Todo>, id: Id)
    ensures Removed(Removed(todos, id), id) == Removed(todos, id)
  {
    if todos != [] {
      RemovedTwice(todos[1..], id);
    }
  }

  /** Deleting keeps the remaining ids unique. */
  lemma {:induction false} RemovedKeepsUnique(todos: seq<Todo>, id: Id)
    requires UniqueIds(todos)
    ensures UniqueIds(Removed(todos, id))
  {
    if todos != [] {
      RemovedKeepsUnique(todos[1..], id);
      var rest := Removed(todos[1..], id);
      if todos[0].id != id {
        var r := [todos[0]] + rest;
        forall i, j | 0 <= i < j < |r| ensures r[i].id != r[j].id {
          if i == 0 {
            assert r[j] in todos[1..];
            var m :| 0 <= m < |todos[1..]| && todos[1..][m] == r[j];
            assert todos[m + 1] == r[j];
          }
        }
      }
    }
  }

  // ---------------------------------------------------------------------------
  // Derived values: completedCount, totalCount and the progress percentage

  /** todos.filter(todo => todo.completed).length */
  function CompletedCount(todos: seq<Todo>): (c: nat)
    ensures c <= |todos|
  {
    if todos == [] then 0
    else (if todos[0].completed then 1 else 0) + CompletedCount(todos[1..])
  }

  /** Every item is completed exactly when the count reaches the total, and
      none is exactly when it is zero. */
  lemma {:induction false} CompletedCountExtremes(todos: seq<Todo>)
    ensures CompletedCount(todos) == |todos| <==> forall k :: 0 <= k < |todos| ==> todos[k].completed
    ensures CompletedCount(todos) == 0 <==> forall k :: 0 <= k < |todos| ==> !todos[k].completed
  {
    if todos != [] {
      CompletedCountExtremes(todos[1..]);
      assert forall k :: 0 < k < |todos| ==> todos[k] == todos[1..][k - 1];
    }
  }

  /** Appending an item adds its own flag to the count. */
  lemma {:induction false} CompletedCountAppend(todos: seq<Todo>, t: Todo)
    ensures CompletedCount(todos + [t]) == CompletedCount(todos) + (if t.completed then 1 else 0)
  {
    if todos != [] {
      assert (todos + [t])[1..] == todos[1..] + [t];
      CompletedCountAppend(todos[1..], t);
    } else {
      assert [] + [t] == [t];
    }
  }

  /** With unique ids, toggling a present item moves the count by one in the
      direction of its new flag. */
  lemma {:induction false} CompletedCountToggled(todos: seq<Todo>, k: nat)
    requires UniqueIds(todos) && k < |todos|
    ensures CompletedCount(Toggled(todos, todos[k].id))
         == if todos[k].completed then CompletedCount(todos) - 1 else CompletedCount(todos) + 1
  {
    var id := todos[k].id;
    var rest := todos[1..];
    assert UniqueIds(rest) by {
      forall i, j | 0 <= i < j < |rest| ensures rest[i].id != rest[j].id {
        assert rest[i] == todos[i + 1] && rest[j] == todos[j + 1];
      }
    }
    if k == 0 {
      assert !HasId(rest, id) by {
        forall m | 0 <= m < |rest| ensures rest[m].id != id {
          assert rest[m] == todos[m + 1];
        }
      }
      ToggledAbsent(rest, id);
    } else {
      assert todos[0].id != id;
      assert rest[k - 1] == todos[k];
      CompletedCountToggled(rest, k - 1);
    }
  }

  lemma {:induction false} ToggledAbsent(todos: seq<Todo>, id: Id)
    requires !HasId(todos, id)
    ensures Toggled(todos, id) == todos
  {
    if todos != [] {
      assert todos[0].id != id;
      assert !HasId(todos[1..], id) by {
        forall k | 0 <= k < |todos[1..]| ensures todos[1..][k].id != id {
          assert todos[1..][k] == todos[k + 1];
        }
      }
      ToggledAbsent(todos[1..], id);
      assert todos == [todos[0]] + todos[1..];
    }
  }

  /** Math.round(completedCount / totalCount * 100) in integer arithmetic:
      None when the list is empty (no progress figure is shown). */
  function Progress(todos: seq<Todo>): (r: Option<int>)
    ensures r.None? <==> |todos| == 0
    ensures r.Some? ==> 0 <= r.value <= 100
  {
    if |todos| == 0 then None
    else
      RoundedPercentBounds(CompletedCount(todos), |todos|);
      Some(RoundedPercent(CompletedCount(todos), |todos|))
  }

  /** The exact value of 100 * c / t rounded to the nearest integer, halves
      up: r * t lies within half of t from 100 * c, rounding up on a tie. */
  function RoundedPercent(c: nat, t: nat): (r: int)
    requires 0 < t
    ensures 2 * t * r <= 200 * c + t < 2 * t * r + 2 * t
  {
    var p := (200 * c + t) / (2 * t);
    assert (2 * t) * p <= 200 * c + t < (2 * t) * p + 2 * t;
    p
  }

  lemma MulLe(d: nat, x: int, y: int)
    requires x <= y
    ensures d * x <= d * y
  {
    assert d * y - d * x == d * (y - x);
  }

  /** What the integer rounding gives for c completed out of t items: a
      percentage in 0..100 within half a point of 100 * c / t, which is 100
      exactly when at most half a percent of the items are open and 0 exactly
      when fewer than half a percent are completed. */
  lemma RoundedPercentBounds(c: nat, t: nat)
    requires 0 < t && c <= t
    ensures var p := RoundedPercent(c, t);
            && 0 <= p <= 100
            && 2 * t * p <= 200 * c + t < 2 * t * p + 2 * t
            && (p == 100 <==> 200 * (t - c) <= t)
            && (p == 0 <==> 200 * c < t)
  {
    var n, d := 200 * c + t, 2 * t;
    var p := n / d;
    assert d * p <= n < d * p + d;
    if p > 100 { MulLe(d, 101, p); }
    if p < 0 { MulLe(d, p, -1); }
    if p < 100 { MulLe(d, p, 99); }
    if p > 0 { MulLe(d, 1, p); }
  }

  /** The progress figure is shown exactly for a non-empty list; it lies in
      0..100 and is the exact 100 * completed / total rounded to the nearest
      integer, halves rounding up as Math.round does for non-negative numbers. */
  lemma ProgressRounds(todos: seq<Todo>)
    ensures Progress(todos).Some? <==> |todos| > 0
    ensures Progress(todos).Some? ==>
              var p, c, t := Progress(todos).value, CompletedCount(todos), |todos|;
              && 0 <= p <= 100
              && 2 * t * p <= 200 * c + t < 2 * t * p + 2 * t
  {
    if |todos| > 0 {
      RoundedPercentBounds(CompletedCount(todos), |todos|);
    }
  }

  /** 100% is shown when every item is completed. It is shown for exactly the
      counts within half a percent of the total, so a list of 200 or more
      items shows 100% with one item still open. */
  lemma ProgressFull(todos: seq<Todo>)
    requires |todos| > 0
    ensures (forall k :: 0 <= k < |todos| ==> todos[k].completed) ==> Progress(todos) == Some(100)
    ensures Progress(todos) == Some(100) <==> 200 * (|todos| - CompletedCount(todos)) <= |todos|
  {
    CompletedCountExtremes(todos);
    RoundedPercentBounds(CompletedCount(todos), |todos|);
  }

  /** 0% is shown exactly when fewer than half a percent of the items are
      completed; in particular when none is. */
  lemma ProgressZero(todos: seq<Todo>)
    requires |todos| > 0
    ensures Progress(todos) == Some(0) <==> 200 * CompletedCount(todos) < |todos|
    ensures (forall k :: 0 <= k < |todos| ==> !todos[k].completed) ==> Progress(todos) == Some(0)
  {
    CompletedCountExtremes(todos);
    RoundedPercentBounds(CompletedCount(todos), |todos|);
  }

  /** Two items, one of them completed: 50%. */
  lemma ProgressHalf(a: Todo, b: Todo)
    requires a.completed && !b.completed
    ensures Progress([a, b]) == Some(50)
  {
    assert [a, b][1..] == [b];
    assert [b][1..] == [];
    assert CompletedCount([a, b]) == 1;
    assert RoundedPercent(1, 2) == 202 / 4 == 50;
  }
}
