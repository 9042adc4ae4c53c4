/** The task store (repositories/TaskRepository.java). The JPA EntityManager is modelled by its
    observable effect: a table from id to the managed Task object for that row, the order in
    which the rows are returned by a query, and the identity generator of the id column. */
module Repositories {
  import opened Wrappers
  import opened Models

  /** No id occurs twice. */
  predicate Distinct(s: seq<int>) {
    forall i, j | 0 <= i < j < |s| :: s[i] != s[j]
  }

  lemma DistinctTail(s: seq<int>)
    requires Distinct(s) && s != []
    ensures Distinct(s[1..]) && s[0] !in s[1..]
  {
    forall i, j | 0 <= i < j < |s[1..]| ensures s[1..][i] != s[1..][j] {
      assert s[1..][i] == s[i + 1] && s[1..][j] == s[j + 1];
    }
  }

  lemma DistinctCons(x: int, t: seq<int>)
    requires Distinct(t) && x !in t
    ensures Distinct([x] + t)
  {
    var s := [x] + t;
    forall i, j | 0 <= i < j < |s| ensures s[i] != s[j] {
      assert s[j] == t[j - 1];
      if i > 0 { assert s[i] == t[i - 1]; }
    }
  }

  lemma DistinctAppend(s: seq<int>, x: int)
    requires Distinct(s) && x !in s
    ensures Distinct(s + [x])
  {
  }

  /** The ids of `s` in order, with `k` dropped. */
  function Without(s: seq<int>, k: int): (r: seq<int>)
    ensures forall x :: x in r <==> x in s && x != k
  {
    if s == [] then []
    else if s[0] == k then Without(s[1..], k)
    else [s[0]] + Without(s[1..], k)
  }

  /** Dropping an id keeps the ids distinct. */
  lemma {:induction false} WithoutDistinct(s: seq<int>, k: int)
    requires Distinct(s)
    ensures Distinct(Without(s, k))
  {
    if s != [] {
      DistinctTail(s);
      WithoutDistinct(s[1..], k);
      if s[0] != k {
        DistinctCons(s[0], Without(s[1..], k));
      }
    }
  }

  /** The objects stored under the ids `ids`, in the order of `ids`. */
  function Lookup(ids: seq<int>, m: map<int, Task>): (r: seq<Task>)
    requires forall i | 0 <= i < |ids| :: ids[i] in m
    ensures |r| == |ids|
    ensures forall i | 0 <= i < |ids| :: r[i] == m[ids[i]]
  {
    if ids == [] then [] else [m[ids[0]]] + Lookup(ids[1..], m)
  }

  /** A sequence without repetitions has as many elements as it has distinct elements. */
  lemma {:induction false} DistinctCardinality(s: seq<int>)
    requires Distinct(s)
    ensures |set x | x in s| == |s|
  {
    if s != [] {
      DistinctTail(s);
      DistinctCardinality(s[1..]);
      assert (set x | x in s) == (set x | x in s[1..]) + {s[0]};
      assert s[0] !in (set x | x in s[1..]);
    }
  }

  class TaskRepository {
    /** The managed instance of each stored row, by id. */
    var table: map<int, Task>
    /** The stored ids in the order in which the query of findAll returns their rows. */
    var rows: seq<int>
    /** The next value of the identity generator of the id column. */
    var nextId: int

    /** Every stored object carries the id it is stored under, the generator is ahead of every
        stored id, and `rows` lists each stored id exactly once. */
    ghost predicate Valid()
      reads this, table.Values
    {
      && (forall k | k in table :: table[k].id == Some(k))
      && RowsValid()
    }

    /** The part of Valid() that concerns the table's keys alone. */
    ghost predicate RowsValid()
      reads this
    {
      && (forall k | k in table :: k < nextId)
      && Distinct(rows)
      && (forall k :: k in rows <==> k in table)
    }

    /** The stored records, by id. */
    function Contents(): map<int, TaskRecord>
      reads this, table.Values
    {
      map k | k in table :: table[k].Snapshot()
    }

    constructor ()
      ensures Valid() && table == map[] && Contents() == map[]
    {
      table, rows, nextId := map[], [], 1;
    }

    /** findAll: every stored object, each exactly once. */
    method FindAll() returns (all: seq<Task>)
      requires Valid()
      ensures |all| == |table|
      ensures forall t :: t in all <==> t in table.Values
      ensures forall i, j | 0 <= i < j < |all| :: all[i] != all[j]
    {
      forall i | 0 <= i < |rows| ensures rows[i] in table {
        assert rows[i] in rows;
      }
      all := Lookup(rows, table);
      DistinctCardinality(rows);
      assert (set x | x in rows) == table.Keys by {
        forall x ensures x in (set x | x in rows) <==> x in table.Keys {
        }
      }
      forall t | t in table.Values ensures t in all {
        var k :| k in table && table[k] == t;
        var i :| 0 <= i < |rows| && rows[i] == k;
        assert all[i] == t;
      }
    }

    /** findById: the stored object, or empty when there is none; never an error. */
    method FindById(id: int) returns (found: Option<Task>)
      ensures found.Some? <==> id in table
      ensures found.Some? ==> found.value == table[id]
    {
      found := if id in table then Some(table[id]) else None;
    }

    /** save: a task with no id is persisted under a newly generated id and returned itself;
        a task with an id is merged, so the row with that id takes its field values and the
        managed instance of that row is returned. */
    method Save(task: Task) returns (saved: Task)
      requires Valid()
      modifies this, task, table.Values
      ensures Valid()
      ensures saved.id.Some? && table == old(table)[saved.id.value := saved]
      ensures old(task.id).None? ==>
        && saved == task
        && saved.id.value !in old(table)
        && Contents() == old(Contents())[saved.id.value := old(task.Snapshot()).(id := saved.id)]
      ensures old(task.id).Some? ==>
        && saved.id == old(task.id)
        && unchanged(task)
        && Contents() == old(Contents())[saved.id.value := old(task.Snapshot())]
        && (saved.id.value in old(table) ==> saved == old(table)[saved.id.value])
        && (saved.id.value !in old(table) ==> fresh(saved))
    {
      if task.id == None {
        saved := Persist(task);
      } else {
        saved := Merge(task);
      }
    }

    /** persist: the identity column supplies an id not in use, which is written into the
        entity, and the entity itself becomes the managed instance of the new row. */
    method Persist(task: Task) returns (saved: Task)
      requires Valid() && task.id == None
      modifies this, task
      ensures Valid()
      ensures saved == task && task.id.Some? && task.id.value !in old(table)
      ensures table == old(table)[task.id.value := task]
      ensures task.Snapshot() == old(task.Snapshot()).(id := task.id)
      ensures Contents() == old(Contents())[task.id.value := task.Snapshot()]
    {
      var n := nextId;
      nextId := nextId + 1;
      task.id := Some(n);
      table := table[n := task];
      rows := rows + [n];
      saved := task;
      forall j | j in old(table) ensures table[j].Snapshot() == old(table[j].Snapshot()) {
        assert old(table)[j] != task;
      }
      assert Distinct(rows) by { DistinctAppend(old(rows), n); }
    }

    /** merge: the field values of the given object are copied onto the managed instance of its
        row, which is returned; the given object itself is left as it is. */
    method Merge(task: Task) returns (saved: Task)
      requires Valid() && task.id.Some?
      modifies this, table.Values
      ensures Valid()
      ensures unchanged(task)
      ensures saved.Snapshot() == old(task.Snapshot())
      ensures table == old(table)[task.id.value := saved]
      ensures task.id.value in old(table) ==> saved == old(table)[task.id.value]
      ensures task.id.value !in old(table) ==> fresh(saved)
      ensures Contents() == old(Contents())[task.id.value := old(task.Snapshot())]
    {
      var k := task.id.value;
      if k in table {
        saved := CopyOnto(task, k);
      } else {
        saved := AddCopy(task, k);
      }
    }

    /** Merge onto an existing row: the managed instance of row `k` takes the field values of
        `task`. */
    method CopyOnto(task: Task, k: int) returns (saved: Task)
      requires Valid() && task.id == Some(k) && k in table
      modifies table[k]
      ensures Valid()
      ensures saved == table[k] && unchanged(task)
      ensures saved.Snapshot() == old(task.Snapshot())
      ensures Contents() == old(Contents())[k := old(task.Snapshot())]
    {
      var managed := table[k];
      if managed != task {
        managed.title, managed.description := task.title, task.description;
        managed.status, managed.dueDate := task.status, task.dueDate;
      }
      saved := managed;
      forall j | j in table && j != k ensures table[j].Snapshot() == old(table[j].Snapshot()) {
        assert table[j] != managed;
      }
    }

    /** Merge with no row of that id: a new managed copy of `task` is stored under `k`. */
    method AddCopy(task: Task, k: int) returns (saved: Task)
      requires Valid() && task.id == Some(k) && k !in table
      modifies this
      ensures Valid()
      ensures fresh(saved) && table == old(table)[k := saved]
      ensures saved.Snapshot() == task.Snapshot()
      ensures Contents() == old(Contents())[k := task.Snapshot()]
    {
      var copy := new Task.WithDetails(task.title, task.description, task.status, task.dueDate);
      copy.id := Some(k);
      table := table[k := copy];
      rows := rows + [k];
      nextId := if k < nextId then nextId else k + 1;
      saved := copy;
      assert Distinct(rows) by { DistinctAppend(old(rows), k); }
    }

    /** delete: the row with the task's id is removed, whether the given object is the managed
        instance or a detached copy. */
    method Delete(task: Task)
      requires Valid()
      modifies this
      ensures Valid()
      ensures table == if task.id.Some? then old(table) - {task.id.value} else old(table)
      ensures Contents() == if task.id.Some? then old(Contents()) - {task.id.value} else old(Contents())
    {
      // A managed instance is removed directly, a detached one through the managed instance
      // its merge resolves to; either way it is the row with the task's id that goes, and a
      // task without an id has no row.
      if task.id.Some? {
        RemoveRow(task.id.value);
      }
    }

    method RemoveRow(k: int)
      requires Valid()
      modifies this
      ensures Valid()
      ensures table == old(table) - {k}
      ensures Contents() == old(Contents()) - {k}
    {
      WithoutDistinct(rows, k);
      table := table - {k};
      rows := Without(rows, k);
    }
  }

  /** Writing back the value a map already holds at a key leaves the map as it was. */
  lemma UpdateSame<K, V>(m: map<K, V>, k: K, v: V)
    requires k in m && m[k] == v
    ensures m[k := v] == m
  {
  }

  /** When every stored record other than that of row `id` is as it was in `before`, and every
      record keeps its id, the store is valid and its records are `before` with row `id`
      replaced. */
  lemma ChangedAt(repository: TaskRepository, id: int, before: map<int, TaskRecord>)
    requires id in repository.table && before.Keys == repository.table.Keys
    requires repository.RowsValid() && repository.table[id].id == Some(id)
    requires forall k | k in before :: before[k].id == Some(k)
    requires forall k | k in repository.table && k != id :: repository.table[k].Snapshot() == before[k]
    ensures repository.Valid()
    ensures repository.Contents() == before[id := repository.table[id].Snapshot()]
  {
    var after := before[id := repository.table[id].Snapshot()];
    assert repository.Contents().Keys == after.Keys;
    forall k | k in after ensures repository.Contents()[k] == after[k] {
    }
  }
}
