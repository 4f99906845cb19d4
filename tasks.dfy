/** The task records of the store and the pure list operations its four
    simulated requests are built from: the seed list, append, find, merge, filter. */
module Tasks {

  datatype Option<T> = None | Some(value: T)

  /** One record of the store, `{id, title, completed}`. */
  datatype Task = Task(id: int, title: string, completed: bool)

  /** The partial record an update merges in; a field left `None` is not supplied. */
  datatype Patch = Patch(title: Option<string>, completed: Option<bool>)

  /** The fixed list the simulated GET request loads. */
  function Seed(): (r: seq<Task>)
    ensures |r| == 2 && UniqueIds(r)
    ensures forall i :: 0 <= i < |r| ==> !r[i].completed
  {
    [Task(1, "Learn Fetch API", false), Task(2, "Build a To-Do List", false)]
  }

  /** The record the simulated POST request builds: new tasks start incomplete. */
  function NewTask(id: int, title: string): (r: Task)
    ensures r.id == id && r.title == title && !r.completed
  {
    Task(id, title, false)
  }

  /** The ids of a list, in order. */
  function Ids(ts: seq<Task>): (r: seq<int>)
    ensures |r| == |ts| && forall i :: 0 <= i < |ts| ==> r[i] == ts[i].id
  {
    seq(|ts|, i requires 0 <= i < |ts| => ts[i].id)
  }

  predicate HasId(ts: seq<Task>, id: int) {
    exists i :: 0 <= i < |ts| && ts[i].id == id
  }

  /** No two records of the list share an id. */
  predicate UniqueIds(ts: seq<Task>) {
    forall i, j :: 0 <= i < j < |ts| ==> ts[i].id != ts[j].id
  }

  /** `Array.prototype.findIndex` with the predicate `task.id === id`:
      the first index holding the id, or -1 when there is none. */
  function FindIndex(ts: seq<Task>, id: int): (r: int)
    ensures -1 <= r < |ts|
    ensures r == -1 <==> !HasId(ts, id)
    ensures r != -1 ==> ts[r].id == id && forall j :: 0 <= j < r ==> ts[j].id != id
  {
    if |ts| == 0 then -1
    else if ts[0].id == id then 0
    else
      var k := FindIndex(ts[1..], id);
      assert forall j :: 1 <= j < |ts| ==> ts[1..][j - 1] == ts[j];
      if k == -1 then -1 else k + 1
  }

  /** `Array.prototype.find` with the same predicate: the first record holding
      the id, which is the record at FindIndex, or nothing. */
  function Find(ts: seq<Task>, id: int): (r: Option<Task>)
    ensures r.None? <==> !HasId(ts, id)
    ensures r.Some? ==> r.value == ts[FindIndex(ts, id)]
  {
    if |ts| == 0 then None
    else if ts[0].id == id then Some(ts[0])
    else Find(ts[1..], id)
  }

  /** The object spread `{...t, ...p}`: a supplied field takes the patch's
      value, any other field keeps the record's. */
  function Merge(t: Task, p: Patch): (r: Task)
    ensures r.id == t.id
    ensures p.title.Some? ==> r.title == p.title.value
    ensures p.title.None? ==> r.title == t.title
    ensures p.completed.Some? ==> r.completed == p.completed.value
    ensures p.completed.None? ==> r.completed == t.completed
  {
    var title := match p.title case Some(s) => s case None => t.title;
    var completed := match p.completed case Some(b) => b case None => t.completed;
    Task(t.id, title, completed)
  }

  /** The list after the simulated PUT request: the record at the first index
      holding the id is merged with the patch; without such a record the list
      is returned as it was. */
  function Updated(ts: seq<Task>, id: int, p: Patch): (r: seq<Task>)
    ensures |r| == |ts| && Ids(r) == Ids(ts)
    ensures !HasId(ts, id) ==> r == ts
    ensures HasId(ts, id) ==>
      var i := FindIndex(ts, id);
      r[i] == Merge(ts[i], p) && forall j :: 0 <= j < |ts| && j != i ==> r[j] == ts[j]
  {
    var i := FindIndex(ts, id);
    if i == -1 then ts else ts[i := Merge(ts[i], p)]
  }

  /** `tasks.filter(task => task.id !== id)`: the list without the records
      holding the id, in their original order. */
  function Without(ts: seq<Task>, id: int): (r: seq<Task>)
    ensures |r| <= |ts|
    ensures forall t :: t in r <==> t in ts && t.id != id
  {
    if |ts| == 0 then []
    else if ts[0].id == id then Without(ts[1..], id)
    else [ts[0]] + Without(ts[1..], id)
  }

  /** The loaded list: exactly the two seed records, with distinct ids. */
  lemma SeedContents()
    ensures |Seed()| == 2 && Ids(Seed()) == [1, 2]
    ensures Seed()[0].title == "Learn Fetch API" && Seed()[1].title == "Build a To-Do List"
    ensures !Seed()[0].completed && !Seed()[1].completed
    ensures UniqueIds(Seed())
  {
  }

  /** Appending keeps ids distinct exactly when the list's ids were distinct
      and the new id does not already occur. */
  lemma AppendUnique(ts: seq<Task>, id: int, title: string)
    ensures UniqueIds(ts + [NewTask(id, title)]) <==> UniqueIds(ts) && !HasId(ts, id)
  {
    var r := ts + [NewTask(id, title)];
    if UniqueIds(r) {
      forall i | 0 <= i < |ts| ensures ts[i].id != id {
        assert r[i] == ts[i] && r[|ts|].id == id;
      }
      forall i, j | 0 <= i < j < |ts| ensures ts[i].id != ts[j].id {
        assert r[i] == ts[i] && r[j] == ts[j];
      }
    }
  }

  /** An update never changes which ids occur where, so it keeps them distinct. */
  lemma UpdatedUnique(ts: seq<Task>, id: int, p: Patch)
    ensures UniqueIds(Updated(ts, id, p)) <==> UniqueIds(ts)
  {
    var r := Updated(ts, id, p);
    assert forall i :: 0 <= i < |ts| ==> r[i].id == Ids(r)[i] == Ids(ts)[i] == ts[i].id;
  }

  /** Filtering distributes over concatenation: it keeps each part's other
      records in their order, and removes the matching ones. */
  lemma {:induction false} WithoutConcat(a: seq<Task>, b: seq<Task>, id: int)
    ensures Without(a + b, id) == Without(a, id) + Without(b, id)
  {
    if a == [] {
      assert a + b == b;
    } else {
      assert (a + b)[0] == a[0];
      assert (a + b)[1..] == a[1..] + b;
      WithoutConcat(a[1..], b, id);
    }
  }

  /** Filtering one record keeps it exactly when it does not hold the id. */
  lemma WithoutSingle(t: Task, id: int)
    ensures Without([t], id) == if t.id == id then [] else [t]
  {
    assert [t][1..] == [];
  }

  /** Deleting an id that does not occur leaves the list as it was, and only then. */
  lemma {:induction false} WithoutAbsent(ts: seq<Task>, id: int)
    ensures Without(ts, id) == ts <==> !HasId(ts, id)
  {
    if ts != [] {
      WithoutAbsent(ts[1..], id);
      if ts[0].id == id {
        assert ts[0] !in Without(ts, id);
      } else {
        assert forall j :: 1 <= j < |ts| ==> ts[1..][j - 1] == ts[j];
        assert HasId(ts[1..], id) ==> HasId(ts, id);
      }
    }
  }

  /** Deleting twice is deleting once. */
  lemma WithoutIdempotent(ts: seq<Task>, id: int)
    ensures Without(Without(ts, id), id) == Without(ts, id)
  {
    var r := Without(ts, id);
    assert !HasId(r, id) by {
      forall i | 0 <= i < |r| ensures r[i].id != id {
        assert r[i] in r;
      }
    }
    WithoutAbsent(r, id);
  }

  /** Every record that survives a delete sits in the same relative order as
      before, and no surviving record holds the deleted id. */
  lemma {:induction false} WithoutOrder(ts: seq<Task>, id: int, i: int, j: int)
    requires 0 <= i < j < |ts| && ts[i].id != id && ts[j].id != id
    ensures exists k, l :: 0 <= k < l < |Without(ts, id)| && Without(ts, id)[k] == ts[i] && Without(ts, id)[l] == ts[j]
  {
    var a, b, c := ts[..i], ts[i + 1..j], ts[j + 1..];
    var x1 := a + [ts[i]];
    var x2 := x1 + b;
    var x3 := x2 + [ts[j]];
    assert x1 == ts[..i + 1];
    assert x2 == ts[..j];
    assert x3 == ts[..j + 1];
    assert x3 + c == ts;
    WithoutSingle(ts[i], id);
    WithoutSingle(ts[j], id);
    WithoutConcat(a, [ts[i]], id);
    var wa := Without(a, id);
    assert Without(x1, id) == wa + [ts[i]];
    WithoutConcat(x1, b, id);
    WithoutConcat(x2, [ts[j]], id);
    var w2 := Without(x2, id);
    assert Without(x3, id) == w2 + [ts[j]];
    WithoutConcat(x3, c, id);
    var r := Without(ts, id);
    assert r == w2 + [ts[j]] + Without(c, id);
    var k, l := |wa|, |w2|;
    assert w2[k] == ts[i];
    assert r[k] == ts[i] && r[l] == ts[j];
  }

  /** Deleting keeps ids distinct. */
  lemma {:induction false} WithoutUnique(ts: seq<Task>, id: int)
    requires UniqueIds(ts)
    ensures UniqueIds(Without(ts, id))
  {
    if ts != [] {
      var tail := ts[1..];
      assert UniqueIds(tail) by {
        forall i, j | 0 <= i < j < |tail| ensures tail[i].id != tail[j].id {
          assert tail[i] == ts[i + 1] && tail[j] == ts[j + 1];
        }
      }
      WithoutUnique(tail, id);
      if ts[0].id != id {
        var r := Without(ts, id);
        assert !HasId(tail, ts[0].id) by {
          forall i | 0 <= i < |tail| ensures tail[i].id != ts[0].id {
            assert tail[i] == ts[i + 1];
          }
        }
        forall i | 1 <= i < |r| ensures r[i].id != r[0].id {
          assert r[i] in Without(tail, id);
        }
      }
    }
  }

  /** With distinct ids, deleting an id that occurs shortens the list by exactly one. */
  lemma {:induction false} WithoutLength(ts: seq<Task>, id: int)
    requires UniqueIds(ts) && HasId(ts, id)
    ensures |Without(ts, id)| == |ts| - 1
  {
    var i := FindIndex(ts, id);
    var a, c := ts[..i], ts[i + 1..];
    assert ts == a + [ts[i]] + c;
    assert !HasId(a, id);
    assert !HasId(c, id) by {
      forall j | 0 <= j < |c| ensures c[j].id != id {
        assert c[j] == ts[i + 1 + j];
      }
    }
    WithoutConcat(a + [ts[i]], c, id);
    WithoutConcat(a, [ts[i]], id);
    WithoutSingle(ts[i], id);
    WithoutAbsent(a, id);
    WithoutAbsent(c, id);
  }
}
