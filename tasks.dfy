/** The task records held by the todo-list application, the outcome of a call
    to the remote task store, and the lookups and per-record rewrites that the
    collection transitions are built from. */
module Tasks {
  import opened Sequences

  /** One todo record as the store holds it. `priority` is normally "High",
      "Medium", "Low" or "" for no priority, but the store keeps whatever the
      form posted: the form's priority starts as the number 0, which no strict
      comparison with a priority name accepts, so any string outside the four
      stands for it here. */
  datatype Task = Task(id: string, name: string, completed: bool, priority: string)

  /** The record posted to the store on creation: it has no id yet; the store
      assigns one and returns the full record. */
  datatype Draft = Draft(name: string, completed: bool, priority: string)

  /** The value of the `tasks` state. The initial fetch stores whatever the
      server sent, so the view must cope with a value that is not an array. */
  datatype TasksValue = ArrayValue(items: seq<Task>) | NonArrayValue

  datatype Option<T> = None | Some(value: T)

  /** The settled promise of one store call: resolved with a value, or rejected
      (network failure or an HTTP status the client treats as an error). */
  datatype Reply<T> = Resolved(value: T) | Rejected

  /** No two records of the collection share an id. */
  ghost predicate UniqueIds(s: seq<Task>) {
    forall i, j :: 0 <= i < j < |s| ==> s[i].id != s[j].id
  }

  /** Some record of the collection has the given id. */
  predicate HasId(s: seq<Task>, id: string) {
    exists i :: 0 <= i < |s| && s[i].id == id
  }

  /** The position of the record `tasks.find(task => task.id === id)` returns:
      the first one whose id matches. */
  function FirstIndex(s: seq<Task>, id: string): (i: nat)
    requires HasId(s, id)
    ensures i < |s| && s[i].id == id
    ensures forall j :: 0 <= j < i ==> s[j].id != id
  {
    if s[0].id == id then 0
    else
      assert HasId(s[1..], id) by {
        var k :| 0 <= k < |s| && s[k].id == id;
        assert s[1..][k - 1].id == id;
      }
      1 + FirstIndex(s[1..], id)
  }

  /** When ids are unique, the first record with an id is the only one. */
  lemma FirstIndexUnique(s: seq<Task>, id: string, k: nat)
    requires UniqueIds(s)
    requires k < |s| && s[k].id == id
    ensures FirstIndex(s, id) == k
  {
  }

  /** `tasks.map(task => task.id === id ? rec : task)`: every record whose id
      matches is replaced by `rec`; the others stay where they were. */
  function ReplaceById(s: seq<Task>, id: string, rec: Task): (r: seq<Task>)
    ensures |r| == |s|
    ensures forall i :: 0 <= i < |s| && s[i].id != id ==> r[i] == s[i]
    ensures forall i :: 0 <= i < |s| && s[i].id == id ==> r[i] == rec
  {
    if s == [] then []
    else [if s[0].id == id then rec else s[0]] + ReplaceById(s[1..], id, rec)
  }

  /** Replacing records by one that carries the same id keeps the ids unique. */
  lemma ReplaceByIdKeepsUniqueIds(s: seq<Task>, id: string, rec: Task)
    requires UniqueIds(s) && rec.id == id
    ensures UniqueIds(ReplaceById(s, id, rec))
  {
  }

  /** Dropping records never makes two ids collide. */
  lemma {:induction false} FilterKeepsUniqueIds(s: seq<Task>, p: Task -> bool)
    requires UniqueIds(s)
    ensures UniqueIds(Filter(s, p))
  {
    if s != [] {
      var tail := s[1..];
      assert UniqueIds(tail) by {
        forall i, j | 0 <= i < j < |tail|
          ensures tail[i].id != tail[j].id
        {
          assert tail[i] == s[i + 1] && tail[j] == s[j + 1];
        }
      }
      FilterKeepsUniqueIds(tail, p);
      if p(s[0]) {
        var rest := Filter(tail, p);
        assert !HasId(tail, s[0].id) by {
          forall k | 0 <= k < |tail|
            ensures tail[k].id != s[0].id
          {
            assert tail[k] == s[k + 1];
          }
        }
        forall j | 0 <= j < |rest|
          ensures rest[j].id != s[0].id
        {
          assert rest[j] in tail;
        }
      }
    }
  }

}
