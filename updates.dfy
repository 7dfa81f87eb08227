/** The transitions of the task collection that follow each store call of the
    todo-list application. Each one takes the collection as it was when the
    call was made and the settled reply of the store, and gives the collection
    the application stores next; the call itself is not modelled. */
module Updates {
  import opened Sequences
  import opened Tasks

  /** The record `addTask` posts: none at all when the name is empty, otherwise
      a draft that is not completed. */
  function AddRequest(name: string, priority: string): (d: Option<Draft>)
    ensures d.None? <==> name == ""
    ensures d.Some? ==> d.value.name == name && !d.value.completed && d.value.priority == priority
  {
    if name != "" then Some(Draft(name, false, priority)) else None
  }

  /** `addTask`: once the store has created the record, the record it returns
      is appended. An empty name or a rejected call leaves the collection as it was. */
  function AddTask(tasks: seq<Task>, name: string, priority: string, reply: Reply<Task>): (r: seq<Task>)
    ensures AddRequest(name, priority).None? || reply.Rejected? ==> r == tasks
    ensures AddRequest(name, priority).Some? && reply.Resolved? ==>
      |r| == |tasks| + 1 && r[..|tasks|] == tasks && r[|tasks|] == reply.value
  {
    if name != "" then
      match reply
      case Resolved(created) => tasks + [created]
      case Rejected => tasks
    else tasks
  }

  /** Appending a record whose id is new keeps the ids unique. */
  lemma AddTaskKeepsUniqueIds(tasks: seq<Task>, name: string, priority: string, reply: Reply<Task>)
    requires UniqueIds(tasks)
    requires reply.Resolved? ==> !HasId(tasks, reply.value.id)
    ensures UniqueIds(AddTask(tasks, name, priority, reply))
  {
  }

  /** The record `toggleTaskCompleted` puts: the first record with the id,
      its completion inverted. */
  function ToggledRecord(tasks: seq<Task>, id: string): (u: Task)
    requires HasId(tasks, id)
    ensures var found := tasks[FirstIndex(tasks, id)];
      u.id == id && u.name == found.name && u.priority == found.priority && u.completed != found.completed
  {
    var found := tasks[FirstIndex(tasks, id)];
    found.(completed := !found.completed)
  }

  /** `toggleTaskCompleted`: once the store has accepted the update, every
      record with the id becomes the toggled record; the others keep their
      place. A missing id makes the source throw, so the id must be present. */
  function ToggleTask(tasks: seq<Task>, id: string, reply: Reply<()>): (r: seq<Task>)
    requires HasId(tasks, id)
    ensures |r| == |tasks|
    ensures reply.Rejected? ==> r == tasks
    ensures forall i :: 0 <= i < |tasks| && tasks[i].id != id ==> r[i] == tasks[i]
    ensures reply.Resolved? ==> forall i :: 0 <= i < |tasks| && tasks[i].id == id ==>
      var found := tasks[FirstIndex(tasks, id)];
      && r[i].id == id && r[i].name == found.name && r[i].priority == found.priority
      && r[i].completed == !found.completed
  {
    match reply
    case Resolved(_) => ReplaceById(tasks, id, ToggledRecord(tasks, id))
    case Rejected => tasks
  }

  /** With unique ids a confirmed toggle inverts the completion of exactly the
      record with the id, changes nothing else, and keeps the ids unique. */
  lemma ToggleTaskUnique(tasks: seq<Task>, id: string)
    requires UniqueIds(tasks) && HasId(tasks, id)
    ensures var r := ToggleTask(tasks, id, Resolved(()));
      && UniqueIds(r)
      && forall i :: 0 <= i < |tasks| ==>
        r[i] == if tasks[i].id == id then tasks[i].(completed := !tasks[i].completed) else tasks[i]
  {
  }

  /** With unique ids, two confirmed toggles of one id restore the collection. */
  lemma ToggleTaskTwice(tasks: seq<Task>, id: string)
    requires UniqueIds(tasks) && HasId(tasks, id)
    ensures var once := ToggleTask(tasks, id, Resolved(()));
      HasId(once, id) && ToggleTask(once, id, Resolved(())) == tasks
  {
    var once := ToggleTask(tasks, id, Resolved(()));
    ToggleTaskUnique(tasks, id);
    var k := FirstIndex(tasks, id);
    assert once[k].id == id;
    ToggleTaskUnique(once, id);
    var twice := ToggleTask(once, id, Resolved(()));
    assert forall i :: 0 <= i < |tasks| ==> twice[i] == tasks[i];
  }

  /** The record `editTask` puts when the id is present: the first record with
      the id, with the new name and priority. */
  function EditedRecord(tasks: seq<Task>, id: string, newName: string, newPriority: string): (u: Task)
    requires HasId(tasks, id)
    ensures u.id == id && u.name == newName && u.priority == newPriority
    ensures u.completed == tasks[FirstIndex(tasks, id)].completed
  {
    tasks[FirstIndex(tasks, id)].(name := newName, priority := newPriority)
  }

  /** `editTask`: once the store has accepted the update, every record with
      the id becomes the edited record, which keeps the id and completion of
      the first match; the others keep their place. Unlike a toggle, an absent
      id does not throw: spreading the missing record adds nothing, the update
      is still sent, and the `map` then matches no record. */
  function EditTask(tasks: seq<Task>, id: string, newName: string, newPriority: string, reply: Reply<()>): (r: seq<Task>)
    ensures |r| == |tasks|
    ensures reply.Rejected? || !HasId(tasks, id) ==> r == tasks
    ensures forall i :: 0 <= i < |tasks| && tasks[i].id != id ==> r[i] == tasks[i]
    ensures reply.Resolved? ==> forall i :: 0 <= i < |tasks| && tasks[i].id == id ==>
      && r[i].id == id && r[i].name == newName && r[i].priority == newPriority
      && r[i].completed == tasks[FirstIndex(tasks, id)].completed
  {
    match reply
    case Resolved(_) =>
      if HasId(tasks, id) then ReplaceById(tasks, id, EditedRecord(tasks, id, newName, newPriority))
      else tasks
    case Rejected => tasks
  }

  /** With unique ids a confirmed edit renames and reprioritises exactly the
      record with the id, changes nothing else, and keeps the ids unique. */
  lemma EditTaskUnique(tasks: seq<Task>, id: string, newName: string, newPriority: string)
    requires UniqueIds(tasks) && HasId(tasks, id)
    ensures var r := EditTask(tasks, id, newName, newPriority, Resolved(()));
      && UniqueIds(r)
      && forall i :: 0 <= i < |tasks| ==>
        r[i] == if tasks[i].id == id then tasks[i].(name := newName, priority := newPriority) else tasks[i]
  {
  }

  /** Repeating a confirmed edit with the same values changes nothing more,
      whether or not the ids are unique or the id is present. */
  lemma EditTaskIdempotent(tasks: seq<Task>, id: string, newName: string, newPriority: string)
    ensures var once := EditTask(tasks, id, newName, newPriority, Resolved(()));
      (HasId(tasks, id) <==> HasId(once, id)) && EditTask(once, id, newName, newPriority, Resolved(())) == once
  {
  }

  /** The predicate `deleteTask` filters with: a record survives unless its id
      is the one deleted. */
  function KeepsOtherIds(id: string): Task -> bool {
    (t: Task) => t.id != id
  }

  /** The complement of `KeepsOtherIds`: the records a delete removes. */
  function MatchesId(id: string): Task -> bool {
    (t: Task) => t.id == id
  }

  /** `deleteTask`: only a reply with status exactly 200 removes the records
      with the id; any other status, or a rejected call, changes nothing. */
  function DeleteTask(tasks: seq<Task>, id: string, reply: Reply<int>): (r: seq<Task>)
    ensures reply != Resolved(200) ==> r == tasks
    ensures |r| <= |tasks|
    ensures reply == Resolved(200) ==> forall i :: 0 <= i < |r| ==> r[i].id != id && r[i] in tasks
    ensures reply == Resolved(200) ==> forall i :: 0 <= i < |tasks| && tasks[i].id != id ==> tasks[i] in r
  {
    if reply == Resolved(200) then Filter(tasks, KeepsOtherIds(id)) else tasks
  }

  /** A confirmed delete removes exactly the records with the id and keeps the
      relative order of the rest; anything else leaves the collection alone. */
  lemma DeleteTaskRemovesExactly(tasks: seq<Task>, id: string, reply: Reply<int>)
    ensures reply != Resolved(200) ==> DeleteTask(tasks, id, reply) == tasks
    ensures reply == Resolved(200) ==> IsSubsequence(DeleteTask(tasks, id, reply), tasks)
    ensures reply == Resolved(200) ==> forall t ::
      t in DeleteTask(tasks, id, reply) <==> t in tasks && t.id != id
  {
    if reply == Resolved(200) {
      FilterIsSubsequence(tasks, KeepsOtherIds(id));
      FilterMembers(tasks, KeepsOtherIds(id));
    }
  }

  /** A confirmed delete shortens the collection by the number of records with
      the id: by one when ids are unique and the id is present, by none when
      it is absent. Ids stay unique. */
  lemma DeleteTaskCount(tasks: seq<Task>, id: string)
    ensures var r := DeleteTask(tasks, id, Resolved(200));
      |r| + |Filter(tasks, MatchesId(id))| == |tasks|
    ensures !HasId(tasks, id) ==> DeleteTask(tasks, id, Resolved(200)) == tasks
    ensures UniqueIds(tasks) ==> UniqueIds(DeleteTask(tasks, id, Resolved(200)))
    ensures UniqueIds(tasks) && HasId(tasks, id) ==> |DeleteTask(tasks, id, Resolved(200))| == |tasks| - 1
  {
    FilterPartition(tasks, KeepsOtherIds(id), MatchesId(id));
    if !HasId(tasks, id) {
      FilterKeepsAll(tasks, KeepsOtherIds(id));
    }
    if UniqueIds(tasks) {
      FilterKeepsUniqueIds(tasks, KeepsOtherIds(id));
      if HasId(tasks, id) {
        var k := FirstIndex(tasks, id);
        assert Filter(tasks, MatchesId(id)) == [tasks[k]] by {
          OnlyMatch(tasks, id, k);
        }
      }
    }
  }

  /** With unique ids, the records with a present id are that one record. */
  lemma {:induction false} OnlyMatch(tasks: seq<Task>, id: string, k: nat)
    requires UniqueIds(tasks) && k < |tasks| && tasks[k].id == id
    ensures Filter(tasks, MatchesId(id)) == [tasks[k]]
  {
    var tail := tasks[1..];
    assert UniqueIds(tail) by {
      forall i, j | 0 <= i < j < |tail|
        ensures tail[i].id != tail[j].id
      {
        assert tail[i] == tasks[i + 1] && tail[j] == tasks[j + 1];
      }
    }
    if k == 0 {
      assert forall i :: 0 <= i < |tail| ==> tail[i].id != id by {
        forall i | 0 <= i < |tail|
          ensures tail[i].id != id
        {
          assert tail[i] == tasks[i + 1];
        }
      }
      assert Filter(tail, MatchesId(id)) == [] by {
        NoMatch(tail, id);
      }
    } else {
      assert tasks[0].id != id;
      OnlyMatch(tail, id, k - 1);
    }
  }

  /** A sequence without the id has no record with the id. */
  lemma {:induction false} NoMatch(tasks: seq<Task>, id: string)
    requires forall i :: 0 <= i < |tasks| ==> tasks[i].id != id
    ensures Filter(tasks, MatchesId(id)) == []
  {
    if tasks != [] {
      NoMatch(tasks[1..], id);
    }
  }
}
