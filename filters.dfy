/** The two filter tables of the todo list (by completion status and by
    priority) and the visible list they select from the task collection. */
module Filters {
  import opened Sequences
  import opened Tasks

  /** The entries of the status table. */
  datatype StatusFilter = AllStatuses | Active | Completed

  /** The entries of the priority table; `Unset` is the one keyed "Non défini". */
  datatype PriorityFilter = AnyPriority | High | Medium | Low | Unset

  /** The predicate each status entry stands for. */
  predicate StatusAccepts(f: StatusFilter, t: Task) {
    match f
    case AllStatuses => true
    case Active => !t.completed
    case Completed => t.completed
  }

  /** The predicate each priority entry stands for: a strict string
      comparison with the record's `priority`. */
  predicate PriorityAccepts(f: PriorityFilter, t: Task) {
    match f
    case AnyPriority => true
    case High => t.priority == "High"
    case Medium => t.priority == "Medium"
    case Low => t.priority == "Low"
    case Unset => t.priority == ""
  }

  /** The status table, keyed by the names the filter buttons carry. */
  const FilterMap: map<string, StatusFilter> :=
    map["All" := AllStatuses, "Active" := Active, "Completed" := Completed]

  /** The names of the status table in declaration order, one button each. */
  const FilterNames: seq<string> := ["All", "Active", "Completed"]

  /** The priority table, keyed by the names the priority buttons carry. */
  const FilterPrioMap: map<string, PriorityFilter> :=
    map["All" := AnyPriority, "High" := High, "Medium" := Medium, "Low" := Low, "Non défini" := Unset]

  /** The names of the priority table in declaration order. */
  const FilterPrioNames: seq<string> := ["All", "High", "Medium", "Low", "Non défini"]

  /** The button lists name every table entry exactly once, and every entry
      is reachable by some name. */
  lemma FilterNamesAreTheKeys()
    ensures forall n :: n in FilterNames <==> n in FilterMap
    ensures forall i, j :: 0 <= i < j < |FilterNames| ==> FilterNames[i] != FilterNames[j]
    ensures forall n :: n in FilterPrioNames <==> n in FilterPrioMap
    ensures forall i, j :: 0 <= i < j < |FilterPrioNames| ==> FilterPrioNames[i] != FilterPrioNames[j]
    ensures FilterMap.Values == {AllStatuses, Active, Completed}
    ensures FilterPrioMap.Values == {AnyPriority, High, Medium, Low, Unset}
  {
    assert FilterMap["All"] == AllStatuses && FilterMap["Active"] == Active
      && FilterMap["Completed"] == Completed;
    assert FilterPrioMap["All"] == AnyPriority && FilterPrioMap["High"] == High
      && FilterPrioMap["Medium"] == Medium && FilterPrioMap["Low"] == Low
      && FilterPrioMap["Non défini"] == Unset;
  }

  /** `All` accepts every record; `Active` and `Completed` are complements,
      so each record passes exactly one of them; the table's keys select
      these entries. */
  lemma StatusFiltersPartition(t: Task)
    ensures StatusAccepts(AllStatuses, t)
    ensures StatusAccepts(Active, t) != StatusAccepts(Completed, t)
    ensures StatusAccepts(Active, t) <==> !t.completed
    ensures StatusAccepts(FilterMap["All"], t)
    ensures StatusAccepts(FilterMap["Active"], t) <==> !t.completed
    ensures StatusAccepts(FilterMap["Completed"], t) <==> t.completed
  {
    assert FilterMap["All"] == AllStatuses && FilterMap["Active"] == Active
      && FilterMap["Completed"] == Completed;
  }

  /** A record with one of the four priorities the form offers passes exactly
      one of `High`, `Medium`, `Low` and `Unset`; a record with any other
      priority passes none of them, and `All` accepts every record. Each key
      other than "All" accepts exactly the records whose priority is that key,
      "Non défini" those whose priority is "". */
  lemma PriorityFiltersPartition(t: Task)
    ensures PriorityAccepts(AnyPriority, t)
    ensures PriorityAccepts(Unset, t) <==> t.priority == ""
    ensures t.priority in {"", "Low", "Medium", "High"} ==>
      |set f: PriorityFilter | f != AnyPriority && PriorityAccepts(f, t)| == 1
    ensures t.priority !in {"", "Low", "Medium", "High"} ==>
      forall f: PriorityFilter :: PriorityAccepts(f, t) ==> f == AnyPriority
    ensures forall n :: n in FilterPrioMap && n != "All" ==>
      (PriorityAccepts(FilterPrioMap[n], t) <==> t.priority == (if n == "Non défini" then "" else n))
  {
    assert FilterPrioMap["High"] == High && FilterPrioMap["Medium"] == Medium
      && FilterPrioMap["Low"] == Low && FilterPrioMap["Non défini"] == Unset;
    var accepting := set f: PriorityFilter | f != AnyPriority && PriorityAccepts(f, t);
    if t.priority == "" {
      assert accepting == {Unset};
    } else if t.priority == "Low" {
      assert accepting == {Low};
    } else if t.priority == "Medium" {
      assert accepting == {Medium};
    } else if t.priority == "High" {
      assert accepting == {High};
    }
  }

  /** `FILTER_MAP[filter]` as a function value. */
  function StatusPredicate(f: StatusFilter): Task -> bool {
    t => StatusAccepts(f, t)
  }

  /** `FILTER_PRIO_MAP[filterPrio]` as a function value. */
  function PriorityPredicate(f: PriorityFilter): Task -> bool {
    t => PriorityAccepts(f, t)
  }

  /** The visible list: the collection filtered by the selected status entry
      and then by the selected priority entry; a collection that is not an
      array shows nothing. A name missing from a table makes the source throw,
      so both names must be keys. */
  function TaskList(tasks: TasksValue, filter: string, filterPrio: string): (r: seq<Task>)
    requires filter in FilterMap && filterPrio in FilterPrioMap
    ensures tasks.NonArrayValue? ==> r == []
    ensures tasks.ArrayValue? ==> |r| <= |tasks.items|
    ensures forall i :: 0 <= i < |r| ==>
      StatusAccepts(FilterMap[filter], r[i]) && PriorityAccepts(FilterPrioMap[filterPrio], r[i])
  {
    match tasks
    case NonArrayValue => []
    case ArrayValue(items) =>
      Filter(Filter(items, StatusPredicate(FilterMap[filter])), PriorityPredicate(FilterPrioMap[filterPrio]))
  }

  /** The visible list is an order-preserving subsequence of the collection
      holding exactly the records that pass both selected predicates. */
  lemma TaskListSelects(tasks: TasksValue, filter: string, filterPrio: string)
    requires filter in FilterMap && filterPrio in FilterPrioMap
    ensures tasks.NonArrayValue? ==> TaskList(tasks, filter, filterPrio) == []
    ensures tasks.ArrayValue? ==> IsSubsequence(TaskList(tasks, filter, filterPrio), tasks.items)
    ensures forall t :: t in TaskList(tasks, filter, filterPrio) <==>
      tasks.ArrayValue? && t in tasks.items
      && StatusAccepts(FilterMap[filter], t) && PriorityAccepts(FilterPrioMap[filterPrio], t)
    ensures tasks.ArrayValue? ==> forall t :: (multiset(TaskList(tasks, filter, filterPrio))[t] ==
      if StatusAccepts(FilterMap[filter], t) && PriorityAccepts(FilterPrioMap[filterPrio], t)
      then multiset(tasks.items)[t] else 0)
  {
    if tasks.ArrayValue? {
      var sp, pp := StatusPredicate(FilterMap[filter]), PriorityPredicate(FilterPrioMap[filterPrio]);
      FilterTwiceIsSubsequence(tasks.items, sp, pp);
      FilterMembers(tasks.items, sp);
      FilterMembers(Filter(tasks.items, sp), pp);
      forall t: Task
        ensures multiset(TaskList(tasks, filter, filterPrio))[t] ==
          if StatusAccepts(FilterMap[filter], t) && PriorityAccepts(FilterPrioMap[filterPrio], t)
          then multiset(tasks.items)[t] else 0
      {
        FilterCounts(tasks.items, sp, t);
        FilterCounts(Filter(tasks.items, sp), pp, t);
        assert sp(t) == StatusAccepts(FilterMap[filter], t);
        assert pp(t) == PriorityAccepts(FilterPrioMap[filterPrio], t);
      }
    }
  }

  /** The two filters may be applied in either order. */
  lemma TaskListEitherOrder(items: seq<Task>, filter: string, filterPrio: string)
    requires filter in FilterMap && filterPrio in FilterPrioMap
    ensures TaskList(ArrayValue(items), filter, filterPrio)
      == Filter(Filter(items, PriorityPredicate(FilterPrioMap[filterPrio])), StatusPredicate(FilterMap[filter]))
  {
    FilterCommutes(items, StatusPredicate(FilterMap[filter]), PriorityPredicate(FilterPrioMap[filterPrio]));
  }

  /** Under any priority selection, the active and the completed views
      together count exactly as many records as the unfiltered status view. */
  lemma StatusViewsPartition(tasks: TasksValue, filterPrio: string)
    requires filterPrio in FilterPrioMap
    ensures |TaskList(tasks, "Active", filterPrio)| + |TaskList(tasks, "Completed", filterPrio)|
      == |TaskList(tasks, "All", filterPrio)|
  {
    if tasks.ArrayValue? {
      var items, pp := tasks.items, PriorityPredicate(FilterPrioMap[filterPrio]);
      var u := Filter(items, pp);
      TaskListEitherOrder(items, "Active", filterPrio);
      TaskListEitherOrder(items, "Completed", filterPrio);
      TaskListEitherOrder(items, "All", filterPrio);
      FilterPartition(u, StatusPredicate(Completed), StatusPredicate(Active));
      FilterKeepsAll(u, StatusPredicate(AllStatuses));
    }
  }
}
