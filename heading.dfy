/** The headings above the visible list, which count the visible records, and
    the test that moves keyboard focus to the list heading when the collection
    shrinks. */
module Heading {
  import opened Sequences
  import opened Tasks
  import opened Filters
  import opened Updates

  function DigitChar(d: nat): char
    requires d < 10
  {
    "0123456789"[d]
  }

  function DigitValue(c: char): nat {
    if '0' <= c <= '9' then c as int - '0' as int else 0
  }

  /** The text a template literal prints for a count: decimal digits, with no
      leading zero unless the count is zero. */
  function DecimalText(n: nat): (s: string)
    ensures |s| >= 1
    ensures forall i :: 0 <= i < |s| ==> '0' <= s[i] <= '9'
    ensures s[0] == '0' ==> n == 0
  {
    if n < 10 then [DigitChar(n)] else DecimalText(n / 10) + [DigitChar(n % 10)]
  }

  /** The count a decimal text denotes. */
  function DecimalValue(s: string): nat {
    if s == [] then 0 else 10 * DecimalValue(s[..|s| - 1]) + DigitValue(s[|s| - 1])
  }

  /** Reading the printed count back gives the count. */
  lemma {:induction false} DecimalRoundTrip(n: nat)
    ensures DecimalValue(DecimalText(n)) == n
  {
    var s := DecimalText(n);
    if n < 10 {
      assert s[..|s| - 1] == [];
    } else {
      DecimalRoundTrip(n / 10);
      assert s[..|s| - 1] == DecimalText(n / 10);
    }
  }

  /** A text built as the count, a middle starting with a space, and a last
      word starts with the count and a space and ends with that word. */
  lemma CountThenWords(d: string, middle: string, last: string)
    requires |middle| >= 1 && middle[0] == ' '
    ensures var h := d + middle + last;
      && |h| > |d| && h[..|d|] == d && h[|d|] == ' '
      && |h| >= |last| && h[|h| - |last|..] == last
  {
    var h := d + middle + last;
    assert h == d + (middle + last);
  }

  /** `tasksNoun`: "task" exactly when one record is visible, else "tasks". */
  function TasksNoun(n: nat): (w: string)
    ensures w == "task" <==> n == 1
    ensures w == "task" || w == "tasks"
  {
    if n != 1 then "tasks" else "task"
  }

  /** `headingText`: the visible count, the noun and "remaining". */
  function HeadingText(n: nat): (h: string)
    ensures |h| > |DecimalText(n)| && h[..|DecimalText(n)|] == DecimalText(n) && h[|DecimalText(n)|] == ' '
    ensures |h| >= 10 && h[|h| - 10..] == " remaining"
    ensures n == 1 ==> h == "1 task remaining"
    ensures n != 1 ==> h == DecimalText(n) + " tasks remaining"
  {
    CountThenWords(DecimalText(n), " " + TasksNoun(n), " remaining");
    RemainingWords(n);
    DecimalText(n) + " " + TasksNoun(n) + " remaining"
  }

  /** `prioHeadingText`: the visible count, the noun, the selected priority
      name and "priority". */
  function PrioHeadingText(n: nat, filterPrio: string): (h: string)
    ensures |h| > |DecimalText(n)| && h[..|DecimalText(n)|] == DecimalText(n) && h[|DecimalText(n)|] == ' '
    ensures |h| >= 9 && h[|h| - 9..] == " priority"
    ensures n == 1 ==> h == "1 task " + filterPrio + " priority"
    ensures n != 1 ==> h == DecimalText(n) + " tasks " + filterPrio + " priority"
  {
    CountThenWords(DecimalText(n), " " + TasksNoun(n) + " " + filterPrio, " priority");
    PriorityWords(n, filterPrio);
    DecimalText(n) + " " + TasksNoun(n) + " " + filterPrio + " priority"
  }

  /** The plain heading with its noun spelled out, for one count and for the
      others. */
  lemma RemainingWords(n: nat)
    ensures n == 1 ==> DecimalText(n) + " " + TasksNoun(n) + " remaining" == "1 task remaining"
    ensures n != 1 ==> DecimalText(n) + " " + TasksNoun(n) + " remaining" == DecimalText(n) + " tasks remaining"
  {
    var d, w := DecimalText(n), TasksNoun(n);
    assert d + " " + w + " remaining" == d + (" " + w + " remaining");
    if n == 1 {
      assert d == "1" && w == "task";
    } else {
      assert w == "tasks";
    }
  }

  /** The priority heading with its noun spelled out, for one count and for
      the others. */
  lemma PriorityWords(n: nat, filterPrio: string)
    ensures n == 1 ==> (DecimalText(n) + " " + TasksNoun(n) + " " + filterPrio + " priority"
                        == "1 task " + filterPrio + " priority")
    ensures n != 1 ==> (DecimalText(n) + " " + TasksNoun(n) + " " + filterPrio + " priority"
                        == DecimalText(n) + " tasks " + filterPrio + " priority")
  {
    var d, w := DecimalText(n), TasksNoun(n);
    assert d + " " + w + " " + filterPrio + " priority" == d + (" " + w + " ") + filterPrio + " priority";
    if n == 1 {
      assert d == "1" && w == "task";
      assert d + (" " + w + " ") == "1 task ";
    } else {
      assert w == "tasks";
      assert " " + w + " " == " tasks ";
    }
  }

  /** A text that starts with the printed count followed by a space tells
      which count was printed. */
  lemma CountPrefixDetermines(h: string, n: nat, m: nat)
    requires |h| > |DecimalText(n)| && h[..|DecimalText(n)|] == DecimalText(n) && h[|DecimalText(n)|] == ' '
    requires |h| > |DecimalText(m)| && h[..|DecimalText(m)|] == DecimalText(m) && h[|DecimalText(m)|] == ' '
    ensures n == m
  {
    var dn, dm := DecimalText(n), DecimalText(m);
    assert |dn| == |dm|;
    assert dn == dm;
    DecimalRoundTrip(n);
    DecimalRoundTrip(m);
  }

  /** Two different counts never give the same heading. */
  lemma HeadingDeterminesCount(n: nat, m: nat)
    requires HeadingText(n) == HeadingText(m)
    ensures n == m
  {
    CountPrefixDetermines(HeadingText(n), n, m);
  }

  /** The priority heading, too, determines the count it was made from,
      whatever the priority names. */
  lemma PrioHeadingDeterminesCount(n: nat, m: nat, filterPrio: string, otherPrio: string)
    requires PrioHeadingText(n, filterPrio) == PrioHeadingText(m, otherPrio)
    ensures n == m
  {
    CountPrefixDetermines(PrioHeadingText(n, filterPrio), n, m);
  }

  /** A heading names exactly one count: the one it was made from. */
  lemma HeadingNamesOneCount(n: nat, filterPrio: string)
    ensures forall m: nat :: HeadingText(m) == HeadingText(n) <==> m == n
    ensures forall m: nat :: PrioHeadingText(m, filterPrio) == PrioHeadingText(n, filterPrio) <==> m == n
  {
    forall m: nat | HeadingText(m) == HeadingText(n) {
      HeadingDeterminesCount(m, n);
    }
    forall m: nat | PrioHeadingText(m, filterPrio) == PrioHeadingText(n, filterPrio) {
      PrioHeadingDeterminesCount(m, n, filterPrio, filterPrio);
    }
  }

  /** `headingText` as the page builds it: from the length of the visible
      list. The heading names the visible count and no other. */
  function ListHeading(tasks: TasksValue, filter: string, filterPrio: string): (h: string)
    requires filter in FilterMap && filterPrio in FilterPrioMap
    ensures forall m: nat :: h == HeadingText(m) <==> m == |TaskList(tasks, filter, filterPrio)|
  {
    var n := |TaskList(tasks, filter, filterPrio)|;
    HeadingNamesOneCount(n, filterPrio);
    HeadingText(n)
  }

  /** `prioHeadingText` as the page builds it: from the length of the visible
      list and the selected priority name. It names the visible count and no
      other. */
  function ListPrioHeading(tasks: TasksValue, filter: string, filterPrio: string): (h: string)
    requires filter in FilterMap && filterPrio in FilterPrioMap
    ensures forall m: nat :: h == PrioHeadingText(m, filterPrio) <==> m == |TaskList(tasks, filter, filterPrio)|
  {
    var n := |TaskList(tasks, filter, filterPrio)|;
    HeadingNamesOneCount(n, filterPrio);
    PrioHeadingText(n, filterPrio)
  }

  /** A `tasks` value that is not an array shows no record, and the heading
      says so. */
  lemma NonArrayHeading(filter: string, filterPrio: string)
    requires filter in FilterMap && filterPrio in FilterPrioMap
    ensures ListHeading(NonArrayValue, filter, filterPrio) == "0 tasks remaining"
  {
    assert ListHeading(NonArrayValue, filter, filterPrio) == HeadingText(0);
    ZeroHeadings(filterPrio);
  }

  /** The priority heading of a `tasks` value that is not an array counts no
      record either. */
  lemma NonArrayPrioHeading(filter: string, filterPrio: string)
    requires filter in FilterMap && filterPrio in FilterPrioMap
    ensures ListPrioHeading(NonArrayValue, filter, filterPrio) == "0 tasks " + filterPrio + " priority"
  {
    assert ListPrioHeading(NonArrayValue, filter, filterPrio) == PrioHeadingText(0, filterPrio);
    ZeroHeadings(filterPrio);
  }

  /** The headings for no visible record. */
  lemma ZeroHeadings(filterPrio: string)
    ensures HeadingText(0) == "0 tasks remaining"
    ensures PrioHeadingText(0, filterPrio) == "0 tasks " + filterPrio + " priority"
  {
    var d := DecimalText(0);
    assert d == "0";
    assert d + " tasks " == "0 tasks ";
  }

  /** Under the "Active" status filter, the view keeps the records that are
      not completed: one completed record out of three leaves two. */
  lemma ActiveCountExample()
    ensures |TaskList(ArrayValue([Task("a", "Eat", false, ""), Task("b", "Sleep", true, "Low"),
      Task("c", "Repeat", false, "High")]), "Active", "All")| == 2
  {
  }

  /** The heading above that view reads "2 tasks remaining". */
  lemma ActiveHeadingExample()
    ensures ListHeading(ArrayValue([Task("a", "Eat", false, ""), Task("b", "Sleep", true, "Low"),
      Task("c", "Repeat", false, "High")]), "Active", "All") == "2 tasks remaining"
  {
    ActiveCountExample();
    TwoTasksHeading();
  }

  /** The heading for two visible records. */
  lemma TwoTasksHeading()
    ensures HeadingText(2) == "2 tasks remaining"
  {
  }

  /** The focus effect's test `tasks.length < prevTaskLength`. On the first
      render the previous length is null, which compares as 0, so the test
      fails. */
  function HeadingFocus(previous: Option<nat>, current: nat): (focus: bool)
    ensures previous.None? ==> !focus
    ensures focus ==> current < previous.value
    ensures previous.Some? && current < previous.value ==> focus
  {
    match previous
    case None => false
    case Some(p) => current < p
  }

  /** Adding, toggling and editing never move the focus to the heading; an
      edit of an absent id leaves the collection as it was. */
  lemma NoFocusAfterAddToggleEdit(tasks: seq<Task>, name: string, priority: string, created: Reply<Task>,
                                  id: string, newName: string, newPriority: string, updated: Reply<()>)
    ensures !HeadingFocus(Some(|tasks|), |AddTask(tasks, name, priority, created)|)
    ensures HasId(tasks, id) ==> !HeadingFocus(Some(|tasks|), |ToggleTask(tasks, id, updated)|)
    ensures !HeadingFocus(Some(|tasks|), |EditTask(tasks, id, newName, newPriority, updated)|)
  {
  }

  /** A delete moves the focus to the heading exactly when the store answered
      200 and a record with the id was there to remove. */
  lemma FocusAfterDelete(tasks: seq<Task>, id: string, reply: Reply<int>)
    ensures HeadingFocus(Some(|tasks|), |DeleteTask(tasks, id, reply)|)
      <==> reply == Resolved(200) && HasId(tasks, id)
  {
    DeleteTaskCount(tasks, id);
    if reply == Resolved(200) && HasId(tasks, id) {
      var k := FirstIndex(tasks, id);
      assert MatchesId(id)(tasks[k]);
      assert tasks[k] in Filter(tasks, MatchesId(id));
    }
  }
}
