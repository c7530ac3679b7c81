/** The task list of the "Create New Goal" screen (addgoal.tsx): an ordered
    list of tasks capped at the free tier's limit, fed one title at a time
    through the `newGoalTitle` navigation parameter, trimmed by the delete
    icon and reordered by the drag gesture. */
module DraftStore {
  import opened Options

  datatype Task = Task(id: string, text: string)

  /** The `newGoalTitle` route parameter as expo-router delivers it: missing,
      one string, or several strings when the key is repeated. */
  datatype Param = Absent | Text(value: string) | List(values: seq<string>)

  /** The screen's state: its task list and the parameter slot it observes. */
  datatype Store = Store(tasks: seq<Task>, param: Param)

  /** The free tier admits this many tasks. */
  const FreeLimit: nat := 3

  /** The store as the screen mounts with parameter `p`. */
  function Mount(p: Param): (s: Store)
    ensures s.tasks == [] && s.param == p
  {
    Store([], p)
  }

  predicate IsLimitReached(tasks: seq<Task>) {
    |tasks| >= FreeLimit
  }

  /** The parameter carries a title the screen acts on: a string, and not the
      empty one. */
  predicate HasTitle(p: Param) {
    p.Text? && |p.value| > 0
  }

  function Ids(tasks: seq<Task>): (r: seq<string>)
    ensures |r| == |tasks| && forall i :: 0 <= i < |tasks| ==> r[i] == tasks[i].id
  {
    if tasks == [] then [] else [tasks[0].id] + Ids(tasks[1..])
  }

  predicate UniqueIds(tasks: seq<Task>) {
    forall i, j :: 0 <= i < j < |tasks| ==> tasks[i].id != tasks[j].id
  }

  /** The effect on `newGoalTitle`. A present, non-empty string title becomes
      a new task with id `freshId` at the end of the list, unless the list is
      already at the limit; either way the parameter is then reset to ''. Any
      other parameter leaves the store as it is. `freshId` stands for the id
      the source builds from the clock and a random number. */
  function Consume(s: Store, freshId: string): (r: Store)
    ensures !HasTitle(s.param) ==> r == s
    ensures HasTitle(s.param) ==> r.param == Text("")
    ensures HasTitle(s.param) && !IsLimitReached(s.tasks) ==>
              && |r.tasks| == |s.tasks| + 1
              && r.tasks[..|s.tasks|] == s.tasks
              && r.tasks[|s.tasks|] == Task(freshId, s.param.value)
    ensures IsLimitReached(s.tasks) ==> r.tasks == s.tasks
  {
    if HasTitle(s.param) then
      var tasks := if IsLimitReached(s.tasks) then s.tasks
                   else s.tasks + [Task(freshId, s.param.value)];
      Store(tasks, Text(""))
    else s
  }

  /** The tasks whose id is not `id`, in their original order (the delete
      icon's `filter`). */
  function Delete(tasks: seq<Task>, id: string): (r: seq<Task>)
    ensures |r| <= |tasks|
    ensures forall t :: t in r <==> t in tasks && t.id != id
    decreases |tasks|
  {
    if tasks == [] then []
    else
      var rest := Delete(tasks[1..], id);
      assert tasks == [tasks[0]] + tasks[1..];
      if tasks[0].id == id then rest else [tasks[0]] + rest
  }

  /** The drag gesture's result replaces the list wholesale; the parameter
      slot is untouched. Nothing checks that `order` is a permutation of the
      current list. */
  function Reorder(s: Store, order: seq<Task>): (r: Store)
    ensures r.tasks == order && r.param == s.param
  {
    s.(tasks := order)
  }

  datatype Route = GoalDetails

  /** Either add control (the "+" circle and "Create Goal"): disabled at the
      limit, and otherwise a press opens the goal-details screen. */
  function PressAdd(tasks: seq<Task>): (r: Option<Route>)
    ensures r.Some? <==> |tasks| < FreeLimit
    ensures r.Some? ==> r.value == GoalDetails
  {
    if IsLimitReached(tasks) then None else Some(GoalDetails)
  }

  // ------------------------------------------------------------ properties

  /** The add controls are enabled exactly when a title published from the
      details screen would be kept: a press that gets through is never
      followed by a dropped goal, and a disabled control hides no room. */
  lemma PressAddPredictsAppend(s: Store, t: string, id: string)
    requires |t| > 0
    ensures PressAdd(s.tasks).Some? <==> Consume(s.(param := Text(t)), id).tasks == s.tasks + [Task(id, t)]
  {
  }

  /** Consuming twice with no publish in between acts once: the first call
      leaves nothing for the second. */
  lemma ConsumeOnce(s: Store, id1: string, id2: string)
    ensures Consume(Consume(s, id1), id2) == Consume(s, id1)
  {
  }

  /** Delete concatenates: deleting from a split list deletes from each part. */
  lemma {:induction false} DeleteAppend(a: seq<Task>, b: seq<Task>, id: string)
    ensures Delete(a + b, id) == Delete(a, id) + Delete(b, id)
    decreases |a|
  {
    if a == [] {
      assert a + b == b;
    } else {
      assert (a + b)[1..] == a[1..] + b;
      DeleteAppend(a[1..], b, id);
    }
  }

  /** Delete on a single task keeps it exactly when its id differs. With
      DeleteAppend this pins Delete down as the order-preserving filter. */
  lemma DeleteSingle(t: Task, id: string)
    ensures Delete([t], id) == (if t.id == id then [] else [t])
  {
  }

  /** Deleting an id no task carries changes nothing. */
  lemma {:induction false} DeleteAbsent(tasks: seq<Task>, id: string)
    requires forall t :: t in tasks ==> t.id != id
    ensures Delete(tasks, id) == tasks
    decreases |tasks|
  {
    if tasks != [] {
      DeleteAbsent(tasks[1..], id);
      assert tasks == [tasks[0]] + tasks[1..];
    }
  }

  /** Deleting the same id twice is the same as deleting it once. */
  lemma DeleteIdempotent(tasks: seq<Task>, id: string)
    ensures Delete(Delete(tasks, id), id) == Delete(tasks, id)
  {
    DeleteAbsent(Delete(tasks, id), id);
  }

  /** Delete drops every task with the id and keeps the number of tasks
      carrying any other id. */
  lemma {:induction false} DeleteIdCounts(tasks: seq<Task>, id: string, x: string)
    ensures IdCount(Delete(tasks, id), id) == 0
    ensures x != id ==> IdCount(Delete(tasks, id), x) == IdCount(tasks, x)
    decreases |tasks|
  {
    if tasks != [] {
      DeleteIdCounts(tasks[1..], id, x);
      var rest := Delete(tasks[1..], id);
      assert ([tasks[0]] + rest)[1..] == rest;
    }
  }

  /** Delete removes exactly one task when the ids are unique and the id is
      present, and keeps the ids unique. */
  lemma {:induction false} DeleteUnique(tasks: seq<Task>, id: string)
    requires UniqueIds(tasks)
    ensures UniqueIds(Delete(tasks, id))
    ensures id in Ids(tasks) ==> |Delete(tasks, id)| == |tasks| - 1
    decreases |tasks|
  {
    if tasks != [] {
      DeleteUnique(tasks[1..], id);
      var rest := Delete(tasks[1..], id);
      assert tasks == [tasks[0]] + tasks[1..];
      if tasks[0].id == id {
        DeleteAbsent(tasks[1..], id);
      } else {
        assert id in Ids(tasks) ==> id in Ids(tasks[1..]);
        var r := [tasks[0]] + rest;
        forall i, j | 0 <= i < j < |r|
          ensures r[i].id != r[j].id
        {
          if i == 0 {
            assert r[j] in rest;
          }
        }
      }
    }
  }

  // ------------------------------------------------------- permutations

  predicate IsPermutation(a: seq<Task>, b: seq<Task>) {
    multiset(a) == multiset(b)
  }

  /** How many tasks carry the id `x`. */
  function IdCount(tasks: seq<Task>, x: string): nat
    decreases |tasks|
  {
    if tasks == [] then 0
    else (if tasks[0].id == x then 1 else 0) + IdCount(tasks[1..], x)
  }

  lemma {:induction false} IdCountAppend(a: seq<Task>, b: seq<Task>, x: string)
    ensures IdCount(a + b, x) == IdCount(a, x) + IdCount(b, x)
    decreases |a|
  {
    if a == [] {
      assert a + b == b;
    } else {
      assert (a + b)[1..] == a[1..] + b;
      IdCountAppend(a[1..], b, x);
    }
  }

  /** An id occurs in the list exactly when some task carries it. */
  lemma {:induction false} IdCountPositive(tasks: seq<Task>, x: string)
    ensures IdCount(tasks, x) > 0 <==> x in Ids(tasks)
    decreases |tasks|
  {
    if tasks != [] {
      IdCountPositive(tasks[1..], x);
      assert Ids(tasks) == [tasks[0].id] + Ids(tasks[1..]);
    }
  }

  /** Taking the task at `k` out of a list takes its id out once. */
  lemma IdCountRemoveAt(b: seq<Task>, k: int, x: string)
    requires 0 <= k < |b|
    ensures IdCount(b, x) == IdCount(b[..k] + b[k + 1..], x) + (if b[k].id == x then 1 else 0)
  {
    assert b == b[..k] + [b[k]] + b[k + 1..];
    IdCountAppend(b[..k] + [b[k]], b[k + 1..], x);
    IdCountAppend(b[..k], [b[k]], x);
    IdCountAppend(b[..k], b[k + 1..], x);
  }

  /** Taking the task at `k` out of a list takes it out of its multiset once. */
  lemma MultisetRemoveAt(b: seq<Task>, k: int)
    requires 0 <= k < |b|
    ensures multiset(b[..k] + b[k + 1..]) == multiset(b) - multiset{b[k]}
  {
    assert b == b[..k] + [b[k]] + b[k + 1..];
    assert multiset(b) == multiset(b[..k]) + multiset{b[k]} + multiset(b[k + 1..]);
  }

  /** Taking the head of one list and the same task out of a permutation of
      it leaves two lists that are again permutations of each other. */
  lemma PermutationRemoveHead(a: seq<Task>, b: seq<Task>, k: int)
    requires IsPermutation(a, b) && a != [] && 0 <= k < |b| && b[k] == a[0]
    ensures IsPermutation(a[1..], b[..k] + b[k + 1..])
  {
    MultisetRemoveAt(b, k);
    MultisetTail(a);
  }

  lemma MultisetTail(a: seq<Task>)
    requires a != []
    ensures multiset(a[1..]) == multiset(a) - multiset{a[0]}
  {
    assert a == [a[0]] + a[1..];
  }

  /** A permutation of the tasks carries each id as often as the original. */
  lemma {:induction false} PermutationKeepsIdCounts(a: seq<Task>, b: seq<Task>, x: string)
    requires IsPermutation(a, b)
    ensures IdCount(a, x) == IdCount(b, x)
    decreases |a|
  {
    if a == [] {
      assert |multiset(b)| == 0;
    } else {
      var t := a[0];
      assert t in multiset(a);
      var k :| 0 <= k < |b| && b[k] == t;
      var rest := b[..k] + b[k + 1..];
      PermutationRemoveHead(a, b, k);
      PermutationKeepsIdCounts(a[1..], rest, x);
      IdCountRemoveAt(b, k, x);
    }
  }

  /** Uniqueness of a non-empty list splits into its head and its tail. */
  lemma UniqueCons(tasks: seq<Task>)
    requires tasks != []
    ensures UniqueIds(tasks) <==> UniqueIds(tasks[1..]) && tasks[0].id !in Ids(tasks[1..])
  {
    var rest := tasks[1..];
    if UniqueIds(rest) && tasks[0].id !in Ids(rest) {
      forall i, j | 0 <= i < j < |tasks| ensures tasks[i].id != tasks[j].id {
        if i == 0 {
          assert Ids(rest)[j - 1] == tasks[j].id;
        } else {
          assert rest[i - 1] == tasks[i] && rest[j - 1] == tasks[j];
        }
      }
    }
    if UniqueIds(tasks) {
      forall i, j | 0 <= i < j < |rest| ensures rest[i].id != rest[j].id {
        assert rest[i] == tasks[i + 1] && rest[j] == tasks[j + 1];
      }
    }
  }

  /** No id is carried by two tasks. */
  ghost predicate AtMostOnce(tasks: seq<Task>) {
    forall x :: IdCount(tasks, x) <= 1
  }

  /** Ids are unique exactly when no id is carried by two tasks. */
  lemma {:induction false} UniqueIffSingleOccurrences(tasks: seq<Task>)
    ensures UniqueIds(tasks) <==> AtMostOnce(tasks)
    decreases |tasks|
  {
    if tasks != [] {
      var rest, h := tasks[1..], tasks[0].id;
      UniqueIffSingleOccurrences(rest);
      UniqueCons(tasks);
      IdCountPositive(rest, h);
      if AtMostOnce(tasks) {
        forall x ensures IdCount(rest, x) <= 1 {
          assert IdCount(tasks, x) == (if h == x then 1 else 0) + IdCount(rest, x);
        }
        assert IdCount(tasks, h) == 1 + IdCount(rest, h);
      }
      if UniqueIds(tasks) {
        forall x ensures IdCount(tasks, x) <= 1 {
          assert IdCount(tasks, x) == (if h == x then 1 else 0) + IdCount(rest, x);
        }
      }
    } else {
      assert forall x :: IdCount(tasks, x) == 0;
    }
  }

  /** Reordering by a permutation of the current list keeps its length, the
      number of tasks per id, the cap and the uniqueness of ids. */
  lemma ReorderByPermutation(s: Store, order: seq<Task>)
    requires IsPermutation(order, s.tasks)
    ensures |Reorder(s, order).tasks| == |s.tasks|
    ensures forall x :: IdCount(Reorder(s, order).tasks, x) == IdCount(s.tasks, x)
    ensures |s.tasks| <= FreeLimit ==> |Reorder(s, order).tasks| <= FreeLimit
    ensures UniqueIds(s.tasks) ==> UniqueIds(Reorder(s, order).tasks)
  {
    assert |multiset(order)| == |multiset(s.tasks)|;
    forall x ensures IdCount(order, x) == IdCount(s.tasks, x) {
      PermutationKeepsIdCounts(order, s.tasks, x);
    }
    UniqueIffSingleOccurrences(order);
    UniqueIffSingleOccurrences(s.tasks);
  }

  // --------------------------------------------------- runs of the screen

  /** What can happen to the screen: navigation delivers a parameter (the
      details screen's Continue, or any other route to it), the effect runs,
      the delete icon is pressed, a drag ends. */
  datatype Event =
    | Arrive(param: Param)
    | Observe(freshId: string)
    | DeleteTask(id: string)
    | DragEnd(order: seq<Task>)

  function Step(s: Store, e: Event): Store {
    match e
    case Arrive(p) => s.(param := p)
    case Observe(freshId) => Consume(s, freshId)
    case DeleteTask(id) => s.(tasks := Delete(s.tasks, id))
    case DragEnd(order) => Reorder(s, order)
  }

  function Run(s: Store, events: seq<Event>): Store
    decreases |events|
  {
    if events == [] then s else Run(Step(s, events[0]), events[1..])
  }

  /** Every drag along the run hands back a permutation of the list it
      started from. */
  predicate DragsPermute(s: Store, events: seq<Event>)
    decreases |events|
  {
    events == [] ||
    ((events[0].DragEnd? ==> IsPermutation(events[0].order, s.tasks))
     && DragsPermute(Step(s, events[0]), events[1..]))
  }

  /** Every id the clock-and-random generator supplies along the run is new
      to the list at that moment. */
  predicate IdsFresh(s: Store, events: seq<Event>)
    decreases |events|
  {
    events == [] ||
    ((events[0].Observe? ==> events[0].freshId !in Ids(s.tasks))
     && IdsFresh(Step(s, events[0]), events[1..]))
  }

  /** The freemium cap holds along any run of arrivals, effects, deletions
      and honest drags: the list never grows beyond FreeLimit. */
  lemma {:induction false} CapHolds(s: Store, events: seq<Event>)
    requires |s.tasks| <= FreeLimit
    requires DragsPermute(s, events)
    ensures |Run(s, events).tasks| <= FreeLimit
    decreases |events|
  {
    if events != [] {
      var e := events[0];
      if e.DragEnd? {
        ReorderByPermutation(s, e.order);
      }
      CapHolds(Step(s, e), events[1..]);
    }
  }

  /** Ids stay unique along any run whose generated ids are fresh and whose
      drags are permutations; the source itself only makes a clash unlikely. */
  lemma {:induction false} IdsStayUnique(s: Store, events: seq<Event>)
    requires UniqueIds(s.tasks)
    requires DragsPermute(s, events) && IdsFresh(s, events)
    ensures UniqueIds(Run(s, events).tasks)
    decreases |events|
  {
    if events != [] {
      var e := events[0];
      match e {
      case Arrive(_) =>
      case Observe(freshId) =>
        var r := Consume(s, freshId);
        if HasTitle(s.param) && !IsLimitReached(s.tasks) {
          forall i, j | 0 <= i < j < |r.tasks| ensures r.tasks[i].id != r.tasks[j].id {
            if j == |s.tasks| {
              assert r.tasks[i] == s.tasks[i];
              assert Ids(s.tasks)[i] == s.tasks[i].id;
            } else {
              assert r.tasks[i] == s.tasks[i] && r.tasks[j] == s.tasks[j];
            }
          }
        }
      case DeleteTask(id) => DeleteUnique(s.tasks, id);
      case DragEnd(order) => ReorderByPermutation(s, order);
      }
      IdsStayUnique(Step(s, e), events[1..]);
    }
  }
}
