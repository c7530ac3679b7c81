/** The hand-off between the two goal screens: Continue on the details
    screen pushes the task list with the goal name as its `newGoalTitle`
    parameter, and the list's effect turns that parameter into a task. */
module GoalFlow {
  import opened Options
  import opened Text
  import opened DraftStore
  import Schedule

  /** Continue pressed with `goalName`: the parameter arrives at the list
      when something is published, and the list is otherwise untouched. */
  function Publish(s: Store, goalName: string): (r: Store)
    ensures r.tasks == s.tasks
    ensures Schedule.PressContinue(goalName).None? ==> r == s
    ensures Schedule.PressContinue(goalName).Some? ==> r.param == Text(goalName)
  {
    match Schedule.PressContinue(goalName)
    case None => s
    case Some(title) => Step(s, Arrive(Text(title)))
  }

  /** A name with a visible character, published under the cap, becomes
      exactly one new task at the end of the list, spelled as typed
      (untrimmed), and the slot is cleared. */
  lemma ContinueAddsTask(s: Store, goalName: string, freshId: string)
    requires |s.tasks| < FreeLimit
    requires exists i :: 0 <= i < |goalName| && !IsWhitespace(goalName[i])
    ensures Consume(Publish(s, goalName), freshId)
            == Store(s.tasks + [Task(freshId, goalName)], Text(""))
  {
    Schedule.ContinueIsHandleCreate(goalName);
    var p := Publish(s, goalName);
    assert HasTitle(p.param);
    var r := Consume(p, freshId);
    assert r.tasks == s.tasks + [Task(freshId, goalName)];
  }

  /** A name of whitespace only publishes nothing, so a list with no pending
      title stays exactly as it was. */
  lemma BlankNameAddsNothing(s: Store, goalName: string, freshId: string)
    requires AllWhitespace(goalName) && !HasTitle(s.param)
    ensures Consume(Publish(s, goalName), freshId) == s
  {
    Schedule.ContinueIsHandleCreate(goalName);
  }

  /** Four goals published one after another onto an empty list: the first
      three become tasks in order, the fourth is dropped by the cap and its
      parameter is still cleared. */
  lemma FourthGoalDropped(a: string, b: string, c: string, d: string)
    requires |a| > 0 && |b| > 0 && |c| > 0 && |d| > 0
    ensures Run(Mount(Absent),
                [Arrive(Text(a)), Observe("1"), Arrive(Text(b)), Observe("2"),
                 Arrive(Text(c)), Observe("3"), Arrive(Text(d)), Observe("4")])
            == Store([Task("1", a), Task("2", b), Task("3", c)], Text(""))
  {
    var s0 := Mount(Absent);
    var s1 := Consume(s0.(param := Text(a)), "1");
    var s2 := Consume(s1.(param := Text(b)), "2");
    var s3 := Consume(s2.(param := Text(c)), "3");
    var s4 := Consume(s3.(param := Text(d)), "4");
    assert s1.tasks == [Task("1", a)];
    assert s2.tasks == [Task("1", a), Task("2", b)];
    assert s3.tasks == [Task("1", a), Task("2", b), Task("3", c)];
    assert s4 == s3;
    var evs := [Arrive(Text(a)), Observe("1"), Arrive(Text(b)), Observe("2"),
                Arrive(Text(c)), Observe("3"), Arrive(Text(d)), Observe("4")];
    assert Run(s0, evs) == Run(s1, evs[2..]);
    assert Run(s1, evs[2..]) == Run(s2, evs[4..]);
    assert Run(s2, evs[4..]) == Run(s3, evs[6..]);
    assert Run(s3, evs[6..]) == Run(s4, evs[8..]);
  }
}
