/** The home screen's task list (index.tsx): fixed starting tasks whose done
    mark flips when tapped. */
module HomeTasks {

  datatype HomeTask = HomeTask(id: int, text: string, done: bool)

  /** The list the screen starts with. */
  function InitialTasks(): (ts: seq<HomeTask>)
    ensures |ts| == 2
    ensures ts[0].id == 1 && ts[1].id == 2
    ensures !ts[0].done && !ts[1].done
  {
    [HomeTask(1, "Practice vocabulary (30 min)", false),
     HomeTask(2, "Write 5 sentences", false)]
  }

  /** `toggleTask`: every task carrying `id` has its done mark flipped; the
      list keeps its length and order, and every other field and task is
      left alone. */
  function Toggle(tasks: seq<HomeTask>, id: int): (r: seq<HomeTask>)
    ensures |r| == |tasks|
    ensures forall i :: 0 <= i < |tasks| ==>
              && r[i].id == tasks[i].id && r[i].text == tasks[i].text
              && (r[i].done <==> (if tasks[i].id == id then !tasks[i].done else tasks[i].done))
    decreases |tasks|
  {
    if tasks == [] then []
    else
      var t := tasks[0];
      [if t.id == id then t.(done := !t.done) else t] + Toggle(tasks[1..], id)
  }

  /** Toggling the same id twice gives back the list. */
  lemma ToggleTwice(tasks: seq<HomeTask>, id: int)
    ensures Toggle(Toggle(tasks, id), id) == tasks
  {
    var r := Toggle(Toggle(tasks, id), id);
    assert forall i :: 0 <= i < |tasks| ==> r[i] == tasks[i];
  }

  /** An id no task carries changes nothing. */
  lemma ToggleAbsent(tasks: seq<HomeTask>, id: int)
    requires forall i :: 0 <= i < |tasks| ==> tasks[i].id != id
    ensures Toggle(tasks, id) == tasks
  {
    var r := Toggle(tasks, id);
    assert forall i :: 0 <= i < |tasks| ==> r[i] == tasks[i];
  }

  /** Taps on two tasks may be made in either order. */
  lemma ToggleCommutes(tasks: seq<HomeTask>, a: int, b: int)
    ensures Toggle(Toggle(tasks, a), b) == Toggle(Toggle(tasks, b), a)
  {
    var l, r := Toggle(Toggle(tasks, a), b), Toggle(Toggle(tasks, b), a);
    assert forall i :: 0 <= i < |tasks| ==> l[i] == r[i];
  }

  /** On the starting list, a tap on task 1 marks it done and leaves task 2
      open. */
  lemma FirstTapOnInitial()
    ensures var ts := Toggle(InitialTasks(), 1);
            ts[0].done && !ts[1].done
  {
  }
}
