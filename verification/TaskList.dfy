/** The run queue of src/task/task.c:14-106: a doubly linked list of tasks and the one running. */
module TaskList {
  import opened Words
  import opened Sequences

  class Task {
    const address: Word // where the struct is
    const directory: Word // task->page_directory
    var next: Task?
    var prev: Task?

    constructor (at: Word, pageDirectory: Word)
      ensures address == at && directory == pageDirectory && next == null && prev == null
    {
      address, directory, next, prev := at, pageDirectory, null, null;
    }
  }

  /** The task that runs after task i of n */
  function NextIndex(i: nat, n: nat): nat
    requires i < n
  {
    if i + 1 == n then 0 else i + 1
  }

  ghost function Nexts(s: seq<Task>): (r: seq<Task?>)
    reads s
    ensures |r| == |s| && forall i {:trigger r[i]} {:trigger s[i].next} | 0 <= i < |s| :: r[i] == s[i].next
  {
    seq(|s|, i requires 0 <= i < |s| reads s => s[i].next)
  }

  ghost function Prevs(s: seq<Task>): (r: seq<Task?>)
    reads s
    ensures |r| == |s| && forall i {:trigger r[i]} {:trigger s[i].prev} | 0 <= i < |s| :: r[i] == s[i].prev
  {
    seq(|s|, i requires 0 <= i < |s| reads s => s[i].prev)
  }

  /** The prev links describe the sequence backwards. */
  ghost predicate BackLinked(s: seq<Task>, prev: seq<Task?>) {
    |prev| == |s| && forall i | 0 <= i < |s| :: prev[i] == if i > 0 then s[i - 1] else null
  }

  lemma LinksWithout(s: seq<Task>, k: nat)
    requires k < |s|
    ensures Nexts(Without(s, k)) == Without(Nexts(s), k) && Prevs(Without(s, k)) == Without(Prevs(s), k)
  {
    forall i | 0 <= i < |s| - 1
      ensures Nexts(Without(s, k))[i] == Without(Nexts(s), k)[i] && Prevs(Without(s, k))[i] == Without(Prevs(s), k)[i]
    {
      hide Nexts, Prevs, Without;
      if i < k {
        assert Without(s, k)[i] == s[i];
      } else {
        assert Without(s, k)[i] == s[i + 1];
      }
    }
  }

  /** Taking out a task and leaving the prev links alone */
  lemma BackWithout(s: seq<Task>, prev: seq<Task?>, k: nat)
    requires BackLinked(s, prev) && k < |s| && forall i, j | 0 <= i < j < |s| :: s[i] != s[j]
    ensures PrevFits(s, k, prev[k])
    ensures BackLinked(Without(s, k), Without(prev, k)) <==> k == |s| - 1
    ensures k < |s| - 1 ==> Without(prev, k)[k] == s[k]
  {
    var s', prev' := Without(s, k), Without(prev, k);
    if k < |s| - 1 {
      assert prev'[k] == prev[k + 1] == s[k];
    } else {
      assert forall i | 0 <= i < |s'| :: s'[i] == s[i] && prev'[i] == prev[i];
    }
  }

  /** The ends and the next links, next[i] of task s[i], describe the sequence s. */
  ghost predicate Linked(s: seq<Task>, head: Task?, tail: Task?, next: seq<Task?>) {
    && |next| == |s| && (forall i, j | 0 <= i < j < |s| :: s[i] != s[j])
    && head == (if s == [] then null else s[0])
    && tail == (if s == [] then null else s[|s| - 1])
    && forall i | 0 <= i < |s| :: next[i] == if i + 1 < |s| then s[i + 1] else null
  }

  /** task_list_remove can follow this prev link of task k: it leads to the task in front, or,
      from the head, to nothing that is in the list. */
  ghost predicate PrevFits(s: seq<Task>, k: nat, prev: Task?)
    requires k < |s|
  {
    if k > 0 then prev == s[k - 1] else prev == null || (|s| > 1 && (prev !in s || prev == s[0]))
  }

  /** The next links when the one of the task at the prev link has been set to task k's. */
  ghost function Skipped(s: seq<Task>, next: seq<Task?>, k: nat, prev: Task?): (r: seq<Task?>)
    requires k < |s| == |next|
    ensures |r| == |s| && forall i | 0 <= i < |s| :: r[i] == if s[i] == prev then next[k] else next[i]
  {
    seq(|s|, i requires 0 <= i < |s| => if s[i] == prev then next[k] else next[i])
  }

  lemma FittingSkips(s: seq<Task>, head: Task?, tail: Task?, next: seq<Task?>, k: nat, prev: Task?)
    requires Linked(s, head, tail, next) && k < |s| && PrevFits(s, k, prev)
    ensures Linked(Without(s, k), if k > 0 then head else next[0], if k + 1 < |s| then tail else prev,
                   Without(Skipped(s, next, k, prev), k))
  {
    DistinctWithout(s, k);
    EndsWithout(s, head, tail, next, k, prev);
    hide Linked, Skipped, Without, PrevFits;
    var s', next' := Without(s, k), Without(Skipped(s, next, k, prev), k);
    forall i | 0 <= i < |s'|
      ensures next'[i] == if i + 1 < |s'| then s'[i + 1] else null
    {
      NextWithout(s, head, tail, next, k, prev, i);
    }
    AllLinked(s', if k > 0 then head else next[0], if k + 1 < |s| then tail else prev, next');
  }

  lemma AllLinked(s: seq<Task>, head: Task?, tail: Task?, next: seq<Task?>)
    requires |next| == |s| && (forall i, j | 0 <= i < j < |s| :: s[i] != s[j])
    requires head == (if s == [] then null else s[0]) && tail == (if s == [] then null else s[|s| - 1])
    requires forall i | 0 <= i < |s| :: next[i] == if i + 1 < |s| then s[i + 1] else null
    ensures Linked(s, head, tail, next)
  {
  }

  lemma EndsWithout(s: seq<Task>, head: Task?, tail: Task?, next: seq<Task?>, k: nat, prev: Task?)
    requires Linked(s, head, tail, next) && k < |s| && PrevFits(s, k, prev)
    ensures (if k > 0 then head else next[0]) == if |s| == 1 then null else Without(s, k)[0]
    ensures (if k + 1 < |s| then tail else prev) == if |s| == 1 then null else Without(s, k)[|s| - 2]
  {
  }

  lemma NextWithout(s: seq<Task>, head: Task?, tail: Task?, next: seq<Task?>, k: nat, prev: Task?, i: nat)
    requires Linked(s, head, tail, next) && k < |s| && PrevFits(s, k, prev) && i + 1 < |s| == |next|
    ensures Without(Skipped(s, next, k, prev), k)[i] == if i + 2 < |s| then Without(s, k)[i + 1] else null
  {
    hide Linked, Skipped, Without, PrevFits;
    if i < k {
      NextOf(s, head, tail, next, k, prev, i);
      WithoutAt(Skipped(s, next, k, prev), k, i);
    } else {
      NextOf(s, head, tail, next, k, prev, i + 1);
      WithoutAt(Skipped(s, next, k, prev), k, i);
    }
    if i + 2 < |s| {
      WithoutAt(s, k, i + 1);
    }
  }

  /** The next link of a task that stays */
  lemma NextOf(s: seq<Task>, head: Task?, tail: Task?, next: seq<Task?>, k: nat, prev: Task?, i: nat)
    requires Linked(s, head, tail, next) && k < |s| && PrevFits(s, k, prev) && i < |s| && i != k
    ensures var j := if i + 1 == k then i + 2 else i + 1;
            Skipped(s, next, k, prev)[i] == if j < |s| then s[j] else null
  {
    hide Skipped;
    assert s[i] in s && (s[i] == prev <==> i + 1 == k);
  }

  lemma UnfitBreaks(s: seq<Task>, head: Task?, tail: Task?, next: seq<Task?>, k: nat, prev: Task?)
    requires Linked(s, head, tail, next) && k < |s| && !PrevFits(s, k, prev)
    ensures !Linked(Without(s, k), if k > 0 then head else next[0], if k + 1 < |s| then tail else prev,
                    Without(Skipped(s, next, k, prev), k))
  {
    hide Skipped, Without;
    var next' := Without(Skipped(s, next, k, prev), k);
    if k > 0 {
      assert next'[k - 1] == next[k - 1] == s[k];
    } else if |s| > 1 {
      var j :| 0 < j < |s| && s[j] == prev;
      assert next'[j - 1] == s[1];
      assert Without(s, k)[j - 1] == prev;
    }
  }

  /** The next links with a task behind the last one */
  ghost function Appended(next: seq<Task?>, task: Task): (r: seq<Task?>)
    ensures |r| == |next| + 1 && r[|next|] == null
    ensures forall i | 0 <= i < |next| :: r[i] == if i + 1 < |next| then next[i] else task
  {
    (if next == [] then [] else next[|next| - 1 := task]) + [null]
  }

  lemma LinkedAppended(s: seq<Task>, head: Task?, tail: Task?, next: seq<Task?>, prev: seq<Task?>, task: Task)
    requires Linked(s, head, tail, next) && task !in s && |prev| == |s|
    ensures (head == null <==> s == []) && (s != [] ==> tail == s[|s| - 1])
    ensures Linked(s + [task], if s == [] then task else head, task, Appended(next, task))
    ensures BackLinked(s + [task], prev + [if s == [] then null else s[|s| - 1]]) <==> BackLinked(s, prev)
  {
    var s', prev' := s + [task], prev + [if s == [] then null else s[|s| - 1]];
    assert forall i | 0 <= i < |s| :: s'[i] == s[i] && prev'[i] == prev[i];
  }

  /** task_head, task_tail and current_task */
  class Queue {
    var head: Task?
    var tail: Task?
    var current: Task?
    ghost var tasks: seq<Task>

    constructor ()
      ensures Valid() && tasks == []
    {
      head, tail, current, tasks := null, null, null, [];
    }

    /** The ends and the next links describe the sequence of tasks. */
    ghost predicate Forward()
      reads this`head, this`tail, this`tasks, tasks
    {
      && (forall i, j | 0 <= i < j < |tasks| :: tasks[i] != tasks[j])
      && head == (if tasks == [] then null else tasks[0])
      && tail == (if tasks == [] then null else tasks[|tasks| - 1])
      && forall i {:trigger tasks[i].next} | 0 <= i < |tasks| ::
           tasks[i].next == if i + 1 < |tasks| then tasks[i + 1] else null
    }

    lemma BackwardIsBackLinked()
      ensures Backward() <==> BackLinked(tasks, Prevs(tasks))
    {
    }

    lemma ForwardIsLinked()
      ensures Forward() <==> Linked(tasks, head, tail, Nexts(tasks))
    {
    }

    /** The prev links describe it backwards. */
    ghost predicate Backward()
      reads this`tasks, tasks
    {
      forall i {:trigger tasks[i].prev} | 0 <= i < |tasks| :: tasks[i].prev == if i > 0 then tasks[i - 1] else null
    }

    ghost predicate Valid()
      reads this, tasks
    {
      Forward() && Backward() && if tasks == [] then current == null else current in tasks
    }

    /** The list part of task_new, for a task cleared by task_init. Prev links that are right stay right. */
    method New(task: Task)
      requires Forward() && task !in tasks && task.next == null && task.prev == null
      modifies this, tasks, task
      ensures Forward() && tasks == old(tasks) + [task]
      ensures Backward() <==> old(Backward())
      ensures current == if old(tasks) == [] then task else old(current)
    {
      hide Linked, BackLinked, Nexts, Prevs;
      ghost var s, next, prev := tasks, Nexts(tasks), Prevs(tasks);
      ForwardIsLinked();
      BackwardIsBackLinked();
      LinkedAppended(s, head, tail, next, prev, task);
      if head == null {
        head, tail, current := task, task, task;
      } else {
        ghost var last := |tasks| - 1;
        assert tasks[last] == tail;
        tail.next := task;
        task.prev := tail;
        tail := task;
      }
      tasks := tasks + [task];
      assert Nexts(tasks) == Appended(next, task);
      assert Prevs(tasks) == prev + [if s == [] then null else s[|s| - 1]];
      ForwardIsLinked();
      BackwardIsBackLinked();
    }

    /** task_get_next */
    method GetNext() returns (task: Task)
      requires Forward() && current in tasks
      ensures forall i | 0 <= i < |tasks| && tasks[i] == current :: task == tasks[NextIndex(i, |tasks|)]
    {
      if current.next == null {
        return head;
      }
      return current.next;
    }

    /** The first half of task_list_remove: the next links skip task k exactly if its prev link
        fits, and every prev link stays. */
    method Unlink(task: Task, ghost k: nat)
      requires Forward() && k < |tasks| && tasks[k] == task
      modifies this, tasks, task.prev
      ensures tasks == Without(old(tasks), k) && (Forward() <==> PrevFits(old(tasks), k, old(task.prev)))
      ensures head == if k > 0 then old(tasks)[0] else task.next
      ensures current == old(current) && task.next == if k + 1 < |old(tasks)| then old(tasks)[k + 1] else null
      ensures Prevs(tasks) == Without(old(Prevs(tasks)), k)
    {
      hide Linked, Without, Skipped, PrevFits, Nexts, Prevs;
      ForwardIsLinked();
      ghost var s, next, first, last, prev := tasks, Nexts(tasks), head, tail, task.prev;
      Detach(task, k);
      LinksWithout(s, k);
      tasks := Without(s, k);
      ForwardIsLinked();
      if PrevFits(s, k, prev) {
        FittingSkips(s, first, last, next, k, prev);
      } else {
        UnfitBreaks(s, first, last, next, k, prev);
      }
    }

    /** The task at the prev link gets the task behind this one as its successor, and the ends move. */
    method Detach(task: Task, ghost k: nat)
      requires Forward() && k < |tasks| && tasks[k] == task
      modifies this`head, this`tail, task.prev
      ensures Nexts(tasks) == Skipped(tasks, old(Nexts(tasks)), k, task.prev)
      ensures Prevs(tasks) == old(Prevs(tasks)) && task.prev == old(task.prev)
      ensures task.next == if k + 1 < |tasks| then tasks[k + 1] else null
      ensures head == if k > 0 then old(head) else task.next
      ensures tail == if k + 1 < |tasks| then old(tail) else task.prev
    {
      if task.prev != null {
        task.prev.next := task.next;
      }
      if task == head {
        head := task.next;
      }
      if task == tail {
        tail := task.prev;
      }
    }

    /** task_list_remove of task k. The next links stay right exactly if the task's prev link fits.
        The successor keeps its old prev link, so a list that was doubly linked stays so exactly
        when the tail was removed. */
    method Remove(task: Task, ghost k: nat)
      requires Forward() && current in tasks && k < |tasks| && tasks[k] == task
      modifies this, tasks, task.prev
      ensures tasks == Without(old(tasks), k) && (Forward() <==> PrevFits(old(tasks), k, old(task.prev)))
      ensures current == if old(current) != task then old(current)
                         else if k + 1 < |old(tasks)| then old(tasks)[k + 1] else head
      ensures head == if k > 0 then old(tasks)[0] else if |old(tasks)| > 1 then old(tasks)[1] else null
      ensures if tasks == [] then current == null else current in tasks
      ensures Prevs(tasks) == Without(old(Prevs(tasks)), k)
      ensures old(Backward()) ==>
                Forward() && if k == |old(tasks)| - 1 then Backward() else !Backward() && tasks[k].prev == task
    {
      hide Without, Prevs, BackLinked, PrevFits;
      ghost var s, prev := tasks, Prevs(tasks);
      BackwardIsBackLinked();
      Unlink(task, k);
      if task == current {
        if current.next == null {
          current := head;
        } else {
          current := current.next;
        }
      }
      BackwardIsBackLinked();
      if BackLinked(s, prev) {
        BackWithout(s, prev, k);
      }
      if current != null {
        ghost var next: Task := current;
        Survives(s, k, next);
      }
    }

    /** So the list does not survive the removal of two neighbours behind the head: the second one's
        prev link still leads to the first, and the task in front keeps its next link. */
    method RemoveNeighbours(first: Task, second: Task, ghost k: nat)
      requires Valid() && 0 < k && k + 1 < |tasks| && tasks[k] == first && tasks[k + 1] == second
      modifies this, tasks
      ensures !Forward() && tasks == Without(Without(old(tasks), k), k)
    {
      ghost var s := tasks;
      assert s[k].prev == s[k - 1] && s[k - 1] != first;
      hide Without, Queue.Forward, Queue.Backward;
      Remove(first, k);
      assert tasks[k] == s[k + 1] && tasks[k - 1] == s[k - 1];
      assert second.prev == first && first in s;
      NothingNew(s, k);
      assert forall i | 0 <= i < |tasks| :: tasks[i] in s;
      Remove(second, k);
    }

    /** task_next and task_switch, n times: round robin. */
    method SwitchTasks(n: nat, ghost i: nat)
      requires Forward() && i < |tasks| && tasks[i] == current
      modifies this`current
      ensures Forward() && current == tasks[Turn(i, n, |tasks|)]
    {
      for m := 0 to n
        invariant Forward() && current == tasks[Turn(i, m, |tasks|)]
      {
        current := GetNext();
      }
    }
  }

  /** Whose turn it is after m switches from task i of n */
  ghost function Turn(i: nat, m: nat, n: nat): (r: nat)
    requires i < n
    ensures r < n
  {
    if m == 0 then i else NextIndex(Turn(i, m - 1, n), n)
  }

  /** Within a round, the turn advances by one and wraps at the end of the list. */
  lemma {:induction false} TurnWithinRound(i: nat, m: nat, n: nat)
    requires i < n && m <= n
    ensures Turn(i, m, n) == if i + m < n then i + m else i + m - n
  {
    if m > 0 {
      TurnWithinRound(i, m - 1, n);
    }
  }

  /** How many switches from task i until task j runs */
  ghost function Wait(i: nat, j: nat, n: nat): nat
    requires i < n && j < n
  {
    if j >= i then j - i else j - i + n
  }

  /** One switch per task visits every task exactly once and comes back to the first. */
  lemma RoundVisitsAll(i: nat, n: nat)
    requires i < n
    ensures Turn(i, n, n) == i
    ensures forall a, b | 0 <= a < b < n :: Turn(i, a, n) != Turn(i, b, n)
    ensures forall j | 0 <= j < n :: Wait(i, j, n) < n && Turn(i, Wait(i, j, n), n) == j
  {
    TurnWithinRound(i, n, n);
    forall a, b | 0 <= a < b < n
      ensures Turn(i, a, n) != Turn(i, b, n)
    {
      TurnWithinRound(i, a, n);
      TurnWithinRound(i, b, n);
    }
    forall j | 0 <= j < n
      ensures Turn(i, Wait(i, j, n), n) == j
    {
      TurnWithinRound(i, Wait(i, j, n), n);
    }
  }
}
