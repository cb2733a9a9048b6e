/**
 task.c: a doubly linked list of tasks, one of them current.
 */
module TaskList {

  class Task {
    var next: Task?
    var prev: Task?

    /** A zeroed struct task. */
    constructor ()
      ensures next == null && prev == null
    {
      next, prev := null, null;
    }
  }

  // ---------------------------------------------------------------------
  // What the pointers have to be
  // ---------------------------------------------------------------------

  /** The pointers of a list: next and prev of its i-th task, and the three globals. */
  datatype Links = Links(next: seq<Task?>, prev: seq<Task?>, head: Task?, tail: Task?, current: Task?)

  function Succ(tasks: seq<Task>, i: nat): Task?
    requires i < |tasks|
  {
    if i + 1 < |tasks| then tasks[i + 1] else null
  }

  function Pred(tasks: seq<Task>, i: nat): Task?
    requires i < |tasks|
  {
    if i == 0 then null else tasks[i - 1]
  }

  predicate Distinct(tasks: seq<Task>) {
    forall i, j :: 0 <= i < j < |tasks| ==> tasks[i] != tasks[j]
  }

  predicate NextRight(tasks: seq<Task>, next: seq<Task?>) {
    |next| == |tasks| && forall i :: 0 <= i < |tasks| ==> next[i] == Succ(tasks, i)
  }

  /** A prev pointer may be stale, but then it points outside the list. */
  predicate PrevHarmless(tasks: seq<Task>, prev: seq<Task?>) {
    |prev| == |tasks| && forall i :: 0 <= i < |tasks| ==> HarmlessAt(tasks, prev, i)
  }

  predicate HarmlessAt(tasks: seq<Task>, prev: seq<Task?>, i: nat)
    requires i < |tasks| == |prev|
  {
    prev[i] == Pred(tasks, i) || prev[i] !in tasks
  }

  predicate EndsRight(tasks: seq<Task>, l: Links) {
    if tasks == [] then l.head == l.tail == l.current == null
    else l.head == tasks[0] && l.tail == tasks[|tasks| - 1] && l.current in tasks
  }

  /** The forward chain, head, tail and current are right; nothing is said about prev pointers. */
  predicate Right(tasks: seq<Task>, l: Links) {
    Distinct(tasks) && NextRight(tasks, l.next) && |l.prev| == |tasks| && EndsRight(tasks, l)
  }

  predicate AllPrevRight(tasks: seq<Task>, prev: seq<Task?>) {
    |prev| == |tasks| && forall i :: 0 <= i < |tasks| ==> prev[i] == Pred(tasks, i)
  }

  /** Right, and every prev pointer is right too. */
  predicate FullyRight(tasks: seq<Task>, l: Links) {
    Right(tasks, l) && AllPrevRight(tasks, l.prev)
  }

  /** The sequence without its i-th element. */
  function Without<T>(s: seq<T>, i: nat): (r: seq<T>)
    requires i < |s|
    ensures |r| == |s| - 1
    ensures forall j :: 0 <= j < |r| ==> r[j] == s[if j < i then j else j + 1]
  {
    s[..i] + s[i + 1..]
  }

  /**
   The prev pointer of task i is good enough to remove it. A first task's prev
   is only stored through, and must not hit a later task; it also becomes the
   tail if there is no other task.
   */
  predicate PrevRight(tasks: seq<Task>, prev: seq<Task?>, i: nat)
    requires i < |tasks| == |prev|
  {
    if i > 0 then prev[i] == tasks[i - 1]
    else if |tasks| == 1 then prev[i] == null
    else prev[i] !in tasks[1..]
  }

  /** The next pointers once the task that the i-th one's prev names, if any, skips it. */
  function Unlinked(tasks: seq<Task>, l: Links, i: nat): (r: seq<Task?>)
    requires i < |tasks| == |l.next| == |l.prev|
    ensures |r| == |tasks|
    ensures forall k :: 0 <= k < |r| ==> r[k] == if tasks[k] == l.prev[i] then l.next[i] else l.next[k]
  {
    seq(|tasks|, k requires 0 <= k < |tasks| => if tasks[k] == l.prev[i] then l.next[i] else l.next[k])
  }

  /** The pointers after task_list_remove of the i-th task. */
  function Removed(tasks: seq<Task>, l: Links, i: nat): Links
    requires i < |tasks| == |l.next| == |l.prev|
  {
    var head := if tasks[i] == l.head then l.next[i] else l.head;
    Links(
      Without(Unlinked(tasks, l, i), i), Without(l.prev, i), head,
      if tasks[i] == l.tail then l.prev[i] else l.tail,
      if tasks[i] != l.current then l.current else if l.next[i] == null then head else l.next[i])
  }

  lemma MemberOfWithout<T>(s: seq<T>, i: nat, x: T)
    requires i < |s| && x in s && x != s[i]
    ensures x in Without(s, i)
  {
    var j :| 0 <= j < |s| && s[j] == x;
    assert Without(s, i)[if j < i then j else j - 1] == x;
  }

  lemma RemoveDistinct(tasks: seq<Task>, i: nat)
    requires Distinct(tasks) && i < |tasks|
    ensures Distinct(Without(tasks, i))
  {
  }

  /** The pointer that has to skip the removed task. */
  lemma SkipInner(tasks: seq<Task>, l: Links, i: nat)
    requires Distinct(tasks) && NextRight(tasks, l.next) && |l.prev| == |tasks| && 0 < i < |tasks|
    ensures Without(Unlinked(tasks, l, i), i)[i - 1] == Succ(Without(tasks, i), i - 1) <==> l.prev[i] == tasks[i - 1]
  {
    assert l.next[i - 1] == tasks[i];
    assert l.next[i] == Succ(tasks, i) == Succ(Without(tasks, i), i - 1) != tasks[i];
  }

  lemma OthersInner(tasks: seq<Task>, l: Links, i: nat, k: nat)
    requires Distinct(tasks) && NextRight(tasks, l.next) && |l.prev| == |tasks| && 0 < i < |tasks|
    requires l.prev[i] == tasks[i - 1] && k < |tasks| - 1 && k != i - 1
    ensures Without(Unlinked(tasks, l, i), i)[k] == Succ(Without(tasks, i), k)
  {
    var j := if k < i then k else k + 1;
    assert tasks[j] != tasks[i - 1];
    assert l.next[j] == Succ(tasks, j) == Succ(Without(tasks, i), k);
  }

  lemma RemoveNextInner(tasks: seq<Task>, l: Links, i: nat)
    requires Right(tasks, l) && 0 < i < |tasks|
    ensures NextRight(Without(tasks, i), Without(Unlinked(tasks, l, i), i)) <==> l.prev[i] == tasks[i - 1]
  {
    hide EndsRight, Distinct, Succ;
    var left, next := Without(tasks, i), Without(Unlinked(tasks, l, i), i);
    SkipInner(tasks, l, i);
    if l.prev[i] == tasks[i - 1] {
      forall k | 0 <= k < |left| ensures next[k] == Succ(left, k) {
        if k != i - 1 { OthersInner(tasks, l, i, k); }
      }
    }
  }

  lemma RemoveNextFirst(tasks: seq<Task>, l: Links)
    requires Right(tasks, l) && tasks != []
    ensures NextRight(Without(tasks, 0), Without(Unlinked(tasks, l, 0), 0)) <==> l.prev[0] !in tasks[1..]
  {
    hide EndsRight;
    var left, next := Without(tasks, 0), Without(Unlinked(tasks, l, 0), 0);
    if j :| 1 <= j < |tasks| && tasks[j] == l.prev[0] {
      assert tasks[1..][j - 1] == tasks[j];
      assert next[j - 1] == tasks[1] && Succ(left, j - 1) != tasks[1];
    } else {
      forall k | 0 <= k < |left| ensures next[k] == Succ(left, k) {
        assert l.next[k + 1] == Succ(tasks, k + 1);
      }
    }
  }

  lemma RemoveEndsFirst(tasks: seq<Task>, l: Links)
    requires Right(tasks, l) && tasks != []
    ensures EndsRight(Without(tasks, 0), Removed(tasks, l, 0)) <==> |tasks| > 1 || l.prev[0] == null
  {
    var left := Without(tasks, 0);
    if |tasks| > 1 {
      assert left[0] == tasks[1] && left[|left| - 1] == tasks[|tasks| - 1];
      if l.current != tasks[0] { MemberOfWithout(tasks, 0, l.current); }
    }
  }

  lemma RemoveEndsInner(tasks: seq<Task>, l: Links, i: nat)
    requires Right(tasks, l) && 0 < i < |tasks| && l.prev[i] == tasks[i - 1]
    ensures EndsRight(Without(tasks, i), Removed(tasks, l, i))
  {
    NextAt(tasks, l.next, i);
    hide NextRight, Unlinked;
    var left := Without(tasks, i);
    assert left[0] == tasks[0];
    assert left[|left| - 1] == if i + 1 < |tasks| then tasks[|tasks| - 1] else tasks[i - 1];
    assert i + 1 < |tasks| ==> left[i] == tasks[i + 1];
    if l.current != tasks[i] { MemberOfWithout(tasks, i, l.current); }
  }

  lemma NextAt(tasks: seq<Task>, next: seq<Task?>, i: nat)
    requires NextRight(tasks, next) && i < |tasks|
    ensures |next| == |tasks| && next[i] == Succ(tasks, i)
  {
  }

  /**
   Removing a task leaves the forward chain without it, and head, tail and
   current right, exactly when its own prev pointer was good enough.
   */
  lemma RemoveIff(tasks: seq<Task>, l: Links, i: nat)
    requires Right(tasks, l) && i < |tasks|
    ensures Right(Without(tasks, i), Removed(tasks, l, i)) <==> PrevRight(tasks, l.prev, i)
  {
    RemoveDistinct(tasks, i);
    hide Distinct, NextRight, EndsRight;
    if i == 0 {
      RemoveNextFirst(tasks, l);
      RemoveEndsFirst(tasks, l);
      assert |tasks| == 1 ==> tasks[1..] == [];
    } else {
      RemoveNextInner(tasks, l, i);
      if l.prev[i] == tasks[i - 1] { RemoveEndsInner(tasks, l, i); }
    }
  }

  /** Stale prev pointers that point outside the list stay that way. */
  lemma RemoveHarmless(tasks: seq<Task>, prev: seq<Task?>, i: nat)
    requires PrevHarmless(tasks, prev) && Distinct(tasks) && i < |tasks|
    ensures PrevHarmless(Without(tasks, i), Without(prev, i))
  {
    var left, kept := Without(tasks, i), Without(prev, i);
    assert forall x :: x in left ==> x in tasks && x != tasks[i];
    forall j | 0 <= j < |left| ensures HarmlessAt(left, kept, j) {
      var k := if j < i then j else j + 1;
      assert HarmlessAt(tasks, prev, k);
      assert kept[j] == prev[k];
      assert j != i ==> Pred(left, j) == Pred(tasks, k);
    }
  }

  /** From a fully right list, full rightness survives exactly the removal of the last task. */
  lemma RemoveFullyIff(tasks: seq<Task>, l: Links, i: nat)
    requires FullyRight(tasks, l) && i < |tasks|
    ensures Right(Without(tasks, i), Removed(tasks, l, i))
    ensures FullyRight(Without(tasks, i), Removed(tasks, l, i)) <==> i == |tasks| - 1
  {
    RemoveIff(tasks, l, i);
    PrevsAfterRemoval(tasks, l.prev, i);
    assert PrevRight(tasks, l.prev, i) by { OwnPrevRight(tasks, l.prev, i); }
    hide NextRight, EndsRight, Distinct, Unlinked, Without, PrevRight;
  }

  lemma OwnPrevRight(tasks: seq<Task>, prev: seq<Task?>, i: nat)
    requires AllPrevRight(tasks, prev) && i < |tasks|
    ensures PrevRight(tasks, prev, i)
  {
    assert prev[i] == Pred(tasks, i);
  }

  lemma PrevsAfterRemoval(tasks: seq<Task>, prev: seq<Task?>, i: nat)
    requires AllPrevRight(tasks, prev) && Distinct(tasks) && i < |tasks|
    ensures AllPrevRight(Without(tasks, i), Without(prev, i)) <==> i == |tasks| - 1
  {
    var left, kept := Without(tasks, i), Without(prev, i);
    if i < |tasks| - 1 {
      assert kept[i] == prev[i + 1] == tasks[i];
      assert Pred(left, i) != tasks[i];
    } else {
      forall j | 0 <= j < |left| ensures kept[j] == Pred(left, j) {
        assert prev[j] == Pred(tasks, j);
      }
    }
  }

  /** The current task after a removal: the next one, or the first when the last was removed. */
  lemma CurrentAfterRemove(tasks: seq<Task>, l: Links, i: nat)
    requires Right(tasks, l) && i < |tasks|
    ensures Removed(tasks, l, i).current ==
      if l.current != tasks[i] then l.current
      else if i + 1 < |tasks| then tasks[i + 1]
      else if i > 0 then tasks[0] else null
  {
  }

  /** The pointers after task_new. */
  function Appended(tasks: seq<Task>, l: Links, task: Task): Links
    requires |tasks| == |l.next| == |l.prev|
  {
    if tasks == [] then Links([null], [null], task, task, task)
    else Links(l.next[|tasks| - 1 := task] + [null], l.prev + [l.tail], l.head, task, l.current)
  }

  /** Appending keeps the list right, prev pointers included, exactly when it did not contain the new one. */
  lemma AppendIff(tasks: seq<Task>, l: Links, task: Task)
    requires Right(tasks, l)
    ensures Right(tasks + [task], Appended(tasks, l, task)) <==> task !in tasks
    ensures FullyRight(tasks, l) && task !in tasks ==> FullyRight(tasks + [task], Appended(tasks, l, task))
  {
    var more, m := tasks + [task], Appended(tasks, l, task);
    if i :| 0 <= i < |tasks| && tasks[i] == task {
      assert more[i] == more[|tasks|];
    } else {
      forall i | 0 <= i < |more| ensures m.next[i] == Succ(more, i) {
      }
    }
  }

  /**
   Stale prev pointers still point outside the list after an append exactly when
   none of them names the new task, whose block may have been that of a task
   removed before.
   */
  lemma AppendHarmlessIff(tasks: seq<Task>, l: Links, task: Task)
    requires Right(tasks, l) && PrevHarmless(tasks, l.prev) && task !in tasks
    ensures PrevHarmless(tasks + [task], Appended(tasks, l, task).prev) <==> task !in l.prev
  {
    var more, m := tasks + [task], Appended(tasks, l, task);
    if i :| 0 <= i < |tasks| && l.prev[i] == task {
      assert m.prev[i] == task && task in more && !HarmlessAt(more, m.prev, i);
    } else {
      forall i | 0 <= i < |more| ensures HarmlessAt(more, m.prev, i) {
        if i < |tasks| { assert HarmlessAt(tasks, l.prev, i) && m.prev[i] == l.prev[i]; }
      }
    }
  }

  /**
   A task block freed from the front and handed out again for a new task: the
   stale prev of the first task now names the last, and removing the first
   breaks the list.
   */
  lemma ReusedBlockBreaks(tasks: seq<Task>, l: Links, task: Task)
    requires Right(tasks, l) && tasks != [] && task !in tasks && l.prev[0] == task
    ensures var more, m := tasks + [task], Appended(tasks, l, task);
      Right(more, m) && !Right(Without(more, 0), Removed(more, m, 0))
  {
    AppendIff(tasks, l, task);
    var more, m := tasks + [task], Appended(tasks, l, task);
    assert more[1..][|tasks| - 1] == task && m.prev[0] == task;
    RemoveIff(more, m, 0);
  }

  /**
   Remove the first task, create one that is given its block, remove the first again:
   from any right list of two tasks or more this breaks the list.
   */
  lemma HeadReuseBreaks(tasks: seq<Task>, l: Links)
    requires FullyRight(tasks, l) && |tasks| >= 2
    ensures var left, m := Without(tasks, 0), Removed(tasks, l, 0);
      var more, n := left + [tasks[0]], Appended(left, m, tasks[0]);
      Right(left, m) && Right(more, n) && !Right(Without(more, 0), Removed(more, n, 0))
  {
    hide EndsRight, Appended, Unlinked;
    RemoveFullyIff(tasks, l, 0);
    assert Removed(tasks, l, 0).prev[0] == l.prev[1] == tasks[0];
    ReusedBlockBreaks(Without(tasks, 0), Removed(tasks, l, 0), tasks[0]);
  }

  /**
   After a removal from the middle of a fully right list the successor's prev
   pointer is stale, so removing the successor next would break the list.
   */
  lemma SecondRemovalBreaks(tasks: seq<Task>, l: Links, i: nat)
    requires FullyRight(tasks, l) && 0 < i < |tasks| - 1
    ensures var left, m := Without(tasks, i), Removed(tasks, l, i);
      Right(left, m) && !Right(Without(left, i), Removed(left, m, i))
  {
    RemoveFullyIff(tasks, l, i);
    var left, m := Without(tasks, i), Removed(tasks, l, i);
    assert m.prev[i] == tasks[i] && left[i - 1] == tasks[i - 1];
    RemoveIff(left, m, i);
  }

  // ---------------------------------------------------------------------
  // Runs of creations and tail removals
  // ---------------------------------------------------------------------

  datatype Op = New(task: Task) | RemoveLast

  predicate Legal(tasks: seq<Task>, ops: seq<Op>)
    decreases |ops|
  {
    ops == [] || match ops[0]
                 case New(task) => task !in tasks && Legal(tasks + [task], ops[1..])
                 case RemoveLast => tasks != [] && Legal(tasks[..|tasks| - 1], ops[1..])
  }

  /** All tasks in creation order, with their pointers, after a run. */
  function Run(tasks: seq<Task>, l: Links, ops: seq<Op>): (seq<Task>, Links)
    requires Legal(tasks, ops) && |tasks| == |l.next| == |l.prev|
    decreases |ops|
  {
    if ops == [] then (tasks, l)
    else match ops[0]
         case New(task) => Run(tasks + [task], Appended(tasks, l, task), ops[1..])
         case RemoveLast => Run(tasks[..|tasks| - 1], Removed(tasks, l, |tasks| - 1), ops[1..])
  }

  /** Every run of creations and tail removals keeps a fully right list. */
  lemma {:induction false} TailRuns(tasks: seq<Task>, l: Links, ops: seq<Op>)
    requires FullyRight(tasks, l) && Legal(tasks, ops)
    ensures var (after, m) := Run(tasks, l, ops); FullyRight(after, m)
    decreases |ops|
  {
    if ops != [] {
      match ops[0]
      case New(task) =>
        AppendIff(tasks, l, task);
        TailRuns(tasks + [task], Appended(tasks, l, task), ops[1..]);
      case RemoveLast =>
        RemoveFullyIff(tasks, l, |tasks| - 1);
        assert Without(tasks, |tasks| - 1) == tasks[..|tasks| - 1];
        TailRuns(tasks[..|tasks| - 1], Removed(tasks, l, |tasks| - 1), ops[1..]);
    }
  }

  // ---------------------------------------------------------------------
  // Round robin
  // ---------------------------------------------------------------------

  /** The place that is current after `steps` switches to the next one. */
  function After(n: nat, start: nat, steps: nat): (place: nat)
    requires start < n
    ensures place < n
  {
    if steps == 0 then start
    else if After(n, start, steps - 1) + 1 < n then After(n, start, steps - 1) + 1 else 0
  }

  lemma {:induction false} WithinOneTurn(n: nat, start: nat, k: nat)
    requires start < n && k <= n
    ensures After(n, start, k) == if start + k < n then start + k else start + k - n
  {
    if k > 0 { WithinOneTurn(n, start, k - 1); }
  }

  /** n switches visit every place exactly once and come back to where they started. */
  lemma EachOnce(n: nat, start: nat, place: nat)
    requires start < n && place < n
    ensures After(n, start, n) == start
    ensures exists k :: 0 <= k < n && After(n, start, k) == place
    ensures forall j, k :: 0 <= j < n && 0 <= k < n && After(n, start, j) == After(n, start, k) ==> j == k
  {
    hide After;
    var k := if place >= start then place - start else place - start + n;
    WithinOneTurn(n, start, k);
    WithinOneTurn(n, start, n);
    forall j | 0 <= j < n ensures After(n, start, j) == if start + j < n then start + j else start + j - n {
      WithinOneTurn(n, start, j);
    }
  }

  // ---------------------------------------------------------------------
  // The code
  // ---------------------------------------------------------------------

  class Tasks {
    var head: Task?
    var tail: Task?
    var current: Task?
    ghost var tasks: seq<Task>  // in creation order

    constructor ()
      ensures tasks == [] && WellFormed()
    {
      head, tail, current := null, null, null;
      tasks := [];
    }

    ghost function Pointers(): Links
      reads this, tasks
    {
      Links(
        seq(|tasks|, i requires 0 <= i < |tasks| reads this, tasks => tasks[i].next),
        seq(|tasks|, i requires 0 <= i < |tasks| reads this, tasks => tasks[i].prev),
        head, tail, current)
    }

    ghost predicate Linked()
      reads this, tasks
    {
      Right(tasks, Pointers())
    }

    ghost predicate WellFormed()
      reads this, tasks
    {
      FullyRight(tasks, Pointers())
    }

    /** The list part of task_new. */
    method TaskNew(task: Task)
      requires Linked() && task !in tasks && task.next == null && task.prev == null
      modifies this, task, tail
      ensures tasks == old(tasks) + [task] && Linked()
      ensures old(WellFormed()) ==> WellFormed()
      ensures current == if old(tasks) == [] then task else old(current)
    {
      ghost var was, l := tasks, Pointers();
      AppendIff(was, l, task);
      tasks := tasks + [task];
      if head == null {
        head, tail, current := task, task, task;
        assert Pointers() == Appended(was, l, task);
        return;
      }
      assert tail in was && was[|was| - 1] == tail;
      tail.next := task;
      task.prev := tail;
      tail := task;
      assert Pointers().next == Appended(was, l, task).next;
      assert Pointers().prev == Appended(was, l, task).prev;
    }

    /** task_get_next, with a current task. */
    method TaskGetNext() returns (task: Task?)
      requires current != null
      ensures task == if current.next == null then head else current.next
    {
      if current.next == null {
        return head;
      }
      task := current.next;
    }

    /** task_list_remove of the i-th task. */
    method TaskListRemove(task: Task, ghost i: nat)
      requires Linked() && i < |tasks| && tasks[i] == task
      modifies this, task.prev
      ensures tasks == Without(old(tasks), i) && Pointers() == Removed(old(tasks), old(Pointers()), i)
      ensures Linked() <==> PrevRight(old(tasks), old(Pointers()).prev, i)
      ensures old(WellFormed()) ==> Linked() && (WellFormed() <==> i == |old(tasks)| - 1)
    {
      hide Right, FullyRight, Unlinked, PrevRight, Without;
      RemoveIff(tasks, Pointers(), i);
      if WellFormed() { RemoveFullyIff(tasks, Pointers(), i); }
      UnlinkAndFix(task, i);
      Leave(i);
    }

    /** The i-th task no longer belongs to the list. */
    ghost method Leave(i: nat)
      requires i < |tasks|
      modifies this`tasks
      ensures tasks == Without(old(tasks), i)
      ensures Pointers() == old(Pointers()).(
        next := Without(old(Pointers()).next, i), prev := Without(old(Pointers()).prev, i))
    {
      ghost var m := Pointers();
      tasks := Without(tasks, i);
      assert Pointers().next == Without(m.next, i) && Pointers().prev == Without(m.prev, i);
    }

    /** All its stores. */
    method UnlinkAndFix(task: Task, ghost i: nat)
      requires Linked() && i < |tasks| && tasks[i] == task
      modifies this`head, this`tail, this`current, task.prev
      ensures Pointers().next == Unlinked(tasks, old(Pointers()), i) && Pointers().prev == old(Pointers()).prev
      ensures var m := Removed(tasks, old(Pointers()), i); head == m.head && tail == m.tail && current == m.current
    {
      hide Unlinked, Without, NextRight;
      assert task.next == Pointers().next[i] && task.prev == Pointers().prev[i];
      UnlinkPrev(task, i);
      ghost var m := Pointers();
      FixGlobals(task);
      assert Pointers().next == m.next && Pointers().prev == m.prev;
    }

    /** The steps after the first. */
    method FixGlobals(task: Task)
      modifies this`head, this`tail, this`current
      ensures head == if task == old(head) then task.next else old(head)
      ensures tail == if task == old(tail) then task.prev else old(tail)
      ensures current == if task != old(current) then old(current) else if task.next == null then head else task.next
    {
      if task == head {
        head := task.next;
      }
      if task == tail {
        tail := task.prev;
      }
      if task == current {
        current := TaskGetNext();
      }
    }

    /** The first step of task_list_remove. */
    method UnlinkPrev(task: Task, ghost i: nat)
      requires Linked() && i < |tasks| && tasks[i] == task
      modifies task.prev
      ensures task.prev == old(task.prev) && task.next == old(task.next)
      ensures Pointers() == old(Pointers()).(next := Unlinked(tasks, old(Pointers()), i))
    {
      ghost var l := Pointers();
      assert task.prev == l.prev[i];
      if task.prev != null {
        task.prev.next := task.next;
      }
      assert Pointers().next == Unlinked(tasks, l, i);
      assert Pointers().prev == l.prev;
    }

    /** task_switch, list part. */
    method TaskSwitch(task: Task)
      requires task in tasks
      modifies this`current
      ensures current == task
    {
      current := task;
    }

    /** Switching to the next task `steps` times. */
    method SwitchAround(steps: nat, ghost start: nat)
      requires Linked() && start < |tasks| && current == tasks[start]
      modifies this`current
      ensures Linked() && current == tasks[After(|tasks|, start, steps)]
    {
      for i := 0 to steps
        invariant Linked() && current == tasks[After(|tasks|, start, i)]
      {
        ghost var l := Pointers();
        assert l.next[After(|tasks|, start, i)] == current.next;
        var next := TaskGetNext();
        assert next == tasks[After(|tasks|, start, i + 1)];
        TaskSwitch(next);
        assert Pointers().next == l.next && Pointers().prev == l.prev;
      }
    }
  }
}
