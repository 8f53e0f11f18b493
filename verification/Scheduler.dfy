/** The priority scheduler (crates/openvault-intel/src/scheduler.rs). Scores are real
    numbers; the time is a parameter. */
module Scheduler {
  import opened Common

  datatype Network = Network(bandwidth: real, latency: real, loss: real)

  datatype Task = Task(id: string, device: string, path: string, priority: int, size: int,
                       online: bool, network: Network)

  datatype Window = Window(startHour: int, endHour: int, days: seq<int>)

  /** Hour of the day, 0 to 23, and day of the week from Monday, 0 to 6. */
  datatype Time = Time(hour: int, weekday: int)

  function MinReal(a: real, b: real): real {
    if a <= b then a else b
  }

  function Quality(n: Network): real {
    MinReal(n.bandwidth / 100.0, 1.0) * 40.0 + (1.0 - MinReal(n.latency / 500.0, 1.0)) * 30.0 + (1.0 - n.loss) * 30.0
  }

  /** The order of the queue: `b` goes first only if it is more urgent, or as urgent on a
      better network. */
  predicate AtLeast(a: Task, b: Task) {
    a.priority > b.priority || (a.priority == b.priority && Quality(a.network) >= Quality(b.network))
  }

  predicate InWindow(w: Window, t: Time) {
    && (w.days != [] ==> t.weekday in w.days)
    && (if w.startHour <= w.endHour then w.startHour <= t.hour < w.endHour
        else t.hour >= w.startHour || t.hour < w.endHour)
  }

  predicate Eligible(w: Window, minScore: real, t: Time, task: Task) {
    InWindow(w, t) && task.online && Quality(task.network) >= minScore
  }

  /** The score lies between 0 and 100, as documented, for any measurement that makes sense,
      and is 100 only for a perfect network. */
  lemma QualityInRange(n: Network)
    requires n.bandwidth >= 0.0 && n.latency >= 0.0 && 0.0 <= n.loss <= 1.0
    ensures 0.0 <= Quality(n) <= 100.0
    ensures Quality(n) == 100.0 <==> n.bandwidth >= 100.0 && n.latency == 0.0 && n.loss == 0.0
  {}

  /** What each measurement is worth: 40 points for the bandwidth, which count evenly up to
      100, 30 for the latency, lost evenly up to 500, and 30 for the loss. */
  lemma QualityWeighs(n: Network, bandwidth: real, latency: real, loss: real)
    ensures n.bandwidth <= 100.0 && bandwidth <= 100.0 ==>
      Quality(n.(bandwidth := bandwidth)) - Quality(n) == 40.0 * (bandwidth - n.bandwidth) / 100.0
    ensures n.bandwidth >= 100.0 && bandwidth >= 100.0 ==> Quality(n.(bandwidth := bandwidth)) == Quality(n)
    ensures n.latency <= 500.0 && latency <= 500.0 ==>
      Quality(n.(latency := latency)) - Quality(n) == 30.0 * (n.latency - latency) / 500.0
    ensures n.latency >= 500.0 && latency >= 500.0 ==> Quality(n.(latency := latency)) == Quality(n)
    ensures Quality(n.(loss := loss)) - Quality(n) == 30.0 * (n.loss - loss)
  {}

  /** A window is an arc of the 24-hour clock: it holds the hours from its start on, as many
      as there are up to its end, past midnight or not. One that ends where it starts is
      empty; the default one, from 0 to 24, is the whole day. */
  lemma WindowIsArc(w: Window, t: Time)
    requires 0 <= w.startHour <= 24 && 0 <= w.endHour <= 24 && 0 <= t.hour < 24
    ensures InWindow(w, t) <==>
      && (w.days == [] || t.weekday in w.days)
      && (t.hour - w.startHour) % 24 < if w.endHour - w.startHour == 24 then 24 else (w.endHour - w.startHour) % 24
  {}

  lemma OrderIsTotal(a: Task, b: Task, c: Task)
    ensures AtLeast(a, b) || AtLeast(b, a)
    ensures AtLeast(a, b) && AtLeast(b, c) ==> AtLeast(a, c)
  {}

  /** Priorities never rise, and scores never rise among equal priorities. */
  ghost predicate Descending(tasks: seq<Task>) {
    forall i, j :: 0 <= i < j < |tasks| ==>
      && tasks[j].priority <= tasks[i].priority
      && (tasks[j].priority == tasks[i].priority ==> Quality(tasks[j].network) <= Quality(tasks[i].network))
  }

  /** How many tasks go strictly before `x`. */
  function CountBefore(tasks: seq<Task>, x: Task): (n: int)
    ensures 0 <= n <= |tasks|
  {
    if tasks == [] then 0
    else (if AtLeast(x, tasks[0]) then 0 else 1) + CountBefore(tasks[1..], x)
  }

  lemma {:induction false} CountSplits(a: seq<Task>, b: seq<Task>, x: Task)
    ensures CountBefore(a + b, x) == CountBefore(a, x) + CountBefore(b, x)
  {
    if a == [] {
      assert a + b == b;
    } else {
      assert (a + b)[0] == a[0] && (a + b)[1..] == a[1..] + b;
      CountSplits(a[1..], b, x);
    }
  }

  lemma CountWithout(b: seq<Task>, i: int, x: Task)
    requires 0 <= i < |b|
    ensures CountBefore(b, x) == CountBefore(b[..i] + b[i + 1..], x) + if AtLeast(x, b[i]) then 0 else 1
  {
    assert b == b[..i] + b[i..];
    CountSplits(b[..i], b[i..], x);
    CountSplits(b[..i], b[i + 1..], x);
  }

  lemma HeadElsewhere(a: seq<Task>, b: seq<Task>) returns (i: int)
    requires multiset(a) == multiset(b) && a != []
    ensures 0 <= i < |b| && b[i] == a[0] && multiset(a[1..]) == multiset(b[..i] + b[i + 1..])
  {
    assert a[0] in multiset(b);
    i :| 0 <= i < |b| && b[i] == a[0];
    TakenOut(b, i);
    WithoutHead(a);
  }

  lemma WithoutHead(a: seq<Task>)
    requires a != []
    ensures multiset(a[1..]) == multiset(a) - multiset{a[0]}
  {
    assert a == [a[0]] + a[1..];
  }

  lemma {:induction false} CountIgnoresOrder(a: seq<Task>, b: seq<Task>, x: Task)
    requires multiset(a) == multiset(b)
    ensures CountBefore(a, x) == CountBefore(b, x)
    decreases |a|
  {
    if a == [] {
      assert |multiset(b)| == |b|;
    } else {
      var i := HeadElsewhere(a, b);
      CountIgnoresOrder(a[1..], b[..i] + b[i + 1..], x);
      CountWithout(b, i, x);
    }
  }

  lemma {:induction false} CountAll(tasks: seq<Task>, x: Task)
    requires forall t :: t in tasks ==> !AtLeast(x, t)
    ensures CountBefore(tasks, x) == |tasks|
  {
    if tasks != [] {
      assert tasks[0] in tasks;
      CountAll(tasks[1..], x);
    }
  }

  lemma {:induction false} CountNone(tasks: seq<Task>, x: Task)
    requires forall t :: t in tasks ==> AtLeast(x, t)
    ensures CountBefore(tasks, x) == 0
  {
    if tasks != [] {
      assert tasks[0] in tasks;
      CountNone(tasks[1..], x);
    }
  }

  lemma NotLater(a: seq<Task>, b: seq<Task>, i: int)
    requires multiset(a) == multiset(b) && Descending(a) && Descending(b) && 0 <= i < |a| && i < |b|
    ensures AtLeast(b[i], a[i])
  {
    if !AtLeast(b[i], a[i]) {
      MoreGoBefore(a, i, b[i]);
      FewGoBefore(b, i);
      CountIgnoresOrder(a, b, b[i]);
    }
  }

  lemma MoreGoBefore(a: seq<Task>, i: int, x: Task)
    requires Descending(a) && 0 <= i < |a| && !AtLeast(x, a[i])
    ensures CountBefore(a, x) > i
  {
    forall t | t in a[..i + 1] ensures !AtLeast(x, t) {
      var n :| 0 <= n < i + 1 && a[n] == t;
      OrderIsTotal(x, t, a[i]);
      assert n == i || AtLeast(a[n], a[i]);
    }
    CountAll(a[..i + 1], x);
    assert a == a[..i + 1] + a[i + 1..];
    CountSplits(a[..i + 1], a[i + 1..], x);
  }

  lemma FewGoBefore(b: seq<Task>, i: int)
    requires Descending(b) && 0 <= i < |b|
    ensures CountBefore(b, b[i]) <= i
  {
    forall t | t in b[i..] ensures AtLeast(b[i], t) {
      var n :| 0 <= n < |b[i..]| && b[i..][n] == t;
      assert b[i + n] == t;
      OrderIsTotal(t, t, t);
    }
    CountNone(b[i..], b[i]);
    assert b == b[..i] + b[i..];
    CountSplits(b[..i], b[i..], b[i]);
  }

  /** Draining is determined up to ties: two orders of the same tasks, greatest first, have
      equally great tasks in each place. So whatever the heap does with equals, the same
      priorities and scores come out in the same places. */
  lemma DrainOrderIsDetermined(a: seq<Task>, b: seq<Task>, i: int)
    requires multiset(a) == multiset(b) && Descending(a) && Descending(b) && 0 <= i < |a|
    ensures i < |b| && a[i].priority == b[i].priority && Quality(a[i].network) == Quality(b[i].network)
  {
    assert |multiset(a)| == |a| && |multiset(b)| == |b|;
    NotLater(a, b, i);
    NotLater(b, a, i);
  }

  // ---------------------------------------------------------------- the queue

  /** A heap, as far as its contract goes: `Pop` takes out some greatest task. */
  class TaskHeap {
    var tasks: seq<Task>

    constructor ()
      ensures tasks == []
    {
      tasks := [];
    }

    method Push(task: Task)
      modifies this
      ensures multiset(tasks) == multiset(old(tasks)) + multiset{task}
    {
      tasks := tasks + [task];
    }

    method Pop() returns (r: Option<Task>)
      modifies this
      ensures r.None? <==> old(tasks) == []
      ensures r.None? ==> tasks == []
      ensures r.Some? ==>
        && multiset(tasks) == multiset(old(tasks)) - multiset{r.value} && r.value in multiset(old(tasks))
        && |tasks| == |old(tasks)| - 1
        && (forall t :: t in multiset(tasks) ==> AtLeast(r.value, t))
        && (forall t :: t in multiset(tasks) ==> t.priority <= r.value.priority)
        && forall t :: t in multiset(tasks) && t.priority == r.value.priority ==>
          Quality(t.network) <= Quality(r.value.network)
    {
      if tasks == [] {
        return None;
      }
      var all := tasks;
      var best := Greatest(all);
      var top := all[best];
      TakenOut(all, best);
      tasks := all[..best] + all[best + 1..];
      return Some(top);
    }
  }

  method Greatest(tasks: seq<Task>) returns (best: int)
    requires tasks != []
    ensures 0 <= best < |tasks| && forall t :: t in tasks ==> AtLeast(tasks[best], t)
  {
    best := 0;
    for i := 1 to |tasks|
      invariant 0 <= best < |tasks|
      invariant forall n :: 0 <= n < i ==> AtLeast(tasks[best], tasks[n])
    {
      if !AtLeast(tasks[best], tasks[i]) {
        best := i;
      }
    }
  }

  lemma TakenOut(all: seq<Task>, at: int)
    requires 0 <= at < |all|
    ensures var rest := all[..at] + all[at + 1..];
      multiset(rest) == multiset(all) - multiset{all[at]} && forall t :: t in multiset(rest) ==> t in all
  {
    assert all == all[..at] + ([all[at]] + all[at + 1..]);
  }

  // ---------------------------------------------------------------- scheduling

  /** Nothing in `queued` may be scheduled. */
  ghost predicate NoneEligible(w: Window, minScore: real, now: Time, queued: multiset<Task>) {
    forall t :: t in queued ==> !Eligible(w, minScore, now, t)
  }

  /** `best` may be scheduled, and nothing in `queued` that may be goes before it. */
  ghost predicate GreatestEligible(w: Window, minScore: real, now: Time, queued: multiset<Task>, best: Task) {
    Eligible(w, minScore, now, best) && forall t :: t in queued && Eligible(w, minScore, now, t) ==> AtLeast(best, t)
  }

  /** The drained tasks come greatest first. */
  ghost predicate GreatestFirst(tasks: seq<Task>) {
    forall i, j :: 0 <= i < j < |tasks| ==> AtLeast(tasks[i], tasks[j])
  }

  lemma Regrouped(all: multiset<Task>, queued: multiset<Task>, rest: multiset<Task>, t: Task, skipped: seq<Task>)
    requires all == queued + multiset(skipped) && t in queued && rest == queued - multiset{t}
    ensures all == rest + multiset(skipped + [t]) == rest + multiset{t} + multiset(skipped)
    ensures t in all && rest + multiset(skipped) == all - multiset{t}
  {}

  lemma NothingInClosedWindow(w: Window, minScore: real, now: Time, queued: multiset<Task>)
    requires !InWindow(w, now)
    ensures NoneEligible(w, minScore, now, queued)
  {}

  lemma SkipOne(w: Window, minScore: real, now: Time, skipped: seq<Task>, t: Task)
    requires NoneEligible(w, minScore, now, multiset(skipped)) && !Eligible(w, minScore, now, t)
    ensures NoneEligible(w, minScore, now, multiset(skipped + [t]))
  {}

  lemma PoppedIsGreatest(w: Window, minScore: real, now: Time, rest: multiset<Task>, best: Task, skipped: seq<Task>)
    requires Eligible(w, minScore, now, best) && NoneEligible(w, minScore, now, multiset(skipped))
    requires forall t :: t in rest ==> AtLeast(best, t)
    ensures GreatestEligible(w, minScore, now, rest + multiset{best} + multiset(skipped), best)
  {}

  ghost predicate AllGreatest(w: Window, minScore: real, now: Time, queued: multiset<Task>, tasks: seq<Task>) {
    forall t :: t in tasks ==> GreatestEligible(w, minScore, now, queued, t)
  }

  lemma DrainStep(w: Window, minScore: real, now: Time, queued: multiset<Task>, drained: seq<Task>, next: Task)
    requires AllGreatest(w, minScore, now, queued, drained) && GreatestFirst(drained) && next in queued
    requires GreatestEligible(w, minScore, now, queued, next)
    ensures AllGreatest(w, minScore, now, queued - multiset{next}, drained + [next])
    ensures GreatestFirst(drained + [next])
  {
    var longer := drained + [next];
    forall t | t in longer ensures GreatestEligible(w, minScore, now, queued - multiset{next}, t) {
      assert t in drained || t == next;
    }
    forall i, j | 0 <= i < j < |longer| ensures AtLeast(longer[i], longer[j]) {
      if j == |drained| {
        assert drained[i] in drained;
      }
    }
  }

  lemma GreatestFirstDescends(tasks: seq<Task>)
    requires GreatestFirst(tasks)
    ensures Descending(tasks)
  {
    forall i, j | 0 <= i < j < |tasks|
      ensures
        && tasks[j].priority <= tasks[i].priority
        && (tasks[j].priority == tasks[i].priority ==> Quality(tasks[j].network) <= Quality(tasks[i].network))
    {
      assert AtLeast(tasks[i], tasks[j]);
    }
  }

  class SmartScheduler {
    const window: Window
    const minScore: real
    const queue: TaskHeap

    constructor (window: Window, minScore: real)
      ensures this.window == window && this.minScore == minScore && fresh(queue) && queue.tasks == []
    {
      this.window, this.minScore := window, minScore;
      queue := new TaskHeap();
    }

    /** `schedule_next`: takes out a most urgent of the tasks that are online and score enough,
        one on a best network among equally urgent ones, or leaves the queue as it was when
        there is none or the window is closed. No task is lost or made up. */
    method ScheduleNext(now: Time) returns (r: Option<Task>)
      modifies queue
      ensures r.Some? ==>
        && GreatestEligible(window, minScore, now, multiset(old(queue.tasks)), r.value)
        && r.value in multiset(old(queue.tasks)) && InWindow(window, now)
        && r.value.online && Quality(r.value.network) >= minScore
        && multiset(queue.tasks) == multiset(old(queue.tasks)) - multiset{r.value}
        && forall t :: t in multiset(old(queue.tasks)) && t.online && Quality(t.network) >= minScore ==>
          && t.priority <= r.value.priority
          && (t.priority == r.value.priority ==> Quality(t.network) <= Quality(r.value.network))
      ensures r.None? ==>
        && NoneEligible(window, minScore, now, multiset(queue.tasks))
        && multiset(queue.tasks) == multiset(old(queue.tasks))
        && forall t :: t in multiset(queue.tasks) ==>
          !(InWindow(window, now) && t.online && Quality(t.network) >= minScore)
    {
      ghost var all := multiset(queue.tasks);
      var skipped: seq<Task> := [];
      while true
        invariant all == multiset(queue.tasks) + multiset(skipped)
        invariant NoneEligible(window, minScore, now, multiset(skipped))
        decreases |queue.tasks|
      {
        ghost var queued := multiset(queue.tasks);
        r := queue.Pop();
        if r.None? {
          break;
        }
        Regrouped(all, queued, multiset(queue.tasks), r.value, skipped);
        if !InWindow(window, now) {
          NothingInClosedWindow(window, minScore, now, all);
          skipped := skipped + [r.value];
          r := None;
          break;
        }
        if r.value.online && Quality(r.value.network) >= minScore {
          PoppedIsGreatest(window, minScore, now, multiset(queue.tasks), r.value, skipped);
          break;
        }
        SkipOne(window, minScore, now, skipped, r.value);
        skipped := skipped + [r.value];
      }
      PutBack(skipped);
    }

    /** Puts the skipped tasks back. */
    method PutBack(skipped: seq<Task>)
      modifies queue
      ensures multiset(queue.tasks) == multiset(old(queue.tasks)) + multiset(skipped)
    {
      for i := 0 to |skipped|
        invariant multiset(queue.tasks) == multiset(old(queue.tasks)) + multiset(skipped[..i])
      {
        assert skipped[..i + 1] == skipped[..i] + [skipped[i]];
        queue.Push(skipped[i]);
      }
      assert skipped[..|skipped|] == skipped;
    }

    /** `schedule_all_eligible`: for one moment it ends, and returns exactly the eligible
        tasks, greatest first, leaving exactly the others. */
    method ScheduleAllEligible(now: Time) returns (results: seq<Task>)
      modifies queue
      ensures multiset(results) + multiset(queue.tasks) == multiset(old(queue.tasks))
      ensures forall t :: t in results ==> InWindow(window, now) && t.online && Quality(t.network) >= minScore
      ensures forall t :: t in multiset(queue.tasks) ==>
        !(InWindow(window, now) && t.online && Quality(t.network) >= minScore)
      ensures forall i, j :: 0 <= i < j < |results| ==>
        && results[j].priority <= results[i].priority
        && (results[j].priority == results[i].priority ==>
              Quality(results[j].network) <= Quality(results[i].network))
    {
      results := [];
      ghost var all := multiset(queue.tasks);
      var more := true;
      while more
        invariant multiset(results) + multiset(queue.tasks) == all
        invariant AllGreatest(window, minScore, now, multiset(queue.tasks), results) && GreatestFirst(results)
        invariant !more ==> NoneEligible(window, minScore, now, multiset(queue.tasks))
        decreases if more then 1 else 0, |multiset(queue.tasks)|
      {
        ghost var queued := multiset(queue.tasks);
        var next := ScheduleNext(now);
        if next.None? {
          more := false;
        } else {
          DrainStep(window, minScore, now, queued, results, next.value);
          results := results + [next.value];
        }
      }
      GreatestFirstDescends(results);
    }
  }
}
