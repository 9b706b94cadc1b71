// Choosing the next process: cyclic searches over the process table, and what
// they promise over whole runs.
module Schedule {

  const MAX_PROCESSES := 1024

  type Pid = p: nat | p < 1024

  datatype ProcessState = Running | Blocked | Zombie

  // What the searches look at: an empty slot, or a process in some state.
  datatype Slot = Empty | Process(state: ProcessState)

  type Table = s: seq<Slot> | |s| == 1024 witness seq(1024, _ => Empty)

  // The slot after p.
  function After(p: Pid): Pid {
    (p + 1) % 1024
  }

  // Steps forward from p until q is reached, 1..1024.
  function Distance(p: Pid, q: Pid): (d: nat)
    ensures 1 <= d <= 1024
  {
    if q > p then q - p else q + 1024 - p
  }

  // Slots are searched upwards, and from the last to the first.
  lemma DistanceIs(p: Pid, q: Pid, d: nat)
    requires 1 <= d <= 1024
    ensures d == Distance(p, q) <==> (p + d) % 1024 == q
  {
    assert (p + d) % 1024 == if p + d < 1024 then p + d else if p + d < 2048 then p + d - 1024 else p + d - 2048;
  }

  // The scheduler skips empty slots and blocked processes; exit skips empty slots.
  predicate Eligible(s: Slot) { s.Process? && s.state != Blocked }

  predicate Present(s: Slot) { s.Process? }

  // q is the first slot after p that satisfies the test.
  ghost predicate FirstAfter(t: Table, test: Slot -> bool, p: Pid, q: Pid) {
    test(t[q]) && forall s: Pid {:trigger Distance(p, s)} :: Distance(p, s) < Distance(p, q) ==> !test(t[s])
  }

  lemma FirstAfterIsUnique(t: Table, test: Slot -> bool, p: Pid, q1: Pid, q2: Pid)
    requires FirstAfter(t, test, p, q1) && FirstAfter(t, test, p, q2)
    ensures q1 == q2
  {
    assert Distance(p, q1) == Distance(p, q2);
  }

  // ---- Runs ----

  // The table and the current process.
  datatype Snapshot = Snapshot(table: Table, current: Pid)

  // One step of the machine. A switch is the scheduler or an exit moving on to
  // another process; between switches forks, blocks, wake-ups and exits of
  // other processes may change the table in any way.
  datatype Step = Schedule | ExitCurrent | Change

  predicate IsSwitch(s: Step) { s != Change }

  ghost predicate Follows(a: Snapshot, step: Step, b: Snapshot) {
    match step
    case Schedule => b.table == a.table && FirstAfter(a.table, Eligible, a.current, b.current)
    case ExitCurrent => FirstAfter(a.table, Present, a.current, b.current)
    case Change => b.current == a.current
  }

  ghost predicate IsRun(run: seq<Snapshot>, steps: seq<Step>) {
    && |run| == |steps| + 1
    && forall n: nat {:trigger steps[n]} :: n < |steps| ==> Follows(run[n], steps[n], run[n + 1])
  }

  function Switches(steps: seq<Step>): nat
    decreases |steps|
  {
    if steps == [] then 0 else (if IsSwitch(steps[0]) then 1 else 0) + Switches(steps[1..])
  }

  // Process p stays in the table, not blocked.
  ghost predicate AlwaysEligible(run: seq<Snapshot>, p: Pid) {
    forall n: nat {:trigger run[n]} :: n < |run| ==> Eligible(run[n].table[p])
  }

  // p is current after some switch of the run.
  ghost predicate GetsItsTurn(run: seq<Snapshot>, steps: seq<Step>, p: Pid)
    requires |run| == |steps| + 1
  {
    exists n: nat {:trigger steps[n]} :: n < |steps| && IsSwitch(steps[n]) && run[n + 1].current == p
  }

  // A switch either reaches p or comes closer to it.
  lemma SwitchComesCloser(a: Snapshot, step: Step, b: Snapshot, p: Pid)
    requires Follows(a, step, b) && IsSwitch(step) && Eligible(a.table[p])
    ensures b.current != p ==> Distance(b.current, p) < Distance(a.current, p)
  {
    assert Distance(a.current, b.current) <= Distance(a.current, p);
  }

  // Fairness: a process that stays eligible is current after one of the next
  // Distance(current, p), hence of the next 1024, switches.
  lemma {:induction false} Fairness(run: seq<Snapshot>, steps: seq<Step>, p: Pid)
    requires IsRun(run, steps) && AlwaysEligible(run, p)
    requires Switches(steps) >= Distance(run[0].current, p)
    ensures GetsItsTurn(run, steps, p)
    decreases |steps|
  {
    var next := run[1].current;
    assert Follows(run[0], steps[0], run[1]);
    assert Eligible(run[0].table[p]);
    if IsSwitch(steps[0]) {
      SwitchComesCloser(run[0], steps[0], run[1], p);
    }
    if !(IsSwitch(steps[0]) && next == p) {
      RunTail(run, steps, p);
      Fairness(run[1..], steps[1..], p);
      var n: nat :| n < |steps[1..]| && IsSwitch(steps[1..][n]) && run[1..][n + 1].current == p;
      assert steps[n + 1] == steps[1..][n];
    }
  }

  lemma RunTail(run: seq<Snapshot>, steps: seq<Step>, p: Pid)
    requires IsRun(run, steps) && AlwaysEligible(run, p) && steps != []
    ensures IsRun(run[1..], steps[1..]) && AlwaysEligible(run[1..], p)
  {
    forall n: nat | n < |steps[1..]| ensures Follows(run[1..][n], steps[1..][n], run[1..][n + 1]) {
      assert Follows(run[n + 1], steps[n + 1], run[n + 2]);
    }
    forall n: nat | n < |run[1..]| ensures Eligible(run[1..][n].table[p]) {
      assert run[1..][n] == run[n + 1];
    }
  }

  // ---- Finding a free slot for a new process ----

  // process_create increments its counter before looking; `last` starts at -1
  // and is never reduced modulo the table size, `tried` is its value on entry.
  // After `steps` increments the slot looked at is:
  function Candidate(last: int, steps: nat): Pid
    requires last >= -1 && steps > 0
  {
    (last + steps) % 1024
  }

  // The search gives up on step n, having met only occupied slots.
  ghost predicate GivesUp(t: Table, last: int, n: nat)
    requires last >= -1
  {
    && n > 0 && Candidate(last, n) == last
    && forall m: nat {:trigger Candidate(last, m)} :: 0 < m < n ==>
      Candidate(last, m) != last && t[Candidate(last, m)] != Empty
  }

  // The search takes a slot on step n.
  ghost predicate Takes(t: Table, last: int, n: nat)
    requires last >= -1
  {
    && n > 0 && Candidate(last, n) != last && t[Candidate(last, n)] == Empty
    && forall m: nat {:trigger Candidate(last, m)} :: 0 < m < n ==>
      Candidate(last, m) != last && t[Candidate(last, m)] != Empty
  }

  // Every slot is looked at within 1024 steps.
  lemma Reaches(last: int, p: Pid) returns (n: nat)
    requires last >= -1
    ensures 0 < n <= 1024 && Candidate(last, n) == p
  {
    var here := last % 1024;
    n := if p > here then p - here else p + 1024 - here;
    assert (last + n) % 1024 == (here + n) % 1024;
  }

  // The first step from n on, up to bound, that meets a free slot.
  lemma {:induction false} FirstFreeStep(t: Table, last: int, n: nat, bound: nat) returns (k: nat)
    requires last >= -1 && 0 < n <= bound && t[Candidate(last, bound)] == Empty
    ensures n <= k <= bound && t[Candidate(last, k)] == Empty
    ensures forall m: nat {:trigger Candidate(last, m)} :: n <= m < k ==> t[Candidate(last, m)] != Empty
    decreases bound - n
  {
    if t[Candidate(last, n)] == Empty {
      k := n;
    } else {
      k := FirstFreeStep(t, last, n + 1, bound);
    }
  }

  // A slot is found exactly when one is free, other than the slot whose number
  // the counter had on entry: that one is never taken.
  lemma TakesExactlyWhenFree(t: Table, last: int)
    requires last >= -1
    ensures (exists n: nat :: Takes(t, last, n)) <==> exists q: Pid :: t[q] == Empty && q != last
  {
    if q: Pid :| t[q] == Empty && q != last {
      var bound := Reaches(last, q);
      var k := FirstFreeStep(t, last, 1, bound);
      forall m: nat | 0 < m <= k ensures Candidate(last, m) != last { NotBackYet(last, q, bound, m); }
      assert Takes(t, last, k);
    }
    if n: nat :| Takes(t, last, n) {
      assert t[Candidate(last, n)] == Empty && Candidate(last, n) != last;
    }
  }

  lemma NotBackYet(last: int, q: Pid, n: nat, m: nat)
    requires last >= -1 && 0 < m <= n <= 1024 && Candidate(last, n) == q && q != last
    ensures Candidate(last, m) != last
  {
    if 0 <= last < 1024 && n < 1024 {
      assert last + m != last + 1024;
    }
  }

  // The search ends exactly when the table has a free slot or the counter has
  // not yet left the table; in a full table it then gives up, and with a
  // counter outside the table it runs for ever.
  lemma FullTableEndsOnlyBelowTableSize(t: Table, last: int)
    requires last >= -1 && forall p: Pid :: t[p] != Empty
    ensures (exists n: nat :: GivesUp(t, last, n)) <==> 0 <= last < 1024
    ensures forall n: nat :: !Takes(t, last, n)
  {
    if 0 <= last < 1024 {
      assert Candidate(last, 1024) == last;
      forall m: nat | 0 < m < 1024 ensures Candidate(last, m) != last {}
      assert GivesUp(t, last, 1024);
    }
  }
}
