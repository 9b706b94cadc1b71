// The process table, the scheduler and fork.
module Processes {
  import opened Descriptors
  import opened Ownership
  import opened Translation
  import opened Growth
  import opened Lifetimes
  import opened Mmu040
  import opened Schedule
  import opened Errno

  const MAX_PROCESS_FILES := 64

  datatype Registers = Registers(status: int, pc: int, stack: int, general: seq<int>)

  class Process {
    var pid: Pid
    var parent: int
    var state: ProcessState
    var returnValue: int
    const userspace: Userspace
    var user: int
    var group: int
    var timeStarted: int
    var file: seq<int>
    var reg: Registers

    constructor (pid: Pid, uid: int, gid: int)
      ensures this.pid == pid && state == Running && user == uid && group == gid
      ensures fresh(userspace) && userspace.word == NULL
      ensures file == seq(MAX_PROCESS_FILES, _ => -1) && |reg.general| == 15
    {
      this.pid, parent, state, returnValue := pid, 0, Running, 0;
      userspace := new Userspace();
      user, group, timeStarted := uid, gid, 1337;
      file := seq(MAX_PROCESS_FILES, _ => -1);
      reg := Registers(0, 0, 0, seq(15, _ => 0));
    }
  }

  // What a system call leads to; a panic stops the kernel.
  datatype Outcome = Returned(value: int) | Panicked

  class Kernel {
    const process: array<Process?>
    var current: Pid
    var last: int
    const mmu: Mmu

    constructor (mmu: Mmu)
      requires mmu.Valid() && mmu.dead == {} && mmu.mapping == 0 && mmu.srp.low == ZERO
      ensures Valid() && this.mmu == mmu && current == 0 && last == -1
      ensures fresh(process) && forall p: Pid :: process[p] == null
    {
      process := new Process?[MAX_PROCESSES](_ => null);
      this.mmu := mmu;
      current, last := 0, -1;
    }

    // The processes and their address space handles.
    ghost function Objects(): set<object>
      requires process.Length == MAX_PROCESSES
      reads process
    {
      (set p: Pid | process[p] != null :: process[p] as object) + (set p: Pid | process[p] != null ::
        process[p].userspace as object)
    }

    // The process in slot p is as it should be.
    ghost predicate SlotOk(p: Pid)
      requires process.Length == MAX_PROCESSES
      reads process, Objects(), mmu
    {
      process[p] != null ==>
        && process[p] in Objects() && process[p].userspace in Objects()
        && process[p].pid == p
        && process[p].userspace.word.low == ZERO
        && process[p].userspace.word.page != mmu.srp.page
        && (process[p].state != Zombie ==> IsRoot(mmu.St(), process[p].userspace.word.page))
    }

    // Two processes share neither objects nor, while alive, address spaces.
    ghost predicate Apart(p: Pid, q: Pid)
      requires process.Length == MAX_PROCESSES
      reads process, Objects()
    {
      process[p] != null && process[q] != null && p != q ==>
        && process[p] in Objects() && process[p].userspace in Objects()
        && process[q] in Objects() && process[q].userspace in Objects()
        && process[p] != process[q] && process[p].userspace != process[q].userspace
        && (process[p].state != Zombie && process[q].state != Zombie ==>
             process[p].userspace.word.page != process[q].userspace.word.page)
    }

    ghost predicate Valid()
      reads this, process, mmu
      reads if process.Length == MAX_PROCESSES then Objects() else {}
    {
      && process.Length == MAX_PROCESSES && last >= -1
      && mmu.Valid() && mmu.dead == {} && mmu.mapping == 0 && mmu.srp.low == ZERO
      && (forall p: Pid {:trigger SlotOk(p)} :: SlotOk(p))
      && (forall p: Pid, q: Pid {:trigger Apart(p, q)} :: Apart(p, q))
    }
  
    // The table as the searches see it.
    ghost function View(): (t: Table)
      requires process.Length == MAX_PROCESSES
      reads process, Objects()
    {
      seq(1024, p requires 0 <= p < 1024 reads process, Objects() => SlotAt(p))
    }

    ghost function SlotAt(p: Pid): Slot
      requires process.Length == MAX_PROCESSES
      reads process, Objects()
    {
      if process[p] == null then Slot.Empty
      else if process[p] in Objects() then Slot.Process(process[p].state)
      else Slot.Empty
    }

    lemma ViewAt(p: Pid)
      requires Valid()
      ensures View()[p] == if process[p] == null then Slot.Empty else Slot.Process(process[p].state)
    {
      assert SlotOk(p);
    }

    // ---- Switching ----

    method SwitchTo(pid: Pid)
      requires Valid() && process[pid] != null
      modifies this`current, mmu, mmu.window
      ensures Valid() && current == pid && mmu.urp == process[pid].userspace.word
      ensures Mirrored(old(mmu.St()), mmu.St(), mmu.urp.page, 96) && mmu.freeFrames == old(mmu.freeFrames)
    {
      assert SlotOk(pid);
      var err := mmu.SwitchUserspace(process[pid].userspace);
      mmu.MapCurrentUserspace();
      current := pid;
      forall p: Pid ensures SlotOk(p) { assert old(SlotOk(p)); }
      forall p: Pid, q: Pid ensures Apart(p, q) { assert old(Apart(p, q)); }
    }

    // The scheduler's search.
    method NextEligible() returns (next: Pid)
      requires Valid() && exists q: Pid :: process[q] != null && process[q].state != Blocked
      ensures process[next] != null && FirstAfter(View(), Eligible, current, next)
    {
      ghost var q: Pid :| process[q] != null && process[q].state != Blocked;
      ViewAt(q);
      next := After(current);
      while process[next] == null || process[next].state == Blocked
        invariant forall s: Pid {:trigger Distance(current, s)} :: Distance(current, s) < Distance(current, next) ==>
          !Eligible(View()[s])
        invariant Distance(current, next) <= Distance(current, q)
        decreases Distance(current, q) - Distance(current, next)
      {
        ViewAt(next);
        next := After(next);
      }
      ViewAt(next);
    }

    // The search of process_exit, which does not skip blocked processes.
    method NextPresent(pid: Pid) returns (next: Pid)
      requires Valid() && process[pid] != null
      ensures process[next] != null && FirstAfter(View(), Present, pid, next)
    {
      next := After(pid);
      while process[next] == null
        invariant forall s: Pid {:trigger Distance(pid, s)} :: Distance(pid, s) < Distance(pid, next) ==>
          !Present(View()[s])
        decreases Distance(pid, pid) - Distance(pid, next)
      {
        ViewAt(next);
        next := After(next);
      }
      ViewAt(next);
    }

    // Move on to the next process that is not blocked.
    method Scheduler()
      requires Valid() && exists q: Pid :: process[q] != null && process[q].state != Blocked
      modifies this`current, mmu, mmu.window
      ensures Valid() && Follows(Snapshot(old(View()), old(current)), Schedule, Snapshot(View(), current))
      ensures mmu.urp == process[current].userspace.word && mmu.freeFrames == old(mmu.freeFrames)
      ensures Mirrored(old(mmu.St()), mmu.St(), mmu.urp.page, 96)
    {
      var next := NextEligible();
      SwitchTo(next);
    }

    // ---- Creating and ending processes ----

    // The process in slot p, if there is one.
    ghost function Occupant(p: int): set<Process>
      requires process.Length == MAX_PROCESSES
      reads process
    {
      if 0 <= p < MAX_PROCESSES && process[p] != null then {process[p]} else {}
    }

    // The slot search of process_create.
    method FindSlot() returns (pid: int)
      requires Valid()
      requires (exists q: Pid :: process[q] == null) || 0 <= last < MAX_PROCESSES
      modifies this`last
      ensures Valid()
      ensures pid == -EAGAIN || (0 <= pid < MAX_PROCESSES && process[pid] == null)
      ensures pid == -EAGAIN <==> forall q: Pid :: process[q] == null ==> q == old(last)
      ensures pid != -EAGAIN ==>
        && last > old(last) && pid == Candidate(old(last), last - old(last)) == last % 1024
        && Takes(View(), old(last), last - old(last))
    {
      hide Takes;
      var tried := last;
      ghost var bound := SearchBound();
      var p: Pid := 0;
      while true
        invariant Valid() && tried <= last < tried + bound
        invariant forall m: nat {:trigger Candidate(tried, m)} :: 0 < m <= last - tried ==>
          Candidate(tried, m) != tried && process[Candidate(tried, m)] != null
        decreases tried + bound - last
      {
        last := last + 1;
        forall q: Pid ensures SlotOk(q) { assert old(SlotOk(q)); }
        forall q: Pid, r: Pid ensures Apart(q, r) { assert old(Apart(q, r)); }
        p := last % MAX_PROCESSES;
        assert p == Candidate(tried, last - tried);
        if p == tried {
          NoneFound(tried);
          return -EAGAIN;
        }
        if process[p] == null {
          break;
        }
      }
      FoundFirst(tried);
      return p;
    }

    // Back at the start, the search has seen every slot.
    lemma NoneFound(tried: int)
      requires process.Length == MAX_PROCESSES && last > tried >= -1 && last % 1024 == tried
      requires forall m: nat {:trigger Candidate(tried, m)} :: 0 < m < last - tried ==>
        process[Candidate(tried, m)] != null
      ensures forall q: Pid :: process[q] == null ==> q == tried
    {
      forall q: Pid | process[q] == null ensures q == tried {
        var m := Reaches(tried, q);
        assert last - tried >= 1024;
      }
    }

    lemma FoundFirst(tried: int)
      requires Valid() && last > tried >= -1
      requires Candidate(tried, last - tried) != tried && process[Candidate(tried, last - tried)] == null
      requires forall m: nat {:trigger Candidate(tried, m)} :: 0 < m < last - tried ==>
        Candidate(tried, m) != tried && process[Candidate(tried, m)] != null
      ensures Takes(View(), tried, last - tried)
    {
      ViewAt(Candidate(tried, last - tried));
      forall m: nat | 0 < m < last - tried
        ensures Candidate(tried, m) != tried && View()[Candidate(tried, m)] != Slot.Empty
      {
        ViewAt(Candidate(tried, m));
      }
    }

    // The search ends at the latest where it meets a free slot or its start.
    lemma SearchBound() returns (n: nat)
      requires Valid() && ((exists q: Pid :: process[q] == null) || 0 <= last < MAX_PROCESSES)
      ensures 0 < n <= 1024 && (Candidate(last, n) == last || process[Candidate(last, n)] == null)
    {
      if 0 <= last < MAX_PROCESSES {
        n := Reaches(last, last);
      } else {
        var q: Pid :| process[q] == null;
        n := Reaches(last, q);
      }
    }
  
    // Slot pid holds a new process with an empty address space.
    twostate predicate Made(pid: int, uid: int, gid: int)
      requires process.Length == MAX_PROCESSES && old(mmu.Valid())
      reads process, mmu
      reads if 0 <= pid < MAX_PROCESSES && process[pid] != null then {process[pid], process[pid].userspace} else {}
    {
      && 0 <= pid < MAX_PROCESSES && old(process[pid]) == null
      && process[pid] != null && fresh(process[pid]) && fresh(process[pid].userspace)
      && process[pid].state == Running && process[pid].user == uid && process[pid].group == gid
      && process[pid].file == seq(64, _ => -1) && |process[pid].reg.general| == 15
      && process[..] == old(process[..])[pid := process[pid]]
      && var b := process[pid].userspace.word.page;
      && |old(mmu.free)| > 0 && b == old(mmu.free)[|old(mmu.free)| - 1]
      && mmu.St() == Plant(old(Take(mmu.St())), b) && mmu.freeFrames == old(mmu.freeFrames) - 1
      && mmu.urp == process[pid].userspace.word
      && EmptyFrom(mmu.mem, b, ROOT, 0)
    }

    method MakeProcess(pid: Pid, uid: int, gid: int)
      requires Valid() && mmu.freeFrames > 0 && process[pid] == null
      modifies process, mmu, mmu.window
      ensures Valid() && Made(pid, uid, gid)
    {
      assert IsRoot(mmu.St(), mmu.srp.page);
      hide Wf, EmptyFrom;
      var proc := new Process(pid, uid, gid);
      PlantedRootIsNew(mmu.St(), mmu.free[|mmu.free| - 1]);
      var err := mmu.InitUserspace(proc.userspace);
      process[pid] := proc;
      forall p: Pid ensures SlotOk(p) { assert old(SlotOk(p)); }
      forall p: Pid, q: Pid ensures Apart(p, q) { assert old(Apart(p, q) && SlotOk(p) && SlotOk(q)); }
    }

    // Make a process. The source ignores a failure of mmu_init_userspace, hence
    // the demand for a frame.
    method ProcessCreate(uid: int, gid: int) returns (pid: int)
      requires Valid() && mmu.freeFrames > 0
      requires (exists q: Pid :: process[q] == null) || 0 <= last < MAX_PROCESSES
      modifies this`last, process, mmu, mmu.window
      ensures Valid() && Follows(Snapshot(old(View()), old(current)), Change, Snapshot(View(), current))
      ensures pid == -EAGAIN <==> forall q: Pid :: old(process[q]) == null ==> q == old(last)
      ensures pid == -EAGAIN ==> mmu.St() == old(mmu.St()) && process[..] == old(process[..])
      ensures pid != -EAGAIN ==>
        && Made(pid, uid, gid) && pid == last % MAX_PROCESSES
        && last > old(last) && Takes(old(View()), old(last), last - old(last))
    {
      pid := FindSlot();
      if pid < 0 {
        return;
      }
      MakeProcess(pid, uid, gid);
    }
  
    // Give back the address space of process pid and leave it a zombie.
    method ReleaseProcess(pid: Pid, returnValue: int)
      requires Valid() && process[pid] != null && process[pid].state != Zombie
      modifies Occupant(pid)`state, Occupant(pid)`returnValue, mmu, mmu.window
      ensures Valid() && process[pid].state == Zombie && process[pid].returnValue == returnValue
      ensures TreeGone(old(mmu.St()), mmu.St(), process[pid].userspace.word.page, false)
      ensures mmu.urp == old(mmu.urp) && mmu.freeFrames == old(mmu.freeFrames)
    {
      hide Wf, TreeGone, Released;
      assert SlotOk(pid);
      ghost var r := process[pid].userspace.word.page;
      mmu.FreeUserspace(process[pid].userspace);
      GoneIsReleased(old(mmu.St()), mmu.St(), r);
      process[pid].returnValue := returnValue;
      process[pid].state := Zombie;
      forall p: Pid ensures SlotOk(p) { assert old(SlotOk(p) && Apart(p, pid)); }
      forall p: Pid, q: Pid ensures Apart(p, q) { assert old(Apart(p, q)); }
    }

    // process_exit. Ending process 0 or 1 is a panic. As a step of a run it is a
    // switch if it ends the current process.
    method ProcessExit(pid: int, returnValue: int) returns (panicked: bool)
      requires Valid()
      requires 2 <= pid < MAX_PROCESSES && process[pid] != null ==> process[pid].state != Zombie
      modifies this`current, mmu, mmu.window
      modifies Occupant(pid)`state, Occupant(pid)`returnValue
      ensures Valid() && process[..] == old(process[..])
      ensures panicked <==> 0 <= pid < 2 && process[pid] != null
      ensures var switches := old(current) == pid && 2 <= pid && process[pid] != null;
        var step := if switches then ExitCurrent else Change;
        Follows(Snapshot(old(View()), old(current)), step, Snapshot(View(), current))
      ensures mmu.freeFrames == old(mmu.freeFrames)
      ensures (old(current) != pid ==> current == old(current) && mmu.urp == old(mmu.urp))
      ensures 2 <= pid < MAX_PROCESSES && process[pid] != null ==>
        && process[pid].state == Zombie && process[pid].returnValue == returnValue
        && Released(old(mmu.St()), mmu.St(), process[pid].userspace.word.page)
        && (old(current) == pid ==>
             && FirstAfter(old(View()), Present, pid, current)
             && mmu.urp == process[current].userspace.word
             && SwitchedAndReleased(old(mmu.St()), mmu.St(), process[pid].userspace.word.page, mmu.urp.page))
        && (old(current) != pid ==> TreeGone(old(mmu.St()), mmu.St(), process[pid].userspace.word.page, false))
      ensures !(2 <= pid < MAX_PROCESSES && process[pid] != null) ==>
        mmu.St() == old(mmu.St()) && current == old(current)
    {
      if pid < 0 || pid >= MAX_PROCESSES {
        return false;
      }
      if process[pid] == null {
        return false;
      }
      if pid == 0 || pid == 1 {
        return true;
      }
      hide Wf, Mirrored, TreeGone, SwitchedAndReleased;
      assert SlotOk(pid);
      ghost var r := process[pid].userspace.word.page;
      if current == pid {
        var next := NextPresent(pid);
        assert SlotOk(next);
        SwitchTo(next);
        ghost var mid := mmu.St();
        ReleaseProcess(pid, returnValue);
        ReleasedAfterSwitch(old(mmu.St()), mid, mmu.St(), r, mmu.urp.page);
      } else {
        ReleaseProcess(pid, returnValue);
        GoneIsReleased(old(mmu.St()), mmu.St(), r);
      }
      return false;
    }

    // process_wait; the list of waiters is not part of this model.
    method ProcessWait(pid: int) returns (r: int)
      requires Valid() && process[current] != null && process[current].state != Zombie
      modifies process
      modifies (if 0 <= pid < MAX_PROCESSES && process[pid] != null && process[pid].state != Zombie
                then Occupant(current) else {})`state
      ensures Valid() && Follows(Snapshot(old(View()), old(current)), Change, Snapshot(View(), current))
      ensures !(0 <= pid < MAX_PROCESSES) ==> r == -EINVAL && process[..] == old(process[..])
      ensures 0 <= pid < MAX_PROCESSES ==>
        if old(process[pid]) == null then r == -ESRCH && process[..] == old(process[..])
        else if old(process[pid].state) == Zombie then
          r == old(process[pid].returnValue) && process[..] == old(process[..])[pid := null]
        else r == -1000 && process[..] == old(process[..]) && process[current].state == Blocked
    {
      if pid < 0 || pid >= MAX_PROCESSES {
        return -EINVAL;
      }
      if process[pid] == null {
        return -ESRCH;
      }
      if process[pid].state == Zombie {
        r := process[pid].returnValue;
        process[pid] := null;
      } else {
        process[current].state := Blocked;
        r := -1000;
      }
      forall p: Pid ensures SlotOk(p) { assert old(SlotOk(p)); }
      forall p: Pid, q: Pid ensures Apart(p, q) { assert old(Apart(p, q)); }
    }
  
    // ---- fork ----

    // The way out when the child's address space could not be copied.
    method AbandonChild(pid: Pid) returns (panicked: bool)
      requires Valid() && process[pid] != null && process[pid].state == Running && current != pid
      requires process[current] != null && process[current].state != Zombie
      modifies this`current, process, process[pid], mmu, mmu.window
      ensures Valid() && current == old(current) && mmu.urp == old(mmu.urp)
      ensures panicked <==> pid < 2
      ensures !panicked ==> process[..] == old(process[..])[pid := null]
      ensures !panicked ==> TreeGone(old(mmu.St()), mmu.St(), old(process[pid].userspace.word.page), false)
      ensures mmu.freeFrames == old(mmu.freeFrames)
    {
      var new_ := process[pid];
      panicked := ProcessExit(pid, 1);
      if panicked {
        return;
      }
      assert old(Apart(current, pid));
      new_.state := Zombie;
      var r := ProcessWait(pid);
    }
  
    // The child runs on with the parent's registers and files, and sees 0.
    method CopyProcess(parent: Pid, child: Pid)
      requires Valid() && process[parent] != null && process[child] != null && parent != child
      requires |process[parent].reg.general| == 15
      modifies process[child]
      ensures Valid() && process[child].state == old(process[child].state)
      ensures process[child].parent == parent && process[child].file == old(process[parent].file)
      ensures process[child].user == old(process[child].user) && process[child].group == old(process[child].group)
      ensures process[child].reg ==
        old(process[parent].reg).(status := old(process[child].reg.status),
                                  general := old(process[parent].reg.general)[0 := 0])
    {
      assert SlotOk(parent) && Apart(parent, child);
      var c, n := process[parent], process[child];
      n.reg := n.reg.(pc := c.reg.pc, stack := c.reg.stack);
      n.reg := n.reg.(general := c.reg.general);
      n.file := c.file;
      n.reg := n.reg.(general := n.reg.general[0 := 0]);
      n.parent := c.pid;
      forall p: Pid ensures SlotOk(p) { assert old(SlotOk(p)); }
      forall p: Pid, q: Pid ensures Apart(p, q) { assert old(Apart(p, q)); }
    }
  
    // Copy the current process's address space to the empty one of process pid.
    method CloneInto(pid: Pid) returns (err: int)
      requires Valid() && current != pid && process[current] != null && process[pid] != null
      requires process[current].state != Zombie && process[pid].state != Zombie
      requires EmptyFrom(mmu.mem, process[pid].userspace.word.page, ROOT, 0)
      modifies mmu, mmu.window
      ensures Valid() && mmu.urp == old(mmu.urp)
      ensures var a, b := process[current].userspace.word.page, process[pid].userspace.word.page;
        var n := FramesFrom(old(mmu.mem), a, 0);
        && Grown(old(mmu.St()), mmu.St(), b) && UserRoots(mmu.St(), a, b)
        && (err == 0 <==> old(mmu.freeFrames) >= n)
        && (err == 0 ==> mmu.freeFrames == old(mmu.freeFrames) - n && SubtreesCopied(mmu.mem, a, b, ROOT_ENTRIES))
        && (err != 0 ==> err < 0 && mmu.freeFrames == 0)
    {
      hide Wf, Grown, EmptyFrom, SubtreesCopied;
      assert SlotOk(current) && SlotOk(pid) && Apart(current, pid);
      ghost var b := process[pid].userspace.word.page;
      err := mmu.CloneUserspace(process[current].userspace, process[pid].userspace);
      GrownKeepsRoots(old(mmu.St()), mmu.St(), b);
      forall p: Pid ensures SlotOk(p) { assert old(SlotOk(p)); }
      forall p: Pid, q: Pid ensures Apart(p, q) { assert old(Apart(p, q)); }
    }

    // The number of frames the address space of a process holds besides its root.
    ghost function Cost(p: Pid): nat
      requires process.Length == MAX_PROCESSES && process[p] != null
      reads process, process[p], process[p].userspace, mmu
    {
      FramesFrom(mmu.mem, process[p].userspace.word.page, 0)
    }

    // Process pid is a copy of process `parent`.
    twostate predicate Copied(parent: Pid, pid: int)
      requires process.Length == MAX_PROCESSES && old(process[parent]) != null
      reads process, mmu
      reads if 0 <= pid < MAX_PROCESSES && process[pid] != null then {process[pid], process[pid].userspace} else {}
    {
      && 0 <= pid < MAX_PROCESSES && process[pid] != null
      && process[pid].state == Running && process[pid].parent == parent
      && process[pid].user == old(process[parent].user) && process[pid].group == old(process[parent].group)
      && process[pid].file == old(process[parent].file)
      && process[pid].reg.pc == old(process[parent].reg.pc) && process[pid].reg.stack == old(process[parent].reg.stack)
      && |old(process[parent].reg.general)| == 15
      && process[pid].reg.general == old(process[parent].reg.general)[0 := 0]
      && var root := old(process[parent].userspace.word.page);
      SubtreesCopied(mmu.mem, root, process[pid].userspace.word.page, ROOT_ENTRIES)
    }

    // Every frame in use in s0, and every translation, is as it was, and each
    // page of `parent` in s0 has a copy in process pid.
    ghost predicate MemoryCopied(s0: State, parent: Pid, pid: Pid)
      requires process.Length == MAX_PROCESSES && process[parent] != null && process[pid] != null
      reads process, mmu, process[parent], process[pid], process[parent].userspace, process[pid].userspace
    {
      && UsedKept(s0, mmu.St()) && NothingMoved(s0, mmu.St())
      && CopyOfOld(s0, mmu.St(), process[parent].userspace.word.page, process[pid].userspace.word.page)
    }

    // Every frame is free or used as it was in s0.
    ghost predicate AllRestored(s0: State)
      reads mmu
    {
      && mmu.own.Keys == s0.own.Keys
      && forall f: nat {:trigger Restored(s0, mmu.St(), f)} :: f in s0.own ==> Restored(s0, mmu.St(), f)
    }

    // The part of fork after process pid was created in state s0.
    method CopyOrAbandon(pid: Pid, ghost s0: State) returns (r: Outcome)
      requires Valid() && process[current] != null && process[current].state != Zombie
      requires |process[current].reg.general| == 15
      requires process[pid] != null && process[pid].state == Running && pid != current
      requires process[pid].user == process[current].user && process[pid].group == process[current].group
      requires var b := process[pid].userspace.word.page;
        && Wf(s0) && s0.dead == {} && |s0.free| > 0 && b == s0.free[|s0.free| - 1]
        && mmu.St() == Plant(Take(s0), b) && EmptyFrom(mmu.mem, b, ROOT, 0)
      modifies this`current, process, process[pid], mmu, mmu.window
      ensures Valid() && current == old(current) && mmu.urp == old(mmu.urp)
      ensures old(mmu.freeFrames) >= old(Cost(current)) ==>
        && r == Returned(pid) && Copied(old(current), pid) && process[..] == old(process[..])
        && mmu.freeFrames == old(mmu.freeFrames) - old(Cost(current))
        && MemoryCopied(s0, old(current), pid)
      ensures old(mmu.freeFrames) < old(Cost(current)) ==>
        && mmu.freeFrames == 0
        && r == (if pid < 2 then Panicked else Returned(-ENOMEM))
        && (pid >= 2 ==> process[..] == old(process[..])[pid := null] && AllRestored(s0))
        && (pid >= 2 ==> var b := old(process[pid].userspace.word.page); b in mmu.own && mmu.own[b].Free?)
    {
      hide Wf, Grown, TreeGone, EmptyFrom, SubtreesCopied, FramesFrom, UsedKept, NothingMoved, CopyOfOld;
      assert SlotOk(current) && SlotOk(pid) && Apart(current, pid);
      ghost var s1, b := mmu.St(), process[pid].userspace.word.page;
      var err := CloneInto(pid);
      if err < 0 {
        ghost var s2 := mmu.St();
        var panicked := AbandonChild(pid);
        if panicked {
          return Panicked;
        }
        UndoneChild(s0, s1, s2, mmu.St(), b);
        PlantedRootIsNew(s0, b);
        assert Restored(s0, mmu.St(), b);
        return Returned(-ENOMEM);
      }
      ghost var a := process[current].userspace.word.page;
      PlantedAndGrown(s0, s1, mmu.St(), b);
      UsedKeptMovesNothing(s0, mmu.St());
      CopyIsOfOld(s0, mmu.St(), a, b);
      CopyProcess(current, pid);
      return Returned(pid);
    }

    method Fork() returns (r: Outcome)
      requires Valid() && mmu.freeFrames > 0
      requires (exists q: Pid :: process[q] == null) || 0 <= last < MAX_PROCESSES
      requires process[current] != null ==> process[current].state != Zombie && |process[current].reg.general| == 15
      modifies this`last, this`current, process, mmu, mmu.window
      ensures Valid() && Follows(Snapshot(old(View()), old(current)), Change, Snapshot(View(), current))
      // No current process, or no slot: nothing happens.
      ensures old(process[current]) == null || (forall q: Pid :: old(process[q]) == null ==> q == old(last)) ==>
        r == Returned(-EAGAIN) && mmu.St() == old(mmu.St()) && process[..] == old(process[..])
      // Otherwise it succeeds exactly when the counter covers the copy.
      ensures old(process[current]) != null && (exists q: Pid :: old(process[q]) == null && q != old(last)) ==>
        var pid := last % MAX_PROCESSES;
        && old(process[pid]) == null
        && (old(mmu.freeFrames) > old(Cost(current)) ==>
             && r == Returned(pid) && Copied(old(current), pid) && fresh(process[pid])
             && process[..] == old(process[..])[pid := process[pid]]
             && mmu.freeFrames == old(mmu.freeFrames) - 1 - old(Cost(current))
             && MemoryCopied(old(mmu.St()), old(current), pid)
             // The user root pointer is left at the child's address space.
             && mmu.urp == process[pid].userspace.word)
        && (old(mmu.freeFrames) <= old(Cost(current)) ==>
             && mmu.freeFrames == 0
             && r == (if pid < 2 then Panicked else Returned(-ENOMEM))
             // Every frame is as before, and the user root pointer is left at a
             // root table that has been freed.
             && (pid >= 2 ==>
                  && process[..] == old(process[..]) && AllRestored(old(mmu.St()))
                  && mmu.urp.page in mmu.own && mmu.own[mmu.urp.page].Free?))
    {
      hide Wf, EmptyFrom, SubtreesCopied, FramesFrom, Restored, MemoryCopied;
      if process[current] == null {
        return Returned(-EAGAIN);
      }
      assert SlotOk(current);
      var pid := ProcessCreate(process[current].user, process[current].group);
      if pid < 0 {
        return Returned(-EAGAIN);
      }
      PlantingKeepsCost(old(mmu.St()), process[pid].userspace.word.page, process[current].userspace.word.page);
      r := CopyOrAbandon(pid, old(mmu.St()));
    }
  }
}
