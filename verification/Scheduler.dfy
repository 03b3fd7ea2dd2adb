/**
 The scheduler as a machine of atomic steps: switchTask runs under sched_lock, so
 one call on one CPU is one step. 0 stands for a null pointer.
 */
module Scheduler {
  import opened Wrappers

  datatype Status = Initial | Ready | Running | Blocked | Sleeping | Killed

  /** The registers that allocThread sets, and all others together. */
  datatype Registers = Registers(rip: nat, rdi: nat, rsp: nat, rflags: nat, cs: nat, ss: nat, others: nat)

  datatype Thread = Thread(tid: nat, status: Status, regs: Registers, parent: nat)

  datatype Process = Process(status: Status, pagemap: nat, threads: seq<nat>, nextTid: nat)

  /** A CPU's current process and thread, its idle process, and the page map in CR3. */
  datatype Cpu = Cpu(process: nat, thread: nat, idle: nat, cr3: nat)

  datatype State = State(threads: map<nat, Thread>, procs: map<nat, Process>, table: seq<nat>, cpus: seq<Cpu>,
                         nextPid: nat, nextThread: nat)

  const STACK_SIZE: nat := 0x2000

  /** TurboVector::find compares the data pointer with itself: 0 for every non-empty vector, else -1. */
  function Find(vec: seq<nat>, thing: nat): int {
    if vec == [] then -1 else 0
  }

  // ----- What every step keeps -------------------------------------------------------------

  /** A process has threads of its own, numbered from 1. */
  ghost predicate Wired(s: State, p: nat)
    requires p in s.procs
  {
    var vec := s.procs[p].threads;
    && 0 < p < s.nextPid && vec != [] && s.procs[p].nextTid == |vec| + 1
    && (forall k | 0 <= k < |vec| ::
        vec[k] in s.threads && s.threads[vec[k]].parent == p && s.threads[vec[k]].tid == k + 1)
  }

  /** CPU i runs a thread of its current process under that process's page map, or nothing at all. */
  ghost predicate Loaded(s: State, i: nat)
    requires i < |s.cpus|
  {
    var c := s.cpus[i];
    if c.thread == 0 then c.process == 0
    else
      && c.process in s.procs && c.thread in s.threads && c.thread in s.procs[c.process].threads
      && s.threads[c.thread].parent == c.process && c.cr3 == s.procs[c.process].pagemap
  }

  /** What CPU i runs is not READY, so no CPU can choose it. */
  ghost predicate Busy(s: State, i: nat)
    requires i < |s.cpus|
  {
    var t := s.cpus[i].thread;
    t != 0 && t in s.threads ==> s.threads[t].status != Ready
  }

  /** CPUs i and j do not run the same thread. */
  ghost predicate Exclusive(s: State, i: nat, j: nat)
    requires i < |s.cpus| && j < |s.cpus|
  {
    i != j && s.cpus[i].thread != 0 ==> s.cpus[i].thread != s.cpus[j].thread
  }

  /** The idle process of CPU i is not in the process table, and no other CPU has it or its idle thread. */
  ghost predicate OwnIdle(s: State, i: nat)
    requires i < |s.cpus|
  {
    var idle := s.cpus[i].idle;
    idle != 0 ==>
      && idle in s.procs && idle !in s.table && s.procs[idle].threads != []
      && forall j | 0 <= j < |s.cpus| && j != i ::
           s.cpus[j].idle != idle && s.cpus[j].thread != s.procs[idle].threads[0]
  }

  /** Everything except what the threads' states say; it holds in the middle of a step, too. */
  ghost predicate Core(s: State) {
    && s.nextThread > 0 && s.nextPid > 0
    && (forall t | t in s.threads :: 0 < t < s.nextThread && s.threads[t].status != Killed)
    && (forall p | p in s.table :: p in s.procs)
    && (forall p | p in s.procs :: Wired(s, p) && s.procs[p].status != Killed)
    && (forall i | 0 <= i < |s.cpus| :: Loaded(s, i) && OwnIdle(s, i))
    && (forall i, j | 0 <= i < |s.cpus| && 0 <= j < |s.cpus| :: Exclusive(s, i, j))
  }

  ghost predicate Good(s: State) {
    Core(s) && forall i | 0 <= i < |s.cpus| :: Busy(s, i)
  }

  /** No guard of clean_proc holds in a good state, so it changes nothing. */
  lemma NothingToClean(s: State, p: nat)
    requires Core(s) && p in s.procs
    ensures s.procs[p].status != Killed && s.procs[p].threads != []
    ensures forall t | t in s.procs[p].threads :: t in s.threads && s.threads[t].status != Killed
  {
    assert Wired(s, p);
  }

  // ----- Choosing a thread -------------------------------------------------------------------

  /** The first READY thread of a vector from index k on, or 0. */
  ghost function FirstReady(s: State, vec: seq<nat>, k: nat): (t: nat)
    ensures t != 0 ==> t in s.threads && s.threads[t].status == Ready && exists j: nat :: k <= j < |vec| && vec[j] == t
    decreases |vec| - k
  {
    if k >= |vec| then 0
    else if vec[k] in s.threads && s.threads[vec[k]].status == Ready then vec[k]
    else FirstReady(s, vec, k + 1)
  }

  /** The first READY process from index k of the table on that has a READY thread, with that thread. */
  ghost function FirstProcess(s: State, k: nat): (r: (nat, nat))
    ensures r.1 != 0 ==>
              && r.0 in s.table && r.0 in s.procs && r.1 in s.procs[r.0].threads
              && r.1 in s.threads && s.threads[r.1].status == Ready && s.procs[r.0].status == Ready
    decreases |s.table| - k
  {
    if k >= |s.table| then (0, 0)
    else
      var p := s.table[k];
      if p in s.procs && s.procs[p].status == Ready && FirstReady(s, s.procs[p].threads, 0) != 0
      then (p, FirstReady(s, s.procs[p].threads, 0))
      else FirstProcess(s, k + 1)
  }

  /** The choice of switchTask: later threads of the current process, then later processes; (0, 0) for none. */
  ghost function Choice(s: State, i: nat): (nat, nat)
    requires i < |s.cpus|
  {
    var c := s.cpus[i];
    if c.process == 0 || c.thread == 0 then FirstProcess(s, 0)
    else if c.process in s.procs && s.procs[c.process].status == Ready &&
            FirstReady(s, s.procs[c.process].threads, Find(s.procs[c.process].threads, c.thread) + 1) != 0
    then (c.process, FirstReady(s, s.procs[c.process].threads, Find(s.procs[c.process].threads, c.thread) + 1))
    else FirstProcess(s, Find(s.table, c.process) + 1)
  }

  // ----- The parts of a step --------------------------------------------------------------------

  /** The registers go into the current thread, and a RUNNING thread becomes READY. */
  function Saved(s: State, i: nat, regs: Registers): State
    requires i < |s.cpus|
  {
    var t := s.cpus[i].thread;
    if t == 0 || s.cpus[i].process == 0 || t !in s.threads then s
    else
      var old_ := s.threads[t];
      s.(threads := s.threads[t := old_.(regs := regs, status := if old_.status == Running then Ready
                                         else old_.status)])
  }

  /** Thread t of process p becomes the current one of CPU i. */
  function Started(s: State, i: nat, p: nat, t: nat): State
    requires i < |s.cpus| && p in s.procs && t in s.threads
  {
    s.(threads := s.threads[t := s.threads[t].(status := Running)],
       cpus := s.cpus[i := s.cpus[i].(process := p, thread := t, cr3 := s.procs[p].pagemap)])
  }

  /** A new thread of process p, or of none for 0. */
  function Spawned(s: State, p: nat, addr: nat, args: nat, stack: nat): State
    requires p == 0 || p in s.procs
  {
    var regs := Registers(addr, args, stack + STACK_SIZE, 0x202, 0x28, 0x30, 0);
    if p == 0 then s.(threads := s.threads[s.nextThread := Thread(1, Ready, regs, 0)], nextThread := s.nextThread + 1)
    else
      var proc := s.procs[p];
      s.(threads := s.threads[s.nextThread := Thread(proc.nextTid, Ready, regs, p)],
         procs := s.procs[p := proc.(threads := proc.threads + [s.nextThread], nextTid := proc.nextTid + 1)],
         nextThread := s.nextThread + 1)
  }

  /** allocProc with a thread: a new process that is not in the table. */
  function Allocated(s: State, pagemap: nat, addr: nat, args: nat, stack: nat): State
    requires s.nextPid !in s.procs
  {
    var p := s.nextPid;
    Spawned(s.(procs := s.procs[p := Process(Initial, pagemap, [], 1)], nextPid := p + 1), p, addr, args, stack)
  }

  /** createProc: the new process goes into the table and becomes READY. */
  function Created(s: State, pagemap: nat, addr: nat, args: nat, stack: nat): State
    requires s.nextPid !in s.procs && s.nextPid != 0
  {
    var r := Allocated(s, pagemap, addr, args, stack);
    r.(table := r.table + [s.nextPid], procs := r.procs[s.nextPid := r.procs[s.nextPid].(status := Ready)])
  }

  /** The state of a thread or process is overwritten. */
  function ThreadSet(s: State, t: nat, status: Status): State
    requires t in s.threads
  {
    s.(threads := s.threads[t := s.threads[t].(status := status)])
  }

  function ProcessSet(s: State, p: nat, status: Status): State
    requires p in s.procs
  {
    s.(procs := s.procs[p := s.procs[p].(status := status)])
  }

  ghost predicate Held(s: State, t: nat) {
    exists i :: 0 <= i < |s.cpus| && s.cpus[i].thread == t
  }

  // ----- Every part keeps the invariant ------------------------------------------------------------

  /** Giving a thread another state keeps everything that is not about states. */
  lemma ThreadChanged(s: State, t: nat, thread: Thread)
    requires Core(s) && t in s.threads && thread.tid == s.threads[t].tid && thread.parent == s.threads[t].parent
    requires thread.status != Killed
    ensures Core(s.(threads := s.threads[t := thread]))
  {
    var r := s.(threads := s.threads[t := thread]);
    forall p | p in r.procs ensures Wired(r, p) {
      assert Wired(s, p);
    }
    forall i | 0 <= i < |r.cpus| ensures Loaded(r, i) && OwnIdle(r, i) {
      assert Loaded(s, i) && OwnIdle(s, i);
    }
    forall i, j | 0 <= i < |r.cpus| && 0 <= j < |r.cpus| ensures Exclusive(r, i, j) {
      assert Exclusive(s, i, j);
    }
  }

  /** A state other than READY, or READY when no CPU has the thread, keeps the invariant; and only that does. */
  lemma ThreadSetGood(s: State, t: nat, status: Status)
    requires Good(s) && t in s.threads && status != Killed
    ensures Good(ThreadSet(s, t, status)) <==> (status == Ready ==> !Held(s, t))
  {
    var r := ThreadSet(s, t, status);
    ThreadChanged(s, t, r.threads[t]);
    assert t != 0;
    forall i | 0 <= i < |r.cpus| ensures Busy(r, i) <==> (status == Ready ==> s.cpus[i].thread != t) {
      assert Busy(s, i);
    }
  }

  lemma ProcessSetGood(s: State, p: nat, status: Status)
    requires Good(s) && p in s.procs && status != Killed
    ensures Good(ProcessSet(s, p, status))
  {
    var r := ProcessSet(s, p, status);
    forall q | q in r.procs ensures Wired(r, q) {
      assert Wired(s, q);
    }
    forall i | 0 <= i < |r.cpus| ensures Loaded(r, i) && OwnIdle(r, i) && Busy(r, i) {
      assert Loaded(s, i) && OwnIdle(s, i) && Busy(s, i);
    }
    forall i, j | 0 <= i < |r.cpus| && 0 <= j < |r.cpus| ensures Exclusive(r, i, j) {
      assert Exclusive(s, i, j);
    }
  }

  lemma SpawnedCore(s: State, p: nat, addr: nat, args: nat, stack: nat)
    requires Core(s) && (p == 0 || p in s.procs)
    ensures Core(Spawned(s, p, addr, args, stack))
  {
    var r := Spawned(s, p, addr, args, stack);
    forall q | q in r.procs ensures Wired(r, q) {
      assert Wired(s, q);
    }
    forall i | 0 <= i < |r.cpus| ensures Loaded(r, i) && OwnIdle(r, i) {
      assert Loaded(s, i) && OwnIdle(s, i);
    }
    forall i, j | 0 <= i < |r.cpus| && 0 <= j < |r.cpus| ensures Exclusive(r, i, j) {
      assert Exclusive(s, i, j);
    }
  }

  /** No CPU has a thread that is being made. */
  lemma NewThreadFree(s: State, i: nat)
    requires Core(s) && i < |s.cpus|
    ensures s.cpus[i].thread != s.nextThread
  {
    assert Loaded(s, i);
  }

  lemma SpawnedGood(s: State, p: nat, addr: nat, args: nat, stack: nat)
    requires Good(s) && (p == 0 || p in s.procs)
    ensures Good(Spawned(s, p, addr, args, stack))
  {
    SpawnedCore(s, p, addr, args, stack);
    var r := Spawned(s, p, addr, args, stack);
    forall i | 0 <= i < |r.cpus| ensures Busy(r, i) {
      assert Busy(s, i);
      NewThreadFree(s, i);
    }
  }

  lemma NewPidFree(s: State)
    requires Core(s)
    ensures s.nextPid !in s.procs && s.nextPid !in s.table
    ensures forall i | 0 <= i < |s.cpus| :: s.cpus[i].idle != s.nextPid && s.cpus[i].process != s.nextPid
  {
    assert s.nextPid in s.procs ==> Wired(s, s.nextPid);
    forall i | 0 <= i < |s.cpus| ensures s.cpus[i].idle != s.nextPid && s.cpus[i].process != s.nextPid {
      assert Loaded(s, i) && OwnIdle(s, i);
    }
  }

  lemma AllocatedCore(s: State, pagemap: nat, addr: nat, args: nat, stack: nat)
    requires Core(s)
    ensures s.nextPid !in s.procs && Core(Allocated(s, pagemap, addr, args, stack))
  {
    NewPidFree(s);
    var r := Allocated(s, pagemap, addr, args, stack);
    forall q | q in r.procs ensures Wired(r, q) {
      if q in s.procs {
        assert Wired(s, q);
      }
    }
    forall i | 0 <= i < |r.cpus| ensures Loaded(r, i) && OwnIdle(r, i) {
      assert Loaded(s, i) && OwnIdle(s, i);
    }
    forall i, j | 0 <= i < |r.cpus| && 0 <= j < |r.cpus| ensures Exclusive(r, i, j) {
      assert Exclusive(s, i, j);
    }
  }

  lemma AllocatedBusy(s: State, pagemap: nat, addr: nat, args: nat, stack: nat, i: nat)
    requires Core(s) && s.nextPid !in s.procs && i < |s.cpus| && Busy(s, i)
    ensures Busy(Allocated(s, pagemap, addr, args, stack), i)
  {
    NewThreadFree(s, i);
  }

  lemma CreatedGood(s: State, pagemap: nat, addr: nat, args: nat, stack: nat)
    requires Good(s)
    ensures s.nextPid !in s.procs && Good(Created(s, pagemap, addr, args, stack))
  {
    AllocatedCore(s, pagemap, addr, args, stack);
    NewPidFree(s);
    var a := Allocated(s, pagemap, addr, args, stack);
    forall i | 0 <= i < |a.cpus| ensures Busy(a, i) {
      AllocatedBusy(s, pagemap, addr, args, stack, i);
    }
    InTable(a, s.nextPid);
    hide Allocated;
    ProcessSetGood(a.(table := a.table + [s.nextPid]), s.nextPid, Ready);
  }

  /** A process that is no CPU's idle process can go into the table. */
  lemma InTable(s: State, p: nat)
    requires Good(s) && p in s.procs && forall i | 0 <= i < |s.cpus| :: s.cpus[i].idle != p
    ensures Good(s.(table := s.table + [p]))
  {
    var r := s.(table := s.table + [p]);
    forall q | q in r.procs ensures Wired(r, q) {
      assert Wired(s, q);
    }
    forall i | 0 <= i < |r.cpus| ensures Loaded(r, i) && OwnIdle(r, i) && Busy(r, i) {
      assert Loaded(s, i) && OwnIdle(s, i) && Busy(s, i);
    }
    forall i, j | 0 <= i < |r.cpus| && 0 <= j < |r.cpus| ensures Exclusive(r, i, j) {
      assert Exclusive(s, i, j);
    }
  }

  // ----- One switch -------------------------------------------------------------------------------------

  /** CPU i may take thread t of process p: it is no other CPU's current or idle thread. */
  ghost predicate MayStart(s: State, i: nat, p: nat, t: nat) {
    && p in s.procs && t in s.procs[p].threads
    && forall j | 0 <= j < |s.cpus| && j != i ::
         s.cpus[j].thread != t && (s.cpus[j].idle in s.procs && s.procs[s.cpus[j].idle].threads != [] ==>
                                   s.procs[s.cpus[j].idle].threads[0] != t)
  }

  /** In the middle of a step of CPU i: all other CPUs run threads that are not READY. */
  ghost predicate Midway(s: State, i: nat) {
    Core(s) && forall j | 0 <= j < |s.cpus| && j != i :: Busy(s, j)
  }

  lemma StartedGood(s: State, i: nat, p: nat, t: nat)
    requires Midway(s, i) && i < |s.cpus| && MayStart(s, i, p, t)
    ensures t in s.threads && Good(Started(s, i, p, t))
  {
    assert Wired(s, p);
    var mid := s.(threads := s.threads[t := s.threads[t].(status := Running)]);
    ThreadChanged(s, t, s.threads[t].(status := Running));
    var r := Started(s, i, p, t);
    forall q | q in r.procs ensures Wired(r, q) {
      assert Wired(mid, q);
    }
    forall j | 0 <= j < |r.cpus| ensures Loaded(r, j) && OwnIdle(r, j) && Busy(r, j) {
      assert Loaded(mid, j) && OwnIdle(mid, j) && (j != i ==> Busy(s, j));
    }
    forall j, k | 0 <= j < |r.cpus| && 0 <= k < |r.cpus| ensures Exclusive(r, j, k) {
      assert Exclusive(mid, j, k);
    }
  }

  lemma SavedMidway(s: State, i: nat, regs: Registers)
    requires Good(s) && i < |s.cpus|
    ensures Midway(Saved(s, i, regs), i)
  {
    var r := Saved(s, i, regs);
    var t := s.cpus[i].thread;
    assert Loaded(s, i);
    if t != 0 {
      ThreadChanged(s, t, r.threads[t]);
      forall j | 0 <= j < |r.cpus| && j != i ensures Busy(r, j) {
        assert Busy(s, j) && Exclusive(s, i, j);
      }
    }
  }

  /** What switchTask chooses may be started. */
  lemma ChoiceSafe(s: State, i: nat)
    requires Midway(s, i) && i < |s.cpus| && Choice(s, i).1 != 0
    ensures MayStart(s, i, Choice(s, i).0, Choice(s, i).1)
  {
    var p, t := Choice(s, i).0, Choice(s, i).1;
    assert Loaded(s, i);
    assert Wired(s, p);
    hide FirstReady, FirstProcess;
    forall j | 0 <= j < |s.cpus| && j != i
      ensures s.cpus[j].thread != t
      ensures s.cpus[j].idle in s.procs && s.procs[s.cpus[j].idle].threads != [] ==>
                s.procs[s.cpus[j].idle].threads[0] != t
    {
      assert Busy(s, j) && Loaded(s, j) && OwnIdle(s, j);
      if s.cpus[j].idle in s.procs {
        assert Wired(s, s.cpus[j].idle);
      }
    }
  }

  /** The idle process of CPU i, made if there is none yet. */
  function WithIdle(s: State, i: nat, pagemap: nat, entry: nat, stack: nat): State
    requires i < |s.cpus| && s.nextPid !in s.procs
  {
    if s.cpus[i].idle != 0 then s
    else
      var r := Allocated(s, pagemap, entry, 0, stack);
      r.(cpus := r.cpus[i := r.cpus[i].(idle := s.nextPid)])
  }

  lemma IdleSafe(s: State, i: nat, pagemap: nat, entry: nat, stack: nat)
    requires Midway(s, i) && i < |s.cpus| && s.nextPid !in s.procs
    ensures var r := WithIdle(s, i, pagemap, entry, stack);
            && Midway(r, i) && r.cpus[i].idle in r.procs && r.procs[r.cpus[i].idle].threads != []
            && MayStart(r, i, r.cpus[i].idle, r.procs[r.cpus[i].idle].threads[0])
  {
    var r := WithIdle(s, i, pagemap, entry, stack);
    if s.cpus[i].idle == 0 {
      IdleMade(s, i, pagemap, entry, stack);
    }
    IdleMayStart(r, i);
  }

  lemma IdleMayStart(s: State, i: nat)
    requires Core(s) && i < |s.cpus| && s.cpus[i].idle != 0
    ensures s.cpus[i].idle in s.procs && s.procs[s.cpus[i].idle].threads != []
    ensures MayStart(s, i, s.cpus[i].idle, s.procs[s.cpus[i].idle].threads[0])
  {
    assert OwnIdle(s, i);
    assert Wired(s, s.cpus[i].idle);
    forall j | 0 <= j < |s.cpus| && j != i && s.cpus[j].idle in s.procs && s.procs[s.cpus[j].idle].threads != []
      ensures s.procs[s.cpus[j].idle].threads[0] != s.procs[s.cpus[i].idle].threads[0]
    {
      assert Wired(s, s.cpus[j].idle);
    }
  }

  lemma IdleMade(s: State, i: nat, pagemap: nat, entry: nat, stack: nat)
    requires Midway(s, i) && i < |s.cpus| && s.nextPid !in s.procs && s.cpus[i].idle == 0
    ensures Midway(WithIdle(s, i, pagemap, entry, stack), i)
  {
    var p := s.nextPid;
    var a := Allocated(s, pagemap, entry, 0, stack);
    var r := WithIdle(s, i, pagemap, entry, stack);
    AllocatedCore(s, pagemap, entry, 0, stack);
    NewPidFree(s);
    forall j | 0 <= j < |s.cpus| ensures s.cpus[j].thread != s.nextThread {
      NewThreadFree(s, j);
    }
    forall q | q in r.procs ensures Wired(r, q) {
      assert Wired(a, q);
    }
    forall j | 0 <= j < |r.cpus| ensures Loaded(r, j) && OwnIdle(r, j) && (j != i ==> Busy(r, j)) {
      assert Loaded(a, j) && OwnIdle(a, j);
      if j != i {
        AllocatedBusy(s, pagemap, entry, 0, stack, j);
      }
    }
    forall j, k | 0 <= j < |r.cpus| && 0 <= k < |r.cpus| ensures Exclusive(r, j, k) {
      assert Exclusive(a, j, k);
    }
  }

  /** The whole step of switchTask on CPU i. */
  ghost function Switched(s: State, i: nat, regs: Registers, pagemap: nat, entry: nat, stack: nat): State
    requires Good(s) && i < |s.cpus|
  {
    SavedMidway(s, i, regs);
    var mid := Saved(s, i, regs);
    var choice := Choice(mid, i);
    if choice.1 != 0 then
      ChoiceSafe(mid, i);
      StartedGood(mid, i, choice.0, choice.1);
      Started(mid, i, choice.0, choice.1)
    else
      NewPidFree(mid);
      IdleSafe(mid, i, pagemap, entry, stack);
      var r := WithIdle(mid, i, pagemap, entry, stack);
      StartedGood(r, i, r.cpus[i].idle, r.procs[r.cpus[i].idle].threads[0]);
      Started(r, i, r.cpus[i].idle, r.procs[r.cpus[i].idle].threads[0])
  }

  /** Every switch keeps the invariant, and leaves CPU i with a RUNNING thread. */
  lemma SwitchedGood(s: State, i: nat, regs: Registers, pagemap: nat, entry: nat, stack: nat)
    requires Good(s) && i < |s.cpus|
    ensures var r := Switched(s, i, regs, pagemap, entry, stack);
            && Good(r) && |r.cpus| == |s.cpus| && r.cpus[i].thread in r.threads
            && r.threads[r.cpus[i].thread].status == Running
  {
    SavedMidway(s, i, regs);
    var mid := Saved(s, i, regs);
    var choice := Choice(mid, i);
    hide Good, Midway, Core, Saved, Choice, WithIdle, MayStart;
    if choice.1 != 0 {
      ChoiceSafe(mid, i);
      StartedGood(mid, i, choice.0, choice.1);
    } else {
      NewPidFree(mid);
      IdleSafe(mid, i, pagemap, entry, stack);
      var r := WithIdle(mid, i, pagemap, entry, stack);
      StartedGood(r, i, r.cpus[i].idle, r.procs[r.cpus[i].idle].threads[0]);
    }
  }

  // ----- What a switch does, rule by rule ------------------------------------------------------------

  /** Thread t is READY once CPU i has saved its own thread. */
  ghost predicate Runnable(s: State, i: nat, t: nat)
    requires i < |s.cpus|
  {
    t in s.threads
    && (s.threads[t].status == Ready || (s.threads[t].status == Running && s.cpus[i].thread == t))
  }

  /** Process p has a runnable thread at index k or later. */
  ghost predicate HasRunnable(s: State, i: nat, p: nat, k: nat)
    requires i < |s.cpus| && p in s.procs
  {
    exists j :: k <= j < |s.procs[p].threads| && Runnable(s, i, s.procs[p].threads[j])
  }

  /** t is the first such thread. */
  ghost predicate FirstRunnable(s: State, i: nat, p: nat, k: nat, t: nat)
    requires i < |s.cpus| && p in s.procs
  {
    var vec := s.procs[p].threads;
    exists j :: k <= j < |vec| && vec[j] == t && Runnable(s, i, vec[j])
                && forall m | k <= m < j :: !Runnable(s, i, vec[m])
  }

  /** Process p is READY and has a runnable thread. */
  ghost predicate Offers(s: State, i: nat, p: nat)
    requires i < |s.cpus|
  {
    p in s.procs && s.procs[p].status == Ready && HasRunnable(s, i, p, 0)
  }

  /** The current process of CPU i goes on with another of its threads. */
  ghost predicate GoesOn(s: State, i: nat)
    requires i < |s.cpus|
  {
    var c := s.cpus[i];
    c.thread != 0 && c.process in s.procs && s.procs[c.process].status == Ready && HasRunnable(s, i, c.process, 1)
  }

  /** Some process of the table, from index k on, has a thread to run. */
  ghost predicate TableOffers(s: State, i: nat, k: nat)
    requires i < |s.cpus|
  {
    exists q :: k <= q < |s.table| && Offers(s, i, s.table[q])
  }

  /** CPU i has the first runnable thread of the first process that offers one, from index k of the table on. */
  ghost predicate RunsFirstOffer(s: State, i: nat, k: nat, c: Cpu)
    requires i < |s.cpus|
  {
    exists q :: k <= q < |s.table| && Offers(s, i, s.table[q]) && (forall m | k <= m < q :: !Offers(s, i, s.table[m]))
                && c.process == s.table[q] && FirstRunnable(s, i, c.process, 0, c.thread)
  }

  /** CPU c runs the first thread of its idle process. */
  ghost predicate RunsIdle(s: State, c: Cpu) {
    && c.idle != 0 && c.idle in s.procs && s.procs[c.idle].threads != []
    && c.process == c.idle && c.thread == s.procs[c.idle].threads[0]
  }

  /**
   The choice: the first runnable thread of the current process from index 1 on, if that
   process is READY; or the first one of the table from index 1 on, or from 0 on where
   nothing is running; or else the idle thread, and the idle thread only then.
   */
  ghost predicate ChosenByRule(s: State, i: nat, r: State)
    requires i < |s.cpus| && |r.cpus| == |s.cpus|
  {
    var c := r.cpus[i];
    var k := if s.cpus[i].thread == 0 then 0 else 1;
    && (GoesOn(s, i) ==> c.process == s.cpus[i].process && FirstRunnable(s, i, c.process, 1, c.thread))
    && (!GoesOn(s, i) && TableOffers(s, i, k) ==> RunsFirstOffer(s, i, k, c))
    && (RunsIdle(r, c) <==> !GoesOn(s, i) && !TableOffers(s, i, k))
  }

  /**
   What else changes: the thread that ran has its registers saved and is READY if it was
   RUNNING; the chosen one is RUNNING under its process's page map; all other threads,
   CPUs and processes are as before, except that an idle process may be new, with the
   given page map and a thread that starts at the given entry.
   */
  ghost predicate ChangedByRule(s: State, i: nat, regs: Registers, pagemap: nat, entry: nat, stack: nat, r: State)
    requires i < |s.cpus| && |r.cpus| == |s.cpus|
  {
    var old_, new_ := s.cpus[i].thread, r.cpus[i].thread;
    && r.table == s.table && (forall j | 0 <= j < |s.cpus| && j != i :: r.cpus[j] == s.cpus[j])
    && (s.cpus[i].idle != 0 ==> r.cpus[i].idle == s.cpus[i].idle && r.procs == s.procs)
    && (forall p | p in s.procs :: p in r.procs && r.procs[p] == s.procs[p])
    && (forall t | t in s.threads && t != old_ && t != new_ :: t in r.threads && r.threads[t] == s.threads[t])
    && (old_ != 0 && old_ != new_ ==>
          && old_ in s.threads && old_ in r.threads
          && r.threads[old_] == s.threads[old_].(regs := regs, status := if s.threads[old_].status == Running then Ready
                                                 else s.threads[old_].status))
    && new_ in r.threads && r.threads[new_].status == Running
    && r.cpus[i].process in r.procs && r.cpus[i].cr3 == r.procs[r.cpus[i].process].pagemap
    && (s.cpus[i].idle == 0 && RunsIdle(r, r.cpus[i]) ==>
          && r.threads[new_].regs == Registers(entry, 0, stack + 0x2000, 0x202, 0x28, 0x30, 0)
          && r.cpus[i].cr3 == pagemap)
  }

  lemma SavedRunnable(s: State, i: nat, regs: Registers, t: nat)
    requires Good(s) && i < |s.cpus|
    ensures var mid := Saved(s, i, regs);
            && (t in mid.threads <==> t in s.threads) && mid.procs == s.procs && mid.table == s.table
            && mid.cpus == s.cpus
            && (t in mid.threads ==> (mid.threads[t].status == Ready <==> Runnable(s, i, t)))
  {
    CurrentKnown(s, i);
  }

  /** The scan of a thread vector. */
  lemma {:induction false} FirstReadyMeaning(s: State, i: nat, regs: Registers, p: nat, k: nat)
    requires Good(s) && i < |s.cpus| && p in s.procs
    ensures var t := FirstReady(Saved(s, i, regs), s.procs[p].threads, k);
            if HasRunnable(s, i, p, k) then t != 0 && FirstRunnable(s, i, p, k, t) else t == 0
    decreases |s.procs[p].threads| - k
  {
    var vec := s.procs[p].threads;
    if k < |vec| {
      VectorKnown(s, p);
      SavedRunnable(s, i, regs, vec[k]);
      FirstReadyMeaning(s, i, regs, p, k + 1);
      hide Good, Saved;
      if HasRunnable(s, i, p, k + 1) {
        var j :| k + 1 <= j < |vec| && vec[j] == FirstReady(Saved(s, i, regs), vec, k + 1) && Runnable(s, i, vec[j])
                 && forall m | k + 1 <= m < j :: !Runnable(s, i, vec[m]);
      }
    }
  }

  lemma ProcessStep(s: State, i: nat, regs: Registers, k: nat)
    requires Good(s) && i < |s.cpus| && k < |s.table|
    ensures var mid, p := Saved(s, i, regs), s.table[k];
            if Offers(s, i, p) then
              FirstProcess(mid, k).0 == p && FirstProcess(mid, k).1 != 0
              && FirstRunnable(s, i, p, 0, FirstProcess(mid, k).1)
            else FirstProcess(mid, k) == FirstProcess(mid, k + 1)
  {
    SavedRunnable(s, i, regs, 0);
    FirstReadyMeaning(s, i, regs, s.table[k], 0);
    hide Good, Saved, FirstReady, FirstRunnable, HasRunnable;
  }

  /** The scan of the process table. */
  lemma {:induction false} FirstProcessMeaning(s: State, i: nat, regs: Registers, k: nat)
    requires Good(s) && i < |s.cpus|
    ensures var c := FirstProcess(Saved(s, i, regs), k);
            if TableOffers(s, i, k) then c.1 != 0 && RunsFirstOffer(s, i, k, s.cpus[i].(process := c.0, thread := c.1))
            else c.1 == 0
    decreases |s.table| - k
  {
    if k < |s.table| {
      ProcessStep(s, i, regs, k);
      FirstProcessMeaning(s, i, regs, k + 1);
      hide Good, Saved, FirstProcess, FirstRunnable, Offers;
      var c := FirstProcess(Saved(s, i, regs), k + 1);
      if !Offers(s, i, s.table[k]) && TableOffers(s, i, k + 1) {
        var q :| k + 1 <= q < |s.table| && Offers(s, i, s.table[q])
                 && (forall m | k + 1 <= m < q :: !Offers(s, i, s.table[m]))
                 && c.0 == s.table[q] && FirstRunnable(s, i, c.0, 0, c.1);
      }
    } else {
      SavedRunnable(s, i, regs, 0);
    }
  }

  /** Choice with the indices that Find yields. */
  lemma ChoiceIs(s: State, i: nat, regs: Registers)
    requires Good(s) && i < |s.cpus|
    ensures var mid, c := Saved(s, i, regs), s.cpus[i];
            if c.thread == 0 then Choice(mid, i) == FirstProcess(mid, 0)
            else
              var t := if c.process in s.procs then FirstReady(mid, s.procs[c.process].threads, 1) else 0;
              && c.process in s.procs
              && Choice(mid, i) == if s.procs[c.process].status == Ready && t != 0 then (c.process, t)
                                   else FirstProcess(mid, 1)
  {
    hide FirstReady;
    SavedRunnable(s, i, regs, 0);
    CurrentKnown(s, i);
    if s.cpus[i].thread != 0 {
      CurrentVectors(s, i);
      NoTable(Saved(s, i, regs));
    }
    hide Good, Saved, FirstProcess;
  }

  lemma NoTable(s: State)
    ensures s.table == [] ==> FirstProcess(s, 0) == FirstProcess(s, 1)
  {
  }

  /** What Choice finds after the registers are saved. */
  lemma ChoiceMeaning(s: State, i: nat, regs: Registers)
    requires Good(s) && i < |s.cpus|
    ensures var c := Choice(Saved(s, i, regs), i);
            var k := if s.cpus[i].thread == 0 then 0 else 1;
            && (c.1 != 0 <==> GoesOn(s, i) || TableOffers(s, i, k))
            && (GoesOn(s, i) ==> c.0 == s.cpus[i].process && FirstRunnable(s, i, c.0, 1, c.1))
            && (!GoesOn(s, i) && TableOffers(s, i, k) ==>
                  RunsFirstOffer(s, i, k, s.cpus[i].(process := c.0, thread := c.1)))
  {
    hide Good, Saved, FirstProcess, FirstReady, FirstRunnable, HasRunnable, TableOffers, RunsFirstOffer, Choice;
    ChoiceIs(s, i, regs);
    var c := s.cpus[i];
    if c.thread == 0 {
      FirstProcessMeaning(s, i, regs, 0);
    } else {
      FirstProcessMeaning(s, i, regs, 1);
      FirstReadyMeaning(s, i, regs, c.process, 1);
    }
  }

  lemma CurrentVectors(s: State, i: nat)
    requires Good(s) && i < |s.cpus| && s.cpus[i].thread != 0
    ensures s.cpus[i].process in s.procs && s.procs[s.cpus[i].process].threads != []
  {
    CurrentKnown(s, i);
    assert Wired(s, s.cpus[i].process);
  }

  /** The idle thread belongs to no process of the table, and it is its process's thread at index 0. */
  lemma NotIdle(s: State, i: nat, p: nat, t: nat)
    requires Core(s) && i < |s.cpus| && p in s.procs && t in s.procs[p].threads
    requires p in s.table || (exists j :: 1 <= j < |s.procs[p].threads| && s.procs[p].threads[j] == t)
    ensures !RunsIdle(s, Cpu(p, t, s.cpus[i].idle, 0))
  {
    assert OwnIdle(s, i) && Wired(s, p);
  }

  /** A runnable thread of the current process, or of the table, is chosen: the step follows the rules. */
  lemma ChoiceByRule(s: State, i: nat, regs: Registers)
    requires Good(s) && i < |s.cpus| && Choice(Saved(s, i, regs), i).1 != 0
    ensures var mid := Saved(s, i, regs);
            var c := Choice(mid, i);
            c.0 in mid.procs && c.1 in mid.threads && ChosenByRule(s, i, Started(mid, i, c.0, c.1))
  {
    var mid := Saved(s, i, regs);
    var c := Choice(mid, i);
    ChoiceMeaning(s, i, regs);
    SavedMidway(s, i, regs);
    ChoiceSafe(mid, i);
    SavedRunnable(s, i, regs, 0);
    StartedGood(mid, i, c.0, c.1);
    hide Good, Core, Midway, Saved, Choice, MayStart, TableOffers, GoesOn;
    NotIdleChosen(s, i, c.0, c.1);
  }

  lemma NotIdleChosen(s: State, i: nat, p: nat, t: nat)
    requires Good(s) && i < |s.cpus|
    requires (p in s.procs && FirstRunnable(s, i, p, 1, t)) ||
             (exists k :: RunsFirstOffer(s, i, k, s.cpus[i].(process := p, thread := t)))
    ensures !RunsIdle(s, s.cpus[i].(process := p, thread := t))
  {
    hide Good;
    GoodCore(s);
    NotIdle(s, i, p, t);
  }

  lemma GoodCore(s: State)
    requires Good(s)
    ensures Core(s)
  {
  }

  /** With no choice the idle thread runs. */
  lemma IdleByRule(s: State, i: nat, regs: Registers, pagemap: nat, entry: nat, stack: nat)
    requires Good(s) && i < |s.cpus| && Choice(Saved(s, i, regs), i).1 == 0 && s.nextPid !in s.procs
    ensures var mid := WithIdle(Saved(s, i, regs), i, pagemap, entry, stack);
            var idle := mid.cpus[i].idle;
            && idle in mid.procs && mid.procs[idle].threads != [] && mid.procs[idle].threads[0] in mid.threads
            && ChosenByRule(s, i, Started(mid, i, idle, mid.procs[idle].threads[0]))
  {
    var mid := Saved(s, i, regs);
    ChoiceMeaning(s, i, regs);
    SavedMidway(s, i, regs);
    SavedRunnable(s, i, regs, 0);
    IdleSafe(mid, i, pagemap, entry, stack);
    var r := WithIdle(mid, i, pagemap, entry, stack);
    StartedGood(r, i, r.cpus[i].idle, r.procs[r.cpus[i].idle].threads[0]);
    IdleSome(mid, i, pagemap, entry, stack);
    hide Good, Core, Midway, Saved, Choice, MayStart, TableOffers, GoesOn, WithIdle;
  }

  lemma IdleSome(s: State, i: nat, pagemap: nat, entry: nat, stack: nat)
    requires Core(s) && i < |s.cpus| && s.nextPid !in s.procs
    ensures var r := WithIdle(s, i, pagemap, entry, stack);
            && r.cpus[i].idle != 0 && |r.cpus| == |s.cpus| && r.table == s.table
            && (forall j | 0 <= j < |s.cpus| && j != i :: r.cpus[j] == s.cpus[j])
            && (s.cpus[i].idle != 0 ==> r == s)
            && (forall p | p in s.procs :: p in r.procs && r.procs[p] == s.procs[p])
            && (forall t | t in s.threads :: t in r.threads && r.threads[t] == s.threads[t])
            && (s.cpus[i].idle == 0 ==> IdleIs(r, r.cpus[i].idle, pagemap, entry, stack))
  {
  }

  /** The process has the page map, and its thread starts at the entry. */
  ghost predicate IdleIs(s: State, p: nat, pagemap: nat, entry: nat, stack: nat) {
    && p in s.procs && s.procs[p].pagemap == pagemap
    && s.procs[p].threads != [] && s.procs[p].threads[0] in s.threads
    && s.threads[s.procs[p].threads[0]].regs == Registers(entry, 0, stack + 0x2000, 0x202, 0x28, 0x30, 0)
  }

  /** Starting a thread after the save changes what the rules say, and nothing else. */
  lemma StartByRule(s: State, i: nat, regs: Registers, pagemap: nat, entry: nat, stack: nat, r: State, p: nat,
                    t: nat)
    requires Good(s) && i < |s.cpus| && Midway(r, i) && i < |r.cpus| && MayStart(r, i, p, t)
    requires var mid := Saved(s, i, regs);
             && |r.cpus| == |s.cpus| && r.table == s.table
             && (forall j | 0 <= j < |s.cpus| && j != i :: r.cpus[j] == s.cpus[j])
             && (s.cpus[i].idle != 0 ==> r == mid)
             && (forall q | q in mid.procs :: q in r.procs && r.procs[q] == mid.procs[q])
             && (forall u | u in mid.threads :: u in r.threads && r.threads[u] == mid.threads[u])
             && (s.cpus[i].idle == 0 && r.cpus[i].idle != 0 ==> IdleIs(r, r.cpus[i].idle, pagemap, entry, stack))
    ensures t in r.threads && ChangedByRule(s, i, regs, pagemap, entry, stack, Started(r, i, p, t))
  {
    StartedGood(r, i, p, t);
    CurrentKnown(s, i);
    hide Good, Core, Midway;
  }

  /** Every switch follows the rules. */
  lemma SwitchedByRule(s: State, i: nat, regs: Registers, pagemap: nat, entry: nat, stack: nat)
    requires Good(s) && i < |s.cpus|
    ensures var r := Switched(s, i, regs, pagemap, entry, stack);
            |r.cpus| == |s.cpus| && ChosenByRule(s, i, r) && ChangedByRule(s, i, regs, pagemap, entry, stack, r)
  {
    SwitchedGood(s, i, regs, pagemap, entry, stack);
    SavedMidway(s, i, regs);
    var mid := Saved(s, i, regs);
    var c := Choice(mid, i);
    SavedRunnable(s, i, regs, 0);
    if c.1 != 0 {
      ChoiceSafe(mid, i);
      ChoiceByRule(s, i, regs);
      StartByRule(s, i, regs, pagemap, entry, stack, mid, c.0, c.1);
    } else {
      NewPidFree(mid);
      IdleByRule(s, i, regs, pagemap, entry, stack);
      IdleSafe(mid, i, pagemap, entry, stack);
      IdleSome(mid, i, pagemap, entry, stack);
      var r := WithIdle(mid, i, pagemap, entry, stack);
      StartByRule(s, i, regs, pagemap, entry, stack, r, r.cpus[i].idle, r.procs[r.cpus[i].idle].threads[0]);
    }
    hide Good, Core, Midway, Saved, Choice, MayStart, ChosenByRule, ChangedByRule, WithIdle, Started;
  }

  // ----- Registers over a whole run -------------------------------------------------------------------------

  /** What happened to a thread's registers. */
  datatype Event =
    | Made(thread: nat, regs: Registers)
    | SwitchedOut(cpu: nat, thread: nat, regs: Registers)
    | Resumed(cpu: nat, thread: nat, regs: Registers)

  /** The registers a thread had when it was switched out last, or was created with. */
  function LastSaved(trace: seq<Event>, t: nat): Option<Registers> {
    if trace == [] then None
    else
      var e := trace[|trace| - 1];
      if !e.Resumed? && e.thread == t then Some(e.regs) else LastSaved(trace[..|trace| - 1], t)
  }

  /** Every resumption so far loaded the registers saved last. */
  ghost predicate Faithful(trace: seq<Event>) {
    forall k | 0 <= k < |trace| && trace[k].Resumed? :: LastSaved(trace[..k], trace[k].thread) == Some(trace[k].regs)
  }

  /** The registers in the threads are the ones saved last. */
  ghost predicate Recorded(trace: seq<Event>, threads: map<nat, Thread>) {
    forall t | t in threads :: LastSaved(trace, t) == Some(threads[t].regs)
  }

  lemma TraceStep(trace: seq<Event>, e: Event)
    requires Faithful(trace) && (e.Resumed? ==> LastSaved(trace, e.thread) == Some(e.regs))
    ensures Faithful(trace + [e])
    ensures forall t :: LastSaved(trace + [e], t) == if !e.Resumed? && e.thread == t then Some(e.regs)
              else LastSaved(trace, t)
  {
    var longer := trace + [e];
    assert longer[..|trace|] == trace;
    forall k | 0 <= k < |longer| && longer[k].Resumed?
      ensures LastSaved(longer[..k], longer[k].thread) == Some(longer[k].regs)
    {
      if k < |trace| {
        assert longer[..k] == trace[..k];
      }
    }
  }

  /** A thread's first resumption after it was made loads the registers it was made with. */
  lemma FirstResumed(trace: seq<Event>, j: nat, k: nat)
    requires Faithful(trace) && j < k < |trace| && trace[j].Made? && trace[k].Resumed?
    requires trace[k].thread == trace[j].thread
    requires forall m | j < m < k :: trace[m].Resumed? || trace[m].thread != trace[j].thread
    ensures trace[k].regs == trace[j].regs
  {
    SavedAtMaking(trace, j, k);
  }

  lemma {:induction false} SavedAtMaking(trace: seq<Event>, j: nat, k: nat)
    requires j < k <= |trace| && trace[j].Made?
    requires forall m | j < m < k :: trace[m].Resumed? || trace[m].thread != trace[j].thread
    ensures LastSaved(trace[..k], trace[j].thread) == Some(trace[j].regs)
    decreases k
  {
    assert trace[..k][..k - 1] == trace[..k - 1];
    if j < k - 1 {
      SavedAtMaking(trace, j, k - 1);
    }
  }

  class Machine {
    var threads: map<nat, Thread>
    var procs: map<nat, Process>
    var table: seq<nat>
    var cpus: seq<Cpu>
    var nextPid: nat
    var nextThread: nat
    var isInit: bool
    var initproc: nat
    ghost var trace: seq<Event>

    constructor (count: nat)
      ensures Valid() && St() == State(map[], map[], [], seq(count, _ => Cpu(0, 0, 0, 0)), 1, 1) && !isInit
      ensures initproc == 0 && trace == []
    {
      initproc := 0;
      threads, procs, table, nextPid, nextThread, isInit, trace := map[], map[], [], 1, 1, false, [];
      cpus := seq(count, _ => Cpu(0, 0, 0, 0));
    }

    function St(): State
      reads this
    {
      State(threads, procs, table, cpus, nextPid, nextThread)
    }

    ghost predicate Valid()
      reads this
    {
      Good(St()) && Recorded(trace, threads) && Faithful(trace)
    }

    /** createThread, with the stack that malloc returned. */
    method CreateThread(addr: nat, args: nat, parent: nat, stack: nat) returns (t: nat)
      requires Valid() && (parent == 0 || parent in procs)
      modifies this
      ensures Valid() && isInit == old(isInit) && initproc == old(initproc) && t == old(nextThread)
      ensures St() == Spawned(old(St()), parent, addr, args, stack) && trace == old(trace) + [Made(t, threads[t].regs)]
      ensures var tid := if parent == 0 then 1 else old(procs)[parent].nextTid;
              && threads == old(threads)[t := Thread(tid, Ready, Registers(addr, args, stack + 0x2000, 0x202, 0x28,
                                                                           0x30, 0), parent)]
              && (parent == 0 ==> procs == old(procs))
              && (parent != 0 ==>
                    var proc := old(procs)[parent];
                    procs == old(procs)[parent := Process(proc.status, proc.pagemap, proc.threads + [t], tid + 1)])
              && table == old(table) && cpus == old(cpus)
    {
      hide Good;
      SpawnedGood(St(), parent, addr, args, stack);
      t := Spawn(addr, args, parent, stack);
    }

    /** allocThread and the rest of createThread, in any state. */
    method Spawn(addr: nat, args: nat, parent: nat, stack: nat) returns (t: nat)
      requires (parent == 0 || parent in procs) && Recorded(trace, threads) && Faithful(trace)
      modifies this
      ensures Recorded(trace, threads) && Faithful(trace) && isInit == old(isInit) && initproc == old(initproc)
      ensures t == old(nextThread) && t in threads
      ensures St() == Spawned(old(St()), parent, addr, args, stack) && trace == old(trace) + [Made(t, threads[t].regs)]
    {
      hide LastSaved;
      t := nextThread;
      nextThread := nextThread + 1;
      var regs := Registers(addr, args, stack + STACK_SIZE, 0x202, 0x28, 0x30, 0);
      var tid := 1;
      if parent != 0 {
        tid := procs[parent].nextTid;
        procs := procs[parent := procs[parent].(threads := procs[parent].threads + [t], nextTid := tid + 1)];
      }
      TraceStep(trace, Made(t, regs));
      threads := threads[t := Thread(tid, Ready, regs, parent)];
      trace := trace + [Made(t, regs)];
    }

    /** allocProc for a process with a thread, with the page map that newPagemap returned. */
    method AllocProc(pagemap: nat, addr: nat, args: nat, stack: nat) returns (p: nat)
      requires nextPid !in procs && nextPid != 0 && Recorded(trace, threads) && Faithful(trace)
      modifies this
      ensures Recorded(trace, threads) && Faithful(trace) && isInit && p == old(nextPid) && p in procs
      ensures St() == Allocated(old(St()), pagemap, addr, args, stack)
      ensures initproc == if old(isInit) then old(initproc) else p
      ensures trace == old(trace) + [Made(old(nextThread), threads[old(nextThread)].regs)]
    {
      p := nextPid;
      nextPid := nextPid + 1;
      procs := procs[p := Process(Initial, pagemap, [], 1)];
      var t := Spawn(addr, args, p, stack);
      if !isInit {
        initproc := p;
        isInit := true;
      }
    }

    /** createProc */
    method CreateProc(pagemap: nat, addr: nat, args: nat, stack: nat) returns (p: nat)
      requires Valid()
      modifies this
      ensures p == old(nextPid) && old(nextPid !in procs) && isInit && Valid()
      ensures St() == Created(old(St()), pagemap, addr, args, stack)
      ensures initproc == if old(isInit) then old(initproc) else p
      ensures var t := old(nextThread);
              && threads == old(threads)[t := Thread(1, Ready, Registers(addr, args, stack + 0x2000, 0x202, 0x28,
                                                                         0x30, 0), p)]
              && procs == old(procs)[p := Process(Ready, pagemap, [t], 2)]
              && table == old(table) + [p] && cpus == old(cpus) && trace == old(trace) + [Made(t, threads[t].regs)]
    {
      hide Good, Recorded, Faithful;
      CreatedGood(St(), pagemap, addr, args, stack);
      SomePid();
      p := AllocProc(pagemap, addr, args, stack);
      ghost var none: seq<nat> := [];
      assert none + [old(nextThread)] == [old(nextThread)];
      table := table + [p];
      procs := procs[p := procs[p].(status := Ready)];
    }

    lemma SomePid()
      requires Good(St())
      ensures nextPid != 0
    {
    }

    // ----- Blocking ---------------------------------------------------------------------------

    /** CPU i runs something. */
    predicate HasCurrent(i: nat)
      reads this
    {
      i < |cpus| && cpus[i].thread != 0 && cpus[i].process != 0 && cpus[i].thread in threads && cpus[i].process in procs
    }

    /** The test that all block functions make: the calling CPU's thread may go on. */
    predicate MayGoOn(status: Status) {
      status == Ready || status == Running
    }

    /** blockThread, for the calling CPU's thread itself or for another thread. */
    method BlockThread(i: nat, t: nat)
      requires Valid() && HasCurrent(i) && t in threads
      modifies this`threads
      ensures Valid()
      ensures St() == if MayGoOn(old(threads)[cpus[i].thread].status) then ThreadSet(old(St()), t, Blocked)
                else old(St())
      ensures var own := old(threads)[cpus[i].thread].status;
              threads == if own == Ready || own == Running then old(threads)[t := old(threads)[t].(status := Blocked)]
                else old(threads)
    {
      if MayGoOn(threads[cpus[i].thread].status) {
        ThreadSetGood(St(), t, Blocked);
        hide Good;
        threads := threads[t := threads[t].(status := Blocked)];
      }
    }

    /** blockProc without an argument, on CPU i; init cannot be blocked. */
    method BlockThisProc(i: nat)
      requires Valid() && HasCurrent(i)
      modifies this`procs
      ensures Valid()
      ensures var p := cpus[i].process;
              St() == if p != initproc && MayGoOn(old(procs)[p].status) then ProcessSet(old(St()), p, Blocked)
                else old(St())
      ensures var p := cpus[i].process;
              var own := old(procs)[p].status;
              procs == if p != initproc && (own == Ready || own == Running)
                then old(procs)[p := old(procs)[p].(status := Blocked)] else old(procs)
    {
      var p := cpus[i].process;
      if p == initproc {
        return;
      }
      if MayGoOn(procs[p].status) {
        ProcessSetGood(St(), p, Blocked);
        hide Good;
        procs := procs[p := procs[p].(status := Blocked)];
      }
    }

    /** blockProc of another process. */
    method BlockProc(i: nat, p: nat)
      requires Valid() && HasCurrent(i) && p in procs
      modifies this`procs
      ensures Valid()
      ensures St() == if MayGoOn(old(procs)[cpus[i].process].status) then ProcessSet(old(St()), p, Blocked)
                else old(St())
      ensures var own := old(procs)[cpus[i].process].status;
              procs == if own == Ready || own == Running then old(procs)[p := old(procs)[p].(status := Blocked)]
                else old(procs)
    {
      if MayGoOn(procs[cpus[i].process].status) {
        ProcessSetGood(St(), p, Blocked);
        hide Good;
        procs := procs[p := procs[p].(status := Blocked)];
      }
    }

    /** thread_unblock: the invariant stays exactly when the thread is not blocked or no CPU has it. */
    method UnblockThread(t: nat)
      requires Valid() && t in threads
      modifies this`threads
      ensures St() == if old(threads)[t].status == Blocked then ThreadSet(old(St()), t, Ready) else old(St())
      ensures threads == if old(threads)[t].status == Blocked then old(threads)[t := old(threads)[t].(status := Ready)]
                else old(threads)
      ensures Valid() <==> old(threads)[t].status != Blocked || !Held(old(St()), t)
    {
      ThreadSetGood(St(), t, Ready);
      hide Good, Held;
      if threads[t].status == Blocked {
        threads := threads[t := threads[t].(status := Ready)];
      }
    }

    /** proc_unblock */
    method UnblockProc(p: nat)
      requires Valid() && p in procs
      modifies this`procs
      ensures Valid()
      ensures St() == if old(procs)[p].status == Blocked then ProcessSet(old(St()), p, Ready) else old(St())
      ensures procs == if old(procs)[p].status == Blocked then old(procs)[p := old(procs)[p].(status := Ready)]
                else old(procs)
    {
      ProcessSetGood(St(), p, Ready);
      hide Good;
      if procs[p].status == Blocked {
        procs := procs[p := procs[p].(status := Ready)];
      }
    }

    // ----- Switching ----------------------------------------------------------------------------

    /** The scan of a thread vector for a READY thread. */
    method PickThread(vec: seq<nat>, start: nat) returns (t: nat)
      requires forall k | 0 <= k < |vec| :: vec[k] in threads && vec[k] != 0
      ensures t == FirstReady(St(), vec, start)
    {
      var k := start;
      while k < |vec|
        invariant start <= k && FirstReady(St(), vec, start) == FirstReady(St(), vec, k)
        decreases |vec| - k
      {
        if threads[vec[k]].status == Ready {
          return vec[k];
        }
        k := k + 1;
      }
      t := 0;
    }

    /** The scan of the process table. clean_proc on the processes passed over changes nothing. */
    method PickProcess(start: nat) returns (p: nat, t: nat)
      requires Core(St())
      ensures (p, t) == FirstProcess(St(), start)
    {
      hide FirstReady;
      var k := start;
      while k < |table|
        invariant start <= k && FirstProcess(St(), start) == FirstProcess(St(), k)
        decreases |table| - k
      {
        p := table[k];
        if procs[p].status == Ready {
          VectorKnown(St(), p);
          t := PickThread(procs[p].threads, 0);
          if t != 0 {
            return;
          }
        }
        k := k + 1;
      }
      p, t := 0, 0;
    }

    /** The choice of switchTask after the registers are saved. */
    method Pick(i: nat) returns (p: nat, t: nat)
      requires Core(St()) && i < |cpus|
      ensures (p, t) == Choice(St(), i)
    {
      hide FirstReady, FirstProcess;
      p, t := cpus[i].process, 0;
      CurrentKnown(St(), i);
      if p == 0 || cpus[i].thread == 0 {
        p, t := PickProcess(0);
        return;
      }
      if procs[p].status == Ready {
        VectorKnown(St(), p);
        t := PickThread(procs[p].threads, Find(procs[p].threads, cpus[i].thread) + 1);
      }
      if t == 0 {
        p, t := PickProcess(Find(table, p) + 1);
      }
    }

    /** The registers of the interrupted thread. */
    method Save(i: nat, regs: Registers)
      requires Valid() && i < |cpus|
      modifies this`threads, this`trace
      ensures St() == Saved(old(St()), i, regs) && Midway(St(), i) && Recorded(trace, threads) && Faithful(trace)
      ensures trace == old(trace) + (if cpus[i].thread != 0 then [SwitchedOut(i, cpus[i].thread, regs)] else [])
    {
      hide Good, Midway;
      SavedMidway(St(), i, regs);
      var t := cpus[i].thread;
      CurrentIn(St(), i);
      if cpus[i].process != 0 && t != 0 {
        TraceStep(trace, SwitchedOut(i, t, regs));
        hide LastSaved;
        var status := if threads[t].status == Running then Ready else threads[t].status;
        threads := threads[t := threads[t].(regs := regs, status := status)];
        trace := trace + [SwitchedOut(i, t, regs)];
      }
    }

    /** The label `success`, and the same lines for the idle thread. */
    method Start(i: nat, p: nat, t: nat) returns (regs: Registers)
      requires i < |cpus| && Midway(St(), i) && MayStart(St(), i, p, t) && Recorded(trace, threads) && Faithful(trace)
      modifies this`threads, this`cpus, this`trace
      ensures old(p in procs && t in threads) && St() == Started(old(St()), i, p, t) && Valid()
      ensures trace == old(trace) + [Resumed(i, t, regs)] && regs == old(threads)[t].regs
    {
      hide Midway, MayStart, Good, LastSaved;
      StartedGood(St(), i, p, t);
      assert p in procs by { ProcessOf(St(), i, p, t); }
      cpus := cpus[i := cpus[i].(process := p, thread := t)];
      threads := threads[t := threads[t].(status := Running)];
      regs := threads[t].regs;
      cpus := cpus[i := cpus[i].(cr3 := procs[p].pagemap)];
      TraceStep(trace, Resumed(i, t, regs));
      trace := trace + [Resumed(i, t, regs)];
    }

    /** idleP, made on the first use; entry is the address of idle(). */
    method EnsureIdle(i: nat, pagemap: nat, entry: nat, stack: nat)
      requires i < |cpus| && Midway(St(), i) && Recorded(trace, threads) && Faithful(trace) && isInit
      modifies this
      ensures old(nextPid !in procs) && St() == WithIdle(old(St()), i, pagemap, entry, stack)
      ensures Recorded(trace, threads) && Faithful(trace) && isInit && initproc == old(initproc)
      ensures |trace| >= |old(trace)| && trace[..|old(trace)|] == old(trace)
    {
      hide Recorded, Faithful, Core;
      MidwayCore(St(), i);
      SomePidMidway(St());
      NewPidFree(St());
      if cpus[i].idle == 0 {
        var p := AllocProc(pagemap, entry, 0, stack);
        cpus := cpus[i := cpus[i].(idle := p)];
      }
    }

    /**
     switchTask on CPU i: save, choose, resume. The registers it returns are the ones
     the resumed thread was switched out or created with.
     */
    method SwitchTask(i: nat, regs: Registers, pagemap: nat, entry: nat, stack: nat) returns (regs': Registers)
      requires Valid() && i < |cpus|
      modifies this
      ensures Valid() && isInit == old(isInit) && initproc == old(initproc)
      ensures !isInit ==> regs' == regs && St() == old(St()) && trace == old(trace)
      ensures isInit ==> St() == Switched(old(St()), i, regs, pagemap, entry, stack)
      ensures isInit ==>
                && |cpus| == |old(cpus)| && ChosenByRule(old(St()), i, St())
                && ChangedByRule(old(St()), i, regs, pagemap, entry, stack, St())
      ensures isInit ==>
                && |trace| > |old(trace)| && trace[..|old(trace)|] == old(trace)
                && trace[|trace| - 1] == Resumed(i, cpus[i].thread, regs')
      ensures isInit && old(cpus)[i].thread != 0 ==> trace[|old(trace)|] == SwitchedOut(i, old(cpus)[i].thread, regs)
    {
      hide Good, Midway, Recorded, Faithful, Core, LastSaved, Choice, MayStart, ChosenByRule, ChangedByRule;
      regs' := regs;
      if !isInit {
        return;
      }
      SwitchedByRule(St(), i, regs, pagemap, entry, stack);
      Save(i, regs);
      ghost var saved := trace;
      MidwayCore(St(), i);
      var p, t := Pick(i);
      if t != 0 {
        ChoiceSafe(St(), i);
        regs' := Start(i, p, t);
      } else {
        NewPidFree(St());
        IdleSafe(St(), i, pagemap, entry, stack);
        EnsureIdle(i, pagemap, entry, stack);
        regs' := Start(i, cpus[i].idle, procs[cpus[i].idle].threads[0]);
      }
      assert trace[..|saved|] == saved;
      Prefixes(old(trace), saved, trace);
    }
  }

  lemma SomePidMidway(s: State)
    requires Core(s)
    ensures s.nextPid != 0
  {
  }

  lemma Prefixes(a: seq<Event>, b: seq<Event>, c: seq<Event>)
    requires |a| <= |b| <= |c| && b[..|a|] == a && c[..|b|] == b
    ensures c[..|a|] == a && forall k | 0 <= k < |b| :: c[k] == b[k]
  {
    assert c[..|a|] == c[..|b|][..|a|];
    forall k | 0 <= k < |b| ensures c[k] == b[k] {
      assert c[..|b|][k] == c[k];
    }
  }

  lemma MidwayCore(s: State, i: nat)
    requires Midway(s, i)
    ensures Core(s)
  {
  }

  /** A CPU has a current process if and only if it has a current thread, and both exist. */
  lemma CurrentKnown(s: State, i: nat)
    requires Core(s) && i < |s.cpus|
    ensures s.cpus[i].thread == 0 ==> s.cpus[i].process == 0
    ensures s.cpus[i].thread != 0 ==>
              s.cpus[i].thread in s.threads && s.cpus[i].process in s.procs && s.cpus[i].process != 0
  {
    assert Loaded(s, i);
    assert s.cpus[i].process in s.procs ==> Wired(s, s.cpus[i].process);
  }

  lemma CurrentIn(s: State, i: nat)
    requires Good(s) && i < |s.cpus|
    ensures s.cpus[i].thread != 0 ==> s.cpus[i].thread in s.threads && s.cpus[i].process != 0
  {
    CurrentKnown(s, i);
  }

  lemma VectorKnown(s: State, p: nat)
    requires Core(s) && p in s.procs
    ensures forall k | 0 <= k < |s.procs[p].threads| :: s.procs[p].threads[k] in s.threads && s.procs[p].threads[k] != 0
  {
    assert Wired(s, p);
  }

  lemma ProcessOf(s: State, i: nat, p: nat, t: nat)
    requires MayStart(s, i, p, t)
    ensures p in s.procs
  {
  }

  // ----- Whole runs ---------------------------------------------------------------------------------

  /** One atomic action of some CPU. */
  datatype Action =
    | Switch(cpu: nat, regs: Registers, pagemap: nat, entry: nat, stack: nat)
    | NewThread(parent: nat, addr: nat, args: nat, stack: nat)
    | NewProcess(pagemap: nat, addr: nat, args: nat, stack: nat)
    | SetThread(thread: nat, status: Status)
    | SetProcess(process: nat, status: Status)

  /** Nothing is killed, and a thread becomes READY only when no CPU has it. */
  ghost predicate Permitted(s: State, a: Action) {
    match a
    case Switch(i, _, _, _, _) => i < |s.cpus|
    case NewThread(p, _, _, _) => p == 0 || p in s.procs
    case NewProcess(_, _, _, _) => true
    case SetThread(t, status) => t in s.threads && status != Killed && (status == Ready ==> !Held(s, t))
    case SetProcess(p, status) => p in s.procs && status != Killed
  }

  ghost function Next(s: State, a: Action): State
    requires Good(s) && Permitted(s, a)
  {
    match a
    case Switch(i, regs, pagemap, entry, stack) => Switched(s, i, regs, pagemap, entry, stack)
    case NewThread(p, addr, args, stack) => Spawned(s, p, addr, args, stack)
    case NewProcess(pagemap, addr, args, stack) =>
      NewPidFree(s);
      Created(s, pagemap, addr, args, stack)
    case SetThread(t, status) => ThreadSet(s, t, status)
    case SetProcess(p, status) => ProcessSet(s, p, status)
  }

  lemma NextGood(s: State, a: Action)
    requires Good(s) && Permitted(s, a)
    ensures Good(Next(s, a)) && |Next(s, a).cpus| == |s.cpus|
  {
    match a
    case Switch(i, regs, pagemap, entry, stack) =>
      SwitchedGood(s, i, regs, pagemap, entry, stack);
    case NewThread(p, addr, args, stack) =>
      SpawnedGood(s, p, addr, args, stack);
    case NewProcess(pagemap, addr, args, stack) =>
      CreatedGood(s, pagemap, addr, args, stack);
    case SetThread(t, status) =>
      ThreadSetGood(s, t, status);
    case SetProcess(p, status) =>
      ProcessSetGood(s, p, status);
  }

  /** states is a run: every state follows from the one before by a permitted action. */
  ghost predicate Run(states: seq<State>, actions: seq<Action>) {
    && |states| == |actions| + 1 && Good(states[0])
    && forall k | 0 <= k < |actions| ::
      Good(states[k]) && Permitted(states[k], actions[k]) ==> states[k + 1] == Next(states[k], actions[k])
  }

  /** All actions of a run are permitted where they happen. */
  ghost predicate Orderly(states: seq<State>, actions: seq<Action>) {
    |states| == |actions| + 1 && forall k | 0 <= k < |actions| :: Permitted(states[k], actions[k])
  }

  /**
   In every state of every run: no two CPUs have the same current thread, each CPU's
   thread belongs to its current process, and its page map is loaded.
   */
  lemma {:induction false} RunSafe(states: seq<State>, actions: seq<Action>, n: nat)
    requires Run(states, actions) && Orderly(states, actions) && n < |states|
    ensures var s := states[n];
            && (forall i, j | 0 <= i < j < |s.cpus| && s.cpus[i].thread != 0 :: s.cpus[i].thread != s.cpus[j].thread)
            && (forall i | 0 <= i < |s.cpus| && s.cpus[i].thread != 0 ::
                  && s.cpus[i].process in s.procs && s.cpus[i].thread in s.procs[s.cpus[i].process].threads
                  && s.cpus[i].cr3 == s.procs[s.cpus[i].process].pagemap)
  {
    RunGood(states, actions, n);
    var s := states[n];
    forall i, j | 0 <= i < j < |s.cpus| && s.cpus[i].thread != 0 ensures s.cpus[i].thread != s.cpus[j].thread {
      assert Exclusive(s, i, j);
    }
    forall i | 0 <= i < |s.cpus| && s.cpus[i].thread != 0
      ensures s.cpus[i].process in s.procs && s.cpus[i].thread in s.procs[s.cpus[i].process].threads
      ensures s.cpus[i].cr3 == s.procs[s.cpus[i].process].pagemap
    {
      assert Loaded(s, i);
    }
  }

  lemma {:induction false} RunGood(states: seq<State>, actions: seq<Action>, n: nat)
    requires Run(states, actions) && Orderly(states, actions) && n < |states|
    ensures Good(states[n])
  {
    if n > 0 {
      hide Good, Next, Permitted;
      RunGood(states, actions, n - 1);
      assert Permitted(states[n - 1], actions[n - 1]);
      NextGood(states[n - 1], actions[n - 1]);
    }
  }

  /** Two CPUs; the first one runs thread 1, which has just been blocked, the second one runs nothing. */
  function RaceState(regs: Registers): State {
    State(map[1 := Thread(1, Blocked, regs, 1)], map[1 := Process(Ready, 7, [1], 2)], [1],
          [Cpu(1, 1, 0, 7), Cpu(0, 0, 0, 0)], 2, 2)
  }

  /** Unblocking a thread that a CPU still has: the next switch on the other CPU gives both the same thread. */
  lemma UnblockRace(regs: Registers)
    ensures var s := RaceState(regs);
            var unblocked := ThreadSet(s, 1, Ready);
            && Good(s) && Held(s, 1) && !Good(unblocked)
            && Choice(Saved(unblocked, 1, regs), 1) == (1, 1)
            && var after := Started(Saved(unblocked, 1, regs), 1, 1, 1);
            after.cpus[0].thread == 1 && after.cpus[1].thread == 1
  {
    var s := RaceState(regs);
    assert Wired(s, 1);
    assert s.cpus[0].thread == 1;
    assert Held(s, 1);
    assert forall i, j | 0 <= i < 2 && 0 <= j < 2 :: Exclusive(s, i, j);
    assert Core(s);
    assert Good(s);
    ThreadSetGood(s, 1, Ready);
    var unblocked := ThreadSet(s, 1, Ready);
    assert FirstReady(unblocked, [1], 0) == 1;
    assert FirstProcess(unblocked, 0) == (1, 1);
  }
}
