/**
The CPU threads, the loader thread and the timer of src/os.c and src/timer.c, interleaved.
Steps are the accesses to shared state: a queue operation, a counter, the done flag, a barrier operation.
*/
module Os {
  import opened Options
  import opened MultilevelQueue
  import B = Barrier

  /** `time_slot`, `num_cpus`, and per process its code size, priority and start time. */
  datatype Config = Config(slot: nat, cpus: nat, sizes: seq<nat>, prios: seq<nat>, starts: seq<nat>)

  ghost predicate ValidConfig(g: Config) {
    && g.slot >= 1 && g.cpus >= 1
    && |g.sizes| == |g.prios| == |g.starts|
    && (forall p :: 0 <= p < |g.prios| ==> g.prios[p] < MAX_PRIO)
  }

  /** Where a CPU is in the body of its loop. A CPU inside `next_slot` is at `Top` with a waiting device. */
  datatype CpuPc =
    | Top             // look at the current process
    | GetIdle         // no process: ask the scheduler
    | CheckCount      // got none: are all processes done?
    | GetAfterFinish  // the process was freed: ask for another
    | Count           // count the finished process
    | GetAfterPut     // the process was put back: ask for another
    | Recheck         // decide between stopping, idling and running
    | Execute         // run one instruction
    | EndSlot         // enter `next_slot`
    | Leave           // detach from the timer

  /** `freed` remembers the process freed last, until it is counted. */
  datatype Cpu = Cpu(pc: CpuPc, proc: Option<Pid>, left: nat, freed: Option<Pid>)

  datatype LoaderPc = LoadTop | AddProc | LoadEndSlot | SetDone | LoadLeave

  /** Program counter of a process and how often it was dispatched. */
  datatype Proc = Proc(pc: nat, dispatched: nat)

  /** Device 0 is the loader, device c+1 is CPU c. `attach_event` puts new devices in front, so the timer visits the
      loader first and then the CPUs from the one attached last on; that is the order in which they are numbered here.
      `next` is the loader's index. `finished`, `counted`, `log` (instructions executed) and `added` (the time at which
      each process was added) are history. */
  datatype Os = Os(
    b: B.Sync, cpus: seq<Cpu>, loader: LoaderPc, next: nat,
    ready: Mlq, done: bool, count: nat,
    procs: seq<Proc>, finished: set<Pid>, counted: set<Pid>, log: seq<(Pid, nat)>, added: seq<nat>)

  datatype Thread = CpuThread(c: nat) | LoaderThread | TimerThread | MainThread

  ghost predicate CpuShape(g: Config, u: Cpu) {
    && (u.proc.Some? ==> u.proc.value < |g.sizes|)
    && (u.pc.Count? ==> u.freed.Some?)
    && (u.pc.Execute? ==> u.proc.Some?)
  }

  /** Sizes and indices that make a state meaningful. */
  ghost predicate Shape(g: Config, s: Os) {
    && ValidConfig(g)
    && B.Shape(s.b) && |s.b.devs| == g.cpus + 1 && |s.cpus| == g.cpus
    && Valid(s.ready) && |s.procs| == |g.sizes| && s.next <= |g.sizes|
    && (forall c :: 0 <= c < |s.cpus| ==> CpuShape(g, s.cpus[c]))
    && (s.loader.AddProc? ==> s.next < |g.sizes|)
  }

  // ---------- CPU ----------

  /** A CPU can always move, except while it waits for the timer or after it has left;
      putting a process into a full queue ends the program. */
  ghost predicate CpuEnabled(g: Config, s: Os, c: nat)
    requires Shape(g, s)
  {
    && c < |s.cpus|
    && (s.b.devs[c + 1].Waiting? ==> !s.b.posted[c + 1])
    && !s.b.devs[c + 1].Gone?
    && (s.b.devs[c + 1].Running? && PutsBack(g, s, c) ==> HasRoom(s.ready, g.prios[s.cpus[c].proc.value]))
  }

  ghost predicate Finishes(g: Config, s: Os, c: nat)
    requires Shape(g, s) && c < |s.cpus|
  {
    var u := s.cpus[c];
    u.pc.Top? && u.proc.Some? && s.procs[u.proc.value].pc == g.sizes[u.proc.value]
  }

  ghost predicate PutsBack(g: Config, s: Os, c: nat)
    requires Shape(g, s) && c < |s.cpus|
  {
    s.cpus[c].pc.Top? && s.cpus[c].proc.Some? && !Finishes(g, s, c) && s.cpus[c].left == 0
  }

  ghost function SetCpu(s: Os, c: nat, u: Cpu): Os
    requires c < |s.cpus|
  {
    s.(cpus := s.cpus[c := u])
  }

  /** Branch at the top of the loop. */
  ghost function CpuTop(g: Config, s: Os, c: nat): Os
    requires Shape(g, s) && c < |s.cpus| && s.cpus[c].pc.Top?
    requires PutsBack(g, s, c) ==> HasRoom(s.ready, g.prios[s.cpus[c].proc.value])
  {
    var u := s.cpus[c];
    if u.proc.None? then SetCpu(s, c, u.(pc := GetIdle))
    else if Finishes(g, s, c) then
      SetCpu(s, c, u.(pc := GetAfterFinish, proc := None, freed := u.proc))
      .(finished := s.finished + {u.proc.value})
    else if u.left == 0 then
      SetCpu(s, c, u.(pc := GetAfterPut, proc := None))
      .(ready := Put(s.ready, g.prios[u.proc.value], u.proc.value))
    else SetCpu(s, c, u.(pc := Recheck))
  }

  /** `get_proc` and the assignments that go with it. */
  ghost function CpuGet(s: Os, c: nat): Os
    requires Valid(s.ready) && c < |s.cpus|
    requires s.cpus[c].pc in {GetIdle, GetAfterFinish, GetAfterPut}
  {
    var u, p := s.cpus[c], Got(s.ready);
    SetCpu(s, c,
           match u.pc
           case GetIdle => u.(pc := if p.None? then CheckCount else Recheck, proc := p)
           case GetAfterFinish => u.(pc := Count, proc := p, left := 0)
           case _ => u.(pc := Recheck, proc := p))
    .(ready := Get(s.ready))
  }

  /** Stop, idle, dispatch or go on. */
  ghost function CpuRecheck(g: Config, s: Os, c: nat): Os
    requires Shape(g, s) && c < |s.cpus|
  {
    var u := s.cpus[c];
    if u.proc.None? then SetCpu(s, c, u.(pc := if s.done then Leave else EndSlot))
    else if u.left == 0 then
      var p := u.proc.value;
      SetCpu(s, c, u.(pc := Execute, left := g.slot))
      .(procs := s.procs[p := s.procs[p].(dispatched := s.procs[p].dispatched + 1)])
    else SetCpu(s, c, u.(pc := Execute))
  }

  /** `run(proc); time_left--;` */
  ghost function CpuExecute(g: Config, s: Os, c: nat): Os
    requires Shape(g, s) && c < |s.cpus| && s.cpus[c].pc.Execute?
  {
    var u := s.cpus[c];
    var p := u.proc.value;
    var s1 := SetCpu(s, c, u.(pc := EndSlot, left := if u.left > 0 then u.left - 1 else 0));
    if s.procs[p].pc >= g.sizes[p] then s1
    else s1.(procs := s.procs[p := s.procs[p].(pc := s.procs[p].pc + 1)], log := s.log + [(p, s.procs[p].pc)])
  }

  ghost function CpuNext(g: Config, s: Os, c: nat): Os
    requires Shape(g, s) && CpuEnabled(g, s, c)
  {
    var u := s.cpus[c];
    if s.b.devs[c + 1].Waiting? then s.(b := B.Next(s.b, B.Proceed(c + 1)))
    else
      match u.pc
      case Top => CpuTop(g, s, c)
      case GetIdle => CpuGet(s, c)
      case GetAfterFinish => CpuGet(s, c)
      case GetAfterPut => CpuGet(s, c)
      case CheckCount => SetCpu(s, c, u.(pc := if s.count == |g.sizes| then Leave else EndSlot))
      case Count => SetCpu(s, c, u.(pc := Recheck)).(count := s.count + 1, counted := s.counted + {u.freed.value})
      case Recheck => CpuRecheck(g, s, c)
      case Execute => CpuExecute(g, s, c)
      case EndSlot => SetCpu(s, c, u.(pc := Top)).(b := B.Next(s.b, B.Signal(c + 1)))
      case Leave => s.(b := B.Next(s.b, B.Detach(c + 1)))
  }

  // ---------- Loader, timer, main ----------

  ghost predicate LoaderEnabled(g: Config, s: Os)
    requires Shape(g, s)
  {
    && (s.b.devs[0].Waiting? ==> !s.b.posted[0])
    && !s.b.devs[0].Gone?
    && (s.b.devs[0].Running? && s.loader.AddProc? ==> HasRoom(s.ready, g.prios[s.next]))
  }

  ghost function LoaderNext(g: Config, s: Os): Os
    requires Shape(g, s) && LoaderEnabled(g, s)
  {
    if s.b.devs[0].Waiting? then s.(b := B.Next(s.b, B.Proceed(0)))
    else
      match s.loader
      case LoadTop => s.(loader := if s.next == |g.sizes| then SetDone
                                   else if s.b.time < g.starts[s.next] then LoadEndSlot else AddProc)
      case AddProc => s.(ready := Put(s.ready, g.prios[s.next], s.next), next := s.next + 1, loader := LoadEndSlot,
                         added := s.added + [s.b.time])
      case LoadEndSlot => s.(loader := LoadTop, b := B.Next(s.b, B.Signal(0)))
      case SetDone => s.(done := true, loader := LoadLeave)
      case LoadLeave => s.(b := B.Next(s.b, B.Detach(0)))
  }

  ghost predicate Enabled(g: Config, s: Os, t: Thread)
    requires Shape(g, s)
  {
    match t
    case CpuThread(c) => CpuEnabled(g, s, c)
    case LoaderThread => LoaderEnabled(g, s)
    case TimerThread => B.Enabled(s.b, B.TimerStep)
    case MainThread => B.Enabled(s.b, B.StopTimer)
  }

  ghost function Next(g: Config, s: Os, t: Thread): Os
    requires Shape(g, s) && Enabled(g, s, t)
  {
    match t
    case CpuThread(c) => CpuNext(g, s, c)
    case LoaderThread => LoaderNext(g, s)
    case TimerThread => s.(b := B.Next(s.b, B.TimerStep))
    case MainThread => s.(b := B.Next(s.b, B.StopTimer))
  }

  ghost predicate Initial(g: Config, s: Os) {
    && Shape(g, s) && B.Initial(s.b)
    && (forall c :: 0 <= c < |s.cpus| ==> s.cpus[c] == Cpu(Top, None, 0, None))
    && s.loader.LoadTop? && s.next == 0
    && s.ready == Mlq(seq(MAX_PRIO, _ => []), FullSlots()) && !s.done && s.count == 0
    && (forall p :: 0 <= p < |s.procs| ==> s.procs[p] == Proc(0, 0))
    && s.finished == {} && s.counted == {} && s.log == [] && s.added == []
  }

  /** `s` is reached from `s0` by some interleaving. */
  ghost predicate Reaches(g: Config, s0: Os, run: seq<Thread>, s: Os)
    decreases |run|
  {
    if run == [] then s == s0
    else
      var n := |run| - 1;
      exists p :: Reaches(g, s0, run[..n], p) && Shape(g, p) && Enabled(g, p, run[n]) && s == Next(g, p, run[n])
  }
}
