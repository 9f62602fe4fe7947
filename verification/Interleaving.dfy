/**
The instructions of different processes interleaved at the operations on shared memory: a fetch with its access, a
store, the reuse of a page, one iteration of the frame loop or of the mapping loop. `vm_map_ram` holds a lock, so only
one process at a time is between taking frames and installing pages; all other operations come in between freely.
*/
module Interleaving {
  import opened Counting
  import opened Options
  import opened LruSpec
  import opened Paging
  import PI = PagingInvariant
  import PR = PagingRuns
  import opened Regions
  import RS = RegionSafety
  import opened Instructions
  import SY = System

  /** A process: its address space, what is left of its current instruction, and that instruction. */
  datatype Proc = Proc(space: Space, todo: seq<Op>, now: Option<Event>)

  /** `lock` is the process inside `vm_map_ram`. */
  datatype State = State(procs: seq<Proc>, m: Machine, lock: Option<nat>)

  /** A process begins its next instruction, or does the next operation of its current one. The event says beforehand
      whether the access of an instruction will get through; runs that turn out otherwise are other runs. */
  datatype Action = Begin(e: Event) | Do(p: nat)

  predicate MapsPages(op: Op) { op.TakeFrame? || op.InstallPage? }

  /** May process `p` do its next operation? */
  predicate HasTurn(c: State, p: nat) {
    && p < |c.procs| && c.procs[p].todo != []
    && (MapsPages(c.procs[p].todo[0]) ==> c.lock in {None, Some(p)})
  }

  /** The outcome of an operation is one the guarantees cover, and the one foretold. */
  ghost predicate Foretold(now: Option<Event>, op: Op, r: Outcome) {
    && !r.Undefined? && (op.TakeFrame? ==> r.Ok?)
    && (op.Read? || op.Write? ==> now.Some? && now.value.done == r.Ok?)
  }

  function LockAfter(c: State, p: nat, op: Op, rest: seq<Op>): Option<nat> {
    if rest == [] then (if c.lock == Some(p) then None else c.lock)
    else if MapsPages(op) then Some(p) else c.lock
  }

  ghost predicate Steps(c: State, a: Action, c': State) {
    match a
    case Begin(e) =>
      var p := e.i.pid;
      && p < |c.procs| && c.procs[p].todo == [] && Covered(c.procs[p].space, e.i)
      && c' == c.(procs := c.procs[p := Proc(SpaceAfter(c.procs[p].space, e.i), Ops(c.procs[p].space, e.i), Some(e))])
    case Do(p) =>
      && HasTurn(c, p) && Legal(c.m, c.procs[p].todo[0])
      && var op := c.procs[p].todo[0];
         var r := Step(BySwapOffset, c.m, op);
         var rest := Rest(c.procs[p].todo, r);
         && Foretold(c.procs[p].now, op, r)
         && c' == State(c.procs[p := c.procs[p].(todo := rest)], r.m, LockAfter(c, p, op, rest))
  }

  /** What is left after the first operation: nothing if it was a reuse that failed. */
  function Rest(todo: seq<Op>, r: Outcome): seq<Op>
    requires todo != []
  {
    if r.OutOfSwap? && todo[0].ReusePage? then [] else todo[1..]
  }

  // ---------- Invariant ----------

  /** Taking and installing as in `ops`, with `have` frames to begin with, always finds a frame and uses all of them. */
  predicate Fits(ops: seq<Op>, have: nat) {
    if ops == [] then have == 0
    else if ops[0].TakeFrame? then Fits(ops[1..], have + 1)
    else if ops[0].InstallPage? then have > 0 && Fits(ops[1..], have - 1)
    else Fits(ops[1..], have)
  }

  /** The pages of process `p` that have an entry. */
  ghost function Own(m: Machine, p: nat): set<nat> { set s | s in m.table && s.pid == p :: s.pgn }

  lemma OwnHas(m: Machine, p: nat, pgn: nat)
    ensures pgn in Own(m, p) <==> Slot(p, pgn) in m.table
  {
    if Slot(p, pgn) in m.table { assert Slot(p, pgn).pgn in Own(m, p); }
  }

  /** Reuses do not come with other operations, so one that stops leaves nothing half done. */
  ghost predicate ReusesOnly(ops: seq<Op>) {
    forall j, k :: 0 <= j < |ops| && 0 <= k < |ops| && ops[j].ReusePage? ==> ops[k].ReusePage?
  }

  /** The frames process `p` has taken and not yet installed. */
  function Frames(c: State, p: nat): nat { if c.lock == Some(p) then |c.m.pending| else 0 }

  ghost predicate ProcInv(c: State, p: nat)
    requires p < |c.procs|
  {
    var q := c.procs[p];
    && RS.Inv(q.space)
    && AllOnOwnPages(q.todo, p, Own(c.m, p))
    && (forall pgn: nat :: pgn in q.space.mapped <==> Slot(p, pgn) in c.m.table || Slot(p, pgn) in Installed(q.todo))
    && Fits(q.todo, Frames(c, p)) && ReusesOnly(q.todo)
  }

  /** The lock is what it should be, and frames in transit are the holder's. */
  ghost predicate LockInv(c: State) {
    && (c.lock.None? ==> c.m.pending == [])
    && (c.lock.Some? ==> c.lock.value < |c.procs| && c.procs[c.lock.value].todo != [])
  }

  ghost predicate Inv(c: State) {
    && Paging.Inv(c.m)
    && (forall s :: s in c.m.table ==> s.pid < |c.procs|)
    && (forall p :: 0 <= p < |c.procs| ==> ProcInv(c, p))
    && LockInv(c)
  }

  /** Whatever others do in between, the next operation of every process is legal when its turn comes. */
  lemma TurnIsLegal(c: State, p: nat)
    requires Inv(c) && HasTurn(c, p)
    ensures Legal(c.m, c.procs[p].todo[0])
  {
    assert ProcInv(c, p);
    var op := c.procs[p].todo[0];
    assert OnOwnPages(op, p, Own(c.m, p));
    if !op.TakeFrame? { OwnHas(c.m, p, op.slot.pgn); assert op.slot == Slot(p, op.slot.pgn); }
  }

  // ---------- Beginning an instruction ----------

  lemma {:induction false} OthersFit(ops: seq<Op>, have: nat)
    requires forall k :: 0 <= k < |ops| ==> !MapsPages(ops[k])
    ensures Fits(ops, have) <==> have == 0
  {
    if ops != [] { OthersFit(ops[1..], have); }
  }

  lemma {:induction false} InstallsFit(pid: nat, pages: seq<nat>)
    ensures Fits(Installs(pid, pages), |pages|)
  {
    if pages != [] { InstallsFit(pid, pages[1..]); }
  }

  lemma {:induction false} GrowthFits(pid: nat, n: nat, pages: seq<nat>, have: nat)
    requires n + have == |pages|
    ensures Fits(Takes(n) + Installs(pid, pages), have)
  {
    if n == 0 {
      assert Takes(0) + Installs(pid, pages) == Installs(pid, pages);
      InstallsFit(pid, pages);
    } else {
      var ops := Takes(n) + Installs(pid, pages);
      assert ops[1..] == Takes(n - 1) + Installs(pid, pages);
      GrowthFits(pid, n - 1, pages, have + 1);
    }
  }

  lemma GrowthOpsFit(pid: nat, s: Space, a: Area, size: nat)
    requires RS.Inv(s) && size >= 2 && !Refuses(s, a, size) && NeedsGrowth(s, a, size) && !RS.Collides(s, a, size)
    ensures Fits(GrowthOps(pid, s, a, size), 0) && ReusesOnly(GrowthOps(pid, s, a, size))
  {
    var n := PageCount(s, a, size);
    var pages := PageList(FirstPage(s, a), n, a);
    GrowthPagesNew(s, a, size);
    TakesAt(n);
    InstallsAt(pid, pages);
    GrowthFits(pid, n, pages, 0);
  }

  /** Without a growth there are only reuses, or only accesses. */
  lemma OtherOps(s: Space, i: Instr)
    requires Covered(s, i) && !Grows(s, i)
    ensures ReusesOnly(Ops(s, i)) && forall k :: 0 <= k < |Ops(s, i)| ==> !MapsPages(Ops(s, i)[k])
  {
    if i.Release? { ZeroOpsAt(i.pid, s.syms[i.rgid].area, s.syms[i.rgid].region.start, s.syms[i.rgid].region.end); }
  }

  lemma OpsFit(s: Space, i: Instr)
    requires Covered(s, i)
    ensures Fits(Ops(s, i), 0) && ReusesOnly(Ops(s, i))
  {
    if Grows(s, i) {
      GrowthOpsFit(i.pid, s, i.area, i.size);
    } else {
      OtherOps(s, i);
      OthersFit(Ops(s, i), 0);
    }
  }

  lemma BeginOwn(c: State, e: Event, c': State)
    requires Inv(c) && Steps(c, Begin(e), c')
    ensures ProcInv(c', e.i.pid)
  {
    var p := e.i.pid;
    var s := c.procs[p].space;
    assert ProcInv(c, p);
    SpaceStaysInOrder(s, e.i);
    OpsOnOwnPages(s, e.i);
    OpsAdd(s, e.i);
    OpsFit(s, e.i);
    assert Own(c.m, p) == s.mapped by {
      forall pgn ensures pgn in Own(c.m, p) <==> pgn in s.mapped { OwnHas(c.m, p, pgn); }
    }
    forall pgn: nat
      ensures pgn in SpaceAfter(s, e.i).mapped <==> Slot(p, pgn) in c.m.table || Slot(p, pgn) in Installed(Ops(s, e.i))
    {
      assert pgn in s.mapped <==> Slot(p, pgn) in c.m.table;
      assert Slot(p, pgn).pgn == pgn;
    }
  }

  lemma BeginKeepsInv(c: State, e: Event, c': State)
    requires Inv(c) && Steps(c, Begin(e), c')
    ensures Inv(c')
  {
    BeginOwn(c, e, c');
    OneChanged(c, c', e.i.pid);
  }

  lemma OneChanged(c: State, c': State, p: nat)
    requires Inv(c) && p < |c.procs| == |c'.procs| && c' == c.(procs := c.procs[p := c'.procs[p]])
    requires ProcInv(c', p) && c.lock != Some(p)
    ensures Inv(c')
  {
    forall q | 0 <= q < |c'.procs| && q != p ensures ProcInv(c', q) { assert ProcInv(c, q); }
  }

  // ---------- Doing an operation ----------

  /** What an operation does to the entries and the pending frames. */
  lemma OpEffect(m: Machine, op: Op, r: Outcome)
    requires Paging.Inv(m) && Legal(m, op) && r == Step(BySwapOffset, m, op)
    requires !r.Undefined? && (op.TakeFrame? ==> r.Ok?)
    ensures Paging.Inv(r.m) && r.m.table.Keys == m.table.Keys + (if op.InstallPage? then {op.slot} else {})
    ensures |r.m.pending| == |m.pending| + SY.Taken(op)
  {
    var _ := SY.StepMaps(m, op);
    SY.StepPends(BySwapOffset, m, op);
  }

  /** The pages and frames of a stopped reuse. */
  lemma StoppedReuse(todo: seq<Op>, have: nat)
    requires todo != [] && todo[0].ReusePage? && ReusesOnly(todo) && Fits(todo, have)
    ensures Installed(todo) == {} && have == 0
  {
    NoInstalls(todo);
    OthersFit(todo, have);
  }

  lemma DoPages(c: State, p: nat, c': State, r: Outcome)
    requires Inv(c) && Steps(c, Do(p), c') && r == Step(BySwapOffset, c.m, c.procs[p].todo[0])
    requires var op := c.procs[p].todo[0];
             r.m.table.Keys == c.m.table.Keys + (if op.InstallPage? then {op.slot} else {})
    ensures AllOnOwnPages(c'.procs[p].todo, p, Own(c'.m, p))
    ensures forall pgn: nat :: pgn in c'.procs[p].space.mapped <==>
                                 Slot(p, pgn) in c'.m.table || Slot(p, pgn) in Installed(c'.procs[p].todo)
  {
    assert ProcInv(c, p);
    var todo, todo' := c.procs[p].todo, c'.procs[p].todo;
    var op := todo[0];
    assert OnOwnPages(op, p, Own(c.m, p));
    forall pgn ensures pgn in Own(c'.m, p) <==> pgn in Own(c.m, p) || (op.InstallPage? && pgn == op.slot.pgn) {
      OwnHas(c.m, p, pgn);
      OwnHas(c'.m, p, pgn);
    }
    assert forall k :: 0 <= k < |todo'| ==> todo'[k] == todo[k + 1];
    forall k | 0 <= k < |todo'| ensures OnOwnPages(todo'[k], p, Own(c'.m, p)) {
      assert OnOwnPages(todo[k + 1], p, Own(c.m, p));
    }
    if todo' != todo[1..] { StoppedReuse(todo, Frames(c, p)); }
    forall pgn: nat
      ensures pgn in c'.procs[p].space.mapped <==> Slot(p, pgn) in c'.m.table || Slot(p, pgn) in Installed(todo')
    {
      assert Slot(p, pgn) in c'.m.table.Keys <==>
               Slot(p, pgn) in c.m.table.Keys || (op.InstallPage? && op.slot == Slot(p, pgn));
    }
  }

  lemma RestFits(todo: seq<Op>, have: nat, rest: seq<Op>)
    requires todo != [] && Fits(todo, have) && ReusesOnly(todo)
    requires rest == todo[1..] || (rest == [] && todo[0].ReusePage?)
    ensures have + SY.Taken(todo[0]) >= 0 && Fits(rest, have + SY.Taken(todo[0])) && ReusesOnly(rest)
  {
    if rest != todo[1..] {
      StoppedReuse(todo, have);
    } else {
      assert forall k :: 0 <= k < |rest| ==> rest[k] == todo[k + 1];
    }
  }

  lemma LockAfterSound(c: State, p: nat, c': State, rest: seq<Op>)
    requires LockInv(c) && HasTurn(c, p) && ReusesOnly(rest)
    requires var op := c.procs[p].todo[0];
             && c' == State(c.procs[p := c.procs[p].(todo := rest)], c'.m, LockAfter(c, p, op, rest))
             && |c'.m.pending| == |c.m.pending| + SY.Taken(op)
             && Frames(c, p) + SY.Taken(op) >= 0 && Fits(rest, Frames(c, p) + SY.Taken(op))
    ensures LockInv(c') && Fits(rest, Frames(c', p))
    ensures forall q: nat :: q != p && q < |c.procs| ==> Frames(c', q) == Frames(c, q)
  {
  }

  lemma DoFits(c: State, p: nat, c': State)
    requires Inv(c) && Steps(c, Do(p), c') && |c'.m.pending| == |c.m.pending| + SY.Taken(c.procs[p].todo[0])
    ensures LockInv(c') && Fits(c'.procs[p].todo, Frames(c', p)) && ReusesOnly(c'.procs[p].todo)
    ensures forall q: nat :: q != p && q < |c.procs| ==> Frames(c', q) == Frames(c, q)
  {
    assert ProcInv(c, p);
    RestFits(c.procs[p].todo, Frames(c, p), c'.procs[p].todo);
    LockAfterSound(c, p, c', c'.procs[p].todo);
  }

  lemma DoKeepsInv(c: State, p: nat, c': State)
    requires Inv(c) && Steps(c, Do(p), c')
    ensures Inv(c')
  {
    var op, r := c.procs[p].todo[0], Step(BySwapOffset, c.m, c.procs[p].todo[0]);
    OpEffect(c.m, op, r);
    assert ProcInv(c, p) && OnOwnPages(op, p, Own(c.m, p));
    DoPages(c, p, c', r);
    DoFits(c, p, c');
    forall q | 0 <= q < |c'.procs| && q != p ensures ProcInv(c', q) {
      OtherKept(c, c', p, q, if op.InstallPage? then {op.slot} else {});
    }
    forall s | s in c'.m.table ensures s.pid < |c'.procs| { assert s in c'.m.table.Keys; }
  }

  /** What process `p` maps and takes is no concern of process `q`. */
  lemma OtherKept(c: State, c': State, p: nat, q: nat, added: set<Slot>)
    requires q < |c.procs| && ProcInv(c, q) && q < |c'.procs| && c'.procs[q] == c.procs[q] && q != p
    requires c'.m.table.Keys == c.m.table.Keys + added && (forall s :: s in added ==> s.pid == p)
    requires Frames(c', q) == Frames(c, q)
    ensures ProcInv(c', q)
  {
    assert Own(c'.m, q) == Own(c.m, q) by {
      forall pgn ensures pgn in Own(c'.m, q) <==> pgn in Own(c.m, q) {
        OwnHas(c.m, q, pgn);
        OwnHas(c'.m, q, pgn);
        assert Slot(q, pgn) in c'.m.table.Keys <==> Slot(q, pgn) in c.m.table.Keys;
      }
    }
    forall pgn: nat ensures Slot(q, pgn) in c'.m.table <==> Slot(q, pgn) in c.m.table {
      assert Slot(q, pgn) in c'.m.table.Keys <==> Slot(q, pgn) in c.m.table.Keys;
    }
  }

  // ---------- Variables ----------

  /** The events begun so far. */
  function Begun(acts: seq<Action>): seq<Event> {
    if acts == [] then []
    else
      var n := |acts| - 1;
      Begun(acts[..n]) + Begins(acts[n])
  }

  /** Nothing process `q` still has to do will change the byte. */
  ghost predicate Quiet(q: Proc, slot: Slot, cell: nat) {
    || Spares(q.todo, slot, cell)
    || (q.now.Some? && q.now.value.i.WriteVar? && !q.now.value.done && |q.todo| == 1 && q.todo[0].Write?)
  }

  /** The process is about to store `v` in the byte. */
  ghost predicate AboutToStore(q: Proc, slot: Slot, cell: nat, v: Byte) {
    && |q.todo| == 1 && q.todo[0].Write? && Stores(q.todo[0], slot, cell) && q.todo[0].value == v
    && q.now.Some? && q.now.value.done
  }

  /** The byte of process `p` is or will be `v`. */
  ghost predicate WillHold(c: State, p: nat, slot: Slot, cell: nat, v: Byte)
    requires p < |c.procs| && cell < PAGE_SIZE
  {
    && slot in c.m.table && Backed(c.m, slot)
    && (|| (Quiet(c.procs[p], slot, cell) && Content(c.m, slot)[cell] == v)
        || AboutToStore(c.procs[p], slot, cell, v))
  }

  ghost predicate VarInv(c: State, h: seq<Event>, p: nat, rgid: nat, off: nat)
    requires p < |c.procs|
  {
    var s := c.procs[p].space;
    LastStored(h, p, rgid, off).Some? && IsVar(s, rgid, off) ==>
      WillHold(c, p, VarSlot(s, p, rgid, off), VarCell(s, rgid, off), LastStored(h, p, rgid, off).value)
  }

  /** An operation of process `p` on its own byte. */
  lemma OwnOpKeeps(c: State, p: nat, c': State, slot: Slot, cell: nat, v: Byte)
    requires Inv(c) && Steps(c, Do(p), c') && Inv(c') && cell < PAGE_SIZE && WillHold(c, p, slot, cell, v)
    ensures WillHold(c', p, slot, cell, v)
  {
    var q := c.procs[p];
    var op := q.todo[0];
    if AboutToStore(q, slot, cell, v) {
      PI.StepKeeps(c.m, op);
    } else {
      assert forall k :: 0 <= k < |q.todo[1..]| ==> q.todo[1..][k] == q.todo[k + 1];
      SY.StepSpares(c.m, op, slot, cell);
    }
  }

  /** An operation of another process is on its own pages. */
  lemma OtherOpKeeps(c: State, p: nat, c': State, q: nat, slot: Slot, cell: nat, v: Byte)
    requires Inv(c) && Steps(c, Do(p), c') && Inv(c') && cell < PAGE_SIZE && q < |c.procs| && q != p && slot.pid == q
    requires WillHold(c, q, slot, cell, v)
    ensures WillHold(c', q, slot, cell, v)
  {
    assert ProcInv(c, p);
    var op := c.procs[p].todo[0];
    assert OnOwnPages(op, p, Own(c.m, p));
    SY.StepSpares(c.m, op, slot, cell);
  }

  lemma DoKeepsVar(c: State, p: nat, c': State, h: seq<Event>, q: nat, rgid: nat, off: nat)
    requires Inv(c) && Steps(c, Do(p), c') && Inv(c') && q < |c.procs| && VarInv(c, h, q, rgid, off)
    ensures VarInv(c', h, q, rgid, off)
  {
    var s := c.procs[q].space;
    if LastStored(h, q, rgid, off).Some? && IsVar(s, rgid, off) {
      var slot, cell, v := VarSlot(s, q, rgid, off), VarCell(s, rgid, off), LastStored(h, q, rgid, off).value;
      if q == p { OwnOpKeeps(c, p, c', slot, cell, v); } else { OtherOpKeeps(c, p, c', q, slot, cell, v); }
    }
  }

  /** A process begins an instruction that does not affect one of its variables. */
  lemma BeginSpares(s: Space, e: Event, rgid: nat, off: nat)
    requires Covered(s, e.i) && IsVar(s, rgid, off) && !Affects(e, e.i.pid, rgid, off)
    ensures Quiet(Proc(SpaceAfter(s, e.i), Ops(s, e.i), Some(e)), VarSlot(s, e.i.pid, rgid, off), VarCell(s, rgid, off))
  {
    if !Affects(Event(e.i, true), e.i.pid, rgid, off) { OpsSpare(s, e.i, rgid, off); }
  }

  /** A process begins a write to one of its variables that will get through. */
  lemma BeginStores(s: Space, e: Event)
    requires e.i.WriteVar? && e.done && Covered(s, e.i) && IsVar(s, e.i.rgid, e.i.off)
    ensures SpaceAfter(s, e.i) == s && Address(s.syms[e.i.rgid], e.i.off) / PAGE_SIZE in s.mapped
    ensures AboutToStore(Proc(s, Ops(s, e.i), Some(e)), VarSlot(s, e.i.pid, e.i.rgid, e.i.off),
                         VarCell(s, e.i.rgid, e.i.off), e.i.value)
  {
  }

  /** The variable before and after the beginning of an instruction that does not affect it. */
  lemma SymbolStays(s: Space, e: Event, rgid: nat, off: nat)
    requires Covered(s, e.i) && rgid < SYMBOLS && !Affects(e, e.i.pid, rgid, off)
    ensures |s.syms| == |SpaceAfter(s, e.i).syms| == SYMBOLS && SpaceAfter(s, e.i).syms[rgid] == s.syms[rgid]
  {
    SymbolsKept(s, e.i, rgid);
  }

  lemma BeginKeepsOwnVar(c: State, e: Event, c': State, h: seq<Event>, rgid: nat, off: nat)
    requires Inv(c) && Steps(c, Begin(e), c') && VarInv(c, h, e.i.pid, rgid, off)
    ensures VarInv(c', h + [e], e.i.pid, rgid, off)
  {
    var p := e.i.pid;
    var s, s' := c.procs[p].space, c'.procs[p].space;
    assert (h + [e])[..|h|] == h;
    if LastStored(h + [e], p, rgid, off).Some? && IsVar(s', rgid, off) {
      if Affects(e, p, rgid, off) {
        BeginStores(s, e);
        assert ProcInv(c, p);
        var slot := Slot(p, Address(s.syms[rgid], off) / PAGE_SIZE);
        assert slot in c.m.table && Backed(c.m, slot);
      } else {
        SymbolStays(s, e, rgid, off);
        BeginSpares(s, e, rgid, off);
      }
    }
  }

  lemma BeginKeepsVar(c: State, e: Event, c': State, h: seq<Event>, q: nat, rgid: nat, off: nat)
    requires Inv(c) && Steps(c, Begin(e), c') && Inv(c') && q < |c.procs| && VarInv(c, h, q, rgid, off)
    ensures VarInv(c', h + [e], q, rgid, off)
  {
    if q == e.i.pid {
      BeginKeepsOwnVar(c, e, c', h, rgid, off);
    } else {
      assert (h + [e])[..|h|] == h;
    }
  }

  function Begins(a: Action): seq<Event> { if a.Begin? then [a.e] else [] }

  lemma StepKeepsVar(c: State, a: Action, c': State, h: seq<Event>, q: nat, rgid: nat, off: nat)
    requires Inv(c) && Steps(c, a, c') && Inv(c') && q < |c.procs| == |c'.procs| && VarInv(c, h, q, rgid, off)
    ensures VarInv(c', h + Begins(a), q, rgid, off)
  {
    match a
    case Begin(e) => BeginKeepsVar(c, e, c', h, q, rgid, off);
    case Do(p) =>
      DoKeepsVar(c, p, c', h, q, rgid, off);
      assert h + Begins(a) == h;
  }

  // ---------- Runs ----------

  ghost predicate Reaches(c0: State, acts: seq<Action>, c: State)
    decreases |acts|
  {
    if acts == [] then c == c0
    else
      var n := |acts| - 1;
      exists b :: Reaches(c0, acts[..n], b) && Steps(b, acts[n], c)
  }

  /** Memory after `init_memphy`, processes after `init_mm`. */
  ghost predicate Booted(c: State, vmemsz: nat) {
    && PR.Booted(c.m) && c.lock.None?
    && forall p :: 0 <= p < |c.procs| ==> c.procs[p] == Proc(Fresh(if vmemsz >= 1 then vmemsz else 1), [], None)
  }

  lemma BootedInv(c: State, vmemsz: nat)
    requires RS.GoodSize(vmemsz) && Booted(c, vmemsz)
    ensures Inv(c)
  {
    PR.BootedInv(c.m);
    RS.FreshInv(vmemsz);
  }

  lemma {:induction false} ReachableInv(c0: State, vmemsz: nat, acts: seq<Action>, c: State)
    requires RS.GoodSize(vmemsz) && Booted(c0, vmemsz) && Reaches(c0, acts, c)
    ensures Inv(c) && |c.procs| == |c0.procs|
    decreases |acts|
  {
    if acts == [] {
      BootedInv(c, vmemsz);
    } else {
      var n := |acts| - 1;
      var b :| Reaches(c0, acts[..n], b) && Steps(b, acts[n], c);
      ReachableInv(c0, vmemsz, acts[..n], b);
      match acts[n]
      case Begin(e) => BeginKeepsInv(b, e, c);
      case Do(p) => DoKeepsInv(b, p, c);
    }
  }

  lemma {:induction false} ReachableVar(
      c0: State, vmemsz: nat, acts: seq<Action>, c: State, p: nat, rgid: nat, off: nat)
    requires RS.GoodSize(vmemsz) && Booted(c0, vmemsz) && Reaches(c0, acts, c) && p < |c0.procs|
    ensures Inv(c) && |c.procs| == |c0.procs| && VarInv(c, Begun(acts), p, rgid, off)
    decreases |acts|
  {
    ReachableInv(c0, vmemsz, acts, c);
    if acts != [] {
      var n := |acts| - 1;
      var b :| Reaches(c0, acts[..n], b) && Steps(b, acts[n], c);
      ReachableVar(c0, vmemsz, acts[..n], b, p, rgid, off);
      StepKeepsVar(b, acts[n], c, Begun(acts[..n]), p, rgid, off);
    }
  }

  /** In every interleaving of the operations of any number of processes, a process between two instructions finds in
      its variables what it wrote to them last, although others may be in the middle of theirs. */
  lemma VariablesHoldInterleaved(
      c0: State, vmemsz: nat, acts: seq<Action>, c: State, p: nat, rgid: nat, off: nat)
    requires RS.GoodSize(vmemsz) && Booted(c0, vmemsz) && Reaches(c0, acts, c) && p < |c0.procs| == |c.procs|
    requires c.procs[p].todo == []
    ensures var s, w := c.procs[p].space, LastStored(Begun(acts), p, rgid, off);
            w.Some? && IsVar(s, rgid, off) ==>
              && VarSlot(s, p, rgid, off) in c.m.table && Backed(c.m, VarSlot(s, p, rgid, off))
              && Content(c.m, VarSlot(s, p, rgid, off))[VarCell(s, rgid, off)] == w.value
  {
    ReachableVar(c0, vmemsz, acts, c, p, rgid, off);
  }

  /** And a read that completes returns it. */
  lemma ReadsHoldInterleaved(
      c0: State, vmemsz: nat, acts: seq<Action>, c: State, p: nat, rgid: nat, off: nat, c': State)
    requires RS.GoodSize(vmemsz) && Booted(c0, vmemsz) && Reaches(c0, acts, c) && p < |c0.procs| == |c.procs|
    requires var s := c.procs[p].space;
             IsVar(s, rgid, off) && c.procs[p].todo == [ReadOp(p, s.syms[rgid], off)]
    requires Steps(c, Do(p), c') && c.procs[p].now.Some? && c.procs[p].now.value.done
    ensures var op, w := c.procs[p].todo[0], LastStored(Begun(acts), p, rgid, off);
            && Access(BySwapOffset, c.m, op.slot, PhysOffset(op.area, op.off), false, 0).Ok?
            && (w.Some? ==> PR.ReadValue(BySwapOffset, c.m, op.slot, op.area, op.off) == w.value)
  {
    ReachableVar(c0, vmemsz, acts, c, p, rgid, off);
    SY.ReadPerformed(c.m, c.procs[p].todo[0]);
  }

  /** Every operation whose turn it is, in every reachable state, is legal. */
  lemma OperationsLegal(c0: State, vmemsz: nat, acts: seq<Action>, c: State, p: nat)
    requires RS.GoodSize(vmemsz) && Booted(c0, vmemsz) && Reaches(c0, acts, c) && HasTurn(c, p)
    ensures Legal(c.m, c.procs[p].todo[0])
  {
    ReachableInv(c0, vmemsz, acts, c);
    TurnIsLegal(c, p);
  }
}
