/** What the simulator's semantics promise: the write buffers behave as
    dicts and commit as the memory update they describe, vector slots act
    lane by lane, a bundle reads only the state from before it, the slot
    limits and the `debug` key, and what run leaves behind. */
module SimulatorProps {
  import opened Common
  import opened PyInt
  import opened Simulator

  // ---------------------------------------------------------------------
  // Write buffers
  // ---------------------------------------------------------------------

  /** No address appears twice: what a dict's items look like. */
  predicate UniqueKeys(w: Writes)
  {
    forall i, j :: 0 <= i < j < |w| ==> w[i].0 != w[j].0
  }

  /** Every address is a plain index into a list of length n. */
  predicate KeysIn(w: Writes, n: nat)
  {
    forall i :: 0 <= i < |w| ==> 0 <= w[i].0 < n
  }

  /** d[k] = v keeps the keys unique. */
  lemma PutUnique(w: Writes, k: int, v: int)
    requires UniqueKeys(w)
    ensures UniqueKeys(Put(w, k, v))
    ensures forall i :: 0 <= i < |Put(w, k, v)| ==> Put(w, k, v)[i].0 == k || exists j :: 0 <= j < |w| && w[j].0 == Put(w, k, v)[i].0
  {
    FindSpec(w, k);
  }

  /** Lookup on a buffer whose first item is e. */
  lemma LookupCons(e: (int, int), w: Writes, p: int)
    ensures Lookup([e] + w, p) == if e.0 == p then Some(e.1) else Lookup(w, p)
  {
    assert ([e] + w)[1..] == w;
  }

  /** Without aliasing, committing a buffer writes each key's value and
      leaves every other word alone. */
  lemma {:induction false} CommitFromSpec(s: seq<int>, w: Writes, k: nat)
    requires UniqueKeys(w) && KeysIn(w, |s|) && k <= |w|
    ensures CommitFrom(s, w, k).Ok?
    ensures forall p :: 0 <= p < |s| ==>
      CommitFrom(s, w, k).value[p] == match Lookup(w[k..], p) case Some(v) => v case None => s[p]
    decreases |w| - k
  {
    if k < |w| {
      var s' := s[w[k].0 := w[k].1];
      CommitFromSpec(s', w, k + 1);
      assert w[k..] == [w[k]] + w[k + 1..];
      forall p | 0 <= p < |s|
        ensures CommitFrom(s, w, k).value[p] == match Lookup(w[k..], p) case Some(v) => v case None => s[p]
      {
        LookupCons(w[k], w[k + 1..], p);
        if w[k].0 == p {
          FindSpec(w[k + 1..], p);
        }
      }
    }
  }

  /** commit(s, d) is s with d's items written in. */
  lemma CommitSpec(s: seq<int>, w: Writes)
    requires UniqueKeys(w) && KeysIn(w, |s|)
    ensures Commit(s, w).Ok?
    ensures forall p :: 0 <= p < |s| ==>
      Commit(s, w).value[p] == match Lookup(w, p) case Some(v) => v case None => s[p]
  {
    CommitFromSpec(s, w, 0);
    assert w[0..] == w;
  }

  // ---------------------------------------------------------------------
  // Vector slots
  // ---------------------------------------------------------------------

  /** The write buffer of lanes j.. once lane j's word v is put: lane j
      holds v and nothing outside lanes j.. differs from before. */
  lemma LaneFrame(w: Writes, r: Writes, dest: int, j: nat, v: int)
    requires j < VLEN
    requires forall k :: !(dest + j + 1 <= k < dest + VLEN) ==> Lookup(r, k) == Lookup(Put(w, dest + j, v), k)
    ensures Lookup(r, dest + j) == Some(v)
    ensures forall k :: !(dest + j <= k < dest + VLEN) ==> Lookup(r, k) == Lookup(w, k)
  {
    PutLookup(w, dest + j, v);
    assert Lookup(r, dest + j) == Lookup(Put(w, dest + j, v), dest + j);
    forall k | !(dest + j <= k < dest + VLEN)
      ensures Lookup(r, k) == Lookup(w, k)
    {
      assert !(dest + j + 1 <= k < dest + VLEN);
    }
  }

  /** A vector slot as a loop over lanes j.. whose results are given: the
      first lane that raises ends the slot with its error, otherwise lane
      i's word is put at dest + i, in lane order. */
  function PutLanes(lanes: seq<Result<int, Error>>, dest: int, w: Writes, j: nat): Result<Writes, Error>
    requires |lanes| == VLEN
    decreases VLEN - j
  {
    if j >= VLEN then Ok(w)
    else match lanes[j]
      case Err(e) => Err(e)
      case Ok(v) => PutLanes(lanes, dest, Put(w, dest + j, v), j + 1)
  }

  /** The lanes succeed together exactly when each one does. */
  lemma {:induction false} PutLanesOk(lanes: seq<Result<int, Error>>, dest: int, w: Writes, j: nat)
    requires |lanes| == VLEN && j <= VLEN
    ensures PutLanes(lanes, dest, w, j).Ok? <==> forall i :: j <= i < VLEN ==> lanes[i].Ok?
    decreases VLEN - j
  {
    if j < VLEN && lanes[j].Ok? {
      PutLanesOk(lanes, dest, Put(w, dest + j, lanes[j].value), j + 1);
    }
  }

  /** When they succeed, address dest + i holds lane i's word and no
      address outside the lanes changes. */
  lemma {:induction false} PutLanesWrites(lanes: seq<Result<int, Error>>, dest: int, w: Writes, j: nat)
    requires |lanes| == VLEN && j <= VLEN
    requires forall i :: j <= i < VLEN ==> lanes[i].Ok?
    ensures var r := PutLanes(lanes, dest, w, j);
      && r.Ok?
      && (forall k :: dest + j <= k < dest + VLEN ==> Lookup(r.value, k) == Some(lanes[k - dest].value))
      && (forall k :: !(dest + j <= k < dest + VLEN) ==> Lookup(r.value, k) == Lookup(w, k))
    decreases VLEN - j
  {
    if j < VLEN {
      var v := lanes[j].value;
      var w' := Put(w, dest + j, v);
      PutLanesWrites(lanes, dest, w', j + 1);
      var r := PutLanes(lanes, dest, w', j + 1).value;
      LaneFrame(w, r, dest, j, v);
      forall k | dest + j <= k < dest + VLEN
        ensures Lookup(r, k) == Some(lanes[k - dest].value)
      {
        if k == dest + j {
          assert Lookup(r, k) == Some(v);
        }
      }
    }
  }

  /** Lane i of a vector alu slot: the scalar alu op on lane i of both
      operands. */
  function ValuLane(scratch: seq<int>, op: Op, a1: int, a2: int, i: int): Result<int, Error>
  {
    var x :- Read(scratch, a1 + i);
    var y :- Read(scratch, a2 + i);
    AluResult(op, x, y)
  }

  /** Lane i of a vselect: a's lane where cond's lane is nonzero, else b's. */
  function SelectLane(scratch: seq<int>, cond: int, a: int, b: int, i: int): Result<int, Error>
  {
    var c :- Read(scratch, cond + i);
    if c != 0 then Read(scratch, a + i) else Read(scratch, b + i)
  }

  /** A vector alu slot is VLEN scalar alu ops, one per lane. */
  lemma {:induction false} ValuFromLanes(scratch: seq<int>, op: Op, dest: int, a1: int, a2: int, w: Writes, j: nat)
    ensures ValuFrom(scratch, op, dest, a1, a2, w, j) == PutLanes(seq(VLEN, i => ValuLane(scratch, op, a1, a2, i)), dest, w, j)
    decreases VLEN - j
  {
    var lanes := seq(VLEN, i => ValuLane(scratch, op, a1, a2, i));
    if j < VLEN {
      assert lanes[j] == ValuLane(scratch, op, a1, a2, j);
      if lanes[j].Ok? {
        ValuFromLanes(scratch, op, dest, a1, a2, Put(w, dest + j, lanes[j].value), j + 1);
      }
    }
  }

  /** vbroadcast puts the source word in every lane. */
  lemma {:induction false} BroadcastFromLanes(scratch: seq<int>, dest: int, src: int, w: Writes, j: nat)
    ensures BroadcastFrom(scratch, dest, src, w, j) == PutLanes(seq(VLEN, i => Read(scratch, src)), dest, w, j)
    decreases VLEN - j
  {
    var lanes := seq(VLEN, i => Read(scratch, src));
    if j < VLEN {
      assert lanes[j] == Read(scratch, src);
      if lanes[j].Ok? {
        BroadcastFromLanes(scratch, dest, src, Put(w, dest + j, lanes[j].value), j + 1);
      }
    }
  }

  /** vload: lane i reads mem[a + i]. */
  lemma {:induction false} VloadFromLanes(mem: seq<int>, dest: int, a: int, w: Writes, j: nat)
    ensures VloadFrom(mem, dest, a, w, j) == PutLanes(seq(VLEN, i => Read(mem, a + i)), dest, w, j)
    decreases VLEN - j
  {
    var lanes := seq(VLEN, i => Read(mem, a + i));
    if j < VLEN {
      assert lanes[j] == Read(mem, a + j);
      if lanes[j].Ok? {
        VloadFromLanes(mem, dest, a, Put(w, dest + j, lanes[j].value), j + 1);
      }
    }
  }

  /** vstore: memory address a + i gets lane i of the source. */
  lemma {:induction false} VstoreFromLanes(scratch: seq<int>, a: int, src: int, mw: Writes, j: nat)
    ensures VstoreFrom(scratch, a, src, mw, j) == PutLanes(seq(VLEN, i => Read(scratch, src + i)), a, mw, j)
    decreases VLEN - j
  {
    var lanes := seq(VLEN, i => Read(scratch, src + i));
    if j < VLEN {
      assert lanes[j] == Read(scratch, src + j);
      if lanes[j].Ok? {
        VstoreFromLanes(scratch, a, src, Put(mw, a + j, lanes[j].value), j + 1);
      }
    }
  }

  /** vselect is VLEN scalar selects, one per lane. */
  lemma {:induction false} VselectFromLanes(scratch: seq<int>, dest: int, cond: int, a: int, b: int, w: Writes, j: nat)
    ensures VselectFrom(scratch, dest, cond, a, b, w, j) == PutLanes(seq(VLEN, i => SelectLane(scratch, cond, a, b, i)), dest, w, j)
    decreases VLEN - j
  {
    var lanes := seq(VLEN, i => SelectLane(scratch, cond, a, b, i));
    if j < VLEN {
      assert lanes[j] == SelectLane(scratch, cond, a, b, j);
      if lanes[j].Ok? {
        VselectFromLanes(scratch, dest, cond, a, b, Put(w, dest + j, lanes[j].value), j + 1);
      }
    }
  }

  // ---------------------------------------------------------------------
  // Bundles
  // ---------------------------------------------------------------------

  /** Two alu slots in one bundle that each add a zero word swap two scratch
      words: both read the scratch as it was before the bundle. */
  lemma SwapInOneBundle(c: CoreVal, mem: seq<int>, enablePause: bool, x: nat, y: nat, z: nat)
    requires x < |c.scratch| && y < |c.scratch| && z < |c.scratch| && x != y
    requires c.scratch[z] == 0
    requires 0 <= c.scratch[x] < WORD && 0 <= c.scratch[y] < WORD
    ensures var r := StepSpec([(AluEngine, [Slot(Plus, [x, y, z]), Slot(Plus, [y, x, z])])], c, mem, enablePause);
      && r.Ok?
      && r.value.0 == c.(scratch := c.scratch[x := c.scratch[y]][y := c.scratch[x]])
      && r.value.1 == mem
  {
    var sx, sy := c.scratch[x], c.scratch[y];
    var slots := [Slot(Plus, [x, y, z]), Slot(Plus, [y, x, z])];
    var instr := [(AluEngine, slots)];
    assert Read(c.scratch, x) == Ok(sx) && Read(c.scratch, y) == Ok(sy) && Read(c.scratch, z) == Ok(0);
    assert AluResult(Plus, sy, 0) == Ok(sy) && AluResult(Plus, sx, 0) == Ok(sx);
    var w1 := [(x, sy)];
    var w2 := [(x, sy), (y, sx)];
    assert Put([], x, sy) == w1;
    assert Find(w1, y) == None by { assert w1[1..] == []; }
    assert Put(w1, y, sx) == w2;
    var st0, st1, st2 := StepState(c, [], []), StepState(c, w1, []), StepState(c, w2, []);
    assert ExecSlot(AluEngine, slots[0], st0, mem, enablePause) == Ok(st1);
    assert ExecSlot(AluEngine, slots[1], st1, mem, enablePause) == Ok(st2);
    assert ExecSlots(AluEngine, slots, 1, st1, mem, enablePause) == Ok(st2);
    assert ExecSlots(AluEngine, slots, 0, st0, mem, enablePause) == Ok(st2);
    assert ExecEngines(instr, 0, st0, mem, enablePause) == Ok(st2);
    assert CommitFrom(c.scratch[x := sy], w2, 1) == Ok(c.scratch[x := sy][y := sx]);
    assert Commit(c.scratch, w2) == Ok(c.scratch[x := sy][y := sx]);
    assert Commit(mem, []) == Ok(mem);
  }

  /** A load in the same bundle as a store to the same address sees the
      memory from before the bundle; the store lands when it ends. */
  lemma LoadSeesOldMemory(c: CoreVal, mem: seq<int>, enablePause: bool, pa: nat, ps: nat, d: nat)
    requires pa < |c.scratch| && ps < |c.scratch| && d < |c.scratch|
    requires 0 <= c.scratch[pa] < |mem|
    ensures var r := StepSpec([(StoreEngine, [Slot(StoreWord, [pa, ps])]), (LoadEngine, [Slot(LoadWord, [d, pa])])], c, mem, enablePause);
      && r.Ok?
      && r.value.0 == c.(scratch := c.scratch[d := mem[c.scratch[pa]]])
      && r.value.1 == mem[c.scratch[pa] := c.scratch[ps]]
  {
    var a, v := c.scratch[pa], c.scratch[ps];
    var store, load := [Slot(StoreWord, [pa, ps])], [Slot(LoadWord, [d, pa])];
    var instr := [(StoreEngine, store), (LoadEngine, load)];
    assert Read(c.scratch, pa) == Ok(a) && Read(c.scratch, ps) == Ok(v) && Read(mem, a) == Ok(mem[a]);
    var st0, st1, st2 := StepState(c, [], []), StepState(c, [], [(a, v)]), StepState(c, [(d, mem[a])], [(a, v)]);
    assert Put([], a, v) == [(a, v)] && Put([], d, mem[a]) == [(d, mem[a])];
    assert StoreSlot(c.scratch, store[0], []) == Ok([(a, v)]);
    assert ExecSlot(StoreEngine, store[0], st0, mem, enablePause) == Ok(st1);
    assert ExecSlots(StoreEngine, store, 0, st0, mem, enablePause) == Ok(st1);
    assert LoadSlot(c.scratch, mem, load[0], []) == Ok([(d, mem[a])]);
    assert ExecSlot(LoadEngine, load[0], st1, mem, enablePause) == Ok(st2);
    assert ExecSlots(LoadEngine, load, 0, st1, mem, enablePause) == Ok(st2);
    assert ExecEngines(instr, 1, st1, mem, enablePause) == Ok(st2);
    assert ExecEngines(instr, 0, st0, mem, enablePause) == Ok(st2);
    assert PyIndex(|c.scratch|, d) == Some(d) && PyIndex(|mem|, a) == Some(a);
    assert CommitFrom(c.scratch[d := mem[a]], st2.sw, 1) == Ok(c.scratch[d := mem[a]]);
    assert Commit(c.scratch, st2.sw) == Ok(c.scratch[d := mem[a]]);
    assert CommitFrom(mem[a := v], st2.mw, 1) == Ok(mem[a := v]);
    assert Commit(mem, st2.mw) == Ok(mem[a := v]);
  }

  /** The pieces of a bundle after its first entry, one index further on. */
  lemma {:induction false} ExecEnginesCons(e: (Engine, seq<Slot>), rest: Bundle, i: nat, st: StepState, mem: seq<int>, enablePause: bool)
    ensures ExecEngines([e] + rest, i + 1, st, mem, enablePause) == ExecEngines(rest, i, st, mem, enablePause)
    decreases |rest| - i
  {
    if i < |rest| {
      assert ([e] + rest)[i + 1] == rest[i];
      var (name, slots) := rest[i];
      if name == Debug {
        ExecEnginesCons(e, rest, i + 1, st, mem, enablePause);
      } else if SlotLimit(name).Some? && |slots| <= SlotLimit(name).value {
        match ExecSlots(name, slots, 0, st, mem, enablePause)
        case Err(_) =>
        case Ok(st') => ExecEnginesCons(e, rest, i + 1, st', mem, enablePause);
      }
    }
  }

  /** step skips the `debug` entry of a bundle. */
  lemma DebugIgnored(slots: seq<Slot>, rest: Bundle, c: CoreVal, mem: seq<int>, enablePause: bool)
    ensures StepSpec([(Debug, slots)] + rest, c, mem, enablePause) == StepSpec(rest, c, mem, enablePause)
  {
    ExecEnginesCons((Debug, slots), rest, 0, StepState(c, [], []), mem, enablePause);
  }

  /** An engine given more slots than SLOT_LIMITS allows raises, as does a
      key that is not an engine; nothing is committed. */
  lemma OverLimitRaises(e: Engine, slots: seq<Slot>, rest: Bundle, c: CoreVal, mem: seq<int>, enablePause: bool)
    requires e != Debug
    ensures SlotLimit(e).None? ==> StepSpec([(e, slots)] + rest, c, mem, enablePause) == Err(UnknownEngine)
    ensures SlotLimit(e).Some? && |slots| > SlotLimit(e).value ==> StepSpec([(e, slots)] + rest, c, mem, enablePause) == Err(SlotLimitExceeded)
  {
    assert ([(e, slots)] + rest)[0] == (e, slots);
  }

  /** Which engines exist and how many slots each may issue. */
  lemma SlotLimits()
    ensures SlotLimit(AluEngine) == Some(12) && SlotLimit(ValuEngine) == Some(6)
    ensures SlotLimit(LoadEngine) == Some(2) && SlotLimit(StoreEngine) == Some(2) && SlotLimit(FlowEngine) == Some(1)
    ensures SlotLimit(Debug).None? && SlotLimit(OtherEngine).None?
  {
  }

  // ---------------------------------------------------------------------
  // Cores and run
  // ---------------------------------------------------------------------

  /** A sweep leaves every core that is not RUNNING as it was. */
  lemma {:induction false} SweepKeepsIdle(program: seq<Bundle>, cores: seq<CoreVal>, mem: seq<int>, enablePause: bool, i: nat)
    requires i <= |cores|
    ensures var r := SweepFrom(program, cores, mem, enablePause, i);
      r.Ok? ==> forall j :: 0 <= j < |cores| && (j < i || cores[j].state != Running) ==> r.value.0[j] == cores[j]
    decreases |cores| - i
  {
    if i < |cores| {
      match CoreTurn(program, cores[i], mem, enablePause)
      case Err(_) =>
      case Ok((c, mem')) =>
        SweepKeepsIdle(program, cores[i := c], mem', enablePause, i + 1);
    }
  }

  /** Once run's loop ends by itself, no core is RUNNING; a STOPPED core is
      never stepped again. */
  lemma {:induction false} StoppedStaysStopped(program: seq<Bundle>, m: MachineVal, enablePause: bool, fuel: nat, j: nat)
    requires j < |m.cores| && m.cores[j].state == Stopped
    ensures var r := RunLoop(program, m, enablePause, fuel);
      r.Ok? ==> |r.value.0.cores| == |m.cores| && r.value.0.cores[j] == m.cores[j]
    decreases fuel
  {
    RunLoopOutcome(program, m, enablePause, fuel);
    if AnyRunning(m.cores) && fuel > 0 {
      match SweepFrom(program, m.cores, m.mem, enablePause, 0)
      case Err(_) =>
      case Ok((cores, mem)) =>
        SweepKeepsIdle(program, m.cores, m.mem, enablePause, 0);
        StoppedStaysStopped(program, MachineVal(cores, mem, m.cycle + 1), enablePause, fuel - 1, j);
    }
  }

  /** A core that halts still commits the rest of its bundle. */
  lemma HaltCommits(c: CoreVal, mem: seq<int>, enablePause: bool, dest: nat, v: int)
    requires dest < |c.scratch|
    ensures var r := StepSpec([(LoadEngine, [Slot(Const, [dest, v])]), (FlowEngine, [Slot(Halt, [])])], c, mem, enablePause);
      && r.Ok?
      && r.value.0 == c.(scratch := c.scratch[dest := v], state := Stopped)
      && r.value.1 == mem
  {
    var load, flow := [Slot(Const, [dest, v])], [Slot(Halt, [])];
    var instr := [(LoadEngine, load), (FlowEngine, flow)];
    var st0, st1 := StepState(c, [], []), StepState(c, [(dest, v)], []);
    var st2 := StepState(c.(state := Stopped), [(dest, v)], []);
    assert Put([], dest, v) == [(dest, v)];
    assert LoadSlot(c.scratch, mem, load[0], []) == Ok([(dest, v)]);
    assert ExecSlot(LoadEngine, load[0], st0, mem, enablePause) == Ok(st1);
    assert ExecSlots(LoadEngine, load, 0, st0, mem, enablePause) == Ok(st1);
    assert ExecSlot(FlowEngine, flow[0], st1, mem, enablePause) == Ok(st2);
    assert ExecSlots(FlowEngine, flow, 0, st1, mem, enablePause) == Ok(st2);
    assert ExecEngines(instr, 1, st1, mem, enablePause) == Ok(st2);
    assert ExecEngines(instr, 0, st0, mem, enablePause) == Ok(st2);
    assert PyIndex(|c.scratch|, dest) == Some(dest);
    assert CommitFrom(c.scratch[dest := v], st2.sw, 1) == Ok(c.scratch[dest := v]);
    assert Commit(c.scratch, st2.sw) == Ok(c.scratch[dest := v]);
    assert Commit(mem, []) == Ok(mem);
  }

  /** `pause` only takes effect when pausing is enabled. */
  lemma PauseOnlyWhenEnabled(c: CoreVal, enablePause: bool)
    ensures FlowControl(c, Slot(Pause, []), enablePause) == Ok(if enablePause then c.(state := Paused) else c)
  {
  }

  /** cdiv(a, b) is the ceiling of a / b for a positive divisor: the least
      multiple of b at or above a is b * cdiv(a, b). */
  lemma CdivIsCeiling(a: int, b: int)
    requires b > 0
    ensures b * (Cdiv(a, b) - 1) < a <= b * Cdiv(a, b)
  {
    FloorDivBounds(a + b - 1, b);
  }

  /** For a negative divisor cdiv is not a ceiling: cdiv(1, -1) is 1, while
      1 / -1 is -1. */
  lemma CdivNegativeDivisor()
    ensures Cdiv(1, -1) == 1
  {
  }
}
