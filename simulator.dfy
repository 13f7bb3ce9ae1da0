/** The multicore VLIW/SIMD machine of perf/problem.py.

    The first half gives the semantics as functions on values: an engine
    slot, a whole bundle (two-phase: every slot reads the state from before
    the bundle, writes are buffered and committed scratch first, then
    memory), one core's turn, one sweep over all cores, and `run` with a
    bound on the number of sweeps. The second half is the simulator itself:
    classes Core and Machine whose methods update the cores and the shared
    memory in place and are proved to follow those functions. */
module Simulator {
  import opened Common
  import opened PyInt

  const VLEN: nat := 8
  const N_CORES: nat := 4
  const SCRATCH_SIZE: nat := 1536

  /** The keys of a bundle: the five engines, "debug" (skipped by step),
      and any other name. */
  datatype Engine = AluEngine | ValuEngine | LoadEngine | StoreEngine | FlowEngine | Debug | OtherEngine

  /** The opcodes the engines know; OtherOp stands for any other string. */
  datatype Op =
    | Plus | Minus | Times | FloorDivide | CeilDivide | BitXor | BitAnd | BitOr
    | ShiftL | ShiftR | Modulo | Less | Equal
    | Vbroadcast
    | LoadWord | LoadOffset | Vload | Const
    | StoreWord | Vstore
    | Select | Vselect | Halt | Pause | TraceWrite | CondJump | CondJumpRel | Jump | JumpIndirect | CoreId
    | OtherOp(name: string)

  /** The string the source writes for each opcode. */
  function OpName(o: Op): string
  {
    match o
    case Plus => "+"
    case Minus => "-"
    case Times => "*"
    case FloorDivide => "//"
    case CeilDivide => "cdiv"
    case BitXor => "^"
    case BitAnd => "&"
    case BitOr => "|"
    case ShiftL => "<<"
    case ShiftR => ">>"
    case Modulo => "%"
    case Less => "<"
    case Equal => "=="
    case Vbroadcast => "vbroadcast"
    case LoadWord => "load"
    case LoadOffset => "load_offset"
    case Vload => "vload"
    case Const => "const"
    case StoreWord => "store"
    case Vstore => "vstore"
    case Select => "select"
    case Vselect => "vselect"
    case Halt => "halt"
    case Pause => "pause"
    case TraceWrite => "trace_write"
    case CondJump => "cond_jump"
    case CondJumpRel => "cond_jump_rel"
    case Jump => "jump"
    case JumpIndirect => "jump_indirect"
    case CoreId => "coreid"
    case OtherOp(name) => name
  }

  /** SLOT_LIMITS; None for a name that is not an engine (a KeyError). */
  function SlotLimit(engine: Engine): Option<nat>
  {
    if engine == AluEngine then Some(12)
    else if engine == ValuEngine then Some(6)
    else if engine == LoadEngine then Some(2)
    else if engine == StoreEngine then Some(2)
    else if engine == FlowEngine then Some(1)
    else None
  }

  /** A slot is the tuple (op, operand, ...): the opcode and its operands. */
  datatype Slot = Slot(op: Op, args: seq<int>)

  /** An instruction bundle: the items of the engine -> slots dict, in
      insertion order. */
  type Bundle = seq<(Engine, seq<Slot>)>

  datatype RunState = Running | Paused | Stopped

  /** The exceptions the simulator can raise. */
  datatype Error =
    | NotImplemented      // unknown opcode (NotImplementedError)
    | IndexOutOfRange     // list index out of range (IndexError)
    | ZeroDivision        // // , % or cdiv by zero (ZeroDivisionError)
    | NegativeShift       // << or >> by a negative count (ValueError)
    | WrongArity          // an alu slot without exactly 3 operands (TypeError)
    | UnknownEngine       // engine name missing from SLOT_LIMITS (KeyError)
    | SlotLimitExceeded   // more slots than the engine's limit (AssertionError)

  /** The value of a Core: id, scratch words, trace buffer, pc and state. */
  datatype CoreVal = CoreVal(id: int, scratch: seq<int>, traceBuf: seq<int>, pc: int, state: RunState)

  /** A write buffer: the items of a Python dict address -> value, in
      insertion order. */
  type Writes = seq<(int, int)>

  // ---------------------------------------------------------------------
  // Write buffers (Python dicts)
  // ---------------------------------------------------------------------

  /** Position of key k in the buffer, if present. */
  function Find(w: Writes, k: int): (r: Option<nat>)
    ensures r.Some? ==> r.value < |w| && w[r.value].0 == k
  {
    if |w| == 0 then None
    else if w[0].0 == k then Some(0)
    else match Find(w[1..], k)
      case None => None
      case Some(j) => Some(j + 1)
  }

  /** Find gives the first position holding k, or None when k is absent. */
  lemma {:induction false} FindSpec(w: Writes, k: int)
    ensures var r := Find(w, k);
      && (r.Some? ==> r.value < |w| && w[r.value].0 == k && forall j :: 0 <= j < r.value ==> w[j].0 != k)
      && (r.None? ==> forall j :: 0 <= j < |w| ==> w[j].0 != k)
  {
    if |w| > 0 && w[0].0 != k {
      FindSpec(w[1..], k);
    }
  }

  /** d[k], or None when k is not a key. */
  function Lookup(w: Writes, k: int): Option<int>
  {
    match Find(w, k)
    case None => None
    case Some(j) => Some(w[j].1)
  }

  /** d[k] = v: a new key goes at the end, an existing key keeps its place. */
  function Put(w: Writes, k: int, v: int): Writes
  {
    match Find(w, k)
    case Some(j) => w[j := (k, v)]
    case None => w + [(k, v)]
  }

  /** After d[k] = v, d[k] is v and every other key keeps its value. */
  lemma PutLookup(w: Writes, k: int, v: int)
    ensures Lookup(Put(w, k, v), k) == Some(v)
    ensures forall k' :: k' != k ==> Lookup(Put(w, k, v), k') == Lookup(w, k')
  {
    var r := Put(w, k, v);
    FindSpec(w, k);
    match Find(w, k)
    case Some(j) =>
      forall k' | k' != k ensures Lookup(r, k') == Lookup(w, k') {
        FindSameKeys(w, r, k');
        FindSpec(w, k');
      }
      FindSameKeys(w, r, k);
    case None =>
      assert r[|w|].0 == k;
      FindSpec(r, k);
      forall k' | k' != k ensures Lookup(r, k') == Lookup(w, k') {
        FindAppend(w, (k, v), k');
      }
      forall k' | k' != k ensures Find(r, k') == Find(w, k') { FindAppend(w, (k, v), k'); }
  }

  lemma FindSameKeys(w1: Writes, w2: Writes, k: int)
    requires |w1| == |w2| && forall j :: 0 <= j < |w1| ==> w1[j].0 == w2[j].0
    ensures Find(w1, k) == Find(w2, k)
  {
    if |w1| > 0 && w1[0].0 != k {
      FindSameKeys(w1[1..], w2[1..], k);
    }
  }

  lemma FindAppend(w: Writes, e: (int, int), k: int)
    requires e.0 != k
    ensures Find(w + [e], k) == Find(w, k)
  {
    if |w| == 0 {
      assert Find([e], k) == None by { assert ([e] + [])[1..] == []; }
    } else if w[0].0 != k {
      assert (w + [e])[1..] == w[1..] + [e];
      FindAppend(w[1..], e, k);
    }
  }

  /** The commit loop `for addr, val in writes.items(): lst[addr] = val`,
      from item k on. */
  function CommitFrom(s: seq<int>, w: Writes, k: nat): (r: Result<seq<int>, Error>)
    ensures r.Ok? ==> |r.value| == |s|
    decreases |w| - k
  {
    if k >= |w| then Ok(s)
    else match PyIndex(|s|, w[k].0)
      case None => Err(IndexOutOfRange)
      case Some(p) => CommitFrom(s[p := w[k].1], w, k + 1)
  }

  function Commit(s: seq<int>, w: Writes): Result<seq<int>, Error>
  {
    CommitFrom(s, w, 0)
  }

  /** lst[i] */
  function Read(s: seq<int>, i: int): Result<int, Error>
  {
    match PyIndex(|s|, i)
    case None => Err(IndexOutOfRange)
    case Some(j) => Ok(s[j])
  }

  // ---------------------------------------------------------------------
  // Engines
  // ---------------------------------------------------------------------

  /** cdiv(a, b) = (a + b - 1) // b */
  function Cdiv(a: int, b: int): int
    requires b != 0
  {
    FloorDiv(a + b - 1, b)
  }

  predicate IsAluOp(op: Op)
  {
    op in {Plus, Minus, Times, FloorDivide, CeilDivide, BitXor, BitAnd, BitOr, ShiftL, ShiftR, Modulo, Less, Equal}
  }

  /** Python's value of `a op b`, before the reduction mod 2**32. */
  function AluOp(op: Op, a: int, b: int): Result<int, Error>
  {
    if op == Plus then Ok(a + b)
    else if op == Minus then Ok(a - b)
    else if op == Times then Ok(a * b)
    else if op == FloorDivide then (if b == 0 then Err(ZeroDivision) else Ok(FloorDiv(a, b)))
    else if op == CeilDivide then (if b == 0 then Err(ZeroDivision) else Ok(Cdiv(a, b)))
    else if op == BitXor then Ok(Xor(a, b))
    else if op == BitAnd then Ok(And(a, b))
    else if op == BitOr then Ok(Or(a, b))
    else if op == ShiftL then (if b < 0 then Err(NegativeShift) else Ok(ShiftLeft(a, b)))
    else if op == ShiftR then (if b < 0 then Err(NegativeShift) else Ok(ShiftRight(a, b)))
    else if op == Modulo then (if b == 0 then Err(ZeroDivision) else Ok(PyMod(a, b)))
    else if op == Less then Ok(if a < b then 1 else 0)
    else if op == Equal then Ok(if a == b then 1 else 0)
    else Err(NotImplemented)
  }

  /** The word an alu slot stores: `res % (2**32)`. */
  function AluResult(op: Op, a: int, b: int): Result<int, Error>
  {
    var res :- AluOp(op, a, b);
    Ok(res % WORD)
  }

  /** Every alu result is a 32-bit word; the slot raises exactly for an
      unknown opcode, a zero divisor or a negative shift count; comparisons
      give 0 or 1 and + wraps around. */
  lemma AluResultSpec(op: Op, a: int, b: int)
    ensures var r := AluResult(op, a, b);
      && (r.Ok? ==> 0 <= r.value < WORD)
      && (r.Ok? <==> IsAluOp(op) && !(op in {FloorDivide, CeilDivide, Modulo} && b == 0) && !(op in {ShiftL, ShiftR} && b < 0))
      && (!IsAluOp(op) ==> r == Err(NotImplemented))
      && (op == Less ==> r == Ok(if a < b then 1 else 0))
      && (op == Equal ==> r == Ok(if a == b then 1 else 0))
      && (op == Plus ==> r == Ok((a + b) % WORD))
  {
  }

  /** alu(core, op, dest, a1, a2) */
  function AluSlot(scratch: seq<int>, op: Op, dest: int, a1: int, a2: int, w: Writes): Result<Writes, Error>
  {
    var x :- Read(scratch, a1);
    var y :- Read(scratch, a2);
    var res :- AluResult(op, x, y);
    Ok(Put(w, dest, res))
  }

  /** The lanes i.. of `vbroadcast dest, src`. */
  function BroadcastFrom(scratch: seq<int>, dest: int, src: int, w: Writes, i: nat): Result<Writes, Error>
    decreases VLEN - i
  {
    if i >= VLEN then Ok(w)
    else
      var v :- Read(scratch, src);
      BroadcastFrom(scratch, dest, src, Put(w, dest + i, v), i + 1)
  }

  /** The lanes i.. of a vector alu slot (op, dest, a1, a2). */
  function ValuFrom(scratch: seq<int>, op: Op, dest: int, a1: int, a2: int, w: Writes, i: nat): Result<Writes, Error>
    decreases VLEN - i
  {
    if i >= VLEN then Ok(w)
    else
      var w' :- AluSlot(scratch, op, dest + i, a1 + i, a2 + i, w);
      ValuFrom(scratch, op, dest, a1, a2, w', i + 1)
  }

  lemma ValuFromStep(scratch: seq<int>, op: Op, dest: int, a1: int, a2: int, w: Writes, i: nat)
    requires i < VLEN
    ensures ValuFrom(scratch, op, dest, a1, a2, w, i) == match AluSlot(scratch, op, dest + i, a1 + i, a2 + i, w)
      case Err(e) => Err(e)
      case Ok(w') => ValuFrom(scratch, op, dest, a1, a2, w', i + 1)
  {
  }

  /** valu(core, *slot) */
  function ValuSlot(scratch: seq<int>, slot: Slot, w: Writes): Result<Writes, Error>
  {
    if slot.op == Vbroadcast && |slot.args| == 2 then
      BroadcastFrom(scratch, slot.args[0], slot.args[1], w, 0)
    else if |slot.args| == 3 then
      ValuFrom(scratch, slot.op, slot.args[0], slot.args[1], slot.args[2], w, 0)
    else Err(NotImplemented)
  }

  /** The lanes i.. of `vload dest, addr` once addr's word a is read. */
  function VloadFrom(mem: seq<int>, dest: int, a: int, w: Writes, i: nat): Result<Writes, Error>
    decreases VLEN - i
  {
    if i >= VLEN then Ok(w)
    else
      var v :- Read(mem, a + i);
      VloadFrom(mem, dest, a, Put(w, dest + i, v), i + 1)
  }

  /** load(core, *slot) */
  function LoadSlot(scratch: seq<int>, mem: seq<int>, slot: Slot, w: Writes): Result<Writes, Error>
  {
    var args := slot.args;
    if slot.op == LoadWord && |args| == 2 then
      var a :- Read(scratch, args[1]);
      var v :- Read(mem, a);
      Ok(Put(w, args[0], v))
    else if slot.op == LoadOffset && |args| == 3 then
      var a :- Read(scratch, args[1] + args[2]);
      var v :- Read(mem, a);
      Ok(Put(w, args[0] + args[2], v))
    else if slot.op == Vload && |args| == 2 then
      var a :- Read(scratch, args[1]);
      VloadFrom(mem, args[0], a, w, 0)
    else if slot.op == Const && |args| == 2 then
      Ok(Put(w, args[0], args[1]))
    else Err(NotImplemented)
  }

  /** The lanes i.. of `vstore addr, src` once addr's word a is read. */
  function VstoreFrom(scratch: seq<int>, a: int, src: int, mw: Writes, i: nat): Result<Writes, Error>
    decreases VLEN - i
  {
    if i >= VLEN then Ok(mw)
    else
      var v :- Read(scratch, src + i);
      VstoreFrom(scratch, a, src, Put(mw, a + i, v), i + 1)
  }

  /** store(core, *slot) */
  function StoreSlot(scratch: seq<int>, slot: Slot, mw: Writes): Result<Writes, Error>
  {
    var args := slot.args;
    if slot.op == StoreWord && |args| == 2 then
      var a :- Read(scratch, args[0]);
      var v :- Read(scratch, args[1]);
      Ok(Put(mw, a, v))
    else if slot.op == Vstore && |args| == 2 then
      var a :- Read(scratch, args[0]);
      VstoreFrom(scratch, a, args[1], mw, 0)
    else Err(NotImplemented)
  }

  /** The lanes i.. of `vselect dest, cond, a, b`. */
  function VselectFrom(scratch: seq<int>, dest: int, cond: int, a: int, b: int, w: Writes, i: nat): Result<Writes, Error>
    decreases VLEN - i
  {
    if i >= VLEN then Ok(w)
    else
      var c :- Read(scratch, cond + i);
      var v :- if c != 0 then Read(scratch, a + i) else Read(scratch, b + i);
      VselectFrom(scratch, dest, cond, a, b, Put(w, dest + i, v), i + 1)
  }

  /** The flow opcodes that write scratch through the buffer. */
  predicate IsFlowWrite(op: Op)
  {
    op in {Select, Vselect, CoreId}
  }

  /** flow(core, *slot): select, vselect and coreid go through the write
      buffer; the other opcodes change the core's control state at once. */
  function FlowSlot(c: CoreVal, slot: Slot, w: Writes, enablePause: bool): Result<(CoreVal, Writes), Error>
  {
    if IsFlowWrite(slot.op) then
      var w' :- FlowWrite(c, slot, w);
      Ok((c, w'))
    else
      var c' :- FlowControl(c, slot, enablePause);
      Ok((c', w))
  }

  function FlowWrite(c: CoreVal, slot: Slot, w: Writes): Result<Writes, Error>
  {
    var args := slot.args;
    if slot.op == Select && |args| == 4 then
      var cv :- Read(c.scratch, args[1]);
      var v :- if cv != 0 then Read(c.scratch, args[2]) else Read(c.scratch, args[3]);
      Ok(Put(w, args[0], v))
    else if slot.op == Vselect && |args| == 4 then
      VselectFrom(c.scratch, args[0], args[1], args[2], args[3], w, 0)
    else if slot.op == CoreId && |args| == 1 then
      Ok(Put(w, args[0], c.id))
    else Err(NotImplemented)
  }

  function FlowControl(c: CoreVal, slot: Slot, enablePause: bool): Result<CoreVal, Error>
  {
    var args := slot.args;
    if slot.op == Halt && |args| == 0 then
      Ok(c.(state := Stopped))
    else if slot.op == Pause && |args| == 0 then
      Ok(if enablePause then c.(state := Paused) else c)
    else if slot.op == TraceWrite && |args| == 1 then
      var v :- Read(c.scratch, args[0]);
      Ok(c.(traceBuf := c.traceBuf + [v]))
    else if slot.op == CondJump && |args| == 2 then
      var cv :- Read(c.scratch, args[0]);
      Ok(if cv != 0 then c.(pc := args[1]) else c)
    else if slot.op == CondJumpRel && |args| == 2 then
      var cv :- Read(c.scratch, args[0]);
      Ok(if cv != 0 then c.(pc := c.pc + args[1]) else c)
    else if slot.op == Jump && |args| == 1 then
      Ok(c.(pc := args[0]))
    else if slot.op == JumpIndirect && |args| == 1 then
      var t :- Read(c.scratch, args[0]);
      Ok(c.(pc := t))
    else Err(NotImplemented)
  }

  // ---------------------------------------------------------------------
  // A bundle, a core's turn, a sweep, run
  // ---------------------------------------------------------------------

  /** The state inside `step`: the core (whose control fields flow slots
      change at once) and the two write buffers. */
  datatype StepState = StepState(core: CoreVal, sw: Writes, mw: Writes)

  /** ENGINE_FNS[name](core, *slot) for a valid engine name. Every engine
      reads the scratch and memory as they were before the bundle. */
  function ExecSlot(name: Engine, slot: Slot, st: StepState, mem: seq<int>, enablePause: bool): Result<StepState, Error>
  {
    if name == AluEngine then
      if |slot.args| != 3 then Err(WrongArity)
      else
        var w :- AluSlot(st.core.scratch, slot.op, slot.args[0], slot.args[1], slot.args[2], st.sw);
        Ok(st.(sw := w))
    else if name == ValuEngine then
      var w :- ValuSlot(st.core.scratch, slot, st.sw);
      Ok(st.(sw := w))
    else if name == LoadEngine then
      var w :- LoadSlot(st.core.scratch, mem, slot, st.sw);
      Ok(st.(sw := w))
    else if name == StoreEngine then
      var w :- StoreSlot(st.core.scratch, slot, st.mw);
      Ok(st.(mw := w))
    else
      var (c, w) :- FlowSlot(st.core, slot, st.sw, enablePause);
      Ok(st.(core := c, sw := w))
  }

  /** The slots j.. of one engine. */
  function ExecSlots(name: Engine, slots: seq<Slot>, j: nat, st: StepState, mem: seq<int>, enablePause: bool): Result<StepState, Error>
    decreases |slots| - j
  {
    if j >= |slots| then Ok(st)
    else
      var st' :- ExecSlot(name, slots[j], st, mem, enablePause);
      ExecSlots(name, slots, j + 1, st', mem, enablePause)
  }

  /** The engines i.. of a bundle: `debug` is skipped, an unknown engine or
      too many slots raise. */
  function ExecEngines(instr: Bundle, i: nat, st: StepState, mem: seq<int>, enablePause: bool): Result<StepState, Error>
    decreases |instr| - i
  {
    if i >= |instr| then Ok(st)
    else
      var (name, slots) := instr[i];
      if name == Debug then ExecEngines(instr, i + 1, st, mem, enablePause)
      else match SlotLimit(name)
        case None => Err(UnknownEngine)
        case Some(limit) =>
          if |slots| > limit then Err(SlotLimitExceeded)
          else
            var st' :- ExecSlots(name, slots, 0, st, mem, enablePause);
            ExecEngines(instr, i + 1, st', mem, enablePause)
  }

  /** step(instr, core): evaluate every slot against the state before the
      bundle, then commit the scratch writes, then the memory writes. */
  function StepSpec(instr: Bundle, c: CoreVal, mem: seq<int>, enablePause: bool): Result<(CoreVal, seq<int>), Error>
  {
    var st :- ExecEngines(instr, 0, StepState(c, [], []), mem, enablePause);
    var scratch :- Commit(st.core.scratch, st.sw);
    var mem' :- Commit(mem, st.mw);
    Ok((st.core.(scratch := scratch), mem'))
  }

  /** One core's turn in a sweep of `run`: skip it unless RUNNING, stop it
      once pc >= len(program), else fetch, advance pc, and step. */
  function CoreTurn(program: seq<Bundle>, c: CoreVal, mem: seq<int>, enablePause: bool): Result<(CoreVal, seq<int>), Error>
  {
    if c.state != Running then Ok((c, mem))
    else if c.pc >= |program| then Ok((c.(state := Stopped), mem))
    else match PyIndex(|program|, c.pc)
      case None => Err(IndexOutOfRange)
      case Some(p) => StepSpec(program[p], c.(pc := c.pc + 1), mem, enablePause)
  }

  /** The turns of cores i.., in index order, threading the shared memory. */
  function SweepFrom(program: seq<Bundle>, cores: seq<CoreVal>, mem: seq<int>, enablePause: bool, i: nat): (r: Result<(seq<CoreVal>, seq<int>), Error>)
    ensures r.Ok? ==> |r.value.0| == |cores|
    decreases |cores| - i
  {
    if i >= |cores| then Ok((cores, mem))
    else
      var (c, mem') :- CoreTurn(program, cores[i], mem, enablePause);
      SweepFrom(program, cores[i := c], mem', enablePause, i + 1)
  }

  datatype MachineVal = MachineVal(cores: seq<CoreVal>, mem: seq<int>, cycle: nat)

  predicate AnyRunning(cores: seq<CoreVal>)
  {
    exists i :: 0 <= i < |cores| && cores[i].state == Running
  }

  /** The first loop of run: PAUSED cores become RUNNING. */
  function Resume(cores: seq<CoreVal>): (r: seq<CoreVal>)
    ensures |r| == |cores|
    ensures forall i :: 0 <= i < |r| ==> r[i].state != Paused
    ensures forall i :: 0 <= i < |r| ==> r[i] == (if cores[i].state == Paused then cores[i].(state := Running) else cores[i])
  {
    seq(|cores|, i requires 0 <= i < |cores| =>
      if cores[i].state == Paused then cores[i].(state := Running) else cores[i])
  }

  /** The main loop of run, for at most `fuel` more sweeps. The flag says
      whether every core had left RUNNING (the loop ended by itself). */
  function RunLoop(program: seq<Bundle>, m: MachineVal, enablePause: bool, fuel: nat): Result<(MachineVal, bool), Error>
    decreases fuel
  {
    if !AnyRunning(m.cores) then Ok((m, true))
    else if fuel == 0 then Ok((m, false))
    else
      var (cores, mem) :- SweepFrom(program, m.cores, m.mem, enablePause, 0);
      RunLoop(program, MachineVal(cores, mem, m.cycle + 1), enablePause, fuel - 1)
  }

  /** When the loop ends by itself no core is RUNNING; otherwise it ran
      every sweep it was allowed. Either way one cycle is counted per sweep
      and the cores stay as many. */
  lemma {:induction false} RunLoopOutcome(program: seq<Bundle>, m: MachineVal, enablePause: bool, fuel: nat)
    ensures match RunLoop(program, m, enablePause, fuel)
      case Ok((m', done)) =>
        (done ==> !AnyRunning(m'.cores))
        && (!done ==> m'.cycle == m.cycle + fuel)
        && m.cycle <= m'.cycle <= m.cycle + fuel
        && |m'.cores| == |m.cores|
      case Err(_) => true
    decreases fuel
  {
    if AnyRunning(m.cores) && fuel > 0 {
      match SweepFrom(program, m.cores, m.mem, enablePause, 0)
      case Err(_) =>
      case Ok((cores, mem)) =>
        RunLoopOutcome(program, MachineVal(cores, mem, m.cycle + 1), enablePause, fuel - 1);
    }
  }

  function RunSpec(program: seq<Bundle>, m: MachineVal, enablePause: bool, fuel: nat): Result<(MachineVal, bool), Error>
  {
    RunLoop(program, m.(cores := Resume(m.cores)), enablePause, fuel)
  }

  // ---------------------------------------------------------------------
  // The simulator's objects
  // ---------------------------------------------------------------------

  /** r reports the outcome s, and on success v holds s's value. */
  predicate Agrees<T(==)>(r: Outcome<Error>, s: Result<T, Error>, v: T)
  {
    (r.Pass? ==> s == Ok(v)) && (r.Fail? ==> s == Err(r.error))
  }

  /** One core: its own scratch space, trace buffer, pc and run state. */
  class Core {
    const id: int
    var scratch: seq<int>
    var traceBuf: seq<int>
    var pc: int
    var state: RunState

    function Val(): CoreVal
      reads this
    {
      CoreVal(id, scratch, traceBuf, pc, state)
    }

    /** A fresh core: zeroed scratch, empty trace, pc 0, RUNNING. */
    constructor(id: int, scratchSize: nat)
      ensures Val() == CoreVal(id, seq(scratchSize, _ => 0), [], 0, Running)
    {
      this.id := id;
      scratch := seq(scratchSize, _ => 0);
      traceBuf := [];
      pc := 0;
      state := Running;
    }
  }

  /** The machine: its cores, the shared memory, the program and the write
      buffers of the bundle being executed. */
  class Machine {
    const cores: seq<Core>
    var mem: seq<int>
    const program: seq<Bundle>
    var cycle: nat
    var enablePause: bool
    var scratchWrite: Writes
    var memWrite: Writes

    /** Every core is a separate object. */
    ghost predicate Valid()
      reads this
    {
      forall i, j :: 0 <= i < j < |cores| ==> cores[i] != cores[j]
    }

    function CoreVals(): seq<CoreVal>
      reads cores
    {
      seq(|cores|, i reads cores requires 0 <= i < |cores| => cores[i].Val())
    }

    function Val(): MachineVal
      reads this, cores
    {
      MachineVal(CoreVals(), mem, cycle)
    }

    /** Machine(mem_dump, program, debug_info, n_cores, scratch_size). */
    constructor(memDump: seq<int>, program: seq<Bundle>, nCores: nat, scratchSize: nat)
      ensures Valid() && enablePause
      ensures Val() == MachineVal(seq(nCores, i => CoreVal(i, seq(scratchSize, _ => 0), [], 0, Running)), memDump, 0)
      ensures fresh(cores)
    {
      var cs: seq<Core> := [];
      for i := 0 to nCores
        invariant |cs| == i
        invariant forall j :: 0 <= j < i ==> fresh(cs[j]) && cs[j].Val() == CoreVal(j, seq(scratchSize, _ => 0), [], 0, Running)
        invariant forall j, k :: 0 <= j < k < i ==> cs[j] != cs[k]
      {
        var c := new Core(i, scratchSize);
        cs := cs + [c];
      }
      cores := cs;
      mem := memDump;
      this.program := program;
      cycle := 0;
      enablePause := true;
      scratchWrite := [];
      memWrite := [];
    }

    /** alu(core, op, dest, a1, a2): reads both operands, buffers the
        reduced result for dest. */
    method Alu(core: Core, op: Op, dest: int, a1: int, a2: int) returns (r: Outcome<Error>)
      modifies this`scratchWrite
      ensures Agrees(r, AluSlot(core.scratch, op, dest, a1, a2, old(scratchWrite)), scratchWrite)
    {
      var x := Read(core.scratch, a1);
      if x.Err? { return Fail(x.error); }
      var y := Read(core.scratch, a2);
      if y.Err? { return Fail(y.error); }
      var res := AluResult(op, x.value, y.value);
      if res.Err? { return Fail(res.error); }
      scratchWrite := Put(scratchWrite, dest, res.value);
      r := Pass;
    }

    /** valu(core, *slot): vbroadcast, or any alu opcode lane by lane. */
    method Valu(core: Core, slot: Slot) returns (r: Outcome<Error>)
      modifies this`scratchWrite
      ensures Agrees(r, ValuSlot(core.scratch, slot, old(scratchWrite)), scratchWrite)
    {
      var args := slot.args;
      if slot.op == Vbroadcast && |args| == 2 {
        r := Broadcast(core, args[0], args[1]);
      } else if |args| == 3 {
        r := ValuLanes(core, slot.op, args[0], args[1], args[2]);
      } else {
        r := Fail(NotImplemented);
      }
    }

    method Broadcast(core: Core, dest: int, src: int) returns (r: Outcome<Error>)
      modifies this`scratchWrite
      ensures Agrees(r, BroadcastFrom(core.scratch, dest, src, old(scratchWrite), 0), scratchWrite)
    {
      for i := 0 to VLEN
        invariant BroadcastFrom(core.scratch, dest, src, scratchWrite, i)
               == BroadcastFrom(core.scratch, dest, src, old(scratchWrite), 0)
      {
        var v := Read(core.scratch, src);
        if v.Err? { return Fail(v.error); }
        scratchWrite := Put(scratchWrite, dest + i, v.value);
      }
      r := Pass;
    }

    method ValuLanes(core: Core, op: Op, dest: int, a1: int, a2: int) returns (r: Outcome<Error>)
      modifies this`scratchWrite
      ensures Agrees(r, ValuFrom(core.scratch, op, dest, a1, a2, old(scratchWrite), 0), scratchWrite)
    {
      var scratch := core.scratch;
      for i := 0 to VLEN
        invariant ValuFrom(scratch, op, dest, a1, a2, scratchWrite, i)
               == ValuFrom(scratch, op, dest, a1, a2, old(scratchWrite), 0)
      {
        var lane := AluSlot(scratch, op, dest + i, a1 + i, a2 + i, scratchWrite);
        ValuFromStep(scratch, op, dest, a1, a2, scratchWrite, i);
        if lane.Err? { return Fail(lane.error); }
        scratchWrite := lane.value;
      }
      r := Pass;
    }

    /** load(core, *slot): load, load_offset, vload and const. */
    method Load(core: Core, slot: Slot) returns (r: Outcome<Error>)
      modifies this`scratchWrite
      ensures Agrees(r, LoadSlot(core.scratch, mem, slot, old(scratchWrite)), scratchWrite)
    {
      var args := slot.args;
      if slot.op == LoadWord && |args| == 2 {
        var a := Read(core.scratch, args[1]);
        if a.Err? { return Fail(a.error); }
        var v := Read(mem, a.value);
        if v.Err? { return Fail(v.error); }
        scratchWrite := Put(scratchWrite, args[0], v.value);
        r := Pass;
      } else if slot.op == LoadOffset && |args| == 3 {
        var a := Read(core.scratch, args[1] + args[2]);
        if a.Err? { return Fail(a.error); }
        var v := Read(mem, a.value);
        if v.Err? { return Fail(v.error); }
        scratchWrite := Put(scratchWrite, args[0] + args[2], v.value);
        r := Pass;
      } else if slot.op == Vload && |args| == 2 {
        var a := Read(core.scratch, args[1]);
        if a.Err? { return Fail(a.error); }
        for i := 0 to VLEN
          invariant VloadFrom(mem, args[0], a.value, scratchWrite, i)
                 == VloadFrom(mem, args[0], a.value, old(scratchWrite), 0)
        {
          var v := Read(mem, a.value + i);
          if v.Err? { return Fail(v.error); }
          scratchWrite := Put(scratchWrite, args[0] + i, v.value);
        }
        r := Pass;
      } else if slot.op == Const && |args| == 2 {
        scratchWrite := Put(scratchWrite, args[0], args[1]);
        r := Pass;
      } else {
        r := Fail(NotImplemented);
      }
    }

    /** store(core, *slot): store and vstore, into the memory buffer. */
    method Store(core: Core, slot: Slot) returns (r: Outcome<Error>)
      modifies this`memWrite
      ensures Agrees(r, StoreSlot(core.scratch, slot, old(memWrite)), memWrite)
    {
      var args := slot.args;
      if slot.op == StoreWord && |args| == 2 {
        var a := Read(core.scratch, args[0]);
        if a.Err? { return Fail(a.error); }
        var v := Read(core.scratch, args[1]);
        if v.Err? { return Fail(v.error); }
        memWrite := Put(memWrite, a.value, v.value);
        r := Pass;
      } else if slot.op == Vstore && |args| == 2 {
        var a := Read(core.scratch, args[0]);
        if a.Err? { return Fail(a.error); }
        for i := 0 to VLEN
          invariant VstoreFrom(core.scratch, a.value, args[1], memWrite, i)
                 == VstoreFrom(core.scratch, a.value, args[1], old(memWrite), 0)
        {
          var v := Read(core.scratch, args[1] + i);
          if v.Err? { return Fail(v.error); }
          memWrite := Put(memWrite, a.value + i, v.value);
        }
        r := Pass;
      } else {
        r := Fail(NotImplemented);
      }
    }

    /** flow(core, *slot) */
    method Flow(core: Core, slot: Slot) returns (r: Outcome<Error>)
      modifies this`scratchWrite, core`pc, core`state, core`traceBuf
      ensures Agrees(r, FlowSlot(old(core.Val()), slot, old(scratchWrite), enablePause), (core.Val(), scratchWrite))
    {
      if IsFlowWrite(slot.op) {
        r := FlowWriteM(core, slot);
      } else {
        r := FlowControlM(core, slot);
      }
    }

    /** select, vselect and coreid. */
    method FlowWriteM(core: Core, slot: Slot) returns (r: Outcome<Error>)
      modifies this`scratchWrite
      ensures Agrees(r, FlowWrite(core.Val(), slot, old(scratchWrite)), scratchWrite)
    {
      var args := slot.args;
      if slot.op == Select && |args| == 4 {
        var c := Read(core.scratch, args[1]);
        if c.Err? { return Fail(c.error); }
        var v := if c.value != 0 then Read(core.scratch, args[2]) else Read(core.scratch, args[3]);
        if v.Err? { return Fail(v.error); }
        scratchWrite := Put(scratchWrite, args[0], v.value);
        r := Pass;
      } else if slot.op == Vselect && |args| == 4 {
        r := VselectLanes(core, args[0], args[1], args[2], args[3]);
      } else if slot.op == CoreId && |args| == 1 {
        scratchWrite := Put(scratchWrite, args[0], core.id);
        r := Pass;
      } else {
        r := Fail(NotImplemented);
      }
    }

    method VselectLanes(core: Core, dest: int, cond: int, a: int, b: int) returns (r: Outcome<Error>)
      modifies this`scratchWrite
      ensures Agrees(r, VselectFrom(core.scratch, dest, cond, a, b, old(scratchWrite), 0), scratchWrite)
    {
      for i := 0 to VLEN
        invariant VselectFrom(core.scratch, dest, cond, a, b, scratchWrite, i)
               == VselectFrom(core.scratch, dest, cond, a, b, old(scratchWrite), 0)
      {
        var c := Read(core.scratch, cond + i);
        if c.Err? { return Fail(c.error); }
        var v := if c.value != 0 then Read(core.scratch, a + i) else Read(core.scratch, b + i);
        if v.Err? { return Fail(v.error); }
        scratchWrite := Put(scratchWrite, dest + i, v.value);
      }
      r := Pass;
    }

    /** halt, pause, trace_write and the jumps. */
    method FlowControlM(core: Core, slot: Slot) returns (r: Outcome<Error>)
      modifies core`pc, core`state, core`traceBuf
      ensures Agrees(r, FlowControl(old(core.Val()), slot, enablePause), core.Val())
    {
      var args := slot.args;
      if slot.op == Halt && |args| == 0 {
        core.state := Stopped;
        r := Pass;
      } else if slot.op == Pause && |args| == 0 {
        if enablePause {
          core.state := Paused;
        }
        r := Pass;
      } else if slot.op == TraceWrite && |args| == 1 {
        var v := Read(core.scratch, args[0]);
        if v.Err? { return Fail(v.error); }
        core.traceBuf := core.traceBuf + [v.value];
        r := Pass;
      } else if slot.op == CondJump && |args| == 2 {
        var c := Read(core.scratch, args[0]);
        if c.Err? { return Fail(c.error); }
        if c.value != 0 {
          core.pc := args[1];
        }
        r := Pass;
      } else if slot.op == CondJumpRel && |args| == 2 {
        var c := Read(core.scratch, args[0]);
        if c.Err? { return Fail(c.error); }
        if c.value != 0 {
          core.pc := core.pc + args[1];
        }
        r := Pass;
      } else if slot.op == Jump && |args| == 1 {
        core.pc := args[0];
        r := Pass;
      } else if slot.op == JumpIndirect && |args| == 1 {
        var t := Read(core.scratch, args[0]);
        if t.Err? { return Fail(t.error); }
        core.pc := t.value;
        r := Pass;
      } else {
        r := Fail(NotImplemented);
      }
    }

    ghost function State(core: Core): StepState
      reads this, core
    {
      StepState(core.Val(), scratchWrite, memWrite)
    }

    /** ENGINE_FNS[name](core, *slot) for an engine name in SLOT_LIMITS. */
    method Dispatch(name: Engine, slot: Slot, core: Core) returns (r: Outcome<Error>)
      modifies this`scratchWrite, this`memWrite, core`pc, core`state, core`traceBuf
      ensures Agrees(r, ExecSlot(name, slot, old(State(core)), mem, enablePause), State(core))
    {
      if name == AluEngine {
        if |slot.args| != 3 { return Fail(WrongArity); }
        r := Alu(core, slot.op, slot.args[0], slot.args[1], slot.args[2]);
      } else if name == ValuEngine {
        r := Valu(core, slot);
      } else if name == LoadEngine {
        r := Load(core, slot);
      } else if name == StoreEngine {
        r := Store(core, slot);
      } else {
        r := Flow(core, slot);
      }
    }

    /** step(instr, core): run every slot against the state before the
        bundle, then commit the scratch writes and the memory writes. */
    method Step(instr: Bundle, core: Core) returns (r: Outcome<Error>)
      modifies this`scratchWrite, this`memWrite, this`mem, core
      ensures Agrees(r, StepSpec(instr, old(core.Val()), old(mem), enablePause), (core.Val(), mem))
    {
      scratchWrite := [];
      memWrite := [];
      ghost var start := State(core);
      for i := 0 to |instr|
        invariant core.scratch == start.core.scratch && core.id == start.core.id && mem == old(mem)
        invariant ExecEngines(instr, i, State(core), mem, enablePause) == ExecEngines(instr, 0, start, mem, enablePause)
      {
        var (name, slots) := instr[i];
        if name != Debug {
          var limit := SlotLimit(name);
          if limit.None? { return Fail(UnknownEngine); }
          if |slots| > limit.value { return Fail(SlotLimitExceeded); }
          ghost var before := State(core);
          for j := 0 to |slots|
            invariant core.scratch == start.core.scratch && core.id == start.core.id && mem == old(mem)
            invariant ExecSlots(name, slots, j, State(core), mem, enablePause) == ExecSlots(name, slots, 0, before, mem, enablePause)
          {
            r := Dispatch(name, slots[j], core);
            if r.Fail? { return; }
          }
        }
      }
      ghost var st := State(core);
      assert ExecEngines(instr, 0, start, mem, enablePause) == Ok(st);
      for k := 0 to |scratchWrite|
        invariant scratchWrite == st.sw && memWrite == st.mw && mem == old(mem)
        invariant core.Val() == st.core.(scratch := core.scratch)
        invariant |core.scratch| == |start.core.scratch|
        invariant CommitFrom(core.scratch, scratchWrite, k) == Commit(start.core.scratch, scratchWrite)
      {
        var p := PyIndex(|core.scratch|, scratchWrite[k].0);
        if p.None? { return Fail(IndexOutOfRange); }
        core.scratch := core.scratch[p.value := scratchWrite[k].1];
      }
      ghost var scratch' := core.scratch;
      assert Commit(st.core.scratch, st.sw) == Ok(scratch');
      for k := 0 to |memWrite|
        invariant memWrite == st.mw && core.scratch == scratch' && core.Val() == st.core.(scratch := scratch')
        invariant |mem| == |old(mem)|
        invariant CommitFrom(mem, memWrite, k) == Commit(old(mem), memWrite)
      {
        var p := PyIndex(|mem|, memWrite[k].0);
        if p.None? { return Fail(IndexOutOfRange); }
        mem := mem[p.value := memWrite[k].1];
      }
      r := Pass;
    }

    /** One core's turn inside a sweep of run. */
    method Turn(core: Core) returns (r: Outcome<Error>)
      modifies this`scratchWrite, this`memWrite, this`mem, core
      ensures Agrees(r, CoreTurn(program, old(core.Val()), old(mem), enablePause), (core.Val(), mem))
    {
      if core.state != Running { return Pass; }
      if core.pc >= |program| {
        core.state := Stopped;
        return Pass;
      }
      var p := PyIndex(|program|, core.pc);
      if p.None? { return Fail(IndexOutOfRange); }
      var instr := program[p.value];
      core.pc := core.pc + 1;
      r := Step(instr, core);
    }

    /** any(c.state == RUNNING for c in self.cores) */
    method AnyCoreRunning() returns (b: bool)
      ensures b == AnyRunning(CoreVals())
    {
      b := false;
      for i := 0 to |cores|
        invariant b == exists j :: 0 <= j < i && CoreVals()[j].state == Running
      {
        assert CoreVals()[i].state == cores[i].state;
        if cores[i].state == Running {
          b := true;
        }
      }
    }

    /** The first loop of run: every PAUSED core becomes RUNNING. */
    method ResumeAll()
      requires Valid()
      modifies cores
      ensures CoreVals() == Resume(old(CoreVals()))
    {
      ghost var cs := CoreVals();
      for i := 0 to |cores|
        invariant forall j | 0 <= j < |cores| :: cores[j].Val() == if j < i then Resume(cs)[j] else cs[j]
      {
        label L:
        if cores[i].state == Paused {
          cores[i].state := Running;
        }
        assert forall j | 0 <= j < |cores| && j != i :: cores[j].Val() == old@L(cores[j].Val());
      }
      assert forall j | 0 <= j < |cores| :: CoreVals()[j] == Resume(cs)[j];
    }

    /** One pass of `for core in self.cores` inside run's loop. */
    method Sweep() returns (r: Outcome<Error>)
      requires Valid()
      modifies this`scratchWrite, this`memWrite, this`mem, cores
      ensures Agrees(r, SweepFrom(program, old(CoreVals()), old(mem), enablePause, 0), (CoreVals(), mem))
    {
      ghost var cs := CoreVals();
      for i := 0 to |cores|
        invariant SweepFrom(program, CoreVals(), mem, enablePause, i) == SweepFrom(program, cs, old(mem), enablePause, 0)
      {
        ghost var before := CoreVals();
        ghost var mem0 := mem;
        label L:
        r := Turn(cores[i]);
        assert forall j | 0 <= j < |cores| && j != i :: cores[j].Val() == old@L(cores[j].Val());
        if r.Fail? { return; }
        assert CoreVals() == before[i := cores[i].Val()];
        assert CoreTurn(program, before[i], mem0, enablePause) == Ok((cores[i].Val(), mem));
      }
      r := Pass;
    }

    /** One iteration of run's loop: a sweep, then the cycle count. */
    method Cycle() returns (r: Outcome<Error>)
      requires Valid()
      modifies this`scratchWrite, this`memWrite, this`mem, this`cycle, cores
      ensures Agrees(r, SweepFrom(program, old(CoreVals()), old(mem), enablePause, 0), (CoreVals(), mem))
      ensures r.Pass? ==> cycle == old(cycle) + 1
    {
      r := Sweep();
      if r.Pass? {
        cycle := cycle + 1;
      }
    }

    /** run(), for at most `fuel` sweeps over the cores: the result says
        whether the loop ended by itself. */
    method Run(fuel: nat) returns (r: Result<bool, Error>)
      requires Valid()
      modifies this, cores
      ensures match RunSpec(program, old(Val()), enablePause, fuel)
        case Ok((m, done)) => r == Ok(done) && Val() == m
        case Err(e) => r == Err(e)
    {
      ResumeAll();
      r := Loop(fuel);
    }

    /** The main loop of run: sweep while some core is RUNNING. */
    method Loop(fuel: nat) returns (r: Result<bool, Error>)
      requires Valid()
      modifies this`scratchWrite, this`memWrite, this`mem, this`cycle, cores
      ensures match RunLoop(program, old(Val()), enablePause, fuel)
        case Ok((m, done)) => r == Ok(done) && Val() == m
        case Err(e) => r == Err(e)
    {
      ghost var target := RunLoop(program, Val(), enablePause, fuel);
      var n := 0;
      while true
        invariant n <= fuel
        invariant RunLoop(program, Val(), enablePause, fuel - n) == target
        decreases fuel - n
      {
        var running := AnyCoreRunning();
        if !running {
          assert target == Ok((Val(), true));
          return Ok(true);
        }
        if n == fuel {
          assert target == Ok((Val(), false));
          return Ok(false);
        }
        ghost var m := Val();
        var o := Cycle();
        RunLoopSweep(program, m, enablePause, fuel - n);
        if o.Fail? { return Err(o.error); }
        n := n + 1;
      }
    }
  }

  /** A sweep-step of RunLoop while some core runs and fuel remains. */
  lemma RunLoopSweep(program: seq<Bundle>, m: MachineVal, enablePause: bool, fuel: nat)
    requires AnyRunning(m.cores) && fuel > 0
    ensures match SweepFrom(program, m.cores, m.mem, enablePause, 0)
      case Ok((cs, mem)) => RunLoop(program, m, enablePause, fuel) == RunLoop(program, MachineVal(cs, mem, m.cycle + 1), enablePause, fuel - 1)
      case Err(e) => RunLoop(program, m, enablePause, fuel) == Err(e)
  {
  }
}
