/** The kernel builder of perf/perf_takehome.py: a program under
    construction (one slot per bundle), a bump allocator over the scratch
    space, a pool of constants loaded once each, and the emitters for a
    counted loop, the hash and the counting test program. */
module KernelBuilder {
  import opened Common
  import opened PyInt
  import opened Simulator
  import opened Reference

  /** The assertion alloc_scratch raises: "Out of scratch space". */
  datatype BuildError = OutOfScratch

  /** {engine: [slot]}: a bundle holding one slot. */
  function Single(engine: Engine, slot: Slot): Bundle
  {
    [(engine, [slot])]
  }

  /** build(slots): one bundle per slot, in order. */
  function OneSlotEach(slots: seq<(Engine, Slot)>): (r: seq<Bundle>)
    ensures |r| == |slots|
    ensures forall i :: 0 <= i < |slots| ==> r[i] == Single(slots[i].0, slots[i].1)
  {
    if |slots| == 0 then [] else [Single(slots[0].0, slots[0].1)] + OneSlotEach(slots[1..])
  }

  /** Building two lists of slots one after the other builds their
      concatenation. */
  lemma OneSlotEachAppend(a: seq<(Engine, Slot)>, b: seq<(Engine, Slot)>)
    ensures OneSlotEach(a + b) == OneSlotEach(a) + OneSlotEach(b)
  {
  }

  /** The bundles of for_loop(iter, limit, body) emitted at position start,
      with cond the loop-condition word and one the address of constant 1:
      iter += 1; cond = limit < iter; leave when cond; the body; jump back. */
  function ForLoopBundles(iter: int, limit: int, cond: int, one: int, start: int, body: seq<Bundle>): seq<Bundle>
  {
    var end := start + 3 + |body| + 1;
    [ Single(AluEngine, Slot(Plus, [iter, one, iter])),
      Single(AluEngine, Slot(Less, [cond, limit, iter])),
      Single(FlowEngine, Slot(CondJump, [cond, end])) ]
    + body
    + [Single(FlowEngine, Slot(Jump, [start]))]
  }

  /** for_loop returns 3 + len(body) + 1 bundles: the body sits after the
      three-bundle prologue, the conditional jump leaves to the bundle right
      after the loop, and the last bundle jumps back to its first. */
  lemma ForLoopShape(iter: int, limit: int, cond: int, one: int, start: int, body: seq<Bundle>)
    ensures var r := ForLoopBundles(iter, limit, cond, one, start, body);
      && |r| == 3 + |body| + 1
      && r[2] == Single(FlowEngine, Slot(CondJump, [cond, start + |r|]))
      && r[3..3 + |body|] == body
      && r[|r| - 1] == Single(FlowEngine, Slot(Jump, [start]))
  {
    var r := ForLoopBundles(iter, limit, cond, one, start, body);
    assert r[3..3 + |body|] == body;
  }

  /** The alu slots build_hash emits for one stage, given the addresses of
      the stage's two constants: tmp1 = op1(val, c1); tmp2 = op3(val, c3);
      val = op2(tmp1, tmp2). */
  function StageSlots(s: HashStage, val: int, tmp1: int, tmp2: int, c1: int, c3: int): seq<(Engine, Slot)>
  {
    [ (AluEngine, Slot(s.op1, [tmp1, val, c1])),
      (AluEngine, Slot(s.op3, [tmp2, val, c3])),
      (AluEngine, Slot(s.op2, [val, tmp1, tmp2])) ]
  }

  /** Every constant of the stages i.. has an address in consts. */
  predicate HasStageConsts(stages: seq<HashStage>, consts: map<int, int>)
  {
    forall s :: s in stages ==> s.val1 in consts && s.val3 in consts
  }

  /** The slots build_hash emits for the stages, with the constants'
      addresses taken from consts. */
  function HashSlots(stages: seq<HashStage>, val: int, tmp1: int, tmp2: int, consts: map<int, int>): (r: seq<(Engine, Slot)>)
    requires HasStageConsts(stages, consts)
    ensures |r| == 3 * |stages|
  {
    if |stages| == 0 then []
    else
      assert stages[0] in stages;
      StageSlots(stages[0], val, tmp1, tmp2, consts[stages[0].val1], consts[stages[0].val3])
        + HashSlots(stages[1..], val, tmp1, tmp2, consts)
  }

  /** The program of build_simple_test on a fresh builder: constant 1 at
      word 0, accum at 1, iter at 2, limit at 3 (loaded with 10), the loop
      condition at 4, and a loop whose body adds 1 to accum. */
  function SimpleTestProgram(): seq<Bundle>
  {
    [ Single(LoadEngine, Slot(Const, [0, 1])),
      Single(LoadEngine, Slot(Const, [3, 10])) ]
    + ForLoopBundles(2, 3, 4, 0, 2, [Single(AluEngine, Slot(Plus, [1, 1, 0]))])
  }

  /** The part of the builder's state the constant pool touches: the
      pooled constants, the allocation pointer and the program. */
  datatype PoolState = PoolState(consts: map<int, int>, ptr: int, program: seq<Bundle>)

  /** scratch_const(v) when the word fits: a new value takes the next word
      and gets its `const` load; a pooled one changes nothing. */
  function PoolConst(p: PoolState, v: int): PoolState
  {
    if v in p.consts then p
    else PoolState(p.consts[v := p.ptr], p.ptr + 1, p.program + [Single(LoadEngine, Slot(Const, [p.ptr, v]))])
  }

  /** scratch_const for each value of vals in turn. */
  function PoolConsts(p: PoolState, vals: seq<int>): PoolState
    decreases |vals|
  {
    if |vals| == 0 then p else PoolConst(PoolConsts(p, vals[..|vals| - 1]), vals[|vals| - 1])
  }

  /** Pooling the two constants of st from b runs out of scratch space:
      val1 is new and its word does not fit, or val3 is new and its word
      does not fit after val1's. */
  predicate StageFails(b: PoolState, st: HashStage)
  {
    || (st.val1 !in b.consts && b.ptr + 1 > SCRATCH_SIZE as int)
    || (var m1 := PoolConst(b, st.val1); st.val3 !in m1.consts && m1.ptr + 1 > SCRATCH_SIZE as int)
  }

  /** The constants build_hash asks the pool for: val1, then val3, stage
      by stage. */
  function StageConsts(stages: seq<HashStage>): (r: seq<int>)
    ensures |r| == 2 * |stages|
    decreases |stages|
  {
    if |stages| == 0 then []
    else StageConsts(stages[..|stages| - 1]) + [stages[|stages| - 1].val1, stages[|stages| - 1].val3]
  }

  /** The kernel builder's state. */
  class Builder {
    var instrs: seq<Bundle>
    var labels: map<string, int>
    var scratch: map<string, int>
    var scratchDebug: map<int, (string, int)>
    var scratchPtr: int
    var constMap: map<int, int>

    /** Every pooled constant has its `const` load in the program and an
        address below the allocation pointer. */
    ghost predicate ConstsEmitted()
      reads this
    {
      forall v :: v in constMap ==>
        constMap[v] < scratchPtr && Single(LoadEngine, Slot(Const, [constMap[v], v])) in instrs
    }

    /** KernelBuilder(): an empty program, no names, no constants, the
        allocation pointer at 0. */
    constructor()
      ensures instrs == [] && labels == map[] && scratch == map[] && scratchDebug == map[]
      ensures scratchPtr == 0 && constMap == map[]
      ensures ConstsEmitted()
    {
      instrs := [];
      labels := map[];
      scratch := map[];
      scratchDebug := map[];
      scratchPtr := 0;
      constMap := map[];
    }

    /** build(slots): one bundle per slot, in order. */
    static method Build(slots: seq<(Engine, Slot)>) returns (r: seq<Bundle>)
      ensures r == OneSlotEach(slots)
    {
      r := [];
      for i := 0 to |slots|
        invariant |r| == i
        invariant forall j :: 0 <= j < i ==> r[j] == Single(slots[j].0, slots[j].1)
      {
        var (engine, slot) := slots[i];
        r := r + [Single(engine, slot)];
      }
    }

    /** add(engine, slot): append a one-slot bundle. */
    method Add(engine: Engine, slot: Slot)
      modifies this`instrs
      ensures instrs == old(instrs) + [Single(engine, slot)]
    {
      instrs := instrs + [Single(engine, slot)];
    }

    /** label(name): name the position of the next bundle. */
    method Label(name: string)
      modifies this`labels
      ensures labels == old(labels)[name := |instrs|]
    {
      labels := labels[name := |instrs|];
    }

    /** alloc_scratch(name, length): hand out the words from the pointer on
        and advance it. The name is recorded first and the pointer moved
        before the bound is checked, so a failing call still changes the
        state. */
    method AllocScratch(name: Option<string>, length: int) returns (r: Result<int, BuildError>)
      modifies this`scratch, this`scratchDebug, this`scratchPtr
      ensures scratchPtr == old(scratchPtr) + length
      ensures name.Some? ==> scratch == old(scratch)[name.value := old(scratchPtr)]
      ensures name.Some? ==> scratchDebug == old(scratchDebug)[old(scratchPtr) := (name.value, length)]
      ensures name.None? ==> scratch == old(scratch) && scratchDebug == old(scratchDebug)
      ensures r == if scratchPtr <= SCRATCH_SIZE as int then Ok(old(scratchPtr)) else Err(OutOfScratch)
    {
      var addr := scratchPtr;
      if name.Some? {
        scratch := scratch[name.value := addr];
        scratchDebug := scratchDebug[addr := (name.value, length)];
      }
      scratchPtr := scratchPtr + length;
      if scratchPtr > SCRATCH_SIZE as int {
        return Err(OutOfScratch);
      }
      r := Ok(addr);
    }

    /** scratch_const(val, name): the address of constant val, allocating a
        word and emitting its `const` load the first time only. */
    method ScratchConst(val: int, name: Option<string>) returns (r: Result<int, BuildError>)
      requires ConstsEmitted()
      modifies this`scratch, this`scratchDebug, this`scratchPtr, this`instrs, this`constMap
      ensures ConstsEmitted() || r.Err?
      ensures scratchPtr >= old(scratchPtr)
      ensures Extends(old(constMap), constMap)
      ensures val in old(constMap) ==>
        && r == Ok(old(constMap)[val])
        && instrs == old(instrs) && constMap == old(constMap) && scratchPtr == old(scratchPtr)
        && scratch == old(scratch) && scratchDebug == old(scratchDebug)
      ensures val !in old(constMap) ==>
        && scratchPtr == old(scratchPtr) + 1
        && r == (if old(scratchPtr) + 1 <= SCRATCH_SIZE as int then Ok(old(scratchPtr)) else Err(OutOfScratch))
      ensures val !in old(constMap) && name.Some? ==>
        && scratch == old(scratch)[name.value := old(scratchPtr)]
        && scratchDebug == old(scratchDebug)[old(scratchPtr) := (name.value, 1)]
      ensures name.None? ==> scratch == old(scratch) && scratchDebug == old(scratchDebug)
      ensures val !in old(constMap) && r.Ok? ==>
        && instrs == old(instrs) + [Single(LoadEngine, Slot(Const, [old(scratchPtr), val]))]
        && constMap == old(constMap)[val := old(scratchPtr)]
      ensures r.Err? ==> instrs == old(instrs) && constMap == old(constMap)
    {
      if val !in constMap {
        var addr :- AllocScratch(name, 1);
        ghost var before := instrs;
        Add(LoadEngine, Slot(Const, [addr, val]));
        constMap := constMap[val := addr];
        forall v | v in constMap
          ensures constMap[v] < scratchPtr && Single(LoadEngine, Slot(Const, [constMap[v], v])) in instrs
        {
          if v != val {
            assert Single(LoadEngine, Slot(Const, [constMap[v], v])) in before;
          }
        }
      }
      r := Ok(constMap[val]);
    }

    /** for_loop(iter, limit, body): the loop's bundles for the position
        where the program currently ends; the caller appends them. */
    method ForLoop(iter: int, limit: int, body: seq<Bundle>) returns (r: Result<seq<Bundle>, BuildError>)
      requires ConstsEmitted()
      modifies this`scratch, this`scratchDebug, this`scratchPtr, this`instrs, this`constMap
      ensures ConstsEmitted() || r.Err?
      ensures r.Ok? ==> 1 in constMap && r.value == ForLoopBundles(iter, limit, old(scratchPtr), constMap[1], |instrs|, body)
      ensures scratch == old(scratch) && scratchDebug == old(scratchDebug)
      ensures scratchPtr == old(scratchPtr) + (if 1 in old(constMap) || old(scratchPtr) + 1 > SCRATCH_SIZE as int then 1 else 2)
      ensures r.Err? <==> old(scratchPtr) + (if 1 in old(constMap) then 1 else 2) > SCRATCH_SIZE as int
      ensures 1 in old(constMap) || r.Err? ==> instrs == old(instrs) && constMap == old(constMap)
      ensures 1 !in old(constMap) && r.Ok? ==>
        && instrs == old(instrs) + [Single(LoadEngine, Slot(Const, [old(scratchPtr) + 1, 1]))]
        && constMap == old(constMap)[1 := old(scratchPtr) + 1]
    {
      var cond :- AllocScratch(None, 1);
      assert ConstsEmitted();
      var one :- ScratchConst(1, None);
      var start := |instrs|;
      r := Ok(ForLoopBundles(iter, limit, cond, one, start, body));
    }

    /** build_simple_test(): on a fresh builder the program is
        SimpleTestProgram. */
    method BuildSimpleTest() returns (r: Outcome<BuildError>)
      requires ConstsEmitted()
      modifies this`scratch, this`scratchDebug, this`scratchPtr, this`instrs, this`constMap
      ensures old(instrs) == [] && old(scratchPtr) == 0 && old(constMap) == map[] ==>
        r == Pass && instrs == SimpleTestProgram()
    {
      ghost var fresh0 := instrs == [] && scratchPtr == 0 && constMap == map[];
      var oneR := ScratchConst(1, None);
      if oneR.Err? { return Fail(oneR.error); }
      var one := oneR.value;
      var accumR := AllocScratch(Some("accum"), 1);
      if accumR.Err? { return Fail(accumR.error); }
      var accum := accumR.value;
      var iterR := AllocScratch(Some("iter"), 1);
      if iterR.Err? { return Fail(iterR.error); }
      var iter := iterR.value;
      var limitR := AllocScratch(Some("limit"), 1);
      if limitR.Err? { return Fail(limitR.error); }
      var limit := limitR.value;
      Add(LoadEngine, Slot(Const, [limit, 10]));
      var body := Build([(AluEngine, Slot(Plus, [accum, accum, one]))]);
      var loopR := ForLoop(iter, limit, body);
      if loopR.Err? { return Fail(loopR.error); }
      instrs := instrs + loopR.value;
      r := Pass;
    }

    /** The two scratch_const calls of one stage of build_hash. */
    method PoolStage(st: HashStage) returns (r: Result<(int, int), BuildError>)
      requires ConstsEmitted()
      modifies this`scratch, this`scratchDebug, this`scratchPtr, this`instrs, this`constMap
      ensures Extends(old(constMap), constMap)
      ensures scratch == old(scratch) && scratchDebug == old(scratchDebug)
      ensures r.Err? <==> StageFails(PoolState(old(constMap), old(scratchPtr), old(instrs)), st)
      ensures r.Err? ==> scratchPtr > SCRATCH_SIZE as int
      ensures r.Ok? ==>
        && PoolState(constMap, scratchPtr, instrs) == PoolConst(PoolConst(PoolState(old(constMap), old(scratchPtr), old(instrs)), st.val1), st.val3)
        && ConstsEmitted() && st.val1 in constMap && st.val3 in constMap
        && r.value == (constMap[st.val1], constMap[st.val3])
    {
      var c1 :- ScratchConst(st.val1, None);
      var c3 :- ScratchConst(st.val3, None);
      r := Ok((c1, c3));
    }

    /** build_hash(val, tmp1, tmp2): three alu slots per stage of myhash,
        with each stage constant taken from (or added to) the pool. */
    method BuildHash(val: int, tmp1: int, tmp2: int) returns (r: Result<seq<(Engine, Slot)>, BuildError>)
      requires ConstsEmitted()
      modifies this`scratch, this`scratchDebug, this`scratchPtr, this`instrs, this`constMap
      ensures Extends(old(constMap), constMap)
      ensures scratch == old(scratch) && scratchDebug == old(scratchDebug)
      ensures var q := PoolConsts(PoolState(old(constMap), old(scratchPtr), old(instrs)), StageConsts(HASH_STAGES));
        && (r.Ok? <==> q.ptr <= SCRATCH_SIZE as int || q.ptr == old(scratchPtr))
        && (r.Ok? ==> constMap == q.consts && scratchPtr == q.ptr && instrs == q.program)
      ensures r.Err? ==> scratchPtr > SCRATCH_SIZE as int
      ensures r.Ok? ==>
        && ConstsEmitted() && HasStageConsts(HASH_STAGES, constMap)
        && r.value == HashSlots(HASH_STAGES, val, tmp1, tmp2, constMap)
    {
      ghost var p0 := PoolState(constMap, scratchPtr, instrs);
      var slots := [];
      for i := 0 to |HASH_STAGES|
        invariant ConstsEmitted()
        invariant Extends(old(constMap), constMap)
        invariant scratch == old(scratch) && scratchDebug == old(scratchDebug)
        invariant PoolState(constMap, scratchPtr, instrs) == PoolConsts(p0, StageConsts(HASH_STAGES[..i]))
        invariant scratchPtr <= SCRATCH_SIZE as int || scratchPtr == old(scratchPtr)
        invariant HasStageConsts(HASH_STAGES[..i], constMap)
        invariant slots == HashSlots(HASH_STAGES[..i], val, tmp1, tmp2, constMap)
      {
        var st := HASH_STAGES[i];
        ghost var consts0 := constMap;
        ghost var before := PoolState(constMap, scratchPtr, instrs);
        var cr := PoolStage(st);
        if cr.Err? {
          HashPoolFails(p0, i, before);
          return Err(cr.error);
        }
        var (c1, c3) := cr.value;
        HashPoolStep(p0, i);
        HashSlotsExtend(HASH_STAGES[..i], val, tmp1, tmp2, consts0, constMap);
        assert HASH_STAGES[..i + 1] == HASH_STAGES[..i] + [st];
        HashSlotsAppend(HASH_STAGES[..i], st, val, tmp1, tmp2, constMap);
        slots := slots + StageSlots(st, val, tmp1, tmp2, c1, c3);
      }
      assert HASH_STAGES[..|HASH_STAGES|] == HASH_STAGES;
      r := Ok(slots);
    }
  }

  /** Every constant of m keeps its address in m'. */
  predicate Extends(m: map<int, int>, m': map<int, int>)
  {
    forall v :: v in m ==> v in m' && m'[v] == m[v]
  }

  /** Pooling vals gives every value not yet pooled exactly one fresh
      word from the pointer on, with its `const` load appended to the
      program; pooled values keep their words and nothing else changes. */
  lemma {:induction false} PoolConstsSpec(p: PoolState, vals: seq<int>)
    ensures var q := PoolConsts(p, vals);
      && Extends(p.consts, q.consts)
      && (forall v :: v in q.consts <==> v in p.consts || v in vals)
      && q.ptr - p.ptr == |q.consts| - |p.consts| == |q.program| - |p.program|
      && |p.program| <= |q.program| && q.program[..|p.program|] == p.program
      && (forall v :: v in q.consts && v !in p.consts ==>
            p.ptr <= q.consts[v] < q.ptr && Single(LoadEngine, Slot(Const, [q.consts[v], v])) in q.program)
    decreases |vals|
  {
    if |vals| > 0 {
      var init := vals[..|vals| - 1];
      var x := vals[|vals| - 1];
      PoolConstsSpec(p, init);
      var q0 := PoolConsts(p, init);
      assert forall v :: v in vals <==> v in init || v == x;
      if x !in q0.consts {
        assert |q0.consts[x := q0.ptr]| == |q0.consts| + 1;
        assert (q0.program + [Single(LoadEngine, Slot(Const, [q0.ptr, x]))])[..|p.program|] == q0.program[..|p.program|];
      }
    }
  }

  /** Pooling never moves the pointer back. */
  lemma {:induction false} PoolGrows(p: PoolState, vals: seq<int>)
    ensures PoolConsts(p, vals).ptr >= p.ptr
    decreases |vals|
  {
    if |vals| > 0 {
      PoolGrows(p, vals[..|vals| - 1]);
    }
  }

  /** Pooling a + b pools a, then b. */
  lemma {:induction false} PoolConstsAppend(p: PoolState, a: seq<int>, b: seq<int>)
    ensures PoolConsts(p, a + b) == PoolConsts(PoolConsts(p, a), b)
    decreases |b|
  {
    if |b| == 0 {
      assert a + b == a;
    } else {
      assert (a + b)[..|a + b| - 1] == a + b[..|b| - 1];
      PoolConstsAppend(p, a, b[..|b| - 1]);
    }
  }

  /** The constants of a + b are those of a, then those of b. */
  lemma {:induction false} StageConstsAppend(a: seq<HashStage>, b: seq<HashStage>)
    ensures StageConsts(a + b) == StageConsts(a) + StageConsts(b)
    decreases |b|
  {
    if |b| == 0 {
      assert a + b == a;
    } else {
      assert (a + b)[..|a + b| - 1] == a + b[..|b| - 1];
      StageConstsAppend(a, b[..|b| - 1]);
    }
  }

  /** Stage i asks the pool for its val1 and then its val3. */
  lemma HashPoolStep(p: PoolState, i: int)
    requires 0 <= i < |HASH_STAGES|
    ensures PoolConsts(p, StageConsts(HASH_STAGES[..i + 1]))
         == PoolConst(PoolConst(PoolConsts(p, StageConsts(HASH_STAGES[..i])), HASH_STAGES[i].val1), HASH_STAGES[i].val3)
  {
    var s := StageConsts(HASH_STAGES[..i]);
    assert HASH_STAGES[..i + 1][..i] == HASH_STAGES[..i];
    assert StageConsts(HASH_STAGES[..i + 1]) == s + [HASH_STAGES[i].val1, HASH_STAGES[i].val3];
    var vs := s + [HASH_STAGES[i].val1, HASH_STAGES[i].val3];
    assert vs[..|vs| - 1] == s + [HASH_STAGES[i].val1];
    assert (s + [HASH_STAGES[i].val1])[..|s|] == s;
  }

  /** A word that does not fit while stage i is pooled leaves the whole
      pool past the scratch space. */
  lemma HashPoolFails(p: PoolState, i: int, before: PoolState)
    requires 0 <= i < |HASH_STAGES|
    requires before == PoolConsts(p, StageConsts(HASH_STAGES[..i]))
    requires StageFails(before, HASH_STAGES[i])
    ensures PoolConsts(p, StageConsts(HASH_STAGES)).ptr > SCRATCH_SIZE as int
    ensures PoolConsts(p, StageConsts(HASH_STAGES)).ptr > p.ptr
  {
    PoolGrows(p, StageConsts(HASH_STAGES[..i]));
    var mid := PoolConsts(p, StageConsts(HASH_STAGES[..i + 1]));
    HashPoolStep(p, i);
    assert mid.ptr > SCRATCH_SIZE as int;
    assert HASH_STAGES == HASH_STAGES[..i + 1] + HASH_STAGES[i + 1..];
    StageConstsAppend(HASH_STAGES[..i + 1], HASH_STAGES[i + 1..]);
    PoolConstsAppend(p, StageConsts(HASH_STAGES[..i + 1]), StageConsts(HASH_STAGES[i + 1..]));
    PoolGrows(mid, StageConsts(HASH_STAGES[i + 1..]));
  }

  /** Stage j's constants sit at positions 2j and 2j + 1. */
  lemma {:induction false} StageConstsAt(stages: seq<HashStage>, j: int)
    requires 0 <= j < |stages|
    ensures StageConsts(stages)[2 * j] == stages[j].val1 && StageConsts(stages)[2 * j + 1] == stages[j].val3
    decreases |stages|
  {
    if j < |stages| - 1 {
      var init := stages[..|stages| - 1];
      StageConstsAt(init, j);
    }
  }

  /** The twelve constants of myhash are distinct: on an empty pool
      build_hash takes twelve words and emits twelve loads. */
  lemma HashPoolFresh(ptr: int, program: seq<Bundle>)
    ensures var q := PoolConsts(PoolState(map[], ptr, program), StageConsts(HASH_STAGES));
      q.ptr == ptr + 12 && |q.program| == |program| + 12
  {
    HashConstVals();
    PoolDistinct(PoolState(map[], ptr, program), StageConsts(HASH_STAGES));
  }

  /** The constants build_hash pools, in order; no two are equal. */
  lemma HashConstVals()
    ensures StageConsts(HASH_STAGES) == [0x7ED55D16, 12, 0xC761C23C, 19, 0x165667B1, 5, 0xD3A2646C, 9, 0xFD7046C5, 3, 0xB55A4F09, 16]
    ensures forall i, j :: 0 <= i < j < 12 ==> StageConsts(HASH_STAGES)[i] != StageConsts(HASH_STAGES)[j]
  {
    var vals := StageConsts(HASH_STAGES);
    var lits := [0x7ED55D16, 12, 0xC761C23C, 19, 0x165667B1, 5, 0xD3A2646C, 9, 0xFD7046C5, 3, 0xB55A4F09, 16];
    forall k | 0 <= k < 12
      ensures vals[k] == lits[k]
    {
      StageConstsAt(HASH_STAGES, k / 2);
    }
  }

  /** Pooling distinct new values takes one word and one load each. */
  lemma {:induction false} PoolDistinct(p: PoolState, vals: seq<int>)
    requires forall i, j :: 0 <= i < j < |vals| ==> vals[i] != vals[j]
    requires forall i :: 0 <= i < |vals| ==> vals[i] !in p.consts
    ensures PoolConsts(p, vals).ptr == p.ptr + |vals|
    ensures |PoolConsts(p, vals).program| == |p.program| + |vals|
    decreases |vals|
  {
    if |vals| > 0 {
      var init := vals[..|vals| - 1];
      PoolDistinct(p, init);
      PoolConstsSpec(p, init);
      assert vals[|vals| - 1] !in init;
    }
  }

  /** Adding constants to the pool does not move the ones the slots use. */
  lemma {:induction false} HashSlotsExtend(stages: seq<HashStage>, val: int, tmp1: int, tmp2: int, m: map<int, int>, m': map<int, int>)
    requires HasStageConsts(stages, m) && Extends(m, m')
    ensures HasStageConsts(stages, m')
    ensures HashSlots(stages, val, tmp1, tmp2, m) == HashSlots(stages, val, tmp1, tmp2, m')
  {
    if |stages| > 0 {
      assert stages[0] in stages;
      HashSlotsExtend(stages[1..], val, tmp1, tmp2, m, m');
    }
  }

  /** One more stage appends its three slots. */
  lemma {:induction false} HashSlotsAppend(stages: seq<HashStage>, s: HashStage, val: int, tmp1: int, tmp2: int, m: map<int, int>)
    requires HasStageConsts(stages + [s], m)
    ensures HasStageConsts(stages, m)
    ensures HashSlots(stages + [s], val, tmp1, tmp2, m)
         == HashSlots(stages, val, tmp1, tmp2, m) + StageSlots(s, val, tmp1, tmp2, m[s.val1], m[s.val3])
  {
    assert s in stages + [s];
    if |stages| == 0 {
      assert [s][1..] == [];
    } else {
      assert (stages + [s])[1..] == stages[1..] + [s];
      assert stages[0] in stages + [s];
      HashSlotsAppend(stages[1..], s, val, tmp1, tmp2, m);
    }
  }

  // ---------------------------------------------------------------------
  // Straight-line runs of one-slot bundles
  // ---------------------------------------------------------------------

  /** The bundles run one after the other on a core (each a `step`), as
      the machine runs code without jumps. */
  function RunStraight(bundles: seq<Bundle>, c: CoreVal, mem: seq<int>, enablePause: bool): Result<(CoreVal, seq<int>), Error>
    decreases |bundles|
  {
    if |bundles| == 0 then Ok((c, mem))
    else
      var (c', mem') :- StepSpec(bundles[0], c, mem, enablePause);
      RunStraight(bundles[1..], c', mem', enablePause)
  }

  /** Running a + b runs a, then b from where a left off. */
  lemma {:induction false} RunStraightAppend(a: seq<Bundle>, b: seq<Bundle>, c: CoreVal, mem: seq<int>, enablePause: bool)
    ensures RunStraight(a + b, c, mem, enablePause) == match RunStraight(a, c, mem, enablePause)
      case Err(e) => Err(e)
      case Ok((c', mem')) => RunStraight(b, c', mem', enablePause)
    decreases |a|
  {
    if |a| > 0 {
      assert (a + b)[0] == a[0];
      assert (a + b)[1..] == a[1..] + b;
      match StepSpec(a[0], c, mem, enablePause)
      case Err(_) =>
      case Ok((c', mem')) => RunStraightAppend(a[1..], b, c', mem', enablePause);
    } else {
      assert a + b == b;
    }
  }

  /** A bundle holding one alu slot (op, dest, a1, a2) with operands inside
      the scratch space sets dest to the alu result and nothing else. */
  lemma StepAlu(op: Op, dest: int, a1: int, a2: int, c: CoreVal, mem: seq<int>, enablePause: bool)
    requires 0 <= dest < |c.scratch| && 0 <= a1 < |c.scratch| && 0 <= a2 < |c.scratch|
    requires AluResult(op, c.scratch[a1], c.scratch[a2]).Ok?
    ensures StepSpec(Single(AluEngine, Slot(op, [dest, a1, a2])), c, mem, enablePause)
         == Ok((c.(scratch := c.scratch[dest := AluResult(op, c.scratch[a1], c.scratch[a2]).value]), mem))
  {
    var slot := Slot(op, [dest, a1, a2]);
    var x := AluResult(op, c.scratch[a1], c.scratch[a2]).value;
    assert Read(c.scratch, a1) == Ok(c.scratch[a1]);
    assert Read(c.scratch, a2) == Ok(c.scratch[a2]);
    assert Put([], dest, x) == [(dest, x)];
    assert AluSlot(c.scratch, op, dest, a1, a2, []) == Ok([(dest, x)]);
    var st0, st1 := StepState(c, [], []), StepState(c, [(dest, x)], []);
    assert ExecSlot(AluEngine, slot, st0, mem, enablePause) == Ok(st1);
    assert ExecSlots(AluEngine, [slot], 0, st0, mem, enablePause) == Ok(st1);
    assert ExecEngines(Single(AluEngine, slot), 0, st0, mem, enablePause) == Ok(st1);
    assert PyIndex(|c.scratch|, dest) == Some(dest);
    assert CommitFrom(c.scratch[dest := x], [(dest, x)], 1) == Ok(c.scratch[dest := x]);
    assert Commit(mem, []) == Ok(mem);
  }

  /** The alu computes each operator of myhash reduced mod 2**32, as r()
      does. */
  lemma AluHashOp(op: Op, x: int, y: int)
    requires IsHashOp(op) && y >= 0
    ensures AluResult(op, x, y) == Ok(R(HashOp(op, x, y)))
  {
  }

  /** The constants of the stages sit at their pool addresses in the
      scratch, away from val, tmp1 and tmp2, which are distinct words. */
  predicate ConstsHeld(scratch: seq<int>, stages: seq<HashStage>, consts: map<int, int>, val: int, tmp1: int, tmp2: int)
  {
    && 0 <= val < |scratch| && 0 <= tmp1 < |scratch| && 0 <= tmp2 < |scratch|
    && val != tmp1 && val != tmp2 && tmp1 != tmp2
    && forall s :: s in stages ==>
      && s.val1 in consts && s.val3 in consts
      && 0 <= consts[s.val1] < |scratch| && scratch[consts[s.val1]] == s.val1
      && 0 <= consts[s.val3] < |scratch| && scratch[consts[s.val3]] == s.val3
      && consts[s.val1] != val && consts[s.val1] != tmp1 && consts[s.val1] != tmp2
      && consts[s.val3] != val && consts[s.val3] != tmp1 && consts[s.val3] != tmp2
  }

  /** The three slots of one stage replace val's word a by Stage(a, s),
      leaving the two intermediate results in tmp1 and tmp2. */
  lemma StageRun(s: HashStage, c: CoreVal, mem: seq<int>, enablePause: bool, val: int, tmp1: int, tmp2: int, c1: int, c3: int)
    requires IsHashOp(s.op1) && IsHashOp(s.op2) && IsHashOp(s.op3) && s.val1 >= 0 && s.val3 >= 0
    requires 0 <= val < |c.scratch| && 0 <= tmp1 < |c.scratch| && 0 <= tmp2 < |c.scratch|
    requires val != tmp1 && val != tmp2 && tmp1 != tmp2
    requires 0 <= c1 < |c.scratch| && c.scratch[c1] == s.val1 && c1 != val && c1 != tmp1 && c1 != tmp2
    requires 0 <= c3 < |c.scratch| && c.scratch[c3] == s.val3 && c3 != val && c3 != tmp1 && c3 != tmp2
    ensures var a := c.scratch[val];
      var x, y := R(HashOp(s.op1, a, s.val1)), R(HashOp(s.op3, a, s.val3));
      RunStraight(OneSlotEach(StageSlots(s, val, tmp1, tmp2, c1, c3)), c, mem, enablePause)
        == Ok((c.(scratch := c.scratch[tmp1 := x][tmp2 := y][val := Stage(a, s)]), mem))
  {
    var a := c.scratch[val];
    var x, y := R(HashOp(s.op1, a, s.val1)), R(HashOp(s.op3, a, s.val3));
    var b := OneSlotEach(StageSlots(s, val, tmp1, tmp2, c1, c3));
    AluHashOp(s.op1, a, s.val1);
    StepAlu(s.op1, tmp1, val, c1, c, mem, enablePause);
    var cA := c.(scratch := c.scratch[tmp1 := x]);
    AluHashOp(s.op3, a, s.val3);
    StepAlu(s.op3, tmp2, val, c3, cA, mem, enablePause);
    var cB := cA.(scratch := cA.scratch[tmp2 := y]);
    AluHashOp(s.op2, x, y);
    StepAlu(s.op2, val, tmp1, tmp2, cB, mem, enablePause);
    var cC := cB.(scratch := cB.scratch[val := Stage(a, s)]);
    assert b[2..][1..] == [];
    assert RunStraight(b[2..], cB, mem, enablePause) == Ok((cC, mem));
    assert RunStraight(b[1..], cA, mem, enablePause) == Ok((cC, mem));
  }

  /** A stage's slots followed by more: the run goes on from the state
      StageRun describes. */
  lemma StageThenRest(s: HashStage, rest: seq<(Engine, Slot)>, c: CoreVal, mem: seq<int>, enablePause: bool, val: int, tmp1: int, tmp2: int, c1: int, c3: int)
    requires IsHashOp(s.op1) && IsHashOp(s.op2) && IsHashOp(s.op3) && s.val1 >= 0 && s.val3 >= 0
    requires 0 <= val < |c.scratch| && 0 <= tmp1 < |c.scratch| && 0 <= tmp2 < |c.scratch|
    requires val != tmp1 && val != tmp2 && tmp1 != tmp2
    requires 0 <= c1 < |c.scratch| && c.scratch[c1] == s.val1 && c1 != val && c1 != tmp1 && c1 != tmp2
    requires 0 <= c3 < |c.scratch| && c.scratch[c3] == s.val3 && c3 != val && c3 != tmp1 && c3 != tmp2
    ensures var a := c.scratch[val];
      var x, y := R(HashOp(s.op1, a, s.val1)), R(HashOp(s.op3, a, s.val3));
      RunStraight(OneSlotEach(StageSlots(s, val, tmp1, tmp2, c1, c3) + rest), c, mem, enablePause)
        == RunStraight(OneSlotEach(rest), c.(scratch := c.scratch[tmp1 := x][tmp2 := y][val := Stage(a, s)]), mem, enablePause)
  {
    var first := StageSlots(s, val, tmp1, tmp2, c1, c3);
    OneSlotEachAppend(first, rest);
    RunStraightAppend(OneSlotEach(first), OneSlotEach(rest), c, mem, enablePause);
    StageRun(s, c, mem, enablePause, val, tmp1, tmp2, c1, c3);
  }

  /** The slots of well-formed stages replace val's word a by
      ApplyStages(a, stages), keep the constants in place and change no
      word but val, tmp1 and tmp2. */
  lemma {:induction false} HashSlotsRun(stages: seq<HashStage>, c: CoreVal, mem: seq<int>, enablePause: bool, val: int, tmp1: int, tmp2: int, consts: map<int, int>)
    requires WellFormedStages(stages)
    requires ConstsHeld(c.scratch, stages, consts, val, tmp1, tmp2)
    ensures HasStageConsts(stages, consts)
    ensures var r := RunStraight(OneSlotEach(HashSlots(stages, val, tmp1, tmp2, consts)), c, mem, enablePause);
      && r.Ok? && r.value.1 == mem
      && r.value.0 == c.(scratch := r.value.0.scratch)
      && |r.value.0.scratch| == |c.scratch|
      && r.value.0.scratch[val] == ApplyStages(c.scratch[val], stages)
      && forall k :: 0 <= k < |c.scratch| && k != val && k != tmp1 && k != tmp2 ==> r.value.0.scratch[k] == c.scratch[k]
    decreases |stages|
  {
    if |stages| > 0 {
      var s := stages[0];
      assert s in stages;
      var c1, c3 := consts[s.val1], consts[s.val3];
      var rest := HashSlots(stages[1..], val, tmp1, tmp2, consts);
      StageThenRest(s, rest, c, mem, enablePause, val, tmp1, tmp2, c1, c3);
      var a := c.scratch[val];
      var x, y := R(HashOp(s.op1, a, s.val1)), R(HashOp(s.op3, a, s.val3));
      var c' := c.(scratch := c.scratch[tmp1 := x][tmp2 := y][val := Stage(a, s)]);
      ConstsHeldTail(c'.scratch, c.scratch, stages, consts, val, tmp1, tmp2);
      HashSlotsRun(stages[1..], c', mem, enablePause, val, tmp1, tmp2, consts);
    }
  }

  /** Constants held for all stages, after val, tmp1 and tmp2 are written,
      are held for the stages after the first. */
  lemma ConstsHeldTail(scratch': seq<int>, scratch: seq<int>, stages: seq<HashStage>, consts: map<int, int>, val: int, tmp1: int, tmp2: int)
    requires ConstsHeld(scratch, stages, consts, val, tmp1, tmp2) && |stages| > 0
    requires |scratch'| == |scratch|
    requires forall k :: 0 <= k < |scratch| && k != val && k != tmp1 && k != tmp2 ==> scratch'[k] == scratch[k]
    ensures ConstsHeld(scratch', stages[1..], consts, val, tmp1, tmp2)
  {
    forall s | s in stages[1..] ensures s in stages {
      var j :| 0 <= j < |stages[1..]| && stages[1..][j] == s;
      assert stages[j + 1] == s;
    }
  }

  /** What build_hash promises: its slots, built one per bundle and run in
      order, leave myhash of val's old word in val, change no word but val,
      tmp1 and tmp2, and leave the memory alone. */
  lemma BuildHashComputesHash(c: CoreVal, mem: seq<int>, enablePause: bool, val: int, tmp1: int, tmp2: int, consts: map<int, int>)
    requires ConstsHeld(c.scratch, HASH_STAGES, consts, val, tmp1, tmp2)
    ensures HasStageConsts(HASH_STAGES, consts)
    ensures var r := RunStraight(OneSlotEach(HashSlots(HASH_STAGES, val, tmp1, tmp2, consts)), c, mem, enablePause);
      && r.Ok? && r.value.1 == mem
      && |r.value.0.scratch| == |c.scratch|
      && r.value.0.scratch[val] == Hash(c.scratch[val])
      && forall k :: 0 <= k < |c.scratch| && k != val && k != tmp1 && k != tmp2 ==> r.value.0.scratch[k] == c.scratch[k]
  {
    HashStagesWellFormed();
    HashSlotsRun(HASH_STAGES, c, mem, enablePause, val, tmp1, tmp2, consts);
  }

  // ---------------------------------------------------------------------
  // Running the simple test program
  // ---------------------------------------------------------------------

  /** A RUNNING core whose pc lies inside the program fetches the bundle at
      pc, advances pc, and steps. */
  lemma TurnFetches(program: seq<Bundle>, c: CoreVal, mem: seq<int>, enablePause: bool)
    requires c.state == Running && 0 <= c.pc < |program|
    ensures CoreTurn(program, c, mem, enablePause) == StepSpec(program[c.pc], c.(pc := c.pc + 1), mem, enablePause)
  {
    assert PyIndex(|program|, c.pc) == Some(c.pc);
  }

  /** A bundle holding `const dest, v` sets dest to v. */
  lemma StepConst(dest: int, v: int, c: CoreVal, mem: seq<int>, enablePause: bool)
    requires 0 <= dest < |c.scratch|
    ensures StepSpec(Single(LoadEngine, Slot(Const, [dest, v])), c, mem, enablePause)
         == Ok((c.(scratch := c.scratch[dest := v]), mem))
  {
    var slot := Slot(Const, [dest, v]);
    assert Put([], dest, v) == [(dest, v)];
    assert LoadSlot(c.scratch, mem, slot, []) == Ok([(dest, v)]);
    var st0, st1 := StepState(c, [], []), StepState(c, [(dest, v)], []);
    assert ExecSlot(LoadEngine, slot, st0, mem, enablePause) == Ok(st1);
    assert ExecSlots(LoadEngine, [slot], 0, st0, mem, enablePause) == Ok(st1);
    assert ExecEngines(Single(LoadEngine, slot), 0, st0, mem, enablePause) == Ok(st1);
    assert PyIndex(|c.scratch|, dest) == Some(dest);
    assert CommitFrom(c.scratch[dest := v], [(dest, v)], 1) == Ok(c.scratch[dest := v]);
    assert Commit(mem, []) == Ok(mem);
  }

  /** A bundle holding `cond_jump cond, target` jumps when the word at cond
      is not 0 and otherwise changes nothing. */
  lemma StepCondJump(cond: int, target: int, c: CoreVal, mem: seq<int>, enablePause: bool)
    requires 0 <= cond < |c.scratch|
    ensures StepSpec(Single(FlowEngine, Slot(CondJump, [cond, target])), c, mem, enablePause)
         == Ok((if c.scratch[cond] != 0 then c.(pc := target) else c, mem))
  {
    var slot := Slot(CondJump, [cond, target]);
    var c' := if c.scratch[cond] != 0 then c.(pc := target) else c;
    assert Read(c.scratch, cond) == Ok(c.scratch[cond]);
    assert FlowControl(c, slot, enablePause) == Ok(c');
    var st0, st1 := StepState(c, [], []), StepState(c', [], []);
    assert ExecSlot(FlowEngine, slot, st0, mem, enablePause) == Ok(st1);
    assert ExecSlots(FlowEngine, [slot], 0, st0, mem, enablePause) == Ok(st1);
    assert ExecEngines(Single(FlowEngine, slot), 0, st0, mem, enablePause) == Ok(st1);
    assert Commit(c'.scratch, []) == Ok(c'.scratch);
    assert Commit(mem, []) == Ok(mem);
    assert c'.(scratch := c'.scratch) == c';
  }

  /** A bundle holding `jump target` sets pc to target. */
  lemma StepJump(target: int, c: CoreVal, mem: seq<int>, enablePause: bool)
    ensures StepSpec(Single(FlowEngine, Slot(Jump, [target])), c, mem, enablePause) == Ok((c.(pc := target), mem))
  {
    var slot := Slot(Jump, [target]);
    var st0, st1 := StepState(c, [], []), StepState(c.(pc := target), [], []);
    assert ExecSlot(FlowEngine, slot, st0, mem, enablePause) == Ok(st1);
    assert ExecSlots(FlowEngine, [slot], 0, st0, mem, enablePause) == Ok(st1);
    assert ExecEngines(Single(FlowEngine, slot), 0, st0, mem, enablePause) == Ok(st1);
    assert Commit(c.scratch, []) == Ok(c.scratch);
    assert Commit(mem, []) == Ok(mem);
  }

  /** With a single RUNNING core, one iteration of run's loop is that
      core's turn and one more cycle. */
  lemma OneCoreSweep(program: seq<Bundle>, c: CoreVal, mem: seq<int>, enablePause: bool, cycle: nat, fuel: nat, c': CoreVal, mem': seq<int>)
    requires c.state == Running && fuel > 0
    requires CoreTurn(program, c, mem, enablePause) == Ok((c', mem'))
    ensures RunLoop(program, MachineVal([c], mem, cycle), enablePause, fuel)
         == RunLoop(program, MachineVal([c'], mem', cycle + 1), enablePause, fuel - 1)
  {
    assert AnyRunning([c]) by { assert [c][0].state == Running; }
    assert [c][0 := c'] == [c'];
    assert SweepFrom(program, [c'], mem', enablePause, 1) == Ok(([c'], mem'));
    assert SweepFrom(program, [c], mem, enablePause, 0) == Ok(([c'], mem'));
  }

  /** A single RUNNING core past the end of the program is stopped by the
      next sweep, which ends run. */
  lemma OneCoreStops(program: seq<Bundle>, c: CoreVal, mem: seq<int>, enablePause: bool, cycle: nat, fuel: nat)
    requires c.state == Running && c.pc >= |program| && fuel > 0
    ensures RunLoop(program, MachineVal([c], mem, cycle), enablePause, fuel)
         == Ok((MachineVal([c.(state := Stopped)], mem, cycle + 1), true))
  {
    OneCoreSweep(program, c, mem, enablePause, cycle, fuel, c.(state := Stopped), mem);
    assert !AnyRunning([c.(state := Stopped)]);
  }

  /** p holds the seven bundles of the simple test program. */
  ghost predicate SimpleProgramAt(p: seq<Bundle>)
  {
    && |p| == 7
    && p[0] == Single(LoadEngine, Slot(Const, [0, 1]))
    && p[1] == Single(LoadEngine, Slot(Const, [3, 10]))
    && p[2] == Single(AluEngine, Slot(Plus, [2, 0, 2]))
    && p[3] == Single(AluEngine, Slot(Less, [4, 3, 2]))
    && p[4] == Single(FlowEngine, Slot(CondJump, [4, 7]))
    && p[5] == Single(AluEngine, Slot(Plus, [1, 1, 0]))
    && p[6] == Single(FlowEngine, Slot(Jump, [2]))
  }

  /** The seven bundles of the simple test program. */
  lemma SimpleTestBundles()
    ensures SimpleProgramAt(SimpleTestProgram())
  {
  }

  /** The turns a single core takes through the states cs, one sweep
      each, without touching memory. */
  ghost predicate Turns(program: seq<Bundle>, cs: seq<CoreVal>, mem: seq<int>, enablePause: bool)
  {
    forall i :: 0 <= i < |cs| - 1 ==> TurnAt(program, cs, i, mem, enablePause)
  }

  /** The core's i-th turn leads from cs[i] to cs[i + 1]. */
  ghost predicate TurnAt(program: seq<Bundle>, cs: seq<CoreVal>, i: int, mem: seq<int>, enablePause: bool)
  {
    && 0 <= i < |cs| - 1
    && cs[i].state == Running
    && CoreTurn(program, cs[i], mem, enablePause) == Ok((cs[i + 1], mem))
  }

  /** A single core taking the turns cs: run's loop goes from the first
      state to the last in one cycle per turn. */
  lemma {:induction false} RunLoopTurns(program: seq<Bundle>, cs: seq<CoreVal>, mem: seq<int>, enablePause: bool, cycle: nat, fuel: nat)
    requires |cs| >= 1 && fuel >= |cs| - 1 && Turns(program, cs, mem, enablePause)
    ensures RunLoop(program, MachineVal([cs[0]], mem, cycle), enablePause, fuel)
         == RunLoop(program, MachineVal([cs[|cs| - 1]], mem, cycle + |cs| - 1), enablePause, fuel - (|cs| - 1))
    decreases |cs|
  {
    if |cs| > 1 {
      var tail := cs[1..];
      assert TurnAt(program, cs, 0, mem, enablePause);
      OneCoreSweep(program, cs[0], mem, enablePause, cycle, fuel, cs[1], mem);
      TurnsTail(program, cs, mem, enablePause);
      assert tail[0] == cs[1] && tail[|tail| - 1] == cs[|cs| - 1];
      RunLoopTurns(program, tail, mem, enablePause, cycle + 1, fuel - 1);
    }
  }

  /** The turns after the first. */
  lemma TurnsTail(program: seq<Bundle>, cs: seq<CoreVal>, mem: seq<int>, enablePause: bool)
    requires |cs| >= 1 && Turns(program, cs, mem, enablePause)
    ensures Turns(program, cs[1..], mem, enablePause)
  {
    forall i | 0 <= i < |cs[1..]| - 1
      ensures TurnAt(program, cs[1..], i, mem, enablePause)
    {
      assert TurnAt(program, cs, i + 1, mem, enablePause);
      assert cs[1..][i] == cs[i + 1] && cs[1..][i + 1] == cs[i + 2];
    }
  }

  /** A turn at a one-slot alu bundle writes the slot's result to dest. */
  lemma AluTurn(program: seq<Bundle>, c: CoreVal, mem: seq<int>, enablePause: bool, op: Op, dest: int, a1: int, a2: int)
    requires c.state == Running && 0 <= c.pc < |program|
    requires program[c.pc] == Single(AluEngine, Slot(op, [dest, a1, a2]))
    requires 0 <= dest < |c.scratch| && 0 <= a1 < |c.scratch| && 0 <= a2 < |c.scratch|
    requires AluResult(op, c.scratch[a1], c.scratch[a2]).Ok?
    ensures CoreTurn(program, c, mem, enablePause)
         == Ok((c.(pc := c.pc + 1, scratch := c.scratch[dest := AluResult(op, c.scratch[a1], c.scratch[a2]).value]), mem))
  {
    TurnFetches(program, c, mem, enablePause);
    StepAlu(op, dest, a1, a2, c.(pc := c.pc + 1), mem, enablePause);
  }

  /** A turn at a one-slot `+` bundle whose sum stays below 2^32. */
  lemma PlusTurn(program: seq<Bundle>, c: CoreVal, mem: seq<int>, enablePause: bool, dest: int, a1: int, a2: int)
    requires c.state == Running && 0 <= c.pc < |program|
    requires program[c.pc] == Single(AluEngine, Slot(Plus, [dest, a1, a2]))
    requires 0 <= dest < |c.scratch| && 0 <= a1 < |c.scratch| && 0 <= a2 < |c.scratch|
    requires 0 <= c.scratch[a1] + c.scratch[a2] < WORD
    ensures CoreTurn(program, c, mem, enablePause)
         == Ok((c.(pc := c.pc + 1, scratch := c.scratch[dest := c.scratch[a1] + c.scratch[a2]]), mem))
  {
    assert AluResult(Plus, c.scratch[a1], c.scratch[a2]) == Ok(c.scratch[a1] + c.scratch[a2]);
    AluTurn(program, c, mem, enablePause, Plus, dest, a1, a2);
  }

  /** A turn at a one-slot `<` bundle writes 1 or 0. */
  lemma LessTurn(program: seq<Bundle>, c: CoreVal, mem: seq<int>, enablePause: bool, dest: int, a1: int, a2: int)
    requires c.state == Running && 0 <= c.pc < |program|
    requires program[c.pc] == Single(AluEngine, Slot(Less, [dest, a1, a2]))
    requires 0 <= dest < |c.scratch| && 0 <= a1 < |c.scratch| && 0 <= a2 < |c.scratch|
    ensures CoreTurn(program, c, mem, enablePause)
         == Ok((c.(pc := c.pc + 1, scratch := c.scratch[dest := if c.scratch[a1] < c.scratch[a2] then 1 else 0]), mem))
  {
    assert AluResult(Less, c.scratch[a1], c.scratch[a2]) == Ok(if c.scratch[a1] < c.scratch[a2] then 1 else 0);
    AluTurn(program, c, mem, enablePause, Less, dest, a1, a2);
  }

  /** A turn at a one-slot `const` bundle. */
  lemma ConstTurn(program: seq<Bundle>, c: CoreVal, mem: seq<int>, enablePause: bool, dest: int, v: int)
    requires c.state == Running && 0 <= c.pc < |program|
    requires program[c.pc] == Single(LoadEngine, Slot(Const, [dest, v]))
    requires 0 <= dest < |c.scratch|
    ensures CoreTurn(program, c, mem, enablePause) == Ok((c.(pc := c.pc + 1, scratch := c.scratch[dest := v]), mem))
  {
    TurnFetches(program, c, mem, enablePause);
    StepConst(dest, v, c.(pc := c.pc + 1), mem, enablePause);
  }

  /** A turn at a one-slot `cond_jump` bundle. */
  lemma CondJumpTurn(program: seq<Bundle>, c: CoreVal, mem: seq<int>, enablePause: bool, cond: int, target: int)
    requires c.state == Running && 0 <= c.pc < |program|
    requires program[c.pc] == Single(FlowEngine, Slot(CondJump, [cond, target]))
    requires 0 <= cond < |c.scratch|
    ensures CoreTurn(program, c, mem, enablePause) == Ok((c.(pc := if c.scratch[cond] != 0 then target else c.pc + 1), mem))
  {
    TurnFetches(program, c, mem, enablePause);
    StepCondJump(cond, target, c.(pc := c.pc + 1), mem, enablePause);
  }

  /** A turn at a one-slot `jump` bundle. */
  lemma JumpTurn(program: seq<Bundle>, c: CoreVal, mem: seq<int>, enablePause: bool, target: int)
    requires c.state == Running && 0 <= c.pc < |program|
    requires program[c.pc] == Single(FlowEngine, Slot(Jump, [target]))
    ensures CoreTurn(program, c, mem, enablePause) == Ok((c.(pc := target), mem))
  {
    TurnFetches(program, c, mem, enablePause);
    StepJump(target, c.(pc := c.pc + 1), mem, enablePause);
  }

  /** Bundle 2, `iter = iter + one`. */
  lemma LoopIncIter(p: seq<Bundle>, c: CoreVal, mem: seq<int>, enablePause: bool)
    requires SimpleProgramAt(p) && c.state == Running && c.pc == 2 && |c.scratch| >= 5
    requires c.scratch[0] == 1 && 0 <= c.scratch[2] < WORD - 1
    ensures CoreTurn(p, c, mem, enablePause) == Ok((c.(pc := 3, scratch := c.scratch[2 := c.scratch[2] + 1]), mem))
  {
    PlusTurn(p, c, mem, enablePause, 2, 0, 2);
  }

  /** Bundle 3, `cond = limit < iter`. */
  lemma LoopCompare(p: seq<Bundle>, c: CoreVal, mem: seq<int>, enablePause: bool)
    requires SimpleProgramAt(p) && c.state == Running && c.pc == 3 && |c.scratch| >= 5
    ensures CoreTurn(p, c, mem, enablePause) == Ok((c.(pc := 4, scratch := c.scratch[4 := if c.scratch[3] < c.scratch[2] then 1 else 0]), mem))
  {
    LessTurn(p, c, mem, enablePause, 4, 3, 2);
  }

  /** Bundle 4, `cond_jump cond, 7`. */
  lemma LoopTest(p: seq<Bundle>, c: CoreVal, mem: seq<int>, enablePause: bool)
    requires SimpleProgramAt(p) && c.state == Running && c.pc == 4 && |c.scratch| >= 5
    ensures CoreTurn(p, c, mem, enablePause) == Ok((c.(pc := if c.scratch[4] != 0 then 7 else 5), mem))
  {
    CondJumpTurn(p, c, mem, enablePause, 4, 7);
  }

  /** Bundle 5, `accum = accum + one`. */
  lemma LoopAccumulate(p: seq<Bundle>, c: CoreVal, mem: seq<int>, enablePause: bool)
    requires SimpleProgramAt(p) && c.state == Running && c.pc == 5 && |c.scratch| >= 5
    requires c.scratch[0] == 1 && 0 <= c.scratch[1] < WORD - 1
    ensures CoreTurn(p, c, mem, enablePause) == Ok((c.(pc := 6, scratch := c.scratch[1 := c.scratch[1] + 1]), mem))
  {
    PlusTurn(p, c, mem, enablePause, 1, 1, 0);
  }

  /** Bundle 6, `jump 2`. */
  lemma LoopBack(p: seq<Bundle>, c: CoreVal, mem: seq<int>, enablePause: bool)
    requires SimpleProgramAt(p) && c.state == Running && c.pc == 6
    ensures CoreTurn(p, c, mem, enablePause) == Ok((c.(pc := 2), mem))
  {
    JumpTurn(p, c, mem, enablePause, 2);
  }

  /** The five states one pass through the loop's body visits after c. */
  function IterationStates(c: CoreVal): seq<CoreVal>
    requires |c.scratch| >= 5
  {
    var c1 := c.(pc := 3, scratch := c.scratch[2 := c.scratch[2] + 1]);
    var c2 := c1.(pc := 4, scratch := c1.scratch[4 := 0]);
    var c3 := c2.(pc := 5);
    var c4 := c3.(pc := 6, scratch := c3.scratch[1 := c.scratch[1] + 1]);
    [c, c1, c2, c3, c4, c4.(pc := 2)]
  }

  /** Below the limit, the i-th turn of a pass through the loop leads
      from the i-th state IterationStates lists to the next. */
  lemma IterationTurn(p: seq<Bundle>, c: CoreVal, mem: seq<int>, enablePause: bool, i: int)
    requires SimpleProgramAt(p)
    requires c.state == Running && c.pc == 2 && |c.scratch| >= 5
    requires c.scratch[0] == 1 && c.scratch[1] == c.scratch[2]
    requires 0 <= c.scratch[2] < c.scratch[3] < WORD - 1
    requires 0 <= i < 5
    ensures TurnAt(p, IterationStates(c), i, mem, enablePause)
  {
    var cs := IterationStates(c);
    if i == 0 {
      LoopIncIter(p, cs[0], mem, enablePause);
    } else if i == 1 {
      LoopCompare(p, cs[1], mem, enablePause);
    } else if i == 2 {
      LoopTest(p, cs[2], mem, enablePause);
    } else if i == 3 {
      LoopAccumulate(p, cs[3], mem, enablePause);
    } else {
      LoopBack(p, cs[4], mem, enablePause);
    }
  }

  /** A core at the loop's head with iter = accum below the limit. */
  ghost predicate IterationReady(c: CoreVal)
  {
    && c.state == Running && c.pc == 2 && |c.scratch| >= 5
    && c.scratch[0] == 1 && c.scratch[1] == c.scratch[2]
    && 0 <= c.scratch[2] < c.scratch[3] < WORD - 1
  }

  /** A core at the loop's head with iter at or past the limit (a limit
      below iter included). */
  ghost predicate ExitReady(c: CoreVal)
  {
    && c.state == Running && c.pc == 2 && |c.scratch| >= 5
    && c.scratch[0] == 1 && c.scratch[3] <= c.scratch[2] && 0 <= c.scratch[2] < WORD - 1
  }

  /** The four states the last pass through the loop's head visits. */
  function ExitStates(c: CoreVal): seq<CoreVal>
    requires |c.scratch| >= 5
  {
    var c1 := c.(pc := 3, scratch := c.scratch[2 := c.scratch[2] + 1]);
    var c2 := c1.(pc := 4, scratch := c1.scratch[4 := 1]);
    [c, c1, c2, c2.(pc := 7)]
  }

  /** The two states the program's first two bundles lead through. */
  function StartStates(c: CoreVal): seq<CoreVal>
    requires |c.scratch| >= 5
  {
    [c, c.(pc := 1, scratch := c.scratch[0 := 1]), c.(pc := 2, scratch := c.scratch[0 := 1][3 := 10])]
  }

  /** What the run-level lemmas below need to know of the program: its
      length, and the turns its loop takes from every state ready for a
      pass or for the exit. */
  ghost predicate LoopTurns(p: seq<Bundle>, mem: seq<int>, enablePause: bool)
  {
    && |p| <= 7
    && (forall c | IterationReady(c) :: Turns(p, IterationStates(c), mem, enablePause))
    && (forall c | ExitReady(c) :: Turns(p, ExitStates(c), mem, enablePause))
  }

  /** Below the limit, a pass through the loop takes the turns
      IterationStates lists. */
  lemma IterationTurns(p: seq<Bundle>, c: CoreVal, mem: seq<int>, enablePause: bool)
    requires SimpleProgramAt(p) && IterationReady(c)
    ensures Turns(p, IterationStates(c), mem, enablePause)
  {
    forall i | 0 <= i < |IterationStates(c)| - 1
      ensures TurnAt(p, IterationStates(c), i, mem, enablePause)
    {
      IterationTurn(p, c, mem, enablePause, i);
    }
  }

  /** At the limit, the loop's head takes the turns ExitStates lists. */
  lemma ExitTurns(p: seq<Bundle>, c: CoreVal, mem: seq<int>, enablePause: bool)
    requires SimpleProgramAt(p) && ExitReady(c)
    ensures Turns(p, ExitStates(c), mem, enablePause)
  {
    var cs := ExitStates(c);
    forall i | 0 <= i < |cs| - 1
      ensures TurnAt(p, cs, i, mem, enablePause)
    {
      if i == 0 {
        LoopIncIter(p, cs[0], mem, enablePause);
      } else if i == 1 {
        LoopCompare(p, cs[1], mem, enablePause);
      } else {
        LoopTest(p, cs[2], mem, enablePause);
      }
    }
  }

  /** The simple test program's loop takes the turns LoopTurns asks for. */
  lemma SimpleLoopTurns(p: seq<Bundle>, mem: seq<int>, enablePause: bool)
    requires SimpleProgramAt(p)
    ensures LoopTurns(p, mem, enablePause)
  {
    forall c | IterationReady(c)
      ensures Turns(p, IterationStates(c), mem, enablePause)
    {
      IterationTurns(p, c, mem, enablePause);
    }
    forall c | ExitReady(c)
      ensures Turns(p, ExitStates(c), mem, enablePause)
    {
      ExitTurns(p, c, mem, enablePause);
    }
  }

  /** Bundles 0 and 1 set `one = 1` and `limit = 10`. */
  lemma StartTurns(p: seq<Bundle>, c: CoreVal, mem: seq<int>, enablePause: bool)
    requires SimpleProgramAt(p)
    requires c.state == Running && c.pc == 0 && |c.scratch| >= 5
    ensures Turns(p, StartStates(c), mem, enablePause)
  {
    var cs := StartStates(c);
    forall i | 0 <= i < 2
      ensures TurnAt(p, cs, i, mem, enablePause)
    {
      if i == 0 {
        ConstTurn(p, cs[0], mem, enablePause, 0, 1);
      } else {
        ConstTurn(p, cs[1], mem, enablePause, 3, 10);
      }
    }
  }

  /** One iteration of the simple test's loop with iter = accum = k below
      the limit: five cycles later the core is back at the loop's first
      bundle with iter = accum = k + 1 and the condition word cleared. */
  lemma SimpleTestIteration(p: seq<Bundle>, k: nat, c: CoreVal, mem: seq<int>, enablePause: bool, cycle: nat, fuel: nat)
    requires LoopTurns(p, mem, enablePause)
    requires IterationReady(c) && c.scratch[2] == k && fuel >= 5
    ensures RunLoop(p, MachineVal([c], mem, cycle), enablePause, fuel)
         == RunLoop(p, MachineVal([c.(scratch := c.scratch[2 := k + 1][4 := 0][1 := k + 1])], mem, cycle + 5), enablePause, fuel - 5)
  {
    var cs := IterationStates(c);
    RunLoopTurns(p, cs, mem, enablePause, cycle, fuel);
  }

  /** The loop's head entered with limit <= iter: the body does not run,
      and four cycles later the core has left the loop and stopped, with
      iter one higher, the condition word set and accum untouched. */
  lemma SimpleTestExit(p: seq<Bundle>, c: CoreVal, mem: seq<int>, enablePause: bool, cycle: nat, fuel: nat)
    requires LoopTurns(p, mem, enablePause)
    requires ExitReady(c) && fuel >= 4
    ensures RunLoop(p, MachineVal([c], mem, cycle), enablePause, fuel)
         == Ok((MachineVal([c.(pc := 7, state := Stopped, scratch := c.scratch[2 := c.scratch[2] + 1][4 := 1])], mem, cycle + 4), true))
  {
    var cs := ExitStates(c);
    RunLoopTurns(p, cs, mem, enablePause, cycle, fuel);
    OneCoreStops(p, cs[3], mem, enablePause, cycle + 3, fuel - 3);
    assert cs[3].(state := Stopped) == c.(pc := 7, state := Stopped, scratch := c.scratch[2 := c.scratch[2] + 1][4 := 1]);
  }

  /** The last pass, with accum already at the limit, leaves the core as
      LoopExit describes. */
  lemma SimpleTestLastPass(p: seq<Bundle>, c: CoreVal, mem: seq<int>, enablePause: bool, cycle: nat, fuel: nat)
    requires LoopTurns(p, mem, enablePause)
    requires ExitReady(c) && c.scratch[2] == c.scratch[3] && c.scratch[1] == c.scratch[3] && fuel >= 4
    ensures RunLoop(p, MachineVal([c], mem, cycle), enablePause, fuel)
         == Ok((MachineVal([LoopExit(c)], mem, cycle + 4), true))
  {
    SimpleTestExit(p, c, mem, enablePause, cycle, fuel);
    assert c.scratch[1 := c.scratch[3]] == c.scratch;
  }

  /** The core as the simple test's loop leaves it: stopped past the
      program's end, accum and iter at the limit and one past it, and the
      condition word set. */
  function LoopExit(c: CoreVal): CoreVal
    requires |c.scratch| >= 5
  {
    c.(pc := 7, state := Stopped, scratch := c.scratch[1 := c.scratch[3]][2 := c.scratch[3] + 1][4 := 1])
  }

  /** The simple test's loop entered with iter = accum = k <= limit: run
      ends after 5 cycles per remaining iteration and 4 more, in the state
      LoopExit describes, with the memory untouched. */
  lemma {:induction false} SimpleTestLoop(p: seq<Bundle>, k: nat, c: CoreVal, mem: seq<int>, enablePause: bool, cycle: nat, fuel: nat)
    requires LoopTurns(p, mem, enablePause)
    requires c.state == Running && c.pc == 2 && |c.scratch| >= 5
    requires c.scratch[0] == 1 && c.scratch[1] == k && c.scratch[2] == k
    requires k <= c.scratch[3] < WORD - 1
    requires fuel >= 5 * (c.scratch[3] - k) + 4
    ensures RunLoop(p, MachineVal([c], mem, cycle), enablePause, fuel)
         == Ok((MachineVal([LoopExit(c)], mem, cycle + 5 * (c.scratch[3] - k) + 4), true))
    decreases c.scratch[3] - k
  {
    if k == c.scratch[3] {
      SimpleTestLastPass(p, c, mem, enablePause, cycle, fuel);
    } else {
      SimpleTestIteration(p, k, c, mem, enablePause, cycle, fuel);
      var c' := c.(scratch := c.scratch[2 := k + 1][4 := 0][1 := k + 1]);
      SimpleTestLoop(p, k + 1, c', mem, enablePause, cycle + 5, fuel - 5);
      LoopExitAfterPass(c, k);
    }
  }

  /** The five states a pass through the loop visits after c when iter
      is 2^32 - 1: the `+` wraps iter around to 0, and limit < 0 fails. */
  function WrapStates(c: CoreVal): seq<CoreVal>
    requires |c.scratch| >= 5
  {
    var c1 := c.(pc := 3, scratch := c.scratch[2 := 0]);
    var c2 := c1.(pc := 4, scratch := c1.scratch[4 := 0]);
    var c3 := c2.(pc := 5);
    var c4 := c3.(pc := 6, scratch := c3.scratch[1 := c.scratch[1] + 1]);
    [c, c1, c2, c3, c4, c4.(pc := 2)]
  }

  /** The loop's head with iter = 2^32 - 1 and a limit that is not
      negative: the 32-bit `+` takes iter back to 0, so `limit < iter`
      is false, the body runs, and five cycles later the core is back at
      the loop's head with iter = 0. With a limit of 2^32 - 1 or more the
      condition can never hold, and for_loop does not end. */
  lemma SimpleTestWraps(p: seq<Bundle>, c: CoreVal, mem: seq<int>, enablePause: bool, cycle: nat, fuel: nat)
    requires SimpleProgramAt(p)
    requires c.state == Running && c.pc == 2 && |c.scratch| >= 5
    requires c.scratch[0] == 1 && c.scratch[2] == WORD - 1 && 0 <= c.scratch[3]
    requires 0 <= c.scratch[1] < WORD - 1 && fuel >= 5
    ensures RunLoop(p, MachineVal([c], mem, cycle), enablePause, fuel)
         == RunLoop(p, MachineVal([c.(scratch := c.scratch[2 := 0][4 := 0][1 := c.scratch[1] + 1])], mem, cycle + 5), enablePause, fuel - 5)
  {
    var cs := WrapStates(c);
    forall i | 0 <= i < |cs| - 1
      ensures TurnAt(p, cs, i, mem, enablePause)
    {
      if i == 0 {
        assert AluResult(Plus, c.scratch[0], c.scratch[2]) == Ok(0);
        AluTurn(p, cs[0], mem, enablePause, Plus, 2, 0, 2);
      } else if i == 1 {
        LoopCompare(p, cs[1], mem, enablePause);
      } else if i == 2 {
        LoopTest(p, cs[2], mem, enablePause);
      } else if i == 3 {
        LoopAccumulate(p, cs[3], mem, enablePause);
      } else {
        LoopBack(p, cs[4], mem, enablePause);
      }
    }
    RunLoopTurns(p, cs, mem, enablePause, cycle, fuel);
  }

  /** A pass through the loop does not change where the loop leaves the core. */
  lemma LoopExitAfterPass(c: CoreVal, k: int)
    requires |c.scratch| >= 5
    ensures LoopExit(c.(scratch := c.scratch[2 := k + 1][4 := 0][1 := k + 1])) == LoopExit(c)
  {
    assert c.scratch[2 := k + 1][4 := 0][1 := k + 1][1 := c.scratch[3]][2 := c.scratch[3] + 1][4 := 1]
        == c.scratch[1 := c.scratch[3]][2 := c.scratch[3] + 1][4 := 1];
  }

  /** The simple test program from its first bundle: `one = 1` and
      `limit = 10`, then ten passes through the loop and the exit, 56
      cycles in all, leaving accum at 10 and iter at 11. */
  lemma SimpleTestFromStart(p: seq<Bundle>, c: CoreVal, mem: seq<int>, enablePause: bool, fuel: nat)
    requires LoopTurns(p, mem, enablePause)
    requires c.state == Running && c.pc == 0 && |c.scratch| >= 5
    requires Turns(p, StartStates(c), mem, enablePause)
    requires c.scratch[1] == 0 && c.scratch[2] == 0 && fuel >= 56
    ensures RunLoop(p, MachineVal([c], mem, 0), enablePause, fuel)
         == Ok((MachineVal([c.(pc := 7, state := Stopped, scratch := c.scratch[0 := 1][3 := 10][1 := 10][2 := 11][4 := 1])], mem, 56), true))
  {
    var c2 := StartStates(c)[2];
    RunLoopTurns(p, StartStates(c), mem, enablePause, 0, fuel);
    SimpleTestLoop(p, 0, c2, mem, enablePause, 2, fuel - 2);
  }

  /** test_simple: the simple test program on one fresh core (as the
      Machine constructor builds it) over ten zero words of memory runs to
      completion in 56 cycles, whatever bound above that run is given, and
      leaves 10 in accum (scratch word 1). */
  lemma SimpleTestCountsToTen(fuel: nat)
    requires fuel >= 56
    ensures var m := MachineVal(seq(1, i => CoreVal(i, seq(SCRATCH_SIZE, _ => 0), [], 0, Running)), seq(10, _ => 0), 0);
      var r := RunSpec(SimpleTestProgram(), m, true, fuel);
      && r.Ok? && r.value.1
      && |r.value.0.cores| == 1
      && |r.value.0.cores[0].scratch| == SCRATCH_SIZE
      && r.value.0.cores[0].scratch[1] == 10
      && r.value.0.cycle == 56
  {
    var c := CoreVal(0, seq(SCRATCH_SIZE, _ => 0), [], 0, Running);
    var m := MachineVal(seq(1, i => CoreVal(i, seq(SCRATCH_SIZE, _ => 0), [], 0, Running)), seq(10, _ => 0), 0);
    assert m.(cores := Resume(m.cores)) == MachineVal([c], m.mem, 0);
    SimpleTestBundles();
    SimpleLoopTurns(SimpleTestProgram(), m.mem, true);
    StartTurns(SimpleTestProgram(), c, m.mem, true);
    SimpleTestFromStart(SimpleTestProgram(), c, m.mem, true, fuel);
  }
}
