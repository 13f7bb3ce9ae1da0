/** The functional specification of the workload in perf/problem.py: the
    32-bit hash `myhash`, the tree traversal `reference_kernel` on a tree and
    an input batch, the flat memory image `build_mem_image`, and
    `reference_kernel2`, the same traversal on that flat memory. */
module Reference {
  import opened Common
  import opened PyInt
  import opened Simulator

  // ---------------------------------------------------------------------
  // myhash
  // ---------------------------------------------------------------------

  /** One row of HASH_STAGES: a = r(op2(r(op1(a, val1)), r(op3(a, val3)))). */
  datatype HashStage = HashStage(op1: Op, val1: int, op2: Op, op3: Op, val3: int)

  const HASH_STAGES: seq<HashStage> := [
    HashStage(Plus, 0x7ED55D16, Plus, ShiftL, 12),
    HashStage(BitXor, 0xC761C23C, BitXor, ShiftR, 19),
    HashStage(Plus, 0x165667B1, Plus, ShiftL, 5),
    HashStage(Plus, 0xD3A2646C, BitXor, ShiftL, 9),
    HashStage(Plus, 0xFD7046C5, Plus, ShiftL, 3),
    HashStage(BitXor, 0xB55A4F09, BitXor, ShiftR, 16)
  ]

  /** The operators of myhash's `fns`. */
  predicate IsHashOp(op: Op)
  {
    op == Plus || op == BitXor || op == ShiftL || op == ShiftR
  }

  /** Every stage uses operators of `fns` and non-negative constants. */
  predicate WellFormedStages(stages: seq<HashStage>)
  {
    forall s :: s in stages ==>
      IsHashOp(s.op1) && IsHashOp(s.op2) && IsHashOp(s.op3) && 0 <= s.val1 < WORD && 0 <= s.val3 < WORD
  }

  lemma HashStagesWellFormed()
    ensures WellFormedStages(HASH_STAGES)
  {
  }

  /** fns[op](x, y); y is never negative here (a constant or a word). */
  function HashOp(op: Op, x: int, y: nat): int
    requires IsHashOp(op)
  {
    if op == Plus then x + y
    else if op == BitXor then Xor(x, y)
    else if op == ShiftL then ShiftLeft(x, y)
    else ShiftRight(x, y)
  }

  /** r(x) = x % 2**32 */
  function R(x: int): nat
  {
    x % WORD
  }

  /** One stage of myhash. */
  function Stage(a: int, s: HashStage): int
    requires IsHashOp(s.op1) && IsHashOp(s.op2) && IsHashOp(s.op3) && s.val1 >= 0 && s.val3 >= 0
  {
    R(HashOp(s.op2, R(HashOp(s.op1, a, s.val1)), R(HashOp(s.op3, a, s.val3))))
  }

  /** The stages applied to a in order. */
  function ApplyStages(a: int, stages: seq<HashStage>): int
    requires WellFormedStages(stages)
    decreases |stages|
  {
    if |stages| == 0 then a
    else
      assert stages[0] in stages;
      ApplyStages(Stage(a, stages[0]), stages[1..])
  }

  /** myhash(a) */
  function Hash(a: int): int
  {
    HashStagesWellFormed();
    ApplyStages(a, HASH_STAGES)
  }

  /** myhash as the source writes it: a loop over HASH_STAGES. */
  method MyHash(a: int) returns (r: int)
    ensures r == Hash(a)
  {
    HashStagesWellFormed();
    r := a;
    for i := 0 to |HASH_STAGES|
      invariant ApplyStages(r, HASH_STAGES[i..]) == Hash(a)
    {
      var s := HASH_STAGES[i];
      assert s in HASH_STAGES;
      assert HASH_STAGES[i..][0] == s && HASH_STAGES[i..][1..] == HASH_STAGES[i + 1..];
      r := R(HashOp(s.op2, R(HashOp(s.op1, r, s.val1)), R(HashOp(s.op3, r, s.val3))));
    }
  }

  /** A non-empty run of stages gives a 32-bit word. */
  lemma {:induction false} ApplyStagesBound(a: int, stages: seq<HashStage>)
    requires WellFormedStages(stages) && |stages| > 0
    ensures 0 <= ApplyStages(a, stages) < WORD
    decreases |stages|
  {
    assert stages[0] in stages;
    if |stages| > 1 {
      ApplyStagesBound(Stage(a, stages[0]), stages[1..]);
    }
  }

  /** myhash returns a 32-bit word, whatever its argument. */
  lemma HashBound(a: int)
    ensures 0 <= Hash(a) < WORD
  {
    HashStagesWellFormed();
    ApplyStagesBound(a, HASH_STAGES);
  }

  /** Adding a multiple of 2**32 does not change a value mod 2**32. */
  lemma ModMultiple(x: int, q: int)
    ensures (x + WORD * q) % WORD == x % WORD
  {
    var r, d := x % WORD, x / WORD;
    assert x + WORD * q == WORD * (d + q) + r;
  }

  /** myhash only looks at the low 32 bits of its argument: its first stage
      adds a constant and shifts left, and both commute with mod 2**32. */
  lemma HashLow32(a: int)
    ensures Hash(a) == Hash(a % WORD)
  {
    var s := HASH_STAGES[0];
    var lo, q := a % WORD, a / WORD;
    assert a == lo + WORD * q;
    assert Pow2(12) == 4096 by {
      assert Pow2(4) == 16;
      Pow2Add(4, 4);
      Pow2Add(8, 4);
    }
    calc {
      R(HashOp(Plus, a, s.val1));
      (lo + s.val1 + WORD * q) % WORD;
      { ModMultiple(lo + s.val1, q); }
      R(HashOp(Plus, lo, s.val1));
    }
    calc {
      R(HashOp(ShiftL, a, s.val3));
      (lo * 4096 + WORD * (q * 4096)) % WORD;
      { ModMultiple(lo * 4096, q * 4096); }
      R(HashOp(ShiftL, lo, s.val3));
    }
    assert Stage(a, s) == Stage(lo, s);
  }

  // ---------------------------------------------------------------------
  // reference_kernel
  // ---------------------------------------------------------------------

  /** A forest: its height and the values of its nodes in heap order (the
      children of node i are 2i+1 and 2i+2). */
  datatype Tree = Tree(height: int, values: seq<int>)

  /** The batch: for each item the index of its current node and its value,
      and the number of rounds. reference_kernel updates both lists in
      place. */
  class Input {
    var indices: seq<int>
    var values: seq<int>
    const rounds: int

    constructor(indices: seq<int>, values: seq<int>, rounds: int)
      ensures this.indices == indices && this.values == values && this.rounds == rounds
    {
      this.indices := indices;
      this.values := values;
      this.rounds := rounds;
    }
  }

  /** The next node of an item at node idx whose new value is v: the left
      child on an even value, else the right one, and back to the root once
      past the last of the n nodes. */
  function Branch(idx: int, v: int, n: int): int
  {
    var next := 2 * idx + (if v % 2 == 0 then 1 else 2);
    if next >= n then 0 else next
  }

  /** One visit: hash the value with the node's value, then branch. The
      traversal is stated for any hash function; the kernels use myhash. */
  function Visit(hash: int -> int, tv: seq<int>, idx: int, val: int): Result<(int, int), Error>
  {
    var node :- Read(tv, idx);
    var v := hash(Xor(val, node));
    Ok((Branch(idx, v, |tv|), v))
  }

  /** The items i.. of one round. */
  function RoundFrom(hash: int -> int, tv: seq<int>, indices: seq<int>, values: seq<int>, i: nat): Result<(seq<int>, seq<int>), Error>
    decreases |indices| - i
  {
    if i >= |indices| then Ok((indices, values))
    else if i >= |values| then Err(IndexOutOfRange)
    else
      var (idx, v) :- Visit(hash, tv, indices[i], values[i]);
      RoundFrom(hash, tv, indices[i := idx], values[i := v], i + 1)
  }

  /** Rounds h.. of `for h in range(rounds)`. */
  function RoundsFrom(hash: int -> int, tv: seq<int>, indices: seq<int>, values: seq<int>, h: int, rounds: int): Result<(seq<int>, seq<int>), Error>
    decreases rounds - h
  {
    if h >= rounds then Ok((indices, values))
    else
      var (ind, vals) :- RoundFrom(hash, tv, indices, values, 0);
      RoundsFrom(hash, tv, ind, vals, h + 1, rounds)
  }

  /** Item i of a round: it fails without a value or a node to read, and
      otherwise the round goes on from the lists with item i updated. */
  lemma RoundFromVisit(hash: int -> int, tv: seq<int>, indices: seq<int>, values: seq<int>, i: nat)
    requires i < |indices|
    ensures i >= |values| ==> RoundFrom(hash, tv, indices, values, i) == Err(IndexOutOfRange)
    ensures i < |values| && Read(tv, indices[i]).Err? ==> RoundFrom(hash, tv, indices, values, i) == Err(Read(tv, indices[i]).error)
    ensures i < |values| && Read(tv, indices[i]).Ok? ==>
      var v := hash(Xor(values[i], Read(tv, indices[i]).value));
      RoundFrom(hash, tv, indices, values, i) == RoundFrom(hash, tv, indices[i := Branch(indices[i], v, |tv|)], values[i := v], i + 1)
  {
  }

  /** Round h of several: a failing round fails them all, and otherwise the
      rest go on from what it computed. */
  lemma RoundsFromStep(hash: int -> int, tv: seq<int>, indices: seq<int>, values: seq<int>, h: int, rounds: int)
    requires h < rounds
    ensures var r := RoundFrom(hash, tv, indices, values, 0);
      && (r.Err? ==> RoundsFrom(hash, tv, indices, values, h, rounds) == Err(r.error))
      && (r.Ok? ==> RoundsFrom(hash, tv, indices, values, h, rounds) == RoundsFrom(hash, tv, r.value.0, r.value.1, h + 1, rounds))
  {
  }

  /** Item i of a round of reference_kernel, in place: on success the rest
      of the round from the new lists is the rest of the round from the old
      ones; on failure the round fails with the same error. */
  method KernelVisit(t: Tree, inp: Input, i: int) returns (r: Outcome<Error>)
    requires 0 <= i < |inp.indices|
    modifies inp
    ensures |inp.indices| == old(|inp.indices|)
    ensures r.Pass? ==> (RoundFrom(Hash, t.values, old(inp.indices), old(inp.values), i)
                      == RoundFrom(Hash, t.values, inp.indices, inp.values, i + 1))
    ensures r.Fail? ==> RoundFrom(Hash, t.values, old(inp.indices), old(inp.values), i) == Err(r.error)
  {
    RoundFromVisit(Hash, t.values, inp.indices, inp.values, i);
    var idx := inp.indices[i];
    if i >= |inp.values| { return Fail(IndexOutOfRange); }
    var val := inp.values[i];
    var node := Read(t.values, idx);
    if node.Err? { return Fail(node.error); }
    val := MyHash(Xor(val, node.value));
    idx := Branch(idx, val, |t.values|);
    inp.values := inp.values[i := val];
    inp.indices := inp.indices[i := idx];
    r := Pass;
  }

  /** One round of reference_kernel: the body of `for h in range(rounds)`. */
  method KernelRound(t: Tree, inp: Input) returns (r: Outcome<Error>)
    modifies inp
    ensures Agrees(r, RoundFrom(Hash, t.values, old(inp.indices), old(inp.values), 0), (inp.indices, inp.values))
  {
    var n := |inp.indices|;
    for i := 0 to n
      invariant |inp.indices| == n
      invariant RoundFrom(Hash, t.values, inp.indices, inp.values, i) == RoundFrom(Hash, t.values, old(inp.indices), old(inp.values), 0)
    {
      r := KernelVisit(t, inp, i);
      if r.Fail? { return; }
    }
    r := Pass;
  }

  /** reference_kernel(t, inp) */
  method ReferenceKernel(t: Tree, inp: Input) returns (r: Outcome<Error>)
    modifies inp
    ensures Agrees(r, RoundsFrom(Hash, t.values, old(inp.indices), old(inp.values), 0, inp.rounds), (inp.indices, inp.values))
  {
    var h := 0;
    while h < inp.rounds
      invariant RoundsFrom(Hash, t.values, inp.indices, inp.values, h, inp.rounds)
             == RoundsFrom(Hash, t.values, old(inp.indices), old(inp.values), 0, inp.rounds)
      decreases inp.rounds - h
    {
      RoundsFromStep(Hash, t.values, inp.indices, inp.values, h, inp.rounds);
      r := KernelRound(t, inp);
      if r.Fail? { return; }
      h := h + 1;
    }
    r := Pass;
  }

  /** hash maps every integer to a 32-bit word, as myhash does. */
  ghost predicate WordValued(hash: int -> int)
  {
    forall x :: 0 <= hash(x) < WORD
  }

  lemma HashWordValued()
    ensures WordValued(Hash)
  {
    forall x ensures 0 <= Hash(x) < WORD {
      HashBound(x);
    }
  }

  /** A visit from a node inside the tree succeeds and lands inside the
      tree again. */
  lemma VisitInRange(hash: int -> int, tv: seq<int>, idx: int, val: int)
    requires 0 <= idx < |tv|
    ensures Visit(hash, tv, idx, val).Ok?
    ensures 0 <= Visit(hash, tv, idx, val).value.0 < |tv|
    ensures Visit(hash, tv, idx, val).value.1 == hash(Xor(val, tv[idx]))
  {
    assert Read(tv, idx) == Ok(tv[idx]);
  }

  /** Every index of a batch lies inside the tree. */
  predicate InTree(indices: seq<int>, n: int)
  {
    forall i :: 0 <= i < |indices| ==> 0 <= indices[i] < n
  }

  /** With every index inside the tree and a value per index, a round
      succeeds, keeps every index inside the tree and both lengths, leaves
      the items before i alone and, with a word-valued hash, makes every
      value from i on a 32-bit word. */
  lemma {:induction false} RoundFromInRange(hash: int -> int, tv: seq<int>, indices: seq<int>, values: seq<int>, i: nat)
    requires InTree(indices, |tv|) && |values| == |indices|
    ensures var r := RoundFrom(hash, tv, indices, values, i);
      && r.Ok?
      && InTree(r.value.0, |tv|)
      && |r.value.0| == |indices| && |r.value.1| == |values|
      && (forall k :: 0 <= k < i && k < |values| ==> r.value.1[k] == values[k])
      && (WordValued(hash) ==> forall k :: i <= k < |values| ==> 0 <= r.value.1[k] < WORD)
    decreases |indices| - i
  {
    if i < |indices| {
      VisitInRange(hash, tv, indices[i], values[i]);
      var (idx, v) := Visit(hash, tv, indices[i], values[i]).value;
      RoundFromInRange(hash, tv, indices[i := idx], values[i := v], i + 1);
    }
  }

  /** The same over all rounds. */
  lemma {:induction false} RoundsFromInRange(hash: int -> int, tv: seq<int>, indices: seq<int>, values: seq<int>, h: int, rounds: int)
    requires InTree(indices, |tv|) && |values| == |indices|
    ensures var r := RoundsFrom(hash, tv, indices, values, h, rounds);
      && r.Ok?
      && InTree(r.value.0, |tv|)
      && |r.value.0| == |indices| && |r.value.1| == |values|
    decreases rounds - h
  {
    if h < rounds {
      RoundFromInRange(hash, tv, indices, values, 0);
      var (ind, vals) := RoundFrom(hash, tv, indices, values, 0).value;
      RoundsFromInRange(hash, tv, ind, vals, h + 1, rounds);
    }
  }

  // ---------------------------------------------------------------------
  // build_mem_image
  // ---------------------------------------------------------------------

  /** Python's clamping of a slice bound b to a list of length n. */
  function SliceBound(n: nat, b: int): (r: nat)
    ensures r <= n
  {
    if b < 0 then (if b + n < 0 then 0 else b + n) else if b > n then n else b
  }

  /** lst[lo:hi] = xs: the slice is replaced by xs, which may have another
      length, so the list may grow or shrink. */
  function SliceAssign(lst: seq<int>, lo: int, hi: int, xs: seq<int>): seq<int>
  {
    var a := SliceBound(|lst|, lo);
    var b := SliceBound(|lst|, hi);
    lst[..a] + xs + lst[(if b < a then a else b)..]
  }

  /** lst[lo:] = xs */
  function SliceAssignTail(lst: seq<int>, lo: int, xs: seq<int>): seq<int>
  {
    lst[..SliceBound(|lst|, lo)] + xs
  }

  /** build_mem_image(t, inp) as written: a header of 7 words for 8 header
      fields, and a final slice assignment that replaces the whole tail. */
  function MemImageAsWritten(t: Tree, rounds: int, indices: seq<int>, values: seq<int>): seq<int>
  {
    var header := 7;
    var inpIndicesP := header + |t.values|;
    var inpValuesP := inpIndicesP + |values|;
    var mem := HeaderAsWritten(t, rounds, indices, values);
    var mem := SliceAssign(mem, header, inpIndicesP, t.values);
    var mem := SliceAssign(mem, inpIndicesP, inpValuesP, indices);
    SliceAssignTail(mem, inpValuesP, values)
  }

  /** The zeroed image once the eight header fields are written. */
  function HeaderAsWritten(t: Tree, rounds: int, indices: seq<int>, values: seq<int>): seq<int>
  {
    var header := 7;
    var n := |t.values|;
    var extraRoom := n + |indices| * 2 + VLEN * 2 + 32;
    var mem := seq(header + n + |indices| + |values| + extraRoom, _ => 0);
    var forestValuesP := header;
    var inpIndicesP := forestValuesP + n;
    var inpValuesP := inpIndicesP + |values|;
    var extraRoomP := inpValuesP + |values|;
    mem[0 := rounds][1 := n][2 := |indices|][3 := t.height][4 := forestValuesP]
       [5 := inpIndicesP][6 := inpValuesP][7 := extraRoomP]
  }

  /** The first forest value lands on word 7, where the pointer to the
      extra room was written: that pointer never reaches the image. */
  lemma ExtraRoomPointerOverwritten(t: Tree, rounds: int, indices: seq<int>, values: seq<int>)
    requires |t.values| >= 1 && |values| == |indices|
    ensures MemImageAsWritten(t, rounds, indices, values)[7] == t.values[0]
  {
    ImageAsWrittenShape(t, rounds, indices, values);
  }

  /** The image ends right after the values: the extra room is cut off, and
      the extra-room pointer of word 7 would point past the end. */
  lemma ExtraRoomDropped(t: Tree, rounds: int, indices: seq<int>, values: seq<int>)
    requires |values| == |indices|
    ensures |MemImageAsWritten(t, rounds, indices, values)| == 7 + |t.values| + 2 * |values|
  {
    ImageAsWrittenShape(t, rounds, indices, values);
  }

  /** A concrete input on which word 7 is not the extra-room pointer (12)
      and the image has no extra room. */
  lemma ImageAsWrittenExample()
    ensures var mem := MemImageAsWritten(Tree(0, [5]), 1, [0, 0], [3, 4]);
      mem[7] == 5 && |mem| == 12
  {
    ExtraRoomPointerOverwritten(Tree(0, [5]), 1, [0, 0], [3, 4]);
    ExtraRoomDropped(Tree(0, [5]), 1, [0, 0], [3, 4]);
  }

  /** The header words the kernels read. */
  const HEADER_WORDS: nat := 7

  /** The header words reference_kernel2 reads: words 0-2 and 4-6. */
  datatype Header = Header(rounds: int, nNodes: int, batchSize: int, forestValuesP: int, inpIndicesP: int, inpValuesP: int)

  function ReadHeader(mem: seq<int>): (r: Result<Header, Error>)
    ensures r.Ok? <==> |mem| >= HEADER_WORDS
  {
    if |mem| < HEADER_WORDS then Err(IndexOutOfRange)
    else Ok(Header(mem[0], mem[1], mem[2], mem[4], mem[5], mem[6]))
  }

  /** mem holds, where hd points, the forest values tv, the indices and the
      values, in disjoint regions after the header, and hd's node count and
      batch size are theirs. */
  predicate Regions(mem: seq<int>, hd: Header, tv: seq<int>, indices: seq<int>, values: seq<int>)
  {
    && hd.nNodes == |tv| && hd.batchSize == |indices| == |values|
    && HEADER_WORDS <= hd.forestValuesP && hd.forestValuesP + |tv| <= hd.inpIndicesP
    && hd.inpIndicesP + |indices| <= hd.inpValuesP && hd.inpValuesP + |values| <= |mem|
    && (forall k :: 0 <= k < |tv| ==> mem[hd.forestValuesP + k] == tv[k])
    && (forall k :: 0 <= k < |indices| ==> mem[hd.inpIndicesP + k] == indices[k])
    && (forall k :: 0 <= k < |values| ==> mem[hd.inpValuesP + k] == values[k])
  }

  /** mem holds a batch as the kernels expect it: the header in words 0-6
      (rounds, node count, batch size, and the pointers to the forest values,
      the indices and the values in words 4-6), then the three regions. */
  predicate Layout(mem: seq<int>, tv: seq<int>, indices: seq<int>, values: seq<int>, rounds: int)
  {
    && ReadHeader(mem).Ok?
    && ReadHeader(mem).value.rounds == rounds
    && Regions(mem, ReadHeader(mem).value, tv, indices, values)
  }

  /** lst[lo:hi] = xs with a slice inside the list and xs of the slice's
      length: the list keeps its length and xs overwrites the slice. */
  lemma SliceAssignInPlace(lst: seq<int>, lo: int, hi: int, xs: seq<int>)
    requires 0 <= lo <= hi <= |lst| && |xs| == hi - lo
    ensures var r := SliceAssign(lst, lo, hi, xs);
      && |r| == |lst|
      && (forall k :: 0 <= k < lo ==> r[k] == lst[k])
      && (forall k :: 0 <= k < |xs| ==> r[lo + k] == xs[k])
      && (forall k :: hi <= k < |lst| ==> r[k] == lst[k])
  {
    assert SliceAssign(lst, lo, hi, xs) == lst[..lo] + xs + lst[hi..];
  }

  /** The image as written: 7 + n + 2b words, the header in words 0-6, then
      the forest values, the indices and the values, back to back. */
  lemma ImageAsWrittenShape(t: Tree, rounds: int, indices: seq<int>, values: seq<int>)
    requires |values| == |indices|
    ensures var mem := MemImageAsWritten(t, rounds, indices, values);
      var n, b := |t.values|, |values|;
      && |mem| == 7 + n + 2 * b
      && mem[0] == rounds && mem[1] == n && mem[2] == b && mem[3] == t.height
      && mem[4] == 7 && mem[5] == 7 + n && mem[6] == 7 + n + b
      && (forall k :: 0 <= k < n ==> mem[7 + k] == t.values[k])
      && (forall k :: 0 <= k < b ==> mem[7 + n + k] == indices[k])
      && (forall k :: 0 <= k < b ==> mem[7 + n + b + k] == values[k])
  {
    var n, b := |t.values|, |values|;
    var mem1 := HeaderAsWritten(t, rounds, indices, values);
    assert |mem1| == 7 + n + b + b + (n + b * 2 + VLEN * 2 + 32);
    assert mem1[0] == rounds && mem1[1] == n && mem1[2] == b && mem1[3] == t.height;
    assert mem1[4] == 7 && mem1[5] == 7 + n && mem1[6] == 7 + n + b;
    var mem2 := SliceAssign(mem1, 7, 7 + n, t.values);
    SliceAssignInPlace(mem1, 7, 7 + n, t.values);
    var mem3 := SliceAssign(mem2, 7 + n, 7 + n + b, indices);
    SliceAssignInPlace(mem2, 7 + n, 7 + n + b, indices);
    var mem4 := SliceAssignTail(mem3, 7 + n + b, values);
    assert mem4 == mem3[..7 + n + b] + values;
    forall k | 0 <= k < n ensures mem4[7 + k] == t.values[k] {
      assert mem3[7 + k] == mem2[7 + k];
    }
  }

  /** The image as written still has the layout the kernels need. */
  lemma ImageAsWrittenLayout(t: Tree, rounds: int, indices: seq<int>, values: seq<int>)
    requires |values| == |indices|
    ensures Layout(MemImageAsWritten(t, rounds, indices, values), t.values, indices, values, rounds)
  {
    var mem := MemImageAsWritten(t, rounds, indices, values);
    var n, b := |t.values|, |values|;
    ImageAsWrittenShape(t, rounds, indices, values);
    var hd := Header(rounds, n, b, 7, 7 + n, 7 + n + b);
    assert ReadHeader(mem) == Ok(hd);
    assert Regions(mem, hd, t.values, indices, values);
  }

  /** build_mem_image with the evident intent: 8 header words, so the
      forest starts after the extra-room pointer, and the values written
      over their own slice only, so the extra room stays. */
  function MemImage(t: Tree, rounds: int, indices: seq<int>, values: seq<int>): seq<int>
  {
    var header := 8;
    var n := |t.values|;
    var extraRoom := n + |indices| * 2 + VLEN * 2 + 32;
    var forestValuesP := header;
    var inpIndicesP := forestValuesP + n;
    var inpValuesP := inpIndicesP + |indices|;
    var extraRoomP := inpValuesP + |values|;
    [rounds, n, |indices|, t.height, forestValuesP, inpIndicesP, inpValuesP, extraRoomP]
      + t.values + indices + values + seq(extraRoom, _ => 0)
  }

  /** The corrected image keeps the extra-room pointer in word 7, pointing
      at extra room that is all zeros and as large as the source reserves. */
  lemma MemImageExtraRoom(t: Tree, rounds: int, indices: seq<int>, values: seq<int>)
    ensures var mem := MemImage(t, rounds, indices, values);
      var n, b := |t.values|, |indices|;
      && |mem| == mem[7] + n + 2 * b + VLEN * 2 + 32
      && mem[7] == 8 + n + b + |values|
      && forall k :: mem[7] <= k < |mem| ==> mem[k] == 0
  {
  }

  /** The corrected image has the layout the kernels need. */
  lemma MemImageLayout(t: Tree, rounds: int, indices: seq<int>, values: seq<int>)
    requires |values| == |indices|
    ensures Layout(MemImage(t, rounds, indices, values), t.values, indices, values, rounds)
  {
    var mem := MemImage(t, rounds, indices, values);
    var n, b := |t.values|, |values|;
    forall k | 0 <= k < n ensures mem[8 + k] == t.values[k] { }
    forall k | 0 <= k < b ensures mem[8 + n + k] == indices[k] { }
    forall k | 0 <= k < b ensures mem[8 + n + b + k] == values[k] { }
    var hd := Header(rounds, n, b, 8, 8 + n, 8 + n + b);
    assert ReadHeader(mem) == Ok(hd);
  }

  // ---------------------------------------------------------------------
  // reference_kernel2
  // ---------------------------------------------------------------------

  /** lst[i] = v */
  function Write(s: seq<int>, i: int, v: int): (r: Result<seq<int>, Error>)
    ensures r.Ok? ==> |r.value| == |s|
  {
    match PyIndex(|s|, i)
    case None => Err(IndexOutOfRange)
    case Some(p) => Ok(s[p := v])
  }

  /** The items i.. of one round on the flat memory. */
  function FlatRoundFrom(hash: int -> int, mem: seq<int>, hd: Header, i: int): (r: Result<seq<int>, Error>)
    ensures r.Ok? ==> |r.value| == |mem|
    decreases hd.batchSize - i
  {
    if i >= hd.batchSize then Ok(mem)
    else
      var idx :- Read(mem, hd.inpIndicesP + i);
      var val :- Read(mem, hd.inpValuesP + i);
      var node :- Read(mem, hd.forestValuesP + idx);
      var v := hash(Xor(val, node));
      var mem :- Write(mem, hd.inpValuesP + i, v);
      var mem :- Write(mem, hd.inpIndicesP + i, Branch(idx, v, hd.nNodes));
      FlatRoundFrom(hash, mem, hd, i + 1)
  }

  /** The memory after each of the rounds h.. */
  function FlatRoundsFrom(hash: int -> int, mem: seq<int>, hd: Header, h: int): Result<seq<seq<int>>, Error>
    decreases hd.rounds - h
  {
    if h >= hd.rounds then Ok([])
    else
      var mem :- FlatRoundFrom(hash, mem, hd, 0);
      var rest :- FlatRoundsFrom(hash, mem, hd, h + 1);
      Ok([mem] + rest)
  }

  /** What reference_kernel2(mem) yields: the memory before the first round
      and after each round. */
  function Kernel2(hash: int -> int, mem: seq<int>): Result<seq<seq<int>>, Error>
  {
    var hd :- ReadHeader(mem);
    var rest :- FlatRoundsFrom(hash, mem, hd, 0);
    Ok([mem] + rest)
  }

  /** snaps followed by the snapshots r will yield, or r's error. */
  function Then(snaps: seq<seq<int>>, r: Result<seq<seq<int>>, Error>): Result<seq<seq<int>>, Error>
  {
    match r
    case Err(e) => Err(e)
    case Ok(rest) => Ok(snaps + rest)
  }

  /** One item of a round on the flat memory, unfolded. */
  lemma FlatRoundStep(hash: int -> int, mem: seq<int>, hd: Header, i: int, idx: int, val: int, node: int, mid: seq<int>, after: seq<int>)
    requires i < hd.batchSize
    requires Read(mem, hd.inpIndicesP + i) == Ok(idx) && Read(mem, hd.inpValuesP + i) == Ok(val)
    requires Read(mem, hd.forestValuesP + idx) == Ok(node)
    requires var v := hash(Xor(val, node));
      Write(mem, hd.inpValuesP + i, v) == Ok(mid) && Write(mid, hd.inpIndicesP + i, Branch(idx, v, hd.nNodes)) == Ok(after)
    ensures FlatRoundFrom(hash, mem, hd, i) == FlatRoundFrom(hash, after, hd, i + 1)
  {
  }

  /** An item whose index, value or node cannot be read fails the round. */
  lemma FlatRoundFails(hash: int -> int, mem: seq<int>, hd: Header, i: int)
    requires i < hd.batchSize
    ensures Read(mem, hd.inpIndicesP + i).Err? ==> FlatRoundFrom(hash, mem, hd, i) == Err(IndexOutOfRange)
    ensures Read(mem, hd.inpValuesP + i).Err? ==> FlatRoundFrom(hash, mem, hd, i) == Err(IndexOutOfRange)
    ensures var idx := Read(mem, hd.inpIndicesP + i);
      idx.Ok? && Read(mem, hd.forestValuesP + idx.value).Err? ==> FlatRoundFrom(hash, mem, hd, i) == Err(IndexOutOfRange)
  {
  }

  /** Item i of a round of reference_kernel2, in place: on success the rest
      of the round from the new memory is the rest of the round from the
      old one; on failure the round fails with the same error. */
  method FlatVisit(mem: array<int>, hd: Header, i: int) returns (r: Outcome<Error>)
    requires i < hd.batchSize
    modifies mem
    ensures r.Pass? ==> FlatRoundFrom(Hash, old(mem[..]), hd, i) == FlatRoundFrom(Hash, mem[..], hd, i + 1)
    ensures r.Fail? ==> FlatRoundFrom(Hash, old(mem[..]), hd, i) == Err(r.error)
  {
    FlatRoundFails(Hash, mem[..], hd, i);
    var pi := PyIndex(mem.Length, hd.inpIndicesP + i);
    if pi.None? { return Fail(IndexOutOfRange); }
    var idx := mem[pi.value];
    var pv := PyIndex(mem.Length, hd.inpValuesP + i);
    if pv.None? { return Fail(IndexOutOfRange); }
    var val := mem[pv.value];
    var pn := PyIndex(mem.Length, hd.forestValuesP + idx);
    if pn.None? { return Fail(IndexOutOfRange); }
    ghost var before := mem[..];
    assert Read(before, hd.inpIndicesP + i) == Ok(idx);
    assert Read(before, hd.inpValuesP + i) == Ok(val);
    assert Read(before, hd.forestValuesP + idx) == Ok(mem[pn.value]);
    ghost var oldVal := val;
    val := MyHash(Xor(val, mem[pn.value]));
    var next := Branch(idx, val, hd.nNodes);
    mem[pv.value] := val;
    assert Write(before, hd.inpValuesP + i, val) == Ok(mem[..]);
    ghost var mid := mem[..];
    mem[pi.value] := next;
    assert Write(mid, hd.inpIndicesP + i, next) == Ok(mem[..]);
    FlatRoundStep(Hash, before, hd, i, idx, oldVal, before[pn.value], mid, mem[..]);
    r := Pass;
  }

  /** One round of reference_kernel2 on mem, in place. */
  method FlatRound(mem: array<int>, hd: Header) returns (r: Outcome<Error>)
    modifies mem
    ensures Agrees(r, FlatRoundFrom(Hash, old(mem[..]), hd, 0), mem[..])
  {
    var i := 0;
    while i < hd.batchSize
      invariant FlatRoundFrom(Hash, mem[..], hd, i) == FlatRoundFrom(Hash, old(mem[..]), hd, 0)
      decreases hd.batchSize - i
    {
      r := FlatVisit(mem, hd, i);
      if r.Fail? { return; }
      i := i + 1;
    }
    r := Pass;
  }

  lemma ThenAssoc(a: seq<seq<int>>, b: seq<seq<int>>, r: Result<seq<seq<int>>, Error>)
    ensures Then(a, Then(b, r)) == Then(a + b, r)
  {
    if r.Ok? {
      assert a + (b + r.value) == (a + b) + r.value;
    }
  }

  /** reference_kernel2(mem): updates mem in place and returns the
      snapshots it yields. */
  method ReferenceKernel2(mem: array<int>) returns (r: Result<seq<seq<int>>, Error>)
    modifies mem
    ensures r == Kernel2(Hash, old(mem[..]))
    ensures r.Ok? ==> mem[..] == r.value[|r.value| - 1]
  {
    if mem.Length < HEADER_WORDS { return Err(IndexOutOfRange); }
    var hd := Header(mem[0], mem[1], mem[2], mem[4], mem[5], mem[6]);
    assert ReadHeader(mem[..]) == Ok(hd);
    var snaps := [mem[..]];
    var h := 0;
    while h < hd.rounds
      invariant |snaps| > 0 && snaps[|snaps| - 1] == mem[..]
      invariant Then(snaps, FlatRoundsFrom(Hash, mem[..], hd, h)) == Kernel2(Hash, old(mem[..]))
      decreases hd.rounds - h
    {
      ghost var m0 := mem[..];
      var res := FlatRound(mem, hd);
      if res.Fail? { return Err(res.error); }
      assert FlatRoundFrom(Hash, m0, hd, 0) == Ok(mem[..]);
      assert FlatRoundsFrom(Hash, m0, hd, h) == Then([mem[..]], FlatRoundsFrom(Hash, mem[..], hd, h + 1));
      ThenAssoc(snaps, [mem[..]], FlatRoundsFrom(Hash, mem[..], hd, h + 1));
      snaps := snaps + [mem[..]];
      h := h + 1;
    }
    assert snaps + [] == snaps;
    r := Ok(snaps);
  }

  // ---------------------------------------------------------------------
  // The two reference kernels agree
  // ---------------------------------------------------------------------

  /** The memory after the last of snaps, or mem when there is none. */
  function Last(mem: seq<int>, snaps: seq<seq<int>>): seq<int>
  {
    if |snaps| == 0 then mem else snaps[|snaps| - 1]
  }

  /** On a memory that holds a batch whose indices lie inside the tree, the
      items i.. of a flat round succeed and leave in memory what the items
      i.. of a round of reference_kernel compute. */
  lemma {:induction false} FlatRoundAgrees(hash: int -> int, mem: seq<int>, hd: Header, tv: seq<int>, indices: seq<int>, values: seq<int>, i: nat)
    requires Regions(mem, hd, tv, indices, values) && InTree(indices, |tv|) && i <= |indices|
    ensures Agreed(FlatRoundFrom(hash, mem, hd, i), RoundFrom(hash, tv, indices, values, i), hd, tv)
    decreases |indices| - i
  {
    if i < |indices| {
      var after, ind', vals' := FlatItemAgrees(hash, mem, hd, tv, indices, values, i);
      FlatRoundAgrees(hash, after, hd, tv, ind', vals', i + 1);
    }
  }

  /** Both rounds succeeded, the memory holds the lists they computed, and
      the indices lie inside the tree. */
  ghost predicate Agreed(f: Result<seq<int>, Error>, r: Result<(seq<int>, seq<int>), Error>, hd: Header, tv: seq<int>)
  {
    && f.Ok? && r.Ok?
    && Regions(f.value, hd, tv, r.value.0, r.value.1)
    && InTree(r.value.0, |tv|)
  }

  /** Item i of both rounds: the flat round and reference_kernel's round
      go on from memory and lists that again agree, inside the tree. */
  lemma FlatItemAgrees(hash: int -> int, mem: seq<int>, hd: Header, tv: seq<int>, indices: seq<int>, values: seq<int>, i: nat)
      returns (after: seq<int>, ind': seq<int>, vals': seq<int>)
    requires Regions(mem, hd, tv, indices, values) && InTree(indices, |tv|) && i < |indices|
    ensures FlatRoundFrom(hash, mem, hd, i) == FlatRoundFrom(hash, after, hd, i + 1)
    ensures RoundFrom(hash, tv, indices, values, i) == RoundFrom(hash, tv, ind', vals', i + 1)
    ensures Regions(after, hd, tv, ind', vals') && InTree(ind', |tv|)
  {
    var idx, val := indices[i], values[i];
    var node := tv[idx];
    assert mem[hd.inpIndicesP + i] == idx && mem[hd.inpValuesP + i] == val;
    assert mem[hd.forestValuesP + idx] == node;
    assert Read(mem, hd.inpIndicesP + i) == Ok(idx);
    assert Read(mem, hd.inpValuesP + i) == Ok(val);
    assert Read(mem, hd.forestValuesP + idx) == Ok(node);
    var v := hash(Xor(val, node));
    var next := Branch(idx, v, |tv|);
    var mid := mem[hd.inpValuesP + i := v];
    after := mid[hd.inpIndicesP + i := next];
    assert Write(mem, hd.inpValuesP + i, v) == Ok(mid);
    assert Write(mid, hd.inpIndicesP + i, next) == Ok(after);
    FlatRoundStep(hash, mem, hd, i, idx, val, node, mid, after);
    VisitInRange(hash, tv, idx, val);
    ind', vals' := indices[i := next], values[i := v];
    assert RoundFrom(hash, tv, indices, values, i) == RoundFrom(hash, tv, ind', vals', i + 1);
    RegionsAfterItem(mem, hd, tv, indices, values, i, next, v);
  }

  /** Writing item i's new value and index where the header points keeps
      the regions in step with the updated lists. */
  lemma RegionsAfterItem(mem: seq<int>, hd: Header, tv: seq<int>, indices: seq<int>, values: seq<int>, i: nat, next: int, v: int)
    requires Regions(mem, hd, tv, indices, values) && i < |indices|
    ensures Regions(mem[hd.inpValuesP + i := v][hd.inpIndicesP + i := next], hd, tv, indices[i := next], values[i := v])
  {
    var after := mem[hd.inpValuesP + i := v][hd.inpIndicesP + i := next];
    var ind', vals' := indices[i := next], values[i := v];
    forall k | 0 <= k < |tv| ensures after[hd.forestValuesP + k] == tv[k] {
      assert mem[hd.forestValuesP + k] == tv[k];
    }
    forall k | 0 <= k < |indices| ensures after[hd.inpIndicesP + k] == ind'[k] {
      assert k != i ==> mem[hd.inpIndicesP + k] == indices[k];
    }
    forall k | 0 <= k < |values| ensures after[hd.inpValuesP + k] == vals'[k] {
      assert k != i ==> mem[hd.inpValuesP + k] == values[k];
    }
  }

  /** The same over the rounds h..: one snapshot per round, the last of
      which holds what the rounds h.. of reference_kernel compute. */
  lemma {:induction false} FlatRoundsAgree(hash: int -> int, mem: seq<int>, hd: Header, tv: seq<int>, indices: seq<int>, values: seq<int>, h: int)
    requires Regions(mem, hd, tv, indices, values) && InTree(indices, |tv|)
    ensures var f := FlatRoundsFrom(hash, mem, hd, h);
      var r := RoundsFrom(hash, tv, indices, values, h, hd.rounds);
      && f.Ok? && r.Ok?
      && |f.value| == (if h < hd.rounds then hd.rounds - h else 0)
      && Regions(Last(mem, f.value), hd, tv, r.value.0, r.value.1)
    decreases hd.rounds - h
  {
    if h < hd.rounds {
      FlatRoundAgrees(hash, mem, hd, tv, indices, values, 0);
      var m := FlatRoundFrom(hash, mem, hd, 0).value;
      var (ind, vals) := RoundFrom(hash, tv, indices, values, 0).value;
      FlatRoundsAgree(hash, m, hd, tv, ind, vals, h + 1);
      var rest := FlatRoundsFrom(hash, m, hd, h + 1).value;
      assert Last(mem, [m] + rest) == Last(m, rest);
    }
  }

  /** reference_kernel2 on a memory laid out for a batch whose indices lie
      inside the tree succeeds, yields rounds + 1 snapshots, and its final
      memory holds, in the indices and values regions its header points
      at, exactly the indices and values reference_kernel computes. */
  lemma KernelsAgree(hash: int -> int, mem: seq<int>, tv: seq<int>, indices: seq<int>, values: seq<int>, rounds: int)
    requires Layout(mem, tv, indices, values, rounds) && InTree(indices, |tv|)
    ensures var k := Kernel2(hash, mem);
      var r := RoundsFrom(hash, tv, indices, values, 0, rounds);
      && k.Ok? && r.Ok?
      && |k.value| == 1 + (if rounds > 0 then rounds else 0)
      && var last := k.value[|k.value| - 1];
      && |last| == |mem|
      && last[mem[5]..mem[5] + |indices|] == r.value.0
      && last[mem[6]..mem[6] + |values|] == r.value.1
  {
    var hd := ReadHeader(mem).value;
    FlatRoundsAgree(hash, mem, hd, tv, indices, values, 0);
    var rest := FlatRoundsFrom(hash, mem, hd, 0).value;
    var last := Last(mem, rest);
    assert Kernel2(hash, mem) == Ok([mem] + rest);
    assert ([mem] + rest)[|rest|] == last;
    FlatRoundsLength(hash, mem, hd, 0);
    var r := RoundsFrom(hash, tv, indices, values, 0, rounds).value;
    assert last[mem[5]..mem[5] + |indices|] == r.0;
    assert last[mem[6]..mem[6] + |values|] == r.1;
  }

  /** Every snapshot of a flat round keeps the memory's length. */
  lemma {:induction false} FlatRoundsLength(hash: int -> int, mem: seq<int>, hd: Header, h: int)
    ensures var f := FlatRoundsFrom(hash, mem, hd, h);
      f.Ok? ==> |Last(mem, f.value)| == |mem|
    decreases hd.rounds - h
  {
    if h < hd.rounds {
      var f0 := FlatRoundFrom(hash, mem, hd, 0);
      if f0.Ok? {
        FlatRoundsLength(hash, f0.value, hd, h + 1);
        var f := FlatRoundsFrom(hash, f0.value, hd, h + 1);
        if f.Ok? {
          assert Last(mem, [f0.value] + f.value) == Last(f0.value, f.value);
        }
      }
    }
  }
}
