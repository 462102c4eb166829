/** The intermediate representation: non-SSA instructions over virtual registers,
    an evaluator for them, and the mutable blocks and functions that hold them. */
module IR {
  import opened Wrappers
  import opened Bits

  /** i8() .. i64() are Int(W8) .. Int(W64). */
  datatype IRType = Void | I1 | Int(w: Width) | Ptr

  datatype IcmpCond = EQ | NE | SLT | SLE | SGT | SGE | ULT | ULE | UGT | UGE

  datatype Opcode =
    | ADD | SUB | MUL | NEG | AND | OR | XOR | NOT | ZEXT | SEXT | TRUNC | INTTOPTR | PTRTOINT
    | SHL | LSHR | ASHR | UDIV | UREM | SDIV | SREM

  datatype Value = VReg(id: nat, ty: IRType) | Imm(value: int, ty: IRType)

  /** Debug names and source addresses of instructions are dropped, and a callee is its address even
      where the program knows a symbol for it. What a call does is not part of the meaning below. */
  datatype Inst =
    | Mov(dst: nat, ty: IRType, src: Value)
    | Binop(op: Opcode, dst: nat, ty: IRType, lhs: Value, rhs: Value)
    | Unop(op: Opcode, dst: nat, ty: IRType, src: Value)
    | Icmp(cond: IcmpCond, dst: nat, lhs: Value, rhs: Value)
    | Cast(op: Opcode, dst: nat, ty: IRType, src: Value)
    | Load(dst: nat, ty: IRType, ptr: Value)
    | Store(val: Value, ptr: Value)
    | Jmp(target: string)
    | Cjmp(condition: Value, ifTrue: string, ifFalse: string)
    | Ret(result: Option<Value>)
    | Nop
    | Call(dst: nat, ty: IRType, callee: Value)

  predicate IsTerminator(i: Inst) {
    i.Jmp? || i.Cjmp? || i.Ret?
  }

  // ----- meaning of the IR -----

  /** Virtual registers hold naturals (0 when never written); memory is byte-addressed. */
  datatype State = State(env: map<nat, nat>, mem: Mem) {
    function Get(id: nat): nat { if id in env then env[id] else 0 }
    function Set(id: nat, v: nat): State { this.(env := env[id := v]) }
  }

  /** Reduction of a number to the range of a type. */
  function Truncate(v: int, ty: IRType): nat {
    match ty
    case Void => 0
    case I1 => v % 2
    case Int(w) => Wrap(v, w)
    case Ptr => Wrap(v, W64)
  }

  function ByteWidth(ty: IRType): (n: nat)
    requires !ty.Void?
    ensures ty.Ptr? ==> n == Bytes(W64)
  {
    match ty
    case I1 => 1
    case Int(w) => Bytes(w)
    case Ptr => 8
  }

  function TypeSigned(v: int, ty: IRType): int {
    match ty
    case Int(w) => Signed(v, w)
    case Ptr => Signed(v, W64)
    case _ => v
  }

  function Val(v: Value, s: State): nat {
    match v
    case VReg(id, _) => s.Get(id)
    case Imm(n, ty) => Truncate(n, ty)
  }

  function Arith(op: Opcode, ty: IRType, a: nat, b: nat): nat {
    match op
    case ADD => Truncate(a + b, ty)
    case SUB => Truncate(a - b, ty)
    case MUL => Truncate(a * b, ty)
    case AND => BitAnd(a, b)
    case OR => BitOr(a, b)
    case XOR => BitXor(a, b)
    case SHL | LSHR | ASHR => Shift(op, ty, a, b)
    case UDIV | UREM | SDIV | SREM => Divide(op, ty, a, b)
    case _ => 0
  }

  /** The count is taken as it is; the right shifts fill with zeros or with the sign. */
  function Shift(op: Opcode, ty: IRType, a: nat, count: nat): nat {
    match op
    case SHL => Truncate(a * Pow2(count), ty)
    case LSHR => Quotient(a, Pow2(count))
    case _ => Truncate(Floor(TypeSigned(a, ty), Pow2(count)), ty)
  }

  function Quotient(a: nat, b: nat): (q: nat)
    requires b > 0
    ensures q * b <= a < q * b + b
  {
    a / b
  }

  function Floor(a: int, b: nat): int
    requires b > 0
  {
    if a < 0 then -1 - Quotient(-1 - a, b) else Quotient(a, b)
  }

  /** The quotient without its fraction. */
  function Toward(x: int, y: int): int
    requires y != 0
  {
    var q := Quotient(if x < 0 then 0 - x else x, if y < 0 then 0 - y else y);
    if (x < 0) == (y < 0) then q else 0 - q
  }

  /** Signed division truncates towards zero; a division by zero is given the value 0. */
  function Divide(op: Opcode, ty: IRType, a: nat, b: nat): nat {
    if b == 0 || TypeSigned(b, ty) == 0 then 0
    else
      var x, y := TypeSigned(a, ty), TypeSigned(b, ty);
      match op
      case UDIV => Quotient(a, b)
      case UREM => a - Quotient(a, b) * b
      case SDIV => Truncate(Toward(x, y), ty)
      case _ => Truncate(x - Toward(x, y) * y, ty)
  }

  function Convert(op: Opcode, ty: IRType, a: nat): nat {
    match op
    case NEG => Truncate(0 - a, ty)
    case NOT => Truncate(-1 - a, ty)
    case TRUNC | PTRTOINT => Truncate(a, ty)
    case _ => a
  }

  function CastValue(op: Opcode, from: IRType, ty: IRType, a: nat): nat {
    if op.SEXT? then Truncate(TypeSigned(a, from), ty) else Convert(op, ty, a)
  }

  predicate IcmpHolds(cond: IcmpCond, ty: IRType, a: nat, b: nat) {
    var x, y := TypeSigned(a, ty), TypeSigned(b, ty);
    match cond
    case EQ => a == b
    case NE => a != b
    case ULT => a < b
    case ULE => a <= b
    case UGT => a > b
    case UGE => a >= b
    case SLT => x < y
    case SLE => x <= y
    case SGT => x > y
    case SGE => x >= y
  }

  function Flag(b: bool): nat { if b then 1 else 0 }

  /** One instruction; control transfers leave the state alone. */
  function Step(i: Inst, s: State): State {
    match i
    case Mov(d, _, src) => s.Set(d, Val(src, s))
    case Binop(op, d, ty, l, r) => s.Set(d, Arith(op, ty, Val(l, s), Val(r, s)))
    case Unop(op, d, ty, src) => s.Set(d, Convert(op, ty, Val(src, s)))
    case Icmp(cond, d, l, r) => s.Set(d, Flag(IcmpHolds(cond, l.ty, Val(l, s), Val(r, s))))
    case Cast(op, d, ty, src) => s.Set(d, CastValue(op, src.ty, ty, Val(src, s)))
    case Load(d, ty, p) => if ty.Void? then s else s.Set(d, LoadLE(s.mem, Val(p, s), ByteWidth(ty)))
    case Store(v, p) => if v.ty.Void? then s else s.(mem := StoreLE(s.mem, Val(p, s), Val(v, s), ByteWidth(v.ty)))
    case _ => s
  }

  function Exec(insts: seq<Inst>, s: State): State {
    if insts == [] then s
    else Step(insts[|insts| - 1], Exec(insts[..|insts| - 1], s))
  }

  predicate Terminated(insts: seq<Inst>) {
    insts != [] && IsTerminator(insts[|insts| - 1])
  }

  /** Every instruction but the last is no terminator. */
  predicate WellTerminated(insts: seq<Inst>) {
    forall k :: 0 <= k < |insts| - 1 ==> !IsTerminator(insts[k])
  }

  // ----- emission, as a specification -----

  /** What emitting code changes: the block's instructions and the function's register counter.
      Once an exception has been thrown nothing more is emitted. */
  datatype Emitter = Emitter(insts: seq<Inst>, next: nat, thrown: bool) {
    function Push(i: Inst): (e: Emitter)
      ensures thrown ==> e == this
      ensures Open() && !IsTerminator(i) ==> e.Open()
      ensures e.next == next
    {
      if thrown then this
      else if Terminated(insts) then this.(thrown := true)
      else this.(insts := insts + [i])
    }

    function Skip(): (e: Emitter)
      ensures e.thrown == thrown && e.insts == insts && e.next == next + 1
    {
      this.(next := next + 1)
    }

    predicate Open() {
      !thrown && !Terminated(insts) && WellTerminated(insts)
    }

    function Run(s: State): State {
      Exec(insts, s)
    }
  }

  datatype Out = Out(e: Emitter, v: Value)

  /** Emission that stops at an exception and otherwise keeps the block open. */
  predicate Continues(e1: Emitter, e2: Emitter) {
    && (e1.thrown ==> e2.thrown && e2.insts == e1.insts)
    && (e1.Open() ==> e2.Open())
    && e1.next <= e2.next
  }

  lemma PushRuns(e: Emitter, i: Inst, s: State)
    requires e.Open() && !IsTerminator(i)
    ensures e.Push(i).Open()
    ensures e.Push(i).Run(s) == Step(i, e.Run(s))
  {
    var p := e.insts + [i];
    assert p[..|p| - 1] == e.insts;
    forall k | 0 <= k < |p| - 1 ensures !IsTerminator(p[k]) {
      if k == |e.insts| - 1 { assert !Terminated(e.insts); }
    }
  }

  /** e2 extends e1 by instructions that only define new temporaries, each once. */
  ghost predicate Fresh(e1: Emitter, e2: Emitter) {
    && e1.next <= e2.next
    && |e1.insts| <= |e2.insts|
    && e2.insts[..|e1.insts|] == e1.insts
    && (forall k :: |e1.insts| <= k < |e2.insts| ==> DefinesTemp(e2.insts[k], e1.next, e2.next))
    && (forall j, k :: |e1.insts| <= j < k < |e2.insts| ==> e2.insts[j].dst < e2.insts[k].dst)
  }

  predicate DefinesTemp(i: Inst, lo: nat, hi: nat) {
    (i.Mov? || i.Binop? || i.Unop? || i.Icmp? || i.Cast? || i.Load?) && lo <= i.dst < hi
  }

  lemma FreshPush(e0: Emitter, e1: Emitter, i: Inst)
    requires Fresh(e0, e1) && e1.Open()
    requires DefinesTemp(i, e1.next, e1.next + 1)
    ensures Fresh(e0, e1.Skip().Push(i))
  {
    var e2 := e1.Skip().Push(i);
    assert e2.insts[..|e1.insts|] == e1.insts;
    forall k | |e0.insts| <= k < |e2.insts| ensures DefinesTemp(e2.insts[k], e0.next, e2.next) {
      if k < |e1.insts| { assert DefinesTemp(e1.insts[k], e0.next, e1.next); }
    }
    forall j, k | |e0.insts| <= j < k < |e2.insts| ensures e2.insts[j].dst < e2.insts[k].dst {
      assert DefinesTemp(e1.insts[j], e0.next, e1.next);
    }
  }

  lemma FreshTransitive(e0: Emitter, e1: Emitter, e2: Emitter)
    requires Fresh(e0, e1) && Fresh(e1, e2)
    ensures Fresh(e0, e2)
  {
    assert e2.insts[..|e0.insts|] == e1.insts[..|e0.insts|];
    forall k | |e0.insts| <= k < |e2.insts| ensures DefinesTemp(e2.insts[k], e0.next, e2.next) {
      if k < |e1.insts| {
        assert e2.insts[k] == e1.insts[k];
        assert DefinesTemp(e1.insts[k], e0.next, e1.next);
      } else {
        assert DefinesTemp(e2.insts[k], e1.next, e2.next);
      }
    }
    forall j, k | |e0.insts| <= j < k < |e2.insts| ensures e2.insts[j].dst < e2.insts[k].dst {
      if k < |e1.insts| {
        assert e2.insts[j] == e1.insts[j] && e2.insts[k] == e1.insts[k];
      } else if j < |e1.insts| {
        assert e2.insts[j] == e1.insts[j];
        assert DefinesTemp(e1.insts[j], e0.next, e1.next);
        assert DefinesTemp(e2.insts[k], e1.next, e2.next);
      }
    }
  }

  /** Registers below the bound and memory are the same in both states. */
  ghost predicate SameBelow(s1: State, s2: State, n: nat) {
    s1.mem == s2.mem && forall id: nat :: id < n ==> s1.Get(id) == s2.Get(id)
  }

  /** Emission of fresh temporaries is a conservative extension, whatever the temporaries compute. */
  lemma {:induction false} FreshPreserves(e1: Emitter, e2: Emitter, s: State)
    requires Fresh(e1, e2)
    ensures SameBelow(e1.Run(s), e2.Run(s), e1.next)
    decreases |e2.insts|
  {
    if |e2.insts| == |e1.insts| {
      assert e2.insts == e1.insts;
    } else {
      var prev := e2.(insts := e2.insts[..|e2.insts| - 1]);
      assert prev.insts[..|e1.insts|] == e1.insts;
      assert Fresh(e1, prev);
      FreshPreserves(e1, prev, s);
      assert DefinesTemp(e2.insts[|e2.insts| - 1], e1.next, e2.next);
    }
  }

  predicate Defined(v: Value, n: nat) { v.VReg? ==> v.id < n }

  /** o extends e by fresh temporaries, and after the run its value, of type ty, is n. */
  ghost predicate Gives(e: Emitter, o: Out, s: State, ty: IRType, n: nat) {
    && o.e.Open()
    && Fresh(e, o.e)
    && Defined(o.v, o.e.next)
    && o.v.ty == ty
    && Val(o.v, o.e.Run(s)) == n
  }

  lemma ValStable(v: Value, e1: Emitter, e2: Emitter, s: State)
    requires Fresh(e1, e2) && Defined(v, e1.next)
    ensures Val(v, e1.Run(s)) == Val(v, e2.Run(s))
  {
    FreshPreserves(e1, e2, s);
  }

  lemma NothingGives(e: Emitter, v: Value, s: State)
    requires e.Open() && Defined(v, e.next)
    ensures Gives(e, Out(e, v), s, v.ty, Val(v, e.Run(s)))
  {
  }

  /** Emitting one instruction into a fresh temporary. */
  lemma TempGives(e: Emitter, i: Inst, ty: IRType, s: State)
    requires e.Open() && DefinesTemp(i, e.next, e.next + 1) && (i.Load? ==> !i.ty.Void?)
    ensures Gives(e, Out(e.Skip().Push(i), VReg(e.next, ty)), s, ty, Step(i, e.Run(s)).Get(e.next))
  {
    PushRuns(e.Skip(), i, s);
    FreshPush(e, e, i);
  }

  // ----- the mutable containers -----

  class IRBasicBlock {
    const name: string
    const startAddr: U64
    var instructions: seq<Inst>

    constructor (name: string, startAddr: U64)
      ensures this.name == name && this.startAddr == startAddr && instructions == []
    {
      this.name, this.startAddr, instructions := name, startAddr, [];
    }

    /** Only the last instruction decides. */
    predicate IsTerminated()
      reads this`instructions
    {
      Terminated(instructions)
    }

    /** The terminating instruction, a JMP, CJMP or RET at the end; throws when there is none. */
    function Terminator(): (r: Result<Inst>)
      reads this`instructions
      ensures r.Success? <==> IsTerminated()
      ensures r.Success? ==> r.value == instructions[|instructions| - 1]
      ensures instructions != [] ==> var last := instructions[|instructions| - 1]; (r.Success? <==> last.Jmp? || last.Cjmp? || last.Ret?)
    {
      if IsTerminated() then Success(instructions[|instructions| - 1]) else Failure(NoTerminator)
    }

    /** Refuses to add anything after a terminator. */
    method PushInst(i: Inst) returns (o: Outcome)
      modifies this`instructions
      ensures o == if old(IsTerminated()) then Fail(PushAfterTerminator) else Pass
      ensures instructions == if o.Pass? then old(instructions) + [i] else old(instructions)
    {
      if IsTerminated() {
        return Fail(PushAfterTerminator);
      }
      instructions := instructions + [i];
      return Pass;
    }
  }

  class IRFunction {
    var nextVregId: nat
    var blocks: seq<IRBasicBlock>

    /** Ids 0..15 are the general-purpose registers, 16..19 the flags. */
    constructor ()
      ensures nextVregId == 20 && blocks == []
    {
      nextVregId, blocks := 20, [];
    }

    method AllocVreg() returns (id: nat)
      modifies this`nextVregId
      ensures id == old(nextVregId) && nextVregId == id + 1
    {
      id := nextVregId;
      nextVregId := nextVregId + 1;
    }

    method AddBlock(b: IRBasicBlock)
      modifies this`blocks
      ensures blocks == old(blocks) + [b]
    {
      blocks := blocks + [b];
    }

    method FindBlock(name: string) returns (r: Option<IRBasicBlock>)
      ensures FirstNamed(blocks, name, r)
    {
      for k := 0 to |blocks|
        invariant forall j :: 0 <= j < k ==> blocks[j].name != name
      {
        if blocks[k].name == name {
          return Some(blocks[k]);
        }
      }
      return None;
    }
  }

  /** r is the first block of that name, if any has it. */
  ghost predicate FirstNamed(blocks: seq<IRBasicBlock>, name: string, r: Option<IRBasicBlock>) {
    match r
    case None => forall b :: b in blocks ==> b.name != name
    case Some(b) => exists k :: 0 <= k < |blocks| && blocks[k] == b && b.name == name
                                && forall j :: 0 <= j < k ==> blocks[j].name != name
  }

  /** What a method that emits code owes its specification: the same instructions always, and
      unless an exception is thrown the same value and counter too. */
  ghost predicate Emitted<T>(r: Result<T>, v: T, e: Emitter, block: IRBasicBlock, fn: IRFunction)
    reads block`instructions, fn`nextVregId
  {
    && block.instructions == e.insts
    && (r.Success? <==> !e.thrown)
    && (r.Success? ==> r.value == v && fn.nextVregId == e.next)
  }

  /** The emitter that starts where the block and the function stand. */
  ghost function EmitterOf(block: IRBasicBlock, fn: IRFunction): Emitter
    reads block`instructions, fn`nextVregId
  {
    Emitter(block.instructions, fn.nextVregId, false)
  }
}
