/** The script VM with its two interpreters (kernel/src/script_runtime.rs:6-318). */
module ScriptVm {
  import opened Bytes
  import opened Characters

  const STACK := 64
  const MIN32 := -0x8000_0000
  const U32 := 0x1_0000_0000

  type i32 = x: int | -0x8000_0000 <= x < 0x8000_0000

  /** Two's complement in 32 bits. */
  function Wrap32(n: int): i32 {
    (n - MIN32) % U32 + MIN32
  }

  /** Division towards zero; the one overflow wraps, and dividing by zero gives zero. */
  function Divide(a: i32, b: i32): i32 {
    if b == 0 then 0
    else if a == MIN32 && b == -1 then MIN32
    else if (a < 0) == (b < 0) then Magnitude(a) / Magnitude(b)
    else -(Magnitude(a) / Magnitude(b))
  }

  function Magnitude(a: int): nat {
    if a < 0 then -a else a
  }

  datatype Op = PushI32(v: i32) | Add | Sub | Mul | Div | CallHost(id: byte) | Ret

  datatype Call = TimerSet(ms: i32) | FetchStart(url: i32) | StorageGet(key: i32) | StorageSet(key: i32, value: i32)

  /** What a host answers to its latest call, given all calls so far. */
  datatype Host = Host(reply: seq<Call> -> i32)

  // ----- one instruction, on any stack

  /** The live part of the stack, bottom first, and the calls made so far. */
  datatype Machine = Machine(stack: seq<i32>, calls: seq<Call>)

  /** A stack of at most `cap` values, or unbounded. A full stack drops what is pushed. */
  function Push(m: Machine, v: i32, cap: Option<nat>): Machine {
    if cap.Some? && |m.stack| >= cap.value then m else m.(stack := m.stack + [v])
  }

  /** An empty stack yields zeros. */
  function Top(m: Machine): i32 {
    if m.stack == [] then 0 else m.stack[|m.stack| - 1]
  }

  function Drop(m: Machine): Machine {
    if m.stack == [] then m else m.(stack := m.stack[..|m.stack| - 1])
  }

  function WrappingAdd(a: i32, b: i32): i32 {
    Wrap32(a + b)
  }

  function WrappingSub(a: i32, b: i32): i32 {
    Wrap32(a - b)
  }

  function WrappingMul(a: i32, b: i32): i32 {
    Wrap32(a * b)
  }

  function Binary(op: Op, a: i32, b: i32): i32 {
    match op
    case Add => WrappingAdd(a, b)
    case Sub => WrappingSub(a, b)
    case Mul => WrappingMul(a, b)
    case _ => Divide(a, b)
  }

  function Ask(m: Machine, host: Host, c: Call, cap: Option<nat>): Machine {
    var calls := m.calls + [c];
    Push(m.(calls := calls), host.reply(calls), cap)
  }

  function HostCall(m: Machine, host: Host, id: byte, cap: Option<nat>): Machine {
    if id == 0 then Ask(Drop(m), host, TimerSet(if Top(m) < 0 then 0 else Top(m)), cap)
    else if id == 1 then Ask(Drop(m), host, FetchStart(Top(m)), cap)
    else if id == 2 then Ask(Drop(m), host, StorageGet(Top(m)), cap)
    else if id == 3 then Ask(Drop(Drop(m)), host, StorageSet(Top(Drop(m)), Top(m)), cap)
    else Push(m, -1, cap)
  }

  /** An instruction goes on or ends the run with a value. */
  datatype Effect = Next(m: Machine) | Return(value: i32, m: Machine)

  function Exec(op: Op, m: Machine, host: Host, cap: Option<nat>): Effect {
    match op
    case PushI32(v) => Next(Push(m, v, cap))
    case CallHost(id) => Next(HostCall(m, host, id, cap))
    case Ret => Return(Top(m), Drop(m))
    case _ => Next(Push(Drop(Drop(m)), Binary(op, Top(Drop(m)), Top(m)), cap))
  }

  // ----- whole runs

  datatype VmError = BadOpcode | TruncatedImm | StepLimit

  /** How a run ends, and the calls it made. */
  datatype Outcome = Ended(value: i32, calls: seq<Call>) | Failed(error: VmError, calls: seq<Call>)

  /** A run of instructions from pc on, with so many steps left. */
  function RunOps(ops: seq<Op>, pc: nat, m: Machine, host: Host, cap: Option<nat>, left: nat): Outcome
    decreases left
  {
    if pc >= |ops| then Ended(0, m.calls)
    else if left == 0 then Failed(StepLimit, m.calls)
    else match Exec(ops[pc], m, host, cap)
      case Return(v, n) => Ended(v, n.calls)
      case Next(n) => RunOps(ops, pc + 1, n, host, cap, left - 1)
  }

  lemma {:induction false} RunStep(ops: seq<Op>, pc: nat, m: Machine, host: Host, cap: Option<nat>, left: nat)
    ensures RunOps(ops, pc, m, host, cap, left) ==
            if pc >= |ops| then Ended(0, m.calls)
            else if left == 0 then Failed(StepLimit, m.calls)
            else match Exec(ops[pc], m, host, cap)
              case Return(v, n) => Ended(v, n.calls)
              case Next(n) => RunOps(ops, pc + 1, n, host, cap, left - 1)
  {
    hide Exec;
  }

  datatype Decoded = Op(op: Op, pc: nat) | Bad(error: VmError)

  function SignedLE(s: bytes): i32
    requires |s| == 4
  {
    LEBound(s);
    if FromLE(s) < 0x8000_0000 then FromLE(s) else FromLE(s) - U32
  }

  lemma {:induction false} LEBound(s: bytes)
    requires |s| == 4
    ensures FromLE(s) < U32
  {
    LEofFromLE(s);
    Pow256Values();
  }

  /** decode_op */
  function Decode(code: bytes, pc: nat): (d: Decoded)
    ensures d.Op? ==> pc < d.pc <= |code|
  {
    if pc >= |code| then Bad(BadOpcode)
    else if code[pc] == 1 then (if pc + 5 > |code| then Bad(TruncatedImm) else Op(PushI32(SignedLE(code[pc + 1..pc + 5])), pc + 5))
    else if code[pc] == 2 then Op(Add, pc + 1)
    else if code[pc] == 3 then Op(Sub, pc + 1)
    else if code[pc] == 4 then Op(Mul, pc + 1)
    else if code[pc] == 5 then Op(Div, pc + 1)
    else if code[pc] == 6 then (if pc + 1 >= |code| then Bad(TruncatedImm) else Op(CallHost(code[pc + 1]), pc + 2))
    else if code[pc] == 7 then Op(Ret, pc + 1)
    else Bad(BadOpcode)
  }

  function RunCode(code: bytes, pc: nat, m: Machine, host: Host, cap: Option<nat>, left: nat): Outcome
    decreases left
  {
    if pc >= |code| then Ended(0, m.calls)
    else if left == 0 then Failed(StepLimit, m.calls)
    else match Decode(code, pc)
      case Bad(e) => Failed(e, m.calls)
      case Op(op, next) =>
        match Exec(op, m, host, cap)
        case Return(v, n) => Ended(v, n.calls)
        case Next(n) => RunCode(code, next, n, host, cap, left - 1)
  }

  // ----- the two interpreters agree

  function Assemble1(op: Op): bytes {
    match op
    case PushI32(v) => [1] + LE(if v < 0 then v + U32 else v, 4)
    case Add => [2]
    case Sub => [3]
    case Mul => [4]
    case Div => [5]
    case CallHost(id) => [6, id]
    case Ret => [7]
  }

  function Assemble(ops: seq<Op>): bytes {
    if ops == [] then [] else Assemble1(ops[0]) + Assemble(ops[1..])
  }

  /** An assembled instruction, anywhere in the code, is decoded as itself. */
  lemma {:induction false} DecodeAssembled(before: bytes, op: Op, after: bytes)
    ensures Decode(before + Assemble1(op) + after, |before|) == Op(op, |before| + |Assemble1(op)|)
  {
    hide LE, FromLE;
    var code := before + Assemble1(op) + after;
    assert code[|before|] == Assemble1(op)[0];
    if op.PushI32? {
      var n := if op.v < 0 then op.v + U32 else op.v;
      assert code[|before| + 1..|before| + 5] == LE(n, 4);
      Pow256Values();
      FromLEofLE(n, 4);
    }
  }

  /** The byte interpreter on assembled code does exactly what the other one does on the instructions: the
      same result, the same calls, and the step limit at the same place. */
  lemma {:induction false} InterpretersAgree(before: bytes, ops: seq<Op>, pc: nat, m: Machine, host: Host, cap: Option<nat>, left: nat)
    requires pc <= |ops|
    ensures RunCode(before + Assemble(ops[pc..]), |before|, m, host, cap, left) == RunOps(ops, pc, m, host, cap, left)
    decreases left
  {
    hide Exec, Decode, Assemble1;
    if pc < |ops| {
      var rest := ops[pc..];
      assert rest[0] == ops[pc] && rest[1..] == ops[pc + 1..];
      var code := before + Assemble(rest);
      assert code == before + Assemble1(ops[pc]) + Assemble(ops[pc + 1..]);
      AssembledSize(ops[pc]);
      if left > 0 {
        DecodeAssembled(before, ops[pc], Assemble(ops[pc + 1..]));
        match Exec(ops[pc], m, host, cap)
        case Return(_, _) =>
        case Next(n) => InterpretersAgree(before + Assemble1(ops[pc]), ops, pc + 1, n, host, cap, left - 1);
      }
    }
  }

  lemma {:induction false} AssembledSize(op: Op)
    ensures |Assemble1(op)| > 0
  {
  }

  /** Every instruction moves pc forward: a program of at most `left` instructions or bytes ends. */
  lemma {:induction false} EnoughSteps(ops: seq<Op>, pc: nat, m: Machine, host: Host, cap: Option<nat>, left: nat)
    requires |ops| <= pc + left
    ensures RunOps(ops, pc, m, host, cap, left).Ended?
    decreases left
  {
    hide Exec;
    if pc < |ops| {
      match Exec(ops[pc], m, host, cap)
      case Return(_, _) =>
      case Next(n) => EnoughSteps(ops, pc + 1, n, host, cap, left - 1);
    }
  }

  lemma {:induction false} EnoughBytes(code: bytes, pc: nat, m: Machine, host: Host, cap: Option<nat>, left: nat)
    requires |code| <= pc + left
    ensures var o := RunCode(code, pc, m, host, cap, left);
            o.Failed? ==> o.error != StepLimit
    decreases left
  {
    hide Exec;
    DecodeErrors(code, pc);
    if pc < |code| {
      match Decode(code, pc)
      case Bad(_) =>
      case Op(op, next) =>
        match Exec(op, m, host, cap)
        case Return(_, _) =>
        case Next(n) => EnoughBytes(code, next, n, host, cap, left - 1);
    }
  }

  lemma {:induction false} DecodeErrors(code: bytes, pc: nat)
    ensures Decode(code, pc).Bad? ==> Decode(code, pc).error != StepLimit
  {
  }

  // ----- the fixed stack and the unbounded one

  /** The unbounded run never holds more than 64 values. */
  predicate DepthFits(ops: seq<Op>, pc: nat, m: Machine, host: Host, left: nat)
    decreases left
  {
    |m.stack| <= STACK &&
    (pc < |ops| && left > 0 ==>
      var e := Exec(ops[pc], m, host, None);
      e.Next? ==> DepthFits(ops, pc + 1, e.m, host, left - 1))
  }

  lemma {:induction false} SameEffect(op: Op, m: Machine, host: Host)
    requires |m.stack| <= STACK
    requires var e := Exec(op, m, host, None); e.Next? ==> |e.m.stack| <= STACK
    ensures Exec(op, m, host, Some(STACK)) == Exec(op, m, host, None)
  {
  }

  /** As long as it is never full, the fixed stack behaves like an unbounded one. */
  lemma {:induction false} FixedIsUnbounded(ops: seq<Op>, pc: nat, m: Machine, host: Host, left: nat)
    requires DepthFits(ops, pc, m, host, left)
    ensures RunOps(ops, pc, m, host, Some(STACK), left) == RunOps(ops, pc, m, host, None, left)
    decreases left
  {
    hide Exec;
    if pc < |ops| && left > 0 {
      var e := Exec(ops[pc], m, host, None);
      assert e.Next? ==> |e.m.stack| <= STACK;
      SameEffect(ops[pc], m, host);
      if e.Next? {
        FixedIsUnbounded(ops, pc + 1, e.m, host, left - 1);
      }
    }
  }

  /** The same stack with some zeros beneath it. */
  predicate ZerosBelow(deep: Machine, m: Machine) {
    && deep.calls == m.calls && |m.stack| <= |deep.stack|
    && deep.stack[|deep.stack| - |m.stack|..] == m.stack
    && forall k :: 0 <= k < |deep.stack| - |m.stack| ==> deep.stack[k] == 0
  }

  lemma {:induction false} ZerosBelowPop(deep: Machine, m: Machine)
    requires ZerosBelow(deep, m)
    ensures Top(deep) == Top(m) && ZerosBelow(Drop(deep), Drop(m))
  {
    if m.stack == [] {
    } else {
      assert deep.stack[|deep.stack| - |m.stack|..][|m.stack| - 1] == m.stack[|m.stack| - 1];
      assert Drop(deep).stack[|deep.stack| - |m.stack|..] == deep.stack[|deep.stack| - |m.stack|..][..|m.stack| - 1];
    }
  }

  lemma {:induction false} ZerosBelowPush(deep: Machine, m: Machine, v: i32)
    requires ZerosBelow(deep, m)
    ensures ZerosBelow(Push(deep, v, None), Push(m, v, None))
  {
    var d := |deep.stack| - |m.stack|;
    assert (deep.stack + [v])[d..] == deep.stack[d..] + [v];
  }

  lemma {:induction false} ZerosBelowExec(op: Op, deep: Machine, m: Machine, host: Host)
    requires ZerosBelow(deep, m)
    ensures var e, f := Exec(op, deep, host, None), Exec(op, m, host, None);
            && e.Next? == f.Next? && ZerosBelow(e.m, f.m) && (e.Return? ==> e.value == f.value)
  {
    hide Push, Top, Drop, ZerosBelow;
    ZerosBelowPop(deep, m);
    ZerosBelowPop(Drop(deep), Drop(m));
    match op
    case PushI32(v) => ZerosBelowPush(deep, m, v);
    case Ret =>
    case CallHost(id) => ZerosBelowCall(deep, m, host, id);
    case _ => ZerosBelowPush(Drop(Drop(deep)), Drop(Drop(m)), Binary(op, Top(Drop(m)), Top(m)));
  }

  lemma {:induction false} ZerosBelowAsk(deep: Machine, m: Machine, host: Host, c: Call)
    requires ZerosBelow(deep, m)
    ensures ZerosBelow(Ask(deep, host, c, None), Ask(m, host, c, None))
  {
    hide Push;
    var calls := m.calls + [c];
    ZerosBelowPush(deep.(calls := calls), m.(calls := calls), host.reply(calls));
  }

  lemma {:induction false} ZerosBelowCall(deep: Machine, m: Machine, host: Host, id: byte)
    requires ZerosBelow(deep, m)
    ensures ZerosBelow(HostCall(deep, host, id, None), HostCall(m, host, id, None))
  {
    hide Push, Top, Drop, ZerosBelow, Ask;
    ZerosBelowPop(deep, m);
    ZerosBelowPop(Drop(deep), Drop(m));
    if id == 0 {
      ZerosBelowAsk(Drop(deep), Drop(m), host, TimerSet(if Top(m) < 0 then 0 else Top(m)));
    } else if id == 1 {
      ZerosBelowAsk(Drop(deep), Drop(m), host, FetchStart(Top(m)));
    } else if id == 2 {
      ZerosBelowAsk(Drop(deep), Drop(m), host, StorageGet(Top(m)));
    } else if id == 3 {
      ZerosBelowAsk(Drop(Drop(deep)), Drop(Drop(m)), host, StorageSet(Top(Drop(m)), Top(m)));
    } else {
      ZerosBelowPush(deep, m, -1);
    }
  }

  /** However many zeros lie beneath the unbounded stack, the run is the same: an empty stack behaves like
      infinitely many zeros. */
  lemma {:induction false} EmptyIsZeros(ops: seq<Op>, pc: nat, deep: Machine, m: Machine, host: Host, left: nat)
    requires ZerosBelow(deep, m)
    ensures RunOps(ops, pc, deep, host, None, left) == RunOps(ops, pc, m, host, None, left)
    decreases left
  {
    hide Exec;
    if pc < |ops| && left > 0 {
      ZerosBelowExec(ops[pc], deep, m, host);
      var e, f := Exec(ops[pc], deep, host, None), Exec(ops[pc], m, host, None);
      if e.Next? {
        EmptyIsZeros(ops, pc + 1, e.m, f.m, host, left - 1);
      }
    }
  }

  // ----- the interpreters in place

  class Vm {
    var stack: seq<i32>
    var sp: nat
    var pc: nat
    var stepLimit: nat
    /** The calls made to the host in this run. */
    var calls: seq<Call>

    predicate Valid()
      reads this
    {
      |stack| == STACK && sp <= STACK
    }

    function Value(): Machine
      requires Valid()
      reads this
    {
      Machine(stack[..sp], calls)
    }

    constructor ()
      ensures Valid() && stepLimit == 4096
    {
      stack, sp, pc, stepLimit, calls := seq(STACK, _ => 0), 0, 0, 4096, [];
    }

    method Reset()
      requires Valid()
      modifies this`sp, this`pc, this`calls
      ensures Valid() && Value() == Machine([], []) && pc == 0
    {
      sp, pc, calls := 0, 0, [];
    }

    method PushValue(v: i32)
      requires Valid()
      modifies this`stack, this`sp
      ensures Valid() && Value() == Push(old(Value()), v, Some(STACK))
    {
      if sp < |stack| {
        stack := stack[sp := v];
        sp := sp + 1;
        assert stack[..sp] == old(stack[..sp]) + [v];
      }
    }

    method Pop() returns (v: i32)
      requires Valid()
      modifies this`sp
      ensures Valid() && v == Top(old(Value())) && Value() == Drop(old(Value()))
    {
      if sp == 0 {
        return 0;
      }
      sp := sp - 1;
      return stack[sp];
    }

    method AskHost(host: Host, c: Call) returns (r: i32)
      requires Valid()
      modifies this`calls
      ensures Valid() && Value() == old(Value()).(calls := old(calls) + [c]) && r == host.reply(calls)
    {
      calls := calls + [c];
      r := host.reply(calls);
    }

    /** binop */
    method BinOp(f: (i32, i32) -> i32)
      requires Valid()
      modifies this`stack, this`sp
      ensures Valid()
      ensures var m := old(Value()); Value() == Push(Drop(Drop(m)), f(Top(Drop(m)), Top(m)), Some(STACK))
    {
      hide Push, Top, Drop;
      var b := Pop();
      var a := Pop();
      PushValue(f(a, b));
    }

    /** exec_one */
    method ExecOne(op: Op, host: Host) returns (ret: Option<i32>)
      requires Valid()
      modifies this`stack, this`sp, this`calls
      ensures Valid()
      ensures Exec(op, old(Value()), host, Some(STACK)) == if ret.Some? then Return(ret.value, Value()) else Next(Value())
    {
      hide Push, Top, Drop;
      ret := None;
      match op {
        case PushI32(v) => PushValue(v);
        case Add => BinOp(WrappingAdd);
        case Sub => BinOp(WrappingSub);
        case Mul => BinOp(WrappingMul);
        case Div =>
          var b := Pop();
          var a := Pop();
          PushValue(Divide(a, b));
        case CallHost(id) =>
          var r: i32;
          if id == 0 {
            var ms := Pop();
            r := AskHost(host, TimerSet(if ms < 0 then 0 else ms));
          } else if id == 1 {
            var url := Pop();
            r := AskHost(host, FetchStart(url));
          } else if id == 2 {
            var key := Pop();
            r := AskHost(host, StorageGet(key));
          } else if id == 3 {
            var value := Pop();
            var key := Pop();
            r := AskHost(host, StorageSet(key, value));
          } else {
            r := -1;
          }
          PushValue(r);
        case Ret =>
          var v := Pop();
          ret := Some(v);
      }
    }

    /** run: zero on falling off the end, and also on running out of steps. The instructions are spelled out a
        second time, and mean the same. */
    method Run(code: seq<Op>, host: Host) returns (v: i32)
      requires Valid()
      modifies this`stack, this`sp, this`pc, this`calls
      ensures Valid()
      ensures var o := RunOps(code, 0, Machine([], []), host, Some(STACK), stepLimit);
              o.calls == calls && v == if o.Ended? then o.value else 0
    {
      hide Push, Top, Drop, RunOps;
      Reset();
      var steps := 0;
      while pc < |code|
        invariant Valid() && pc <= |code| && steps <= stepLimit
        invariant RunOps(code, 0, Machine([], []), host, Some(STACK), stepLimit)
               == RunOps(code, pc, Value(), host, Some(STACK), stepLimit - steps)
      {
        RunStep(code, pc, Value(), host, Some(STACK), stepLimit - steps);
        steps := steps + 1;
        if steps > stepLimit {
          return 0;
        }
        var op := code[pc];
        ghost var was := Value();
        pc := pc + 1;
        match op {
          case PushI32(i) => PushValue(i);
          case Add => BinOp(WrappingAdd);
          case Sub => BinOp(WrappingSub);
          case Mul => BinOp(WrappingMul);
          case Div =>
            var b := Pop();
            var a := Pop();
            PushValue(Divide(a, b));
          case CallHost(id) =>
            var r: i32;
            if id == 0 {
              var ms := Pop();
              r := AskHost(host, TimerSet(if ms < 0 then 0 else ms));
            } else if id == 1 {
              var url := Pop();
              r := AskHost(host, FetchStart(url));
            } else if id == 2 {
              var key := Pop();
              r := AskHost(host, StorageGet(key));
            } else if id == 3 {
              var value := Pop();
              var key := Pop();
              r := AskHost(host, StorageSet(key, value));
            } else {
              r := -1;
            }
            PushValue(r);
          case Ret =>
            v := Pop();
            return;
        }
        assert Exec(op, was, host, Some(STACK)) == Next(Value());
      }
      RunStep(code, pc, Value(), host, Some(STACK), stepLimit - steps);
      return 0;
    }

    /** run_bytes */
    method RunBytes(code: bytes, host: Host) returns (o: Outcome)
      requires Valid()
      modifies this`stack, this`sp, this`pc, this`calls
      ensures Valid() && o == RunCode(code, 0, Machine([], []), host, Some(STACK), stepLimit) && o.calls == calls
    {
      hide Exec, Decode;
      Reset();
      var steps := 0;
      while pc < |code|
        invariant Valid() && pc <= |code| && steps <= stepLimit
        invariant RunCode(code, 0, Machine([], []), host, Some(STACK), stepLimit)
               == RunCode(code, pc, Value(), host, Some(STACK), stepLimit - steps)
      {
        steps := steps + 1;
        if steps > stepLimit {
          return Failed(StepLimit, calls);
        }
        var d := Decode(code, pc);
        if d.Bad? {
          return Failed(d.error, calls);
        }
        pc := d.pc;
        var ret := ExecOne(d.op, host);
        if ret.Some? {
          return Ended(ret.value, calls);
        }
      }
      return Ended(0, calls);
    }
  }

  /** Run and RunBytes on the same instructions: equal values and calls, except that running out of steps is
      an error for one and zero for the other. */
  lemma {:induction false} SameProgram(ops: seq<Op>, host: Host, limit: nat)
    ensures RunCode(Assemble(ops), 0, Machine([], []), host, Some(STACK), limit)
         == RunOps(ops, 0, Machine([], []), host, Some(STACK), limit)
    ensures |ops| <= limit ==> RunOps(ops, 0, Machine([], []), host, Some(STACK), limit).Ended?
  {
    hide RunCode, RunOps, Assemble;
    assert ops[0..] == ops && [] + Assemble(ops) == Assemble(ops);
    InterpretersAgree([], ops, 0, Machine([], []), host, Some(STACK), limit);
    if |ops| <= limit {
      EnoughSteps(ops, 0, Machine([], []), host, Some(STACK), limit);
    }
  }

  // ----- scripts in pages

  const MARKER: bytes := [101, 118, 101, 45, 115, 99, 114, 105, 112, 116, 58]
  const PAGE_CODE := 256

  predicate MatchesAt(hay: bytes, needle: bytes, i: nat) {
    i + |needle| <= |hay| && forall j :: 0 <= j < |needle| ==> LowerCase(hay[i + j]) == LowerCase(needle[j])
  }

  /** The first place from i on where the needle stands, upper case or lower. */
  function FindFrom(hay: bytes, needle: bytes, i: nat): (at: Option<nat>)
    ensures at.None? ==> forall k :: i <= k ==> !MatchesAt(hay, needle, k)
    ensures at.Some? ==> i <= at.value && MatchesAt(hay, needle, at.value) && forall k :: i <= k < at.value ==> !MatchesAt(hay, needle, k)
    decreases |hay| - i
  {
    if i + |needle| > |hay| then None
    else if MatchesAt(hay, needle, i) then Some(i)
    else FindFrom(hay, needle, i + 1)
  }

  /** find_ci for a needle that is not empty */
  method FindCi(hay: bytes, needle: bytes) returns (at: Option<nat>)
    requires |needle| > 0
    ensures at == FindFrom(hay, needle, 0)
  {
    if |hay| < |needle| {
      return None;
    }
    for i := 0 to |hay| - |needle| + 1
      invariant FindFrom(hay, needle, 0) == FindFrom(hay, needle, i)
    {
      var same := true;
      for j := 0 to |needle|
        invariant same ==> forall k :: 0 <= k < j ==> LowerCase(hay[i + k]) == LowerCase(needle[k])
        invariant !same ==> !MatchesAt(hay, needle, i)
      {
        if LowerCase(hay[i + j]) != LowerCase(needle[j]) {
          same := false;
        }
      }
      if same {
        return Some(i);
      }
    }
    return None;
  }

  predicate Space(b: byte) {
    b == 32 || b == 9 || b == 13 || b == 10
  }

  function SkipSpace(raw: bytes, i: nat): (j: nat)
    requires i <= |raw|
    ensures i <= j <= |raw|
    decreases |raw| - i
  {
    if i < |raw| && Space(raw[i]) then SkipSpace(raw, i + 1) else i
  }

  /** The bytes that the hex pairs from i on write, at most `room` of them. */
  function HexPairs(raw: bytes, i: nat, room: nat): (code: bytes)
    ensures |code| <= room
    decreases room, |raw|
  {
    if room == 0 || i + 1 >= |raw| then []
    else match (HexDigit(raw[i]), HexDigit(raw[i + 1]))
      case (Some(hi), Some(lo)) => [hi * 16 + lo] + HexPairs(raw, i + 2, room - 1)
      case _ => []
  }

  function NoHost(): Host {
    Host((calls: seq<Call>) => -1)
  }

  /** What the first marker of a page amounts to: the run of its hex pairs. */
  function PageScript(raw: bytes, enabled: bool): Option<Outcome> {
    if !enabled then None else
    match FindFrom(raw, MARKER, 0)
    case None => None
    case Some(at) =>
      var code := HexPairs(raw, SkipSpace(raw, at + |MARKER|), PAGE_CODE);
      Some(if code == [] then Failed(TruncatedImm, []) else RunCode(code, 0, Machine([], []), NoHost(), Some(STACK), 4096))
  }

  /** run_page_eve_script: a marker, blanks, hex pairs. */
  method RunPageEveScript(raw: bytes, enabled: bool) returns (r: Option<Outcome>)
    ensures r == PageScript(raw, enabled)
  {
    hide RunCode, HexPairs, FindFrom;
    if !enabled {
      return None;
    }
    var found := FindCi(raw, MARKER);
    if found.None? {
      return None;
    }
    var at := found.value;
    var i := at + |MARKER|;
    while i < |raw| && Space(raw[i])
      invariant at + |MARKER| <= i <= |raw| && SkipSpace(raw, at + |MARKER|) == SkipSpace(raw, i)
      decreases |raw| - i
    {
      i := i + 1;
    }
    var code := ReadHexPairs(raw, i);
    if |code| == 0 {
      return Some(Failed(TruncatedImm, []));
    }
    var vm := new Vm();
    var o := vm.RunBytes(code, NoHost());
    r := Some(o);
  }

  /** A page program, at most 256 bytes long, never runs out of its 4096 steps. */
  lemma {:induction false} PageNeverOutOfSteps(raw: bytes, enabled: bool)
    ensures var r := PageScript(raw, enabled);
            r.Some? && r.value.Failed? ==> r.value.error != StepLimit
  {
    hide RunCode;
    var found := FindFrom(raw, MARKER, 0);
    if enabled && found.Some? {
      var code := HexPairs(raw, SkipSpace(raw, found.value + |MARKER|), PAGE_CODE);
      EnoughBytes(code, 0, Machine([], []), NoHost(), Some(STACK), 4096);
    }
  }

  /** The text gives each byte as two hexadecimal digits, in either case. */
  predicate Spells(text: bytes, code: bytes) {
    && |text| == 2 * |code|
    && forall k :: 0 <= k < |code| ==> IsDigit(text[2 * k], code[k] / 16) && IsDigit(text[2 * k + 1], code[k] % 16)
  }

  predicate NoDigit(b: byte) {
    forall d :: 0 <= d < 16 ==> !IsDigit(b, d)
  }

  /** No pair of hexadecimal digits stands at i. */
  predicate NoPair(raw: bytes, i: nat) {
    i + 1 >= |raw| || NoDigit(raw[i]) || NoDigit(raw[i + 1])
  }

  lemma {:induction false} NoPairRead(raw: bytes, i: nat)
    requires NoPair(raw, i)
    ensures i + 1 >= |raw| || HexDigit(raw[i]).None? || HexDigit(raw[i + 1]).None?
  {
    if i + 1 < |raw| && HexDigit(raw[i]).Some? && HexDigit(raw[i + 1]).Some? {
      DigitPlace(raw[i], HexDigit(raw[i]).value);
      DigitPlace(raw[i + 1], HexDigit(raw[i + 1]).value);
    }
  }

  lemma {:induction false} HexReadsBack(raw: bytes, i: nat, code: bytes, room: nat)
    requires |code| <= room && i + 2 * |code| <= |raw| && Spells(raw[i..i + 2 * |code|], code)
    requires |code| < room ==> NoPair(raw, i + 2 * |code|)
    ensures HexPairs(raw, i, room) == code
    decreases code
  {
    hide HexPairs, HexDigit, IsDigit, NoPair;
    NextPair(raw, i, room);
    if code == [] {
      if room > 0 {
        NoPairRead(raw, i);
      }
    } else {
      var rest := code[1..];
      SpellsRest(raw, i, code);
      DigitPlace(raw[i], code[0] / 16);
      DigitPlace(raw[i + 1], code[0] % 16);
      HexReadsBack(raw, i + 2, rest, room - 1);
      assert code == [code[0]] + rest;
    }
  }

  lemma {:induction false} SpellsRest(raw: bytes, i: nat, code: bytes)
    requires |code| > 0 && i + 2 * |code| <= |raw| && Spells(raw[i..i + 2 * |code|], code)
    ensures IsDigit(raw[i], code[0] / 16) && IsDigit(raw[i + 1], code[0] % 16)
    ensures Spells(raw[i + 2..i + 2 * |code|], code[1..])
  {
    hide IsDigit;
    var text, rest := raw[i..i + 2 * |code|], raw[i + 2..i + 2 * |code|];
    assert text[2 * 0] == raw[i] && text[2 * 0 + 1] == raw[i + 1];
    forall k | 0 <= k < |code| - 1 ensures IsDigit(rest[2 * k], code[1..][k] / 16) && IsDigit(rest[2 * k + 1], code[1..][k] % 16) {
      assert rest[2 * k] == text[2 * (k + 1)] && rest[2 * k + 1] == text[2 * (k + 1) + 1];
    }
  }

  /** The marker, with its letters in either case. */
  ghost predicate MarkerAt(raw: bytes, i: nat) {
    i + |MARKER| <= |raw| && forall k :: 0 <= k < |MARKER| ==> SameLetter(raw[i + k], MARKER[k])
  }

  /** At i stands a marker, and nowhere before it. */
  ghost predicate FirstMarker(raw: bytes, i: nat) {
    MarkerAt(raw, i) && forall k :: 0 <= k < i ==> !MarkerAt(raw, k)
  }

  lemma {:induction false} MatchesMarker(raw: bytes, i: nat)
    ensures MatchesAt(raw, MARKER, i) <==> MarkerAt(raw, i)
  {
    hide LowerCase, SameLetter;
    if i + |MARKER| <= |raw| {
      forall k | 0 <= k < |MARKER| ensures LowerCase(raw[i + k]) == LowerCase(MARKER[k]) <==> SameLetter(raw[i + k], MARKER[k]) {
        SameLowerCase(raw[i + k], MARKER[k]);
      }
    }
  }

  lemma {:induction false} FirstMarkerFound(raw: bytes, i: nat)
    requires FirstMarker(raw, i)
    ensures FindFrom(raw, MARKER, 0) == Some(i)
  {
    hide MarkerAt, MatchesAt;
    forall k | 0 <= k <= i ensures MatchesAt(raw, MARKER, k) <==> k == i {
      MatchesMarker(raw, k);
    }
    var at := FindFrom(raw, MARKER, 0);
    assert at.Some? ==> MatchesAt(raw, MARKER, at.value);
    assert MatchesAt(raw, MARKER, i);
  }

  lemma {:induction false} BlanksSkipped(raw: bytes, i: nat, j: nat)
    requires i <= j < |raw| && (forall k :: i <= k < j ==> Space(raw[k])) && !Space(raw[j])
    ensures SkipSpace(raw, i) == j
    decreases j - i
  {
    if i < j {
      BlanksSkipped(raw, i + 1, j);
    }
  }

  lemma {:induction false} DigitIsNoSpace(b: byte, d: nat)
    requires IsDigit(b, d)
    ensures !Space(b)
  {
  }

  predicate Blank(b: byte) {
    b as char == ' ' || b as char == '\t' || b as char == '\r' || b as char == '\n'
  }

  /** A page whose first marker, in either case, is followed by blanks and the hexadecimal text of an assembled
      program runs that program on the instructions' own terms; after its 256 bytes anything may follow. */
  lemma {:induction false} PageRunsProgram(ops: seq<Op>, raw: bytes, i: nat, j: nat)
    requires 0 < |Assemble(ops)| <= PAGE_CODE
    requires FirstMarker(raw, i) && i + 11 <= j && j + 2 * |Assemble(ops)| <= |raw|
    requires forall k :: i + |MARKER| <= k < j ==> Blank(raw[k])
    requires Spells(raw[j..j + 2 * |Assemble(ops)|], Assemble(ops))
    requires |Assemble(ops)| < PAGE_CODE ==> NoPair(raw, j + 2 * |Assemble(ops)|)
    ensures PageScript(raw, true) == Some(RunOps(ops, 0, Machine([], []), NoHost(), Some(STACK), 4096))
  {
    hide RunCode, RunOps, Assemble, HexPairs, FirstMarker, Spells, NoPair;
    var code := Assemble(ops);
    FirstMarkerFound(raw, i);
    SpellsRest(raw, j, code);
    DigitIsNoSpace(raw[j], code[0] / 16);
    BlanksSkipped(raw, i + |MARKER|, j);
    HexReadsBack(raw, j, code, PAGE_CODE);
    SameProgram(ops, NoHost(), 4096);
  }

  /** A page without a marker has no script; a marker without code behind it is an error. */
  lemma {:induction false} PageWithoutCode(raw: bytes, i: nat, j: nat)
    ensures (forall k :: 0 <= k < |raw| ==> !MarkerAt(raw, k)) ==> PageScript(raw, true) == None
    ensures FirstMarker(raw, i) && i + 11 <= j < |raw| && (forall k :: i + 11 <= k < j ==> Blank(raw[k])) && !Blank(raw[j]) && NoPair(raw, j)
            ==> PageScript(raw, true) == Some(Failed(TruncatedImm, []))
  {
    hide RunCode, HexPairs, FirstMarker, NoPair, MatchesAt, MarkerAt;
    var at := FindFrom(raw, MARKER, 0);
    if at.Some? {
      MatchesMarker(raw, at.value);
      MarkerFits(raw, at.value);
    }
    if FirstMarker(raw, i) && i + 11 <= j < |raw| && (forall k :: i + 11 <= k < j ==> Blank(raw[k])) && !Blank(raw[j]) && NoPair(raw, j) {
      FirstMarkerFound(raw, i);
      BlanksSkipped(raw, i + |MARKER|, j);
      NoPairRead(raw, j);
      NextPair(raw, j, PAGE_CODE);
    }
  }

  lemma {:induction false} MarkerFits(raw: bytes, i: nat)
    requires MarkerAt(raw, i)
    ensures i < |raw|
  {
  }

  lemma {:induction false} NextPair(raw: bytes, i: nat, room: nat)
    ensures HexPairs(raw, i, room) ==
      if room == 0 || i + 1 >= |raw| || HexDigit(raw[i]).None? || HexDigit(raw[i + 1]).None? then []
      else [HexDigit(raw[i]).value * 16 + HexDigit(raw[i + 1]).value] + HexPairs(raw, i + 2, room - 1)
  {
  }

  method ReadHexPairs(raw: bytes, i0: nat) returns (code: bytes)
    ensures code == HexPairs(raw, i0, PAGE_CODE)
  {
    hide HexPairs;
    code := [];
    var i := i0;
    assert [] + HexPairs(raw, i, PAGE_CODE) == HexPairs(raw, i, PAGE_CODE);
    while i + 1 < |raw| && |code| < PAGE_CODE
      invariant |code| <= PAGE_CODE
      invariant HexPairs(raw, i0, PAGE_CODE) == code + HexPairs(raw, i, PAGE_CODE - |code|)
      decreases |raw| - i
    {
      NextPair(raw, i, PAGE_CODE - |code|);
      var hi, lo := HexDigit(raw[i]), HexDigit(raw[i + 1]);
      if hi.None? || lo.None? {
        return;
      }
      var b: byte := hi.value * 16 + lo.value;
      assert code + ([b] + HexPairs(raw, i + 2, PAGE_CODE - |code| - 1)) == code + [b] + HexPairs(raw, i + 2, PAGE_CODE - |code| - 1);
      code := code + [b];
      i := i + 2;
    }
    NextPair(raw, i, PAGE_CODE - |code|);
  }
}
