/** Expressions compiled for the script VM (kernel/src/script_runtime.rs:83-246): running the code gives the value that
    the expression has by the rules of two's complement arithmetic, and makes its calls in order. */
module ScriptExpressions {
  import opened Bytes
  import Arithmetic
  import opened ScriptVm

  // ----- arithmetic

  /** r is n in 32 bits: the two differ by a multiple of 2^32. */
  predicate SameIn32(r: int, n: int) {
    (r - n) % 0x1_0000_0000 == 0
  }

  /** q and m are quotient and remainder of a division towards zero: the remainder has the dividend's sign. */
  predicate Quotient(a: int, b: int, q: int, m: int) {
    b != 0 && a == q * b + m && Magnitude(m) < Magnitude(b) && (m == 0 || (m < 0 <==> a < 0))
  }

  /** r is what the instruction makes of a, pushed first, and b. */
  ghost predicate IsResult(op: Op, a: i32, b: i32, r: i32) {
    match op
    case Add => SameIn32(r, a + b)
    case Sub => SameIn32(r, a - b)
    case Mul => SameIn32(r, a * b)
    case Div => if b == 0 then r == 0 else exists q: int, m: int :: Quotient(a, b, q, m) && SameIn32(r, q)
    case _ => false
  }

  predicate Arithmetical(op: Op) {
    op.Add? || op.Sub? || op.Mul? || op.Div?
  }

  lemma {:induction false} Wraps(n: int)
    ensures SameIn32(Wrap32(n), n)
  {
    assert n - MIN32 == (n - MIN32) / U32 * U32 + (n - MIN32) % U32;
  }

  /** Dividing the magnitudes, and giving quotient and remainder their signs. */
  lemma {:induction false} SignedQuotient(a: int, b: int, k: int, m: int)
    requires b != 0 && k >= 0 && m >= 0 && Magnitude(a) == k * Magnitude(b) + m && m < Magnitude(b)
    ensures Quotient(a, b, if (a < 0) == (b < 0) then k else -k, if a < 0 then -m else m)
  {
    if b < 0 {
      assert k * Magnitude(b) == -(k * b) == -k * b;
    } else {
      assert -k * b == -(k * b);
    }
  }

  lemma {:induction false} DividesTowardsZero(a: i32, b: i32)
    requires b != 0
    ensures IsResult(Div, a, b, Divide(a, b))
  {
    hide Quotient, SameIn32, Divide, Magnitude;
    assert Magnitude(b) > 0 by { Sizes(b); }
    var k: int, m: int := Magnitude(a) / Magnitude(b), Magnitude(a) % Magnitude(b);
    Arithmetic.DivNonNeg(Magnitude(a), Magnitude(b));
    SignedQuotient(a, b, k, m);
    DivideWraps(a, b);
  }

  lemma {:induction false} Sizes(b: int)
    requires b != 0
    ensures Magnitude(b) > 0
  {
  }

  lemma {:induction false} DivideWraps(a: i32, b: i32)
    requires b != 0
    ensures SameIn32(Divide(a, b), if (a < 0) == (b < 0) then Magnitude(a) / Magnitude(b) else -(Magnitude(a) / Magnitude(b)))
  {
  }

  lemma {:induction false} BinaryResult(op: Op, a: i32, b: i32)
    requires Arithmetical(op)
    ensures IsResult(op, a, b, Binary(op, a, b))
  {
    hide SameIn32, Wrap32;
    match op
    case Add => Wraps(a + b);
    case Sub => Wraps(a - b);
    case Mul => Wraps(a * b);
    case Div => if b != 0 { DividesTowardsZero(a, b); }
  }

  // ----- expressions

  /** Numbers, arithmetic, calls with one argument, the call with two, and calls of an unknown number. */
  datatype Expr =
    | Number(v: i32)
    | Arith(op: Op, left: Expr, right: Expr)
    | Request(id: byte, arg: Expr)
    | Store(key: Expr, value: Expr)
    | Unknown(id: byte)
  {
    predicate Ok() {
      match this
      case Number(_) => true
      case Arith(op, left, right) => Arithmetical(op) && left.Ok() && right.Ok()
      case Request(id, arg) => id <= 2 && arg.Ok()
      case Store(key, value) => key.Ok() && value.Ok()
      case Unknown(id) => id >= 4
    }

    /** The instructions, in reverse Polish order. */
    function Code(): seq<Op> {
      match this
      case Number(v) => [PushI32(v)]
      case Arith(op, left, right) => left.Code() + right.Code() + [op]
      case Request(id, arg) => arg.Code() + [CallHost(id)]
      case Store(key, value) => key.Code() + value.Code() + [CallHost(3)]
      case Unknown(id) => [CallHost(id)]
    }

    /** How many values its code has on the stack at once. */
    function Depth(): (d: nat)
      ensures d >= 1
    {
      match this
      case Number(_) => 1
      case Arith(_, left, right) => Max(left.Depth(), 1 + right.Depth())
      case Request(_, arg) => arg.Depth()
      case Store(key, value) => Max(key.Depth(), 1 + value.Depth())
      case Unknown(_) => 1
    }

    /** After the calls `was`, the expression has the value v, and then `now` are the calls made. Arguments are evaluated
        from left to right; a call has the value that the host replies, and an unknown one -1. */
    ghost predicate Evaluates(host: Host, was: seq<Call>, v: i32, now: seq<Call>) {
      match this
      case Number(n) => v == n && now == was
      case Arith(op, left, right) => exists a: i32, b: i32, mid: seq<Call> ::
        left.Evaluates(host, was, a, mid) && right.Evaluates(host, mid, b, now) && IsResult(op, a, b, v)
      case Request(id, arg) => exists n: i32, mid: seq<Call> ::
        arg.Evaluates(host, was, n, mid) && Answers(host, mid, Requested(id, n), v, now)
      case Store(key, value) => exists k: i32, n: i32, first: seq<Call>, mid: seq<Call> ::
        && key.Evaluates(host, was, k, first) && value.Evaluates(host, first, n, mid)
        && Answers(host, mid, StorageSet(k, n), v, now)
      case Unknown(_) => v == -1 && now == was
    }
  }

  function Max(a: nat, b: nat): nat {
    if a < b then b else a
  }

  /** The call of one argument: a timer counts no negative time. */
  function Requested(id: byte, n: i32): Call {
    match id
    case 0 => TimerSet(if n < 0 then 0 else n)
    case 1 => FetchStart(n)
    case _ => StorageGet(n)
  }

  /** One more call, and the host's reply to it. */
  predicate Answers(host: Host, was: seq<Call>, c: Call, v: i32, now: seq<Call>) {
    now == was + [c] && v == host.reply(now)
  }

  // ----- the code computes the value

  /** The code of an expression, from pc on. */
  predicate CodeAt(code: seq<Op>, pc: nat, e: Expr) {
    pc + |e.Code()| <= |code| && code[pc..pc + |e.Code()|] == e.Code()
  }

  lemma {:induction false} FirstPart(code: seq<Op>, pc: nat, a: seq<Op>, b: seq<Op>)
    requires pc + |a| + |b| <= |code| && code[pc..pc + |a| + |b|] == a + b
    ensures code[pc..pc + |a|] == a && code[pc + |a|..pc + |a| + |b|] == b
  {
    var s := code[pc..pc + |a| + |b|];
    assert code[pc..pc + |a|] == s[..|a|];
    assert code[pc + |a|..pc + |a| + |b|] == s[|a|..];
  }

  lemma {:induction false} LastPart(code: seq<Op>, pc: nat, a: seq<Op>, op: Op)
    requires pc + |a| < |code| && code[pc..pc + |a| + 1] == a + [op]
    ensures code[pc..pc + |a|] == a && code[pc + |a|] == op
  {
    var s := code[pc..pc + |a| + 1];
    assert code[pc..pc + |a|] == s[..|a|];
    assert code[pc + |a|] == s[|a|];
  }

  /** The run of an expression's code, from any place and on any stack with room for it: all of it happens, and leaves
      the value on the stack. */
  ghost predicate Computes(code: seq<Op>, pc: nat, e: Expr, m: Machine, host: Host, left: nat, v: i32, now: seq<Call>)
    requires left >= |e.Code()|
  {
    RunOps(code, pc, m, host, Some(STACK), left)
      == RunOps(code, pc + |e.Code()|, Machine(m.stack + [v], now), host, Some(STACK), left - |e.Code()|)
  }

  lemma {:induction false} ExpressionComputes(code: seq<Op>, pc: nat, e: Expr, m: Machine, host: Host, left: nat)
    returns (v: i32, now: seq<Call>)
    requires e.Ok() && CodeAt(code, pc, e) && |m.stack| + e.Depth() <= STACK && left >= |e.Code()|
    ensures e.Evaluates(host, m.calls, v, now) && Computes(code, pc, e, m, host, left, v, now)
    decreases |e.Code()|, 1
  {
    match e
    case Number(_) => v, now := NumberComputes(code, pc, e, m, host, left);
    case Unknown(_) => v, now := NumberComputes(code, pc, e, m, host, left);
    case Arith(_, _, _) => v, now := ArithComputes(code, pc, e, m, host, left);
    case Request(_, _) => v, now := RequestComputes(code, pc, e, m, host, left);
    case Store(_, _) => v, now := StoreComputes(code, pc, e, m, host, left);
  }

  lemma {:induction false} NumberComputes(code: seq<Op>, pc: nat, e: Expr, m: Machine, host: Host, left: nat)
    returns (v: i32, now: seq<Call>)
    requires (e.Number? || e.Unknown?) && e.Ok() && CodeAt(code, pc, e) && |m.stack| + e.Depth() <= STACK && left >= |e.Code()|
    ensures e.Evaluates(host, m.calls, v, now) && Computes(code, pc, e, m, host, left, v, now)
  {
    hide RunOps, Exec;
    v, now := if e.Number? then e.v else -1, m.calls;
    var op := e.Code()[0];
    assert code[pc..pc + 1][0] == op;
    NumberStep(op, m, host);
    LastStep(code, pc, op, m, host, left, Machine(m.stack + [v], now));
  }

  lemma {:induction false} ArithComputes(code: seq<Op>, pc: nat, e: Expr, m: Machine, host: Host, left: nat)
    returns (v: i32, now: seq<Call>)
    requires e.Arith? && e.Ok() && CodeAt(code, pc, e) && |m.stack| + e.Depth() <= STACK && left >= |e.Code()|
    ensures e.Evaluates(host, m.calls, v, now) && Computes(code, pc, e, m, host, left, v, now)
    decreases |e.Code()|, 0
  {
    hide RunOps, Exec, Binary, IsResult;
    var a, b, first, mid := TwoCompute(code, pc, e.left, e.right, e.op, m, host, left);
    v, now := Binary(e.op, a, b), mid;
    BinaryResult(e.op, a, b);
    ArithStep(e.op, m.stack, a, b, now, host);
    LastStep(code, pc + |e.Code()| - 1, e.op, Machine(m.stack + [a] + [b], now), host,
             left - |e.Code()| + 1, Machine(m.stack + [v], now));
  }

  lemma {:induction false} RequestComputes(code: seq<Op>, pc: nat, e: Expr, m: Machine, host: Host, left: nat)
    returns (v: i32, now: seq<Call>)
    requires e.Request? && e.Ok() && CodeAt(code, pc, e) && |m.stack| + e.Depth() <= STACK && left >= |e.Code()|
    ensures e.Evaluates(host, m.calls, v, now) && Computes(code, pc, e, m, host, left, v, now)
    decreases |e.Code()|, 0
  {
    hide RunOps, Exec;
    var arg, op := e.arg, CallHost(e.id);
    LastPart(code, pc, arg.Code(), op);
    var n, mid := ExpressionComputes(code, pc, arg, m, host, left);
    now := mid + [Requested(e.id, n)];
    v := host.reply(now);
    RequestStep(e.id, m.stack, n, mid, host);
    LastStep(code, pc + |arg.Code()|, op, Machine(m.stack + [n], mid), host, left - |arg.Code()|, Machine(m.stack + [v], now));
  }

  lemma {:induction false} StoreComputes(code: seq<Op>, pc: nat, e: Expr, m: Machine, host: Host, left: nat)
    returns (v: i32, now: seq<Call>)
    requires e.Store? && e.Ok() && CodeAt(code, pc, e) && |m.stack| + e.Depth() <= STACK && left >= |e.Code()|
    ensures e.Evaluates(host, m.calls, v, now) && Computes(code, pc, e, m, host, left, v, now)
    decreases |e.Code()|, 0
  {
    hide RunOps, Exec;
    var k, n, first, mid := TwoCompute(code, pc, e.key, e.value, CallHost(3), m, host, left);
    now := mid + [StorageSet(k, n)];
    v := host.reply(now);
    StoreStep(m.stack, k, n, mid, host);
    LastStep(code, pc + |e.Code()| - 1, CallHost(3), Machine(m.stack + [k] + [n], mid), host,
             left - |e.Code()| + 1, Machine(m.stack + [v], now));
  }

  /** Both arguments of an instruction, one after the other. */
  lemma {:induction false} TwoCompute(code: seq<Op>, pc: nat, l: Expr, r: Expr, op: Op, m: Machine, host: Host, left: nat)
    returns (a: i32, b: i32, first: seq<Call>, now: seq<Call>)
    requires l.Ok() && r.Ok() && |m.stack| + Max(l.Depth(), 1 + r.Depth()) <= STACK && left > |l.Code()| + |r.Code()|
    requires pc + |l.Code()| + |r.Code()| < |code| && code[pc..pc + |l.Code()| + |r.Code()| + 1] == l.Code() + r.Code() + [op]
    ensures l.Evaluates(host, m.calls, a, first) && r.Evaluates(host, first, b, now) && code[pc + |l.Code()| + |r.Code()|] == op
    ensures RunOps(code, pc, m, host, Some(STACK), left)
         == RunOps(code, pc + |l.Code()| + |r.Code()|, Machine(m.stack + [a] + [b], now), host, Some(STACK), left - |l.Code()| - |r.Code()|)
    decreases |l.Code()| + |r.Code()|, 2
  {
    hide RunOps, Expr.Evaluates, Expr.Code, Expr.Depth;
    LastPart(code, pc, l.Code() + r.Code(), op);
    FirstPart(code, pc, l.Code(), r.Code());
    a, first := ExpressionComputes(code, pc, l, m, host, left);
    b, now := ExpressionComputes(code, pc + |l.Code()|, r, Machine(m.stack + [a], first), host, left - |l.Code()|);
  }

  lemma {:induction false} NumberStep(op: Op, m: Machine, host: Host)
    requires op.PushI32? || (op.CallHost? && op.id >= 4)
    requires |m.stack| < STACK
    ensures Exec(op, m, host, Some(STACK)) == Next(Machine(m.stack + [if op.PushI32? then op.v else -1], m.calls))
  {
  }

  lemma {:induction false} ArithStep(op: Op, stack: seq<i32>, a: i32, b: i32, calls: seq<Call>, host: Host)
    requires Arithmetical(op) && |stack| < STACK
    ensures Exec(op, Machine(stack + [a] + [b], calls), host, Some(STACK)) == Next(Machine(stack + [Binary(op, a, b)], calls))
  {
    hide Binary;
    TwoPopped(stack, a, b, calls);
  }

  lemma {:induction false} TwoPopped(stack: seq<i32>, a: i32, b: i32, calls: seq<Call>)
    ensures var m := Machine(stack + [a] + [b], calls);
            Top(m) == b && Top(Drop(m)) == a && Drop(Drop(m)) == Machine(stack, calls)
  {
    assert (stack + [a] + [b])[..|stack| + 1] == stack + [a];
    assert (stack + [a])[..|stack|] == stack;
  }

  lemma {:induction false} RequestStep(id: byte, stack: seq<i32>, n: i32, calls: seq<Call>, host: Host)
    requires id <= 2 && |stack| < STACK
    ensures var now := calls + [Requested(id, n)];
            Exec(CallHost(id), Machine(stack + [n], calls), host, Some(STACK)) == Next(Machine(stack + [host.reply(now)], now))
  {
    assert (stack + [n])[..|stack|] == stack;
  }

  lemma {:induction false} StoreStep(stack: seq<i32>, k: i32, n: i32, calls: seq<Call>, host: Host)
    requires |stack| < STACK
    ensures var now := calls + [StorageSet(k, n)];
            Exec(CallHost(3), Machine(stack + [k] + [n], calls), host, Some(STACK)) == Next(Machine(stack + [host.reply(now)], now))
  {
    TwoPopped(stack, k, n, calls);
  }

  /** One instruction that goes on. */
  lemma {:induction false} LastStep(code: seq<Op>, pc: nat, op: Op, m: Machine, host: Host, left: nat, n: Machine)
    requires pc < |code| && code[pc] == op && left > 0 && Exec(op, m, host, Some(STACK)) == Next(n)
    ensures RunOps(code, pc, m, host, Some(STACK), left) == RunOps(code, pc + 1, n, host, Some(STACK), left - 1)
  {
    hide Exec;
  }

  /** An expression that needs at most 64 values at once, followed by a return, within the step limit: the program ends
      with the expression's value, having made its calls. */
  lemma {:induction false} ProgramReturns(e: Expr, host: Host, limit: nat)
    requires e.Ok() && e.Depth() <= STACK && |e.Code()| < limit
    ensures var o := RunOps(e.Code() + [Ret], 0, Machine([], []), host, Some(STACK), limit);
            o.Ended? && e.Evaluates(host, [], o.value, o.calls)
  {
    hide RunOps, Exec;
    var code, n := e.Code() + [Ret], |e.Code()|;
    var v, now := ExpressionComputes(code, 0, e, Machine([], []), host, limit);
    Returns(code, n, [] + [v], now, host, limit - n);
  }

  lemma {:induction false} Returns(code: seq<Op>, pc: nat, stack: seq<i32>, calls: seq<Call>, host: Host, left: nat)
    requires pc < |code| && code[pc] == Ret && |stack| == 1 && left > 0
    ensures RunOps(code, pc, Machine(stack, calls), host, Some(STACK), left) == Ended(stack[0], calls)
  {
  }

  // ----- an example

  lemma {:induction false} Assembled(op: Op, rest: seq<Op>)
    ensures Assemble([op] + rest) == Assemble1(op) + Assemble(rest)
  {
    assert ([op] + rest)[1..] == rest;
  }

  lemma {:induction false} Small(n: byte)
    requires n < 128
    ensures Assemble1(PushI32(n)) == [1, n, 0, 0, 0]
  {
    assert n / 256 == 0;
    assert LE(0, 3) == [0] + LE(0, 2) && LE(0, 2) == [0] + LE(0, 1) && LE(0, 1) == [0] + LE(0, 0);
  }

  const EXAMPLE: seq<Op> := [PushI32(7), PushI32(2), Sub, PushI32(3), Mul, CallHost(9), Add, Ret]

  lemma {:induction false} ExampleTail()
    ensures Assemble([PushI32(3), Mul, CallHost(9), Add, Ret]) == [1, 3, 0, 0, 0, 4, 6, 9, 2, 7]
  {
    hide Assemble;
    NoCode();
    Small(3);
    Assembled(Ret, []);
    assert [Ret] + [] == [Ret] && [Add] + [Ret] == [Add, Ret];
    Assembled(Add, [Ret]);
    assert [CallHost(9)] + [Add, Ret] == [CallHost(9), Add, Ret];
    Assembled(CallHost(9), [Add, Ret]);
    assert [Mul] + [CallHost(9), Add, Ret] == [Mul, CallHost(9), Add, Ret];
    Assembled(Mul, [CallHost(9), Add, Ret]);
    assert [PushI32(3)] + [Mul, CallHost(9), Add, Ret] == [PushI32(3), Mul, CallHost(9), Add, Ret];
    Assembled(PushI32(3), [Mul, CallHost(9), Add, Ret]);
  }

  lemma {:induction false} ExampleMiddle()
    ensures Assemble([Sub] + [PushI32(3), Mul, CallHost(9), Add, Ret]) == [3, 1, 3, 0, 0, 0, 4, 6, 9, 2, 7]
  {
    hide Assemble, LE;
    ExampleTail();
    Assembled(Sub, [PushI32(3), Mul, CallHost(9), Add, Ret]);
  }

  lemma {:induction false} ExampleBytes()
    ensures Assemble(EXAMPLE) == [1, 7, 0, 0, 0, 1, 2, 0, 0, 0, 3, 1, 3, 0, 0, 0, 4, 6, 9, 2, 7]
  {
    hide Assemble, Assemble1;
    ExampleMiddle();
    Small(7);
    Small(2);
    var middle := [Sub] + [PushI32(3), Mul, CallHost(9), Add, Ret];
    Assembled(PushI32(2), middle);
    Assembled(PushI32(7), [PushI32(2)] + middle);
    assert EXAMPLE == [PushI32(7)] + ([PushI32(2)] + middle);
  }

  lemma {:induction false} NoCode()
    ensures Assemble([]) == []
  {
  }

  function From(pc: nat, stack: seq<i32>): Outcome {
    RunOps(EXAMPLE, pc, Machine(stack, []), NoHost(), Some(STACK), if pc <= 4096 then 4096 - pc else 0)
  }

  /** A number on top of the stack. */
  lemma {:induction false} ExamplePush(pc: nat, stack: seq<i32>, next: seq<i32>)
    requires pc < |EXAMPLE| && |stack| < STACK && (EXAMPLE[pc].PushI32? || (EXAMPLE[pc].CallHost? && EXAMPLE[pc].id >= 4))
    requires next == stack + [if EXAMPLE[pc].PushI32? then EXAMPLE[pc].v else -1]
    ensures From(pc, stack) == From(pc + 1, next)
  {
    hide RunOps, Exec;
    var m := Machine(stack, []);
    NumberStep(EXAMPLE[pc], m, NoHost());
    LastStep(EXAMPLE, pc, EXAMPLE[pc], m, NoHost(), 4096 - pc, Machine(next, []));
  }

  /** The result of the two numbers on top. */
  lemma {:induction false} ExampleArith(pc: nat, a: i32, b: i32)
    requires pc < |EXAMPLE| && Arithmetical(EXAMPLE[pc])
    ensures From(pc, [a, b]) == From(pc + 1, [Binary(EXAMPLE[pc], a, b)])
  {
    hide RunOps, Exec, Binary;
    ArithStep(EXAMPLE[pc], [], a, b, [], NoHost());
    assert [] + [a] + [b] == [a, b] && [] + [Binary(EXAMPLE[pc], a, b)] == [Binary(EXAMPLE[pc], a, b)];
    LastStep(EXAMPLE, pc, EXAMPLE[pc], Machine([a, b], []), NoHost(), 4096 - pc, Machine([Binary(EXAMPLE[pc], a, b)], []));
  }

  lemma {:induction false} ExampleRun()
    ensures RunOps(EXAMPLE, 0, Machine([], []), NoHost(), Some(STACK), 4096) == Ended(14, [])
  {
    hide RunOps, Exec;
    ExamplePush(0, [], [7]);
    ExamplePush(1, [7], [7, 2]);
    ExampleArith(2, 7, 2);
    ExamplePush(3, [5], [5, 3]);
    ExampleArith(4, 5, 3);
    ExamplePush(5, [15], [15, -1]);
    ExampleArith(6, 15, -1);
    Returns(EXAMPLE, 7, [14], [], NoHost(), 4089);
  }

  /** (7 - 2) * 3 + -1 in bytes, the -1 as the value of a call that no host knows. */
  lemma {:induction false} ExampleCode()
    ensures RunCode([1, 7, 0, 0, 0, 1, 2, 0, 0, 0, 3, 1, 3, 0, 0, 0, 4, 6, 9, 2, 7], 0, Machine([], []), NoHost(), Some(STACK), 4096)
         == Ended(14, [])
  {
    hide RunOps, RunCode, Assemble;
    ExampleBytes();
    ExampleRun();
    SameProgram(EXAMPLE, NoHost(), 4096);
  }
}
