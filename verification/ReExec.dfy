/** lre_exec: the interpreter loop over bytecode with its explicit stack of saved states. Each turn
    of the loop is one step of the machine. */
module ReExec {
  import opened ReOpcode
  import opened RePattern
  import opened ReClass
  import opened ReCode
  import opened ReMachine
  import opened ReScan
  import opened ReProgram
  import opened ReParse
  import opened ReCompile

  lemma {:induction false} DoneStays(m: Machine, r: Option<seq<Option<nat>>>, n: nat)
    ensures Steps(m, Done(r), n) == Done(r)
    decreases n
  {
    if n > 0 {
      DoneStays(m, r, n - 1);
    }
  }

  lemma {:induction false} StuckStays(m: Machine, n: nat)
    ensures Steps(m, Stuck, n) == Stuck
    decreases n
  {
    if n > 0 {
      StuckStays(m, n - 1);
    }
  }

  /** A run that ends within n steps is not stuck after k of them, and if it has not ended yet there
      are steps left. */
  lemma {:induction false} StillGoing(m: Machine, c: Config, k: nat, n: nat)
    requires Steps(m, c, n).Done?
    ensures Steps(m, c, k) != Stuck
    ensures !Steps(m, c, k).Done? ==> k < n && Steps(m, c, k + 1) == Step(m, Steps(m, c, k))
    ensures !Steps(m, c, k).Done? ==> Steps(m, c, k + 1) != Stuck
    ensures Steps(m, c, k).Done? ==> Steps(m, c, k) == Steps(m, c, n)
  {
    hide Step;
    if k <= n {
      StepsAdd(m, c, k, n - k);
      StuckAt(m, Steps(m, c, k), n - k);
    } else {
      StepsAdd(m, c, n, k - n);
      DoneStays(m, Steps(m, c, n).result, k - n);
    }
    StepsAdd(m, c, k, 1);
    assert Steps(m, Steps(m, c, k), 1) == Steps(m, Step(m, Steps(m, c, k)), 0);
    if !Steps(m, c, k).Done? {
      StepsAdd(m, c, k + 1, n - (k + 1));
      StuckAt(m, Steps(m, c, k + 1), n - (k + 1));
    }
  }

  lemma {:induction false} StuckAt(m: Machine, c: Config, n: nat)
    requires Steps(m, c, n).Done?
    ensures c != Stuck
    ensures c.Done? ==> Steps(m, c, n) == c
  {
    if c == Stuck {
      StuckStays(m, n);
    }
    if c.Done? {
      DoneStays(m, c.result, n);
    }
  }

  /** How an opcode ends: the loop continues, the match opcode was met, or there is no match. */
  datatype Signal = Continue | Matched | NoMatch

  class REExecContext {
    const m: Machine
    var stateStack: seq<Saved>

    constructor (machine: Machine)
      ensures m == machine && stateStack == []
    {
      m := machine;
      stateStack := [];
    }

    method PushState(kind: SaveKind, pc: int, cptr: nat, capture: seq<Option<nat>>, stack: seq<int>, count: nat)
      modifies this
      ensures stateStack == old(stateStack) + [Saved(kind, pc, cptr, capture, stack, count)]
    {
      stateStack := stateStack + [Saved(kind, pc, cptr, capture, stack, count)];
    }

    /** The test of one character opcode. */
    method TestChar(i: Instr, c: int) returns (b: bool)
      requires IsCharInstr(i) && Readable(i)
      ensures b == CharAccepts(m.ctx, i, c)
    {
      match i
      case Char(v) => b := Canon(m.ctx.flags, c) == v;
      case Char32(v) => b := Canon(m.ctx.flags, c) == v;
      case Dot => b := !IsLineTerminator(c);
      case AnyChar => b := true;
      case Range(pairs) => b := MatchRange(pairs, Canon(m.ctx.flags, c));
      case Range32(pairs) => b := MatchRange32(pairs, Canon(m.ctx.flags, c));
    }

    /** The call with no_recurse set: straight-line code up to the match opcode. */
    method RunAtom(pc0: nat, cptr0: nat) returns (r: Simple)
      ensures r == RunSimple(m, pc0, cptr0)
    {
      hide CharAccepts;
      hide Decode;
      var pc: nat, cptr: nat := pc0, cptr0;
      while true
        invariant RunSimple(m, pc, cptr) == RunSimple(m, pc0, cptr0)
        decreases |m.code| - pc
      {
        if pc >= |m.code| || cptr > |m.ctx.input| {
          return Odd;
        }
        match Decode(m.code, pc) {
          case None => return Odd;
          case Some(i) =>
            if i.Match? {
              return Hit(cptr);
            } else if IsCharInstr(i) {
              if cptr >= |m.ctx.input| {
                return Miss;
              }
              DecodeReadable(m.code, pc);
              var b := TestChar(i, m.ctx.input[cptr]);
              if !b {
                return Miss;
              }
              pc, cptr := pc + Size(i), cptr + 1;
            } else if IsTestInstr(i) {
              if !TestHolds(m.ctx, i, cptr) {
                return Miss;
              }
              pc := pc + Size(i);
            } else {
              return Odd;
            }
        }
      }
    }

    /** The repetition loop of REOP_simple_greedy_quant. */
    method RepeatAtom(pc1: nat, cptr0: nat, quantMax: int) returns (r: Option<(nat, nat)>)
      ensures r == RunGreedy(m, pc1, cptr0, 0, quantMax)
    {
      var cptr, q := cptr0, 0;
      while true
        invariant RunGreedy(m, pc1, cptr, q, quantMax) == RunGreedy(m, pc1, cptr0, 0, quantMax)
        decreases |m.ctx.input| - cptr
      {
        var res := RunAtom(pc1, cptr);
        hide RunSimple;
        match res {
          case Odd => return None;
          case Miss => return Some((cptr, q));
          case Hit(pos) =>
            if !(cptr < pos <= |m.ctx.input|) {
              return None;
            }
            cptr, q := pos, q + 1;
            if q >= quantMax && quantMax != INT32_MAX {
              return Some((cptr, q));
            }
        }
      }
    }

    /** What an opcode's end means for the machine. */
    ghost function After(signal: Signal, pc: int, cptr: nat, capture: seq<Option<nat>>, stack: seq<int>): Config
      reads this
    {
      match signal
      case Continue => Run(pc, cptr, capture, stack, stateStack)
      case Matched => Succeeding(cptr, capture, stateStack)
      case NoMatch => Failing(stateStack)
    }

    /** One opcode; pc0 is the address after it. */
    method Execute(i: Instr, pc0: int, cptr0: nat, capture0: seq<Option<nat>>, stack0: seq<int>)
      returns (signal: Signal, pc: int, cptr: nat, capture: seq<Option<nat>>, stack: seq<int>)
      requires cptr0 <= |m.ctx.input| && 0 <= pc0 && Readable(i)
      requires Exec(m, i, pc0, cptr0, capture0, stack0, stateStack) != Stuck
      modifies this
      ensures After(signal, pc, cptr, capture, stack) == Exec(m, i, pc0, cptr0, capture0, stack0, old(stateStack))
    {
      hide RunGreedy;
      hide ResetCaps;
      hide CharAccepts;
      hide TestHolds;
      signal, pc, cptr, capture, stack := Continue, pc0, cptr0, capture0, stack0;
      match i
      case Match => signal := Matched;
      case Goto(off) => pc := pc + off;
      case Split(gotoFirst, off) =>
        var pc1: int;
        if gotoFirst {
          pc1 := pc;
          pc := pc + off;
        } else {
          pc1 := pc + off;
        }
        PushState(SplitState, pc1, cptr, capture, stack, 0);
      case Lookahead(negated, off) =>
        PushState(if negated then NegLookState else LookState, pc + off, cptr, capture, stack, 0);
      case Save(isEnd, index) => capture := capture[2 * index + (if isEnd then 1 else 0) := Some(cptr)];
      case SaveReset(first, last) => capture := ResetCaptures(capture, first, last);
      case PushI32(v) => stack := stack + [v];
      case PushCharPos => stack := stack + [cptr];
      case Drop => stack := stack[..|stack| - 1];
      case Loop(off) =>
        var v := stack[|stack| - 1] - 1;
        stack := stack[|stack| - 1 := v];
        if v != 0 {
          pc := pc + off;
        }
      case BneCharPos(off) =>
        if stack[|stack| - 1] != cptr {
          pc := pc + off;
        }
        stack := stack[..|stack| - 1];
      case Prev =>
        if cptr == 0 {
          signal := NoMatch;
        } else {
          cptr := cptr - 1;
        }
      case SimpleGreedyQuant(next, min, max, _) =>
        var r := RepeatAtom(pc, cptr, max);
        var q := r.value.1;
        cptr := r.value.0;
        pc := pc + next;
        if q < min {
          signal := NoMatch;
        } else if q > min {
          PushState(GreedyState, pc0 - 16, cptr, capture, stack, q - min);
        }
      case LineStart => signal := if TestHolds(m.ctx, i, cptr) then Continue else NoMatch;
      case LineEnd => signal := if TestHolds(m.ctx, i, cptr) then Continue else NoMatch;
      case WordBoundary(_) => signal := if TestHolds(m.ctx, i, cptr) then Continue else NoMatch;
      case Char(_) => signal, cptr := ReadChar(i, cptr);
      case Char32(_) => signal, cptr := ReadChar(i, cptr);
      case Dot => signal, cptr := ReadChar(i, cptr);
      case AnyChar => signal, cptr := ReadChar(i, cptr);
      case Range(_) => signal, cptr := ReadChar(i, cptr);
      case Range32(_) => signal, cptr := ReadChar(i, cptr);
    }

    method ReadChar(i: Instr, cptr0: nat) returns (signal: Signal, cptr: nat)
      requires IsCharInstr(i) && Readable(i) && cptr0 <= |m.ctx.input|
      ensures if cptr0 < |m.ctx.input| && CharAccepts(m.ctx, i, m.ctx.input[cptr0])
              then signal == Continue && cptr == cptr0 + 1 else signal == NoMatch
    {
      signal, cptr := NoMatch, cptr0;
      if cptr < |m.ctx.input| {
        var b := TestChar(i, m.ctx.input[cptr]);
        if b {
          signal, cptr := Continue, cptr + 1;
        }
      }
    }

    /** One turn of the inner loop: what a saved state does with success or failure. */
    method PopState(ret0: bool, cptr0: nat, capture0: seq<Option<nat>>)
      returns (resumed: bool, ret: bool, pc: int, cptr: nat, capture: seq<Option<nat>>, stack: seq<int>)
      requires |stateStack| > 0
      requires Step(m, if ret0 then Succeeding(cptr0, capture0, stateStack) else Failing(stateStack)) != Stuck
      modifies this
      ensures (if resumed then Run(pc, cptr, capture, stack, stateStack)
               else if ret then Succeeding(cptr, capture, stateStack) else Failing(stateStack))
           == Step(m, if ret0 then Succeeding(cptr0, capture0, old(stateStack)) else Failing(old(stateStack)))
      ensures !resumed ==> |stateStack| < |old(stateStack)|
    {
      hide Exec;
      hide Decode;
      var n := |stateStack| - 1;
      var rs := stateStack[n];
      resumed, ret, pc, cptr, capture, stack := false, ret0, rs.pc, cptr0, capture0, rs.stack;
      match rs.kind {
        case SplitState =>
          if !ret {
            resumed, cptr, capture := true, rs.pos, rs.caps;
          }
          stateStack := stateStack[..n];
        case GreedyState =>
          if !ret {
            var quant := Decode(m.code, rs.pc - 1).value;
            cptr := rs.pos - quant.count;
            resumed, capture, pc := true, rs.caps, rs.pc + 16 + quant.next;
            var again := rs.(pos := cptr, count := rs.count - 1);
            stateStack := if again.count == 0 then stateStack[..n] else stateStack[..n] + [again];
          } else {
            stateStack := stateStack[..n];
          }
        case LookState =>
          if ret {
            resumed, cptr := true, rs.pos;
          }
          stateStack := stateStack[..n];
        case NegLookState =>
          ret := !ret;
          if ret {
            resumed, cptr, capture := true, rs.pos, rs.caps;
          }
          stateStack := stateStack[..n];
      }
    }

    /** After a match or a failure: saved states are popped until one resumes the run or none is
        left, in which case the run has ended. */
    method Unwind(ret0: bool, cptr0: nat, capture0: seq<Option<nat>>, ghost c: Config, ghost k0: nat, ghost n: nat)
      returns (resumed: bool, ret: bool, pc: int, cptr: nat, capture: seq<Option<nat>>, stack: seq<int>, ghost k: nat)
      requires Steps(m, c, n).Done?
      requires Steps(m, c, k0) == if ret0 then Succeeding(cptr0, capture0, stateStack) else Failing(stateStack)
      modifies this
      ensures resumed ==> k > k0 && Steps(m, c, k) == Run(pc, cptr, capture, stack, stateStack)
      ensures !resumed ==> Steps(m, c, n) == Done(if ret then Some(capture) else None)
    {
      hide Steps;
      hide Step;
      resumed, ret, pc, cptr, capture, stack, k := false, ret0, 0, cptr0, capture0, [], k0;
      while |stateStack| > 0
        invariant k >= k0
        invariant !resumed
        invariant Steps(m, c, k) == if ret then Succeeding(cptr, capture, stateStack) else Failing(stateStack)
        decreases |stateStack|
      {
        StillGoing(m, c, k, n);
        resumed, ret, pc, cptr, capture, stack := PopState(ret, cptr, capture);
        k := k + 1;
        if resumed {
          return;
        }
      }
      StillGoing(m, c, k, n);
      Finished(m, ret, cptr, capture);
      StillGoing(m, c, k + 1, n);
    }

    /** lre_exec_backtrack, for a run that is known to end: the n-th step is its last. */
    method Backtrack(pc0: int, cptr0: nat, capture0: seq<Option<nat>>, ghost n: nat)
      returns (ret: bool, capture: seq<Option<nat>>)
      requires stateStack == [] && Steps(m, Run(pc0, cptr0, capture0, [], []), n).Done?
      modifies this
      ensures Steps(m, Run(pc0, cptr0, capture0, [], []), n) == Done(if ret then Some(capture) else None)
    {
      hide Steps;
      hide Exec;
      hide Decode;
      ghost var c := Run(pc0, cptr0, capture0, [], []);
      ghost var k := 0;
      var pc, cptr := pc0, cptr0;
      var stack: seq<int> := [];
      capture := capture0;
      ZeroSteps(m, c);
      while true
        invariant Steps(m, c, k) == Run(pc, cptr, capture, stack, stateStack)
        decreases n - k
      {
        StillGoing(m, c, k, n);
        DecodeReadable(m.code, pc);
        var i := Decode(m.code, pc).value;
        var signal;
        signal, pc, cptr, capture, stack := Execute(i, pc + Size(i), cptr, capture, stack);
        k := k + 1;
        if signal != Continue {
          var resumed;
          resumed, ret, pc, cptr, capture, stack, k := Unwind(signal == Matched, cptr, capture, c, k, n);
          if !resumed {
            return;
          }
        }
      }
    }

    /** The loop of REOP_save_reset. */
    method ResetCaptures(capture0: seq<Option<nat>>, first: int, last: int) returns (capture: seq<Option<nat>>)
      requires 0 <= first && 0 <= last && 2 * last + 1 < |capture0|
      ensures capture == ResetCaps(capture0, first, last)
    {
      capture := capture0;
      var val := first;
      while val <= last
        invariant first <= val && (val <= last + 1 || val == first)
        invariant |capture| == |capture0|
        invariant forall k :: 0 <= k < |capture| ==>
                    capture[k] == if 2 * first <= k < 2 * val then None else capture0[k]
      {
        capture := capture[2 * val := None][2 * val + 1 := None];
        val := val + 1;
      }
    }
  }

  lemma {:induction false} ZeroSteps(m: Machine, c: Config)
    ensures Steps(m, c, 0) == c
  {
  }

  lemma {:induction false} Finished(m: Machine, ret: bool, cptr: nat, capture: seq<Option<nat>>)
    ensures Step(m, if ret then Succeeding(cptr, capture, []) else Failing([]))
         == Done(if ret then Some(capture) else None)
  {
  }

  lemma {:induction false} DecodeReadable(code: seq<byte>, p: nat)
    ensures Decode(code, p).Some? ==> Readable(Decode(code, p).value)
  {
    hide GetU32;
    hide GetI32;
    hide GetPairs16;
    hide GetPairs32;
    if p + 3 <= |code| {
      U16Bound(code, p + 1);
    }
    hide GetU16;
  }

  lemma {:induction false} U16Bound(code: seq<byte>, p: nat)
    requires p + 2 <= |code|
    ensures 0 <= GetU16(code, p) <= 0xffff
  {
  }

  // ----- compiling and running -----

  /** Compiling a pattern of the fragment and running the bytecode on an input answers with the
      captures of the first match: the compiler and the interpreter together implement the search. */
  method CompileAndExec(reFlags: byte, canon: int -> int, p: Pattern, input: seq<int>, start: nat)
    returns (r: Option<(bool, seq<Option<nat>>)>)
    requires IsDisjunction(p) && InFragment(FlagsOf(reFlags, canon), p) && start <= |input|
    requires forall k :: 0 <= k < |input| ==> 0 <= Canon(FlagsOf(reFlags, canon), input[k]) < UINT32_MAX
    requires |Bytecode(reFlags, canon, p)| <= INT32_MAX
    ensures r.Some? <==> Compiles(FlagsOf(reFlags, canon), p, IsSticky(reFlags))
    ensures r.Some? ==> var answer := if r.value.0 then Some(r.value.1) else None;
                        answer == FirstMatch(Ctx(input, 1 + CapCount(p), FlagsOf(reFlags, canon)), p,
                        IsSticky(reFlags), start)
  {
    hide Program;
    hide InFragment;
    hide IsDisjunction;
    hide Steps;
    hide FirstMatch;
    hide MaxDepth;
    hide Acceptable;
    hide FlagsOf;
    hide IsSticky;
    var bytecode := Compile(reFlags, canon, p);
    if bytecode.None? {
      return None;
    }
    var code := bytecode.value;
    AcceptedCaptures(p, 1);
    HeaderFields(reFlags, canon, p);
    hide Bytecode;
    hide CapCount;
    var m := Machine(code, Ctx(input, code[1], FlagsOf(code[0], canon)), code[2]);
    CompiledCorrect(reFlags, canon, p, m, start);
    ghost var n: nat :| Steps(m, Run(HEADER_LEN, start, NoCaptures(m.ctx), [], []), n)
                        == Done(FirstMatch(m.ctx, p, IsSticky(reFlags), start));
    var s := new REExecContext(m);
    var ret, capture := s.Backtrack(HEADER_LEN, start, NoCaptures(m.ctx), n);
    r := Some((ret, capture));
  }

  lemma {:induction false} HeaderFields(reFlags: byte, canon: int -> int, p: Pattern)
    requires Shaped(p) && 1 + CapCount(p) <= 255
    ensures var code := Bytecode(reFlags, canon, p);
            |code| >= HEADER_LEN && code[0] == reFlags && code[1] == 1 + CapCount(p)
  {
    hide Program;
    hide MaxDepth;
    hide Bytes;
    hide Length;
    hide U32;
  }
}
