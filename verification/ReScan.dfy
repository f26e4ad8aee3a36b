/** The compiler's linear analyses as loops over emitted bytes: each computes the function of the
    instruction list that the bytes encode. */
module ReScan {
  import opened ReOpcode
  import opened ReCode

  /** A range table whose length fits its 16-bit field; all that a scan has to rely on. */
  predicate Readable(i: Instr) {
    (i.Range? ==> |i.pairs| <= 0xffff) && (i.Range32? ==> |i.pairs| <= 0xffff)
  }

  predicate AllReadable(code: seq<Instr>) {
    forall k :: 0 <= k < |code| ==> Readable(code[k])
  }

  lemma {:induction false} ReadableAppend(a: seq<Instr>, b: seq<Instr>)
    requires AllReadable(a) && AllReadable(b)
    ensures AllReadable(a + b)
  {
  }

  /** The size of the instruction at p, including its range table. */
  function InstrLength(code: seq<byte>, p: nat): nat
    requires p < |code|
  {
    var op := code[p];
    if op == 21 && p + 3 <= |code| then 3 + 4 * GetU16(code, p + 1)
    else if op == 22 && p + 3 <= |code| then 3 + 8 * GetU16(code, p + 1)
    else FixedSize(op)
  }

  lemma {:induction false} FixedSizeIs(i: Instr)
    ensures FixedSize(Opcode(i)) == if i.Range? || i.Range32? then 3 else Size(i)
  {
  }

  lemma {:induction false} TableLength(code: seq<byte>, p: nat, i: Instr)
    requires At(code, p, Encode(i)) && (i.Range? || i.Range32?) && Readable(i)
    ensures p + 3 <= |code| && GetU16(code, p + 1) == |i.pairs|
  {
    OpcodeAt(code, p, i);
    hide Encode;
    hide Pairs16;
    hide Pairs32;
    hide U16;
    hide GetU16;
    var n := U16(|i.pairs|);
    if i.Range? {
      AtSplit(code, p + 1, n, Pairs16(i.pairs));
    } else {
      AtSplit(code, p + 1, n, Pairs32(i.pairs));
    }
    ReadU16(code, p + 1, |i.pairs|);
  }

  /** One step of a scan: the opcode and the length are those of the next instruction. */
  lemma {:induction false} ScanStep(code: seq<byte>, p: nat, instrs: seq<Instr>)
    requires p <= |code| && code[p..] == Bytes(instrs) && |instrs| > 0 && AllReadable(instrs)
    ensures p < |code| && code[p] == Opcode(instrs[0]) && InstrLength(code, p) == Size(instrs[0])
    ensures p + Size(instrs[0]) <= |code| && code[p + Size(instrs[0])..] == Bytes(instrs[1..])
    ensures AllReadable(instrs[1..])
  {
    hide Encode;
    hide Size;
    hide Opcode;
    hide InstrLength;
    hide Bytes;
    hide AllReadable;
    hide Length;
    BytesCons(instrs);
    ReadableCons(instrs);
    ScanInstr(code, p, instrs[0], Bytes(instrs[1..]));
  }

  lemma {:induction false} BytesCons(instrs: seq<Instr>)
    requires |instrs| > 0
    ensures Bytes(instrs) == Encode(instrs[0]) + Bytes(instrs[1..])
  {
    hide Encode;
  }

  lemma {:induction false} ReadableCons(instrs: seq<Instr>)
    requires |instrs| > 0 && AllReadable(instrs)
    ensures Readable(instrs[0]) && AllReadable(instrs[1..])
  {
    hide Readable;
  }

  lemma {:induction false} ScanInstr(code: seq<byte>, p: nat, i: Instr, rest: seq<byte>)
    requires p <= |code| && code[p..] == Encode(i) + rest && Readable(i)
    ensures p < |code| && code[p] == Opcode(i) && InstrLength(code, p) == Size(i)
    ensures p + Size(i) <= |code| && code[p + Size(i)..] == rest
  {
    hide Encode;
    hide Size;
    hide Opcode;
    hide FixedSize;
    hide GetU16;
    hide At;
    AtFront(code, p, Encode(i), rest);
    OpcodeAt(code, p, i);
    FixedSizeIs(i);
    assert code[p + Size(i)..] == code[p..][Size(i)..];
    if i.Range? || i.Range32? {
      TableLength(code, p, i);
      TableSize(i);
    } else {
      PlainOpcode(i);
    }
  }

  lemma {:induction false} AtFront(code: seq<byte>, p: nat, b: seq<byte>, rest: seq<byte>)
    requires p <= |code| && code[p..] == b + rest
    ensures At(code, p, b)
  {
    assert code[p..p + |b|] == code[p..][..|b|];
  }

  lemma {:induction false} TableSize(i: Instr)
    requires i.Range? || i.Range32?
    ensures Size(i) == 3 + (if i.Range? then 4 else 8) * |i.pairs|
    ensures Opcode(i) == if i.Range? then 21 else 22
  {
  }

  lemma {:induction false} PlainOpcode(i: Instr)
    requires !i.Range? && !i.Range32?
    ensures Opcode(i) != 21 && Opcode(i) != 22
  {
  }

  lemma {:induction false} ScanEnd(code: seq<byte>, p: nat, instrs: seq<Instr>)
    requires p <= |code| && code[p..] == Bytes(instrs)
    ensures p == |code| <==> instrs == []
  {
    if |instrs| > 0 {
      assert |Encode(instrs[0])| >= 1;
    }
  }

  // ----- the loops -----

  /** Opcodes that read one character. */
  predicate ReadsChar(op: byte) {
    1 <= op <= 4 || op == 21 || op == 22
  }

  lemma {:induction false} OpcodeClasses(i: Instr)
    ensures ReadsChar(Opcode(i)) <==> IsCharInstr(i)
    ensures (Opcode(i) == 5 || Opcode(i) == 6 || Opcode(i) == 17 || Opcode(i) == 18) <==> IsTestInstr(i)
    ensures PassedOver(Opcode(i)) <==> IsNeutral(i)
    ensures Effect(i) == OpcodeEffect(Opcode(i))
  {
  }

  /** Opcodes that the zero-advance analysis passes over: tests, pushes, drop, prev and saves. */
  predicate PassedOver(op: byte) {
    op == 5 || op == 6 || op == 15 || op == 25 || op == 16 || op == 17 || op == 18 || op == 27 || 11 <= op <= 13
  }

  function OpcodeEffect(op: byte): int {
    if op == 15 || op == 25 then 1 else if op == 16 || op == 26 then -1 else 0
  }

  /** re_is_simple_quantifier. */
  method IsSimpleQuantifier(code: seq<byte>, ghost instrs: seq<Instr>) returns (count: int)
    requires code == Bytes(instrs) && AllReadable(instrs)
    ensures count == SimpleCount(instrs)
  {
    hide *;
    count := 0;
    var pos := 0;
    ghost var rest := instrs;
    SimpleCountEnd();
    while pos < |code|
      invariant 0 <= pos <= |code| && code[pos..] == Bytes(rest) && AllReadable(rest)
      invariant count >= 0
      invariant SimpleCount(instrs) == if SimpleCount(rest) < 0 then -1 else count + SimpleCount(rest)
      decreases |code| - pos
    {
      ScanEnd(code, pos, rest);
      ScanStep(code, pos, rest);
      OpcodeClasses(rest[0]);
      SimpleCountStep(rest);
      OpcodeSets(code[pos]);
      if ReadsChar(code[pos]) {
        count := count + 1;
      } else if !(code[pos] == 5 || code[pos] == 6 || code[pos] == 17 || code[pos] == 18) {
        return -1;
      }
      pos := pos + InstrLength(code, pos);
      rest := rest[1..];
    }
    ScanEnd(code, pos, rest);
  }

  lemma {:induction false} OpcodeSets(op: byte)
    ensures ReadsChar(op) ==> !(op == 5 || op == 6 || op == 17 || op == 18)
  {
  }

  lemma {:induction false} SimpleCountStep(code: seq<Instr>)
    requires |code| > 0
    ensures SimpleCount(code)
         == if SimpleCount(code[1..]) < 0 then -1
            else if IsCharInstr(code[0]) then SimpleCount(code[1..]) + 1
            else if IsTestInstr(code[0]) then SimpleCount(code[1..]) else -1
    ensures SimpleCount(code[1..]) >= -1
  {
  }

  lemma {:induction false} SimpleCountEnd()
    ensures SimpleCount([]) == 0
  {
  }

  /** re_check_advance, for code without back references. */
  method CheckAdvance(code: seq<byte>, ghost instrs: seq<Instr>) returns (ret: int)
    requires code == Bytes(instrs) && AllReadable(instrs)
    ensures ret == Advance(instrs)
  {
    hide *;
    ret := -2;
    var pos := 0;
    ghost var rest := instrs;
    AdvanceEnd();
    while pos < |code|
      invariant 0 <= pos <= |code| && code[pos..] == Bytes(rest) && AllReadable(rest)
      invariant if ret == -2 then Advance(instrs) == Advance(rest) else Advance(instrs) == ret
      decreases |code| - pos
    {
      ScanEnd(code, pos, rest);
      ScanStep(code, pos, rest);
      OpcodeClasses(rest[0]);
      AdvanceStep(rest);
      if ReadsChar(code[pos]) {
        if ret == -2 { ret := 1; }
      } else if !PassedOver(code[pos]) {
        if ret == -2 { ret := 0; }
      }
      pos := pos + InstrLength(code, pos);
      rest := rest[1..];
    }
    ScanEnd(code, pos, rest);
    if ret == -2 {
      ret := 0;
    }
  }

  lemma {:induction false} AdvanceStep(code: seq<Instr>)
    requires |code| > 0
    ensures Advance(code)
         == if IsCharInstr(code[0]) then 1 else if IsNeutral(code[0]) then Advance(code[1..]) else 0
  {
  }

  lemma {:induction false} AdvanceEnd()
    ensures Advance([]) == 0
  {
  }

  const STACK_SIZE_MAX := 255

  /** re_compute_stack_size on the code after the header; -1 when the stack would be too large.
      It asserts that a drop never meets an empty stack, so the scan must not go below zero. */
  method ComputeStackSize(code: seq<byte>, ghost instrs: seq<Instr>) returns (stackSizeMax: int)
    requires code == Bytes(instrs) && AllReadable(instrs) && Lowest(instrs) == 0
    ensures stackSizeMax == if MaxDepth(instrs, 0) > STACK_SIZE_MAX then -1 else MaxDepth(instrs, 0)
  {
    hide Bytes;
    hide Encode;
    hide AllReadable;
    hide MaxDepth;
    hide Lowest;
    hide InstrLength;
    hide Size;
    hide Opcode;
    hide Effect;
    var stackSize: int := 0;
    stackSizeMax := 0;
    var pos := 0;
    ghost var rest := instrs;
    while pos < |code|
      invariant 0 <= pos <= |code| && code[pos..] == Bytes(rest) && AllReadable(rest)
      invariant 0 <= stackSize <= stackSizeMax <= STACK_SIZE_MAX && stackSize + Lowest(rest) >= 0
      invariant MaxDepth(instrs, 0)
             == if MaxDepth(rest, stackSize) >= stackSizeMax then MaxDepth(rest, stackSize) else stackSizeMax
      decreases |code| - pos
    {
      ScanEnd(code, pos, rest);
      ScanStep(code, pos, rest);
      OpcodeClasses(rest[0]);
      DepthStep(rest, stackSize);
      var opcode := code[pos];
      if opcode == 15 || opcode == 25 {
        stackSize := stackSize + 1;
        if stackSize > stackSizeMax {
          if stackSize > STACK_SIZE_MAX { return -1; }
          stackSizeMax := stackSize;
        }
      } else if opcode == 16 || opcode == 26 {
        assert stackSize > 0;
        stackSize := stackSize - 1;
      }
      pos := pos + InstrLength(code, pos);
      rest := rest[1..];
    }
    ScanEnd(code, pos, rest);
    DepthEnd(stackSize);
  }

  lemma {:induction false} DepthStep(code: seq<Instr>, d: int)
    requires |code| > 0
    ensures var rest := MaxDepth(code[1..], d + Effect(code[0])); MaxDepth(code, d) == if rest >= d then rest else d
    ensures d + Lowest(code) >= 0 ==> d + Effect(code[0]) + Lowest(code[1..]) >= 0 && d + Effect(code[0]) >= 0
    ensures MaxDepth(code[1..], d + Effect(code[0])) >= d + Effect(code[0])
  {
    hide Effect;
  }

  lemma {:induction false} DepthEnd(d: int)
    ensures MaxDepth([], d) == d
  {
  }
}
