/** The bytecode of the regular-expression machine: instructions, their byte encoding, and the
    decoder that the machine and the compiler's own analyses use. */
module ReOpcode {

  type byte = x: int | 0 <= x < 256

  const INT32_MAX := 0x7fff_ffff
  const UINT32_MAX := 0xffff_ffff

  datatype Option<+T> = None | Some(value: T)

  /** An instruction. Offsets are relative to the byte after the instruction's offset field. */
  datatype Instr =
    | Char(c: int)
    | Char32(c: int)
    | Dot
    | AnyChar
    | LineStart
    | LineEnd
    | Goto(off: int)
    | Split(gotoFirst: bool, off: int)
    | Match
    | Save(isEnd: bool, index: int)
    | SaveReset(first: int, last: int)
    | Loop(off: int)
    | PushI32(v: int)
    | Drop
    | WordBoundary(negated: bool)
    | Range(pairs: seq<(int, int)>)
    | Range32(pairs: seq<(int, int)>)
    | Lookahead(negated: bool, off: int)
    | PushCharPos
    | BneCharPos(off: int)
    | Prev
    | SimpleGreedyQuant(next: int, min: int, max: int, count: int)

  predicate IsU16(v: int) { 0 <= v <= 0xffff }
  predicate IsU32(v: int) { 0 <= v <= UINT32_MAX }
  predicate IsI32(v: int) { -0x8000_0000 <= v <= INT32_MAX }

  /** The operand ranges that the byte encoding can carry. */
  predicate Encodable(i: Instr) {
    match i
    case Char(c) => IsU16(c)
    case Char32(c) => IsU32(c)
    case Goto(off) => IsI32(off)
    case Split(_, off) => IsI32(off)
    case Save(_, index) => 0 <= index < 256
    case SaveReset(first, last) => 0 <= first < 256 && 0 <= last < 256
    case Loop(off) => IsI32(off)
    case PushI32(v) => IsU32(v)
    case Range(pairs) => |pairs| <= 0xffff && forall k :: 0 <= k < |pairs| ==> IsU16(pairs[k].0) && IsU16(pairs[k].1)
    case Range32(pairs) => |pairs| <= 0xffff && forall k :: 0 <= k < |pairs| ==> IsU32(pairs[k].0) && IsU32(pairs[k].1)
    case Lookahead(_, off) => IsI32(off)
    case BneCharPos(off) => IsI32(off)
    case SimpleGreedyQuant(next, min, max, count) => IsI32(next) && IsU32(min) && IsU32(max) && IsU32(count)
    case _ => true
  }

  // ----- little-endian operands -----

  function U16(v: int): (b: seq<byte>)
    ensures |b| == 2
  {
    [v % 256, v / 256 % 256]
  }

  function U32(v: int): (b: seq<byte>)
    ensures |b| == 4
  {
    [v % 256, v / 256 % 256, v / 0x1_0000 % 256, v / 0x100_0000 % 256]
  }

  function GetU16(code: seq<byte>, p: nat): int
    requires p + 2 <= |code|
  {
    code[p] as int + 256 * (code[p + 1] as int)
  }

  function GetU32(code: seq<byte>, p: nat): int
    requires p + 4 <= |code|
  {
    code[p] as int + 256 * (code[p + 1] as int)
    + 0x1_0000 * (code[p + 2] as int) + 0x100_0000 * (code[p + 3] as int)
  }

  /** A 32-bit operand read as a signed integer. */
  function GetI32(code: seq<byte>, p: nat): int
    requires p + 4 <= |code|
  {
    var v := GetU32(code, p);
    if v <= INT32_MAX then v else v - 0x1_0000_0000
  }

  /** The bytes b are found in code at p. */
  ghost predicate At(code: seq<byte>, p: nat, b: seq<byte>) {
    p + |b| <= |code| && code[p..p + |b|] == b
  }

  lemma {:induction false} AtSplit(code: seq<byte>, p: nat, b: seq<byte>, c: seq<byte>)
    requires At(code, p, b + c)
    ensures At(code, p, b) && At(code, p + |b|, c)
  {
    var n, k := |b|, |c|;
    var s := code[p..p + n + k];
    assert s[..n] == b by { assert (b + c)[..n] == b; }
    assert s[n..] == c by { assert (b + c)[n..] == c; }
    assert s[..n] == code[p..p + n];
    assert s[n..] == code[p + n..p + n + k];
  }

  lemma {:induction false} ReadU16(code: seq<byte>, p: nat, v: int)
    requires At(code, p, U16(v)) && IsU16(v)
    ensures GetU16(code, p) == v
  {
    var b := code[p..p + 2];
    assert b == U16(v);
    assert code[p] == b[0] && code[p + 1] == b[1];
  }

  lemma {:induction false} ReadU32(code: seq<byte>, p: nat, v: int)
    requires At(code, p, U32(v))
    ensures IsU32(v) ==> GetU32(code, p) == v
    ensures IsI32(v) ==> GetI32(code, p) == v
  {
    ReadWord(code, p, v);
    hide GetU32;
  }

  lemma {:induction false} ReadWord(code: seq<byte>, p: nat, v: int)
    requires At(code, p, U32(v))
    ensures GetU32(code, p) == v % 0x1_0000_0000
  {
    var b := code[p..p + 4];
    assert b == U32(v);
    assert code[p] == b[0] && code[p + 1] == b[1] && code[p + 2] == b[2] && code[p + 3] == b[3];
    Digits(v);
  }

  lemma {:induction false} Digits(v: int)
    ensures v % 256 + 256 * (v / 256 % 256) + 0x1_0000 * (v / 0x1_0000 % 256) + 0x100_0000 * (v / 0x100_0000 % 256)
         == v % 0x1_0000_0000
  {
    assert v / 0x1_0000 == v / 256 / 256;
    assert v / 0x100_0000 == v / 0x1_0000 / 256;
    assert v / 0x1_0000_0000 == v / 0x100_0000 / 256;
  }

  // ----- instructions as bytes -----

  function Pairs16(pairs: seq<(int, int)>): (b: seq<byte>)
    ensures |b| == 4 * |pairs|
  {
    if |pairs| == 0 then [] else U16(pairs[0].0) + U16(pairs[0].1) + Pairs16(pairs[1..])
  }

  function Pairs32(pairs: seq<(int, int)>): (b: seq<byte>)
    ensures |b| == 8 * |pairs|
  {
    if |pairs| == 0 then [] else U32(pairs[0].0) + U32(pairs[0].1) + Pairs32(pairs[1..])
  }

  /** The opcode numbers, in the order of the opcode list. */
  function Opcode(i: Instr): (op: byte)
    ensures 1 <= op <= 28
  {
    match i
    case Char(_) => 1
    case Char32(_) => 2
    case Dot => 3
    case AnyChar => 4
    case LineStart => 5
    case LineEnd => 6
    case Goto(_) => 7
    case Split(gotoFirst, _) => if gotoFirst then 8 else 9
    case Match => 10
    case Save(isEnd, _) => if isEnd then 12 else 11
    case SaveReset(_, _) => 13
    case Loop(_) => 14
    case PushI32(_) => 15
    case Drop => 16
    case WordBoundary(negated) => if negated then 18 else 17
    case Range(_) => 21
    case Range32(_) => 22
    case Lookahead(negated, _) => if negated then 24 else 23
    case PushCharPos => 25
    case BneCharPos(_) => 26
    case Prev => 27
    case SimpleGreedyQuant(_, _, _, _) => 28
  }

  function Operands(i: Instr): seq<byte> {
    match i
    case Char(c) => U16(c)
    case Char32(c) => U32(c)
    case Goto(off) => U32(off)
    case Split(_, off) => U32(off)
    case Save(_, index) => [index % 256]
    case SaveReset(first, last) => [first % 256, last % 256]
    case Loop(off) => U32(off)
    case PushI32(v) => U32(v)
    case Range(pairs) => U16(|pairs|) + Pairs16(pairs)
    case Range32(pairs) => U16(|pairs|) + Pairs32(pairs)
    case Lookahead(_, off) => U32(off)
    case BneCharPos(off) => U32(off)
    case SimpleGreedyQuant(next, min, max, count) => U32(next) + U32(min) + U32(max) + U32(count)
    case _ => []
  }

  function Encode(i: Instr): (b: seq<byte>)
    ensures |b| == Size(i)
  {
    [Opcode(i)] + Operands(i)
  }

  /** The length of an instruction in bytes. */
  function Size(i: Instr): (n: nat)
    ensures n >= 1
  {
    match i
    case Char(_) => 3
    case Char32(_) => 5
    case Goto(_) => 5
    case Split(_, _) => 5
    case Save(_, _) => 2
    case SaveReset(_, _) => 3
    case Loop(_) => 5
    case PushI32(_) => 5
    case Range(pairs) => 3 + 4 * |pairs|
    case Range32(pairs) => 3 + 8 * |pairs|
    case Lookahead(_, _) => 5
    case BneCharPos(_) => 5
    case SimpleGreedyQuant(_, _, _, _) => 17
    case _ => 1
  }

  function Bytes(code: seq<Instr>): (b: seq<byte>)
    ensures |b| == Length(code)
  {
    if |code| == 0 then [] else Encode(code[0]) + Bytes(code[1..])
  }

  function Length(code: seq<Instr>): nat {
    if |code| == 0 then 0 else Size(code[0]) + Length(code[1..])
  }

  lemma {:induction false} BytesAppend(a: seq<Instr>, b: seq<Instr>)
    ensures Bytes(a + b) == Bytes(a) + Bytes(b)
    ensures Length(a + b) == Length(a) + Length(b)
  {
    if |a| == 0 {
      assert a + b == b;
    } else {
      assert (a + b)[1..] == a[1..] + b;
      BytesAppend(a[1..], b);
    }
  }

  lemma {:induction false} BytesOne(i: Instr)
    ensures Bytes([i]) == Encode(i) && Length([i]) == Size(i)
  {
    assert [i][1..] == [];
  }

  // ----- decoding -----

  function GetPairs16(code: seq<byte>, p: nat, n: nat): (pairs: seq<(int, int)>)
    requires p + 4 * n <= |code|
    ensures |pairs| == n
    decreases n
  {
    if n == 0 then [] else [(GetU16(code, p), GetU16(code, p + 2))] + GetPairs16(code, p + 4, n - 1)
  }

  function GetPairs32(code: seq<byte>, p: nat, n: nat): (pairs: seq<(int, int)>)
    requires p + 8 * n <= |code|
    ensures |pairs| == n
    decreases n
  {
    if n == 0 then [] else [(GetU32(code, p), GetU32(code, p + 4))] + GetPairs32(code, p + 8, n - 1)
  }

  /** The number of bytes an opcode takes before any range table. */
  function FixedSize(op: byte): nat {
    if op == 1 || op == 13 || op == 21 || op == 22 then 3
    else if op == 2 || 7 <= op <= 9 || op == 14 || op == 15 || op == 23 || op == 24 || op == 26 then 5
    else if op == 11 || op == 12 || op == 19 || op == 20 then 2
    else if op == 28 then 17
    else 1
  }

  /** The instruction at p, if there is a whole one. Back references are not decoded. */
  function Decode(code: seq<byte>, p: nat): Option<Instr> {
    if p >= |code| || p + FixedSize(code[p]) > |code| then None
    else
      var op := code[p];
      if op == 1 then Some(Char(GetU16(code, p + 1)))
      else if op == 2 then Some(Char32(GetU32(code, p + 1)))
      else if op == 3 then Some(Dot)
      else if op == 4 then Some(AnyChar)
      else if op == 5 then Some(LineStart)
      else if op == 6 then Some(LineEnd)
      else if op == 7 then Some(Goto(GetI32(code, p + 1)))
      else if op == 8 || op == 9 then Some(Split(op == 8, GetI32(code, p + 1)))
      else if op == 10 then Some(Match)
      else if op == 11 || op == 12 then Some(Save(op == 12, code[p + 1]))
      else if op == 13 then Some(SaveReset(code[p + 1], code[p + 2]))
      else if op == 14 then Some(Loop(GetI32(code, p + 1)))
      else if op == 15 then Some(PushI32(GetU32(code, p + 1)))
      else if op == 16 then Some(Drop)
      else if op == 17 || op == 18 then Some(WordBoundary(op == 18))
      else if op == 21 then
        var n := GetU16(code, p + 1);
        if p + 3 + 4 * n > |code| then None else Some(Range(GetPairs16(code, p + 3, n)))
      else if op == 22 then
        var n := GetU16(code, p + 1);
        if p + 3 + 8 * n > |code| then None else Some(Range32(GetPairs32(code, p + 3, n)))
      else if op == 23 || op == 24 then Some(Lookahead(op == 24, GetI32(code, p + 1)))
      else if op == 25 then Some(PushCharPos)
      else if op == 26 then Some(BneCharPos(GetI32(code, p + 1)))
      else if op == 27 then Some(Prev)
      else if op == 28 then
        Some(SimpleGreedyQuant(GetI32(code, p + 1), GetU32(code, p + 5), GetU32(code, p + 9), GetU32(code, p + 13)))
      else None
  }

  lemma {:induction false} ReadPairs16(code: seq<byte>, p: nat, pairs: seq<(int, int)>)
    requires At(code, p, Pairs16(pairs))
    requires forall k :: 0 <= k < |pairs| ==> IsU16(pairs[k].0) && IsU16(pairs[k].1)
    ensures GetPairs16(code, p, |pairs|) == pairs
    decreases |pairs|
  {
    hide U16, GetU16;
    if |pairs| > 0 {
      var (lo, hi) := pairs[0];
      AtSplit(code, p, U16(lo) + U16(hi), Pairs16(pairs[1..]));
      AtSplit(code, p, U16(lo), U16(hi));
      ReadU16(code, p, lo);
      ReadU16(code, p + 2, hi);
      ReadPairs16(code, p + 4, pairs[1..]);
    }
  }

  lemma {:induction false} ReadPairs32(code: seq<byte>, p: nat, pairs: seq<(int, int)>)
    requires At(code, p, Pairs32(pairs))
    requires forall k :: 0 <= k < |pairs| ==> IsU32(pairs[k].0) && IsU32(pairs[k].1)
    ensures GetPairs32(code, p, |pairs|) == pairs
    decreases |pairs|
  {
    hide At, U32, GetU32, GetI32;
    if |pairs| > 0 {
      var (lo, hi) := pairs[0];
      AtSplit(code, p, U32(lo) + U32(hi), Pairs32(pairs[1..]));
      AtSplit(code, p, U32(lo), U32(hi));
      ReadU32(code, p, lo);
      ReadU32(code, p + 4, hi);
      ReadPairs32(code, p + 8, pairs[1..]);
    }
  }

  lemma {:induction false} OpcodeAt(code: seq<byte>, p: nat, i: Instr)
    requires At(code, p, Encode(i))
    ensures p + Size(i) <= |code| && code[p] == Opcode(i) && At(code, p + 1, Operands(i))
  {
    assert Encode(i)[0] == Opcode(i);
    assert code[p] == code[p..p + |Encode(i)|][0];
    AtSplit(code, p, [Opcode(i)], Operands(i));
  }

  /** Decoding undoes encoding, wherever the instruction is placed. */
  lemma {:induction false} DecodeEncode(code: seq<byte>, p: nat, i: Instr)
    requires At(code, p, Encode(i)) && Encodable(i)
    ensures Decode(code, p) == Some(i)
  {
    OpcodeAt(code, p, i);
    hide At;
    hide Encode;
    if i.Range? || i.Range32? || i.SimpleGreedyQuant? {
      DecodeTable(code, p, i);
    } else if i.Char? || i.Save? || i.SaveReset? {
      DecodeShort(code, p, i);
    } else if i.Goto? || i.Split? || i.Loop? || i.Lookahead? || i.BneCharPos? {
      DecodeJump(code, p, i);
    } else if i.Char32? || i.PushI32? {
      DecodeWord(code, p, i);
    } else {
      hide Operands;
    }
  }

  lemma {:induction false} DecodeTable(code: seq<byte>, p: nat, i: Instr)
    requires i.Range? || i.Range32? || i.SimpleGreedyQuant?
    requires p + Size(i) <= |code| && code[p] == Opcode(i) && At(code, p + 1, Operands(i)) && Encodable(i)
    ensures Decode(code, p) == Some(i)
  {
    hide GetU16;
    hide GetU32;
    hide GetI32;
    hide U16;
    hide U32;
    hide At;
    hide Pairs16;
    hide Pairs32;
    hide GetPairs16;
    hide GetPairs32;
    match i
    case Range(pairs) => ReadTable16(code, p + 1, pairs);
    case Range32(pairs) => ReadTable32(code, p + 1, pairs);
    case SimpleGreedyQuant(next, min, max, count) => ReadQuant(code, p, next, min, max, count);
  }

  lemma {:induction false} ReadTable16(code: seq<byte>, p: nat, pairs: seq<(int, int)>)
    requires At(code, p, U16(|pairs|) + Pairs16(pairs)) && Encodable(Range(pairs))
    ensures p + 2 + 4 * |pairs| <= |code| && GetU16(code, p) == |pairs|
    ensures GetPairs16(code, p + 2, |pairs|) == pairs
  {
    AtSplit(code, p, U16(|pairs|), Pairs16(pairs));
    ReadU16(code, p, |pairs|);
    ReadPairs16(code, p + 2, pairs);
  }

  lemma {:induction false} ReadTable32(code: seq<byte>, p: nat, pairs: seq<(int, int)>)
    requires At(code, p, U16(|pairs|) + Pairs32(pairs)) && Encodable(Range32(pairs))
    ensures p + 2 + 8 * |pairs| <= |code| && GetU16(code, p) == |pairs|
    ensures GetPairs32(code, p + 2, |pairs|) == pairs
  {
    AtSplit(code, p, U16(|pairs|), Pairs32(pairs));
    ReadU16(code, p, |pairs|);
    ReadPairs32(code, p + 2, pairs);
  }

  lemma {:induction false} DecodeShort(code: seq<byte>, p: nat, i: Instr)
    requires i.Char? || i.Save? || i.SaveReset?
    requires p + Size(i) <= |code| && code[p] == Opcode(i) && At(code, p + 1, Operands(i)) && Encodable(i)
    ensures Decode(code, p) == Some(i)
  {
    hide GetU16;
    hide GetU32;
    hide GetI32;
    hide U16;
    hide U32;
    match i
    case Char(c) => ReadU16(code, p + 1, c);
    case Save(_, index) => assert code[p + 1] == code[p + 1..p + 2][0];
    case SaveReset(first, last) =>
      assert code[p + 1] == code[p + 1..p + 3][0] && code[p + 2] == code[p + 1..p + 3][1];
  }

  lemma {:induction false} DecodeJump(code: seq<byte>, p: nat, i: Instr)
    requires i.Goto? || i.Split? || i.Loop? || i.Lookahead? || i.BneCharPos?
    requires p + Size(i) <= |code| && code[p] == Opcode(i) && At(code, p + 1, Operands(i)) && Encodable(i)
    ensures Decode(code, p) == Some(i)
  {
    hide GetU16;
    hide GetU32;
    hide GetI32;
    hide U16;
    hide U32;
    ReadU32(code, p + 1, i.off);
  }

  lemma {:induction false} DecodeWord(code: seq<byte>, p: nat, i: Instr)
    requires i.Char32? || i.PushI32?
    requires p + Size(i) <= |code| && code[p] == Opcode(i) && At(code, p + 1, Operands(i)) && Encodable(i)
    ensures Decode(code, p) == Some(i)
  {
    hide GetU16;
    hide GetU32;
    hide GetI32;
    hide U16;
    hide U32;
    ReadU32(code, p + 1, if i.Char32? then i.c else i.v);
  }

  lemma {:induction false} ReadQuant(code: seq<byte>, p: nat, next: int, min: int, max: int, count: int)
    requires At(code, p + 1, U32(next) + U32(min) + U32(max) + U32(count))
    requires IsI32(next) && IsU32(min) && IsU32(max) && IsU32(count)
    ensures p + 17 <= |code|
    ensures GetI32(code, p + 1) == next && GetU32(code, p + 5) == min
    ensures GetU32(code, p + 9) == max && GetU32(code, p + 13) == count
  {
    hide GetU32;
    hide GetI32;
    hide U32;
    AtSplit(code, p + 1, U32(next) + U32(min) + U32(max), U32(count));
    AtSplit(code, p + 1, U32(next) + U32(min), U32(max));
    AtSplit(code, p + 1, U32(next), U32(min));
    ReadU32(code, p + 1, next);
    ReadU32(code, p + 5, min);
    ReadU32(code, p + 9, max);
    ReadU32(code, p + 13, count);
  }
}
