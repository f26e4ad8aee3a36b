/** Emitting bytecode: the compiler state, its emission primitives, and the rewriting that each
    kind of quantifier does to the bytes of its atom. */
module ReEmit {
  import opened ReOpcode
  import opened RePattern
  import opened ReClass
  import opened ReCode
  import opened DynBuffer

  // ----- what the code shapes look like as bytes -----

  lemma {:induction false} BytesAround(i: Instr, body: seq<Instr>, j: Instr)
    ensures Bytes([i] + body + [j]) == Encode(i) + Bytes(body) + Encode(j)
    ensures Bytes([i] + body) == Encode(i) + Bytes(body)
    ensures Bytes(body + [j]) == Bytes(body) + Encode(j)
  {
    hide Bytes;
    hide Encode;
    hide Length;
    BytesAppend([i] + body, [j]);
    BytesAppend([i], body);
    BytesAppend(body, [j]);
    BytesOne(i);
    BytesOne(j);
  }

  function SplitByte(greedy: bool): byte {
    if greedy then 9 else 8
  }

  lemma {:induction false} StarBytes(atom: seq<Instr>, greedy: bool, check: bool)
    ensures var n: int := Length(atom);
            Bytes(StarCode(atom, greedy, check))
            == if check then [SplitByte(greedy)] + U32(n + 6) + [25] + Bytes(atom) + ([26] + U32(-(n + 11)))
               else [SplitByte(greedy)] + U32(n + 5) + Bytes(atom) + ([7] + U32(-(n + 10)))
  {
    hide Bytes;
    hide Length;
    hide U32;
    hide SplitByte;
    hide Encode;
    var n: int := Length(atom);
    if check {
      CheckedBytes(atom, greedy);
    } else {
      BytesAround(Split(!greedy, n + 5), atom, Goto(-(n + 10)));
      SplitBytes(greedy, n + 5);
      JumpBytes(-(n + 10));
    }
  }

  lemma {:induction false} CheckedBytes(atom: seq<Instr>, greedy: bool)
    ensures var n: int := Length(atom);
            Bytes(StarCode(atom, greedy, true))
            == [SplitByte(greedy)] + U32(n + 6) + [25] + Bytes(atom) + ([26] + U32(-(n + 11)))
  {
    hide Bytes;
    hide Length;
    hide U32;
    hide SplitByte;
    hide Encode;
    var n: int := Length(atom);
    var s, g := Split(!greedy, n + 6), BneCharPos(-(n + 11));
    var inner := [PushCharPos] + atom + [g];
    assert StarCode(atom, greedy, true) == [s] + inner;
    BytesAround(PushCharPos, atom, g);
    BytesAround(s, inner, g);
    SplitBytes(greedy, n + 6);
    JumpBytes(-(n + 11));
    hide StarCode;
    Assoc4([SplitByte(greedy)] + U32(n + 6), [25], Bytes(atom), Encode(g));
  }

  lemma {:induction false} Assoc4(a: seq<byte>, b: seq<byte>, c: seq<byte>, d: seq<byte>)
    ensures a + (b + c + d) == a + b + c + d
  {
  }

  lemma {:induction false} SplitBytes(greedy: bool, off: int)
    ensures Encode(Split(!greedy, off)) == [SplitByte(greedy)] + U32(off)
  {
    hide U32;
  }

  lemma {:induction false} JumpBytes(off: int)
    ensures Encode(Goto(off)) == [7] + U32(off)
    ensures Encode(BneCharPos(off)) == [26] + U32(off)
    ensures Encode(Loop(off)) == [14] + U32(off)
    ensures Encode(PushI32(off)) == [15] + U32(off)
    ensures Encode(PushCharPos) == [25] && Encode(Drop) == [16]
  {
    hide U32;
  }

  lemma {:induction false} PlusBytes(atom: seq<Instr>, greedy: bool)
    ensures Bytes(PlusCode(atom, greedy))
         == Bytes(atom) + ([if greedy then 8 else 9] + U32(-(Length(atom) as int + 5)))
  {
    hide Bytes;
    hide Length;
    hide U32;
    var s := Split(greedy, -(Length(atom) as int + 5));
    BytesAround(s, atom, s);
    assert Encode(s) == [if greedy then 8 else 9] + U32(-(Length(atom) as int + 5));
    hide Encode;
  }

  lemma {:induction false} CountedBytes(atom: seq<Instr>, n: nat, greedy: bool)
    ensures var len: int := Length(atom);
            Bytes(CountedCode(atom, n, greedy))
            == [15] + U32(n) + ([SplitByte(greedy)] + U32(len + 5)) + Bytes(atom) + ([14] + U32(-(len + 10))) + [16]
  {
    hide Bytes;
    hide Length;
    hide U32;
    hide SplitByte;
    hide Encode;
    var len: int := Length(atom);
    var s, l := Split(!greedy, len + 5), Loop(-(len + 10));
    var inner := [s] + atom + [l];
    assert CountedCode(atom, n, greedy) == [PushI32(n)] + inner + [Drop];
    BytesAround(s, atom, l);
    BytesAround(PushI32(n), inner, Drop);
    JumpBytes(n);
    SplitBytes(greedy, len + 5);
    JumpBytes(-(len + 10));
    assert Bytes(CountedCode(atom, n, greedy)) == ([15] + U32(n)) + (Encode(s) + Bytes(atom) + Encode(l)) + [16];
  }

  lemma {:induction false} RepeatBytes(atom: seq<Instr>, n: nat)
    ensures var len: int := Length(atom);
            Bytes(RepeatCode(atom, n)) == [15] + U32(n) + Bytes(atom) + ([14] + U32(-(len + 5))) + [16]
  {
    hide Bytes;
    hide Length;
    hide U32;
    hide Encode;
    var len: int := Length(atom);
    var l := Loop(-(len + 5));
    var inner := atom + [l];
    assert RepeatCode(atom, n) == [PushI32(n)] + inner + [Drop];
    BytesAround(l, atom, l);
    BytesAround(PushI32(n), inner, Drop);
    JumpBytes(n);
    JumpBytes(-(len + 5));
    assert Bytes(RepeatCode(atom, n)) == ([15] + U32(n)) + (Bytes(atom) + Encode(l)) + [16];
  }

  lemma {:induction false} SimpleBytes(atom: seq<Instr>, min: nat, max: nat)
    ensures var n: int := Length(atom);
            Bytes(SimpleCode(atom, min, max))
            == [28] + U32(n + 1) + U32(min) + U32(max) + U32(SimpleCount(atom)) + Bytes(atom) + [10]
  {
    hide Bytes;
    hide Length;
    hide U32;
    hide SimpleCount;
    var q := SimpleGreedyQuant(Length(atom) + 1, min, max, SimpleCount(atom));
    BytesAround(q, atom, Match);
    assert Encode(q) == [28] + U32(Length(atom) + 1) + U32(min) + U32(max) + U32(SimpleCount(atom));
    assert Encode(Match) == [10];
    hide Encode;
  }

  // ----- the compiler state -----

  const CAPTURE_COUNT_MAX := 255

  class REParseState {
    const flags: Flags
    const byteCode: DynBuf
    var captureCount: nat

    ghost predicate Valid()
      reads this, byteCode
    {
      byteCode.Valid()
    }

    /** The bytes emitted so far. */
    ghost function Out(): (s: seq<byte>)
      requires Valid()
      reads this, byteCode
    {
      byteCode.Contents()
    }

    constructor (f: Flags)
      ensures Valid() && Out() == [] && flags == f && captureCount == 1 && fresh(byteCode)
    {
      flags := f;
      byteCode := new DynBuf();
      captureCount := 1;
    }

    method EmitOp(op: byte)
      requires Valid()
      modifies byteCode
      ensures Valid() && Out() == old(Out()) + [op]
    {
      byteCode.Putc(op);
    }

    /** The result is the position of the operand. */
    method EmitOpU32(op: byte, v: int) returns (pos: nat)
      requires Valid()
      modifies byteCode
      ensures Valid() && Out() == old(Out()) + ([op] + U32(v)) && pos == |old(Out())| + 1
    {
      hide U32;
      byteCode.Putc(op);
      pos := byteCode.size;
      byteCode.PutU32(v);
    }

    /** Emits a jump to the absolute position target. */
    method EmitGoto(op: byte, target: int)
      requires Valid()
      modifies byteCode
      ensures Valid() && Out() == old(Out()) + ([op] + U32(target - (|old(Out())| + 5)))
    {
      hide U32;
      byteCode.Putc(op);
      var pos := byteCode.size;
      byteCode.PutU32(target - (pos + 4));
    }

    method EmitOpU8(op: byte, v: nat)
      requires Valid()
      modifies byteCode
      ensures Valid() && Out() == old(Out()) + [op, v % 256]
    {
      byteCode.Putc(op);
      byteCode.Putc(v % 256);
    }

    method EmitOpU16(op: byte, v: int)
      requires Valid()
      modifies byteCode
      ensures Valid() && Out() == old(Out()) + ([op] + U16(v))
    {
      hide U16;
      byteCode.Putc(op);
      byteCode.PutU16(v);
    }

    /** Opens a gap at start and writes an opcode and its operand at its front. */
    method InsertOpU32(start: nat, op: byte, v: int, extra: nat) returns (ghost gap: seq<byte>)
      requires Valid() && start <= |Out()|
      modifies byteCode
      ensures Valid() && |gap| == extra
      ensures Out() == old(Out())[..start] + ([op] + U32(v)) + gap + old(Out())[start..]
    {
      hide U32;
      hide Overwrite;
      ghost var pre, post := Out()[..start], Out()[start..];
      ghost var all := byteCode.Insert(start, 5 + extra);
      OverwriteGap(pre, all, post, [op]);
      byteCode.Set(start, [op]);
      assert Out() == (pre + [op]) + all[1..] + post;
      OverwriteGap(pre + [op], all[1..], post, U32(v));
      byteCode.SetU32(start + 1, v);
      gap := all[1..][4..];
      assert Out() == pre + ([op] + U32(v)) + gap + post;
    }

    // ----- character classes -----

    /** re_emit_range; false when the class has too many intervals. */
    method EmitRange(points: seq<int>) returns (ok: bool)
      requires Valid() && |points| % 2 == 0
      modifies byteCode
      ensures Valid() && ok == (|points| / 2 < MAX_RANGES)
      ensures Out() == if ok then old(Out()) + Encode(RangeCode(points)) else old(Out())
    {
      hide Encode;
      hide U16;
      hide U32;
      var len := |points| / 2;
      if len >= 65535 {
        return false;
      }
      RangeBytes(points);
      if len == 0 {
        var _ := EmitOpU32(2, UINT32_MAX);
      } else {
        var high := points[|points| - 1];
        if high == UINT32_MAX {
          high := points[|points| - 2];
        }
        if high <= 0xffff {
          EmitOpU16(21, len);
          EmitPairs16(points);
        } else {
          EmitOpU16(22, len);
          EmitPairs32(points);
        }
      }
      return true;
    }

    method EmitPairs16(points: seq<int>)
      requires Valid() && |points| % 2 == 0
      modifies byteCode
      ensures Valid() && Out() == old(Out()) + Pairs16(Table16(points))
    {
      hide U16;
      hide Table16;
      hide Pairs16;
      ghost var t := Table16(points);
      var i := 0;
      NoPairs();
      while i < |points|
        invariant 0 <= i <= |points| && i % 2 == 0
        invariant Valid() && Out() == old(Out()) + Pairs16(t[..i / 2])
      {
        byteCode.PutU16(points[i]);
        var high := points[i + 1] - 1;
        if high == UINT32_MAX - 1 {
          high := 0xffff;
        }
        byteCode.PutU16(high);
        assert t[i / 2] == (points[i], high);
        Pairs16Snoc(t[..i / 2], t[i / 2]);
        assert t[..i / 2] + [t[i / 2]] == t[..(i + 2) / 2];
        i := i + 2;
      }
      assert t[..i / 2] == t;
    }

    method EmitPairs32(points: seq<int>)
      requires Valid() && |points| % 2 == 0
      modifies byteCode
      ensures Valid() && Out() == old(Out()) + Pairs32(Table32(points))
    {
      hide U32;
      hide Table32;
      hide Pairs32;
      ghost var t := Table32(points);
      var i := 0;
      NoPairs();
      while i < |points|
        invariant 0 <= i <= |points| && i % 2 == 0
        invariant Valid() && Out() == old(Out()) + Pairs32(t[..i / 2])
      {
        byteCode.PutU32(points[i]);
        byteCode.PutU32(points[i + 1] - 1);
        assert t[i / 2] == (points[i], points[i + 1] - 1);
        Pairs32Snoc(t[..i / 2], t[i / 2]);
        assert t[..i / 2] + [t[i / 2]] == t[..(i + 2) / 2];
        i := i + 2;
      }
      assert t[..i / 2] == t;
    }

    // ----- what a quantifier does to the bytes of its atom -----

    /** The fast path: a match opcode after the atom and a header of 17 bytes before it. */
    method MakeSimple(start: nat, min: nat, max: nat, len: int, ghost atom: seq<Instr>)
      requires Valid() && start <= |Out()| && Out()[start..] == Bytes(atom) && len == SimpleCount(atom)
      modifies byteCode
      ensures Valid() && Out() == old(Out())[..start] + Bytes(SimpleCode(atom, min, max))
    {
      hide *;
      ghost var pre := Out()[..start];
      SimpleBytes(atom, min, max);
      EmitOp(10);
      ghost var post := Bytes(atom) + [10];
      WriteHeader(start, min, max, len, pre, post);
    }

    /** An unbounded loop around the atom that ends the output. */
    method MakeStar(start: nat, greedy: bool, check: bool, len: nat, ghost atom: seq<Instr>)
      requires Valid() && start <= |Out()| && Out()[start..] == Bytes(atom) && len == |Bytes(atom)|
      modifies byteCode
      ensures Valid() && Out() == old(Out())[..start] + Bytes(StarCode(atom, greedy, check))
    {
      hide Bytes;
      hide U32;
      hide Length;
      hide StarCode;
      hide SplitByte;
      hide Overwrite;
      ghost var pre := Out()[..start];
      StarBytes(atom, greedy, check);
      var extra := if check then 1 else 0;
      ghost var gap := InsertOpU32(start, SplitByte(greedy), len + 5 + extra, extra);
      if check {
        ghost var done := pre + ([SplitByte(greedy)] + U32(len + 6));
        OverwriteGap(done, gap, Bytes(atom), [25]);
        byteCode.Set(start + 5, [25]);
        assert Out() == done + [25] + Bytes(atom);
        EmitGoto(26, start);
      } else {
        assert Out() == pre + ([SplitByte(greedy)] + U32(len + 5)) + Bytes(atom);
        EmitGoto(7, start);
      }
    }

    /** A jump back to the atom that ends the output. */
    method MakePlus(start: nat, greedy: bool, ghost atom: seq<Instr>)
      requires Valid() && start <= |Out()| && Out()[start..] == Bytes(atom)
      modifies byteCode
      ensures Valid() && Out() == old(Out())[..start] + Bytes(PlusCode(atom, greedy))
    {
      hide Bytes;
      hide U32;
      hide Length;
      hide PlusCode;
      ghost var pre := Out()[..start];
      PlusBytes(atom, greedy);
      assert Out() == pre + Bytes(atom);
      EmitGoto(if greedy then 8 else 9, start);
    }

    /** A loop of at most max repetitions around the atom that ends the output. */
    method MakeCounted(start: nat, max: nat, greedy: bool, len: nat, ghost atom: seq<Instr>)
      requires Valid() && start <= |Out()| && Out()[start..] == Bytes(atom) && len == |Bytes(atom)|
      modifies byteCode
      ensures Valid() && Out() == old(Out())[..start] + Bytes(CountedCode(atom, max, greedy))
    {
      hide Bytes;
      hide U32;
      hide Length;
      hide CountedCode;
      hide SplitByte;
      hide Overwrite;
      ghost var pre := Out()[..start];
      CountedBytes(atom, max, greedy);
      ghost var gap := InsertOpU32(start, 15, max, 5);
      ghost var done := pre + ([15] + U32(max));
      OverwriteGap(done, gap, Bytes(atom), [SplitByte(greedy)]);
      byteCode.Set(start + 5, [SplitByte(greedy)]);
      OverwriteGap(done + [SplitByte(greedy)], gap[1..], Bytes(atom), U32(len + 5));
      byteCode.SetU32(start + 6, len + 5);
      assert Out() == done + ([SplitByte(greedy)] + U32(len + 5)) + Bytes(atom);
      EmitGoto(14, start + 5);
      EmitOp(16);
    }

    /** A loop of exactly min repetitions around the atom that ends the output. */
    method MakeRepeat(start: nat, min: nat, ghost atom: seq<Instr>)
      requires Valid() && start <= |Out()| && Out()[start..] == Bytes(atom)
      modifies byteCode
      ensures Valid() && Out() == old(Out())[..start] + Bytes(RepeatCode(atom, min))
      ensures start + 5 + |Bytes(atom)| <= |Out()| && Out()[start + 5..start + 5 + |Bytes(atom)|] == Bytes(atom)
    {
      hide Bytes;
      hide U32;
      hide Length;
      hide RepeatCode;
      ghost var pre := Out()[..start];
      RepeatBytes(atom, min);
      ghost var gap := InsertOpU32(start, 15, min, 0);
      ghost var done := pre + ([15] + U32(min));
      assert Out() == done + Bytes(atom);
      EmitGoto(14, start + 5);
      EmitOp(16);
      assert Out() == done + Bytes(atom) + (([14] + U32(-(Length(atom) as int + 5))) + [16]);
    }

    /** An unbounded loop around a copy of the atom, which is found at start. */
    method AppendStar(start: nat, len: nat, greedy: bool, check: bool, ghost atom: seq<Instr>)
      requires Valid() && start + len <= |Out()| && Out()[start..start + len] == Bytes(atom)
      modifies byteCode
      ensures Valid() && Out() == old(Out()) + Bytes(StarCode(atom, greedy, check))
    {
      hide Bytes;
      hide U32;
      hide Length;
      hide StarCode;
      hide SplitByte;
      ghost var before := Out();
      StarBytes(atom, greedy, check);
      var pos := byteCode.size;
      if check {
        var _ := EmitOpU32(SplitByte(greedy), len + 6);
        EmitOp(25);
        SameBlock(before, Out(), start, len);
        byteCode.PutSelf(start, len);
        EmitGoto(26, pos);
      } else {
        var _ := EmitOpU32(SplitByte(greedy), len + 5);
        SameBlock(before, Out(), start, len);
        byteCode.PutSelf(start, len);
        EmitGoto(7, pos);
      }
    }

    /** A counted loop around a copy of the atom, which is found at start. */
    method AppendCounted(start: nat, len: nat, n: nat, greedy: bool, ghost atom: seq<Instr>)
      requires Valid() && start + len <= |Out()| && Out()[start..start + len] == Bytes(atom)
      modifies byteCode
      ensures Valid() && Out() == old(Out()) + Bytes(CountedCode(atom, n, greedy))
    {
      hide Bytes;
      hide U32;
      hide Length;
      hide CountedCode;
      hide SplitByte;
      ghost var before := Out();
      CountedBytes(atom, n, greedy);
      var _ := EmitOpU32(15, n);
      var pos := byteCode.size;
      var _ := EmitOpU32(SplitByte(greedy), len + 5);
      SameBlock(before, Out(), start, len);
      byteCode.PutSelf(start, len);
      EmitGoto(14, pos);
      EmitOp(16);
    }

    /** The optional repetitions after the mandatory ones. */
    method AppendMore(start: nat, len: nat, min: nat, max: nat, greedy: bool, check: bool, ghost atom: seq<Instr>)
      requires Valid() && start + len <= |Out()| && Out()[start..start + len] == Bytes(atom) && min <= max
      modifies byteCode
      ensures Valid() && Out() == old(Out()) + Bytes(MoreCode(atom, min, max, greedy, check))
    {
      hide Bytes;
      hide StarCode;
      hide CountedCode;
      if max == INT32_MAX {
        AppendStar(start, len, greedy, check, atom);
      } else if max > min {
        AppendCounted(start, len, max - min, greedy, atom);
      } else {
        NoBytes();
      }
    }

    /** At most one repetition: a split over the atom. */
    method MakeMaybe(start: nat, greedy: bool, len: nat, ghost atom: seq<Instr>)
      requires Valid() && start <= |Out()| && Out()[start..] == Bytes(atom) && len == |Bytes(atom)|
      modifies byteCode
      ensures Valid() && Out() == old(Out())[..start] + Bytes([Split(!greedy, Length(atom))] + atom)
    {
      hide Bytes;
      hide U32;
      hide Length;
      hide SplitByte;
      hide Encode;
      ghost var s := Split(!greedy, Length(atom));
      BytesAround(s, atom, s);
      SplitBytes(greedy, len);
      ghost var gap := InsertOpU32(start, SplitByte(greedy), len, 0);
    }

    /** Forgetting the captures of an atom that may be skipped. */
    method InsertReset(start: nat, lo: nat, hi: nat)
      requires Valid() && start <= |Out()|
      modifies byteCode
      ensures Valid() && Out() == old(Out())[..start] + Encode(SaveReset(lo, hi)) + old(Out())[start..]
    {
      hide Overwrite;
      ghost var pre, post := Out()[..start], Out()[start..];
      ghost var all := byteCode.Insert(start, 3);
      OverwriteGap(pre, all, post, [13]);
      byteCode.Set(start, [13]);
      OverwriteGap(pre + [13], all[1..], post, [lo % 256]);
      byteCode.Set(start + 1, [lo % 256]);
      assert Out() == (pre + [13, lo % 256]) + all[2..] + post;
      OverwriteGap(pre + [13, lo % 256], all[2..], post, [hi % 256]);
      byteCode.Set(start + 2, [hi % 256]);
      ResetBytes(lo, hi);
      assert Out() == pre + [13, lo % 256, hi % 256] + post;
    }

    method WriteHeader(start: nat, min: nat, max: nat, len: int, ghost pre: seq<byte>, ghost post: seq<byte>)
      requires Valid() && Out() == pre + post && start == |pre|
      modifies byteCode
      ensures Valid()
      ensures Out() == pre + ([28] + U32(|post|) + U32(min) + U32(max) + U32(len) + post)
    {
      hide U32;
      hide Overwrite;
      ghost var all := byteCode.Insert(start, 17);
      OverwriteGap(pre, all, post, [28]);
      byteCode.Set(start, [28]);
      ghost var g := all[1..];
      ghost var done := pre + [28];
      OverwriteGap(done, g, post, U32(byteCode.size - start - 17));
      byteCode.SetU32(start + 1, byteCode.size - start - 17);
      done, g := done + U32(|post|), g[4..];
      OverwriteGap(done, g, post, U32(min));
      byteCode.SetU32(start + 5, min);
      done, g := done + U32(min), g[4..];
      OverwriteGap(done, g, post, U32(max));
      byteCode.SetU32(start + 9, max);
      done, g := done + U32(max), g[4..];
      OverwriteGap(done, g, post, U32(len));
      byteCode.SetU32(start + 13, len);
    }
  }

  lemma {:induction false} SameBlock(s: seq<byte>, t: seq<byte>, start: nat, len: nat)
    requires start + len <= |s| && s <= t
    ensures t[start..start + len] == s[start..start + len]
  {
  }

  lemma {:induction false} ResetBytes(lo: nat, hi: nat)
    ensures Encode(SaveReset(lo, hi)) == [13, lo % 256, hi % 256]
  {
  }

  lemma {:induction false} NoBytes()
    ensures Bytes([]) == []
  {
  }

  // ----- tables as bytes -----

  lemma {:induction false} RangeBytes(points: seq<int>)
    requires |points| % 2 == 0
    ensures Encode(RangeCode(points))
         == if |points| == 0 then [2] + U32(UINT32_MAX)
            else if HighestPoint(points) <= 0xffff then [21] + U16(|points| / 2) + Pairs16(Table16(points))
            else [22] + U16(|points| / 2) + Pairs32(Table32(points))
  {
    hide Encode;
    hide U16;
    hide U32;
    hide Pairs16;
    hide Pairs32;
    hide Table16;
    hide Table32;
    hide HighestPoint;
    if |points| > 0 {
      TableBytes(Table16(points));
      TableBytes(Table32(points));
    } else {
      NoneBytes();
    }
  }

  lemma {:induction false} NoneBytes()
    ensures Encode(Char32(UINT32_MAX)) == [2] + U32(UINT32_MAX)
  {
    hide U32;
  }

  lemma {:induction false} TableBytes(t: seq<(int, int)>)
    ensures Encode(Range(t)) == [21] + U16(|t|) + Pairs16(t)
    ensures Encode(Range32(t)) == [22] + U16(|t|) + Pairs32(t)
  {
    hide *;
    TableOperands(t);
    Assoc([21], U16(|t|), Pairs16(t));
    Assoc([22], U16(|t|), Pairs32(t));
  }

  lemma {:induction false} TableOperands(t: seq<(int, int)>)
    ensures Encode(Range(t)) == [21] + (U16(|t|) + Pairs16(t))
    ensures Encode(Range32(t)) == [22] + (U16(|t|) + Pairs32(t))
  {
    hide *;
    EncodeIs(Range(t));
    EncodeIs(Range32(t));
    OperandsAre(t);
  }

  lemma {:induction false} EncodeIs(i: Instr)
    ensures Encode(i) == [Opcode(i)] + Operands(i)
  {
    hide Opcode;
    hide Operands;
  }

  lemma {:induction false} OperandsAre(t: seq<(int, int)>)
    ensures Opcode(Range(t)) == 21 && Operands(Range(t)) == U16(|t|) + Pairs16(t)
    ensures Opcode(Range32(t)) == 22 && Operands(Range32(t)) == U16(|t|) + Pairs32(t)
  {
    hide U16;
    hide Pairs16;
    hide Pairs32;
    RangeOperands(Range(t), t);
    Range32Operands(Range32(t), t);
    hide Operands;
  }

  lemma {:induction false} RangeOperands(i: Instr, t: seq<(int, int)>)
    requires i.Range? && i.pairs == t
    ensures Operands(i) == U16(|t|) + Pairs16(t)
  {
    hide U16;
    hide U32;
    hide Pairs16;
    hide Pairs32;
    match i
    case Range(_) =>
  }

  lemma {:induction false} Range32Operands(i: Instr, t: seq<(int, int)>)
    requires i.Range32? && i.pairs == t
    ensures Operands(i) == U16(|t|) + Pairs32(t)
  {
    hide U16;
    hide U32;
    hide Pairs16;
    hide Pairs32;
    match i
    case Range32(_) =>
  }

  lemma {:induction false} Assoc(a: seq<byte>, b: seq<byte>, c: seq<byte>)
    ensures a + (b + c) == a + b + c
  {
  }

  lemma {:induction false} NoPairs()
    ensures Pairs16([]) == [] && Pairs32([]) == []
  {
  }

  lemma {:induction false} Pairs16Snoc(t: seq<(int, int)>, p: (int, int))
    ensures Pairs16(t + [p]) == Pairs16(t) + U16(p.0) + U16(p.1)
  {
    hide U16;
    if |t| == 0 {
      assert t + [p] == [p] && [p][1..] == [];
    } else {
      assert (t + [p])[1..] == t[1..] + [p];
      Pairs16Snoc(t[1..], p);
    }
  }

  lemma {:induction false} Pairs32Snoc(t: seq<(int, int)>, p: (int, int))
    ensures Pairs32(t + [p]) == Pairs32(t) + U32(p.0) + U32(p.1)
  {
    hide U32;
    if |t| == 0 {
      assert t + [p] == [p] && [p][1..] == [];
    } else {
      assert (t + [p])[1..] == t[1..] + [p];
      Pairs32Snoc(t[1..], p);
    }
  }
}
