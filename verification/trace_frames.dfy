/** The prefix-coded frame decoder: a buffer's words become one bit list,
    most significant bit first, which is cut into frames by matching the
    opcode table at a cursor that advances by each frame's fixed width. */
module TraceFrames {
  import opened Results
  import opened Bits

  // ---------------------------------------------------------------------
  // Opcodes

  /** The `OpCode` table, one case per entry. */
  datatype OpCode =
    | OpStart | OpStartAlt | OpStop
    | OpSingle0 | OpSingle1 | OpSingle2
    | OpMultiple0 | OpMultiple1 | OpMultiple2
    | OpRepeat0 | OpRepeat1
    | OpFiller | OpSync

  function Pattern(op: OpCode): (p: seq<Bit>)
    ensures 1 <= |p| <= 8
  {
    match op
    case OpStart     => [1, 1, 1, 1, 0, 0, 0, 0]
    case OpStartAlt  => [1, 1, 1, 1, 0, 1, 0, 0]
    case OpStop      => [1, 1, 0, 1, 1, 1]
    case OpSingle0   => [0]
    case OpSingle1   => [1, 0, 0]
    case OpSingle2   => [1, 0, 1]
    case OpMultiple0 => [1, 1, 0, 0]
    case OpMultiple1 => [1, 1, 0, 1, 0, 0]
    case OpMultiple2 => [1, 1, 0, 1, 0, 1]
    case OpRepeat0   => [1, 1, 1, 0]
    case OpRepeat1   => [1, 1, 0, 1, 1, 0]
    case OpFiller    => [1, 1, 1, 1, 1, 1, 1, 0]
    case OpSync      => [1, 1, 1, 1, 1, 1, 1, 1]
  }

  /** `starts_with_opcode`: the first `len(opcode)` bits, as a Python slice,
      equal the opcode; fewer remaining bits never match. */
  predicate StartsWith(bits: seq<Bit>, op: OpCode) {
    Slice(bits, 0, |Pattern(op)|) == Pattern(op)
  }

  /** The opcode the leading bits carry, read off as a binary decision tree. */
  function Classify(bits: seq<Bit>): Option<OpCode> {
    if |bits| < 1 then None
    else if bits[0] == 0 then Some(OpSingle0)
    else if |bits| < 3 then None
    else if bits[1] == 0 then Some(if bits[2] == 0 then OpSingle1 else OpSingle2)
    else if |bits| < 4 then None
    else if bits[2] == 0 then
      if bits[3] == 0 then Some(OpMultiple0)
      else if |bits| < 6 then None
      else if bits[4] == 0 then Some(if bits[5] == 0 then OpMultiple1 else OpMultiple2)
      else Some(if bits[5] == 0 then OpRepeat1 else OpStop)
    else if bits[3] == 0 then Some(OpRepeat0)
    else if |bits| < 8 then None
    else if bits[4] == 0 && bits[5] == 0 && bits[6] == 0 && bits[7] == 0 then Some(OpStart)
    else if bits[4] == 0 && bits[5] == 1 && bits[6] == 0 && bits[7] == 0 then Some(OpStartAlt)
    else if bits[4] == 1 && bits[5] == 1 && bits[6] == 1 && bits[7] == 0 then Some(OpFiller)
    else if bits[4] == 1 && bits[5] == 1 && bits[6] == 1 && bits[7] == 1 then Some(OpSync)
    else None
  }

  /** An opcode matches exactly when the decision tree selects it. */
  lemma ClassifyExact(bits: seq<Bit>, op: OpCode)
    ensures StartsWith(bits, op) <==> Classify(bits) == Some(op)
  {
    var p := Pattern(op);
    if StartsWith(bits, op) {
      assert |bits| >= |p| && bits[..|p|] == p;
      forall k | 0 <= k < |p|
        ensures bits[k] == p[k]
      {
        assert bits[..|p|][k] == bits[k];
      }
    }
    if Classify(bits) == Some(op) {
      assert |bits| >= |p|;
      assert forall k | 0 <= k < |p| :: bits[k] == p[k];
      assert bits[..|p|] == p;
    }
  }

  /** At most one opcode matches at any cursor (the table is a prefix
      code), so the order in which the decoder tries them does not matter. */
  lemma AtMostOneOpcode(bits: seq<Bit>, a: OpCode, b: OpCode)
    requires StartsWith(bits, a) && StartsWith(bits, b)
    ensures a == b
  {
    ClassifyExact(bits, a);
    ClassifyExact(bits, b);
  }

  predicate SomeOpcode(bits: seq<Bit>) {
    exists op :: StartsWith(bits, op)
  }

  /** With a full byte left, the bytes that match no opcode are exactly
      1111xxxx other than 11110000, 11110100, 11111110 and 11111111. */
  lemma UnmatchedBytes(bits: seq<Bit>)
    requires |bits| >= 8
    ensures !SomeOpcode(bits) <==>
              && bits[0] == 1 && bits[1] == 1 && bits[2] == 1 && bits[3] == 1
              && var low := [bits[4], bits[5], bits[6], bits[7]];
                 low !in {[0, 0, 0, 0], [0, 1, 0, 0], [1, 1, 1, 0], [1, 1, 1, 1]}
  {
    var c := Classify(bits);
    if c.Some? {
      ClassifyExact(bits, c.value);
    } else {
      forall op
        ensures !StartsWith(bits, op)
      {
        ClassifyExact(bits, op);
      }
    }
  }

  /** The opcode matching at a cursor, when there is one, is unique. */
  lemma MatchIsUnique(bits: seq<Bit>)
    ensures forall a, b | StartsWith(bits, a) && StartsWith(bits, b) :: a == b
  {
    forall a, b | StartsWith(bits, a) && StartsWith(bits, b)
      ensures a == b
    {
      AtMostOneOpcode(bits, a, b);
    }
  }

  // ---------------------------------------------------------------------
  // Frames

  /** Event label: a configured name, or the raw index when the list of
      names is too short. */
  datatype Label = Name(name: string) | Raw(index: nat)

  /** The frame variants. `L` is `nat` for frames as read from the bits
      (event indices) and `Label` once the indices are resolved to names. */
  datatype Frame<L> =
    | Start(timer: nat)
    | Stop(cycles: nat)
    | Single0(event: L, cycles: nat)
    | Single1(event: L, cycles: nat)
    | Single2(event: L, cycles: nat)
    | Multiple0(events: seq<L>, cycles: nat)
    | Multiple1(events: seq<L>, cycles: nat)
    | Multiple2(events: seq<L>, cycles: nat)
    | Repeat0(count: nat)
    | Repeat1(count: nat)
    | Filler
    | Sync

  /** The fixed number of bits each variant consumes. */
  function Width<L>(f: Frame<L>): (w: nat)
    ensures w > 0 && w % 8 == 0
  {
    match f
    case Start(_) => 64
    case Stop(_) => 32
    case Single0(_, _) => 8
    case Single1(_, _) => 16
    case Single2(_, _) => 24
    case Multiple0(_, _) => 16
    case Multiple1(_, _) => 24
    case Multiple2(_, _) => 32
    case Repeat0(_) => 8
    case Repeat1(_) => 16
    case Filler => 8
    case Sync => 8
  }

  /** Which variant each opcode produces. */
  predicate Produces(op: OpCode, f: Frame<nat>) {
    match op
    case OpStart | OpStartAlt => f.Start?
    case OpStop => f.Stop?
    case OpSingle0 => f.Single0?
    case OpSingle1 => f.Single1?
    case OpSingle2 => f.Single2?
    case OpMultiple0 => f.Multiple0?
    case OpMultiple1 => f.Multiple1?
    case OpMultiple2 => f.Multiple2?
    case OpRepeat0 => f.Repeat0?
    case OpRepeat1 => f.Repeat1?
    case OpFiller => f.Filler?
    case OpSync => f.Sync?
  }

  predicate StrictlyDecreasing(s: seq<nat>) {
    forall i, j | 0 <= i < j < |s| :: s[i] > s[j]
  }

  /** The event indices an 8-bit mask names: the set bit at position `p`,
      counted from the mask's most significant end, is index `7 - p`, and
      indices come in position order. */
  function MaskIndices(bits: seq<Bit>): (r: seq<nat>)
    requires |bits| <= 8
    ensures StrictlyDecreasing(r)
    ensures forall i :: i in r <==> 8 - |bits| <= i < 8 && bits[7 - i] == 1
    ensures forall i | 0 <= i < |r| :: 8 - |bits| <= r[i] < 8
    ensures |r| == Ones(bits)
  {
    if |bits| == 0 then []
    else
      var n := |bits|;
      var prefix := MaskIndices(bits[..n - 1]);
      assert forall i :: i in prefix ==> bits[..n - 1][7 - i] == bits[7 - i];
      prefix + (if bits[n - 1] == 1 then [8 - n] else [])
  }

  /** For a full 8-bit mask, index `i` is named exactly when bit `i` of the
      mask's value is set. */
  lemma MaskIndexIsValueBit(bits: seq<Bit>, i: nat)
    requires |bits| == 8 && i < 8
    ensures i in MaskIndices(bits) <==> DigitAt(BitsToNat(bits), i) == 1
  {
    BitAt(bits, 7 - i);
  }

  /** A mask is a strictly decreasing list of indices below 8. */
  predicate ValidMask(idx: seq<nat>) {
    StrictlyDecreasing(idx) && forall i | 0 <= i < |idx| :: idx[i] < 8
  }

  /** Field bounds: every field fits the bits its variant gives it. */
  predicate Encodable(f: Frame<nat>) {
    match f
    case Start(t) => t < 0x100_0000_0000_0000
    case Stop(c) => c < 0x1_0000
    case Single0(e, c) => e < 8 && c < 16
    case Single1(e, c) => e < 8 && c < 1024
    case Single2(e, c) => e < 8 && c < 0x4_0000
    case Multiple0(es, c) => ValidMask(es) && c < 16
    case Multiple1(es, c) => ValidMask(es) && c < 1024
    case Multiple2(es, c) => ValidMask(es) && c < 0x4_0000
    case Repeat0(n) => n < 16
    case Repeat1(n) => n < 1024
    case Filler => true
    case Sync => true
  }

  lemma SmallPowers()
    ensures Pow2(3) == 8 && Pow2(4) == 16 && Pow2(10) == 1024
    ensures Pow2(16) == 0x1_0000 && Pow2(18) == 0x4_0000
  {
    assert Pow2(16) == 0x1_0000;
    assert Pow2(18) == 0x4_0000;
    assert Pow2(3) == 8;
    assert Pow2(4) == 16;
    assert Pow2(10) == 1024;
  }

  lemma TimerPower()
    ensures Pow2(56) == 0x100_0000_0000_0000
  {
    assert Pow2(8) == 0x100;
    Pow2Add(8, 8);
    Pow2Add(16, 8);
    WordLimitPower();
    Pow2Add(32, 24);
  }

  /** The frame an opcode introduces, its fields read from fixed slices of
      the bits; a slice that runs past the end is shorter and reads as a
      smaller number. */
  function FrameFor(op: OpCode, bits: seq<Bit>): (f: Frame<nat>)
    ensures Produces(op, f)
    ensures Encodable(f)
  {
    SmallPowers();
    TimerPower();
    FrameSlices(bits);
    match op
    case OpStart | OpStartAlt => Start(BitsToNat(Slice(bits, 8, 64)))
    case OpStop => Stop(BitsToNat(Slice(bits, 16, 32)))
    case OpSingle0 => Single0(BitsToNat(Slice(bits, 1, 4)), BitsToNat(Slice(bits, 4, 8)))
    case OpSingle1 => Single1(BitsToNat(Slice(bits, 3, 6)), BitsToNat(Slice(bits, 6, 16)))
    case OpSingle2 => Single2(BitsToNat(Slice(bits, 3, 6)), BitsToNat(Slice(bits, 6, 24)))
    case OpMultiple0 => Multiple0(MaskIndices(Slice(bits, 4, 12)), BitsToNat(Slice(bits, 12, 16)))
    case OpMultiple1 => Multiple1(MaskIndices(Slice(bits, 6, 14)), BitsToNat(Slice(bits, 14, 24)))
    case OpMultiple2 => Multiple2(MaskIndices(Slice(bits, 6, 14)), BitsToNat(Slice(bits, 14, 32)))
    case OpRepeat0 => Repeat0(BitsToNat(Slice(bits, 4, 8)))
    case OpRepeat1 => Repeat1(BitsToNat(Slice(bits, 6, 16)))
    case OpFiller => Filler
    case OpSync => Sync
  }

  /** Decoding one frame at the head of `bits`: the opcodes are tried in
      table order; no match raises. */
  function DecodeFrame(bits: seq<Bit>): (r: Result<Frame<nat>>)
    ensures r.Ok? <==> SomeOpcode(bits)
    ensures r.Err? ==> r.error == NoOpcode
    ensures r.Ok? ==> forall op | StartsWith(bits, op) :: r.value == FrameFor(op, bits)
  {
    MatchIsUnique(bits);
    if StartsWith(bits, OpStart) then Ok(FrameFor(OpStart, bits))
    else if StartsWith(bits, OpStartAlt) then Ok(FrameFor(OpStartAlt, bits))
    else if StartsWith(bits, OpStop) then Ok(FrameFor(OpStop, bits))
    else if StartsWith(bits, OpSingle0) then Ok(FrameFor(OpSingle0, bits))
    else if StartsWith(bits, OpSingle1) then Ok(FrameFor(OpSingle1, bits))
    else if StartsWith(bits, OpSingle2) then Ok(FrameFor(OpSingle2, bits))
    else if StartsWith(bits, OpMultiple0) then Ok(FrameFor(OpMultiple0, bits))
    else if StartsWith(bits, OpMultiple1) then Ok(FrameFor(OpMultiple1, bits))
    else if StartsWith(bits, OpMultiple2) then Ok(FrameFor(OpMultiple2, bits))
    else if StartsWith(bits, OpRepeat0) then Ok(FrameFor(OpRepeat0, bits))
    else if StartsWith(bits, OpRepeat1) then Ok(FrameFor(OpRepeat1, bits))
    else if StartsWith(bits, OpFiller) then Ok(FrameFor(OpFiller, bits))
    else if StartsWith(bits, OpSync) then Ok(FrameFor(OpSync, bits))
    else Err(NoOpcode)
  }

  /** A slice of at most `k` bits reads as a value below 2^k. */
  lemma FrameSlices(bits: seq<Bit>)
    ensures forall lo: nat, hi: nat | lo <= hi :: BitsToNat(Slice(bits, lo, hi)) < Pow2(hi - lo)
  {
    forall lo: nat, hi: nat | lo <= hi
      ensures BitsToNat(Slice(bits, lo, hi)) < Pow2(hi - lo)
    {
      Pow2Monotone(|Slice(bits, lo, hi)|, hi - lo);
    }
  }

  // ---------------------------------------------------------------------
  // Encoding, the inverse of decoding on well-formed frames

  /** The 8-bit mask naming the indices `idx`: index `i` sets position `7 - i`. */
  function MaskBits(idx: seq<nat>): (m: seq<Bit>)
    ensures |m| == 8
    ensures forall p | 0 <= p < 8 :: m[p] == 1 <==> 7 - p in idx
  {
    seq(8, p requires 0 <= p < 8 => if 7 - p in idx then 1 else 0)
  }

  /** Two strictly decreasing lists with the same elements are equal. */
  lemma {:induction false} DecreasingUnique(a: seq<nat>, b: seq<nat>)
    requires StrictlyDecreasing(a) && StrictlyDecreasing(b)
    requires forall x :: x in a <==> x in b
    ensures a == b
  {
    HeadIsLargest(a);
    HeadIsLargest(b);
    if |a| > 0 && |b| > 0 {
      assert a[0] == b[0];
      forall x
        ensures x in a[1..] <==> x in b[1..]
      {
        TailMembers(a, x);
        TailMembers(b, x);
      }
      DecreasingUnique(a[1..], b[1..]);
      assert a == [a[0]] + a[1..] && b == [b[0]] + b[1..];
    }
  }

  /** The first element of a strictly decreasing list is in it and is its
      largest element. */
  lemma HeadIsLargest(s: seq<nat>)
    requires StrictlyDecreasing(s)
    ensures |s| > 0 ==> s[0] in s && forall x | x in s :: x <= s[0]
  {
  }

  /** The tail of a strictly decreasing list holds every element but the head. */
  lemma TailMembers(s: seq<nat>, x: nat)
    requires StrictlyDecreasing(s) && |s| > 0
    ensures x in s[1..] <==> x in s && x != s[0]
  {
    if x in s[1..] {
      var k :| 0 <= k < |s| - 1 && s[1..][k] == x;
      assert s[k + 1] == x;
    }
    if x in s && x != s[0] {
      var k :| 0 <= k < |s| && s[k] == x;
      assert s[1..][k - 1] == x;
    }
  }

  /** Reading a mask built from valid indices gives those indices back. */
  lemma MaskRoundTrip(idx: seq<nat>)
    requires ValidMask(idx)
    ensures MaskIndices(MaskBits(idx)) == idx
  {
    var m := MaskBits(idx);
    forall x
      ensures x in MaskIndices(m) <==> x in idx
    {
      if x in idx {
        var k :| 0 <= k < |idx| && idx[k] == x;
        assert m[7 - x] == 1;
      }
    }
    DecreasingUnique(MaskIndices(m), idx);
  }

  /** The bits a tile emits for a frame: opcode, then the fields, with the
      unused bits of Stop left clear. */
  function Encode(f: Frame<nat>): (bits: seq<Bit>)
    ensures |bits| == Width(f)
  {
    match f
    case Start(t) => Pattern(OpStart) + NatToBits(t, 56)
    case Stop(c) => Pattern(OpStop) + Zeros(10) + NatToBits(c, 16)
    case Single0(e, c) => Pattern(OpSingle0) + NatToBits(e, 3) + NatToBits(c, 4)
    case Single1(e, c) => Pattern(OpSingle1) + NatToBits(e, 3) + NatToBits(c, 10)
    case Single2(e, c) => Pattern(OpSingle2) + NatToBits(e, 3) + NatToBits(c, 18)
    case Multiple0(es, c) => Pattern(OpMultiple0) + MaskBits(es) + NatToBits(c, 4)
    case Multiple1(es, c) => Pattern(OpMultiple1) + MaskBits(es) + NatToBits(c, 10)
    case Multiple2(es, c) => Pattern(OpMultiple2) + MaskBits(es) + NatToBits(c, 18)
    case Repeat0(n) => Pattern(OpRepeat0) + NatToBits(n, 4)
    case Repeat1(n) => Pattern(OpRepeat1) + NatToBits(n, 10)
    case Filler => Pattern(OpFiller)
    case Sync => Pattern(OpSync)
  }

  /** The opcode `Encode` writes for a frame. */
  function OpcodeOf(f: Frame<nat>): OpCode {
    match f
    case Start(_) => OpStart
    case Stop(_) => OpStop
    case Single0(_, _) => OpSingle0
    case Single1(_, _) => OpSingle1
    case Single2(_, _) => OpSingle2
    case Multiple0(_, _) => OpMultiple0
    case Multiple1(_, _) => OpMultiple1
    case Multiple2(_, _) => OpMultiple2
    case Repeat0(_) => OpRepeat0
    case Repeat1(_) => OpRepeat1
    case Filler => OpFiller
    case Sync => OpSync
  }

  lemma Parts(a: seq<Bit>, b: seq<Bit>, c: seq<Bit>, rest: seq<Bit>)
    ensures Slice(a + b + c + rest, 0, |a|) == a
    ensures Slice(a + b + c + rest, |a|, |a| + |b|) == b
    ensures Slice(a + b + c + rest, |a| + |b|, |a| + |b| + |c|) == c
  {
    var x := a + b + c + rest;
    if |a| > 0 {
      assert x[..|a|] == a;
    }
    if |b| > 0 {
      assert x[|a|..|a| + |b|] == b;
    }
    if |c| > 0 {
      assert x[|a| + |b|..|a| + |b| + |c|] == c;
    }
  }

  /** A field written with `NatToBits` reads back as its value. */
  lemma FieldAt(x: seq<Bit>, lo: nat, hi: nat, v: nat)
    requires lo <= hi && v < Pow2(hi - lo)
    requires Slice(x, lo, hi) == NatToBits(v, hi - lo)
    ensures BitsToNat(Slice(x, lo, hi)) == v
  {
    NatToBitsValue(v, hi - lo);
  }

  /** Decoding reads back a frame when its opcode leads the bits and the
      fields at its slices are the frame's fields. */
  lemma Settle(x: seq<Bit>, op: OpCode, f: Frame<nat>)
    requires StartsWith(x, op) && FrameFor(op, x) == f
    ensures DecodeFrame(x) == Ok(f)
  {
  }

  /** A mask written with `MaskBits` reads back as its indices. */
  lemma MaskAt(x: seq<Bit>, lo: nat, es: seq<nat>)
    requires ValidMask(es)
    requires Slice(x, lo, lo + 8) == MaskBits(es)
    ensures MaskIndices(Slice(x, lo, lo + 8)) == es
  {
    MaskRoundTrip(es);
  }

  lemma LeadingPart(p: seq<Bit>, tail: seq<Bit>)
    ensures Slice(p + tail, 0, |p|) == p
  {
    if |p| > 0 {
      assert (p + tail)[..|p|] == p;
    }
  }

  lemma MaskPart(p: seq<Bit>, es: seq<nat>, tail: seq<Bit>)
    requires ValidMask(es)
    ensures MaskIndices(Slice(p + MaskBits(es) + tail, |p|, |p| + 8)) == es
  {
    var x := p + MaskBits(es) + tail;
    assert x[|p|..|p| + 8] == MaskBits(es);
    MaskAt(x, |p|, es);
  }

  lemma FieldPart(p: seq<Bit>, v: nat, k: nat, tail: seq<Bit>)
    requires v < Pow2(k)
    ensures BitsToNat(Slice(p + NatToBits(v, k) + tail, |p|, |p| + k)) == v
  {
    var x := p + NatToBits(v, k) + tail;
    if k > 0 {
      assert x[|p|..|p| + k] == NatToBits(v, k);
    }
    FieldAt(x, |p|, |p| + k, v);
  }

  lemma EncodedStart(t: nat, rest: seq<Bit>)
    requires t < 0x100_0000_0000_0000
    ensures StartsWith(Encode(Start(t)) + rest, OpStart)
    ensures FrameFor(OpStart, Encode(Start(t)) + rest) == Start(t)
  {
    var x := Encode(Start(t)) + rest;
    TimerPower();
    Parts(Pattern(OpStart), NatToBits(t, 56), [], rest);
    assert x == Pattern(OpStart) + NatToBits(t, 56) + [] + rest;
    FieldAt(x, 8, 64, t);
  }

  lemma EncodedStop(c: nat, rest: seq<Bit>)
    requires c < 0x1_0000
    ensures StartsWith(Encode(Stop(c)) + rest, OpStop)
    ensures FrameFor(OpStop, Encode(Stop(c)) + rest) == Stop(c)
  {
    var x := Encode(Stop(c)) + rest;
    SmallPowers();
    Parts(Pattern(OpStop), Zeros(10), NatToBits(c, 16), rest);
    FieldAt(x, 16, 32, c);
  }

  lemma EncodedSingle0(e: nat, c: nat, rest: seq<Bit>)
    requires e < 8 && c < 16
    ensures StartsWith(Encode(Single0(e, c)) + rest, OpSingle0)
    ensures FrameFor(OpSingle0, Encode(Single0(e, c)) + rest) == Single0(e, c)
  {
    var x := Encode(Single0(e, c)) + rest;
    SmallPowers();
    Parts(Pattern(OpSingle0), NatToBits(e, 3), NatToBits(c, 4), rest);
    FieldAt(x, 1, 4, e);
    FieldAt(x, 4, 8, c);
  }

  lemma EncodedSingle1(e: nat, c: nat, rest: seq<Bit>)
    requires e < 8 && c < 1024
    ensures StartsWith(Encode(Single1(e, c)) + rest, OpSingle1)
    ensures FrameFor(OpSingle1, Encode(Single1(e, c)) + rest) == Single1(e, c)
  {
    var x := Encode(Single1(e, c)) + rest;
    SmallPowers();
    Parts(Pattern(OpSingle1), NatToBits(e, 3), NatToBits(c, 10), rest);
    FieldAt(x, 3, 6, e);
    FieldAt(x, 6, 16, c);
  }

  lemma EncodedSingle2(e: nat, c: nat, rest: seq<Bit>)
    requires e < 8 && c < 0x4_0000
    ensures StartsWith(Encode(Single2(e, c)) + rest, OpSingle2)
    ensures FrameFor(OpSingle2, Encode(Single2(e, c)) + rest) == Single2(e, c)
  {
    var x := Encode(Single2(e, c)) + rest;
    SmallPowers();
    Parts(Pattern(OpSingle2), NatToBits(e, 3), NatToBits(c, 18), rest);
    FieldAt(x, 3, 6, e);
    FieldAt(x, 6, 24, c);
  }

  lemma MultipleFields0(es: seq<nat>, c: nat, rest: seq<Bit>)
    requires ValidMask(es) && c < 16
    ensures StartsWith(Encode(Multiple0(es, c)) + rest, OpMultiple0)
    ensures MaskIndices(Slice(Encode(Multiple0(es, c)) + rest, 4, 12)) == es
    ensures BitsToNat(Slice(Encode(Multiple0(es, c)) + rest, 12, 16)) == c
  {
    var p := Pattern(OpMultiple0);
    var m := MaskBits(es);
    var n := NatToBits(c, 4);
    var x := Encode(Multiple0(es, c)) + rest;
    assert x == (p + m) + (n + rest);
    assert x == (p + m) + n + rest;
    assert x == p + (m + n + rest);
    SmallPowers();
    LeadingPart(p, m + n + rest);
    MaskPart(p, es, n + rest);
    FieldPart(p + m, c, 4, rest);
  }


  lemma MultipleFrame0(x: seq<Bit>, es: seq<nat>, c: nat)
    requires MaskIndices(Slice(x, 4, 12)) == es && BitsToNat(Slice(x, 12, 16)) == c
    ensures FrameFor(OpMultiple0, x) == Multiple0(es, c)
  {
  }

  lemma EncodedMultiple0(es: seq<nat>, c: nat, rest: seq<Bit>)
    requires ValidMask(es) && c < 16
    ensures StartsWith(Encode(Multiple0(es, c)) + rest, OpMultiple0)
    ensures FrameFor(OpMultiple0, Encode(Multiple0(es, c)) + rest) == Multiple0(es, c)
  {
    MultipleFields0(es, c, rest);
    MultipleFrame0(Encode(Multiple0(es, c)) + rest, es, c);
  }

  lemma MultipleFields1(es: seq<nat>, c: nat, rest: seq<Bit>)
    requires ValidMask(es) && c < 1024
    ensures StartsWith(Encode(Multiple1(es, c)) + rest, OpMultiple1)
    ensures MaskIndices(Slice(Encode(Multiple1(es, c)) + rest, 6, 14)) == es
    ensures BitsToNat(Slice(Encode(Multiple1(es, c)) + rest, 14, 24)) == c
  {
    var p := Pattern(OpMultiple1);
    var m := MaskBits(es);
    var n := NatToBits(c, 10);
    var x := Encode(Multiple1(es, c)) + rest;
    assert x == (p + m) + (n + rest);
    assert x == (p + m) + n + rest;
    assert x == p + (m + n + rest);
    SmallPowers();
    LeadingPart(p, m + n + rest);
    MaskPart(p, es, n + rest);
    FieldPart(p + m, c, 10, rest);
  }


  lemma MultipleFrame1(x: seq<Bit>, es: seq<nat>, c: nat)
    requires MaskIndices(Slice(x, 6, 14)) == es && BitsToNat(Slice(x, 14, 24)) == c
    ensures FrameFor(OpMultiple1, x) == Multiple1(es, c)
  {
  }

  lemma EncodedMultiple1(es: seq<nat>, c: nat, rest: seq<Bit>)
    requires ValidMask(es) && c < 1024
    ensures StartsWith(Encode(Multiple1(es, c)) + rest, OpMultiple1)
    ensures FrameFor(OpMultiple1, Encode(Multiple1(es, c)) + rest) == Multiple1(es, c)
  {
    MultipleFields1(es, c, rest);
    MultipleFrame1(Encode(Multiple1(es, c)) + rest, es, c);
  }

  lemma MultipleFields2(es: seq<nat>, c: nat, rest: seq<Bit>)
    requires ValidMask(es) && c < 0x4_0000
    ensures StartsWith(Encode(Multiple2(es, c)) + rest, OpMultiple2)
    ensures MaskIndices(Slice(Encode(Multiple2(es, c)) + rest, 6, 14)) == es
    ensures BitsToNat(Slice(Encode(Multiple2(es, c)) + rest, 14, 32)) == c
  {
    var p := Pattern(OpMultiple2);
    var m := MaskBits(es);
    var n := NatToBits(c, 18);
    var x := Encode(Multiple2(es, c)) + rest;
    assert x == (p + m) + (n + rest);
    assert x == (p + m) + n + rest;
    assert x == p + (m + n + rest);
    SmallPowers();
    LeadingPart(p, m + n + rest);
    MaskPart(p, es, n + rest);
    FieldPart(p + m, c, 18, rest);
  }


  lemma MultipleFrame2(x: seq<Bit>, es: seq<nat>, c: nat)
    requires MaskIndices(Slice(x, 6, 14)) == es && BitsToNat(Slice(x, 14, 32)) == c
    ensures FrameFor(OpMultiple2, x) == Multiple2(es, c)
  {
  }

  lemma EncodedMultiple2(es: seq<nat>, c: nat, rest: seq<Bit>)
    requires ValidMask(es) && c < 0x4_0000
    ensures StartsWith(Encode(Multiple2(es, c)) + rest, OpMultiple2)
    ensures FrameFor(OpMultiple2, Encode(Multiple2(es, c)) + rest) == Multiple2(es, c)
  {
    MultipleFields2(es, c, rest);
    MultipleFrame2(Encode(Multiple2(es, c)) + rest, es, c);
  }

  lemma EncodedRepeat0(n: nat, rest: seq<Bit>)
    requires n < 16
    ensures StartsWith(Encode(Repeat0(n)) + rest, OpRepeat0)
    ensures FrameFor(OpRepeat0, Encode(Repeat0(n)) + rest) == Repeat0(n)
  {
    var x := Encode(Repeat0(n)) + rest;
    SmallPowers();
    Parts(Pattern(OpRepeat0), NatToBits(n, 4), [], rest);
    assert x == Pattern(OpRepeat0) + NatToBits(n, 4) + [] + rest;
    FieldAt(x, 4, 8, n);
  }

  lemma EncodedRepeat1(n: nat, rest: seq<Bit>)
    requires n < 1024
    ensures StartsWith(Encode(Repeat1(n)) + rest, OpRepeat1)
    ensures FrameFor(OpRepeat1, Encode(Repeat1(n)) + rest) == Repeat1(n)
  {
    var x := Encode(Repeat1(n)) + rest;
    SmallPowers();
    Parts(Pattern(OpRepeat1), NatToBits(n, 10), [], rest);
    assert x == Pattern(OpRepeat1) + NatToBits(n, 10) + [] + rest;
    FieldAt(x, 6, 16, n);
  }

  lemma EncodedMarker(op: OpCode, rest: seq<Bit>)
    requires op == OpFiller || op == OpSync
    ensures StartsWith(Pattern(op) + rest, op)
  {
    assert (Pattern(op) + rest)[..|Pattern(op)|] == Pattern(op);
  }

  /** Decoding the encoding of a well-formed frame, whatever follows it,
      gives the frame back. */
  lemma DecodeEncode(f: Frame<nat>, rest: seq<Bit>)
    requires Encodable(f)
    ensures DecodeFrame(Encode(f) + rest) == Ok(f)
  {
    var x := Encode(f) + rest;
    match f {
      case Start(t) => EncodedStart(t, rest); Settle(x, OpStart, f);
      case Stop(c) => EncodedStop(c, rest); Settle(x, OpStop, f);
      case Single0(e, c) => EncodedSingle0(e, c, rest); Settle(x, OpSingle0, f);
      case Single1(e, c) => EncodedSingle1(e, c, rest); Settle(x, OpSingle1, f);
      case Single2(e, c) => EncodedSingle2(e, c, rest); Settle(x, OpSingle2, f);
      case Multiple0(es, c) => EncodedMultiple0(es, c, rest); Settle(x, OpMultiple0, f);
      case Multiple1(es, c) => EncodedMultiple1(es, c, rest); Settle(x, OpMultiple1, f);
      case Multiple2(es, c) => EncodedMultiple2(es, c, rest); Settle(x, OpMultiple2, f);
      case Repeat0(n) => EncodedRepeat0(n, rest); Settle(x, OpRepeat0, f);
      case Repeat1(n) => EncodedRepeat1(n, rest); Settle(x, OpRepeat1, f);
      case Filler => EncodedMarker(OpFiller, rest); Settle(x, OpFiller, f);
      case Sync => EncodedMarker(OpSync, rest); Settle(x, OpSync, f);
    }
  }

  // ---------------------------------------------------------------------
  // Streams

  /** Bits consumed by a frame sequence. */
  function Consumed<L>(fs: seq<Frame<L>>): (n: nat)
    ensures n % 8 == 0
  {
    if |fs| == 0 then 0 else Width(fs[0]) + Consumed(fs[1..])
  }

  /** `parse_frames_bitvector`: decode a frame at the head, skip its width
      (`bits[f.bits:]`, empty if the frame ran past the end) and go on. */
  function DecodeAll(bits: seq<Bit>): (r: Result<seq<Frame<nat>>>)
    ensures r.Err? ==> r.error == NoOpcode
    ensures r.Ok? ==> (|r.value| == 0 <==> |bits| == 0)
    ensures r.Ok? && |r.value| > 0 ==>
              Consumed(r.value) - Width(r.value[|r.value| - 1]) < |bits| <= Consumed(r.value)
    ensures r.Ok? ==> forall i | 0 <= i < |r.value| :: Encodable(r.value[i])
    decreases |bits|
  {
    if |bits| == 0 then Ok([])
    else
      var f :- DecodeFrame(bits);
      var rest :- DecodeAll(Drop(bits, Width(f)));
      assert ([f] + rest)[1..] == rest;
      Ok([f] + rest)
  }

  /** A frame wider than the bits left is still produced, read from the
      shorter slices, and decoding stops after it without an error. */
  lemma TruncatedLastFrame(bits: seq<Bit>, f: Frame<nat>)
    requires |bits| > 0 && DecodeFrame(bits) == Ok(f) && Width(f) >= |bits|
    ensures DecodeAll(bits) == Ok([f])
  {
    var none: seq<Frame<nat>> := [];
    NothingLeft(bits, Width(f));
    DecodeAllCons(bits, f, none);
    assert [f] + none == [f];
  }

  lemma NothingLeft(bits: seq<Bit>, w: nat)
    requires w >= |bits|
    ensures DecodeAll(Drop(bits, w)) == Ok([])
  {
    assert Drop(bits, w) == [];
  }

  /** One step of the stream decoder, read forwards. */
  lemma DecodeAllCons(bits: seq<Bit>, f: Frame<nat>, rest: seq<Frame<nat>>)
    requires |bits| > 0 && DecodeFrame(bits) == Ok(f)
    requires DecodeAll(Drop(bits, Width(f))) == Ok(rest)
    ensures DecodeAll(bits) == Ok([f] + rest)
  {
  }

  lemma DropDrop<T>(s: seq<T>, a: nat, b: nat)
    ensures Drop(Drop(s, a), b) == Drop(s, a + b)
  {
    if a + b < |s| {
      assert s[a..][b..] == s[a + b..];
    }
  }

  /** Decoding only moves forward: frame `i` is what one decode step reads
      exactly where the frames before it end. */
  /** One step of the stream decoder, read backwards from its result. */
  lemma DecodeAllStep(bits: seq<Bit>, fs: seq<Frame<nat>>)
    requires DecodeAll(bits) == Ok(fs) && |fs| > 0
    ensures DecodeFrame(bits) == Ok(fs[0])
    ensures DecodeAll(Drop(bits, Width(fs[0]))) == Ok(fs[1..])
  {
    var f := DecodeFrame(bits);
    var rest := DecodeAll(Drop(bits, Width(f.value)));
    assert ([f.value] + rest.value)[1..] == rest.value;
  }

  lemma ConsumedPrefix<L>(fs: seq<Frame<L>>, i: nat)
    requires 0 < i <= |fs|
    ensures Consumed(fs[..i]) == Width(fs[0]) + Consumed(fs[1..][..i - 1])
  {
    assert fs[..i][1..] == fs[1..][..i - 1];
  }

  lemma {:induction false} FramesAtCursor(bits: seq<Bit>, fs: seq<Frame<nat>>)
    requires DecodeAll(bits) == Ok(fs)
    ensures forall i | 0 <= i < |fs| :: DecodeFrame(Drop(bits, Consumed(fs[..i]))) == Ok(fs[i])
    decreases |bits|
  {
    if |fs| > 0 {
      DecodeAllStep(bits, fs);
      FramesAtCursor(Drop(bits, Width(fs[0])), fs[1..]);
      forall i | 0 <= i < |fs|
        ensures DecodeFrame(Drop(bits, Consumed(fs[..i]))) == Ok(fs[i])
      {
        if i == 0 {
          assert Drop(bits, 0) == bits;
        } else {
          CursorShift(bits, fs, i);
          assert fs[1..][i - 1] == fs[i];
        }
      }
    }
  }

  /** The cursor of frame `i` is one head frame past the cursor of frame
      `i - 1` in the stream after that head. */
  lemma CursorShift<L>(bits: seq<Bit>, fs: seq<Frame<L>>, i: nat)
    requires 0 < i <= |fs|
    ensures Drop(bits, Consumed(fs[..i])) == Drop(Drop(bits, Width(fs[0])), Consumed(fs[1..][..i - 1]))
  {
    ConsumedPrefix(fs, i);
    DropDrop(bits, Width(fs[0]), Consumed(fs[1..][..i - 1]));
  }



  function EncodeAll(fs: seq<Frame<nat>>): (bits: seq<Bit>)
    requires forall i | 0 <= i < |fs| :: Encodable(fs[i])
    ensures |bits| == Consumed(fs)
  {
    if |fs| == 0 then [] else Encode(fs[0]) + EncodeAll(fs[1..])
  }

  /** A stream of well-formed frames decodes to exactly those frames, and
      they consume exactly the stream's bits. */
  lemma {:induction false} StreamRoundTrip(fs: seq<Frame<nat>>)
    requires forall i | 0 <= i < |fs| :: Encodable(fs[i])
    ensures DecodeAll(EncodeAll(fs)) == Ok(fs)
    ensures |EncodeAll(fs)| == Consumed(fs)
  {
    if |fs| > 0 {
      var bits := EncodeAll(fs);
      var head := Encode(fs[0]);
      var tail := EncodeAll(fs[1..]);
      DecodeEncode(fs[0], tail);
      assert Drop(bits, Width(fs[0])) == tail;
      StreamRoundTrip(fs[1..]);
      assert fs == [fs[0]] + fs[1..];
    }
  }

  // ---------------------------------------------------------------------
  // Event labels

  /** `attempt_event_label`: an index inside the configured list becomes
      that name; any other index stays a raw number. It never fails. */
  function ResolveLabel(e: nat, events: seq<string>): (l: Label)
    ensures l.Name? <==> e < |events|
    ensures l.Name? ==> l.name == events[e]
    ensures l.Raw? ==> l.index == e
  {
    if e >= |events| then Raw(e) else Name(events[e])
  }

  predicate Distinct(events: seq<string>) {
    forall i, j | 0 <= i < j < |events| :: events[i] != events[j]
  }

  /** With distinct names, different indices resolve to different labels. */
  lemma ResolveInjective(a: nat, b: nat, events: seq<string>)
    requires Distinct(events)
    requires ResolveLabel(a, events) == ResolveLabel(b, events)
    ensures a == b
  {
  }

  /** `events_list_from_bitvector` on a mask's indices: one label per set
      bit, in the mask's position order. The labels are the names at the
      indices inside the list and, as raw numbers, the indices past its end. */
  function ResolveMask(idx: seq<nat>, events: seq<string>): (r: seq<Label>)
    ensures |r| == |idx|
    ensures forall i | 0 <= i < |idx| :: r[i] == ResolveLabel(idx[i], events)
    ensures forall x: nat :: Raw(x) in r <==> x in idx && x >= |events|
    ensures forall n :: Name(n) in r <==> exists e | e in idx :: e < |events| && events[e] == n
  {
    seq(|idx|, i requires 0 <= i < |idx| => ResolveLabel(idx[i], events))
  }

  /** With distinct names, the labels a multiple-event frame reports
      determine the eight mask bits they were read from. */
  lemma {:induction false} MaskLabelsDetermineMask(a: seq<Bit>, b: seq<Bit>, events: seq<string>)
    requires |a| == 8 && |b| == 8 && Distinct(events)
    requires ResolveMask(MaskIndices(a), events) == ResolveMask(MaskIndices(b), events)
    ensures a == b
  {
    var ia, ib := MaskIndices(a), MaskIndices(b);
    forall i | 0 <= i < |ia|
      ensures ia[i] == ib[i]
    {
      assert ResolveMask(ia, events)[i] == ResolveMask(ib, events)[i];
      ResolveInjective(ia[i], ib[i], events);
    }
    assert ia == ib;
    forall p | 0 <= p < 8
      ensures a[p] == b[p]
    {
      assert 7 - (7 - p) == p;
      assert a[p] == 1 <==> 7 - p in ia;
      assert b[p] == 1 <==> 7 - p in ib;
    }
  }

  function Resolve(f: Frame<nat>, events: seq<string>): Frame<Label> {
    match f
    case Start(t) => Start(t)
    case Stop(c) => Stop(c)
    case Single0(e, c) => Single0(ResolveLabel(e, events), c)
    case Single1(e, c) => Single1(ResolveLabel(e, events), c)
    case Single2(e, c) => Single2(ResolveLabel(e, events), c)
    case Multiple0(es, c) => Multiple0(ResolveMask(es, events), c)
    case Multiple1(es, c) => Multiple1(ResolveMask(es, events), c)
    case Multiple2(es, c) => Multiple2(ResolveMask(es, events), c)
    case Repeat0(n) => Repeat0(n)
    case Repeat1(n) => Repeat1(n)
    case Filler => Filler
    case Sync => Sync
  }

  function ResolveAll(fs: seq<Frame<nat>>, events: seq<string>): (r: seq<Frame<Label>>)
    ensures |r| == |fs|
  {
    seq(|fs|, i requires 0 <= i < |fs| => Resolve(fs[i], events))
  }

  lemma AppendAssoc<T>(a: seq<T>, b: seq<T>, c: seq<T>)
    ensures a + (b + c) == (a + b) + c
  {
  }

  lemma ResolveAllCons(f: Frame<nat>, fs: seq<Frame<nat>>, events: seq<string>)
    ensures ResolveAll([f] + fs, events) == [Resolve(f, events)] + ResolveAll(fs, events)
  {
    var l := ResolveAll([f] + fs, events);
    var r := [Resolve(f, events)] + ResolveAll(fs, events);
    forall i | 0 <= i < |l|
      ensures l[i] == r[i]
    {
      if i > 0 {
        assert ([f] + fs)[i] == fs[i - 1];
      }
    }
  }

  /** The frames of one buffer, as the recursive descent defines them. */
  function FramesOf(words: seq<nat>, events: seq<string>): Result<seq<Frame<Label>>> {
    var raw :- DecodeAll(WordsToBits(words));
    Ok(ResolveAll(raw, events))
  }

  /** Frames already produced, followed by those of the remaining bits. */
  function Continue(done: seq<Frame<Label>>, r: Result<seq<Frame<nat>>>, events: seq<string>): Result<seq<Frame<Label>>> {
    match r
    case Ok(fs) => Ok(done + ResolveAll(fs, events))
    case Err(e) => Err(e)
  }

  lemma ContinueFromStart(words: seq<nat>, events: seq<string>)
    ensures FramesOf(words, events) == Continue([], DecodeAll(WordsToBits(words)[0..]), events)
  {
    assert WordsToBits(words)[0..] == WordsToBits(words);
    var d := DecodeAll(WordsToBits(words));
    if d.Ok? {
      assert [] + ResolveAll(d.value, events) == ResolveAll(d.value, events);
    }
  }

  /** One loop step in terms of the recursive definition: a frame that
      decodes moves from the remaining stream to the frames produced, and a
      failure is the failure of the whole buffer. */
  lemma ContinueStep(done: seq<Frame<Label>>, bits: seq<Bit>, events: seq<string>)
    requires |bits| > 0
    ensures DecodeFrame(bits).Err? ==>
              Continue(done, DecodeAll(bits), events) == Err(DecodeFrame(bits).error)
    ensures DecodeFrame(bits).Ok? ==>
              var f := DecodeFrame(bits).value;
              Continue(done, DecodeAll(bits), events)
              == Continue(done + [Resolve(f, events)], DecodeAll(Drop(bits, Width(f))), events)
  {
    var d := DecodeFrame(bits);
    if d.Ok? {
      var rest := DecodeAll(Drop(bits, Width(d.value)));
      if rest.Ok? {
        assert DecodeAll(bits) == Ok([d.value] + rest.value);
        ResolveAllCons(d.value, rest.value, events);
        var head := [Resolve(d.value, events)];
        AppendAssoc(done, head, ResolveAll(rest.value, events));
      } else {
        assert DecodeAll(bits) == Err(rest.error);
      }
    }
  }

  /** The frames produced so far, followed by those decoded from the
      cursor on. */
  function Remaining(done: seq<Frame<Label>>, bits: seq<Bit>, cursor: nat, events: seq<string>): Result<seq<Frame<Label>>>
    requires cursor <= |bits|
  {
    Continue(done, DecodeAll(bits[cursor..]), events)
  }

  /** One iteration of the cursor loop: the frame at the cursor moves to the
      frames produced and the cursor moves past it, clamped to the end. */
  lemma CursorStep(done: seq<Frame<Label>>, bits: seq<Bit>, cursor: nat, events: seq<string>, f: Frame<nat>)
    requires cursor < |bits| && DecodeFrame(bits[cursor..]) == Ok(f)
    ensures Remaining(done, bits, cursor, events)
            == Remaining(done + [Resolve(f, events)], bits, Min(cursor + Width(f), |bits|), events)
  {
    ContinueStep(done, bits[cursor..], events);
    assert Drop(bits[cursor..], Width(f)) == bits[Min(cursor + Width(f), |bits|)..];
  }

  /** A cursor where no opcode matches fails the whole buffer. */
  lemma CursorFails(done: seq<Frame<Label>>, bits: seq<Bit>, cursor: nat, events: seq<string>)
    requires cursor < |bits| && DecodeFrame(bits[cursor..]).Err?
    ensures Remaining(done, bits, cursor, events) == Err(DecodeFrame(bits[cursor..]).error)
  {
    ContinueStep(done, bits[cursor..], events);
  }

  /** At the start, nothing is produced and the whole stream remains. */
  lemma CursorStart(words: seq<nat>, events: seq<string>)
    ensures FramesOf(words, events) == Remaining([], WordsToBits(words), 0, events)
  {
    ContinueFromStart(words, events);
  }

  /** At the end, nothing remains. */
  lemma NothingAfterCursor(done: seq<Frame<Label>>, bits: seq<Bit>, events: seq<string>)
    ensures Remaining(done, bits, |bits|, events) == Ok(done)
  {
    assert DecodeAll(bits[|bits|..]) == Ok([]);
    assert done + ResolveAll([], events) == done;
  }

  /** `parse_frames`, as a loop over a bit cursor instead of recursion: the
      frames the recursive definition gives, starting from an empty list. */
  method ParseFrames(words: seq<nat>, events: seq<string>) returns (r: Result<seq<Frame<Label>>>)
    ensures r == FramesOf(words, events)
  {
    var bits := WordsToBits(words);
    var cursor := 0;
    var frames: seq<Frame<Label>> := [];
    CursorStart(words, events);
    while cursor < |bits|
      invariant cursor <= |bits|
      invariant FramesOf(words, events) == Remaining(frames, bits, cursor, events)
      decreases |bits| - cursor
    {
      var f := DecodeFrame(bits[cursor..]);
      if f.Err? {
        CursorFails(frames, bits, cursor, events);
        return Err(f.error);
      }
      CursorStep(frames, bits, cursor, events, f.value);
      frames := frames + [Resolve(f.value, events)];
      cursor := Min(cursor + Width(f.value), |bits|);
    }
    NothingAfterCursor(frames, bits, events);
    r := Ok(frames);
  }

}
