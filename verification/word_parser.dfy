/** Turning the textual trace into packets: token cleanup, header bit
    fields, the parity flag and the split into groups of eight words. */
module WordParser {
  import opened Results
  import opened Bits
  import opened Digits
  import opened Packets

  // ---------------------------------------------------------------------
  // Bit fields

  /** Python's `a & b` on non-negative integers, one bit at a time from the
      least significant end. */
  function BitAnd(a: nat, b: nat): (r: nat)
    ensures r <= b
    decreases a
  {
    if a == 0 || b == 0 then 0
    else 2 * BitAnd(a / 2, b / 2) + (if a % 2 == 1 && b % 2 == 1 then 1 else 0)
  }

  /** Masking with 2^w - 1 keeps exactly the low `w` bits. */
  lemma {:induction false} AndLowMask(x: nat, w: nat)
    ensures BitAnd(x, Pow2(w) - 1) == x % Pow2(w)
  {
    if w == 0 {
      assert Pow2(w) == 1;
      DivModUnique(x, 1, x, 0);
    } else if x == 0 {
      DivModUnique(0, Pow2(w), 0, 0);
    } else {
      var m := Pow2(w) - 1;
      MaskHalves(w);
      AndOddStep(x, m);
      AndLowMask(x / 2, w - 1);
      ModPow2Step(x, w);
    }
  }

  /** 2^w - 1 for positive `w` is odd and halves to 2^(w-1) - 1. */
  lemma MaskHalves(w: nat)
    requires w > 0
    ensures (Pow2(w) - 1) % 2 == 1 && (Pow2(w) - 1) / 2 == Pow2(w - 1) - 1
  {
  }

  /** The low `w` bits of `x` are its lowest bit below the low `w - 1` bits of `x / 2`. */
  lemma ModPow2Step(x: nat, w: nat)
    requires w > 0
    ensures x % Pow2(w) == 2 * ((x / 2) % Pow2(w - 1)) + x % 2
  {
    var p := Pow2(w - 1);
    var h, l := x / 2, x % 2;
    HalveWithBit(h, l, p);
    assert x == 2 * h + l;
    assert Pow2(w) == 2 * p;
  }

  /** `x & 0x1` is the lowest bit of `x`. */
  lemma AndOne(x: nat)
    ensures BitAnd(x, 1) == x % 2
  {
    if x > 0 {
      assert BitAnd(x / 2, 0) == 0;
    }
  }

  /** Against an odd mask the lowest bit survives and the rest is the
      conjunction of the halves. */
  lemma AndOddStep(x: nat, m: nat)
    requires m % 2 == 1
    ensures BitAnd(x, m) == 2 * BitAnd(x / 2, m / 2) + x % 2
  {
  }

  /** `extract_bits(number, start, end)`: bits `start` to `end` inclusive. */
  function ExtractBits(number: nat, start: nat, end: nat): (r: nat)
    requires start <= end + 1
    ensures r == ShiftRight(number, start) % Pow2(end - start + 1)
    ensures r < Pow2(end - start + 1)
  {
    var shifted := ShiftRight(number, start);
    var width := end - start + 1;
    AndLowMask(shifted, width);
    BitAnd(shifted, Pow2(width) - 1)
  }

  // ---------------------------------------------------------------------
  // Parity

  /** The low `k` bits of `word`, least significant first. */
  function LowBits(word: nat, k: nat): (r: seq<Bit>)
    ensures |r| == k
  {
    seq(k, i requires 0 <= i < k => ShiftRight(word, i) % 2)
  }

  function Xor(a: Bit, b: Bit): Bit {
    if a == b then 0 else 1
  }

  /** The running value of the parity loop after bits 0 .. i-1. */
  function ParityFold(word: nat, i: nat): (val: Bit)
    ensures val == Ones(LowBits(word, i)) % 2
  {
    if i == 0 then 0
    else
      var prev := ParityFold(word, i - 1);
      var bit := BitAnd(ShiftRight(word, i - 1), 1);
      ParityStep(word, i, prev, bit);
      Xor(prev, bit)
  }

  /** One more bit: the count of ones grows by that bit, which `& 0x1` reads. */
  lemma ParityStep(word: nat, i: nat, prev: Bit, bit: nat)
    requires i > 0
    requires prev == Ones(LowBits(word, i - 1)) % 2
    requires bit == BitAnd(ShiftRight(word, i - 1), 1)
    ensures bit < 2 && Xor(prev, bit) == Ones(LowBits(word, i)) % 2
  {
    var low := LowBits(word, i);
    assert low[..i - 1] == LowBits(word, i - 1);
    AndOne(ShiftRight(word, i - 1));
    assert bit == low[i - 1];
    var n := Ones(LowBits(word, i - 1));
    assert Ones(low) == n + bit;
  }

  /** `parity_check_header`: odd parity over the low 32 bits. */
  function ParityCheckHeader(word: nat): (valid: bool)
    ensures valid <==> Ones(LowBits(word, 32)) % 2 == 1
  {
    ParityFold(word, 32) == 1
  }

  // ---------------------------------------------------------------------
  // Headers

  /** `parse_header`: fields from fixed bit ranges; a type code of 4..7 is
      not a `PacketType` and fails. */
  function ParseHeader(word: nat): (r: Result<PacketHeader>)
    ensures r.Ok? <==> (word / 4096) % 8 < 4
    ensures r.Err? ==> r.error == BadPacketType((word / 4096) % 8)
    ensures r.Ok? ==> r.value.id == word % 32 && r.value.id < 32
    ensures r.Ok? ==> TypeCode(r.value.ptype) == (word / 4096) % 8
    ensures r.Ok? ==> r.value.row == (word / 65536) % 32 && r.value.row < 32
    ensures r.Ok? ==> r.value.col == (word / 2097152) % 128 && r.value.col < 128
    ensures r.Ok? ==> r.value.valid == ParityCheckHeader(word)
  {
    Pow2Values();
    var code := ExtractBits(word, 12, 14);
    match TypeFromCode(code)
    case None => Err(BadPacketType(code))
    case Some(t) =>
      Ok(PacketHeader(
           id := ExtractBits(word, 0, 4),
           ptype := t,
           row := ExtractBits(word, 16, 20),
           col := ExtractBits(word, 21, 27),
           valid := ParityCheckHeader(word)))
  }

  lemma Pow2Values()
    ensures Pow2(0) == 1 && Pow2(1) == 2 && Pow2(3) == 8 && Pow2(5) == 32 && Pow2(7) == 128
    ensures Pow2(12) == 4096 && Pow2(16) == 65536 && Pow2(21) == 2097152
  {
    assert Pow2(3) == 8;
    assert Pow2(5) == 32;
    assert Pow2(7) == 128;
    assert Pow2(10) == 1024;
    assert Pow2(12) == 4096;
    assert Pow2(14) == 16384;
    assert Pow2(16) == 65536;
    assert Pow2(18) == 262144;
    assert Pow2(20) == 1048576;
  }

  /** The header word a tile would emit for the given fields (all other
      bits clear). */
  function HeaderWord(id: nat, t: PacketType, row: nat, col: nat): nat {
    id + TypeCode(t) * 4096 + row * 65536 + col * 2097152
  }

  /** Parsing recovers every field of a header word. */
  lemma HeaderRoundTrip(id: nat, t: PacketType, row: nat, col: nat)
    requires id < 32 && row < 32 && col < 128
    ensures ParseHeader(HeaderWord(id, t, row, col))
            == Ok(PacketHeader(id, t, row, col, ParityCheckHeader(HeaderWord(id, t, row, col))))
  {
    var c := TypeCode(t);
    var w := HeaderWord(id, t, row, col);
    DivModUnique(w, 32, c * 128 + row * 2048 + col * 65536, id);
    DivModUnique(w, 4096, c + row * 16 + col * 512, id);
    DivModUnique(c + row * 16 + col * 512, 8, row * 2 + col * 64, c);
    DivModUnique(w, 65536, row + col * 32, id + c * 4096);
    DivModUnique(row + col * 32, 32, col, row);
    DivModUnique(w, 2097152, col, id + c * 4096 + row * 65536);
    DivModUnique(col, 128, 0, col);
    assert w % 32 == id && (w / 4096) % 8 == c;
    assert (w / 65536) % 32 == row && (w / 2097152) % 128 == col;
    var r := ParseHeader(w);
    TypeCodeRoundTrip(r.value.ptype, t);
  }

  // ---------------------------------------------------------------------
  // Tokens

  /** Every token read in `base`, or nothing if one of them is not a number. */
  function ParseAll(tokens: seq<string>, base: nat): (r: Option<seq<nat>>)
    ensures r.Some? <==> forall i | 0 <= i < |tokens| :: ParseDigits(tokens[i], base).Some?
    ensures r.Some? ==> |r.value| == |tokens|
    ensures r.Some? ==> forall i | 0 <= i < |tokens| :: Some(r.value[i]) == ParseDigits(tokens[i], base)
  {
    if |tokens| == 0 then Some([])
    else
      match ParseDigits(tokens[0], base)
      case None => None
      case Some(v) =>
        match ParseAll(tokens[1..], base)
        case None =>
          None
        case Some(vs) =>
          Some([v] + vs)
  }

  /** The tokens that survive the end-of-file check: the last one is dropped
      exactly when it is not a decimal number. */
  function KeptTokens(tokens: seq<string>): (kept: seq<string>)
    requires |tokens| > 0
    ensures |kept| == |tokens| || |kept| == |tokens| - 1
    ensures |kept| == |tokens| - 1 <==> ParseDecimal(tokens[|tokens| - 1]).None?
    ensures kept == tokens[..|kept|]
  {
    if ParseDecimal(tokens[|tokens| - 1]).None? then tokens[..|tokens| - 1] else tokens
  }

  /** `words_cleanup`: drop a trailing artifact, then read every token as
      decimal, or, if any one fails that, every token as hexadecimal. */
  function WordsCleanup(tokens: seq<string>): (r: Result<seq<nat>>)
    ensures |tokens| == 0 ==> r == Err(EmptyTokenList)
    ensures |tokens| > 0 ==>
              (r.Ok? <==> ParseAll(KeptTokens(tokens), 10).Some? || ParseAll(KeptTokens(tokens), 16).Some?)
    ensures r.Err? && |tokens| > 0 ==> r.error == NotAnInteger
    ensures r.Ok? ==> |r.value| == |KeptTokens(tokens)|
    ensures r.Ok? && ParseAll(KeptTokens(tokens), 10).Some? ==>
              forall i | 0 <= i < |r.value| :: Some(r.value[i]) == ParseDecimal(tokens[i])
    ensures r.Ok? && ParseAll(KeptTokens(tokens), 10).None? ==>
              forall i | 0 <= i < |r.value| :: Some(r.value[i]) == ParseHex(tokens[i])
  {
    if |tokens| == 0 then Err(EmptyTokenList)
    else
      var kept := KeptTokens(tokens);
      match ParseAll(kept, 10)
      case Some(words) => Ok(words)
      case None =>
        match ParseAll(kept, 16)
        case Some(words) => Ok(words)
        case None => Err(NotAnInteger)
  }

  function RenderAll(words: seq<nat>): (tokens: seq<string>)
    ensures |tokens| == |words|
    ensures forall i | 0 <= i < |words| :: tokens[i] == ToDecimal(words[i])
  {
    if |words| == 0 then [] else [ToDecimal(words[0])] + RenderAll(words[1..])
  }

  /** A file of decimal words, one per line, ending in a non-numeric
      artifact such as the empty string after the last newline, cleans up to
      exactly those words. */
  lemma CleanupOfRenderedWords(words: seq<nat>, artifact: string)
    requires ParseDecimal(artifact).None?
    ensures WordsCleanup(RenderAll(words) + [artifact]) == Ok(words)
  {
    var tokens := RenderAll(words) + [artifact];
    assert KeptTokens(tokens) == RenderAll(words);
    forall i | 0 <= i < |words|
      ensures ParseDigits(RenderAll(words)[i], 10) == Some(words[i])
    {
      DecimalRoundTrip(words[i]);
    }
    var r := ParseAll(RenderAll(words), 10);
    assert r.Some?;
    assert r.value == words;
  }

  // ---------------------------------------------------------------------
  // Packets

  /** Number of eight-word groups covering `n` words, the last one possibly short. */
  function PacketCount(n: nat): nat {
    (n + 7) / 8
  }

  /** Header of the `k`-th group. */
  function HeaderAt(words: seq<nat>, k: nat): Result<PacketHeader>
    requires k < PacketCount(|words|)
  {
    ParseHeader(words[8 * k])
  }

  /** Payload of the `k`-th group: the slice `[8k+1 : 8k+7]`, six words at
      most; the group's eighth word belongs to no payload. */
  function PayloadAt(words: seq<nat>, k: nat): seq<nat> {
    Slice(words, 8 * k + 1, 8 * k + 7)
  }

  /** The body of `parse_packets` over already cleaned words. */
  function SplitPackets(words: seq<nat>): (r: Result<seq<TracePacket>>)
    ensures r.Ok? <==> forall k | 0 <= k < PacketCount(|words|) :: HeaderAt(words, k).Ok?
    ensures r.Err? ==> r.error.BadPacketType?
    ensures r.Ok? ==> |r.value| == PacketCount(|words|)
    ensures r.Ok? ==> forall k | 0 <= k < |r.value| ::
              && Ok(r.value[k].header) == HeaderAt(words, k)
              && r.value[k].dwords == PayloadAt(words, k)
              && |r.value[k].dwords| <= 6
    decreases |words|
  {
    if |words| == 0 then Ok([])
    else
      SplitFails(words);
      var header :- ParseHeader(words[0]);
      var rest :- SplitPackets(Drop(words, 8));
      SplitStep(words, header, rest);
      Ok([TracePacket(header, Slice(words, 1, 7))] + rest)
  }

  /** Putting the first group in front of the packets of the remaining groups
      gives the packets of all groups. */
  lemma SplitStep(words: seq<nat>, header: PacketHeader, rest: seq<TracePacket>)
    requires |words| > 0 && ParseHeader(words[0]) == Ok(header)
    requires |rest| == PacketCount(|Drop(words, 8)|)
    requires forall k | 0 <= k < |rest| ::
               && Ok(rest[k].header) == HeaderAt(Drop(words, 8), k)
               && rest[k].dwords == PayloadAt(Drop(words, 8), k)
               && |rest[k].dwords| <= 6
    ensures var r := [TracePacket(header, Slice(words, 1, 7))] + rest;
            && |r| == PacketCount(|words|)
            && forall k | 0 <= k < |r| ::
                 && Ok(r[k].header) == HeaderAt(words, k)
                 && r[k].dwords == PayloadAt(words, k)
                 && |r[k].dwords| <= 6
  {
    ShiftedGroups(words);
    var first := TracePacket(header, Slice(words, 1, 7));
    var r := [first] + rest;
    forall k | 0 <= k < |r|
      ensures Ok(r[k].header) == HeaderAt(words, k)
      ensures r[k].dwords == PayloadAt(words, k)
    {
      ConsAt(first, rest, k);
    }
  }

  lemma ConsAt<T>(x: T, rest: seq<T>, k: nat)
    requires k <= |rest|
    ensures ([x] + rest)[k] == if k == 0 then x else rest[k - 1]
  {
  }

  /** A header fails exactly when some group's header fails. */
  lemma SplitFails(words: seq<nat>)
    requires |words| > 0
    ensures (forall k | 0 <= k < PacketCount(|words|) :: HeaderAt(words, k).Ok?)
            <==> ParseHeader(words[0]).Ok?
                 && forall k | 0 <= k < PacketCount(|Drop(words, 8)|) :: HeaderAt(Drop(words, 8), k).Ok?
  {
    ShiftedGroups(words);
    if ParseHeader(words[0]).Ok? && forall k | 0 <= k < PacketCount(|Drop(words, 8)|) :: HeaderAt(Drop(words, 8), k).Ok? {
      forall k | 0 <= k < PacketCount(|words|)
        ensures HeaderAt(words, k).Ok?
      {
        if k == 0 {
          assert HeaderAt(words, 0) == ParseHeader(words[0]);
        } else {
          assert HeaderAt(words, k) == HeaderAt(Drop(words, 8), k - 1);
        }
      }
    }
    if forall k | 0 <= k < PacketCount(|words|) :: HeaderAt(words, k).Ok? {
      assert HeaderAt(words, 0).Ok?;
      forall k | 0 <= k < PacketCount(|Drop(words, 8)|)
        ensures HeaderAt(Drop(words, 8), k).Ok?
      {
        assert HeaderAt(words, k + 1).Ok?;
      }
    }
  }

  /** Group `k + 1` of `words` is group `k` of `words[8:]`. */
  lemma ShiftedGroups(words: seq<nat>)
    requires |words| > 0
    ensures PacketCount(|words|) == 1 + PacketCount(|Drop(words, 8)|)
    ensures forall k | 0 <= k < PacketCount(|Drop(words, 8)|) ::
              HeaderAt(Drop(words, 8), k) == HeaderAt(words, k + 1)
    ensures forall k: nat :: PayloadAt(Drop(words, 8), k) == PayloadAt(words, k + 1)
  {
    ShiftedHeaders(words);
    forall k: nat
      ensures PayloadAt(Drop(words, 8), k) == PayloadAt(words, k + 1)
    {
      ShiftedPayload(words, k);
    }
  }

  lemma ShiftedHeaders(words: seq<nat>)
    requires |words| > 0
    ensures PacketCount(|words|) == 1 + PacketCount(|Drop(words, 8)|)
    ensures forall k | 0 <= k < PacketCount(|Drop(words, 8)|) ::
              HeaderAt(Drop(words, 8), k) == HeaderAt(words, k + 1)
  {
  }

  lemma ShiftedPayload(words: seq<nat>, k: nat)
    ensures PayloadAt(Drop(words, 8), k) == PayloadAt(words, k + 1)
  {
    var tail := Drop(words, 8);
    if 8 * k + 9 < |words| {
      assert tail[8 * k + 1..Min(8 * k + 7, |tail|)] == words[8 * k + 9..Min(8 * k + 15, |words|)];
    }
  }

  /** `parse_packets`: cleanup, then one packet per group of eight words.
      The loop runs over the length of the cleaned list, because cleanup
      pops the artifact from the caller's own list. */
  function ParsePackets(tokens: seq<string>): (r: Result<seq<TracePacket>>)
    ensures r.Ok? <==> WordsCleanup(tokens).Ok? && SplitPackets(WordsCleanup(tokens).value).Ok?
    ensures r.Ok? ==> |r.value| == PacketCount(|WordsCleanup(tokens).value|)
  {
    var words :- WordsCleanup(tokens);
    SplitPackets(words)
  }
}
