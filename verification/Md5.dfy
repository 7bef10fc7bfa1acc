/**
 MD5 (src/md5calc.c) against RFC 1321: the padding loop against sections 3.1 and 3.2, the single loop over rotated
 registers against the four explicit rounds of section 3.4.
 */
module Md5 {
  import opened ByteStrings
  import Numerals

  datatype Four<W> = Regs(a: W, b: W, c: W, d: W)
  type Regs = Four<bv32>

  const INIT: Regs := Regs(0x67452301, 0xefcdab89, 0x98badcfe, 0x10325476)

  /** T[1..64] of section 3.4: the integer part of 4294967296 * abs(sin(i)), counted from 0. */
  function Sine(i: nat): bv32 {
    match i {
      case 0 => 0xd76aa478 case 1 => 0xe8c7b756 case 2 => 0x242070db case 3 => 0xc1bdceee
      case 4 => 0xf57c0faf case 5 => 0x4787c62a case 6 => 0xa8304613 case 7 => 0xfd469501
      case 8 => 0x698098d8 case 9 => 0x8b44f7af case 10 => 0xffff5bb1 case 11 => 0x895cd7be
      case 12 => 0x6b901122 case 13 => 0xfd987193 case 14 => 0xa679438e case 15 => 0x49b40821
      case 16 => 0xf61e2562 case 17 => 0xc040b340 case 18 => 0x265e5a51 case 19 => 0xe9b6c7aa
      case 20 => 0xd62f105d case 21 => 0x02441453 case 22 => 0xd8a1e681 case 23 => 0xe7d3fbc8
      case 24 => 0x21e1cde6 case 25 => 0xc33707d6 case 26 => 0xf4d50d87 case 27 => 0x455a14ed
      case 28 => 0xa9e3e905 case 29 => 0xfcefa3f8 case 30 => 0x676f02d9 case 31 => 0x8d2a4c8a
      case 32 => 0xfffa3942 case 33 => 0x8771f681 case 34 => 0x6d9d6122 case 35 => 0xfde5380c
      case 36 => 0xa4beea44 case 37 => 0x4bdecfa9 case 38 => 0xf6bb4b60 case 39 => 0xbebfbc70
      case 40 => 0x289b7ec6 case 41 => 0xeaa127fa case 42 => 0xd4ef3085 case 43 => 0x04881d05
      case 44 => 0xd9d4d039 case 45 => 0xe6db99e5 case 46 => 0x1fa27cf8 case 47 => 0xc4ac5665
      case 48 => 0xf4292244 case 49 => 0x432aff97 case 50 => 0xab9423a7 case 51 => 0xfc93a039
      case 52 => 0x655b59c3 case 53 => 0x8f0ccc92 case 54 => 0xffeff47d case 55 => 0x85845dd1
      case 56 => 0x6fa87e4f case 57 => 0xfe2ce6e0 case 58 => 0xa3014314 case 59 => 0x4e0811a1
      case 60 => 0xf7537e82 case 61 => 0xbd3af235 case 62 => 0x2ad7d2bb case _ => 0xeb86d391
    }
  }

  /** Shift amounts per round, repeating every four operations. */
  function Shift(round: nat, j: nat): (s: nat)
    ensures s < 32
  {
    if round == 0 then (match j case 0 => 7 case 1 => 12 case 2 => 17 case _ => 22)
    else if round == 1 then (match j case 0 => 5 case 1 => 9 case 2 => 14 case _ => 20)
    else if round == 2 then (match j case 0 => 4 case 1 => 11 case 2 => 16 case _ => 23)
    else (match j case 0 => 6 case 1 => 10 case 2 => 15 case _ => 21)
  }

  /** Circular left shift, "X <<< s". */
  function Rol(x: bv32, s: nat): bv32
    requires s <= 32
  {
    (x << s) | (x >> (32 - s))
  }

  // ------------------------------------------------------------------------------------------------------
  // Section 3.4: four rounds of sixteen operations [abcd k s i], each naming the register it replaces

  /** The word k that operation j of a round uses, as the RFC lists it. */
  function WordOrder(round: nat, j: nat): (k: nat)
    requires j < 16
    ensures k < 16
  {
    if round == 0 then j
    else if round == 1 then match j {
      case 0 => 1 case 1 => 6 case 2 => 11 case 3 => 0
      case 4 => 5 case 5 => 10 case 6 => 15 case 7 => 4
      case 8 => 9 case 9 => 14 case 10 => 3 case 11 => 8
      case 12 => 13 case 13 => 2 case 14 => 7 case _ => 12
    }
    else if round == 2 then match j {
      case 0 => 5 case 1 => 8 case 2 => 11 case 3 => 14
      case 4 => 1 case 5 => 4 case 6 => 7 case 7 => 10
      case 8 => 13 case 9 => 0 case 10 => 3 case 11 => 6
      case 12 => 9 case 13 => 12 case 14 => 15 case _ => 2
    }
    else match j {
      case 0 => 0 case 1 => 7 case 2 => 14 case 3 => 5
      case 4 => 12 case 5 => 3 case 6 => 10 case 7 => 1
      case 8 => 8 case 9 => 15 case 10 => 6 case 11 => 13
      case 12 => 4 case 13 => 11 case 14 => 2 case _ => 9
    }
  }

  function Mix(round: nat, x: bv32, y: bv32, z: bv32): bv32 {
    if round == 0 then (x & y) | (!x & z)        // F
    else if round == 1 then (x & z) | (y & !z)   // G
    else if round == 2 then x ^ y ^ z            // H
    else y ^ (x | !z)                            // I
  }

  function Combine(f: bv32, word: bv32, a: bv32, sine: bv32, b: bv32, s: nat): bv32
    requires s < 32
  {
    b + Rol(f + word + a + sine, s)
  }

  /** a = b + ((a + Mix(b,c,d) + X[k] + T[i]) <<< s), the sum in the order the program adds it */
  function Operation(i: nat, k: nat, x: seq<bv32>, t: nat -> bv32, a: bv32, b: bv32, c: bv32, d: bv32): bv32
    requires i < 64 && k < 16 && |x| == 16
  {
    Combine(Mix(i / 16, b, c, d), x[k], a, t(i), b, Shift(i / 16, i % 4))
  }

  /** Operation i, in the RFC's order ABCD, DABC, CDAB, BCDA. */
  function RfcStep(i: nat, x: seq<bv32>, t: nat -> bv32, r: Regs): Regs
    requires i < 64 && |x| == 16
  {
    var k := WordOrder(i / 16, i % 16);
    match i % 4
    case 0 => r.(a := Operation(i, k, x, t, r.a, r.b, r.c, r.d))
    case 1 => r.(d := Operation(i, k, x, t, r.d, r.a, r.b, r.c))
    case 2 => r.(c := Operation(i, k, x, t, r.c, r.d, r.a, r.b))
    case _ => r.(b := Operation(i, k, x, t, r.b, r.c, r.d, r.a))
  }

  function RfcSteps(n: nat, x: seq<bv32>, t: nat -> bv32, r: Regs): Regs
    requires n <= 64 && |x| == 16
  {
    if n == 0 then r else RfcStep(n - 1, x, t, RfcSteps(n - 1, x, t, r))
  }

  function AddRegs(p: Regs, q: Regs): Regs {
    Regs(p.a + q.a, p.b + q.b, p.c + q.c, p.d + q.d)
  }

  function RfcBlock(r: Regs, x: seq<bv32>, t: nat -> bv32): Regs
    requires |x| == 16
  {
    AddRegs(r, RfcSteps(64, x, t, r))
  }

  /** What the program's registers A, B, C, D hold after i turns: the RFC's, rotated by i places. */
  function Rotated<W>(i: nat, r: Four<W>): Four<W> {
    match i % 4
    case 0 => r
    case 1 => Regs(r.d, r.a, r.b, r.c)
    case 2 => Regs(r.c, r.d, r.a, r.b)
    case _ => Regs(r.b, r.c, r.d, r.a)
  }

  /** The formula by which the loop picks a word, per round. */
  function LoopWord(i: nat): (k: nat)
    ensures k < 16
  {
    (if i < 16 then i else if i < 32 then 5 * i + 1 else if i < 48 then 3 * i + 5 else 7 * i) % 16
  }

  lemma LoopWordIsRfc(i: nat)
    requires i < 64
    ensures WordOrder(i / 16, i % 16) == LoopWord(i)
  {
    var j := i % 16;
    if i < 16 {
    } else if i < 32 {
      assert 5 * i + 1 == 16 * 5 + (5 * j + 1);
    } else if i < 48 {
      assert 3 * i + 5 == 32 * 3 + (3 * j + 5);
    } else {
      assert 7 * i == 48 * 7 + 7 * j;
    }
  }

  /** One turn of the loop: the new B comes from the old A, and the others move on by one. */
  function LoopStep(i: nat, x: seq<bv32>, t: nat -> bv32, r: Regs): Regs
    requires i < 64 && |x| == 16
  {
    Regs(r.d, Operation(i, LoopWord(i), x, t, r.a, r.b, r.c, r.d), r.b, r.c)
  }

  /** Replacing the RFC's register of operation i, seen through the rotation. */
  lemma RotateOne<W>(i: nat, r: Four<W>, v: W)
    ensures var q := Rotated(i, r);
            Regs(q.d, v, q.b, q.c) == Rotated(i + 1,
              match i % 4 case 0 => r.(a := v) case 1 => r.(d := v) case 2 => r.(c := v) case _ => r.(b := v))
  {
  }

  /** One turn of the rotated loop is the next operation of the RFC. */
  lemma LoopStepIsRfc(i: nat, x: seq<bv32>, t: nat -> bv32, r: Regs)
    requires i < 64 && |x| == 16
    ensures LoopStep(i, x, t, Rotated(i, r)) == Rotated(i + 1, RfcStep(i, x, t, r))
  {
    var q := Rotated(i, r);
    LoopWordIsRfc(i);
    RotateOne(i, r, Operation(i, LoopWord(i), x, t, q.a, q.b, q.c, q.d));
  }

  // The four selections as the program writes them.
  method SelectF(round: nat, B: bv32, C: bv32, D: bv32) returns (f: bv32)
    requires round == 0
    ensures f == Mix(round, B, C, D)
  {
    f := (B & C) | (!B & D);
  }

  method SelectG(round: nat, B: bv32, C: bv32, D: bv32) returns (f: bv32)
    requires round == 1
    ensures f == Mix(round, B, C, D)
  {
    f := (D & B) | (!D & C);
  }

  method SelectH(round: nat, B: bv32, C: bv32, D: bv32) returns (f: bv32)
    requires round == 2
    ensures f == Mix(round, B, C, D)
  {
    f := B ^ C ^ D;
  }

  method SelectI(round: nat, B: bv32, C: bv32, D: bv32) returns (f: bv32)
    requires round == 3
    ensures f == Mix(round, B, C, D)
  {
    f := C ^ (B | !D);
  }

  method Select(i: nat, B: bv32, C: bv32, D: bv32) returns (f: bv32)
    requires i < 64
    ensures f == Mix(i / 16, B, C, D)
  {
    if i < 16 {
      f := SelectF(i / 16, B, C, D);
    } else if i < 32 {
      f := SelectG(i / 16, B, C, D);
    } else if i < 48 {
      f := SelectH(i / 16, B, C, D);
    } else {
      f := SelectI(i / 16, B, C, D);
    }
  }

  /** One turn of the 64-turn loop. */
  method Turn(i: nat, X: array<bv32>, t: nat -> bv32, r: Regs) returns (q: Regs)
    requires i < 64 && X.Length == 16
    ensures q == LoopStep(i, X[..], t, r)
  {
    var f := Select(i, r.b, r.c, r.d);
    assert X[LoopWord(i)] == X[..][LoopWord(i)];
    q := Regs(r.d, Combine(f, X[LoopWord(i)], r.a, t(i), r.b, Shift(i / 16, i % 4)), r.b, r.c);
  }

  lemma NoSteps(x: seq<bv32>, t: nat -> bv32, r: Regs)
    requires |x| == 16
    ensures RfcSteps(0, x, t, r) == r
  {
  }

  lemma OneMoreStep(n: nat, x: seq<bv32>, t: nat -> bv32, r: Regs)
    requires n < 64 && |x| == 16
    ensures RfcSteps(n + 1, x, t, r) == RfcStep(n, x, t, RfcSteps(n, x, t, r))
  {
  }

  /** The 64-turn loop of md5_calculate, and the additions after it. */
  method Compress(Q: Regs, X: array<bv32>, t: nat -> bv32) returns (q: Regs)
    requires X.Length == 16
    ensures q == RfcBlock(Q, X[..], t)
  {
    hide RfcSteps;
    q := Q;
    var i := 0;
    NoSteps(X[..], t, Q);
    while i < 64
      invariant 0 <= i <= 64
      invariant q == Rotated(i, RfcSteps(i, X[..], t, Q))
    {
      OneMoreStep(i, X[..], t, Q);
      LoopStepIsRfc(i, X[..], t, RfcSteps(i, X[..], t, Q));
      q := Turn(i, X, t, q);
      i := i + 1;
    }
    q := AddRegs(Q, q);
  }

  // ------------------------------------------------------------------------------------------------------
  // Sections 3.1 and 3.2: padding and length

  /** The low eight bits of a char, as a word. */
  function ByteVal(c: char): bv32 {
    (c as int % 256) as bv32
  }

  /** Byte k of the padded message: the message, a 1 bit, then zeros. */
  function PaddedByte(m: Bytes, k: nat): bv32 {
    if k < |m| then ByteVal(m[k]) else if k == |m| then 0x80 else 0
  }

  function Padding(m: Bytes): nat -> bv32 {
    (k: nat) => PaddedByte(m, k)
  }

  /** The least length above |m| that is congruent to 56 modulo 64 bytes. */
  function PaddedLength(m: Bytes): (n: nat)
    ensures |m| < n <= |m| + 64 && n % 64 == 56
  {
    |m| + 1 + (55 - |m|) % 64
  }

  function ShiftLeft(x: bv32, s: nat): bv32
    requires s <= 32
  {
    x << s
  }

  function ShiftRight(x: bv32, s: nat): bv32
    requires s <= 32
  {
    x >> s
  }

  function OrByte(word: bv32, byte: bv32, n: nat): bv32
    requires n < 4
  {
    word | ShiftLeft(byte, 8 * n)
  }

  /** The first n bytes of the word at k, low-order byte first. */
  function PartWord(p: nat -> bv32, k: nat, n: nat): bv32
    requires n <= 4
  {
    if n == 0 then 0 else OrByte(PartWord(p, k, n - 1), p(k + n - 1), n - 1)
  }

  /** Word w of the message to digest; the last two words are the bit count, low-order word first. */
  function MessageWord(m: Bytes, bits: nat, w: nat): bv32 {
    if 4 * w < PaddedLength(m) then PartWord(Padding(m), 4 * w, 4)
    else if 4 * w == PaddedLength(m) then LowWord(bits)
    else LowWord(bits / 0x1_0000_0000)
  }

  function LowWord(n: nat): bv32 {
    (n % 0x1_0000_0000) as bv32
  }

  function BlockCount(m: Bytes): nat {
    (PaddedLength(m) + 8) / 64
  }

  function Block(m: Bytes, bits: nat, n: nat): (x: seq<bv32>)
    ensures |x| == 16
  {
    seq(16, j requires 0 <= j < 16 => MessageWord(m, bits, 16 * n + j))
  }

  /** The registers after n blocks. */
  function Digest(m: Bytes, bits: nat, t: nat -> bv32, n: nat): Regs
  {
    if n == 0 then INIT else RfcBlock(Digest(m, bits, t, n - 1), Block(m, bits, n - 1), t)
  }

  /** How many bytes of word j are among the first i bytes of a block. */
  function Have(i: nat, j: nat): (n: nat)
    ensures n <= 4
  {
    if i <= 4 * j then 0 else if i - 4 * j >= 4 then 4 else i - 4 * j
  }

  predicate Loaded(p: nat -> bv32, pos: nat, i: nat, x: seq<bv32>)
    requires |x| == 16
  {
    forall j :: 0 <= j < 16 ==> x[j] == PartWord(p, pos + 4 * j, Have(i, j))
  }

  lemma LoadedNext(p: nat -> bv32, pos: nat, i: nat, x: seq<bv32>)
    requires |x| == 16 && i < 64 && Loaded(p, pos, i, x)
    ensures Loaded(p, pos, i + 1, x[i / 4 := OrByte(x[i / 4], p(pos + i), i % 4)])
  {
    var w := i / 4;
    var y := x[w := OrByte(x[w], p(pos + i), i % 4)];
    forall j | 0 <= j < 16 ensures y[j] == PartWord(p, pos + 4 * j, Have(i + 1, j)) {
      assert x[j] == PartWord(p, pos + 4 * j, Have(i, j));
      if j == w {
        assert Have(i + 1, j) == Have(i, j) + 1 && Have(i, j) == i % 4;
      } else {
        assert Have(i + 1, j) == Have(i, j);
      }
    }
  }

  /** Every word of the block holds its four bytes. */
  predicate Complete(p: nat -> bv32, pos: nat, x: seq<bv32>)
    requires |x| == 16
  {
    forall j :: 0 <= j < 16 ==> x[j] == PartWord(p, pos + 4 * j, 4)
  }

  lemma OrZero(word: bv32, n: nat)
    requires n < 4
    ensures OrByte(word, 0, n) == word
  {
  }

  lemma {:induction false} ZeroTail(p: nat -> bv32, k: nat, n: nat)
    requires n <= 4 && forall i :: k + n <= i < k + 4 ==> p(i) == 0
    ensures PartWord(p, k, n) == PartWord(p, k, 4)
    decreases 4 - n
  {
    if n < 4 {
      OrZero(PartWord(p, k, n), n);
      ZeroTail(p, k, n + 1);
    }
  }

  lemma LoadedIsComplete(p: nat -> bv32, pos: nat, i: nat, x: seq<bv32>)
    requires |x| == 16 && i <= 64 && Loaded(p, pos, i, x)
    requires forall k :: pos + i <= k < pos + 64 ==> p(k) == 0
    ensures Complete(p, pos, x)
  {
    forall j | 0 <= j < 16 ensures x[j] == PartWord(p, pos + 4 * j, 4) {
      ZeroTail(p, pos + 4 * j, Have(i, j));
    }
  }

  /** X[i/4] |= byte << 8 * (i % 4) */
  method AddByte(ghost p: nat -> bv32, ghost pos: nat, i: nat, byte: bv32, X: array<bv32>)
    requires X.Length == 16 && i < 64 && Loaded(p, pos, i, X[..]) && byte == p(pos + i)
    modifies X
    ensures Loaded(p, pos, i + 1, X[..])
  {
    LoadedNext(p, pos, i, X[..]);
    ghost var x := X[..];
    X[i / 4] := OrByte(X[i / 4], byte, i % 4);
    assert X[..] == x[i / 4 := OrByte(x[i / 4], byte, i % 4)];
  }

  method ClearBlock(ghost p: nat -> bv32, ghost pos: nat, X: array<bv32>)
    requires X.Length == 16
    modifies X
    ensures Loaded(p, pos, 0, X[..])
  {
    var i := 0;
    while i < 16
      invariant 0 <= i <= 16 && forall j :: 0 <= j < i ==> X[j] == 0
    {
      X[i] := 0;
      i := i + 1;
    }
  }

  /** The first `n` of the remaining bytes, and the 1 bit when they are all that remains. */
  method LoadBytes(bytes: Bytes, pos: nat, n: nat, ghost p: nat -> bv32, X: array<bv32>)
    requires X.Length == 16 && n <= 64 && pos + n <= |bytes| && p == Padding(bytes)
    requires Loaded(p, pos, 0, X[..])
    modifies X
    ensures Loaded(p, pos, n, X[..])
  {
    var i := 0;
    while i < n
      invariant 0 <= i <= n && Loaded(p, pos, i, X[..])
    {
      AddByte(p, pos, i, ByteVal(bytes[pos + i]), X);
      i := i + 1;
    }
  }

  /** The block's message words, as far as they are not the length. */
  lemma WordOfBlock(m: Bytes, bits: nat, n: nat, j: nat, x: seq<bv32>)
    requires |x| == 16 && j < 16 && Complete(Padding(m), 64 * n, x) && 64 * n + 4 * j < PaddedLength(m)
    ensures x[j] == MessageWord(m, bits, 16 * n + j)
  {
    assert 4 * (16 * n + j) == 64 * n + 4 * j;
  }

  lemma LengthWords(m: Bytes, bits: nat, n: nat)
    requires 64 * n + 56 == PaddedLength(m)
    ensures MessageWord(m, bits, 16 * n + 14) == LowWord(bits)
    ensures MessageWord(m, bits, 16 * n + 15) == LowWord(bits / 0x1_0000_0000)
  {
  }

  lemma InnerBlock(m: Bytes, bits: nat, n: nat, x: seq<bv32>)
    requires |x| == 16 && Complete(Padding(m), 64 * n, x) && 64 * n + 64 <= PaddedLength(m)
    ensures x == Block(m, bits, n)
  {
    hide MessageWord, Padding, PaddedLength, Complete;
    forall j | 0 <= j < 16 ensures x[j] == MessageWord(m, bits, 16 * n + j) {
      WordOfBlock(m, bits, n, j, x);
    }
  }

  lemma LastBlock(m: Bytes, bits: nat, n: nat, x: seq<bv32>)
    requires |x| == 16 && Complete(Padding(m), 64 * n, x) && 64 * n + 56 == PaddedLength(m)
    ensures x[14 := LowWord(bits)][15 := LowWord(bits / 0x1_0000_0000)] == Block(m, bits, n)
  {
    LengthWords(m, bits, n);
    forall j | 0 <= j < 14 ensures x[j] == MessageWord(m, bits, 16 * n + j) {
      WordOfBlock(m, bits, n, j, x);
    }
  }

  // Where the padding loop stands before block n: bytes left to load, only the length left, or done.
  datatype Progress = More(pos: nat, count: nat) | LengthOnly | Done

  predicate ProgressAt(m: Bytes, n: nat, pr: Progress) {
    match pr
    case More(pos, count) => pos == 64 * n && pos + count == |m|
    case LengthOnly => 64 * n + 56 == PaddedLength(m) && |m| < 64 * n
    case Done => n == BlockCount(m)
  }

  /** One turn of the outer loop up to the compression: fills X and moves on. */
  method NextBlock(bytes: Bytes, bits: nat, pr: Progress, ghost n: nat, X: array<bv32>) returns (next: Progress)
    requires X.Length == 16 && !pr.Done? && ProgressAt(bytes, n, pr)
    modifies X
    ensures X[..] == Block(bytes, bits, n) && ProgressAt(bytes, n + 1, next)
    ensures next.More? ==> pr.More? && next.count < pr.count
    ensures next.LengthOnly? ==> pr.More?
  {
    ClearBlock(Padding(bytes), 64 * n, X);
    if pr.More? {
      if pr.count >= 64 {
        LoadFull(bytes, bits, pr.pos, n, X);
        next := More(pr.pos + 64, pr.count - 64);
      } else {
        next := LoadTail(bytes, bits, pr.pos, pr.count, n, X);
      }
    } else {
      LoadedIsComplete(Padding(bytes), 64 * n, 0, X[..]);
      StoreLength(bytes, bits, n, X);
      next := Done;
    }
  }

  method LoadFull(bytes: Bytes, ghost bits: nat, pos: nat, ghost n: nat, X: array<bv32>)
    requires X.Length == 16 && pos == 64 * n && pos + 64 <= |bytes| && Loaded(Padding(bytes), pos, 0, X[..])
    modifies X
    ensures X[..] == Block(bytes, bits, n)
  {
    LoadBytes(bytes, pos, 64, Padding(bytes), X);
    LoadedIsComplete(Padding(bytes), pos, 64, X[..]);
    InnerBlock(bytes, bits, n, X[..]);
  }

  /** The last bytes and the 1 bit; and the length, when it still fits into the block. */
  method LoadTail(bytes: Bytes, bits: nat, pos: nat, count: nat, ghost n: nat, X: array<bv32>) returns (next: Progress)
    requires X.Length == 16 && pos == 64 * n && pos + count == |bytes| && count < 64
    requires Loaded(Padding(bytes), pos, 0, X[..])
    modifies X
    ensures X[..] == Block(bytes, bits, n) && ProgressAt(bytes, n + 1, next) && !next.More?
  {
    LoadBytes(bytes, pos, count, Padding(bytes), X);
    AddByte(Padding(bytes), pos, count, 0x80, X);
    LoadedIsComplete(Padding(bytes), pos, count + 1, X[..]);
    TailLength(bytes, n, count);
    if count + 1 <= 56 {
      StoreLength(bytes, bits, n, X);
      next := Done;
    } else {
      InnerBlock(bytes, bits, n, X[..]);
      next := LengthOnly;
    }
  }

  lemma TailLength(m: Bytes, n: nat, count: nat)
    requires |m| == 64 * n + count && count < 64
    ensures PaddedLength(m) == if count < 56 then 64 * n + 56 else 64 * n + 120
    ensures BlockCount(m) == if count < 56 then n + 1 else n + 2
  {
  }

  method StoreLength(ghost bytes: Bytes, bits: nat, ghost n: nat, X: array<bv32>)
    requires X.Length == 16 && Complete(Padding(bytes), 64 * n, X[..]) && 64 * n + 56 == PaddedLength(bytes)
    modifies X
    ensures X[..] == Block(bytes, bits, n)
  {
    LastBlock(bytes, bits, n, X[..]);
    ghost var x := X[..];
    X[14] := LowWord(bits);
    X[15] := LowWord(bits / 0x1_0000_0000);
    assert X[..] == x[14 := LowWord(bits)][15 := LowWord(bits / 0x1_0000_0000)];
  }

  method DigestBytes(bytes: Bytes, bits: nat, t: nat -> bv32) returns (Q: Regs)
    ensures Q == Digest(bytes, bits, t, BlockCount(bytes))
  {
    Q := INIT;
    var X := new bv32[16];
    var pr := More(0, |bytes|);
    ghost var n := 0;
    while !pr.Done?
      invariant ProgressAt(bytes, n, pr) && Q == Digest(bytes, bits, t, n)
      decreases if pr.More? then pr.count + 2 else if pr.LengthOnly? then 1 else 0
    {
      pr := NextBlock(bytes, bits, pr, n, X);
      Q := Compress(Q, X, t);
      n := n + 1;
    }
  }

  /** sprintf "%02x" of one byte of a register. */
  function HexByte(q: bv32, j: nat): Bytes
    requires j < 4
  {
    var v := (ShiftRight(q, 8 * j) & 0xff) as nat;
    [Numerals.DigitChar(v / 16 % 16), Numerals.DigitChar(v % 16)]
  }

  function HexWord(q: bv32): (s: Bytes)
    ensures |s| == 8
  {
    HexByte(q, 0) + HexByte(q, 1) + HexByte(q, 2) + HexByte(q, 3)
  }

  function HexRegs(r: Regs): (s: Bytes)
    ensures |s| == 32
  {
    HexWord(r.a) + HexWord(r.b) + HexWord(r.c) + HexWord(r.d)
  }

  function HexDigest(m: Bytes, bits: nat, t: nat -> bv32): (s: Bytes)
    ensures |s| == 32
  {
    HexRegs(Digest(m, bits, t, BlockCount(m)))
  }

  /** The MD5 digest of RFC 1321, in hex: all blocks of the padded message with its full bit count. */
  function Md5Hex(m: Bytes): (s: Bytes)
    ensures |s| == 32
  {
    HexDigest(m, 8 * |m|, Sine)
  }

  method DigestWith(bytes: Bytes, bits: nat, t: nat -> bv32) returns (result: Bytes)
    ensures result == HexDigest(bytes, bits, t)
  {
    var Q := DigestBytes(bytes, bits, t);
    result := HexRegs(Q);
  }

  /** What the program computes: the bit count is taken in 32 bits. */
  function ProgramMd5(m: Bytes): (s: Bytes)
    ensures |s| == 32
  {
    HexDigest(m, 8 * |m| % 0x1_0000_0000, Sine)
  }

  method Md5Calculate(bytes: Bytes) returns (result: Bytes)
    ensures result == ProgramMd5(bytes)
  {
    result := DigestWith(bytes, 8 * |bytes| % 0x1_0000_0000, Sine);
  }

  lemma ProgramIsMd5(m: Bytes)
    requires |m| < 0x2000_0000
    ensures ProgramMd5(m) == Md5Hex(m)
  {
    BitCount(|m|);
  }

  lemma BitCount(n: nat)
    ensures n < 0x2000_0000 ==> 8 * n % 0x1_0000_0000 == 8 * n
  {
  }

  /** A digest is printed in hex digits only. */
  lemma DigestDigits(m: Bytes)
    ensures forall i :: 0 <= i < 32 ==> Numerals.DigitVal(ProgramMd5(m)[i], 16) >= 0
  {
    HexRegsDigits(Digest(m, 8 * |m| % 0x1_0000_0000, Sine, BlockCount(m)));
  }

  lemma TwoDigits(v: nat)
    ensures Numerals.DigitVal(Numerals.DigitChar(v / 16 % 16), 16) >= 0
    ensures Numerals.DigitVal(Numerals.DigitChar(v % 16), 16) >= 0
  {
    Numerals.DigitRoundTrip(v / 16 % 16, 16);
    Numerals.DigitRoundTrip(v % 16, 16);
  }

  /** The two digits of a byte read back as the byte: the registers are printed low-order byte first. */
  lemma HexByteReads(q: bv32, j: nat)
    requires j < 4
    ensures Numerals.ReadDigits(HexByte(q, j), 16, 0) == (ShiftRight(q, 8 * j) & 0xff) as nat
  {
    hide ShiftRight;
    var v := (ShiftRight(q, 8 * j) & 0xff) as nat;
    ByteRange(ShiftRight(q, 8 * j));
    TwoDigitsRead(v);
  }

  lemma ByteRange(x: bv32)
    ensures (x & 0xff) as nat < 256
  {
    assert x & 0xff <= 0xff;
  }

  lemma TwoDigitsRead(v: nat)
    requires v < 256
    ensures Numerals.ReadDigits([Numerals.DigitChar(v / 16 % 16), Numerals.DigitChar(v % 16)], 16, 0) == v
  {
    var high, low := Numerals.DigitChar(v / 16 % 16), Numerals.DigitChar(v % 16);
    Numerals.DigitRoundTrip(v / 16 % 16, 16);
    Numerals.DigitRoundTrip(v % 16, 16);
    assert [high, low][1..] == [low] && [low][1..] == [];
    assert Numerals.ReadDigits([low], 16, v / 16) == Numerals.ReadDigits([], 16, v / 16 * 16 + v % 16);
  }

  lemma HexByteDigits(q: bv32, j: nat)
    requires j < 4
    ensures forall i :: 0 <= i < 2 ==> Numerals.DigitVal(HexByte(q, j)[i], 16) >= 0
  {
    TwoDigits((ShiftRight(q, 8 * j) & 0xff) as nat);
  }

  lemma HexWordDigits(q: bv32)
    ensures forall i :: 0 <= i < 8 ==> Numerals.DigitVal(HexWord(q)[i], 16) >= 0
  {
    HexByteDigits(q, 0);
    HexByteDigits(q, 1);
    HexByteDigits(q, 2);
    HexByteDigits(q, 3);
  }

  lemma HexRegsDigits(r: Regs)
    ensures forall i :: 0 <= i < 32 ==> Numerals.DigitVal(HexRegs(r)[i], 16) >= 0
  {
    HexWordDigits(r.a);
    HexWordDigits(r.b);
    HexWordDigits(r.c);
    HexWordDigits(r.d);
  }

  lemma LastWord(m: Bytes, bits: nat)
    ensures Block(m, bits, BlockCount(m) - 1)[15] == LowWord(bits / 0x1_0000_0000)
  {
    assert 4 * (16 * (BlockCount(m) - 1) + 15) == PaddedLength(m) + 4;
  }

  lemma SmallWords(k: nat)
    requires 1 <= k < 8
    ensures LowWord(k) != LowWord(0)
  {
  }

  /** The blocks processed are those of the padded message exactly when the message is shorter than 2^29 bytes. */
  lemma BlocksExactIff(m: Bytes)
    requires |m| < 0x1_0000_0000
    ensures (forall n :: 0 <= n < BlockCount(m) ==> Block(m, 8 * |m| % 0x1_0000_0000, n) == Block(m, 8 * |m|, n))
        <==> |m| < 0x2000_0000
  {
    var bits := 8 * |m|;
    var low := bits % 0x1_0000_0000;
    LastWord(m, bits);
    LastWord(m, low);
    if |m| >= 0x2000_0000 {
      SmallWords(bits / 0x1_0000_0000);
      assert Block(m, low, BlockCount(m) - 1) != Block(m, bits, BlockCount(m) - 1);
    }
  }
}
