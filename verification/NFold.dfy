/**
  n-fold (section 5.1 of RFC 3961): the input is repeated to the least common
  multiple of the two lengths, copy `k` rotated right by 13k bits, and the
  `outLen`-byte pieces are added in ones' complement, the carry out of the
  top byte coming back in at the bottom.
 */
module NFold {
  import opened Arithmetic
  import opened Bytes

  // ------------------------------------------------------------ least common multiple

  function Gcd(a: nat, b: nat): (g: nat)
    ensures a > 0 || b > 0 ==> g > 0
    decreases b
  {
    if b == 0 then a else Gcd(b, a % b)
  }

  function Lcm(a: nat, b: nat): nat
    requires a > 0 || b > 0
  {
    a / Gcd(a, b) * b
  }

  lemma {:induction false} GcdFactors(a: nat, b: nat) returns (x: nat, y: nat)
    requires a > 0 || b > 0
    ensures a == x * Gcd(a, b) && b == y * Gcd(a, b)
    decreases b
  {
    if b == 0 {
      x, y := 1, 0;
    } else {
      var g, q := Gcd(a, b), a / b;
      var x', y' := GcdFactors(b, a % b);
      QuotientRemainder(a, b);
      Associate(q, x', g);
      Distribute(q * x', y', g);
      x, y := q * x' + y', x';
    }
  }

  /** Bezout coefficients, computed along Euclid's recursion. */
  lemma {:induction false} Bezout(a: nat, b: nat) returns (u: int, v: int)
    ensures u * a + v * b == Gcd(a, b)
    decreases b
  {
    if b == 0 {
      u, v := 1, 0;
    } else {
      var q := a / b;
      var u', v' := Bezout(b, a % b);
      QuotientRemainder(a, b);
      assert v' * a == v' * (q * b) + v' * (a % b);
      Associate(v', q, b);
      Distribute(u', v' * q, b);
      u, v := v', u' - v' * q;
    }
  }

  /** The length the loop runs to is a common multiple. */
  lemma LcmIsMultiple(a: nat, b: nat) returns (x: nat, y: nat)
    requires a > 0 && b > 0
    ensures Lcm(a, b) == x * b && Lcm(a, b) == y * a
    ensures 0 < x <= a && 0 < y && a / Gcd(a, b) == x
  {
    var g := Gcd(a, b);
    x, y := GcdFactors(a, b);
    DivModUnique(a, x, 0, g);
    Associate(x, y, g);
    Associate(y, x, g);
    MulAtLeast(g, x);
  }

  lemma GcdTimesLcm(a: nat, b: nat)
    requires a > 0 && b > 0
    ensures Gcd(a, b) * Lcm(a, b) == a * b && Lcm(a, b) > 0
  {
    var g := Gcd(a, b);
    var x, y := LcmIsMultiple(a, b);
    var a', b' := GcdFactors(a, b);
    DivModUnique(a, a', 0, g);
    Associate(g, a', b);
  }

  /** It divides every common multiple, so it is the least one. */
  lemma LcmIsLeast(a: nat, b: nat, m: nat) returns (k: nat)
    requires a > 0 && b > 0
    requires m % a == 0 && m % b == 0
    ensures m == k * Lcm(a, b)
  {
    GcdTimesLcm(a, b);
    var u, v := Bezout(a, b);
    var s, t := m / a, m / b;
    QuotientRemainder(m, a);
    QuotientRemainder(m, b);
    LcmScaled(a, b, m, u, v, s, t);
    k := DivideOut(Gcd(a, b), m, u * t + v * s, Lcm(a, b));
  }

  lemma DivideOut(g: nat, m: nat, j: int, lcm: nat) returns (k: nat)
    requires g > 0 && lcm > 0 && g * m == j * (g * lcm)
    ensures m == k * lcm
  {
    Associate(j, g, lcm);
    Associate(g, j, lcm);
    CancelFactor(g, m, j * lcm);
    if j < 0 {
      MulAtLeast(-j, lcm);
    }
    k := j;
  }

  lemma LcmScaled(a: nat, b: nat, m: nat, u: int, v: int, s: int, t: int)
    requires m == s * a && m == t * b
    ensures (u * a + v * b) * m == (u * t + v * s) * (a * b)
  {
    calc {
      (u * a + v * b) * m;
      { Distribute(u * a, v * b, m); }
      (u * a) * (t * b) + (v * b) * (s * a);
      { assert (u * a) * (t * b) == (u * t) * (a * b); assert (v * b) * (s * a) == (v * s) * (a * b); }
      (u * t) * (a * b) + (v * s) * (a * b);
      { Distribute(u * t, v * s, a * b); }
      (u * t + v * s) * (a * b);
    }
  }

  lemma CancelFactor(g: nat, x: int, y: int)
    requires g > 0 && g * x == g * y
    ensures x == y
  {
    if x > y {
      MulAtLeast(x - y, g);
      Distribute(x, y, g);
    } else if x < y {
      MulAtLeast(y - x, g);
      Distribute(y, x, g);
    }
  }

  // ------------------------------------------------------------ the rotated copies

  function InputBit(input: ByteString, src: nat): nat
    requires src / 8 < |input|
  {
    BitAt(input[src / 8], 7 - src % 8)
  }

  /** Eight consecutive bits, as given by `bit`, folded into a number. */
  function FoldBits(bit: nat -> nat, start: nat, n: nat): nat
  {
    if n == 0 then 0 else (2 * FoldBits(bit, start, n - 1) + bit(start + n - 1)) % 256
  }

  /** `byte_at`: byte `i` of the repeated, rotated input. */
  function ByteAt(input: ByteString, i: nat): (b: Byte)
    requires input != []
  {
    var inBits := 8 * |input|;
    var rot := (13 * (i / |input|)) % inBits;
    FoldBits(b => InputBit(input, (b + inBits - rot) % inBits), 8 * (i % |input|), 8)
  }

  /** The bits of a byte string, most significant first. */
  function Bits(s: ByteString): seq<nat>
  {
    seq(8 * |s|, b requires 0 <= b < 8 * |s| => InputBit(s, b))
  }

  function RotateRight(bits: seq<nat>, r: nat): seq<nat>
    requires r <= |bits|
  {
    bits[|bits| - r..] + bits[..|bits| - r]
  }

  function BitOr0(bits: seq<nat>): nat -> nat
  {
    (b: nat) => if b < |bits| then bits[b] else 0
  }

  function BytesOf(bits: seq<nat>): ByteString
    requires |bits| % 8 == 0
  {
    seq(|bits| / 8, p requires 0 <= p < |bits| / 8 =>
      FoldBits(BitOr0(bits), 8 * p, 8))
  }

  /** Copy `k`: the input rotated right by 13k bits. */
  function RotatedCopy(input: ByteString, k: nat): (c: ByteString)
    requires input != []
    ensures |c| == |input|
  {
    BytesOf(RotateRight(Bits(input), (13 * k) % (8 * |input|)))
  }

  function Copies(input: ByteString, m: nat): (s: ByteString)
    requires input != []
    ensures |s| == m * |input|
  {
    if m == 0 then [] else Copies(input, m - 1) + RotatedCopy(input, m - 1)
  }

  lemma {:induction false} FoldBitsAgree(f: nat -> nat, g: nat -> nat, start: nat, n: nat)
    requires forall b :: start <= b < start + n ==> f(b) == g(b)
    ensures FoldBits(f, start, n) == FoldBits(g, start, n)
  {
    if n > 0 {
      FoldBitsAgree(f, g, start, n - 1);
    }
  }

  lemma RotatedIndex(x: nat, n: nat)
    requires n > 0 && x < 2 * n
    ensures x % n == if x < n then x else x - n
  {
    if x < n {
      SmallMod(x, n);
    } else {
      DivModUnique(x, 1, x - n, n);
    }
  }

  /** A bit of the input picked `rot` places back is a bit of the rotated input. */
  lemma PickedIsRotated(input: ByteString, rot: nat, b: nat)
    requires b < 8 * |input| && rot < 8 * |input|
    ensures |RotateRight(Bits(input), rot)| == 8 * |input|
    ensures InputBit(input, (b + 8 * |input| - rot) % (8 * |input|)) == RotateRight(Bits(input), rot)[b]
  {
    RotatedIndex(b + 8 * |input| - rot, 8 * |input|);
  }

  lemma ByteIsRotated(input: ByteString, rot: nat, pos: nat)
    requires pos < |input| && rot < 8 * |input|
    ensures FoldBits(b => InputBit(input, (b + 8 * |input| - rot) % (8 * |input|)), 8 * pos, 8) ==
            FoldBits(BitOr0(RotateRight(Bits(input), rot)), 8 * pos, 8)
  {
    var f, g := b => InputBit(input, (b + 8 * |input| - rot) % (8 * |input|)), BitOr0(RotateRight(Bits(input), rot));
    forall b: nat | 8 * pos <= b < 8 * pos + 8 ensures f(b) == g(b) {
      PickedIsRotated(input, rot, b);
    }
    FoldBitsAgree(f, g, 8 * pos, 8);
  }

  /** Each byte the source computes bit by bit is a byte of a rotated copy. */
  lemma ByteAtIsRotated(input: ByteString, k: nat, pos: nat)
    requires pos < |input|
    ensures ByteAt(input, k * |input| + pos) == RotatedCopy(input, k)[pos]
  {
    DivModUnique(k * |input| + pos, k, pos, |input|);
    ByteIsRotated(input, (13 * k) % (8 * |input|), pos);
  }

  /** Of `n` bits folded, bit `k` from the right is the `k`-th last of them. */
  lemma {:induction false} BitOfFold(f: nat -> nat, start: nat, n: nat, k: nat)
    requires n <= 8 && forall b :: start <= b < start + n ==> f(b) <= 1
    ensures FoldBits(f, start, n) < Pow2(n)
    ensures k < n ==> BitAt(FoldBits(f, start, n), k) == f(start + n - 1 - k)
    decreases n
  {
    if n > 0 {
      var last := f(start + n - 1);
      BitOfFold(f, start, n - 1, if k > 0 then k - 1 else 0);
      EightBits();
      Pow2Grows(n, 8);
      assert FoldBits(f, start, n) == 2 * FoldBits(f, start, n - 1) + last;
    }
  }

  lemma {:induction false} Pow2Grows(n: nat, m: nat)
    requires n <= m
    ensures Pow2(n) <= Pow2(m)
    decreases m
  {
    if n < m {
      Pow2Grows(n, m - 1);
    }
  }

  predicate AreBits(bits: seq<nat>) { forall i :: 0 <= i < |bits| ==> bits[i] <= 1 }

  /** The bits of bytes made of bits. */
  lemma BitOfBytes(bits: seq<nat>, b: nat)
    requires |bits| % 8 == 0 && b < |bits| && AreBits(bits)
    ensures InputBit(BytesOf(bits), b) == bits[b]
  {
    var f, p := BitOr0(bits), b / 8;
    var i := b - 8 * p;
    assert i == b % 8 && 8 * p + 8 <= |bits|;
    BitOfFold(f, 8 * p, 8, 7 - i);
  }

  lemma RotatedAreBits(input: ByteString, rot: nat)
    requires rot < 8 * |input|
    ensures var r := RotateRight(Bits(input), rot); |r| == 8 * |input| && AreBits(r)
  {
    var r := RotateRight(Bits(input), rot);
    forall i | 0 <= i < |r| ensures r[i] <= 1 {
      PickedIsRotated(input, rot, i);
    }
  }

  /** Where the bit at `b` is picked from, if it was put `shift` places on. */
  lemma RoundTheEnd(b: nat, shift: nat, n: nat)
    requires b < n
    ensures var at := (b + shift) % n; (at + n - shift % n) % n == b
  {
    var rot := shift % n;
    QuotientRemainder(shift, n);
    ModOfCongruent(b + shift, b + rot, shift / n, n);
    RotatedIndex(b + rot, n);
    RotatedIndex((b + shift) % n + n - rot, n);
  }

  lemma CopyBitAt(input: ByteString, copy: ByteString, rot: nat, at: nat, b: nat, n: nat)
    requires n == 8 * |input| == 8 * |copy| && at < n && rot < n && copy == BytesOf(RotateRight(Bits(input), rot))
    requires (at + n - rot) % n == b
    ensures InputBit(copy, at) == InputBit(input, b)
  {
    RotatedAreBits(input, rot);
    PickedIsRotated(input, rot, at);
    BitOfBytes(RotateRight(Bits(input), rot), at);
  }

  /** Bit `b` of the input, most significant first, is bit `b + 13k` of copy `k`, counted round its end. */
  lemma CopyBits(input: ByteString, k: nat, b: nat, at: nat)
    requires b < 8 * |input| && at == (b + 13 * k) % (8 * |input|)
    ensures at < 8 * |RotatedCopy(input, k)| && InputBit(RotatedCopy(input, k), at) == InputBit(input, b)
  {
    var n := 8 * |input|;
    RoundTheEnd(b, 13 * k, n);
    CopyBitAt(input, RotatedCopy(input, k), (13 * k) % n, at, b, n);
  }

  /** The first `total` bytes of the endless repetition. */
  function Repeated(input: ByteString, total: nat): (s: ByteString)
    requires input != []
    ensures |s| == total
  {
    seq(total, i requires 0 <= i < total => ByteAt(input, i))
  }

  /** One more round of the input is one more rotated copy. */
  lemma RepeatedRound(input: ByteString, k: nat, before: nat)
    requires input != [] && before == k * |input|
    ensures Repeated(input, before + |input|) == Repeated(input, before) + RotatedCopy(input, k)
  {
    var more, copy := Repeated(input, before + |input|), RotatedCopy(input, k);
    forall pos | 0 <= pos < |input| ensures more[before + pos] == copy[pos] {
      ByteAtIsRotated(input, k, pos);
    }
    JoinedAt(more, Repeated(input, before), copy);
  }

  lemma JoinedAt(all: ByteString, front: ByteString, back: ByteString)
    requires |all| == |front| + |back|
    requires forall i :: 0 <= i < |front| ==> all[i] == front[i]
    requires forall i :: 0 <= i < |back| ==> all[|front| + i] == back[i]
    ensures all == front + back
  {
    assert forall i :: |front| <= i < |all| ==> all[i] == back[i - |front|] by {
      forall i | |front| <= i < |all| ensures all[i] == back[i - |front|] {
        assert all[|front| + (i - |front|)] == back[i - |front|];
      }
    }
  }

  lemma {:induction false} RepeatedIsCopies(input: ByteString, m: nat, total: nat)
    requires input != [] && total == m * |input|
    ensures Repeated(input, total) == Copies(input, m)
  {
    if m > 0 {
      var before := total - |input|;
      OneRoundLess(m, |input|, total);
      RepeatedIsCopies(input, m - 1, before);
      RepeatedRound(input, m - 1, before);
    }
  }

  lemma OneRoundLess(m: nat, len: nat, total: nat)
    requires m > 0 && total == m * len
    ensures total >= len && total - len == (m - 1) * len
  {
    Distribute(m, 1, len);
    MulAtLeast(m, len);
  }

  // ------------------------------------------------------------ ones' complement sums

  /** The sum of the columns: byte `i` weighs as much as in its `n`-byte piece. */
  function ColumnSum(s: ByteString, n: nat): nat
    requires n > 0
  {
    if s == [] then 0
    else
      var last := |s| - 1;
      ColumnSum(s[..last], n) + s[last] * Pow256(n - 1 - last % n)
  }

  /** Adding the carry out of `base` back in at the bottom until none is left. */
  function EndAround(v: nat, base: nat): (r: nat)
    requires base > 1
    ensures r < base
    ensures r == 0 <==> v == 0
    decreases v
  {
    if v < base then v
    else
      CarryShrinks(v, base);
      EndAround(v % base + v / base, base)
  }

  lemma CarryShrinks(v: nat, base: nat)
    requires base > 1 && v >= base
    ensures 0 < v % base + v / base < v
    ensures v == (v % base + v / base) + (v / base) * (base - 1)
  {
    var q, r := v / base, v % base;
    QuotientRemainder(v, base);
    assert q >= 1;
    Distribute(base, 1, q);
    MulAtLeast(q, base - 1);
  }

  lemma {:induction false} EndAroundCongruent(v: nat, base: nat) returns (q: nat)
    requires base > 1
    ensures v == EndAround(v, base) + q * (base - 1)
    decreases v
  {
    if v < base {
      q := 0;
    } else {
      CarryShrinks(v, base);
      var q' := EndAroundCongruent(v % base + v / base, base);
      q := q' + v / base;
      Distribute(q', v / base, base - 1);
    }
  }

  /** How many byte positions the last piece of a `len`-byte string still lacks. */
  function Lift(len: nat, n: nat): nat
    requires n > 0
  {
    (n - len % n) % n
  }

  lemma NextLift(len: nat, n: nat)
    requires n > 0
    ensures Lift(len + 1, n) == n - 1 - len % n
    ensures Lift(len, n) == if len % n == 0 then 0 else n - len % n
  {
    var q, r := len / n, len % n;
    QuotientRemainder(len, n);
    Distribute(q, 1, n);
    if r + 1 == n {
      DivModUnique(len + 1, q + 1, 0, n);
    } else {
      DivModUnique(len + 1, q, r + 1, n);
    }
    SelfMod(n);
    if r > 0 {
      SmallMod(n - r, n);
    }
    SmallMod(n - 1 - r, n);
  }

  /** The arithmetic of appending byte `b`, of weight `top`, to a string of value `w`. */
  lemma AppendByte(w: nat, b: nat, top: nat, lifted: nat)
    requires lifted == 256 * top
    ensures (256 * w + b) * top == w * lifted + b * top
  {
    Distribute(256 * w, b, top);
    Associate(w, 256, top);
  }

  lemma WrapAround(w: nat, sum: nat, q: nat, m: nat)
    requires w == sum + q * m
    ensures w * (m + 1) == sum + (q + w) * m
  {
    Distribute(m, 1, w);
    Distribute(q, w, m);
  }

  /** A byte string and the sum of its pieces agree modulo 256^n - 1. */
  lemma {:induction false} ColumnsCongruent(s: ByteString, n: nat) returns (q: nat)
    requires n > 0
    ensures Value(s) * Pow256(Lift(|s|, n)) == ColumnSum(s, n) + q * (Pow256(n) - 1)
  {
    if s == [] {
      q := 0;
    } else {
      var last := |s| - 1;
      var r, m, w, sum := last % n, Pow256(n) - 1, Value(s[..last]), ColumnSum(s[..last], n);
      var q' := ColumnsCongruent(s[..last], n);
      NextLift(last, n);
      AppendByte(w, s[last], Pow256(n - 1 - r), Pow256(n - r));
      if r == 0 {
        assert w * Pow256(0) == w;
        WrapAround(w, sum, q', m);
        q := q' + w;
      } else {
        q := q';
      }
    }
  }

  // ------------------------------------------------------------ the function and its theorem

  /** 256^n - 1, the modulus of ones' complement sums of `n` bytes. */
  function Modulus(n: nat): (m: nat)
    requires n > 0
    ensures m >= 255 && m + 1 == Pow256(n)
  {
    Pow256(n) - 1
  }

  /** The ones' complement sum of the `n`-byte pieces of `s`. */
  function FoldOf(s: ByteString, n: nat): (out: ByteString)
    requires n > 0
    ensures |out| == n
  {
    BigEndian(EndAround(ColumnSum(s, n), Modulus(n) + 1), n)
  }

  lemma ColumnsMod(s: ByteString, n: nat)
    requires n > 0 && |s| % n == 0
    ensures Value(s) % Modulus(n) == ColumnSum(s, n) % Modulus(n)
  {
    SelfMod(n);
    var q := ColumnsCongruent(s, n);
    assert Value(s) * Pow256(0) == Value(s);
    ModOfCongruent(Value(s), ColumnSum(s, n), q, Modulus(n));
  }

  lemma EndAroundMod(v: nat, m: nat)
    requires m > 0
    ensures EndAround(v, m + 1) % m == v % m
  {
    var q := EndAroundCongruent(v, m + 1);
    ModOfCongruent(v, EndAround(v, m + 1), q, m);
  }

  lemma FoldCongruent(s: ByteString, n: nat)
    requires n > 0 && |s| % n == 0
    ensures Value(FoldOf(s, n)) % Modulus(n) == Value(s) % Modulus(n)
    ensures Value(FoldOf(s, n)) == 0 <==> Value(s) == 0
  {
    FoldValue(s, n);
    ColumnsMod(s, n);
    EndAroundMod(ColumnSum(s, n), Modulus(n));
    SumZero(s, n);
  }

  lemma FoldValue(s: ByteString, n: nat)
    requires n > 0
    ensures Value(FoldOf(s, n)) == EndAround(ColumnSum(s, n), Modulus(n) + 1)
  {
    ValueOfBigEndian(EndAround(ColumnSum(s, n), Modulus(n) + 1), n);
  }

  /** n-fold as a function of the input: the bytes the loops below compute. */
  function NFoldOf(input: ByteString, outLen: nat): (out: ByteString)
    requires input != [] && outLen > 0
    ensures |out| == outLen
  {
    FoldOf(Repeated(input, Lcm(|input|, outLen)), outLen)
  }

  /** The rotated copies, as many as fill the least common multiple. */
  function AllCopies(input: ByteString, outLen: nat): ByteString
    requires input != [] && outLen > 0
  {
    Copies(input, Lcm(|input|, outLen) / |input|)
  }

  lemma RepeatedIsAllCopies(input: ByteString, outLen: nat)
    requires input != [] && outLen > 0
    ensures Repeated(input, Lcm(|input|, outLen)) == AllCopies(input, outLen)
    ensures |AllCopies(input, outLen)| % outLen == 0
  {
    var total := Lcm(|input|, outLen);
    var x, y := LcmIsMultiple(|input|, outLen);
    MultipleMod(x, outLen);
    MultipleMod(y, |input|);
    RepeatedIsCopies(input, y, total);
  }

  /**
    The folded bytes and the lcm-long string of rotated copies are equal modulo
    256^outLen - 1, and the fold is zero only when that string is.
   */
  lemma NFoldCongruent(input: ByteString, outLen: nat)
    requires input != [] && outLen > 0
    ensures Value(NFoldOf(input, outLen)) % Modulus(outLen) == Value(AllCopies(input, outLen)) % Modulus(outLen)
    ensures Value(NFoldOf(input, outLen)) == 0 <==> Value(AllCopies(input, outLen)) == 0
  {
    RepeatedIsAllCopies(input, outLen);
    FoldCongruent(AllCopies(input, outLen), outLen);
  }

  lemma {:induction false} SumZero(s: ByteString, n: nat)
    requires n > 0
    ensures ColumnSum(s, n) == 0 <==> Value(s) == 0
  {
    if s != [] {
      var last := |s| - 1;
      SumZero(s[..last], n);
      var w := Pow256(n - 1 - last % n);
      if s[last] > 0 {
        MulAtLeast(s[last], w);
      }
    }
  }

  /** The two clauses above leave no other choice of output bytes. */
  lemma NFoldUnique(input: ByteString, out: ByteString)
    requires input != [] && out != []
    requires Value(out) % Modulus(|out|) == Value(AllCopies(input, |out|)) % Modulus(|out|)
    requires Value(out) == 0 <==> Value(AllCopies(input, |out|)) == 0
    ensures out == NFoldOf(input, |out|)
  {
    var f := NFoldOf(input, |out|);
    NFoldCongruent(input, |out|);
    ValueBound(out);
    ValueBound(f);
    SameResidue(Value(out), Value(f), Modulus(|out|));
    BigEndianOfValue(out);
    BigEndianOfValue(f);
  }

  lemma SameResidue(a: nat, b: nat, m: nat)
    requires m > 0 && a <= m && b <= m && a % m == b % m
    requires a == 0 <==> b == 0
    ensures a == b
  {
    SelfMod(m);
    if a < m {
      SmallMod(a, m);
    }
    if b < m {
      SmallMod(b, m);
    }
  }

  // ------------------------------------------------------------ the loops of the source

  /** Raising digit `i` by `d` raises the value by `d` times its weight. */
  lemma {:induction false} RaiseDigit(s: seq<nat>, i: nat, v: nat)
    requires i < |s|
    ensures Value(s[i := v]) == Value(s) + (v - s[i]) * Pow256(|s| - 1 - i)
  {
    var last := |s| - 1;
    if i == last {
      assert s[i := v][..last] == s[..last];
    } else {
      assert s[i := v][..last] == s[..last][i := v];
      RaiseDigit(s[..last], i, v);
      Associate(v - s[i], 256, Pow256(last - 1 - i));
    }
  }

  lemma {:induction false} ValueOfZeros(s: seq<nat>)
    requires forall j :: 0 <= j < |s| ==> s[j] == 0
    ensures Value(s) == 0
  {
    if s != [] {
      ValueOfZeros(s[..|s| - 1]);
    }
  }

  /** What the additions up to byte `i` have put into column `j` at most. */
  function ColumnBound(i: nat, j: nat, n: nat): nat
    requires n > 0
  {
    255 * (i / n + if j < i % n then 1 else 0)
  }

  lemma ColumnBoundStep(i: nat, n: nat)
    requires n > 0
    ensures forall j :: 0 <= j < n ==>
      ColumnBound(i + 1, j, n) == ColumnBound(i, j, n) + if j == i % n then 255 else 0
  {
    QuotientRemainder(i, n);
    Distribute(i / n, 1, n);
    if i % n + 1 == n {
      DivModUnique(i + 1, i / n + 1, 0, n);
    } else {
      DivModUnique(i + 1, i / n, i % n + 1, n);
    }
  }

  lemma QuotientBelow(i: nat, q: nat, n: nat)
    requires n > 0 && i < q * n
    ensures i / n < q
  {
    QuotientRemainder(i, n);
    Distribute(i / n, q, n);
  }

  /** Adding byte `i` to its column keeps the sum exact. */
  lemma AccumulateValue(input: ByteString, i: nat, before: seq<nat>)
    requires input != [] && before != []
    requires Value(before) == ColumnSum(Repeated(input, i), |before|)
    ensures var k := i % |before|;
            Value(before[k := before[k] + ByteAt(input, i)]) == ColumnSum(Repeated(input, i + 1), |before|)
  {
    var k, b := i % |before|, ByteAt(input, i);
    RaiseDigit(before, k, before[k] + b);
    var next := Repeated(input, i + 1);
    assert next[..i] == Repeated(input, i) && next[i] == b;
  }

  /** Adding byte `i` to its column stays inside 32 bits. */
  lemma AccumulateBound(b: Byte, i: nat, before: seq<nat>, pieces: nat)
    requires before != []
    requires i < pieces * |before| && pieces < 0x100_0000
    requires forall j :: 0 <= j < |before| ==> before[j] <= ColumnBound(i, j, |before|)
    ensures var k := i % |before|;
            var after := before[k := before[k] + b];
            && after[k] < 0x1_0000_0000
            && forall j :: 0 <= j < |before| ==> after[j] <= ColumnBound(i + 1, j, |before|)
  {
    QuotientBelow(i, pieces, |before|);
    ColumnBoundStep(i, |before|);
    assert before[i % |before|] <= ColumnBound(i, i % |before|, |before|);
  }

  /** The columns once the first `i` bytes are in them. */
  ghost predicate Summed(input: ByteString, i: nat, columns: seq<nat>)
    requires input != []
  {
    && columns != [] && Value(columns) == ColumnSum(Repeated(input, i), |columns|)
    && forall j :: 0 <= j < |columns| ==> columns[j] <= ColumnBound(i, j, |columns|)
  }

  lemma SummedStep(input: ByteString, i: nat, columns: seq<nat>, pieces: nat)
    requires input != [] && Summed(input, i, columns) && i < pieces * |columns| && pieces < 0x100_0000
    ensures var k := i % |columns|;
            && columns[k] + ByteAt(input, i) < 0x1_0000_0000
            && Summed(input, i + 1, columns[k := columns[k] + ByteAt(input, i)])
  {
    AccumulateValue(input, i, columns);
    AccumulateBound(ByteAt(input, i), i, columns, pieces);
  }

  /** The accumulation loop: byte `i` is added to column `i % outLen`. */
  method Accumulate(input: ByteString, acc: array<U32>, ghost pieces: nat)
    requires 0 < |input| < 0x100_0000 && acc.Length > 0
    requires pieces == |input| / Gcd(|input|, acc.Length)
    requires forall j :: 0 <= j < acc.Length ==> acc[j] == 0
    modifies acc
    ensures Value(acc[..]) == ColumnSum(Repeated(input, Lcm(|input|, acc.Length)), acc.Length)
    ensures forall j :: 0 <= j < acc.Length ==> acc[j] <= 255 * pieces
  {
    var n := acc.Length;
    var total := Lcm(|input|, n);
    ghost var x, y := LcmIsMultiple(|input|, n);
    ValueOfZeros(acc[..]);
    assert Repeated(input, 0) == [];
    var i := 0;
    while i < total
      invariant 0 <= i <= total
      invariant Summed(input, i, acc[..])
    {
      SummedStep(input, i, acc[..], x);
      ghost var before := acc[..];
      acc[i % n] := acc[i % n] + ByteAt(input, i);
      assert acc[..] == before[i % n := before[i % n] + ByteAt(input, i)];
      i := i + 1;
    }
    MultipleMod(x, n);
  }

  /**
    One carry pass from the right: the digits become bytes and the value
    splits into them and a carry out of the top.
   */
  method CarryPass(acc: array<U32>, ghost pieces: nat) returns (carry: U32, ghost digits: ByteString)
    requires 0 < pieces < 0x100_0000
    requires forall j :: 0 <= j < acc.Length ==> acc[j] <= 255 * pieces
    modifies acc
    ensures acc[..] == digits && |digits| == acc.Length
    ensures carry < pieces
    ensures Value(old(acc[..])) == Value(digits) + carry * Pow256(acc.Length)
  {
    ghost var start := acc[..];
    carry := 0;
    var i := acc.Length;
    while i > 0
      invariant 0 <= i <= acc.Length
      invariant forall j :: i <= j < acc.Length ==> acc[j] < 256
      invariant forall j :: 0 <= j < i ==> acc[j] <= 255 * pieces
      invariant carry < pieces
      invariant Value(start) == Value(acc[..]) + carry * Pow256(acc.Length - i)
    {
      i := i - 1;
      ghost var before: seq<nat> := acc[..];
      var v: U32 := acc[i] + carry;
      CarryStep(Value(start), before, i, carry, v % 256, v / 256);
      acc[i] := v % 256;
      assert acc[..] == before[i := v % 256];
      carry := v / 256;
    }
    digits := acc[..];
  }

  /** One digit less to go: the value is that of the digits and the carry at its place. */
  lemma CarryStep(value: nat, digits: seq<nat>, i: nat, carry: nat, low: nat, high: nat)
    requires i < |digits| && digits[i] + carry == 256 * high + low
    requires value == Value(digits) + carry * Pow256(|digits| - 1 - i)
    ensures value == Value(digits[i := low]) + high * Pow256(|digits| - i)
  {
    var weight := Pow256(|digits| - 1 - i);
    RaiseDigit(digits, i, low);
    CarryMoves(digits[i], carry, low, high, weight);
    Balanced(value, Value(digits), Value(digits[i := low]), carry * weight, (low - digits[i]) * weight,
             high * (256 * weight));
  }

  /** What a digit loses its neighbour gains. */
  lemma Balanced(value: int, before: int, after: int, carry: int, raised: int, moved: int)
    requires value == before + carry && after == before + raised && raised + moved == carry
    ensures value == after + moved
  {
  }

  /** Moving `high` from a digit to the next one keeps the value. */
  lemma CarryMoves(digit: nat, carry: nat, low: nat, high: nat, weight: nat)
    requires digit + carry == 256 * high + low
    ensures (low - digit) * weight + high * (256 * weight) == carry * weight
  {
    Associate(high, 256, weight);
    Distribute(low - digit, high * 256, weight);
  }

  /** The bytes of `acc` are the value modulo 256^n and the carry is the quotient. */
  lemma CarryIsQuotient(v: nat, digits: ByteString, carry: nat)
    requires v == Value(digits) + carry * Pow256(|digits|)
    ensures v % Pow256(|digits|) == Value(digits) && v / Pow256(|digits|) == carry
  {
    ValueBound(digits);
    DivModUnique(v, carry, Value(digits), Pow256(|digits|));
  }

  /** Adding the carry to the last digit is one step of `EndAround`. */
  lemma LastDigitCarry(v: nat, digits: ByteString, carry: nat)
    requires digits != [] && carry > 0
    requires v == Value(digits) + carry * Pow256(|digits|)
    ensures var last := |digits| - 1;
            var next := Value(digits[..last] + [digits[last] + carry]);
            && next < v
            && EndAround(next, Modulus(|digits|) + 1) == EndAround(v, Modulus(|digits|) + 1)
  {
    var last := |digits| - 1;
    CarryIsQuotient(v, digits, carry);
    MulAtLeast(carry, Pow256(|digits|));
    CarryShrinks(v, Modulus(|digits|) + 1);
    var raised: seq<nat> := digits[..last] + [digits[last] + carry];
    assert raised[..last] == digits[..last];
  }

  /** One round of the carry loop: a pass and, unless it is zero, the carry added to the last digit. */
  method CarryRound(acc: array<U32>, ghost pieces: nat) returns (carry: U32)
    requires acc.Length > 0 && 0 < pieces < 0x100_0000
    requires forall j :: 0 <= j < acc.Length ==> acc[j] <= 255 * pieces
    modifies acc
    ensures forall j :: 0 <= j < acc.Length ==> acc[j] <= 255 * pieces
    ensures carry == 0 ==> forall j :: 0 <= j < acc.Length ==> acc[j] < 256
    ensures carry == 0 ==> Value(acc[..]) == Value(old(acc[..]))
    ensures carry == 0 ==> Value(acc[..]) < Modulus(acc.Length) + 1
    ensures carry > 0 ==> Value(acc[..]) < Value(old(acc[..]))
    ensures EndAround(Value(acc[..]), Modulus(acc.Length) + 1) ==
            EndAround(Value(old(acc[..])), Modulus(acc.Length) + 1)
  {
    var last := acc.Length - 1;
    ghost var v := Value(acc[..]);
    ghost var digits;
    carry, digits := CarryPass(acc, pieces);
    assert forall j :: 0 <= j <= last ==> acc[j] == digits[j];
    if carry == 0 {
      ValueBound(digits);
    } else {
      LastDigitCarry(v, digits, carry);
      acc[last] := acc[last] + carry;
      assert acc[..] == digits[..last] + [digits[last] + carry];
    }
  }

  /** The carry loop.  The value shrinks with every carry, so it ends. */
  method Propagate(acc: array<U32>, ghost pieces: nat)
    requires acc.Length > 0 && 0 < pieces < 0x100_0000
    requires forall j :: 0 <= j < acc.Length ==> acc[j] <= 255 * pieces
    modifies acc
    ensures forall j :: 0 <= j < acc.Length ==> acc[j] < 256
    ensures Value(acc[..]) == EndAround(Value(old(acc[..])), Modulus(acc.Length) + 1)
  {
    while true
      invariant forall j :: 0 <= j < acc.Length ==> acc[j] <= 255 * pieces
      invariant EndAround(Value(acc[..]), Modulus(acc.Length) + 1) ==
                EndAround(Value(old(acc[..])), Modulus(acc.Length) + 1)
      decreases Value(acc[..])
    {
      var carry := CarryRound(acc, pieces);
      if carry == 0 {
        break;
      }
    }
  }

  /**
    `n_fold`.  The type of `acc` makes every addition an obligation that no
    32-bit sum overflows, which holds for every input under 2^24 bytes.
   */
  method Fold(input: ByteString, outLen: nat) returns (out: ByteString)
    requires |input| < 0x100_0000 && (input != [] || outLen > 0)
    ensures input != [] && outLen > 0 ==> out == NFoldOf(input, outLen)
    ensures input == [] || outLen == 0 ==> out == Zeros(outLen)
  {
    var acc := new U32[outLen](_ => 0);
    if |input| == 0 || outLen == 0 {
      // Nothing is added, so nothing carries.
      assert Lcm(|input|, outLen) == 0;
      assert acc[..] == Zeros(outLen);
      return acc[..];
    }
    AddUp(input, acc);
    out := acc[..];
  }

  /** Both loops of `n_fold`, on the zeroed accumulator. */
  method AddUp(input: ByteString, acc: array<U32>)
    requires 0 < |input| < 0x100_0000 && acc.Length > 0 && forall j :: 0 <= j < acc.Length ==> acc[j] == 0
    modifies acc
    ensures acc[..] == NFoldOf(input, acc.Length)
  {
    ghost var x, y := LcmIsMultiple(|input|, acc.Length);
    Accumulate(input, acc, x);
    Propagate(acc, x);
    BigEndianOfValue(acc[..]);
  }
}
