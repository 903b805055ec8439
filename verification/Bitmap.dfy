/**
  Attribute lists as bitmaps: the encoder adds powers of two into the current
  32-bit word and starts a second word at the first attribute from number 32 on;
  the decoder lists the set bits.  Attributes are numbered 0 to 55.
 */
module Bitmap {
  import opened Bytes

  const LAST_ATTR := 55

  type Attr = x: int | 0 <= x <= LAST_ATTR

  // ------------------------------------------------------------ encoding

  /** The words closed so far and the word being filled. */
  datatype Partial = Partial(words: seq<nat>, segment: nat)

  /** `div_ceil(31)` */
  function Ceil31(idx: nat): nat { (idx + 30) / 31 }

  /** One round of the encoder's loop; the sum is a 32-bit one. */
  function AddAttr(p: Partial, idx: nat): Partial
  {
    var q := if Ceil31(idx) - 1 > |p.words| then Partial(p.words + [p.segment], 0) else p;
    q.(segment := (q.segment + Pow2(idx % 32)) % WORD_LIMIT)
  }

  function Filled(attrs: seq<Attr>): Partial
  {
    if attrs == [] then Partial([], 0) else AddAttr(Filled(attrs[..|attrs| - 1]), attrs[|attrs| - 1])
  }

  /** `file_attrs_to_bitmap` */
  function Encode(attrs: seq<Attr>): (words: seq<nat>)
  {
    Filled(attrs).words + [Filled(attrs).segment]
  }

  method EncodeBitmap(attrs: seq<Attr>) returns (words: seq<nat>)
    ensures words == Encode(attrs)
  {
    words := [];
    var segment: nat := 0;
    for i := 0 to |attrs|
      invariant Filled(attrs[..i]) == Partial(words, segment)
    {
      assert attrs[..i + 1][..i] == attrs[..i];
      var idx := attrs[i];
      if Ceil31(idx) - 1 > |words| {
        words := words + [segment];
        segment := 0;
      }
      segment := (segment + Pow2(idx % 32)) % WORD_LIMIT;
    }
    assert attrs[..|attrs|] == attrs;
    words := words + [segment];
  }

  // ------------------------------------------------------------ decoding

  /** Bit `p` of the bitmap. */
  predicate IsSet(words: seq<nat>, p: nat)
  {
    p / 32 < |words| && BitAt(words[p / 32], p % 32) == 1
  }

  /** The attributes among the first `n` bits, in order. */
  function Listed(words: seq<nat>, n: nat): seq<Attr>
  {
    if n == 0 then []
    else if n - 1 <= LAST_ATTR && IsSet(words, n - 1) then Listed(words, n - 1) + [n - 1]
    else Listed(words, n - 1)
  }

  /** `from_u32` */
  function Decode(words: seq<nat>): seq<Attr>
  {
    Listed(words, 32 * |words|)
  }

  lemma ListedStep(words: seq<nat>, idx: nat, n: nat)
    requires idx < |words| && n < 32
    ensures Listed(words, 32 * idx + n + 1) == Listed(words, 32 * idx + n) +
            if BitAt(words[idx], n) == 1 && 32 * idx + n <= LAST_ATTR then [32 * idx + n] else []
  {
    assert (32 * idx + n) / 32 == idx && (32 * idx + n) % 32 == n;
  }

  method DecodeBitmap(words: seq<nat>) returns (attrs: seq<Attr>)
    ensures attrs == Decode(words)
  {
    attrs := [];
    for idx := 0 to |words|
      invariant attrs == Listed(words, 32 * idx)
    {
      attrs := DecodeWord(words, idx, attrs);
    }
  }

  /** The decoder's inner loop: the bits of one word. */
  method DecodeWord(words: seq<nat>, idx: nat, before: seq<Attr>) returns (attrs: seq<Attr>)
    requires idx < |words| && before == Listed(words, 32 * idx)
    ensures attrs == Listed(words, 32 * (idx + 1))
  {
    attrs := before;
    for n := 0 to 32
      invariant attrs == Listed(words, 32 * idx + n)
    {
      ListedStep(words, idx, n);
      if BitAt(words[idx], n) == 1 && 32 * idx + n <= LAST_ATTR {
        attrs := attrs + [32 * idx + n];
      }
    }
  }

  /** A decoded list is ascending and lists exactly the set bits that are attributes. */
  lemma {:induction false} ListedMeans(words: seq<nat>, n: nat)
    ensures forall a :: a in Listed(words, n) <==> 0 <= a < n && a <= LAST_ATTR && IsSet(words, a)
    ensures Ascending(Listed(words, n))
  {
    if n > 0 {
      ListedMeans(words, n - 1);
      var before := Listed(words, n - 1);
      forall i | 0 <= i < |before| ensures before[i] < n - 1 {
        assert before[i] in before;
      }
    }
  }

  // ------------------------------------------------------------ round trip

  predicate Ascending(attrs: seq<int>)
  {
    forall i, j :: 0 <= i < j < |attrs| ==> attrs[i] < attrs[j]
  }

  /** Adding a power of two above a number sets that bit and no other. */
  lemma {:induction false} AddsBit(v: nat, k: nat, j: nat)
    requires v < Pow2(k)
    ensures BitAt(v + Pow2(k), j) == if j == k then 1 else BitAt(v, j)
    decreases k, j
  {
    if k == 0 {
      if j > 0 {
        ZeroBits(j - 1);
        ZeroBits(j);
      }
    } else {
      assert (v + Pow2(k)) % 2 == v % 2 && (v + Pow2(k)) / 2 == v / 2 + Pow2(k - 1);
      if j > 0 {
        AddsBit(v / 2, k - 1, j - 1);
      }
    }
  }

  lemma {:induction false} ZeroBits(j: nat)
    ensures BitAt(0, j) == 0
  {
    if j > 0 {
      ZeroBits(j - 1);
    }
  }

  lemma {:induction false} Pow2Monotone(a: nat, b: nat)
    requires a <= b
    ensures Pow2(a) <= Pow2(b)
  {
    if a < b {
      Pow2Monotone(a, b - 1);
    }
  }

  lemma WordIsPow2()
    ensures Pow2(32) == WORD_LIMIT
  {
    assert Pow2(8) == 256 && Pow2(16) == 65536;
    assert Pow2(24) == 16777216;
  }

  /** What an ascending list has filled in so far. */
  predicate Fills(p: Partial, attrs: seq<Attr>)
  {
    && |p.words| == (if attrs != [] && attrs[|attrs| - 1] >= 32 then 1 else 0)
    && p.segment < Pow2(if attrs == [] then 0 else attrs[|attrs| - 1] % 32 + 1)
    && (forall b :: 0 <= b < 64 ==> (IsSet(p.words + [p.segment], b) <==> b in attrs))
  }

  /** Adding bit `k` to the open word: which bits are then set. */
  lemma SegmentGains(words: seq<nat>, segment: nat, k: nat, b: nat)
    requires segment < Pow2(k) && k < 32
    ensures segment + Pow2(k) < WORD_LIMIT && segment + Pow2(k) < Pow2(k + 1)
    ensures IsSet(words + [segment + Pow2(k)], b) <==> b == 32 * |words| + k || IsSet(words + [segment], b)
  {
    Pow2Monotone(k + 1, 32);
    WordIsPow2();
    AddsBit(segment, k, b % 32);
    if b / 32 < |words| {
      assert (words + [segment + Pow2(k)])[b / 32] == words[b / 32] == (words + [segment])[b / 32];
    } else if b / 32 == |words| {
      assert b == 32 * |words| + b % 32;
      assert (words + [segment + Pow2(k)])[b / 32] == segment + Pow2(k);
    }
  }

  /** Closing a word sets nothing. */
  lemma ClosingKeeps(words: seq<nat>, b: nat)
    ensures IsSet(words + [0], b) <==> IsSet(words, b)
  {
    ZeroBits(b % 32);
  }

  /** The open word before attribute `idx` is added. */
  function Opened(p: Partial, idx: Attr): Partial
  {
    if idx >= 32 && p.words == [] then Partial([p.segment], 0) else p
  }

  lemma OpenedFits(p: Partial, attrs: seq<Attr>, idx: Attr)
    requires Fills(p, attrs) && (attrs != [] ==> attrs[|attrs| - 1] < idx)
    ensures var q := Opened(p, idx);
            && q.segment < Pow2(idx % 32) && 32 * |q.words| + idx % 32 == idx
            && AddAttr(p, idx) == q.(segment := (q.segment + Pow2(idx % 32)) % WORD_LIMIT)
  {
    if attrs != [] && Opened(p, idx) == p {
      Pow2Monotone(attrs[|attrs| - 1] % 32 + 1, idx % 32);
    }
  }

  lemma OpenedKeeps(p: Partial, idx: Attr, b: nat)
    ensures var q := Opened(p, idx);
            IsSet(q.words + [q.segment], b) <==> IsSet(p.words + [p.segment], b)
  {
    ClosingKeeps([p.segment], b);
    assert p.words == [] ==> p.words + [p.segment] == [p.segment];
  }

  lemma AddAttrIs(p: Partial, attrs: seq<Attr>, idx: Attr)
    requires Fills(p, attrs) && (attrs != [] ==> attrs[|attrs| - 1] < idx)
    ensures var q := Opened(p, idx);
            && AddAttr(p, idx) == Partial(q.words, q.segment + Pow2(idx % 32))
            && q.segment + Pow2(idx % 32) < Pow2(idx % 32 + 1)
            && |q.words| == if idx >= 32 then 1 else 0
  {
    var q := Opened(p, idx);
    OpenedFits(p, attrs, idx);
    SegmentGains(q.words, q.segment, idx % 32, 0);
  }

  lemma AddAttrSets(p: Partial, attrs: seq<Attr>, idx: Attr, b: nat)
    requires Fills(p, attrs) && (attrs != [] ==> attrs[|attrs| - 1] < idx) && b < 64
    ensures var q := Opened(p, idx);
            IsSet(q.words + [q.segment + Pow2(idx % 32)], b) <==> b == idx || b in attrs
  {
    var q := Opened(p, idx);
    OpenedFits(p, attrs, idx);
    SegmentGains(q.words, q.segment, idx % 32, b);
    OpenedKeeps(p, idx, b);
  }

  lemma AddAttrFills(p: Partial, attrs: seq<Attr>, idx: Attr)
    requires Fills(p, attrs) && (attrs != [] ==> attrs[|attrs| - 1] < idx)
    ensures Fills(AddAttr(p, idx), attrs + [idx])
  {
    AddAttrIs(p, attrs, idx);
    forall b | 0 <= b < 64
      ensures IsSet(AddAttr(p, idx).words + [AddAttr(p, idx).segment], b) <==> b in attrs + [idx]
    {
      AddAttrSets(p, attrs, idx, b);
    }
  }

  lemma {:induction false} EncodeFills(attrs: seq<Attr>)
    requires Ascending(attrs)
    ensures Fills(Filled(attrs), attrs)
    decreases |attrs|
  {
    if attrs == [] {
      assert Filled(attrs).words + [0] == [0];
      forall b | 0 <= b < 64 ensures !IsSet([0], b) {
        ZeroBits(b % 32);
      }
    } else {
      var init := attrs[..|attrs| - 1];
      EncodeFills(init);
      AddAttrFills(Filled(init), init, attrs[|attrs| - 1]);
      assert init + [attrs[|attrs| - 1]] == attrs;
    }
  }

  lemma {:induction false} AscendingIsShort(attrs: seq<Attr>)
    requires Ascending(attrs)
    ensures attrs != [] ==> |attrs| - 1 <= attrs[|attrs| - 1]
    decreases |attrs|
  {
    if |attrs| > 1 {
      AscendingIsShort(attrs[..|attrs| - 1]);
    }
  }

  /** Whatever the list, the words are 32-bit words. */
  lemma {:induction false} WordsFit(attrs: seq<Attr>)
    ensures forall i :: 0 <= i < |Encode(attrs)| ==> Encode(attrs)[i] < WORD_LIMIT
    ensures |Encode(attrs)| <= |attrs| + 1
    decreases |attrs|
  {
    if attrs != [] {
      var init := attrs[..|attrs| - 1];
      WordsFit(init);
      var p := Filled(init);
      assert Encode(init)[|p.words|] == p.segment;
      forall i | 0 <= i < |p.words| ensures p.words[i] < WORD_LIMIT {
        assert Encode(init)[i] == p.words[i];
      }
    }
  }

  /** Ascending lists with the same members are the same list. */
  lemma {:induction false} AscendingUnique(s: seq<Attr>, t: seq<Attr>)
    requires Ascending(s) && Ascending(t) && forall a :: a in s <==> a in t
    ensures s == t
    decreases |s|
  {
    HeadIsMember(t);
    if s != [] {
      var x := s[|s| - 1];
      assert x in s && x in t;
      var y := t[|t| - 1];
      assert y in t && y in s;
      assert x == y;
      var s', t' := s[..|s| - 1], t[..|t| - 1];
      forall a ensures a in s' <==> a in t' {
        MemberOfInit(s, a);
        MemberOfInit(t, a);
      }
      AscendingUnique(s', t');
      assert s == s' + [x] && t == t' + [x];
    }
  }

  lemma HeadIsMember(s: seq<Attr>)
    ensures s == [] || s[0] in s
  {
  }

  lemma MemberOfInit(s: seq<Attr>, a: int)
    requires Ascending(s) && s != []
    ensures a in s[..|s| - 1] <==> a in s && a != s[|s| - 1]
  {
    if a in s && a != s[|s| - 1] {
      var i :| 0 <= i < |s| && s[i] == a;
      assert s[..|s| - 1][i] == a;
    }
  }

  /** The bitmap decodes to the list exactly when the list is strictly ascending. */
  lemma RoundTripIff(attrs: seq<Attr>)
    ensures Decode(Encode(attrs)) == attrs <==> Ascending(attrs)
  {
    ListedMeans(Encode(attrs), 32 * |Encode(attrs)|);
    if Ascending(attrs) {
      EncodeFills(attrs);
      var words := Encode(attrs);
      forall a ensures a in Decode(words) <==> a in attrs {
        if a in attrs && attrs != [] {
          var i :| 0 <= i < |attrs| && attrs[i] == a;
          assert a <= attrs[|attrs| - 1];
        }
      }
      AscendingUnique(Decode(words), attrs);
    }
  }

  lemma AddsMode()
    ensures AddAttr(Partial([], 0), 33) == Partial([0], 2)
  {
    assert 33 % 32 == 1 && Pow2(1) == 2;
  }

  lemma AddsType()
    ensures AddAttr(Partial([0], 2), 1) == Partial([0], 4)
  {
    assert 1 % 32 == 1 && Pow2(1) == 2;
  }

  lemma WordsOfOutOfOrder()
    ensures Encode([33, 1]) == [0, 4]
  {
    var attrs: seq<Attr> := [33, 1];
    assert attrs[..1] == [33] && attrs[..1][..0] == [];
    AddsMode();
    AddsType();
    assert Filled(attrs[..1]) == AddAttr(Filled([]), 33);
    assert Filled(attrs) == AddAttr(Filled(attrs[..1]), 1);
  }

  lemma OnlyBit34(b: nat)
    requires b < 64
    ensures IsSet([0, 4], b) <==> b == 34
  {
    assert Pow2(2) == 4;
    SegmentGains([0], 0, 2, b);
    ZeroBits(b % 32);
  }

  /** Out of order, attributes turn into others: MODE then TYPE comes back as NO_TRUNC. */
  lemma OutOfOrderChangesAttrs()
    ensures Decode(Encode([33, 1])) == [34]
  {
    WordsOfOutOfOrder();
    var words: seq<nat> := [0, 4];
    ListedMeans(words, 64);
    forall a ensures a in Decode(words) <==> a == 34 {
      if 0 <= a < 64 {
        OnlyBit34(a);
      }
    }
    AscendingUnique(Decode(words), [34]);
  }
}
