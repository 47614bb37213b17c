/** The bitmask resource allocator: an array of 32-bit words read as a set of bit numbers.
    The operations work in place on the array, without bounds checking against the number of
    resources; the last word may hold padding bits at and above that number. */
module Bitops {
  import opened Words

  /** A non-negative `int`. */
  type BitCount = n: int | 0 <= n < 0x8000_0000

  /** A word has 32 bits; products and quotients by that width are written with the literal. */
  function BitsToWords(numBits: nat): (words: nat)
    ensures numBits <= 32 * words < numBits + 32
  {
    (numBits + WORD_BITS - 1) / 32
  }

  function BitInWord(bit: nat): nat {
    bit % 32
  }

  function BitWord(bit: nat): nat {
    bit / 32
  }

  function BitMask(bit: nat): Word {
    PowerMonotone(BitInWord(bit), WORD_BITS);
    WordSizeIsPow2();
    Pow2(BitInWord(bit))
  }

  /* ---------- the primitives ffs and popcount ---------- */

  function LowestBit(w: nat): (k: nat)
    requires w != 0
    ensures Bit(w, k) && forall j: nat :: j < k ==> !Bit(w, j)
  {
    if w % 2 == 1 then 0
    else
      var k := 1 + LowestBit(w / 2);
      assert forall j: nat :: 0 < j < k ==> Bit(w, j) == Bit(w / 2, j - 1);
      k
  }

  lemma LowestBitInWord(w: Word)
    requires w != 0
    ensures LowestBit(w) < WORD_BITS
  {
    WordSizeIsPow2();
    if LowestBit(w) >= WORD_BITS {
      BitsAboveWidth(w, WORD_BITS, LowestBit(w));
    }
  }

  /** `ffs`: one more than the index of the lowest set bit, or zero. */
  function Ffs(w: Word): (r: nat)
    ensures w == 0 ==> r == 0
    ensures w != 0 ==> 1 <= r <= WORD_BITS && Bit(w, r - 1) && forall j: nat :: j < r - 1 ==> !Bit(w, j)
  {
    if w == 0 then 0
    else
      LowestBitInWord(w);
      1 + LowestBit(w)
  }

  /** `__builtin_popcount`. */
  function Popcount(w: nat): nat {
    if w == 0 then 0 else w % 2 + Popcount(w / 2)
  }

  /** The number of set bits below n. */
  function CountBits(w: nat, n: nat): nat {
    if n == 0 then 0 else CountBits(w, n - 1) + (if Bit(w, n - 1) then 1 else 0)
  }

  lemma {:induction false} CountBitsFromBelow(w: nat, n: nat)
    ensures CountBits(w, n + 1) == w % 2 + CountBits(w / 2, n)
    decreases n
  {
    if n > 0 {
      CountBitsFromBelow(w, n - 1);
    }
  }

  lemma {:induction false} PopcountCounts(w: nat, n: nat)
    requires w < Pow2(n)
    ensures Popcount(w) == CountBits(w, n)
    decreases n
  {
    if n > 0 {
      CountBitsFromBelow(w, n - 1);
      PopcountCounts(w / 2, n - 1);
      assert w == 0 ==> Popcount(w) == w % 2 + Popcount(w / 2);
    }
  }

  /* ---------- the set a word sequence stands for ---------- */

  predicate Test(ws: seq<Word>, bit: nat)
    requires bit < 32 * |ws|
  {
    Bit(ws[bit / 32], bit % 32)
  }

  ghost function Members(ws: seq<Word>, n: nat): set<nat>
    requires n <= 32 * |ws|
  {
    set k: nat | 0 <= k < n && Test(ws, k)
  }

  /** s holds every bit number below n. */
  ghost predicate HoldsAll(s: set<nat>, n: nat) {
    forall k: nat :: k < n ==> k in s
  }

  /** No bit is set between the last resource and the end of the last word in use. */
  ghost predicate PaddingZero(ws: seq<Word>, numBits: nat)
    requires numBits <= 32 * |ws|
  {
    forall k: nat :: numBits <= k < 32 * BitsToWords(numBits) ==> !Test(ws, k)
  }

  /** The set bits of the words that begin below numBits. */
  ghost function Used(ws: seq<Word>, numBits: nat): set<nat> {
    set k: nat | 0 <= k < 32 * |ws| && 32 * (k / 32) < numBits && Test(ws, k)
  }

  /** They are those of the words in use. */
  lemma UsedIsPrefix(ws: seq<Word>, numBits: nat)
    requires numBits <= 32 * |ws|
    ensures Used(ws, numBits) == Members(ws, 32 * BitsToWords(numBits))
  {
    forall k: nat
      ensures 32 * (k / 32) < numBits <==> k < 32 * BitsToWords(numBits)
    {
      WordBegins(numBits, k);
    }
  }

  lemma WordBegins(numBits: nat, k: nat)
    ensures 32 * (k / 32) < numBits <==> k < 32 * BitsToWords(numBits)
  {
    assert k == 32 * (k / 32) + k % 32;
  }

  function CountTo(ws: seq<Word>, n: nat): nat
    requires n <= 32 * |ws|
  {
    if n == 0 then 0 else CountTo(ws, n - 1) + (if Test(ws, n - 1) then 1 else 0)
  }

  /** One more bit makes the set larger by one exactly when it is set. */
  lemma MembersStep(ws: seq<Word>, n: nat)
    requires n < 32 * |ws|
    ensures n !in Members(ws, n)
    ensures Members(ws, n + 1) == if Test(ws, n) then Members(ws, n) + {n} else Members(ws, n)
  {
  }

  lemma OneMore(s: set<nat>, k: nat)
    requires k !in s
    ensures |s + {k}| == |s| + 1
  {
  }

  lemma {:induction false} CountIsCardinality(ws: seq<Word>, n: nat)
    requires n <= 32 * |ws|
    ensures CountTo(ws, n) == |Members(ws, n)|
    decreases n
  {
    if n == 0 {
      assert Members(ws, 0) == {};
    } else {
      CountIsCardinality(ws, n - 1);
      MembersStep(ws, n - 1);
      OneMore(Members(ws, n - 1), n - 1);
    }
  }

  lemma {:induction false} CountOneWord(ws: seq<Word>, i: nat, j: nat)
    requires i < |ws| && j <= WORD_BITS
    ensures CountTo(ws, 32 * i + j) == CountTo(ws, 32 * i) + CountBits(ws[i], j)
    decreases j
  {
    if j > 0 {
      CountOneWord(ws, i, j - 1);
      var k := 32 * i + (j - 1);
      assert BitWord(k) == i && BitInWord(k) == j - 1;
    }
  }

  /** Counting up to n reaches n exactly when every bit below n is set. */
  lemma {:induction false} CountFull(ws: seq<Word>, n: nat)
    requires n <= 32 * |ws|
    ensures CountTo(ws, n) <= n
    ensures CountTo(ws, n) == n <==> forall k: nat :: k < n ==> Test(ws, k)
    decreases n
  {
    if n > 0 {
      CountFull(ws, n - 1);
      assert CountTo(ws, n) == n ==> Test(ws, n - 1);
    }
  }

  lemma {:induction false} CountSkipsClearBits(ws: seq<Word>, n: nat, m: nat)
    requires n <= m <= 32 * |ws|
    requires forall k: nat :: n <= k < m ==> !Test(ws, k)
    ensures CountTo(ws, m) == CountTo(ws, n)
    decreases m
  {
    if n < m {
      CountSkipsClearBits(ws, n, m - 1);
    }
  }

  /* ---------- the in-place updates, as functions of the contents ---------- */

  function Cleared(ws: seq<Word>, count: nat): (r: seq<Word>)
    requires count <= |ws|
  {
    seq(count, _ => 0) + ws[count..]
  }

  function WithBit(ws: seq<Word>, bit: nat): seq<Word>
    requires bit < 32 * |ws|
  {
    ws[BitWord(bit) := Or(ws[BitWord(bit)], BitMask(bit))]
  }

  function WithoutBit(ws: seq<Word>, bit: nat): seq<Word>
    requires bit < 32 * |ws|
  {
    ws[BitWord(bit) := And(ws[BitWord(bit)], Not(BitMask(bit)))]
  }

  lemma WithBitMembers(ws: seq<Word>, bit: nat, n: nat)
    requires bit < 32 * |ws| && n <= 32 * |ws|
    ensures Members(WithBit(ws, bit), n) == Members(ws, n) + (if bit < n then {bit} else {})
  {
    forall k: nat | k < n
      ensures Test(WithBit(ws, bit), k) <==> Test(ws, k) || k == bit
    {
      WithBitTest(ws, bit, k);
    }
  }

  lemma WithBitTest(ws: seq<Word>, bit: nat, k: nat)
    requires bit < 32 * |ws| && k < 32 * |ws|
    ensures Test(WithBit(ws, bit), k) <==> Test(ws, k) || k == bit
  {
    OrBit(ws[BitWord(bit)], BitMask(bit), BitInWord(k));
    PowerBit(BitInWord(bit), BitInWord(k));
    assert k == 32 * BitWord(k) + BitInWord(k) && bit == 32 * BitWord(bit) + BitInWord(bit);
  }

  lemma WithoutBitMembers(ws: seq<Word>, bit: nat, n: nat)
    requires bit < 32 * |ws| && n <= 32 * |ws|
    ensures Members(WithoutBit(ws, bit), n) == Members(ws, n) - {bit}
  {
    forall k: nat | k < n
      ensures Test(WithoutBit(ws, bit), k) <==> Test(ws, k) && k != bit
    {
      WithoutBitTest(ws, bit, k);
    }
  }

  lemma WithoutBitTest(ws: seq<Word>, bit: nat, k: nat)
    requires bit < 32 * |ws| && k < 32 * |ws|
    ensures Test(WithoutBit(ws, bit), k) <==> Test(ws, k) && k != bit
  {
    AndBit(ws[BitWord(bit)], Not(BitMask(bit)), BitInWord(k));
    NotBit(BitMask(bit), BitInWord(k));
    PowerBit(BitInWord(bit), BitInWord(k));
    assert k == 32 * BitWord(k) + BitInWord(k) && bit == 32 * BitWord(bit) + BitInWord(bit);
  }

  lemma ClearedMembers(ws: seq<Word>, numBits: nat, n: nat)
    requires numBits <= 32 * |ws| && n <= 32 * BitsToWords(numBits)
    ensures Members(Cleared(ws, BitsToWords(numBits)), n) == {}
  {
    forall k: nat | k < n
      ensures !Test(Cleared(ws, BitsToWords(numBits)), k)
    {
      ZeroHasNoBits(BitInWord(k));
    }
  }

  lemma PaddingZeroIsMembers(ws: seq<Word>, numBits: nat)
    requires numBits <= 32 * |ws|
    ensures PaddingZero(ws, numBits) <==> Members(ws, 32 * BitsToWords(numBits)) == Members(ws, numBits)
  {
    if !PaddingZero(ws, numBits) {
      var k: nat :| numBits <= k < 32 * BitsToWords(numBits) && Test(ws, k);
      assert k in Members(ws, 32 * BitsToWords(numBits)) && k !in Members(ws, numBits);
    }
  }

  /* ---------- the operations ---------- */

  method BitmaskInit(bitmask: array<Word>, numBits: BitCount)
    requires numBits <= 32 * bitmask.Length
    modifies bitmask
    ensures forall i :: 0 <= i < bitmask.Length ==> bitmask[i] == if 32 * i < numBits then 0 else old(bitmask[i])
    ensures Members(bitmask[..], numBits) == {} && PaddingZero(bitmask[..], numBits)
  {
    for i := 0 to BitsToWords(numBits)
      invariant forall j :: 0 <= j < i ==> bitmask[j] == 0
      invariant forall j :: i <= j < bitmask.Length ==> bitmask[j] == old(bitmask[j])
    {
      bitmask[i] := 0;
    }
    ClearedMembers(old(bitmask[..]), numBits, 32 * BitsToWords(numBits));
    assert bitmask[..] == Cleared(old(bitmask[..]), BitsToWords(numBits));
    assert forall k: nat :: k < 32 * BitsToWords(numBits) && Test(bitmask[..], k) ==> k in Members(bitmask[..], 32 * BitsToWords(numBits));
  }

  /** r is the least clear bit below numBits, or -1 when there is none. */
  ghost predicate IsFirstZero(ws: seq<Word>, numBits: nat, r: int)
    requires numBits <= 32 * |ws|
  {
    && -1 <= r < numBits
    && (r >= 0 ==> !Test(ws, r))
    && forall k: nat :: k < (if r == -1 then numBits else r) ==> Test(ws, k)
  }

  lemma ComplementTest(ws: seq<Word>, i: nat, j: nat)
    requires i < |ws| && j < WORD_BITS
    ensures Bit(Not(ws[i]), j) <==> !Test(ws, 32 * i + j)
  {
    NotBit(ws[i], j);
    assert BitWord(32 * i + j) == i && BitInWord(32 * i + j) == j;
  }

  /** After i full words, a further word without a clear bit. */
  lemma FullWord(ws: seq<Word>, i: nat)
    requires i < |ws| && forall k: nat :: k < 32 * i ==> Test(ws, k)
    requires Ffs(Not(ws[i])) == 0
    ensures forall k: nat :: k < 32 * (i + 1) ==> Test(ws, k)
  {
    forall k: nat | 32 * i <= k < 32 * (i + 1)
      ensures Test(ws, k)
    {
      var j := k - 32 * i;
      ComplementTest(ws, i, j);
      ZeroHasNoBits(j);
    }
  }

  /** After i full words, the first clear bit of the next one. */
  lemma FirstClear(ws: seq<Word>, i: nat)
    requires i < |ws| && forall k: nat :: k < 32 * i ==> Test(ws, k)
    requires Ffs(Not(ws[i])) != 0
    ensures var r := 32 * i + Ffs(Not(ws[i])) - 1;
            r < 32 * (i + 1) && !Test(ws, r) && forall k: nat :: k < r ==> Test(ws, k)
  {
    var bit := Ffs(Not(ws[i])) - 1;
    ComplementTest(ws, i, bit);
    forall k: nat | 32 * i <= k < 32 * i + bit
      ensures Test(ws, k)
    {
      ComplementTest(ws, i, k - 32 * i);
    }
  }

  lemma WordsInUse(numBits: BitCount)
    ensures numBits <= 32 * BitsToWords(numBits) <= 0x8000_0000
  {
  }

  /** The computed index always fits an `int`, even for the largest bit count. */
  method BitmaskFfz(bitmask: array<Word>, numBits: BitCount) returns (result: int)
    requires numBits <= 32 * bitmask.Length
    ensures IsFirstZero(bitmask[..], numBits, result)
  {
    WordsInUse(numBits);
    var i := 0;
    while i < BitsToWords(numBits)
      invariant 0 <= i <= BitsToWords(numBits)
      invariant forall k: nat :: k < 32 * i ==> Test(bitmask[..], k)
    {
      var bit: int := Ffs(Not(bitmask[i]));
      if bit != 0 {
        FirstClear(bitmask[..], i);
        bit := bit - 1;
        result := 32 * i + bit;
        assert result < 0x8000_0000;
        if result >= numBits {
          return -1;
        }
        return result;
      }
      FullWord(bitmask[..], i);
      i := i + 1;
    }
    return -1;
  }

  lemma CountNextWord(ws: seq<Word>, i: nat)
    requires i < |ws|
    ensures CountTo(ws, 32 * (i + 1)) == CountTo(ws, 32 * i) + Popcount(ws[i])
  {
    WordSizeIsPow2();
    PopcountCounts(ws[i], WORD_BITS);
    CountOneWord(ws, i, WORD_BITS);
    assert 32 * i + WORD_BITS == 32 * (i + 1);
  }

  lemma CountIsWeight(ws: seq<Word>, numBits: nat)
    requires numBits <= 32 * |ws|
    ensures CountTo(ws, 32 * BitsToWords(numBits)) == |Used(ws, numBits)|
    ensures PaddingZero(ws, numBits) ==> |Used(ws, numBits)| == |Members(ws, numBits)| <= numBits
  {
    UsedIsPrefix(ws, numBits);
    CountIsCardinality(ws, 32 * BitsToWords(numBits));
    CountIsCardinality(ws, numBits);
    CountFull(ws, numBits);
    PaddingZeroIsMembers(ws, numBits);
  }

  method BitmaskWeight(bitmask: array<Word>, numBits: BitCount) returns (weight: nat)
    requires numBits <= 32 * bitmask.Length
    ensures weight == |Used(bitmask[..], numBits)|
    ensures PaddingZero(bitmask[..], numBits) ==> weight == |Members(bitmask[..], numBits)| <= numBits
  {
    weight := 0;
    var i := 0;
    while i < BitsToWords(numBits)
      invariant 0 <= i <= BitsToWords(numBits)
      invariant weight == CountTo(bitmask[..], 32 * i)
    {
      CountNextWord(bitmask[..], i);
      weight := weight + Popcount(bitmask[i]);
      i := i + 1;
    }
    CountIsWeight(bitmask[..], numBits);
  }

  method BitmaskSet(bitmask: array<Word>, bit: BitCount)
    requires bit < 32 * bitmask.Length
    modifies bitmask
    ensures bitmask[..] == WithBit(old(bitmask[..]), bit)
    ensures forall n: nat :: n <= 32 * bitmask.Length ==>
              Members(bitmask[..], n) == Members(old(bitmask[..]), n) + (if bit < n then {bit} else {})
  {
    bitmask[BitWord(bit)] := Or(bitmask[BitWord(bit)], BitMask(bit));
    assert bitmask[..] == WithBit(old(bitmask[..]), bit);
    forall n: nat | n <= 32 * bitmask.Length
      ensures Members(bitmask[..], n) == Members(old(bitmask[..]), n) + (if bit < n then {bit} else {})
    {
      WithBitMembers(old(bitmask[..]), bit, n);
    }
  }

  method BitmaskClear(bitmask: array<Word>, bit: BitCount)
    requires bit < 32 * bitmask.Length
    modifies bitmask
    ensures bitmask[..] == WithoutBit(old(bitmask[..]), bit)
    ensures forall n: nat :: n <= 32 * bitmask.Length ==>
              Members(bitmask[..], n) == Members(old(bitmask[..]), n) - {bit}
  {
    bitmask[BitWord(bit)] := And(bitmask[BitWord(bit)], Not(BitMask(bit)));
    assert bitmask[..] == WithoutBit(old(bitmask[..]), bit);
    forall n: nat | n <= 32 * bitmask.Length
      ensures Members(bitmask[..], n) == Members(old(bitmask[..]), n) - {bit}
    {
      WithoutBitMembers(old(bitmask[..]), bit, n);
    }
  }

  /** The masked word is non-zero exactly when the bit is a member. */
  method BitmaskTest(bitmask: array<Word>, bit: BitCount) returns (r: bool)
    requires bit < 32 * bitmask.Length
    ensures r <==> bit in Members(bitmask[..], 32 * bitmask.Length)
  {
    var w := bitmask[BitWord(bit)];
    r := And(w, BitMask(bit)) != 0;
    var b := BitInWord(bit);
    AndBit(w, BitMask(bit), b);
    PowerBit(b, b);
    ZeroHasNoBits(b);
    if r {
      var k := LowestBit(And(w, BitMask(bit)));
      AndBit(w, BitMask(bit), k);
      PowerBit(b, k);
    }
  }

  /* ---------- properties across the operations ---------- */

  /** The two scans agree: nothing is free exactly when the weight has reached the resource count.
      The padding bits must be clear, as they are after any run of the operations on valid bits. */
  lemma FfzExhaustedIffWeightFull(ws: seq<Word>, numBits: nat, first: int)
    requires numBits <= 32 * |ws| && PaddingZero(ws, numBits)
    requires IsFirstZero(ws, numBits, first)
    ensures first == -1 <==> |Used(ws, numBits)| == numBits
    ensures first == -1 <==> HoldsAll(Members(ws, numBits), numBits)
  {
    var all := 32 * BitsToWords(numBits);
    UsedIsPrefix(ws, numBits);
    CountIsCardinality(ws, all);
    CountSkipsClearBits(ws, numBits, all);
    CountFull(ws, numBits);
    if first >= 0 {
      assert first !in Members(ws, numBits);
    }
  }

  /** The `int` accumulator of the weight stays in range except when all 2^31 bits of the largest
      possible mask, its padding bit included, are set. */
  lemma WeightFitsInt(ws: seq<Word>, numBits: BitCount)
    requires numBits <= 32 * |ws|
    ensures |Used(ws, numBits)| < 0x8000_0000 <==>
            !(numBits > 0x8000_0000 - 32 &&
              forall k: nat :: k < 0x8000_0000 ==> Test(ws, k))
  {
    var all := 32 * BitsToWords(numBits);
    UsedIsPrefix(ws, numBits);
    WordsInUse(numBits);
    CountIsCardinality(ws, all);
    CountFull(ws, all);
    assert CountTo(ws, all) < 0x8000_0000 <==> !(all == 0x8000_0000 && CountTo(ws, all) == all);
  }

  lemma SetKeepsPadding(ws: seq<Word>, bit: nat, numBits: nat)
    requires bit < numBits <= 32 * |ws|
    ensures PaddingZero(ws, numBits) ==> PaddingZero(WithBit(ws, bit), numBits)
  {
    assert BitsToWords(numBits) <= |ws|;
    forall k: nat | numBits <= k < 32 * BitsToWords(numBits)
      ensures Test(WithBit(ws, bit), k) <==> Test(ws, k)
    {
      WithBitTest(ws, bit, k);
    }
  }

  lemma ClearKeepsPadding(ws: seq<Word>, bit: nat, numBits: nat)
    requires bit < numBits <= 32 * |ws|
    ensures PaddingZero(ws, numBits) ==> PaddingZero(WithoutBit(ws, bit), numBits)
  {
    assert BitsToWords(numBits) <= |ws|;
    forall k: nat | numBits <= k < 32 * BitsToWords(numBits)
      ensures Test(WithoutBit(ws, bit), k) <==> Test(ws, k)
    {
      WithoutBitTest(ws, bit, k);
    }
  }

  datatype MaskOp = Reset | Set(bit: nat) | Clear(bit: nat)

  ghost predicate ValidOps(ops: seq<MaskOp>, numBits: nat) {
    forall i :: 0 <= i < |ops| && !ops[i].Reset? ==> ops[i].bit < numBits
  }

  /** The mathematical set that a run of operations denotes, starting empty. */
  ghost function Replay(ops: seq<MaskOp>): set<nat> {
    if ops == [] then {} else After(Replay(ops[..|ops| - 1]), ops[|ops| - 1])
  }

  ghost function After(before: set<nat>, op: MaskOp): set<nat> {
    match op
    case Reset => {}
    case Set(bit) => before + {bit}
    case Clear(bit) => before - {bit}
  }

  /** The operation at i sets bit k, and none after it clears that bit. */
  ghost predicate SetsForGood(ops: seq<MaskOp>, i: nat, k: nat)
    requires i < |ops|
  {
    ops[i] == Set(k) && forall j :: i < j < |ops| ==> ops[j] != Clear(k) && !ops[j].Reset?
  }

  /** A bit is in the set exactly when some operation sets it and none after that clears it. */
  lemma {:induction false} ReplayMembers(ops: seq<MaskOp>, k: nat)
    ensures k in Replay(ops) <==> exists i :: 0 <= i < |ops| && SetsForGood(ops, i, k)
    decreases |ops|
  {
    if ops != [] {
      var before, op := ops[..|ops| - 1], ops[|ops| - 1];
      ReplayMembers(before, k);
      if op == Set(k) {
        assert SetsForGood(ops, |ops| - 1, k);
      } else if k in Replay(ops) {
        var i :| 0 <= i < |before| && SetsForGood(before, i, k);
        assert SetsForGood(ops, i, k);
      } else if i :| 0 <= i < |ops| && SetsForGood(ops, i, k) {
        assert ops[|ops| - 1] == op && i < |before|;
        assert SetsForGood(before, i, k);
      }
    }
  }

  /** One operation, on a mask with clear padding. */
  method PerformOp(bitmask: array<Word>, numBits: BitCount, op: MaskOp)
    requires numBits <= 32 * bitmask.Length && PaddingZero(bitmask[..], numBits)
    requires !op.Reset? ==> op.bit < numBits
    modifies bitmask
    ensures Members(bitmask[..], numBits) == After(old(Members(bitmask[..], numBits)), op)
    ensures PaddingZero(bitmask[..], numBits)
    ensures forall i :: 0 <= i < bitmask.Length && 32 * i >= numBits ==> bitmask[i] == old(bitmask[i])
  {
    match op {
      case Reset =>
        BitmaskInit(bitmask, numBits);
      case Set(bit) =>
        SetKeepsPadding(bitmask[..], bit, numBits);
        BitmaskSet(bitmask, bit);
      case Clear(bit) =>
        ClearKeepsPadding(bitmask[..], bit, numBits);
        BitmaskClear(bitmask, bit);
    }
  }

  /** Any run of the operations on valid bits refines the set it denotes, for `test`, for the weight,
      for the first free bit, and in the words beyond the mask, which stay as they were. */
  method RunOps(bitmask: array<Word>, numBits: BitCount, ops: seq<MaskOp>)
    returns (weight: nat, first: int)
    requires numBits <= 32 * bitmask.Length
    requires ValidOps(ops, numBits)
    modifies bitmask
    ensures Members(bitmask[..], numBits) == Replay(ops) && PaddingZero(bitmask[..], numBits)
    ensures forall i :: 0 <= i < bitmask.Length && 32 * i >= numBits ==> bitmask[i] == old(bitmask[i])
    ensures weight == |Replay(ops)|
    ensures first == -1 <==> HoldsAll(Replay(ops), numBits)
    ensures first >= 0 ==> first < numBits && first !in Replay(ops) && forall k: nat :: k < first ==> k in Replay(ops)
    ensures first == -1 <==> weight == numBits
  {
    BitmaskInit(bitmask, numBits);
    for i := 0 to |ops|
      invariant Members(bitmask[..], numBits) == Replay(ops[..i]) && PaddingZero(bitmask[..], numBits)
      invariant forall i :: 0 <= i < bitmask.Length && 32 * i >= numBits ==> bitmask[i] == old(bitmask[i])
    {
      assert ops[..i + 1][..i] == ops[..i];
      PerformOp(bitmask, numBits, ops[i]);
    }
    assert ops[..|ops|] == ops;
    weight := BitmaskWeight(bitmask, numBits);
    first := BitmaskFfz(bitmask, numBits);
    FfzExhaustedIffWeightFull(bitmask[..], numBits, first);
    if first >= 0 {
      assert forall k: nat :: k < first ==> k in Members(bitmask[..], numBits);
    }
  }

  /** The usage protocol of the header: take the first free resource and mark it. A resource in use
      is never handed out again, and the call fails only when none is free. */
  method Acquire(bitmask: array<Word>, numBits: BitCount) returns (bit: int)
    requires numBits <= 32 * bitmask.Length
    modifies bitmask
    ensures bit == -1 <==> HoldsAll(Members(old(bitmask[..]), numBits), numBits)
    ensures bit == -1 ==> bitmask[..] == old(bitmask[..])
    ensures bit != -1 ==> 0 <= bit < numBits && bit !in Members(old(bitmask[..]), numBits)
    ensures bit != -1 ==> Members(bitmask[..], numBits) == Members(old(bitmask[..]), numBits) + {bit}
    ensures old(PaddingZero(bitmask[..], numBits)) ==> PaddingZero(bitmask[..], numBits)
  {
    bit := BitmaskFfz(bitmask, numBits);
    if bit >= 0 {
      ghost var ws := bitmask[..];
      BitmaskSet(bitmask, bit);
      SetKeepsPadding(ws, bit, numBits);
    }
  }
}
