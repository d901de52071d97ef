/** The hashed permutation of internal/permutations/kensler.go: a cycle-walking shuffle of
    [0, l) made of uint32 multiplications, exclusive-ors and masked shifts. */
module Kensler {
  import opened CycleWalk
  import opened UintBits

  const MAX_UINT32: nat := 0xFFFF_FFFF

  datatype Kensler = Kensler(l: nat, p: nat) {
    /** What NewKensler promises of the shufflers it returns. */
    predicate Valid() {
      2 <= l <= MAX_UINT32 && p < l - 1
    }
  }

  datatype Result = Ok(value: Kensler) | TooLarge(l: int)

  /** NewKensler, given the number `r` drawn by rand.Int below its bound. */
  function NewKensler(l: int, r: nat): (k: Result)
    requires l <= MAX_UINT32 ==> r < (if l > 2 then l else 2) - 1
    ensures k.TooLarge? <==> l > MAX_UINT32
    ensures k.Ok? ==> k.value.Valid() && l <= k.value.l
    ensures k.Ok? && 2 <= l ==> k.value.l == l
    ensures k.Ok? && l < 2 ==> k.value == Kensler(2, 0)
  {
    if l > MAX_UINT32 then TooLarge(l)
    else Ok(Kensler(if l > 2 then l else 2, r))
  }

  /** The shuffler that pkg/dhpsi uses for n elements: it drops the error of NewKensler, and so is
      left with the zero value. */
  function ShufflerFor(n: int, r: nat): Kensler
    requires n <= MAX_UINT32 ==> r < (if n > 2 then n else 2) - 1
  {
    var k := NewKensler(n, r);
    if k.Ok? then k.value else Kensler(0, 0)
  }

  // ----- the mask w

  /** `l - 1` on uint32 */
  function Last32(l: nat): (r: nat)
    requires l < TWO32
    ensures r == if l == 0 then MAX_UINT32 else l - 1
  {
    Uint32(l + MAX_UINT32)
  }

  /** The five steps that smear the leading one of l - 1 over all lower bits. */
  function Mask(v: nat): nat {
    var w := Or(v, Shr(v, 1));
    var w := Or(w, Shr(w, 2));
    var w := Or(w, Shr(w, 4));
    var w := Or(w, Shr(w, 8));
    Or(w, Shr(w, 16))
  }

  /** Bits j, j-1, ... down to t of them are ones and nothing stands above bit j. */
  ghost predicate LeadingOnes(v: nat, j: nat, t: nat) {
    v < Pow2(j + 1) && forall i: nat :: j < i + t && i <= j ==> Bit(v, i)
  }

  lemma SmearStep(v: nat, j: nat, t: nat)
    requires LeadingOnes(v, j, t)
    ensures LeadingOnes(Or(v, Shr(v, t)), j, 2 * t)
  {
    var s := Shr(v, t);
    ShrSmaller(v, t);
    OrBounded(v, s, j + 1);
    forall i: nat | j < i + 2 * t && i <= j
      ensures Bit(Or(v, s), i)
    {
      OrBit(v, s, i);
      ShrBit(v, t, i);
    }
  }

  lemma {:induction false} LeadingBit(v: nat, n: nat) returns (j: nat)
    requires 0 < v < Pow2(n)
    ensures j < n && Pow2(j) <= v && LeadingOnes(v, j, 1)
  {
    if v == 1 {
      j := 0;
      assert n > 0;
    } else {
      var h := LeadingBit(v / 2, n - 1);
      j := h + 1;
      assert Bit(v / 2, h);
    }
  }

  /** The mask is a block of ones just wide enough for l - 1. */
  lemma MaskIsOnes(v: nat) returns (k: nat)
    requires 0 < v <= MAX_UINT32
    ensures 1 <= k <= 32 && Mask(v) == Pow2(k) - 1
    ensures Pow2(k - 1) <= v <= Mask(v)
  {
    Pow2Of32();
    var j := LeadingBit(v, 32);
    k := j + 1;
    var w1 := Or(v, Shr(v, 1));
    var w2 := Or(w1, Shr(w1, 2));
    var w4 := Or(w2, Shr(w2, 4));
    var w8 := Or(w4, Shr(w4, 8));
    SmearStep(v, j, 1);
    SmearStep(w1, j, 2);
    SmearStep(w2, j, 4);
    SmearStep(w4, j, 8);
    SmearStep(w8, j, 16);
    AllOnes(Mask(v), k);
  }

  // ----- one round

  /** `i ^ (i & w) >> s` */
  function MaskedShift(i: nat, w: nat, s: nat): nat {
    Xor(i, Shr(And(i, w), s))
  }

  // The body of the loop of Shuffle, in four parts.

  function Part1(i: nat, p: nat, w: nat): nat {
    var i := Xor(i, p);
    var i := Mul32(i, 0xe170893d);
    var i := Xor(i, Shr(p, 16));
    MaskedShift(i, w, 4)
  }

  function Part2(i: nat, p: nat, w: nat): nat {
    var i := Xor(i, Shr(p, 8));
    var i := Mul32(i, 0x0929eb3f);
    var i := Xor(i, Shr(p, 23));
    MaskedShift(i, w, 1)
  }

  function Part3(i: nat, p: nat, w: nat): nat {
    var i := Mul32(i, Or(1, Shr(p, 27)));
    var i := Mul32(i, 0x6935fa69);
    var i := MaskedShift(i, w, 11);
    var i := Mul32(i, 0x74dcb303);
    MaskedShift(i, w, 2)
  }

  function Part4(i: nat, w: nat): nat {
    var i := Mul32(i, 0x9e501cc3);
    var i := MaskedShift(i, w, 2);
    var i := Mul32(i, 0xc860a3df);
    var i := And(i, w);
    Xor(i, Shr(i, 5))
  }

  function Round(i: nat, p: nat, w: nat): nat {
    Part4(Part3(Part2(Part1(i, p, w), p, w), p, w), w)
  }

  lemma LowOfUint32(x: nat, k: nat)
    requires k <= 32
    ensures Low(Uint32(x), k) == Low(x, k)
  {
    Pow2Of32();
    ShrLowAreDivMod(x, 32);
    LowOfLow(x, 32, k);
  }

  lemma MaskedShiftLow(a: nat, s: nat, k: nat)
    ensures Low(MaskedShift(a, Pow2(k) - 1, s), k) == Xor(Low(a, k), Shr(Low(a, k), s))
  {
    AndOnes(a, k);
    SplitAt(a, k);
    var y := Shr(Low(a, k), s);
    ShrSmaller(Low(a, k), s);
    LowOfSmall(y, k);
    XorLow(a, y, k);
  }

  lemma Part4Range(i: nat, w: nat, k: nat)
    requires w == Pow2(k) - 1
    ensures Part4(i, w) <= w
  {
    var j := Mul32(MaskedShift(Mul32(i, 0x9e501cc3), w, 2), 0xc860a3df);
    AndOnes(j, k);
    SplitAt(j, k);
    var x := Low(j, k);
    ShrSmaller(x, 5);
    XorBounded(x, Shr(x, 5), k);
  }

  // ----- a round backwards

  /** What is left of x after `x ^= x >> s` gives v. */
  function UndoXorShift(v: nat, s: nat): nat
    requires s > 0
    decreases v
  {
    if v == 0 then 0
    else
      ShrSmaller(v, s);
      Xor(v, UndoXorShift(Shr(v, s), s))
  }

  /** The inverse of the odd number c below 32, modulo 2^32. */
  function SmallInverse(c: nat): nat {
    if c == 1 then 1
    else if c == 3 then 0xaaaaaaab
    else if c == 5 then 0xcccccccd
    else if c == 7 then 0xb6db6db7
    else if c == 9 then 0x38e38e39
    else if c == 11 then 0xba2e8ba3
    else if c == 13 then 0xc4ec4ec5
    else if c == 15 then 0xeeeeeeef
    else if c == 17 then 0xf0f0f0f1
    else if c == 19 then 0x286bca1b
    else if c == 21 then 0x3cf3cf3d
    else if c == 23 then 0xe9bd37a7
    else if c == 25 then 0xc28f5c29
    else if c == 27 then 0x684bda13
    else if c == 29 then 0x4f72c235
    else 0xbdef7bdf
  }

  function UndoPart4(v: nat, w: nat): nat {
    var i := UndoXorShift(v, 5);
    var i := And(Mul32(i, 0xcef8d81f), w);
    var i := UndoXorShift(i, 2);
    And(Mul32(i, 0x21ae73eb), w)
  }

  function UndoPart3(v: nat, p: nat, w: nat): nat {
    var i := UndoXorShift(v, 2);
    var i := And(Mul32(i, 0xf247cfab), w);
    var i := UndoXorShift(i, 11);
    var i := And(Mul32(i, 0xae4f35d9), w);
    And(Mul32(i, SmallInverse(Or(1, Shr(p, 27)))), w)
  }

  function UndoPart2(v: nat, p: nat, w: nat): nat {
    var i := UndoXorShift(v, 1);
    var i := And(Xor(i, Shr(p, 23)), w);
    var i := And(Mul32(i, 0xf95384bf), w);
    And(Xor(i, Shr(p, 8)), w)
  }

  function UndoPart1(v: nat, p: nat, w: nat): nat {
    var i := UndoXorShift(v, 4);
    var i := And(Xor(i, Shr(p, 16)), w);
    var i := And(Mul32(i, 0x3e779615), w);
    And(Xor(i, p), w)
  }

  /** The steps of a round undone, the last one first. */
  function Unround(v: nat, p: nat, w: nat): nat {
    UndoPart1(UndoPart2(UndoPart3(UndoPart4(v, w), p, w), p, w), p, w)
  }

  lemma {:induction false} UndoneXorShift(x: nat, s: nat)
    requires s > 0
    ensures UndoXorShift(Xor(x, Shr(x, s)), s) == x
    decreases x
  {
    if x > 0 {
      var y := Shr(x, s);
      ShrSmaller(x, s);
      XorShr(x, y, s);
      UndoneXorShift(y, s);
      XorSelfInverse(x, y);
      if Xor(x, y) == 0 {
        XorZero(y);
        assert false;
      }
    } else {
      ShrOfZero(s);
    }
  }

  lemma ShrOfZero(s: nat)
    ensures Shr(0, s) == 0 && Xor(0, 0) == 0
  {
    ShrSmaller(0, s);
  }

  lemma {:induction false} XorZero(a: nat)
    ensures Xor(0, a) == a
  {
    if a > 0 {
      XorZero(a / 2);
    }
  }

  /** A masked xorshift undone on the low bits. */
  lemma UndoMaskedShift(a: nat, s: nat, k: nat)
    requires s > 0
    ensures UndoXorShift(Low(MaskedShift(a, Pow2(k) - 1, s), k), s) == Low(a, k)
  {
    MaskedShiftLow(a, s, k);
    UndoneXorShift(Low(a, k), s);
  }

  /** An exclusive-or undone on the low bits. */
  lemma UndoXor(a: nat, c: nat, k: nat)
    ensures And(Xor(Low(Xor(a, c), k), c), Pow2(k) - 1) == Low(a, k)
  {
    var r := Low(Xor(a, c), k);
    AndOnes(Xor(r, c), k);
    XorLow(a, c, k);
    XorLow(r, c, k);
    SplitAt(Xor(a, c), k);
    LowOfSmall(r, k);
    XorSelfInverse(Low(a, k), Low(c, k));
  }

  lemma AddMultiple(x: nat, t: nat, m: nat)
    requires m > 0
    ensures (x + t * m) % m == x % m
  {
    var q, r := x / m, x % m;
    DistributeSum(q, t, m);
    DivModUnique(x + t * m, m, q + t, r);
  }

  lemma MultipleGone(q: nat, r: nat, c: nat, m: nat)
    requires m > 0
    ensures ((q * m + r) * c) % m == (r * c) % m
  {
    var x, t := r * c, q * c;
    assert (q * m + r) * c == x + t * m by {
      DistributeSum(q * m, r, c);
      SwapFactor(q, m, c);
    }
    AddMultiple(x, t, m);
  }

  lemma ModMul(a: nat, r: nat, c: nat, m: nat)
    requires m > 0 && r == a % m
    ensures (r * c) % m == (a * c) % m
  {
    var q := a / m;
    assert a == q * m + r;
    MultipleGone(q, r, c, m);
  }

  lemma DistributeSum(x: nat, y: nat, m: nat)
    ensures (x + y) * m == x * m + y * m
  {
  }

  lemma SwapFactor(q: nat, m: nat, c: nat)
    ensures (q * m) * c == (q * c) * m
  {
  }

  /** The low bits of a product come from the low bits of a factor. */
  lemma LowMul(a: nat, c: nat, k: nat)
    ensures Low(Low(a, k) * c, k) == Low(a * c, k)
  {
    hide Low, Pow2, Shr;
    var r := Low(a, k);
    ShrLowAreDivMod(a, k);
    ShrLowAreDivMod(r * c, k);
    ShrLowAreDivMod(a * c, k);
    ModMul(a, r, c, Pow2(k));
  }

  /** A multiplication undone on the low bits by that with the inverse. */
  lemma UndoMul(a: nat, c: nat, d: nat, k: nat)
    requires k <= 32 && Mul32(c, d) == 1
    ensures And(Mul32(Low(Mul32(a, c), k), d), Pow2(k) - 1) == Low(a, k)
  {
    var r := Low(Mul32(a, c), k);
    AndOnes(Mul32(r, d), k);
    LowOfUint32(r * d, k);
    LowOfUint32(a * c, k);
    LowMul(a * c, d, k);
    SwapFactor(a, c, d);
    ProductOrder(a, c, d);
    LowOfUint32(c * d, k);
    LowMul(c * d, a, k);
    LowMul(1, a, k);
  }

  lemma ProductOrder(a: nat, c: nat, d: nat)
    ensures (a * c) * d == (c * d) * a
  {
  }

  lemma SmallInverses(c: nat)
    requires c < 32 && c % 2 == 1
    ensures Mul32(c, SmallInverse(c)) == 1
  {
  }

  lemma RoundMultiplier(p: nat)
    requires p < TWO32
    ensures Or(1, Shr(p, 27)) < 32 && Or(1, Shr(p, 27)) % 2 == 1
  {
    Pow2Of32();
    Pow2Add(27, 5);
    assert Pow2(5) == 32;
    SplitAt(p, 27);
    var q := Shr(p, 27);
    if q >= 32 {
      TimesAtLeast(q, 32, Pow2(27));
      assert false;
    }
    OrBounded(1, q, 5);
    OrDigits(1, q);
  }

  lemma TimesAtLeast(a: nat, b: nat, m: nat)
    requires a >= b
    ensures a * m >= b * m
  {
  }

  lemma UndonePart4(i: nat, w: nat, k: nat)
    requires k <= 32 && w == Pow2(k) - 1
    ensures UndoPart4(Part4(i, w), w) == Low(i, k)
  {
    hide Mul32, MaskedShift, UndoXorShift, And, Low;
    var a := Mul32(i, 0x9e501cc3);
    var b := MaskedShift(a, w, 2);
    var d := Mul32(b, 0xc860a3df);
    AndOnes(d, k);
    UndoneXorShift(And(d, w), 5);
    Inverses();
    UndoMul(b, 0xc860a3df, 0xcef8d81f, k);
    UndoMaskedShift(a, 2, k);
    UndoMul(i, 0x9e501cc3, 0x21ae73eb, k);
  }

  lemma Inverses()
    ensures Mul32(0x9e501cc3, 0x21ae73eb) == Mul32(0xc860a3df, 0xcef8d81f) == 1
    ensures Mul32(0x74dcb303, 0xf247cfab) == Mul32(0x6935fa69, 0xae4f35d9) == 1
    ensures Mul32(0x0929eb3f, 0xf95384bf) == Mul32(0xe170893d, 0x3e779615) == 1
  {
  }

  lemma UndonePart3(i: nat, p: nat, w: nat, k: nat)
    requires k <= 32 && w == Pow2(k) - 1 && p < TWO32
    ensures UndoPart3(Low(Part3(i, p, w), k), p, w) == Low(i, k)
  {
    hide Mul32, MaskedShift, UndoXorShift, And, Low, Or, Shr, SmallInverse;
    var c := Or(1, Shr(p, 27));
    var a := Mul32(i, c);
    var b := Mul32(a, 0x6935fa69);
    var d := MaskedShift(b, w, 11);
    var e := Mul32(d, 0x74dcb303);
    Inverses();
    UndoMaskedShift(e, 2, k);
    UndoMul(d, 0x74dcb303, 0xf247cfab, k);
    UndoMaskedShift(b, 11, k);
    UndoMul(a, 0x6935fa69, 0xae4f35d9, k);
    RoundMultiplier(p);
    SmallInverses(c);
    UndoMul(i, c, SmallInverse(c), k);
  }

  lemma UndonePart2(i: nat, p: nat, w: nat, k: nat)
    requires k <= 32 && w == Pow2(k) - 1
    ensures UndoPart2(Low(Part2(i, p, w), k), p, w) == Low(i, k)
  {
    hide Mul32, MaskedShift, UndoXorShift, And, Low, Xor, Shr;
    var a := Xor(i, Shr(p, 8));
    var b := Mul32(a, 0x0929eb3f);
    var d := Xor(b, Shr(p, 23));
    Inverses();
    UndoMaskedShift(d, 1, k);
    UndoXor(b, Shr(p, 23), k);
    UndoMul(a, 0x0929eb3f, 0xf95384bf, k);
    UndoXor(i, Shr(p, 8), k);
  }

  lemma UndonePart1(i: nat, p: nat, w: nat, k: nat)
    requires k <= 32 && w == Pow2(k) - 1
    ensures UndoPart1(Low(Part1(i, p, w), k), p, w) == Low(i, k)
  {
    hide Mul32, MaskedShift, UndoXorShift, And, Low, Xor, Shr;
    var a := Xor(i, p);
    var b := Mul32(a, 0xe170893d);
    var d := Xor(b, Shr(p, 16));
    Inverses();
    UndoMaskedShift(d, 4, k);
    UndoXor(b, Shr(p, 16), k);
    UndoMul(a, 0xe170893d, 0x3e779615, k);
    UndoXor(i, p, k);
  }

  /** Unround takes a round back. */
  lemma UnroundRound(i: nat, p: nat, w: nat, k: nat)
    requires k <= 32 && w == Pow2(k) - 1 && p < TWO32 && i <= w
    ensures Unround(Round(i, p, w), p, w) == i
  {
    hide Part1, Part2, Part3, Part4, UndoPart1, UndoPart2, UndoPart3, UndoPart4, Low;
    var i1 := Part1(i, p, w);
    var i2 := Part2(i1, p, w);
    UndonePart4(Part3(i2, p, w), w, k);
    UndonePart3(i2, p, w, k);
    UndonePart2(i1, p, w, k);
    UndonePart1(i, p, w, k);
    LowOfSmall(i, k);
  }

  /** A round permutes [0, w]. */
  lemma RoundPermutes(p: nat, w: nat, k: nat)
    requires k <= 32 && w == Pow2(k) - 1 && p < TWO32
    ensures forall i: nat :: Round(i, p, w) <= w
    ensures forall a: nat, b: nat :: a <= w && b <= w && Round(a, p, w) == Round(b, p, w) ==> a == b
  {
    forall i: nat
      ensures Round(i, p, w) <= w
    {
      Part4Range(Part3(Part2(Part1(i, p, w), p, w), p, w), w, k);
    }
    forall a: nat, b: nat | a <= w && b <= w && Round(a, p, w) == Round(b, p, w)
      ensures a == b
    {
      RoundInjective(a, b, p, w, k);
    }
  }

  lemma RoundInjective(a: nat, b: nat, p: nat, w: nat, k: nat)
    requires k <= 32 && w == Pow2(k) - 1 && p < TWO32 && a <= w && b <= w && Round(a, p, w) == Round(b, p, w)
    ensures a == b
  {
    UnroundRound(a, p, w, k);
    UnroundRound(b, p, w, k);
  }

  // ----- Shuffle

  ghost function RoundOf(k: Kensler): nat -> nat
    requires k.l < TWO32
  {
    i => Round(i, k.p, Mask(Last32(k.l)))
  }

  ghost function UnroundOf(k: Kensler): nat -> nat
    requires k.l < TWO32
  {
    i => Unround(i, k.p, Mask(Last32(k.l)))
  }

  /** From where the loop ends, rounds taken back lead to its argument, and not below l before. */
  lemma WalkBack(k: Kensler, n: nat, t: nat)
    requires k.Valid() && n < k.l && FirstReturn(RoundOf(k), k.l, n, t)
    ensures var v := Iter(RoundOf(k), n, t);
      v < k.l && FirstReturn(UnroundOf(k), k.l, v, t) && Iter(UnroundOf(k), v, t) == n
  {
    hide Mask, Round, Unround;
    var b := MaskIsOnes(k.l - 1);
    var m := Mask(k.l - 1) + 1;
    RoundIsPermutation(k);
    forall x: nat | x < m
      ensures UnroundOf(k)(RoundOf(k)(x)) == x
    {
      UnroundRound(x, k.p, Mask(k.l - 1), b);
    }
    hide RoundOf, UnroundOf;
    IterBack(RoundOf(k), UnroundOf(k), m, n, t, t);
    forall s: nat | 1 <= s < t
      ensures Iter(UnroundOf(k), Iter(RoundOf(k), n, t), s) >= k.l
    {
      IterBack(RoundOf(k), UnroundOf(k), m, n, t, s);
    }
  }

  /** The loop of Shuffle ends for the argument n. */
  ghost predicate Ends(k: Kensler, n: nat)
    requires k.l < TWO32
  {
    exists t: nat :: FirstReturn(RoundOf(k), k.l, Uint32(n), t)
  }

  /** It does for every argument below l, of any shuffler that NewKensler returns. */
  lemma EndsBelow(k: Kensler, n: nat)
    requires k.Valid() && n < k.l
    ensures Ends(k, n)
  {
    hide Mask, Round, Uint32;
    RoundIsPermutation(k);
    var t := WalkEnds(RoundOf(k), Mask(k.l - 1) + 1, k.l, n);
    assert Uint32(n) == n;
  }

  /** The shuffler for n elements ends for its arguments exactly when n fits a uint32: after a
      dropped error it has l = 0, and nothing is below that. */
  lemma EndsIff(n: nat, r: nat, i: nat)
    requires i < n && (n <= MAX_UINT32 ==> r < (if n > 2 then n else 2) - 1)
    ensures Ends(ShufflerFor(n, r), i) <==> n <= MAX_UINT32
  {
    hide Mask, Round, Uint32;
    if n <= MAX_UINT32 {
      EndsBelow(ShufflerFor(n, r), i);
    }
  }

  lemma RoundIsPermutation(k: Kensler)
    requires k.Valid()
    ensures Permutes(RoundOf(k), Mask(k.l - 1) + 1)
    ensures k.l <= Mask(k.l - 1) + 1 <= TWO32
  {
    hide Mask, Round;
    var b := MaskIsOnes(k.l - 1);
    RoundPermutes(k.p, Mask(k.l - 1), b);
    Pow2Monotone(b, 32);
    Pow2Of32();
  }

  /** The value with which the loop of Shuffle ends. */
  ghost function Walked(k: Kensler, n: nat): (r: nat)
    requires k.Valid()
    ensures n < k.l ==> r < k.l
  {
    RoundIsPermutation(k);
    Walk(RoundOf(k), Mask(k.l - 1) + 1, k.l, n)
  }

  lemma WalkedIsFirstReturn(k: Kensler, n: nat, t: nat, last: nat)
    requires k.Valid() && n < k.l && 1 <= t <= last && FirstReturn(RoundOf(k), k.l, n, last)
    requires Iter(RoundOf(k), n, t) < k.l
    ensures Walked(k, n) == Iter(RoundOf(k), n, t)
  {
    hide Mask, RoundOf, Iter, FirstReturn;
    var u := WalkedReturns(k, n);
    FirstReturnIsLeast(RoundOf(k), k.l, n, last, t);
    FirstReturnIsLeast(RoundOf(k), k.l, n, u, t);
    ReturnInside(RoundOf(k), k.l, n, u);
    FirstReturnIsLeast(RoundOf(k), k.l, n, last, u);
  }

  lemma WalkedReturns(k: Kensler, n: nat) returns (u: nat)
    requires k.Valid() && n < k.l
    ensures FirstReturn(RoundOf(k), k.l, n, u) && Walked(k, n) == Iter(RoundOf(k), n, u)
  {
    hide Mask, Round;
    RoundIsPermutation(k);
    assert Walked(k, n) == Walk(RoundOf(k), Mask(k.l - 1) + 1, k.l, n);
    u :| FirstReturn(RoundOf(k), k.l, n, u) && Walked(k, n) == Iter(RoundOf(k), n, u);
  }

  lemma ReturnInside(f: nat -> nat, l: nat, n: nat, u: nat)
    requires FirstReturn(f, l, n, u)
    ensures u >= 1 && Iter(f, n, u) < l
  {
  }

  /** What Shuffle returns; the addition is on uint32. */
  ghost function Shuffled(k: Kensler, n: nat): (r: nat)
    requires k.Valid()
    ensures r < k.l
  {
    Uint32(Walked(k, n) + k.p) % k.l
  }

  /** The body of the loop of Shuffle, step by step. */
  method Scramble(i0: nat, p: nat, w: nat) returns (i: nat)
    ensures i == Round(i0, p, w)
    ensures forall k: nat :: k <= 32 && w == Pow2(k) - 1 && p < TWO32 && i0 <= w ==> Unround(i, p, w) == i0
  {
    i := i0;
    i := Xor(i, p);
    i := Mul32(i, 0xe170893d);
    i := Xor(i, Shr(p, 16));
    i := Xor(i, Shr(And(i, w), 4));
    ghost var i1 := i;
    assert i1 == Part1(i0, p, w);
    i := Xor(i, Shr(p, 8));
    i := Mul32(i, 0x0929eb3f);
    i := Xor(i, Shr(p, 23));
    i := Xor(i, Shr(And(i, w), 1));
    ghost var i2 := i;
    assert i2 == Part2(i1, p, w);
    i := Mul32(i, Or(1, Shr(p, 27)));
    i := Mul32(i, 0x6935fa69);
    i := Xor(i, Shr(And(i, w), 11));
    i := Mul32(i, 0x74dcb303);
    i := Xor(i, Shr(And(i, w), 2));
    ghost var i3 := i;
    assert i3 == Part3(i2, p, w);
    i := Mul32(i, 0x9e501cc3);
    i := Xor(i, Shr(And(i, w), 2));
    i := Mul32(i, 0xc860a3df);
    i := And(i, w);
    i := Xor(i, Shr(i, 5));
    assert i == Part4(i3, w);
    hide Round, Unround;
    forall k: nat | k <= 32 && w == Pow2(k) - 1 && p < TWO32 && i0 <= w
      ensures Unround(i, p, w) == i0
    {
      UnroundRound(i0, p, w, k);
    }
  }

  /** The mask w of Shuffle. */
  method SmearMask(v: nat) returns (w: nat)
    ensures w == Mask(v)
  {
    w := v;
    w := Or(w, Shr(w, 1));
    w := Or(w, Shr(w, 2));
    w := Or(w, Shr(w, 4));
    w := Or(w, Shr(w, 8));
    w := Or(w, Shr(w, 16));
  }

  /** The loop of Shuffle, from i0, when it ends. */
  method WalkBelow(k: Kensler, i0: nat, w: nat, ghost last: nat) returns (i: nat)
    requires k.l < TWO32 && w == Mask(Last32(k.l)) && FirstReturn(RoundOf(k), k.l, i0, last)
    ensures i == Iter(RoundOf(k), i0, last)
  {
    hide Mask, Round;
    i := i0;
    ghost var f := RoundOf(k);
    ghost var t: nat := 0;
    while true
      invariant i == Iter(f, i0, t) && t < last
      decreases last - t
    {
      i := Scramble(i, k.p, w);
      t := t + 1;
      assert i == Iter(f, i0, t);
      if i < k.l {
        assert t == last;
        break;
      }
    }
  }

  /** Shuffle, for all arguments for which its loop ends. */
  method Shuffle(k: Kensler, n: nat) returns (r: nat)
    requires k.l < TWO32 && Ends(k, n)
    ensures k.l > 0 && r < k.l
    ensures exists t: nat ::
              FirstReturn(RoundOf(k), k.l, Uint32(n), t) && r == Uint32(Iter(RoundOf(k), Uint32(n), t) + k.p) % k.l
    ensures k.Valid() && n < k.l ==> r == Shuffled(k, n)
    ensures k.Valid() && n < k.l ==> exists v: nat, t: nat ::
              && v < k.l && r == Uint32(v + k.p) % k.l
              && FirstReturn(UnroundOf(k), k.l, v, t) && Iter(UnroundOf(k), v, t) == n
  {
    hide Mask, RoundOf, UnroundOf, FirstReturn, Uint32, Shuffled, Iter;
    var l, p := k.l, k.p;
    var w := SmearMask(Last32(l));
    ghost var last: nat :| FirstReturn(RoundOf(k), l, Uint32(n), last);
    var i := WalkBelow(k, Uint32(n), w, last);
    ReturnInside(RoundOf(k), l, Uint32(n), last);
    r := Uint32(i + p) % l;
    if k.Valid() && n < l {
      WalkedIsFirstReturn(k, n, last, last);
      ShuffledIs(k, n);
      WalkBack(k, n, last);
    }
  }

  lemma ShuffledIs(k: Kensler, n: nat)
    requires k.Valid()
    ensures Shuffled(k, n) == Uint32(Walked(k, n) + k.p) % k.l
  {
    hide Walked, Uint32;
  }

  // ----- when Shuffle is a permutation

  lemma WalkedPermutes(k: Kensler)
    requires k.Valid()
    ensures Permutes(n => Walked(k, n), k.l)
  {
    hide Mask, Round;
    RoundIsPermutation(k);
    WalkPermutes(RoundOf(k), Mask(k.l - 1) + 1, k.l);
    var walk := n => Walk(RoundOf(k), Mask(k.l - 1) + 1, k.l, n);
    assert forall n: nat :: Walked(k, n) == walk(n);
  }

  /** Adding p and reducing modulo l rotates [0, l). */
  lemma RotationInjective(l: nat, p: nat, i: nat, j: nat)
    requires p < l && i < l && j < l && (i + p) % l == (j + p) % l
    ensures i == j
  {
    Rotate(l, p, i);
    Rotate(l, p, j);
  }

  lemma Rotate(l: nat, p: nat, i: nat)
    requires p < l && i < l
    ensures (i + p) % l == if i + p < l then i + p else i + p - l
  {
    if i + p < l {
      DivModUnique(i + p, l, 0, i + p);
    } else {
      DivModUnique(i + p, l, 1, i + p - l);
    }
  }

  /** Without wrap-around Shuffle permutes [0, l). */
  lemma ShufflePermutes(k: Kensler)
    requires k.Valid() && k.l - 1 + k.p < TWO32
    ensures Permutes(n => Shuffled(k, n), k.l)
  {
    hide Walked, Walk;
    WalkedPermutes(k);
    forall a: nat, b: nat | a < k.l && b < k.l && Shuffled(k, a) == Shuffled(k, b)
      ensures a == b
    {
      RotationInjective(k.l, k.p, Walked(k, a), Walked(k, b));
      assert (n => Walked(k, n))(a) == (n => Walked(k, n))(b);
    }
  }

  /** With wrap-around it does not: the loop reaches both l - p and 2^32 - p, and the sums l and
      2^32 give 0 both. */
  lemma ShuffleCollides(k: Kensler) returns (a: nat, b: nat)
    requires k.Valid() && k.l - 1 + k.p >= TWO32
    ensures a < k.l && b < k.l && a != b && Shuffled(k, a) == Shuffled(k, b) == 0
  {
    hide Walked, Walk;
    WalkedPermutes(k);
    a := InjectionIsOnto(n => Walked(k, n), k.l, k.l - k.p);
    b := InjectionIsOnto(n => Walked(k, n), k.l, TWO32 - k.p);
    DivModUnique(k.l, k.l, 1, 0);
    DivModUnique(0, k.l, 0, 0);
  }

  /** Shuffle permutes [0, l) if and only if l - 1 + p does not overflow a uint32. */
  lemma ShuffleIsPermutationIff(k: Kensler)
    requires k.Valid()
    ensures Permutes(n => Shuffled(k, n), k.l) <==> k.l - 1 + k.p < TWO32
  {
    hide Shuffled;
    if k.l - 1 + k.p < TWO32 {
      ShufflePermutes(k);
    } else {
      var a, b := ShuffleCollides(k);
      assert (n => Shuffled(k, n))(a) == (n => Shuffled(k, n))(b);
    }
  }

  ghost predicate IsPermutation(k: Kensler)
    requires k.Valid()
  {
    Permutes(n => Shuffled(k, n), k.l)
  }

  /** All shufflers of l elements are permutations, whatever number is drawn, if and only if l is at
      most 2^31 + 1. */
  lemma SafeSizes(l: nat)
    requires 2 <= l <= MAX_UINT32
    ensures (forall r: nat :: r < l - 1 ==> IsPermutation(NewKensler(l, r).value)) <==> l <= 0x8000_0001
  {
    hide Shuffled;
    forall r: nat | r < l - 1
      ensures IsPermutation(NewKensler(l, r).value) <==> l - 1 + r < TWO32
    {
      ShuffleIsPermutationIff(NewKensler(l, r).value);
    }
    var last: nat := l - 2;
    assert IsPermutation(NewKensler(l, last).value) <==> l - 1 + last < TWO32;
  }

  lemma ZeroSteps(w: nat, c: nat, s: nat)
    ensures Xor(0, 0) == 0 && Mul32(0, c) == 0 && Shr(0, s) == 0
    ensures And(0, w) == 0 && MaskedShift(0, w, s) == 0
  {
    ShrSmaller(0, s);
    AndZero(w);
  }

  lemma ZeroRound(w: nat)
    ensures Round(0, 0, w) == 0
  {
    forall c: nat, s: nat
      ensures Mul32(0, c) == 0 && Shr(0, s) == 0 && MaskedShift(0, w, s) == 0
    {
      ZeroSteps(w, c, s);
    }
    hide Mul32, Shr, MaskedShift;
    assert Part1(0, 0, w) == 0;
    assert Part2(0, 0, w) == 0;
    assert Part3(0, 0, w) == 0;
    AndZero(w);
    assert Part4(0, w) == 0;
  }

  /** With seed 0 the first element stays where it is. */
  lemma ZeroSeedKeepsZero(k: Kensler)
    requires k.Valid() && k.p == 0
    ensures Shuffled(k, 0) == 0
  {
    hide Mask, Round, RoundOf, Walked, Walk, Iter, FirstReturn;
    ZeroRoundOf(k);
    FixedReturns(RoundOf(k), k.l);
    WalkedIsFirstReturn(k, 0, 1, 1);
    DivModUnique(0, k.l, 0, 0);
  }

  lemma FixedReturns(f: nat -> nat, l: nat)
    requires f(0) == 0 && l > 0
    ensures Iter(f, 0, 1) == 0 && FirstReturn(f, l, 0, 1)
  {
    assert Iter(f, 0, 0) == 0;
  }

  lemma ZeroRoundOf(k: Kensler)
    requires k.Valid() && k.p == 0
    ensures RoundOf(k)(0) == 0
  {
    hide Mask, Round;
    ZeroRound(Mask(Last32(k.l)));
  }

  /** A shuffler made for one element permutes it, although NewKensler then fixes l = 2. */
  lemma SingleElement(r: nat)
    requires r < 1
    ensures NewKensler(1, r).Ok? && Permutes(n => Shuffled(NewKensler(1, r).value, n), 1)
  {
    hide Shuffled;
    ZeroSeedKeepsZero(NewKensler(1, r).value);
  }
}
