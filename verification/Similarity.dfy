/** Banded locality-sensitive hashing over 64-bit content codes (`registry-core/src/similarity.rs`):
    banding, probing, exact verification and the in-memory index. */
module Similarity {
  import opened Wrappers
  import opened Bits

  const CODE_BITS: nat := 64

  type u64 = x: nat | x < Pow2(64) witness (assert Pow2(64) > 0; 0)

  type Bands = n: nat | 1 <= n <= CODE_BITS && CODE_BITS % n == 0 witness 1

  datatype SimilarityError = InvalidBandCount(bands: nat)

  ghost predicate SplitsEvenly(n: nat, w: nat) {
    n * w == CODE_BITS
  }

  /** Accepts exactly the counts that split a code into bands of one width. */
  function NewBands(n: nat): (r: Result<Bands, SimilarityError>)
    ensures r.Success? <==> exists w: nat :: SplitsEvenly(n, w)
    ensures r.Success? ==> r.value == n && SplitsEvenly(n, Width(r.value))
    ensures r.Failure? ==> r.error == InvalidBandCount(n)
  {
    EvenSplits(n);
    if n == 0 || n > CODE_BITS || CODE_BITS % n != 0 then Failure(InvalidBandCount(n)) else Success(n)
  }

  lemma EvenSplits(n: nat)
    ensures (exists w: nat :: SplitsEvenly(n, w)) <==> 1 <= n <= CODE_BITS && CODE_BITS % n == 0
  {
    if w: nat :| SplitsEvenly(n, w) {
      assert w >= 1 && n >= 1;
      assert n * w == n + n * (w - 1);
      DivModUnique(CODE_BITS, n, w, 0);
    }
    if 1 <= n <= CODE_BITS && CODE_BITS % n == 0 {
      DivMod(CODE_BITS, n);
      assert SplitsEvenly(n, CODE_BITS / n);
    }
  }

  function Hamming(a: nat, b: nat): nat {
    Pop(Xor(a, b))
  }

  function Width(bands: Bands): (w: nat)
    ensures w * bands == CODE_BITS && 1 <= w <= CODE_BITS
  {
    assert CODE_BITS == (CODE_BITS / bands) * bands + CODE_BITS % bands;
    var w := CODE_BITS / bands;
    assert w >= 1;
    assert w <= CODE_BITS;
    w
  }

  function Shift(bands: Bands, i: nat): nat
    requires i < bands
  {
    assert Width(bands) * (i + 1) <= Width(bands) * bands;
    CODE_BITS - Width(bands) * (i + 1)
  }

  /** Band `i` of a code, most significant band first. */
  function BandValue(bands: Bands, code: nat, i: nat): nat
    requires i < bands
  {
    Low(Shr(code, Shift(bands, i)), Width(bands))
  }

  datatype BucketId = BucketId(band: nat, value: nat)

  function Buckets(bands: Bands, code: nat): seq<BucketId> {
    seq(bands, i requires 0 <= i < bands => BucketId(i, BandValue(bands, code, i)))
  }

  // ----- The bands are the code

  /** The first `n` bands read as one number. */
  ghost function Joined(bands: Bands, code: nat, n: nat): nat
    requires n <= bands
  {
    if n == 0 then 0 else Joined(bands, code, n - 1) * Pow2(Width(bands)) + BandValue(bands, code, n - 1)
  }

  /** Read from the first band to the last, a code's bands are the code. */
  lemma BandsAreTheCode(bands: Bands, code: u64)
    ensures Joined(bands, code, bands) == code
    ensures forall i :: 0 <= i < bands ==> BandValue(bands, code, i) < Pow2(Width(bands))
  {
    JoinedIsTop(bands, code, bands);
    assert Shr(code, 0) == code;
    forall i | 0 <= i < bands ensures BandValue(bands, code, i) < Pow2(Width(bands)) {
      DivMod(Shr(code, Shift(bands, i)), Pow2(Width(bands)));
    }
  }

  lemma Widths(bands: Bands, n: nat)
    requires n <= bands
    ensures 0 <= Width(bands) * n <= CODE_BITS
    ensures n > 0 ==> Width(bands) * (n - 1) == Width(bands) * n - Width(bands) && Shift(bands, n - 1) == CODE_BITS - Width(bands) * n
  {
    assert Width(bands) * n <= Width(bands) * bands;
  }

  lemma {:induction false} JoinedIsTop(bands: Bands, code: u64, n: nat)
    requires n <= bands
    ensures 0 <= Width(bands) * n <= CODE_BITS && Joined(bands, code, n) == Shr(code, CODE_BITS - Width(bands) * n)
  {
    hide Pow2, Width, Shr, Low;
    Widths(bands, n);
    if n == 0 {
      NothingLeft(code);
    } else {
      JoinedIsTop(bands, code, n - 1);
      var s: nat := CODE_BITS - Width(bands) * n;
      ShrTwice(code, s, Width(bands));
      SplitAndJoin(Shr(code, s), Width(bands));
    }
  }

  lemma NothingLeft(code: u64)
    ensures Shr(code, CODE_BITS) == 0
  {
    DivModUnique(code, Pow2(CODE_BITS), 0, code);
  }

  lemma SplitAndJoin(y: nat, w: nat)
    ensures Shr(y, w) * Pow2(w) + Low(y, w) == y
  {
    DivMod(y, Pow2(w));
  }

  // ----- Distance is the sum of the bands' distances

  ghost function BandDistances(bands: Bands, a: nat, b: nat, n: nat): nat
    requires n <= bands
  {
    if n == 0 then 0
    else BandDistances(bands, a, b, n - 1) + Hamming(BandValue(bands, a, n - 1), BandValue(bands, b, n - 1))
  }

  lemma {:induction false} HighBands(bands: Bands, a: nat, b: nat, n: nat)
    requires n <= bands && a < Pow2(64) && b < Pow2(64)
    ensures Width(bands) * n <= CODE_BITS
    ensures Pop(Shr(Xor(a, b), CODE_BITS - Width(bands) * n)) == BandDistances(bands, a, b, n)
  {
    hide Shr, Low, Xor, Pow2, Pop;
    var w, x := Width(bands), Xor(a, b);
    BandEnds(bands, w, n);
    if n == 0 {
      XorBound(a, b, 64);
      ShrAll(x);
    } else {
      HighBands(bands, a, b, n - 1);
      NextBand(bands, a, b, n - 1);
    }
  }

  lemma BandEnds(bands: Bands, w: nat, n: nat)
    requires n <= bands && w * bands == CODE_BITS
    ensures w * n <= CODE_BITS && (n == 0 ==> w * n == 0)
  {
    assert w * n + w * (bands - n) == w * bands;
  }

  /** Taking in one more band adds that band's distance. */
  lemma NextBand(bands: Bands, a: nat, b: nat, i: nat)
    requires i < bands
    ensures Shift(bands, i) + Width(bands) == CODE_BITS - Width(bands) * i
    ensures Pop(Shr(Xor(a, b), Shift(bands, i))) ==
            Pop(Shr(Xor(a, b), Shift(bands, i) + Width(bands))) + Hamming(BandValue(bands, a, i), BandValue(bands, b, i))
  {
    hide Shr, Low, Xor, Pow2, Pop;
    var w, sh, x := Width(bands), Shift(bands, i), Xor(a, b);
    PopSplit(Shr(x, sh), w);
    ShrTwice(x, sh, w);
    XorSplit(a, b, sh);
    XorSplit(Shr(a, sh), Shr(b, sh), w);
  }

  lemma ShrAll(x: nat)
    requires x < Pow2(64)
    ensures Shr(x, 64) == 0 && Pop(Shr(x, 64)) == 0
  {
    hide Pow2;
    SmallShr(x, 64);
  }

  lemma SmallShr(x: nat, n: nat)
    requires x < Pow2(n)
    ensures Shr(x, n) == 0 && Low(x, n) == x
  {
    hide Pow2;
    DivModUnique(x, Pow2(n), 0, x);
  }

  lemma {:induction false} ShrTwice(x: nat, a: nat, b: nat)
    ensures Shr(Shr(x, a), b) == Shr(x, a + b)
    decreases a
  {
    hide Shr, Low, Pow2;
    if a == 0 {
      SplitAtZero(x);
    } else {
      HalveSplit(x, a);
      HalveSplit(x, a + b);
      ShrTwice(x / 2, a - 1, b);
    }
  }

  lemma DistanceIsSumOfBands(bands: Bands, a: u64, b: u64)
    ensures Hamming(a, b) == BandDistances(bands, a, b, bands)
  {
    HighBands(bands, a, b, bands);
    assert CODE_BITS - Width(bands) * bands == 0;
    SplitAtZero(Xor(a, b));
  }

  /** Pigeonhole: fewer than `bands * (radius + 1)` differing bits leave a band with at most `radius`. */
  lemma {:induction false} SomeBandIsClose(bands: Bands, a: nat, b: nat, n: nat, radius: nat) returns (i: nat)
    requires n <= bands && BandDistances(bands, a, b, n) < n * (radius + 1)
    ensures i < n && Hamming(BandValue(bands, a, i), BandValue(bands, b, i)) <= radius
  {
    hide BandValue, Hamming;
    if Hamming(BandValue(bands, a, n - 1), BandValue(bands, b, n - 1)) <= radius {
      i := n - 1;
    } else {
      assert n * (radius + 1) == (n - 1) * (radius + 1) + (radius + 1);
      i := SomeBandIsClose(bands, a, b, n - 1, radius);
    }
  }

  // ----- Probing

  ghost predicate NoDuplicates<T>(s: seq<T>) {
    forall i, j :: 0 <= i < j < |s| ==> s[i] != s[j]
  }

  lemma NoDuplicatesAppend<T>(s: seq<T>, x: T)
    requires NoDuplicates(s) && x !in s
    ensures NoDuplicates(s + [x])
  {}

  lemma NoDuplicatesConcat<T>(a: seq<T>, b: seq<T>)
    requires NoDuplicates(a) && NoDuplicates(b) && forall x :: x in a ==> x !in b
    ensures NoDuplicates(a + b)
  {
    var s := a + b;
    forall i, j | 0 <= i < j < |s| ensures s[i] != s[j] {
      if i < |a| <= j { assert s[i] in a && s[j] in b; }
    }
  }

  /** The masks below 2^width that `Rest` takes into `base`: one bit above all of a mask of `base`. */
  ghost predicate Extends(x: nat, base: seq<nat>, width: nat) {
    x > 0 && x < Pow2(width) && Rest(x) in base
  }

  /** Extends every mask of `current` by one higher bit, in every way that stays below 2^width. */
  method NextMasks(current: seq<nat>, width: nat) returns (next: seq<nat>)
    requires NoDuplicates(current) && forall m :: m in current ==> m < Pow2(width)
    ensures NoDuplicates(next)
    ensures forall x: nat :: x in next <==> Extends(x, current, width)
  {
    hide Pow2, Rest, NoDuplicates, TopBit, Or;
    next := [];
    NothingExtends(width);
    NoDuplicatesEmpty<nat>();
    for i := 0 to |current|
      invariant NoDuplicates(next)
      invariant forall x: nat :: x in next <==> Extends(x, current[..i], width)
    {
      var m := current[i];
      BitLenBounds(m, width);
      ghost var before := next;
      FreshMask(current, i);
      RestIsLower(m);
      assert m in current;
      for bit := BitLen(m) to width
        invariant NoDuplicates(next)
        invariant forall x: nat :: x in next <==> x in before || (x > 0 && Rest(x) == m && TopBit(x) < bit)
      {
        MaskWithBit(m, bit);
        NoDuplicatesAppend(next, Or(m, Pow2(bit)));
        next := next + [Or(m, Pow2(bit))];
      }
      ExtendsOneMore(current, i, width);
    }
    assert current[..|current|] == current;
  }

  /** The one number whose top bit is `bit` and whose rest is `m`. */
  lemma MaskWithBit(m: nat, bit: nat)
    requires BitLen(m) <= bit
    ensures var y := Or(m, Pow2(bit)); y > 0 && Rest(y) == m && TopBit(y) == bit
    ensures forall x: nat :: x > 0 && Rest(x) == m && TopBit(x) == bit ==> x == Or(m, Pow2(bit))
  {
    hide Pow2, Or, Pop, BitLen;
    BitLenBounds(m, bit);
    SetHighBit(m, bit);
  }

  lemma RestIsLower(m: nat)
    ensures forall x: nat :: x > 0 && Rest(x) == m ==> BitLen(m) <= TopBit(x)
  {
    forall x: nat | x > 0 && Rest(x) == m ensures BitLen(m) <= TopBit(x) {
      BitLenBounds(m, TopBit(x));
    }
  }

  lemma ExtendsOneMore(current: seq<nat>, i: nat, width: nat)
    requires i < |current|
    ensures forall x: nat :: Extends(x, current[..i + 1], width) <==>
              Extends(x, current[..i], width) || (x > 0 && Rest(x) == current[i] && TopBit(x) < width)
  {
    hide Pow2, Rest;
    assert current[..i + 1] == current[..i] + [current[i]];
    forall x: nat | x > 0 ensures x < Pow2(width) <==> TopBit(x) < width {
      BitLenBounds(x, width);
    }
  }

  lemma NothingExtends(width: nat)
    ensures forall x: nat :: !Extends(x, [], width)
  {}

  lemma NoDuplicatesEmpty<T>()
    ensures NoDuplicates<T>([])
  {}

  lemma FreshMask(current: seq<nat>, i: nat)
    requires i < |current| && NoDuplicates(current)
    ensures current[i] !in current[..i]
  {}

  lemma {:induction false} PopBound(x: nat, width: nat)
    requires x < Pow2(width)
    ensures Pop(x) <= width
  {
    if width > 0 { PopBound(x / 2, width - 1); }
  }

  /** One more bit: the masks with `k + 1` ones are those that extend the masks with `k`. */
  lemma OneMoreBit(current: seq<nat>, k: nat, width: nat)
    requires forall x: nat :: x in current <==> x < Pow2(width) && Pop(x) == k
    ensures forall x: nat :: Extends(x, current, width) <==> x < Pow2(width) && Pop(x) == k + 1
  {
    hide Pow2, Pop, Rest, TopBit;
    forall x: nat | x > 0 && x < Pow2(width) ensures Rest(x) < Pow2(width) && Pop(x) == Pop(Rest(x)) + 1 {
      SetHighBit(Rest(x), TopBit(x));
    }
    PopZero(0);
  }

  /** Every mask of at most `radius` ones in `width` bits, each once, and nothing else. */
  method BitFlipMasks(width: nat, radius: nat) returns (masks: seq<nat>)
    ensures forall x: nat :: x in masks <==> x < Pow2(width) && Pop(x) <= radius
    ensures NoDuplicates(masks)
  {
    hide Pow2, Pop, NoDuplicates, Extends;
    var most := if radius < width then radius else width;
    masks := [0];
    var current := [0];
    OnlyZero(width);
    for k := 0 to most
      invariant NoDuplicates(masks) && NoDuplicates(current)
      invariant forall x: nat :: x in current <==> x < Pow2(width) && Pop(x) == k
      invariant forall x: nat :: x in masks <==> x < Pow2(width) && Pop(x) <= k
    {
      var next := NextMasks(current, width);
      OneMoreBit(current, k, width);
      NoDuplicatesConcat(masks, next);
      masks := masks + next;
      current := next;
    }
    forall x: nat | x < Pow2(width) ensures Pop(x) <= width { PopBound(x, width); }
  }

  lemma OnlyZero(width: nat)
    ensures forall x: nat :: x in [0] <==> x < Pow2(width) && Pop(x) == 0
    ensures NoDuplicates<nat>([0])
  {
    forall x: nat ensures x in [0] <==> x < Pow2(width) && Pop(x) == 0 { PopZero(x); }
  }

  /** The buckets a query looks up: in each band, those within `probe` of the query's band value. */
  ghost predicate Probed(bands: Bands, code: nat, probe: nat, id: BucketId) {
    id.band < bands && id.value < Pow2(Width(bands)) && Hamming(BandValue(bands, code, id.band), id.value) <= probe
  }

  lemma BandValueBound(bands: Bands, code: nat, i: nat)
    requires i < bands
    ensures BandValue(bands, code, i) < Pow2(Width(bands))
  {}

  /** With no probing, only the query's own buckets. */
  lemma ProbeZero(bands: Bands, code: nat)
    ensures forall id :: id in Buckets(bands, code) <==> Probed(bands, code, 0, id)
  {
    forall id ensures id in Buckets(bands, code) <==> Probed(bands, code, 0, id) {
      if id.band < bands {
        var base := BandValue(bands, code, id.band);
        BandValueBound(bands, code, id.band);
        PopZero(Xor(base, id.value));
        XorZero(base, id.value);
        assert Buckets(bands, code)[id.band] == BucketId(id.band, base);
      }
    }
  }

  method QueryBuckets(bands: Bands, code: u64, probe: nat) returns (out: seq<BucketId>)
    ensures forall id :: id in out <==> Probed(bands, code, probe, id)
    ensures NoDuplicates(out)
  {
    if probe == 0 {
      ProbeZero(bands, code);
      return Buckets(bands, code);
    }
    hide Pow2, Pop, NoDuplicates, BandValue, Hamming, Xor;
    var width := Width(bands);
    out := [];
    NoDuplicatesEmpty<BucketId>();
    for band := 0 to bands
      invariant forall id :: id in out <==> id.band < band && Probed(bands, code, probe, id)
      invariant NoDuplicates(out)
    {
      var base := BandValue(bands, code, band);
      var masks := BitFlipMasks(width, probe);
      ghost var before := out;
      BandValueBound(bands, code, band);
      for i := 0 to |masks|
        invariant forall id :: id in out <==> id in before || (id.band == band && Xor(base, id.value) in masks[..i])
        invariant NoDuplicates(out)
      {
        XorBack(base);
        FreshMask(masks, i);
        NoDuplicatesAppend(out, BucketId(band, Xor(base, masks[i])));
        assert masks[..i + 1] == masks[..i] + [masks[i]];
        out := out + [BucketId(band, Xor(base, masks[i]))];
      }
      assert masks[..|masks|] == masks;
      FlipsAreProbes(bands, code, probe, band, masks);
    }
  }

  lemma XorBack(base: nat)
    ensures forall x: nat :: Xor(base, Xor(base, x)) == x
  {
    forall x: nat ensures Xor(base, Xor(base, x)) == x { XorUndoes(base, x); }
  }

  lemma FlipsAreProbes(bands: Bands, code: nat, probe: nat, band: nat, masks: seq<nat>)
    requires band < bands
    requires forall x: nat :: x in masks <==> x < Pow2(Width(bands)) && Pop(x) <= probe
    ensures forall id: BucketId :: id.band == band ==>
              (Xor(BandValue(bands, code, band), id.value) in masks <==> Probed(bands, code, probe, id))
  {
    var base := BandValue(bands, code, band);
    BandValueBound(bands, code, band);
    forall id: BucketId | id.band == band ensures Xor(base, id.value) in masks <==> Probed(bands, code, probe, id) {
      if id.value < Pow2(Width(bands)) { XorBound(base, id.value, Width(bands)); }
      if Xor(base, id.value) < Pow2(Width(bands)) {
        XorBound(base, Xor(base, id.value), Width(bands));
        XorUndoes(base, id.value);
      }
    }
  }

  /** Codes close enough share a probed bucket. */
  lemma CloseCodesMeet(bands: Bands, query: u64, code: u64, probe: nat) returns (id: BucketId)
    requires Hamming(query, code) < bands * (probe + 1)
    ensures id in Buckets(bands, code) && Probed(bands, query, probe, id)
  {
    DistanceIsSumOfBands(bands, query, code);
    var i := SomeBandIsClose(bands, query, code, bands, probe);
    BandValueBound(bands, code, i);
    id := Buckets(bands, code)[i];
  }

  // ----- The bound is exact

  /** `n` bands of width `w`, each holding `m`. */
  ghost function Fill(w: nat, m: nat, n: nat): nat {
    if n == 0 then 0 else Fill(w, m, n - 1) * Pow2(w) + m
  }

  lemma {:induction false} FillBound(w: nat, m: nat, n: nat)
    requires m < Pow2(w)
    ensures Fill(w, m, n) < Pow2(w * n)
  {
    hide Pow2;
    if n == 0 {
      assert w * 0 == 0;
    } else {
      FillBound(w, m, n - 1);
      Pow2Sum(w * (n - 1), w);
      assert w * n == w * (n - 1) + w;
      NextDigit(Fill(w, m, n - 1), Pow2(w * (n - 1)), Pow2(w), m);
    }
  }

  lemma NextDigit(x: nat, bound: nat, base: nat, digit: nat)
    requires x < bound && digit < base
    ensures x * base + digit < bound * base
  {
    assert bound * base == (x + 1) * base + (bound - x - 1) * base;
    assert (bound - x - 1) * base >= 0;
  }

  lemma {:induction false} FillShifted(w: nat, m: nat, n: nat, k: nat)
    requires m < Pow2(w) && k <= n
    ensures Shr(Fill(w, m, n), w * k) == Fill(w, m, n - k)
  {
    hide Pow2, Shr, Low;
    if k == 0 {
      assert w * 0 == 0;
      SplitAtZero(Fill(w, m, n));
    } else {
      var last := n - k + 1;
      FillShifted(w, m, n, k - 1);
      assert w * k == w * (k - 1) + w;
      ShrTwice(Fill(w, m, n), w * (k - 1), w);
      FillLast(w, m, last);
    }
  }

  lemma FillLast(w: nat, m: nat, n: nat)
    requires m < Pow2(w) && n > 0
    ensures Shr(Fill(w, m, n), w) == Fill(w, m, n - 1) && Low(Fill(w, m, n), w) == m
  {
    hide Pow2;
    DivModUnique(Fill(w, m, n), Pow2(w), Fill(w, m, n - 1), m);
  }

  lemma {:induction false} PopOfOnes(n: nat)
    ensures Pop(Pow2(n) - 1) == n
  {
    if n > 0 {
      PopOfOnes(n - 1);
      PopCons(1, Pow2(n - 1) - 1);
    }
  }

  lemma FillBand(bands: Bands, m: nat, i: nat)
    requires i < bands && m < Pow2(Width(bands))
    ensures BandValue(bands, Fill(Width(bands), m, bands), i) == m
  {
    hide Pow2, Shr, Low, Fill;
    var w := Width(bands);
    assert Shift(bands, i) == w * (bands - 1 - i) by {
      assert w * bands == w * (i + 1) + w * (bands - 1 - i);
    }
    FillShifted(w, m, bands, bands - 1 - i);
    FillLast(w, m, i + 1);
  }

  lemma BandOfXor(bands: Bands, a: nat, b: nat, i: nat)
    requires i < bands
    ensures BandValue(bands, Xor(a, b), i) == Xor(BandValue(bands, a, i), BandValue(bands, b, i))
  {
    hide Pow2, Shr, Low, Xor;
    XorSplit(a, b, Shift(bands, i));
    XorSplit(Shr(a, Shift(bands, i)), Shr(b, Shift(bands, i)), Width(bands));
  }

  lemma {:induction false} EqualBandDistances(bands: Bands, a: nat, b: nat, n: nat, d: nat)
    requires n <= bands
    requires forall i: nat :: i < bands ==> Hamming(BandValue(bands, a, i), BandValue(bands, b, i)) == d
    ensures BandDistances(bands, a, b, n) == n * d
  {
    hide BandValue, Hamming;
    if n > 0 {
      EqualBandDistances(bands, a, b, n - 1, d);
      assert n * d == (n - 1) * d + d;
    }
  }

  /** With `probe + 1` bits of every band flipped, no probe meets the code. */
  lemma MissedCode(bands: Bands, query: u64, probe: nat) returns (code: u64)
    requires probe < Width(bands)
    ensures Hamming(query, code) == bands * (probe + 1)
    ensures forall id :: id in Buckets(bands, code) ==> !Probed(bands, query, probe, id)
  {
    hide Pow2, Xor, Pop, BandValue, Fill;
    var w, m := Width(bands), Pow2(probe + 1) - 1;
    Pow2Monotone(probe + 1, w);
    PopOfOnes(probe + 1);
    var mask := Fill(w, m, bands);
    FillBound(w, m, bands);
    XorBound(query, mask, 64);
    code := Xor(query, mask);
    forall i: nat | i < bands ensures Hamming(BandValue(bands, query, i), BandValue(bands, code, i)) == probe + 1 {
      FillBand(bands, m, i);
      BandOfXor(bands, query, mask, i);
      XorUndoes(BandValue(bands, query, i), m);
    }
    DistanceIsSumOfBands(bands, query, code);
    EqualBandDistances(bands, query, code, bands, probe + 1);
  }

  /** With the probe as wide as a band every code is met. */
  lemma WideProbeMeetsAll(bands: Bands, query: u64, code: u64, probe: nat) returns (id: BucketId)
    requires probe >= Width(bands)
    ensures id in Buckets(bands, code) && Probed(bands, query, probe, id)
  {
    hide Pow2, Xor, Pop, BandValue;
    id := Buckets(bands, code)[0];
    BandValueBound(bands, query, 0);
    BandValueBound(bands, code, 0);
    XorBound(BandValue(bands, query, 0), id.value, Width(bands));
    PopBound(Xor(BandValue(bands, query, 0), id.value), Width(bands));
  }

  ghost predicate Met(bands: Bands, query: nat, code: nat, probe: nat) {
    exists id :: id in Buckets(bands, code) && Probed(bands, query, probe, id)
  }

  /** The distance below which probing is certain to meet a code is exactly `bands * (probe + 1)`, or
      unbounded when a probe covers whole bands. */
  lemma RecallBoundIsExact(bands: Bands, query: u64, probe: nat, bound: nat)
    ensures (forall code: u64 :: Hamming(query, code) < bound ==> Met(bands, query, code, probe))
            <==> (bound <= bands * (probe + 1) || probe >= Width(bands))
  {
    hide Hamming, Buckets, Probed;
    if bound <= bands * (probe + 1) || probe >= Width(bands) {
      forall code: u64 | Hamming(query, code) < bound ensures Met(bands, query, code, probe) {
        if probe >= Width(bands) {
          var id := WideProbeMeetsAll(bands, query, code, probe);
        } else {
          var id := CloseCodesMeet(bands, query, code, probe);
        }
      }
    } else {
      var code := MissedCode(bands, query, probe);
      assert !Met(bands, query, code, probe);
    }
  }
}
