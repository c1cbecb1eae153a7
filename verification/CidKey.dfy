/** Legacy declaration identifiers: the in-place big-integer base conversion and the length filter in
    front of it (`registry-core/src/cidkey.rs`). */
module CidKey {
  import opened Wrappers
  import opened Digests
  import opened Bits

  // ----- Digit sequences, most significant digit first

  ghost predicate DigitsIn(ds: seq<nat>, base: nat) {
    forall d :: d in ds ==> d < base
  }

  ghost function Num(ds: seq<nat>, base: nat): nat {
    if ds == [] then 0 else base * Num(ds[..|ds| - 1], base) + ds[|ds| - 1]
  }

  lemma Quotient(n: nat, base: nat)
    requires base > 1 && n > 0
    ensures 0 <= n / base < n && 0 <= n % base < base && n == base * (n / base) + n % base
  {
    DivMod(n, base);
    var q: int := n / base;
    assert n == q * base + n % base;
    QuotientBounds(n, base, q);
  }

  lemma QuotientBounds(n: nat, base: nat, q: int)
    requires base > 1 && n > 0 && 0 <= n - q * base < base
    ensures 0 <= q < n
  {
    assert q < 0 ==> q * base + base <= 0;
    assert q > 0 ==> q * base >= 2 * q;
  }

  /** The digits of `n`, none for zero. */
  ghost function Digits(n: nat, base: nat): seq<nat>
    requires base > 1
  {
    if n == 0 then [] else Quotient(n, base); Digits(n / base, base) + [n % base]
  }

  ghost function LeadingZeros(ds: seq<nat>): (k: nat)
    ensures k <= |ds|
  {
    if ds == [] || ds[0] != 0 then 0 else 1 + LeadingZeros(ds[1..])
  }

  ghost function Zeros(k: nat): Bytes {
    seq(k, _ => 0)
  }

  /** The base-x encoding: a leading zero for each leading zero, then the value's own digits. */
  ghost function Convert(ds: seq<nat>, from: nat, to: nat): seq<nat>
    requires to > 1
  {
    Zeros(LeadingZeros(ds)) + Digits(Num(ds, from), to)
  }

  ghost predicate Minimal(ds: seq<nat>) {
    ds != [] ==> ds[0] != 0
  }

  lemma {:induction false} NumPositive(ds: seq<nat>, base: nat)
    requires ds != [] && ds[0] != 0 && base > 1
    ensures Num(ds, base) > 0
  {
    if |ds| > 1 {
      NumPositive(ds[..|ds| - 1], base);
      assert base * Num(ds[..|ds| - 1], base) > 0;
    }
  }

  lemma {:induction false} DigitsOfNum(ds: seq<nat>, base: nat)
    requires DigitsIn(ds, base) && Minimal(ds) && base > 1
    ensures Digits(Num(ds, base), base) == ds
  {
    if ds != [] {
      var n := |ds| - 1;
      var rest, last := ds[..n], ds[n];
      assert last in ds && forall d :: d in rest ==> d in ds;
      NumPositive(ds, base);
      DivModUnique(Num(ds, base), base, Num(rest, base), last);
      DigitsOfNum(rest, base);
      assert ds == rest + [last];
    }
  }

  lemma {:induction false} NumOfDigits(n: nat, base: nat)
    requires base > 1
    ensures Num(Digits(n, base), base) == n && DigitsIn(Digits(n, base), base) && Minimal(Digits(n, base))
  {
    if n > 0 {
      Quotient(n, base);
      var q, r: nat := n / base, n % base;
      NumOfDigits(q, base);
      assert (Digits(q, base) + [r])[..|Digits(q, base)|] == Digits(q, base);
    }
  }

  lemma {:induction false} SplitLeadingZeros(ds: seq<nat>)
    ensures ds == Zeros(LeadingZeros(ds)) + ds[LeadingZeros(ds)..] && Minimal(ds[LeadingZeros(ds)..])
  {
    if ds != [] && ds[0] == 0 {
      SplitLeadingZeros(ds[1..]);
      assert ds == [0] + ds[1..];
      assert Zeros(LeadingZeros(ds)) == [0] + Zeros(LeadingZeros(ds[1..]));
    }
  }

  lemma {:induction false} LeadingZerosOf(k: nat, ds: seq<nat>)
    requires Minimal(ds)
    ensures LeadingZeros(Zeros(k) + ds) == k
  {
    if k == 0 {
      assert Zeros(k) + ds == ds;
    } else {
      assert (Zeros(k) + ds)[1..] == Zeros(k - 1) + ds;
      LeadingZerosOf(k - 1, ds);
    }
  }

  lemma {:induction false} NumWithZeros(k: nat, ds: seq<nat>, base: nat)
    ensures Num(Zeros(k) + ds, base) == Num(ds, base)
    decreases |ds|, k
  {
    var all := Zeros(k) + ds;
    if ds != [] {
      assert all[..|all| - 1] == Zeros(k) + ds[..|ds| - 1];
      NumWithZeros(k, ds[..|ds| - 1], base);
    } else if k > 0 {
      assert all[..|all| - 1] == Zeros(k - 1) + ds;
      NumWithZeros(k - 1, ds, base);
    }
  }

  /** Converting back gives the digits one started from: the conversion is a bijection between the digit
      sequences of the two bases. */
  lemma ConvertRoundTrip(ds: seq<nat>, from: nat, to: nat)
    requires from > 1 && to > 1 && DigitsIn(ds, from)
    ensures DigitsIn(Convert(ds, from, to), to)
    ensures Convert(Convert(ds, from, to), to, from) == ds
  {
    var k := LeadingZeros(ds);
    var rest, n := ds[k..], Num(ds, from);
    var out := Digits(n, to);
    assert forall d :: d in rest ==> d in ds;
    SplitLeadingZeros(ds);
    NumWithZeros(k, rest, from);
    NumOfDigits(n, to);
    LeadingZerosOf(k, out);
    NumWithZeros(k, out, to);
    DigitsOfNum(rest, from);
  }

  // ----- The alphabet

  /** The position in `abcdefghijklmnopqrstuvwxyz234567`. */
  function DigitOf(c: byte): (d: Option<nat>)
    ensures d.Some? ==> d.value < 32
  {
    if 97 <= c <= 122 then Some(c - 97)
    else if 50 <= c <= 55 then Some(c - 50 + 26)
    else None
  }

  const ALPHABET: string := "abcdefghijklmnopqrstuvwxyz234567"

  /** A character's digit is its position in the alphabet; others have none. */
  lemma DigitIsPosition(c: byte, d: nat)
    ensures |ALPHABET| == 32
    ensures DigitOf(c) == Some(d) <==> d < 32 && ALPHABET[d] as int == c
  {
    if d < 26 {
      assert ALPHABET[d] == 'a' + d as char;
    } else if d < 32 {
      assert ALPHABET[d] == '2' + (d - 26) as char;
    }
  }

  ghost predicate Valid(text: Bytes) {
    forall c :: c in text ==> DigitOf(c).Some?
  }

  ghost function TextDigits(text: Bytes): (ds: seq<nat>)
    requires Valid(text)
    ensures |ds| == |text| && DigitsIn(ds, 32)
  {
    seq(|text|, i requires 0 <= i < |text| => assert text[i] in text; DigitOf(text[i]).value)
  }

  lemma TextDigitsInjective(s: Bytes, t: Bytes)
    requires Valid(s) && Valid(t) && TextDigits(s) == TextDigits(t)
    ensures s == t
  {
    forall i | 0 <= i < |s| ensures s[i] == t[i] {
      assert TextDigits(s)[i] == TextDigits(t)[i];
    }
  }

  // ----- Decoding

  /** The number in little-endian bytes. */
  ghost function LittleEndian(bytes: seq<nat>): nat {
    if bytes == [] then 0 else bytes[0] + 256 * LittleEndian(bytes[1..])
  }

  ghost function Pow256(n: nat): nat {
    if n == 0 then 1 else 256 * Pow256(n - 1)
  }

  lemma ConcatStep(low: nat, rest: nat, p: nat, x: nat)
    ensures low + 256 * (rest + p * x) == (low + 256 * rest) + (256 * p) * x
  {
    assert 256 * (p * x) == (256 * p) * x;
  }

  lemma {:induction false} LittleEndianConcat(a: seq<nat>, b: seq<nat>)
    ensures LittleEndian(a + b) == LittleEndian(a) + Pow256(|a|) * LittleEndian(b)
  {
    if a == [] {
      assert a + b == b;
    } else {
      LittleEndianConcat(a[1..], b);
      assert (a + b)[1..] == a[1..] + b;
      var rest, p, x := LittleEndian(a[1..]), Pow256(|a| - 1), LittleEndian(b);
      assert LittleEndian(a + b) == a[0] + 256 * LittleEndian(a[1..] + b);
      assert LittleEndian(a) == a[0] + 256 * rest && Pow256(|a|) == 256 * p;
      hide LittleEndian, Pow256;
      ConcatStep(a[0], rest, p, x);
    }
  }

  function Reverse(s: Bytes): (r: Bytes)
    ensures |r| == |s|
  {
    if s == [] then [] else Reverse(s[1..]) + [s[0]]
  }

  lemma {:induction false} ReversedValue(bytes: Bytes)
    ensures Num(Reverse(bytes), 256) == LittleEndian(bytes)
    ensures bytes != [] ==> Reverse(bytes)[0] == bytes[|bytes| - 1]
    ensures forall b :: b in Reverse(bytes) <==> b in bytes
  {
    if bytes != [] {
      ReversedValue(bytes[1..]);
      assert Reverse(bytes)[..|bytes| - 1] == Reverse(bytes[1..]);
      assert bytes == [bytes[0]] + bytes[1..];
    }
  }

  /** The most significant byte of a little-endian number is not zero. */
  ghost predicate NoTopZero(bytes: seq<nat>) {
    bytes != [] ==> bytes[|bytes| - 1] != 0
  }

  lemma OneByte(low: nat)
    ensures LittleEndian([low]) == low
  {}

  lemma AppendByte(bytes: seq<nat>, low: nat, carry: nat)
    ensures LittleEndian(bytes + [low]) + Pow256(|bytes| + 1) * carry == LittleEndian(bytes) + Pow256(|bytes|) * (low + 256 * carry)
  {
    LittleEndianConcat(bytes, [low]);
    OneByte(low);
    hide LittleEndian;
    var p := Pow256(|bytes|);
    assert (256 * p) * carry == p * (256 * carry);
    assert p * (low + 256 * carry) == p * low + p * (256 * carry);
  }

  /** Multiplies the number by 32 and adds a digit, in place; the carry stays a single base-32 digit. */
  method ShiftIn(bytes: Bytes, digit: nat) returns (r: Bytes)
    requires digit < 32 && NoTopZero(bytes)
    ensures LittleEndian(r) == 32 * LittleEndian(bytes) + digit && NoTopZero(r)
  {
    hide LittleEndian, Pow256;
    r := bytes;
    var carry: nat := digit;
    LittleEndianEmpty();
    for j := 0 to |bytes|
      invariant |r| == |bytes| && carry < 32 && r[j..] == bytes[j..]
      invariant LittleEndian(r[..j]) + Pow256(j) * carry == 32 * LittleEndian(bytes[..j]) + digit
      invariant j > 0 && bytes[j - 1] != 0 && carry == 0 ==> r[j - 1] != 0
    {
      var b: nat := r[j];
      var sum := carry + 32 * b;
      ghost var done := r[..j];
      r := r[j := sum % 256];
      AppendByte(done, sum % 256, sum / 256);
      AppendByte(bytes[..j], bytes[j], 0);
      assert r[..j + 1] == done + [sum % 256] && bytes[..j + 1] == bytes[..j] + [bytes[j]];
      ScaleDigit(Pow256(j), carry, bytes[j]);
      carry := sum / 256;
    }
    assert r[..|bytes|] == r && bytes[..|bytes|] == bytes;
    while carry > 0
      invariant carry < 32 && (carry == 0 ==> NoTopZero(r))
      invariant LittleEndian(r) + Pow256(|r|) * carry == 32 * LittleEndian(bytes) + digit
    {
      AppendByte(r, carry % 256, carry / 256);
      r := r + [carry % 256];
      carry := carry / 256;
    }
  }

  lemma LittleEndianEmpty()
    ensures LittleEndian([]) == 0 && Pow256(0) == 1
  {}

  lemma ScaleDigit(p: nat, carry: nat, b: nat)
    ensures p * (carry + 32 * b) == p * carry + 32 * (p * b)
  {}

  /** The whole decoding, for every text: the base-x conversion of its digits, when all are digits. */
  method DecodeBase32(input: Bytes) returns (r: Option<Bytes>)
    ensures r.Some? <==> Valid(input)
    ensures r.Some? ==> r.value == Convert(TextDigits(input), 32, 256)
  {
    hide LittleEndian, Num, Digits, LeadingZeros, TextDigits;
    var bytes: Bytes := [];
    LittleEndianEmpty();
    NoDigits();
    for i := 0 to |input|
      invariant Valid(input[..i])
      invariant NoTopZero(bytes) && LittleEndian(bytes) == Num(TextDigits(input[..i]), 32)
    {
      assert input[..i + 1] == input[..i] + [input[i]];
      var digit := DigitOf(input[i]);
      if digit.None? {
        assert input[i] in input;
        return None;
      }
      bytes := ShiftIn(bytes, digit.value);
      OneMoreDigit(input[..i], input[i]);
    }
    assert input[..|input|] == input;
    var leading := CountLeading(input);
    ghost var number := bytes;
    bytes := bytes + seq(leading, _ => 0);
    ReversedIsConverted(input, number, leading);
    return Some(Reverse(bytes));
  }

  lemma NoDigits()
    ensures Num(TextDigits([]), 32) == 0
  {}

  lemma OneMoreDigit(text: Bytes, c: byte)
    requires Valid(text) && DigitOf(c).Some?
    ensures Valid(text + [c])
    ensures Num(TextDigits(text + [c]), 32) == 32 * Num(TextDigits(text), 32) + DigitOf(c).value
  {
    var ds := TextDigits(text + [c]);
    assert ds[..|text|] == TextDigits(text);
  }

  method CountLeading(input: Bytes) returns (k: nat)
    requires Valid(input)
    ensures k == LeadingZeros(TextDigits(input))
  {
    k := 0;
    while k < |input| && input[k] == 97
      invariant k <= |input| && LeadingZeros(TextDigits(input)) == k + LeadingZeros(TextDigits(input)[k..])
    {
      assert TextDigits(input)[k..][1..] == TextDigits(input)[k + 1..];
      k := k + 1;
    }
    assert k < |input| ==> TextDigits(input)[k..][0] == TextDigits(input)[k];
    assert k < |input| ==> input[k] in input;
  }

  lemma {:induction false} ReverseZeros(bytes: Bytes, k: nat)
    ensures Reverse(bytes + Zeros(k)) == Zeros(k) + Reverse(bytes)
  {
    if bytes != [] {
      assert (bytes + Zeros(k))[1..] == bytes[1..] + Zeros(k);
      ReverseZeros(bytes[1..], k);
    } else if k > 0 {
      assert bytes + Zeros(k) == Zeros(k) && Zeros(k)[1..] == Zeros(k - 1) == bytes + Zeros(k - 1);
      ReverseZeros(bytes, k - 1);
      assert Zeros(k - 1) + Reverse(bytes) + [0] == Zeros(k) + Reverse(bytes);
    }
  }

  lemma ReversedIsConverted(text: Bytes, number: Bytes, leading: nat)
    requires Valid(text) && leading == LeadingZeros(TextDigits(text))
    requires NoTopZero(number) && LittleEndian(number) == Num(TextDigits(text), 32)
    ensures Reverse(number + seq(leading, _ => 0)) == Convert(TextDigits(text), 32, 256)
  {
    hide LittleEndian, Num, Digits, LeadingZeros, TextDigits, Reverse;
    ReversedValue(number);
    assert DigitsIn(Reverse(number), 256);
    DigitsOfNum(Reverse(number), 256);
    ReverseZeros(number, leading);
    assert number + seq(leading, _ => 0) == number + Zeros(leading);
  }

  /** Two texts that decode to the same bytes are the same text. */
  lemma DecodeInjective(s: Bytes, t: Bytes)
    requires Valid(s) && Valid(t) && Convert(TextDigits(s), 32, 256) == Convert(TextDigits(t), 32, 256)
    ensures s == t
  {
    hide TextDigits, Convert;
    ConvertRoundTrip(TextDigits(s), 32, 256);
    ConvertRoundTrip(TextDigits(t), 32, 256);
    TextDigitsInjective(s, t);
  }

  // ----- The length filter

  /** The most significant digit alone bounds the number within its own step. */
  lemma {:induction false} NumBounds(ds: seq<nat>, bits: nat)
    requires ds != [] && DigitsIn(ds, Pow2(bits))
    ensures ds[0] * Pow2(bits * (|ds| - 1)) <= Num(ds, Pow2(bits)) < (ds[0] + 1) * Pow2(bits * (|ds| - 1))
  {
    hide Pow2;
    var n := |ds| - 1;
    var rest, top, base := ds[..n], ds[0], Pow2(bits);
    assert ds[n] in ds && forall d :: d in rest ==> d in ds;
    if n == 0 {
      assert bits * 0 == 0;
      Pow2One();
    } else {
      NumBounds(rest, bits);
      var low := Pow2(bits * (n - 1));
      assert bits * n == bits + bits * (n - 1);
      Pow2Sum(bits, bits * (n - 1));
      ScaleBounds(base, top, low, Num(rest, base), ds[n]);
    }
  }

  lemma ScaleBounds(base: nat, top: nat, low: nat, number: nat, last: nat)
    requires top * low <= number < (top + 1) * low && last < base
    ensures top * (base * low) <= base * number + last < (top + 1) * (base * low)
  {
    assert base * (top * low) <= base * number;
    assert base * (number + 1) <= base * ((top + 1) * low);
    assert base * (top * low) == top * (base * low);
    assert base * ((top + 1) * low) == (top + 1) * (base * low);
  }

  lemma Pow2One()
    ensures Pow2(0) == 1
  {}

  lemma Bases()
    ensures Pow2(5) == 32 && Pow2(8) == 256
  {}

  lemma LessIfPow2Less(a: nat, b: nat)
    requires Pow2(a) < Pow2(b)
    ensures a < b
  {
    if b <= a { Pow2Monotone(b, a); }
  }

  lemma StepBounds(top: nat, p: nat, number: nat)
    requires 0 < top < 32 && top * p <= number < (top + 1) * p
    ensures p <= number < 32 * p
  {
    assert top * p == p + (top - 1) * p && (top - 1) * p >= 0;
    assert 32 * p == (top + 1) * p + (31 - top) * p && (31 - top) * p >= 0;
  }

  /** A number between two powers of two has the number of base-32 digits they say. */
  lemma LengthInBase32(ds: seq<nat>, low: nat, high: nat)
    requires ds != [] && ds[0] != 0 && DigitsIn(ds, 32)
    requires Pow2(low) <= Num(ds, 32) < Pow2(high)
    ensures low < 5 * |ds| && 5 * (|ds| - 1) < high
  {
    hide Pow2, Num;
    Bases();
    NumBounds(ds, 5);
    assert ds[0] in ds;
    var p := Pow2(5 * (|ds| - 1));
    StepBounds(ds[0], p, Num(ds, 32));
    Pow2Sum(5, 5 * (|ds| - 1));
    LessIfPow2Less(low, 5 * |ds|);
    LessIfPow2Less(5 * (|ds| - 1), high);
  }

  lemma NoLeadingZeros(ds: seq<nat>, from: nat, to: nat)
    requires to > 1 && Convert(ds, from, to) != [] && Convert(ds, from, to)[0] != 0
    ensures LeadingZeros(ds) == 0 && Minimal(ds)
  {
    var k := LeadingZeros(ds);
    SplitLeadingZeros(ds);
    assert Convert(ds, from, to)[0] != 0;
    if k > 0 { assert false; }
  }

  /** A text that decodes to 36 bytes of which the first is 0x01 has 57 characters. */
  lemma LengthFilterIsLossless(text: Bytes)
    requires Valid(text)
    requires var bytes := Convert(TextDigits(text), 32, 256); |bytes| == 36 && bytes[0] == 1
    ensures |text| == 57
  {
    hide Pow2, Num, Digits, TextDigits;
    Bases();
    var ds := TextDigits(text);
    var n, bytes := Num(ds, 32), Convert(ds, 32, 256);
    NoLeadingZeros(ds, 32, 256);
    assert bytes == Digits(n, 256);
    NumOfDigits(n, 256);
    NumBounds(bytes, 8);
    Pow2Sum(1, 280);
    Pow2Of280();
    if ds == [] { NoDigits(); }
    LengthInBase32(ds, 280, 281);
  }

  lemma Pow2Of280()
    ensures Pow2(281) == 2 * Pow2(280) && Pow2(280) > 0
  {}

  // ----- Legacy identifiers

  function Header(): Bytes {
    [0x01, 0x0c, 0x12, 0x20]
  }

  /** The identifiers the upstream tooling makes: the header and a 32-byte digest, encoded. */
  ghost predicate IsLegacyId(text: Bytes) {
    Valid(text) && exists digest: Digest :: Convert(TextDigits(text), 32, 256) == Header() + digest
  }

  method IsLegacyDeclarationId(s: Bytes) returns (ok: bool)
    ensures ok <==> IsLegacyId(s)
  {
    hide TextDigits, Convert;
    if |s| != 57 {
      if IsLegacyId(s) { LengthFilterIsLossless(s); }
      return false;
    }
    var bytes := DecodeBase32(s);
    if bytes.None? {
      return false;
    }
    var decoded := bytes.value;
    ok := |decoded| == 36 && decoded[..4] == Header();
    if ok {
      var digest: Digest := decoded[4..];
      assert decoded == Header() + digest;
    }
  }

  function CharOf(d: nat): (c: byte)
    requires d < 32
    ensures DigitOf(c) == Some(d)
  {
    if d < 26 then 97 + d else 50 + (d - 26)
  }

  /** Every digest has a legacy identifier, and only one. */
  lemma OneIdPerDigest(digest: Digest) returns (text: Bytes)
    ensures Valid(text) && Convert(TextDigits(text), 32, 256) == Header() + digest
    ensures forall other :: Valid(other) && Convert(TextDigits(other), 32, 256) == Header() + digest ==> other == text
  {
    hide Convert;
    var payload: seq<nat> := Header() + digest;
    ConvertRoundTrip(payload, 256, 32);
    var ds := Convert(payload, 256, 32);
    text := seq(|ds|, i requires 0 <= i < |ds| => assert ds[i] in ds; CharOf(ds[i]));
    assert TextDigits(text) == ds;
    forall other | Valid(other) && Convert(TextDigits(other), 32, 256) == Header() + digest ensures other == text {
      DecodeInjective(other, text);
    }
  }
}
