/**
 XMLUtil::GetCharacterRef and ConvertUTF32ToUTF8: numeric character references, read from the
 last digit to the first in 32-bit arithmetic with a place value that saturates.
 */
module CharRef {
  import opened XmlBytes

  newtype uint32 = x: int | 0 <= x < 0x1_0000_0000

  const MAX_CODE_POINT: int := 0x10FFFF

  /** What the caller does next: copy the ampersand, or write `bytes` and skip `read` bytes. */
  datatype Ref = Reject | Take(bytes: Bytes, read: nat)

  // ---------------------------------------------------------------- UTF-8

  /** ConvertUTF32ToUTF8 for the code points it accepts; OR with a mark is written as a sum. */
  function Utf8(c: nat): (r: Bytes)
    requires c < 0x20_0000
    ensures |r| == if c < 0x80 then 1 else if c < 0x800 then 2 else if c < 0x1_0000 then 3 else 4
  {
    if c < 0x80 then [c]
    else if c < 0x800 then [0xC0 + c / 64, 0x80 + c % 64]
    else if c < 0x1_0000 then [0xE0 + c / 4096, 0x80 + c / 64 % 64, 0x80 + c % 64]
    else [0xF0 + c / 262144, 0x80 + c / 4096 % 64, 0x80 + c / 64 % 64, 0x80 + c % 64]
  }

  /** The payload bits of one byte: all but its length or continuation mark. */
  function Payload(b: byte, bits: nat): int
    requires bits > 0
  {
    b % bits
  }

  /** The bit layout of section 3 of RFC 3629, read back: the payload bits of each byte, in order. */
  function FromUtf8(b: Bytes): int
    requires 1 <= |b| <= 4
  {
    if |b| == 1 then Payload(b[0], 128)
    else if |b| == 2 then Payload(b[0], 32) * 64 + Payload(b[1], 64)
    else if |b| == 3 then (Payload(b[0], 16) * 64 + Payload(b[1], 64)) * 64 + Payload(b[2], 64)
    else ((Payload(b[0], 8) * 64 + Payload(b[1], 64)) * 64 + Payload(b[2], 64)) * 64 + Payload(b[3], 64)
  }

  /** The mark of a leading byte of an n-byte sequence, and the span it leaves for payload bits. */
  function Mark(n: nat): byte { if n <= 1 then 0 else if n == 2 then 0xC0 else if n == 3 then 0xE0 else 0xF0 }
  function Span(n: nat): nat { if n <= 1 then 128 else if n == 2 then 32 else if n == 3 then 16 else 8 }

  /** The leading byte announces the length, the others are continuation bytes, nothing is lost. */
  lemma Utf8RoundTrip(c: nat)
    requires c < 0x20_0000
    ensures FromUtf8(Utf8(c)) == c
    ensures var u := Utf8(c); Mark(|u|) <= u[0] < Mark(|u|) + Span(|u|)
    ensures forall i :: 1 <= i < |Utf8(c)| ==> 0x80 <= Utf8(c)[i] < 0xC0
  {
    var u, x, y := Utf8(c), c / 64, c / 4096;
    assert x == y * 64 + x % 64;
    PayloadOf(c % 64);
    PayloadOf(x % 64);
    PayloadOf(y % 64);
    if |u| == 2 {
      LeadOf(2, x);
    } else if |u| == 3 {
      LeadOf(3, y);
    } else if |u| == 4 {
      LeadOf(4, c / 262144);
      assert y == c / 262144 * 64 + y % 64;
    }
  }

  lemma PayloadOf(bits: nat)
    requires bits < 64
    ensures Payload(0x80 + bits, 64) == bits
  {
  }

  lemma LeadOf(n: nat, bits: nat)
    requires 2 <= n <= 4 && bits < Span(n)
    ensures Payload(Mark(n) + bits, Span(n)) == bits
  {
  }

  // ---------------------------------------------------------------- digits

  predicate IsDigit(b: byte, hex: bool) {
    48 <= b <= 57 || (hex && (97 <= b <= 102 || 65 <= b <= 70))
  }

  /** The value of a digit; the code never uses it for another byte. */
  function Digit(b: byte, hex: bool): (d: nat)
    ensures d < Radix(hex)
  {
    if !IsDigit(b, hex) then 0 else if b <= 57 then b - 48 else if b >= 97 then b - 87 else b - 55
  }

  function Radix(hex: bool): nat { if hex then 16 else 10 }

  ghost predicate AllDigits(ds: Bytes, hex: bool) {
    forall i :: 0 <= i < |ds| ==> IsDigit(ds[i], hex)
  }

  /** The number a digit string denotes. */
  ghost function Positional(ds: Bytes, hex: bool): nat
  {
    if ds == [] then 0
    else Positional(ds[..|ds| - 1], hex) * Radix(hex) + Digit(ds[|ds| - 1], hex)
  }

  ghost function Power(hex: bool, k: nat): (r: nat)
    ensures r > 0
  {
    if k == 0 then 1 else Power(hex, k - 1) * Radix(hex)
  }

  /** The place value the code uses for the digit k places from the right. */
  ghost function Place(hex: bool, k: nat): (r: nat)
    ensures 1 <= r <= MAX_CODE_POINT
  {
    if k == 0 then 1
    else if Place(hex, k - 1) * Radix(hex) > MAX_CODE_POINT then MAX_CODE_POINT
    else Place(hex, k - 1) * Radix(hex)
  }

  /** The sum the code forms, `k` digits to the right of ds already counted. */
  ghost function Weighted(ds: Bytes, hex: bool, k: nat): nat
  {
    if ds == [] then 0
    else Weighted(ds[..|ds| - 1], hex, k + 1) + Digit(ds[|ds| - 1], hex) * Place(hex, k)
  }

  // ---------------------------------------------------------------- the reference

  function IndexOf(s: Bytes, c: byte, from: nat): (r: nat)
    requires from <= |s|
    ensures from <= r <= |s|
    ensures forall i :: from <= i < r ==> s[i] != c
    ensures r < |s| ==> s[r] == c
    decreases |s| - from
  {
    if from == |s| || s[from] == c then from else IndexOf(s, c, from + 1)
  }

  /** Just after the last c in s[from..to], or from. */
  function AfterLast(s: Bytes, c: byte, from: nat, to: nat): (r: nat)
    requires from <= to <= |s|
    ensures from <= r <= to
    ensures forall i :: r <= i < to ==> s[i] != c
    ensures r > from ==> s[r - 1] == c
  {
    if to == from || s[to - 1] == c then to else AfterLast(s, c, from, to - 1)
  }

  ghost predicate IsHex(s: Bytes)
    requires |s| > 2
  {
    s[2] == LOWERX
  }

  /** The bytes the backward scan visits: from the semicolon down to the nearest terminator. */
  ghost function Body(s: Bytes): Bytes
    requires |s| > 2
  {
    var from := if IsHex(s) then 3 else 2;
    var semi := IndexOf(s, SEMI, from);
    s[AfterLast(s, s[from - 1], from, semi)..semi]
  }

  lemma OneDigit(ds: Bytes, hex: bool)
    ensures |ds| <= 1 ==> Weighted(ds, hex, 0) < 16
  {
    if |ds| == 1 {
      assert Weighted(ds[..0], hex, 1) == 0;
      assert Place(hex, 0) == 1;
    }
  }

  /**
   GetCharacterRef on s, the text from the ampersand to the end of the string, without NULs and
   starting with an ampersand and a hash sign.
   */
  ghost function Reference(s: Bytes): (r: Ref)
    requires |s| >= 2 && s[0] == AMP && s[1] == HASH
    ensures r.Take? ==> |r.bytes| < r.read <= |s|
  {
    if |s| == 2 then Take([], 1)                    // only "&#" is left: the ampersand vanishes
    else
      var from := if IsHex(s) then 3 else 2;
      var semi := IndexOf(s, SEMI, from);
      if from == |s| || semi == |s| then Reject
      else if !AllDigits(Body(s), IsHex(s)) then Reject
      else if Weighted(Body(s), IsHex(s), 0) > MAX_CODE_POINT then Reject
      else
        var code := Weighted(Body(s), IsHex(s), 0);
        OneDigit(Body(s), IsHex(s));
        Take(Utf8(code), semi + 1)
  }

  // ---------------------------------------------------------------- what the sum means

  /** The first place whose true value exceeds MAX_CODE_POINT. */
  function SaturatedFrom(hex: bool): nat { if hex then 6 else 7 }

  /** One digit 1 in a saturated place, zeros elsewhere; k more digits stand to the right. */
  ghost predicate LoneOne(ds: Bytes, hex: bool, k: nat) {
    exists j :: 0 <= j < |ds| && LoneOneAt(ds, hex, k, j)
  }

  ghost predicate LoneOneAt(ds: Bytes, hex: bool, k: nat, j: nat)
    requires j < |ds|
  {
    ds[j] == 49 && |ds| - 1 - j + k >= SaturatedFrom(hex) && forall i :: 0 <= i < |ds| && i != j ==> ds[i] == 48
  }

  lemma {:induction false} PlaceIsPower(hex: bool, k: nat)
    ensures Power(hex, k) > MAX_CODE_POINT <==> k >= SaturatedFrom(hex)
    ensures Place(hex, k) == if k >= SaturatedFrom(hex) then MAX_CODE_POINT else Power(hex, k)
  {
    hide Power, Place;
    Stepped(hex, 0);
    if k > 0 {
      PlaceIsPower(hex, k - 1);
      Stepped(hex, k);
      if k <= 7 {
        SmallPowers(hex);
      }
    }
  }

  /** One exponent more. */
  lemma Stepped(hex: bool, k: nat)
    ensures k == 0 ==> Power(hex, k) == Place(hex, k) == 1
    ensures k > 0 ==> Power(hex, k) == Power(hex, k - 1) * Radix(hex)
    ensures k > 0 ==> Place(hex, k) == Capped(Place(hex, k - 1) * Radix(hex))
  {
  }

  function Capped(n: int): int { if n > MAX_CODE_POINT then MAX_CODE_POINT else n }

  lemma SmallPowers(hex: bool)
    ensures Power(hex, 0) == 1 && Power(hex, 1) == if hex then 0x10 else 10
    ensures Power(hex, 2) == if hex then 0x100 else 100
    ensures Power(hex, 3) == if hex then 0x1000 else 1000
    ensures Power(hex, 4) == if hex then 0x10000 else 10000
    ensures Power(hex, 5) == if hex then 0x100000 else 100000
    ensures Power(hex, 6) == if hex then 0x1000000 else 1000000
    ensures Power(hex, 7) == if hex then 0x10000000 else 10000000
  {
    hide Power, Place;
    Stepped(hex, 0);
    NextPower(hex, 0, 1);
    NextPower(hex, 1, if hex then 0x10 else 10);
    NextPower(hex, 2, if hex then 0x100 else 100);
    NextPower(hex, 3, if hex then 0x1000 else 1000);
    NextPower(hex, 4, if hex then 0x10000 else 10000);
    NextPower(hex, 5, if hex then 0x100000 else 100000);
    NextPower(hex, 6, if hex then 0x1000000 else 1000000);
  }

  lemma NextPower(hex: bool, k: nat, n: nat)
    requires Power(hex, k) == n
    ensures Power(hex, k + 1) == if hex then 16 * n else 10 * n
  {
  }

  lemma {:induction false} ZeroMeansZeros(ds: Bytes, hex: bool)
    requires AllDigits(ds, hex)
    ensures Positional(ds, hex) == 0 <==> forall i :: 0 <= i < |ds| ==> ds[i] == 48
  {
    if ds != [] {
      var init := ds[..|ds| - 1];
      ZeroMeansZeros(init, hex);
      assert forall i :: 0 <= i < |init| ==> ds[i] == init[i];
    }
  }

  lemma PositionalStep(init: nat, d: nat, hex: bool, k: nat)
    ensures (init * Radix(hex) + d) * Power(hex, k) == init * Power(hex, k + 1) + d * Power(hex, k)
  {
    assert init * Radix(hex) * Power(hex, k) == init * (Radix(hex) * Power(hex, k));
  }

  lemma Scaled(d: nat, x: nat)
    ensures d * x >= 0 && (d == 0 ==> d * x == 0) && (d > 0 ==> d * x >= x) && (d > 1 ==> d * x >= x + x)
  {
    if d > 1 {
      assert d * x == (d - 2) * x + x + x;
    }
  }

  /** As long as the true value is in range the saturating sum is exact. */
  lemma {:induction false} InRangeIsExact(ds: Bytes, hex: bool, k: nat)
    requires Positional(ds, hex) * Power(hex, k) <= MAX_CODE_POINT
    ensures Weighted(ds, hex, k) == Positional(ds, hex) * Power(hex, k)
  {
    if ds != [] {
      var init, d := ds[..|ds| - 1], Digit(ds[|ds| - 1], hex);
      PositionalStep(Positional(init, hex), d, hex, k);
      PlaceIsPower(hex, k);
      Scaled(d, Power(hex, k));
      Scaled(Positional(init, hex), Power(hex, k + 1));
      InRangeIsExact(init, hex, k + 1);
      assert d > 0 ==> Place(hex, k) == Power(hex, k);
    }
  }

  /** A sum in range is exact, or it is a lone 1 in a saturated place. */
  lemma {:induction false} SumInRange(ds: Bytes, hex: bool, k: nat)
    requires AllDigits(ds, hex) && Weighted(ds, hex, k) <= MAX_CODE_POINT
    ensures Weighted(ds, hex, k) == Positional(ds, hex) * Power(hex, k)
         || (Weighted(ds, hex, k) == MAX_CODE_POINT && LoneOne(ds, hex, k))
  {
    if ds != [] {
      var init, d := ds[..|ds| - 1], Digit(ds[|ds| - 1], hex);
      Scaled(d, Place(hex, k));
      SumInRange(init, hex, k + 1);
      PlaceIsPower(hex, k);
      assert forall i :: 0 <= i < |init| ==> ds[i] == init[i];
      if Weighted(init, hex, k + 1) != Positional(init, hex) * Power(hex, k + 1) {
        var j :| 0 <= j < |init| && LoneOneAt(init, hex, k + 1, j);
        assert LoneOneAt(ds, hex, k, j);
      } else if d == 0 || k < SaturatedFrom(hex) {
        PositionalStep(Positional(init, hex), d, hex, k);
        Scaled(d, Power(hex, k));
      } else {
        Scaled(Positional(init, hex), Power(hex, k + 1));
        ZeroMeansZeros(init, hex);
        assert LoneOneAt(ds, hex, k, |ds| - 1);
      }
    }
  }

  /** A lone 1 in a saturated place always sums to the largest code point. */
  lemma {:induction false} LoneOneSum(ds: Bytes, hex: bool, k: nat, j: nat)
    requires AllDigits(ds, hex) && j < |ds| && LoneOneAt(ds, hex, k, j)
    ensures Weighted(ds, hex, k) == MAX_CODE_POINT
  {
    var init, d := ds[..|ds| - 1], Digit(ds[|ds| - 1], hex);
    assert forall i :: 0 <= i < |init| ==> ds[i] == init[i];
    if j == |ds| - 1 {
      PlaceIsPower(hex, k);
      ZeroMeansZeros(init, hex);
      InRangeIsExact(init, hex, k + 1);
    } else {
      LoneOneSum(init, hex, k + 1, j);
    }
  }

  function Text(ds: Bytes, hex: bool): Bytes {
    [AMP, HASH] + (if hex then [LOWERX] else []) + ds + [SEMI]
  }

  /**
   A reference made of digits of any number: accepted with its value when that is at most
   0x10FFFF; above, accepted exactly for a lone 1 over zeros in a saturated place, as 0x10FFFF.
   What is written decodes to that code point and is shorter than the reference.
   */
  lemma DigitReference(ds: Bytes, hex: bool, rest: Bytes)
    requires AllDigits(ds, hex)
    ensures var r := Reference(Text(ds, hex) + rest);
      var v := Positional(ds, hex);
      && (r.Take? <==> v <= MAX_CODE_POINT || LoneOne(ds, hex, 0))
      && (r.Take? ==> r.read == |Text(ds, hex)| && 1 <= |r.bytes| <= 4 && |r.bytes| < r.read)
      && (r.Take? ==> FromUtf8(r.bytes) == if v <= MAX_CODE_POINT then v else MAX_CODE_POINT)
  {
    hide Body, Weighted, Positional, LoneOne, IndexOf, FromUtf8, Reference;
    ReferenceBody(ds, hex, rest);
    AcceptedIff(Text(ds, hex) + rest);
  }

  /**
   Any text at all: a reference is accepted exactly when a semicolon follows and the bytes before
   it, back to the nearest terminator, are digits that denote a code point, or a lone 1 in a
   saturated place. What is before that terminator does not matter.
   */
  lemma AcceptedIff(s: Bytes)
    requires |s| > 2 && s[0] == AMP && s[1] == HASH
    ensures var hex := IsHex(s);
      var semi, v := IndexOf(s, SEMI, if hex then 3 else 2), Positional(Body(s), hex);
      var r := Reference(s);
      && (r.Take? <==>
           semi < |s| && AllDigits(Body(s), hex) && (v <= MAX_CODE_POINT || LoneOne(Body(s), hex, 0)))
      && (r.Take? ==> r.read == semi + 1 && 1 <= |r.bytes| <= 4 && |r.bytes| < r.read)
      && (r.Take? ==> FromUtf8(r.bytes) == if v <= MAX_CODE_POINT then v else MAX_CODE_POINT)
  {
    hide Body, Weighted, Positional, LoneOne, IndexOf, FromUtf8;
    var hex, ds := IsHex(s), Body(s);
    if AllDigits(ds, hex) {
      AcceptedSum(ds, hex);
      if Weighted(ds, hex, 0) <= MAX_CODE_POINT {
        Utf8RoundTrip(Weighted(ds, hex, 0));
      }
    }
  }

  /** "&#junk#65;" is read as "A": the scan stops at the nearest hash sign. */
  lemma JunkIsSkipped()
    ensures Reference([AMP, HASH, 106, 117, 110, 107, HASH, 54, 53, SEMI]) == Take([65], 10)
  {
    var s: Bytes := [AMP, HASH, 106, 117, 110, 107, HASH, 54, 53, SEMI];
    var semi := IndexOf(s, SEMI, 2);
    assert semi == 9 by {
      assert s[9] == SEMI && forall i :: 2 <= i < 9 ==> s[i] != SEMI;
    }
    assert AfterLast(s, HASH, 2, 9) == 7 by {
      assert s[6] == HASH && s[7] == 54 && s[8] == 53;
    }
    assert Body(s) == [54, 53];
    SixtyFive();
  }

  lemma SixtyFive()
    ensures Weighted([54, 53], false, 0) == 65 && AllDigits([54, 53], false) && Utf8(65) == [65]
  {
    var ds: Bytes := [54, 53];
    assert ds[..1] == [54] && [54][..0] == [];
    assert Place(false, 0) == 1 && Place(false, 1) == 10;
    assert Weighted([54], false, 1) == 60;
  }

  /** Which sums the code accepts, and what they denote. */
  lemma AcceptedSum(ds: Bytes, hex: bool)
    requires AllDigits(ds, hex)
    ensures Weighted(ds, hex, 0) <= MAX_CODE_POINT <==>
            Positional(ds, hex) <= MAX_CODE_POINT || LoneOne(ds, hex, 0)
    ensures Positional(ds, hex) <= MAX_CODE_POINT ==> Weighted(ds, hex, 0) == Positional(ds, hex)
    ensures Positional(ds, hex) > MAX_CODE_POINT && LoneOne(ds, hex, 0) ==> Weighted(ds, hex, 0) == MAX_CODE_POINT
  {
    assert Positional(ds, hex) * Power(hex, 0) == Positional(ds, hex);
    if Positional(ds, hex) <= MAX_CODE_POINT {
      InRangeIsExact(ds, hex, 0);
    } else if LoneOne(ds, hex, 0) {
      var j :| 0 <= j < |ds| && LoneOneAt(ds, hex, 0, j);
      LoneOneSum(ds, hex, 0, j);
    } else if Weighted(ds, hex, 0) <= MAX_CODE_POINT {
      SumInRange(ds, hex, 0);
    }
  }

  /** The backward scan over a reference made of digits visits exactly its digits. */
  lemma ReferenceBody(ds: Bytes, hex: bool, rest: Bytes)
    requires AllDigits(ds, hex)
    ensures var s := Text(ds, hex) + rest; var from := if hex then 3 else 2;
      && s[0] == AMP && s[1] == HASH && IsHex(s) == hex
      && IndexOf(s, SEMI, from) == from + |ds| && Body(s) == ds
  {
    var s := Text(ds, hex) + rest;
    var from := if hex then 3 else 2;
    assert s[from..from + |ds|] == ds;
    assert forall i :: from <= i < from + |ds| ==> s[i] == ds[i - from];
    assert s[from + |ds|] == SEMI;
    assert IsHex(s) == hex by {
      assert !hex && ds != [] ==> s[2] == ds[0];
    }
    assert IndexOf(s, SEMI, from) == from + |ds|;
    assert AfterLast(s, s[from - 1], from, from + |ds|) == from;
  }

  // ---------------------------------------------------------------- the loops

  /** strchr: the next semicolon, or the NUL at the end of s. */
  method FindSemicolon(buf: array<byte>, from: nat, ghost s: Bytes, ghost k: nat) returns (q: nat)
    requires k <= |s| && k <= from && Holds(buf, from - k, s, 0) && NoNul(s)
    ensures q - (from - k) == IndexOf(s, SEMI, k)
    ensures q < buf.Length && (buf[q] == 0 <==> q - (from - k) == |s|)
  {
    q := from;
    ghost var i := k;
    while buf[q] != 0 && buf[q] != SEMI
      invariant k <= i <= |s| && q == from - k + i
      invariant IndexOf(s, SEMI, i) == IndexOf(s, SEMI, k)
      decreases |s| - i
    {
      if i < |s| { assert s[i] == buf[q]; }
      q, i := q + 1, i + 1;
    }
    if i < |s| { assert s[i] == buf[q]; }
  }

  lemma BodyHeld(buf: array<byte>, p: nat, s: Bytes, first: nat, semi: nat)
    requires Holds(buf, p, s, 0) && 1 <= first <= semi < |s| && s[semi] == SEMI
    ensures Holds(buf, p + first, s[first..semi], SEMI) && buf[p + first - 1] == s[first - 1]
  {
  }

  lemma UnitPlace(hex: bool)
    ensures Place(hex, 0) == 1
  {
  }

  lemma WeightedEmpty(hex: bool, k: nat)
    ensures Weighted([], hex, k) == 0
  {
  }

  lemma WeightedStep(ds: Bytes, hex: bool, m: nat, k: nat, place: nat, part: nat)
    requires m < |ds| && place == Place(hex, k) && part == Product(Digit(ds[m], hex), place)
    ensures Weighted(ds[..m + 1], hex, k) == Weighted(ds[..m], hex, k + 1) + part
  {
    assert ds[..m + 1][..m] == ds[..m];
  }

  ghost function Product(a: nat, b: nat): nat { a * b }

  method Scale(mult: uint32, digit: uint32) returns (r: uint32)
    requires mult as int <= MAX_CODE_POINT && digit < 16
    ensures r as int == Product(digit as int, mult as int)
  {
    assert digit as int * mult as int <= 16 * mult as int;
    r := mult * digit;
  }

  method NextPlace(mult: uint32, radix: uint32, hex: bool, ghost k: nat) returns (next: uint32)
    requires mult as int == Place(hex, k) && radix as int == Radix(hex)
    ensures next as int == Place(hex, k + 1)
  {
    next := mult * radix;
    if next as int > MAX_CODE_POINT {
      next := MAX_CODE_POINT as uint32;
    }
  }

  /** The backward digit loop: every uint32 operation is checked to stay in range. */
  method SumDigits(buf: array<byte>, semi: nat, terminator: byte, hex: bool, ghost ds: Bytes)
    returns (ok: bool, ucs: uint32)
    requires Holds(buf, semi - |ds|, ds, SEMI) && |ds| < semi
    requires buf[semi - |ds| - 1] == terminator && terminator !in ds
    ensures ok <==> AllDigits(ds, hex) && Weighted(ds, hex, 0) <= MAX_CODE_POINT
    ensures ok ==> ucs as int == Weighted(ds, hex, 0)
  {
    hide Weighted, Place, Digit, IsDigit, Product;
    var radix: uint32 := if hex then 16 else 10;
    var mult: uint32 := 1;
    ucs := 0;
    var q := semi - 1;
    ghost var m := |ds|;
    UnitPlace(hex);
    assert ds[..m] == ds && ds[m..] == [];
    while buf[q] != terminator
      invariant m <= |ds| && q == semi - |ds| + m - 1
      invariant mult as int == Place(hex, |ds| - m)
      invariant ucs as int <= MAX_CODE_POINT
      invariant AllDigits(ds[m..], hex)
      invariant ucs as int + Weighted(ds[..m], hex, |ds| - m) == Weighted(ds, hex, 0)
      decreases q
    {
      assert m > 0;
      m := m - 1;
      assert ds[m] == buf[q];
      if !IsDigit(buf[q], hex) {
        return false, ucs;
      }
      assert ds[m..] == [ds[m]] + ds[m + 1..];
      var digit := Digit(buf[q], hex) as uint32;
      var digitScaled := Scale(mult, digit);
      WeightedStep(ds, hex, m, |ds| - m - 1, mult as int, digitScaled as int);
      if digitScaled as int > MAX_CODE_POINT || ucs as int > MAX_CODE_POINT - digitScaled as int {
        return false, ucs;
      }
      ucs := ucs + digitScaled;
      mult := NextPlace(mult, radix, hex, |ds| - m - 1);
      q := q - 1;
    }
    Held(buf, semi - |ds|, ds, SEMI, m - 1);
    assert ds[..0] == [] && ds[0..] == ds;
    WeightedEmpty(hex, |ds|);
    ok := true;
  }

  method GetCharacterRef(buf: array<byte>, p: nat, ghost s: Bytes) returns (r: Ref)
    requires Holds(buf, p, s, 0) && NoNul(s)
    requires |s| >= 2 && s[0] == AMP && s[1] == HASH
    ensures r == Reference(s)
  {
    hide AfterLast, Weighted, AllDigits, Utf8;
    Held(buf, p, s, 0, 2);
    if buf[p + 2] == 0 {
      return Take([], 1);
    }
    var hex := buf[p + 2] == LOWERX;
    var from := if hex then 3 else 2;
    Held(buf, p, s, 0, from);
    if buf[p + from] == 0 {
      return Reject;
    }
    var semi := FindSemicolon(buf, p + from, s, from);
    if buf[semi] == 0 {
      return Reject;
    }
    assert s[from - 1] == buf[p + from - 1];
    ghost var first := AfterLast(s, s[from - 1], from, semi - p);
    BodyHeld(buf, p, s, first, semi - p);
    var ok, ucs := SumDigits(buf, semi, buf[p + from - 1], hex, s[first..semi - p]);
    if !ok {
      return Reject;
    }
    r := Take(Utf8(ucs as int), semi + 1 - p);
  }
}
