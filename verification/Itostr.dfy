/** The two number printers, on 64-bit numbers. */
module Itostr {

  const WORD: nat := 0x1_0000_0000_0000_0000      // unsigned long long wraps here

  function Pow(b: nat, k: nat): (p: nat)
    ensures b > 0 ==> p > 0
  {
    if k == 0 then 1 else b * Pow(b, k - 1)
  }

  /** A power of the base as the loops compute it. */
  function PowWord(b: nat, k: nat): nat { Pow(b, k) % WORD }

  predicate GoodBase(base: nat) { 2 <= base <= 16 }

  function DigitChar(d: nat): char
    requires d < 16
  {
    (d + '0' as int) as char
  }

  function DigitOf(c: char): nat { if c >= '0' then c as int - '0' as int else 0 }

  // ---------- The meaning of a text ----------

  /** The number that the digits stand for. */
  function Value(s: string, base: nat): nat {
    if s == "" then 0 else Value(s[..|s| - 1], base) * base + DigitOf(s[|s| - 1])
  }

  predicate AreDigits(s: string, base: nat) { forall i :: 0 <= i < |s| ==> '0' <= s[i] && DigitOf(s[i]) < base }

  /** The last `w` digits of the number. */
  function Text(num: nat, base: nat, w: nat): (s: string)
    requires GoodBase(base)
    ensures |s| == w
  {
    if w == 0 then "" else Text(num / base, base, w - 1) + [DigitChar(num % base)]
  }

  lemma {:induction false} TextValue(num: nat, base: nat, w: nat)
    requires GoodBase(base)
    ensures AreDigits(Text(num, base, w), base) && Value(Text(num, base, w), base) == num % Pow(base, w)
  {
    if w > 0 {
      TextValue(num / base, base, w - 1);
      assert Text(num, base, w)[..w - 1] == Text(num / base, base, w - 1);
      ModStep(num, base, Pow(base, w - 1));
    }
  }

  /** In characters: digits over nine are those behind '9', not letters. */
  lemma TextOfNumbers()
    ensures Text(1234, 10, 5) == "01234" && Text(0xAF, 16, 3) == "0:?" && Text(5, 2, 4) == "0101"
  {
    assert Text(12, 10, 3) == "012";
  }

  lemma ModStep(num: nat, base: nat, p: nat)
    requires base > 0 && p > 0
    ensures base * p > 0 && num / base % p * base + num % base == num % (base * p)
    ensures num / base / p == num / (base * p)
  {
    var x := num / base;
    DivIs(num, base);
    DivIs(x, p);
    Compose(num, base, p, x / p, x % p, num % base);
    ModIs(num, base * p, x / p, x % p * base + num % base);
  }

  lemma DivIs(a: nat, m: nat)
    requires m > 0
    ensures a == a / m * m + a % m && a % m < m
  {
  }

  lemma Compose(num: nat, base: nat, p: nat, q: nat, r: nat, s: nat)
    requires num == (q * p + r) * base + s && r < p && s < base
    ensures num == q * (base * p) + (r * base + s) && r * base + s < base * p
  {
    Distribute(q, p, r, base);
    MulMono(r + 1, base, p, base);
    assert (r + 1) * base == r * base + base;
  }

  lemma Distribute(q: nat, p: nat, r: nat, base: nat)
    ensures (q * p + r) * base == q * (base * p) + r * base
  {
    assert (q * p + r) * base == (q * p) * base + r * base;
    assert (q * p) * base == q * (p * base);
  }

  lemma ModIs(a: nat, m: nat, q: nat, r: nat)
    requires m > 0 && a == q * m + r && r < m
    ensures a % m == r && a / m == q
  {
    assert a == a / m * m + a % m;
    SmallMultiple(a / m - q, m, r - a % m);
  }

  lemma SmallMultiple(d: int, m: int, x: int)
    requires d * m == x && -m < x < m
    ensures d == 0
  {
    if d > 0 {
      MulMono(1, m, d, m);
    }
  }

  lemma MulMono(a: nat, b: nat, c: nat, d: nat)
    requires a <= c && b <= d
    ensures a * b <= c * d
  {
    assert a * b <= c * b;
    assert c * b <= c * d;
  }

  function DigitCount(num: nat, base: nat): nat
    requires GoodBase(base)
  {
    if num == 0 then 0 else DigitCount(num / base, base) + 1
  }

  /** The digit count is the exponent of the first power above the number. */
  lemma {:induction false} DigitCountIs(num: nat, base: nat)
    requires GoodBase(base)
    ensures num < Pow(base, DigitCount(num, base))
    ensures num > 0 ==> DigitCount(num, base) > 0 && Pow(base, DigitCount(num, base) - 1) <= num
    decreases num
  {
    hide Pow, DigitCount;
    PowIs(base, 0);
    CountIs(num, base);
    if num > 0 {
      DivSmaller(num, base);
      CountIs(num / base, base);
      DigitCountIs(num / base, base);
      var d := DigitCount(num / base, base);
      PowIs(base, d);
      Scale(num, base, Pow(base, d));
      if num / base > 0 {
        PowIs(base, d - 1);
        Scale(num, base, Pow(base, d - 1));
      }
    }
  }

  lemma CountIs(num: nat, base: nat)
    requires GoodBase(base)
    ensures DigitCount(num, base) == if num == 0 then 0 else DigitCount(num / base, base) + 1
  {
  }

  lemma DivSmaller(num: nat, base: nat)
    requires base >= 2 && num > 0
    ensures num / base < num
  {
    DivIs(num, base);
    MulMono(num / base, 2, num / base, base);
  }

  lemma PowIs(b: nat, k: nat)
    ensures Pow(b, k + 1) == b * Pow(b, k) && Pow(b, 0) == 1
  {
  }

  lemma Scale(num: nat, base: nat, p: nat)
    requires base > 0
    ensures num / base < p ==> num < base * p
    ensures p <= num / base ==> base * p <= num
  {
    if num / base < p {
      MulMono(num / base + 1, base, p, base);
    } else {
      MulMono(p, base, num / base, base);
    }
  }

  lemma {:induction false} PowGrows(b: nat, j: nat, k: nat)
    requires b >= 1 && j <= k
    ensures Pow(b, j) <= Pow(b, k)
    decreases k
  {
    if j < k {
      PowGrows(b, j, k - 1);
      assert Pow(b, k) >= Pow(b, k - 1);
    }
  }

  lemma PowWordStep(b: nat, k: nat)
    ensures PowWord(b, k) * b % WORD == PowWord(b, k + 1)
  {
    var p := Pow(b, k);
    assert p == p / WORD * WORD + p % WORD;
    assert b * p == (p / WORD * b) * WORD + p % WORD * b by {
      assert (p / WORD * WORD) * b == (p / WORD * b) * WORD;
    }
    ModShift(p % WORD * b, p / WORD * b);
  }

  lemma ModShift(a: nat, q: nat)
    ensures (q * WORD + a) % WORD == a % WORD
  {
  }

  // ---------- The version for a fixed buffer ----------

  /** Sixteen digits and a zero, or -1 for a bad base. */
  method NtostrBuffer(num: nat, str: array<char>, base: nat) returns (r: int)
    requires num < WORD && str.Length == 17
    modifies str
    ensures if 2 <= base <= 16 then r == 0 && str[..16] == Text(num, base, 16) && str[16] == '\0'
            else r == -1 && str[..] == old(str[..])
  {
    if base < 2 || base > 16 {
      return -1;
    }
    var todivby, ptr := 1, 16;
    str[16] := '\0';
    ptr := ptr - 1;
    ghost var k := 0;
    while ptr >= 0
      invariant -1 <= ptr < 16 && k == 15 - ptr && todivby == PowWord(base, k) && str[16] == '\0'
      invariant str[ptr + 1..16] == Text(num, base, 16)[ptr + 1..]
      decreases ptr
    {
      SmallPower(base, k);
      DigitInText(num, base, 16, k);
      str[ptr] := DigitChar(num / todivby % base);
      PowWordStep(base, k);
      ptr, todivby, k := ptr - 1, todivby * base % WORD, k + 1;
    }
    assert str[0..16] == str[..16];
    r := 0;
  }

  /** No power below the sixteenth wraps. */
  lemma SmallPower(base: nat, k: nat)
    requires GoodBase(base) && k < 16
    ensures PowWord(base, k) == Pow(base, k) > 0
  {
    PowBase(base, k);
    PowGrows(16, k, 15);
    PowersOf16();
  }

  lemma {:induction false} PowBase(base: nat, k: nat)
    requires GoodBase(base)
    ensures Pow(base, k) <= Pow(16, k)
  {
    if k > 0 {
      PowBase(base, k - 1);
      MulMono(base, Pow(base, k - 1), 16, Pow(16, k - 1));
    }
  }

  lemma PowersOf16()
    ensures Pow(16, 15) == 0x1000_0000_0000_0000 && Pow(16, 16) == WORD
  {
    assert Pow(16, 4) == 0x1_0000;
    assert Pow(16, 8) == 0x1_0000_0000;
    assert Pow(16, 12) == 0x1_0000_0000_0000;
  }

  lemma {:induction false} DigitInText(num: nat, base: nat, w: nat, k: nat)
    requires GoodBase(base) && k < w
    ensures Pow(base, k) > 0 && Text(num, base, w)[w - 1 - k] == DigitChar(num / Pow(base, k) % base)
    decreases w
  {
    hide *;
    PowIs(base, 0);
    TextIs(num, base, w);
    BaseIs(base);
    if k == 0 {
      DivOne(num);
    } else {
      DigitInText(num / base, base, w - 1, k - 1);
      PowIs(base, k - 1);
      SameDigit(num, base, Pow(base, k - 1));
    }
  }

  lemma BaseIs(base: nat)
    ensures GoodBase(base) <==> 2 <= base <= 16
  {
  }

  lemma DivOne(num: nat)
    ensures num / 1 == num
  {
  }

  lemma TextIs(num: nat, base: nat, w: nat)
    requires GoodBase(base) && w > 0
    ensures Text(num, base, w)[w - 1] == DigitChar(num % base)
    ensures forall i :: 0 <= i < w - 1 ==> Text(num, base, w)[i] == Text(num / base, base, w - 1)[i]
  {
  }

  lemma SameDigit(num: nat, base: nat, p: nat)
    requires base > 0 && p > 0
    ensures base * p > 0 && num / base / p % base == num / (base * p) % base
  {
    ModStep(num, base, p);
  }

  // ---------- The version that makes a string ----------

  datatype Printed = Printed(text: string) | DivideByZero

  /** The loop that counts the digits ends: some power, as it is computed, is above the number. */
  ghost predicate Ends(num: nat, base: nat) { exists k: nat :: PowWord(base, k) > num }

  /** Where that loop ends. */
  ghost function StopLength(num: nat, base: nat): (n: nat)
    requires Ends(num, base)
    ensures PowWord(base, n) > num && forall j: nat :: j < n ==> PowWord(base, j) <= num
  {
    var k: nat :| PowWord(base, k) > num;
    StopFrom(num, base, 0, k)
  }

  ghost function StopFrom(num: nat, base: nat, j: nat, k: nat): (n: nat)
    requires j <= k && PowWord(base, k) > num && forall i: nat :: i < j ==> PowWord(base, i) <= num
    ensures PowWord(base, n) > num && forall i: nat :: i < n ==> PowWord(base, i) <= num
    decreases k - j
  {
    if PowWord(base, j) > num then j else StopFrom(num, base, j + 1, k)
  }

  lemma StopIs(num: nat, base: nat, n: nat)
    requires PowWord(base, n) > num && forall j: nat :: j < n ==> PowWord(base, j) <= num
    ensures Ends(num, base) && StopLength(num, base) == n
  {
    assert Ends(num, base);
    var m := StopLength(num, base);
    assert n < m ==> PowWord(base, n) <= num;
  }

  /** `w` digits from the right, with the powers as they are computed. */
  function RawDigits(num: nat, base: nat, w: nat): string
    requires GoodBase(base) && forall k: nat :: k < w ==> PowWord(base, k) > 0
  {
    if w == 0 then "" else [DigitChar(num / PowWord(base, w - 1) % base)] + RawDigits(num, base, w - 1)
  }

  ghost function PrintedText(num: nat, base: nat, w: nat): Printed
    requires GoodBase(base)
  {
    if forall k: nat :: k < w ==> PowWord(base, k) > 0 then Printed(RawDigits(num, base, w)) else DivideByZero
  }

  function Max(a: nat, b: nat): nat { if a < b then b else a }

  method Ntostr(num: nat, base: nat, minWidth: nat) returns (r: Printed)
    requires num < WORD && (GoodBase(base) && num > 0 ==> Ends(num, base))
    ensures r == if !(2 <= base <= 16) then Printed("")
                 else if num == 0 then Printed(Text(0, base, minWidth))
                 else PrintedText(num, base, Max(minWidth, StopLength(num, base)))
  {
    if base < 2 || base > 16 {
      return Printed("");
    }
    if num == 0 {
      ZeroText(base, minWidth);
      return Printed(seq(minWidth, _ => '0'));
    }
    var len := CountDigits(num, base);
    if len < minWidth {
      len := minWidth;
    }
    r := FillDigits(num, base, len);
  }

  method CountDigits(num: nat, base: nat) returns (len: nat)
    requires Ends(num, base) && 0 < num
    ensures len == StopLength(num, base)
  {
    hide PowWord;
    var n := 1;
    len := 0;
    PowIs(base, 0);
    PowWordSmall(base, 0);
    ghost var stop := StopLength(num, base);
    while n <= num
      invariant len <= stop && n == PowWord(base, len)
      decreases stop - len
    {
      PowWordStep(base, len);
      len, n := len + 1, n * base % WORD;
    }
  }

  lemma PowWordSmall(b: nat, k: nat)
    ensures Pow(b, k) < WORD <==> PowWord(b, k) == Pow(b, k)
  {
  }

  method FillDigits(num: nat, base: nat, len: nat) returns (r: Printed)
    requires GoodBase(base)
    ensures r == PrintedText(num, base, len)
  {
    var str := seq(len, _ => '\0');
    var todivby, offset := 1, len;
    PowWordSmall(base, 0);
    hide PowWord, Pow;
    while offset > 0
      invariant offset <= len == |str| && todivby == PowWord(base, len - offset)
      invariant forall k: nat :: k < len - offset ==> PowWord(base, k) > 0
      invariant str[offset..] == RawDigits(num, base, len - offset)
    {
      if todivby == 0 {
        return DivideByZero;
      }
      PowWordStep(base, len - offset);
      str := str[offset - 1 := DigitChar(num / todivby % base)];
      todivby, offset := todivby * base % WORD, offset - 1;
    }
    r := Printed(str);
  }

  lemma {:induction false} ZeroText(base: nat, w: nat)
    requires GoodBase(base)
    ensures Text(0, base, w) == seq(w, _ => '0')
  {
    if w > 0 {
      ZeroText(base, w - 1);
      assert seq(w, _ => '0') == seq(w - 1, _ => '0') + ['0'];
    }
  }

  lemma {:induction false} RawIsText(num: nat, base: nat, w: nat, full: nat)
    requires GoodBase(base) && w <= full && forall k: nat :: k < w ==> PowWord(base, k) == Pow(base, k)
    ensures forall k: nat :: k < w ==> PowWord(base, k) > 0
    ensures RawDigits(num, base, w) == Text(num, base, full)[full - w..]
  {
    if w > 0 {
      RawIsText(num, base, w - 1, full);
      DigitInText(num, base, full, w - 1);
    }
  }

  /** The `k`th digit from the right is that of the number: its power is not zero, and if it is in front
      of the number, where the power may have wrapped, the digit is zero. */
  predicate RightDigit(num: nat, base: nat, k: nat, d: nat)
    requires base > 0
  {
    PowWord(base, k) > 0 && (k >= d ==> num / PowWord(base, k) % base == 0)
  }

  /** The count ends at the number of digits, or inside the width; and all the digits are right. */
  ghost predicate PrintsRight(num: nat, base: nat, minWidth: nat)
    requires GoodBase(base)
  {
    var d := DigitCount(num, base);
    && Ends(num, base) && (StopLength(num, base) == d || StopLength(num, base) <= minWidth)
    && RightDigits(num, base, Max(minWidth, d), d)
  }

  ghost predicate RightDigits(num: nat, base: nat, w: nat, d: nat)
    requires base > 0
  {
    forall k: nat :: k < w ==> RightDigit(num, base, k, d)
  }

  lemma {:induction false} RawAt(num: nat, base: nat, w: nat, k: nat)
    requires GoodBase(base) && k < w && forall j: nat :: j < w ==> PowWord(base, j) > 0
    ensures |RawDigits(num, base, w)| == w
    ensures RawDigits(num, base, w)[w - 1 - k] == DigitChar(num / PowWord(base, k) % base)
    decreases w
  {
    if w > 1 {
      RawAt(num, base, w - 1, if k < w - 1 then k else 0);
    }
  }

  /** The digit of a number below the power is zero, and powers up to the number do not wrap. */
  lemma DigitAt(num: nat, base: nat, w: nat, k: nat)
    requires GoodBase(base) && 0 < num < WORD && k < w
    ensures var d := DigitCount(num, base);
            Text(num, base, w)[w - 1 - k]
            == DigitChar(if k < d && PowWord(base, k) > 0 then num / PowWord(base, k) % base else 0)
    ensures k < DigitCount(num, base) ==> PowWord(base, k) > 0
  {
    hide *;
    var d := DigitCount(num, base);
    BaseIs(base);
    DigitInText(num, base, w, k);
    DigitCountIs(num, base);
    if k < d {
      PowGrows(base, k, d - 1);
      PowWordSmall(base, k);
    } else {
      PowGrows(base, d, k);
      SmallDigit(num, Pow(base, k), base);
    }
  }

  lemma SmallDigit(num: nat, p: nat, base: nat)
    requires num < p && base > 0
    ensures num / p % base == 0
  {
  }

  lemma DigitsDiffer(a: nat, b: nat)
    requires a < 16 && b < 16 && DigitChar(a) == DigitChar(b)
    ensures a == b
  {
  }

  /** Raw digits and text agree exactly where the digits are right. */
  lemma RawIsTextIf(num: nat, base: nat, w: nat)
    requires GoodBase(base) && 0 < num < WORD && forall j: nat :: j < w ==> PowWord(base, j) > 0
    ensures RawDigits(num, base, w) == Text(num, base, w)
            <==> RightDigits(num, base, w, DigitCount(num, base))
  {
    var raw, text, d := RawDigits(num, base, w), Text(num, base, w), DigitCount(num, base);
    if w > 0 {
      RawAt(num, base, w, 0);
    }
    hide RawDigits, Text, DigitCount, PowWord, DigitChar;
    forall k: nat | k < w ensures raw[w - 1 - k] == text[w - 1 - k] <==> RightDigit(num, base, k, d) {
      RawAt(num, base, w, k);
      DigitAt(num, base, w, k);
      if raw[w - 1 - k] == text[w - 1 - k] && k >= d {
        DigitsDiffer(num / PowWord(base, k) % base, 0);
      }
    }
    if raw == text {
      assert RightDigits(num, base, w, d);
    } else if RightDigits(num, base, w, d) {
      forall j | 0 <= j < w ensures raw[j] == text[j] {
        var k: nat := w - 1 - j;
        assert RightDigit(num, base, k, d);
      }
    }
  }

  /** The printer returns exactly the digits of the number, with zeros in front up to the width, if and
      only if its count ends at their number, or inside the width, and no power it divides by wraps to
      zero, or to something that makes a digit in front of the number. */
  lemma PrintsExactlyWhen(num: nat, base: nat, minWidth: nat)
    requires GoodBase(base) && 0 < num < WORD
    ensures PrintsRight(num, base, minWidth) <==>
            && Ends(num, base)
            && PrintedText(num, base, Max(minWidth, StopLength(num, base)))
               == Printed(Text(num, base, Max(minWidth, DigitCount(num, base))))
  {
    hide *;
    BaseIs(base);
    var d := DigitCount(num, base);
    RightIs(num, base, minWidth, d);
    if Ends(num, base) {
      var n := StopLength(num, base);
      StopsLate(num, base);
      MaxIs(minWidth, n);
      MaxIs(minWidth, d);
      RawLength(num, base, Max(minWidth, n));
      TextLength(num, base, Max(minWidth, d));
      PrintedRight(num, base, Max(minWidth, d));
    }
  }

  lemma RightIs(num: nat, base: nat, minWidth: nat, d: nat)
    requires GoodBase(base) && d == DigitCount(num, base)
    ensures PrintsRight(num, base, minWidth) <==>
            && Ends(num, base) && (StopLength(num, base) == d || StopLength(num, base) <= minWidth)
            && RightDigits(num, base, Max(minWidth, d), d)
  {
  }

  lemma PrintedRight(num: nat, base: nat, w: nat)
    requires GoodBase(base) && 0 < num < WORD
    ensures PrintedText(num, base, w) == Printed(Text(num, base, w)) <==> RightDigits(num, base, w, DigitCount(num, base))
  {
    if forall j: nat :: j < w ==> PowWord(base, j) > 0 {
      RawIsTextIf(num, base, w);
    } else {
      var j: nat :| j < w && PowWord(base, j) == 0;
      assert !RightDigit(num, base, j, DigitCount(num, base));
    }
  }

  /** What is printed then: the number, in digits of the base, with zeros in front up to the width. */
  lemma PaddedText(num: nat, base: nat, minWidth: nat)
    requires GoodBase(base)
    ensures var text := Text(num, base, Max(minWidth, DigitCount(num, base)));
            |text| == Max(minWidth, DigitCount(num, base)) && Value(text, base) == num && AreDigits(text, base)
  {
    hide *;
    var d := DigitCount(num, base);
    BaseIs(base);
    MaxIs(minWidth, d);
    DigitCountIs(num, base);
    TextValue(num, base, Max(minWidth, d));
    TextLength(num, base, Max(minWidth, d));
    PowGrows(base, d, Max(minWidth, d));
    SmallMod(num, Pow(base, Max(minWidth, d)));
  }

  lemma TextLength(num: nat, base: nat, w: nat)
    requires GoodBase(base)
    ensures |Text(num, base, w)| == w
  {
  }

  /** It does so when no power that is used wraps. */
  lemma PrintsNumber(num: nat, base: nat, minWidth: nat)
    requires GoodBase(base) && 0 < num < WORD
    ensures NoPowerWraps(num, base, minWidth) ==>
              var w := Max(minWidth, DigitCount(num, base));
              && Ends(num, base) && StopLength(num, base) == DigitCount(num, base)
              && PrintedText(num, base, w) == Printed(Text(num, base, w))
  {
    if NoPowerWraps(num, base, minWidth) {
      PrintsPadded(num, base, minWidth);
    }
  }

  /** The powers that the printer divides by fit a word, and the one its count stops at is still above
      the number. */
  predicate NoPowerWraps(num: nat, base: nat, minWidth: nat)
    requires GoodBase(base) && 0 < num
  {
    var d := DigitCount(num, base);
    PowWord(base, d) > num && Max(minWidth, d) > 0 && Pow(base, Max(minWidth, d) - 1) < WORD
  }

  /** An instance where a power wraps and the text is right all the same. */
  lemma WrappedAndRight()
    ensures PrintsRight(5, 10, 21) && !NoPowerWraps(5, 10, 21)
  {
    PowersOf10();
    assert DigitCount(5, 10) == 1 && PowWord(10, 1) == 10 && PowWord(10, 0) == 1;
    StopIs(5, 10, 1);
    forall k: nat | k < 21 ensures RightDigit(5, 10, k, 1) {
      if 0 < k < 20 {
        PowGrows(10, k, 19);
        PowGrows(10, 1, k);
        PowWordSmall(10, k);
        SmallDigit(5, PowWord(10, k), 10);
      }
    }
  }

  lemma PowersOf10()
    ensures Pow(10, 19) == 10_000_000_000_000_000_000 && Pow(10, 20) == 100_000_000_000_000_000_000
    ensures PowWord(10, 20) == 7_766_279_631_452_241_920
  {
    assert Pow(10, 5) == 100_000;
    assert Pow(10, 10) == 10_000_000_000;
    assert Pow(10, 15) == 1_000_000_000_000_000;
  }

  lemma PrintsPadded(num: nat, base: nat, minWidth: nat)
    requires GoodBase(base) && 0 < num < WORD && NoPowerWraps(num, base, minWidth)
    ensures Ends(num, base) && StopLength(num, base) == DigitCount(num, base)
    ensures var w := Max(minWidth, DigitCount(num, base)); PrintedText(num, base, w) == Printed(Text(num, base, w))
  {
    assert Pow(base, Max(minWidth, DigitCount(num, base)) - 1) < WORD && PowWord(base, DigitCount(num, base)) > num;
    hide *;
    var d := DigitCount(num, base);
    var w := Max(minWidth, d);
    MaxIs(minWidth, d);
    PowersBelow(base, w);
    StopsAt(num, base, d);
    RawIsText(num, base, w, w);
    PrintedTextIs(num, base, w);
  }

  lemma MaxIs(a: nat, b: nat)
    ensures Max(a, b) == if a < b then b else a
  {
  }

  lemma SmallMod(a: nat, m: nat)
    requires a < m
    ensures a % m == a
  {
  }

  lemma PrintedTextIs(num: nat, base: nat, w: nat)
    requires GoodBase(base) && forall k: nat :: k < w ==> PowWord(base, k) > 0
    requires RawDigits(num, base, w) == Text(num, base, w)[w - w..]
    ensures PrintedText(num, base, w) == Printed(Text(num, base, w)) && |Text(num, base, w)| == w
  {
  }

  lemma PowersBelow(base: nat, w: nat)
    requires GoodBase(base) && (w > 0 ==> Pow(base, w - 1) < WORD)
    ensures forall k: nat :: k < w ==> PowWord(base, k) == Pow(base, k)
    ensures base >= 1
  {
    forall k: nat | k < w ensures PowWord(base, k) == Pow(base, k) {
      PowGrows(base, k, w - 1);
      PowWordSmall(base, k);
    }
  }

  lemma StopsAt(num: nat, base: nat, d: nat)
    requires GoodBase(base) && 0 < num < WORD && d == DigitCount(num, base) && PowWord(base, d) > num
    ensures Ends(num, base) && StopLength(num, base) == d
  {
    DigitCountIs(num, base);
    hide Pow, PowWord;
    forall k: nat | k < d ensures PowWord(base, k) <= num {
      PowGrows(base, k, d - 1);
      PowWordSmall(base, k);
    }
    StopIs(num, base, d);
  }

  /** Without padding the condition is exact: the printer returns the digits of the number if and only
      if the first power above the number is still above it when it is computed in 64 bits. */
  lemma PrintsNumberExactly(num: nat, base: nat, minWidth: nat)
    requires GoodBase(base) && 0 < num < WORD && minWidth <= DigitCount(num, base)
    ensures var d := DigitCount(num, base);
            PowWord(base, d) > num <==>
            && Ends(num, base)
            && PrintedText(num, base, Max(minWidth, StopLength(num, base))) == Printed(Text(num, base, d))
  {
    var d := DigitCount(num, base);
    DigitCountIs(num, base);
    if PowWord(base, d) > num {
      PrintsNumber(num, base, minWidth);
    } else if Ends(num, base) {
      var n := StopLength(num, base);
      StopsLate(num, base);
      RawLength(num, base, Max(minWidth, n));
    }
  }

  /** The loop does not end before the digit count. */
  lemma StopsLate(num: nat, base: nat)
    requires GoodBase(base) && 0 < num < WORD && Ends(num, base)
    ensures StopLength(num, base) >= DigitCount(num, base)
  {
    var n, d := StopLength(num, base), DigitCount(num, base);
    DigitCountIs(num, base);
    hide Pow, PowWord, DigitCount, StopFrom;
    if n < d {
      PowGrows(base, n, d - 1);
      PowWordSmall(base, n);
    }
  }

  lemma {:induction false} RawLength(num: nat, base: nat, w: nat)
    requires GoodBase(base)
    ensures PrintedText(num, base, w).Printed? ==> |PrintedText(num, base, w).text| == w
    decreases w
  {
    if w > 0 {
      RawLength(num, base, w - 1);
    }
  }

  /** Hexadecimal: the loop never ends for a number of sixteen digits, and does for all others. */
  lemma HexHangs(num: nat)
    requires 0 < num < WORD
    ensures Ends(num, 16) <==> num < 0x1000_0000_0000_0000
  {
    PowersOf16();
    if num < 0x1000_0000_0000_0000 {
      assert PowWord(16, 15) > num;
    } else {
      forall k: nat ensures PowWord(16, k) <= num {
        if k < 16 {
          PowGrows(16, k, 15);
        } else {
          ZeroStays(16, 16, k);
        }
      }
    }
  }

  lemma {:induction false} ZeroStays(b: nat, j: nat, k: nat)
    requires PowWord(b, j) == 0 && j <= k
    ensures PowWord(b, k) == 0
    decreases k
  {
    if j < k {
      ZeroStays(b, j, k - 1);
      PowWordStep(b, k - 1);
    }
  }

  /** Hexadecimal with a width of more than sixteen divides by zero. */
  lemma WideHexFaults(num: nat, minWidth: nat)
    requires 0 < num < 0x1000_0000_0000_0000 && minWidth > 16
    ensures Ends(num, 16) && PrintedText(num, 16, Max(minWidth, StopLength(num, 16))) == DivideByZero
  {
    HexHangs(num);
    PowersOf16();
    assert PowWord(16, 16) == 0;
  }

  /** The two versions agree at a width of sixteen exactly for the numbers of at most sixteen digits,
      and fifteen in hexadecimal. */
  lemma VersionsAgree(num: nat, base: nat)
    requires GoodBase(base) && 0 < num < WORD
    ensures num < Pow(base, 16) && (base == 16 ==> num < 0x1000_0000_0000_0000) <==>
            Ends(num, base) && PrintedText(num, base, Max(16, StopLength(num, base))) == Printed(Text(num, base, 16))
  {
    PowersOf16();
    DigitCountIs(num, base);
    var d := DigitCount(num, base);
    if num < Pow(base, 16) && (base == 16 ==> num < 0x1000_0000_0000_0000) {
      if d > 16 {
        PowGrows(base, 16, d - 1);
      }
      FitsWord(num, base, d);
      PrintsNumber(num, base, 16);
    } else if Ends(num, base) {
      if base == 16 {
        HexHangs(num);
      }
      if d <= 16 {
        PowGrows(base, d, 16);
      }
      StopsLate(num, base);
      RawLength(num, base, Max(16, StopLength(num, base)));
    }
  }

  lemma FitsWord(num: nat, base: nat, d: nat)
    requires GoodBase(base) && 0 < num < WORD && d == DigitCount(num, base) <= 16
    requires base == 16 ==> num < 0x1000_0000_0000_0000
    ensures PowWord(base, d) > num && Pow(base, 15) < WORD
  {
    DigitCountIs(num, base);
    SmallPower(base, 15);
    PowersOf16();
    PowersOf15();
    hide Pow, PowWord;
    PowWordSmall(base, 15);
    PowWordSmall(base, d);
    if base < 16 {
      PowBase15(base, d);
      PowGrows(15, d, 16);
    } else if d < 16 {
      PowGrows(16, d, 15);
    }
  }

  lemma PowersOf15()
    ensures Pow(15, 16) < WORD
  {
    assert Pow(15, 4) == 50625;
    assert Pow(15, 8) == 2562890625;
    assert Pow(15, 12) == 129746337890625;
  }

  lemma {:induction false} PowBase15(base: nat, k: nat)
    requires 2 <= base <= 15
    ensures Pow(base, k) <= Pow(15, k)
  {
    if k > 0 {
      PowBase15(base, k - 1);
      MulMono(base, Pow(base, k - 1), 15, Pow(15, k - 1));
    }
  }
}
