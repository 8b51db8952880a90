/** The number printers of src/lib/str.c:25-185: digits least significant first, then reversed in place. */
module Numerals {
  import opened Machine

  // ---------- Texts ----------

  predicate Base(base: nat) {
    2 <= base <= 36
  }

  function DigitChar(d: nat, upper: bool): char
    requires d < 36
  {
    if d > 9 then (d - 10) as char + (if upper then 'A' else 'a') else d as char + '0'
  }

  /** What a digit stands for, in either case. */
  function DigitValue(c: char): nat {
    if '0' <= c <= '9' then (c - '0') as nat
    else if 'a' <= c <= 'z' then (c - 'a') as nat + 10
    else if 'A' <= c <= 'Z' then (c - 'A') as nat + 10
    else 36
  }

  /** What the digit loop leaves in the buffer for num > 0. */
  function Digits(num: nat, base: nat, upper: bool): (ds: seq<char>)
    requires Base(base)
    decreases num
  {
    if num == 0 then [] else [DigitChar(num % base, upper)] + Digits(Quotient(num, base), base, upper)
  }

  /** num / base, which is smaller than num. */
  function Quotient(num: nat, base: nat): (q: nat)
    requires Base(base)
    ensures num > 0 ==> q < num
    ensures num == q * base + num % base
  {
    QuotientSmaller(num, base, num / base);
    num / base
  }

  lemma QuotientSmaller(num: nat, base: nat, q: int)
    requires 2 <= base && q == num / base
    ensures 0 <= q && (num > 0 ==> q < num) && num == q * base + num % base
  {
  }

  function Reversed(s: seq<char>): (r: seq<char>)
    ensures |r| == |s|
    ensures forall i :: 0 <= i < |s| ==> r[i] == s[|s| - 1 - i]
  {
    seq(|s|, i requires 0 <= i < |s| => s[|s| - 1 - i])
  }

  function Zeros(n: nat): (zs: seq<char>)
    ensures |zs| == n && forall i :: 0 <= i < n ==> zs[i] == '0'
  {
    seq(n, i => '0')
  }

  /** The buffer of itoa and ltoa before it is reversed. */
  function SignedRaw(num: int, base: nat): seq<char>
    requires Base(base)
  {
    (if num == 0 then "0" else Digits(if num < 0 then -num else num, base, false)) + if num < 0 then "-" else ""
  }

  /** The buffer of __ultoa and __ultoua before it is reversed; base 16 is padded. */
  function UnsignedRaw(num: nat, base: nat, upper: bool): seq<char>
    requires Base(base)
  {
    var ds := if num == 0 then "0" else Digits(num, base, upper);
    if base == 16 && |ds| < 16 then ds + Zeros(16 - |ds|) else ds
  }

  /** What itoa and ltoa print. */
  function SignedText(num: int, base: nat): seq<char>
    requires Base(base)
  {
    Reversed(SignedRaw(num, base))
  }

  /** What __ultoa and __ultoua print. */
  function UnsignedText(num: nat, base: nat, upper: bool): seq<char>
    requires Base(base)
  {
    Reversed(UnsignedRaw(num, base, upper))
  }

  // ---------- Reading back ----------

  /** The usual positional reading, most significant digit first. */
  function ReadDigits(s: seq<char>, base: nat): nat {
    if s == [] then 0 else ReadDigits(s[..|s| - 1], base) * base + DigitValue(s[|s| - 1])
  }

  function ReadNumber(s: seq<char>, base: nat): int {
    if s != [] && s[0] == '-' then -(ReadDigits(s[1..], base) as int) else ReadDigits(s, base)
  }

  lemma DigitRoundTrip(d: nat, upper: bool)
    requires d < 36
    ensures DigitValue(DigitChar(d, upper)) == d
    ensures DigitChar(d, upper) == '0' <==> d == 0
    ensures DigitChar(d, upper) != '-'
  {
  }

  lemma {:induction false} ReadZeros(n: nat, base: nat)
    ensures ReadDigits(Reversed(Zeros(n)), base) == 0
  {
    if n > 0 {
      ReadZeros(n - 1, base);
      assert Reversed(Zeros(n))[..n - 1] == Reversed(Zeros(n - 1));
      assert ReadDigits(Reversed(Zeros(n)), base) == 0 * base + DigitValue('0');
    }
  }

  /** The digit loop, padded and reversed, reads back as the number. */
  lemma {:induction false} ReadReversedDigits(num: nat, base: nat, upper: bool, pad: nat)
    requires Base(base)
    ensures ReadDigits(Reversed(Digits(num, base, upper) + Zeros(pad)), base) == num
    decreases num
  {
    var raw := Digits(num, base, upper) + Zeros(pad);
    if num == 0 {
      assert raw == Zeros(pad);
      ReadZeros(pad, base);
    } else {
      var q := Quotient(num, base);
      ReadReversedDigits(q, base, upper, pad);
      DigitRoundTrip(num % base, upper);
      var text := Reversed(raw);
      assert text[..|text| - 1] == Reversed(Digits(q, base, upper) + Zeros(pad));
    }
  }

  /** The digits are digits, and the last one written, the leading one, is not zero. */
  lemma {:induction false} DigitsAreDigits(num: nat, base: nat, upper: bool)
    requires Base(base)
    ensures var ds := Digits(num, base, upper);
            && (forall i :: 0 <= i < |ds| ==> DigitValue(ds[i]) < base && ds[i] != '-')
            && (num > 0 ==> ds != [] && ds[|ds| - 1] != '0')
    decreases num
  {
    if num > 0 {
      DigitsAreDigits(Quotient(num, base), base, upper);
      DigitRoundTrip(num % base, upper);
    }
  }

  /** Reading back what itoa or ltoa printed gives the number, in every base and for every number. */
  lemma SignedRoundTrip(num: int, base: nat)
    requires Base(base)
    ensures ReadNumber(SignedText(num, base), base) == num
  {
    var n := if num < 0 then -num else num;
    var ds := Digits(n, base, false);
    DigitsAreDigits(n, base, false);
    ReadReversedDigits(n, base, false, 0);
    assert ds + Zeros(0) == ds;
    var text := SignedText(num, base);
    if num == 0 {
      assert text == "0";
      assert ReadDigits("0", base) == ReadDigits("0"[..0], base) * base + DigitValue('0');
    } else if num < 0 {
      assert text[1..] == Reversed(ds);
    } else {
      assert text == Reversed(ds);
    }
  }

  /** Reading back what __ultoa or __ultoua printed gives the number. */
  lemma UnsignedRoundTrip(num: nat, base: nat, upper: bool)
    requires Base(base)
    ensures ReadNumber(UnsignedText(num, base, upper), base) == num
  {
    DigitsAreDigits(num, base, upper);
    var raw := UnsignedRaw(num, base, upper);
    var ds := Digits(num, base, upper);
    if num == 0 {
      assert raw == Zeros(if base == 16 then 16 else 1);
      ReadZeros(|raw|, base);
    } else {
      ReadReversedDigits(num, base, upper, |raw| - |ds|);
      assert raw == ds + Zeros(|raw| - |ds|);
      assert UnsignedText(num, base, upper)[0] == raw[|raw| - 1];
    }
  }

  function Power16(k: nat): nat {
    if k == 0 then 1 else 16 * Power16(k - 1)
  }

  lemma {:induction false} HexLength(num: nat, upper: bool, k: nat)
    requires num < Power16(k)
    ensures |Digits(num, 16, upper)| <= k
  {
    if num > 0 {
      HexLength(Quotient(num, 16), upper, k - 1);
    }
  }

  lemma WordIsSixteenDigits()
    ensures Power16(16) == TWO64
  {
    assert Power16(4) == 65536;
    assert Power16(8) == 65536 * Power16(4);
    assert Power16(12) == 65536 * Power16(8);
    assert Power16(16) == 65536 * Power16(12);
  }

  // ---------- Which characters ----------

  /** c is a digit of the base, a letter only in the case asked for. */
  predicate DigitOf(c: char, base: nat, upper: bool) {
    DigitValue(c) < base && ('0' <= c <= '9' || if upper then 'A' <= c <= 'Z' else 'a' <= c <= 'z')
  }

  lemma {:induction false} DigitsInCase(num: nat, base: nat, upper: bool)
    requires Base(base)
    ensures forall i :: 0 <= i < |Digits(num, base, upper)| ==> DigitOf(Digits(num, base, upper)[i], base, upper)
    decreases num
  {
    if num > 0 {
      DigitsInCase(Quotient(num, base), base, upper);
    }
  }

  /** __ultoa prints digits and lower-case letters only, __ultoua digits and upper-case letters only. */
  lemma UnsignedCharacters(num: nat, base: nat, upper: bool)
    requires Base(base)
    ensures var t := UnsignedText(num, base, upper);
            t != [] && forall i :: 0 <= i < |t| ==> DigitOf(t[i], base, upper)
  {
    DigitsInCase(num, base, upper);
    NotEmpty(num, base, upper);
  }

  /** itoa and ltoa print a sign exactly for the negative numbers, then digits and lower-case letters only. */
  lemma SignedCharacters(num: int, base: nat)
    requires Base(base)
    ensures var t, first := SignedText(num, base), if num < 0 then 1 else 0;
            && first < |t| && (num < 0 ==> t[0] == '-')
            && forall i :: first <= i < |t| ==> DigitOf(t[i], base, false)
  {
    var n := if num < 0 then -num else num;
    DigitsInCase(n, base, false);
    NotEmpty(n, base, false);
  }

  /** 0 is one zero, and sixteen of them in base 16 without a sign. */
  lemma TextOfZero(base: nat, upper: bool)
    requires Base(base)
    ensures SignedText(0, base) == "0"
    ensures UnsignedText(0, base, upper) == if base == 16 then Zeros(16) else "0"
  {
    assert UnsignedRaw(0, base, upper) == Zeros(if base == 16 then 16 else 1);
  }

  /** Every 64-bit number fits 16 hexadecimal digits, so base 16 prints exactly 16. */
  lemma HexIsSixteenDigits(num: u64, upper: bool)
    ensures |UnsignedText(num, 16, upper)| == 16
  {
    WordIsSixteenDigits();
    HexLength(num, upper, 16);
  }

  /** In any other base, and with a sign, no number but 0 starts with a zero. */
  lemma NoLeadingZero(num: nat, base: nat, upper: bool)
    requires Base(base) && num > 0
    ensures base != 16 ==> UnsignedText(num, base, upper)[0] != '0'
    ensures SignedText(num, base)[0] != '0'
    ensures SignedText(0 - num, base)[0] == '-' && |SignedText(0 - num, base)| > 1 && SignedText(0 - num, base)[1] != '0'
  {
    hide Digits;
    DigitsAreDigits(num, base, upper);
    DigitsAreDigits(num, base, false);
  }

  // ---------- In the buffer ----------

  /** a with the characters from off on overwritten by t. */
  function Splice(a: seq<char>, off: nat, t: seq<char>): (r: seq<char>)
    requires off + |t| <= |a|
    ensures |r| == |a|
    ensures forall i :: 0 <= i < |a| ==> r[i] == if off <= i < off + |t| then t[i - off] else a[i]
  {
    a[..off] + t + a[off + |t|..]
  }

  lemma SpliceAppend(a: seq<char>, off: nat, t: seq<char>, c: char)
    requires off + |t| < |a|
    ensures Splice(a, off, t)[off + |t| := c] == Splice(a, off, t + [c])
  {
  }

  /** t with its k outermost characters on either side exchanged. */
  function Mirrored(t: seq<char>, k: nat): (r: seq<char>)
    ensures |r| == |t|
    ensures forall i :: 0 <= i < |t| ==> r[i] == if i < k || |t| - k <= i then t[|t| - 1 - i] else t[i]
  {
    seq(|t|, i requires 0 <= i < |t| => if i < k || |t| - k <= i then t[|t| - 1 - i] else t[i])
  }

  lemma SwapStep(a: seq<char>, off: nat, t: seq<char>, k: nat)
    requires off + |t| <= |a| && 2 * k + 1 < |t|
    ensures var x := Splice(a, off, Mirrored(t, k));
            x[off + k := x[off + |t| - 1 - k]][off + |t| - 1 - k := x[off + k]] == Splice(a, off, Mirrored(t, k + 1))
  {
    hide Mirrored;
    var s, s' := Mirrored(t, k), Mirrored(t, k + 1);
    MirroredStep(t, k);
    var x := Splice(a, off, s);
    assert x[off + k] == s[k] && x[off + |t| - 1 - k] == s[|t| - 1 - k];
    assert x[off + k := s[|t| - 1 - k]][off + |t| - 1 - k := s[k]] == Splice(a, off, s');
  }

  lemma MirroredStep(t: seq<char>, k: nat)
    requires 2 * k + 1 < |t|
    ensures |Mirrored(t, k)| == |t|
    ensures Mirrored(t, k + 1) == Mirrored(t, k)[k := Mirrored(t, k)[|t| - 1 - k]][|t| - 1 - k := Mirrored(t, k)[k]]
  {
  }

  /** reverse.  A length of 0 would make end wrap to 2^64 - 1. */
  method Reverse(str: array<char>, off: nat, length: nat)
    requires 0 < length && off + length <= str.Length
    modifies str
    ensures str[..] == Splice(old(str[..]), off, Reversed(old(str[off..off + length])))
  {
    hide Splice, Mirrored, Reversed;
    ghost var a, t := str[..], str[off..off + length];
    var start, end := 0, length - 1;
    SpliceSame(a, off, t);
    MirroredEnds(t, 0);
    while start < end
      invariant 0 <= start <= end + 1 && start + end == length - 1
      invariant str[..] == Splice(a, off, Mirrored(t, start))
    {
      SwapStep(a, off, t, start);
      ghost var x := str[..];
      var temp := str[off + start];
      str[off + start] := str[off + end];
      str[off + end] := temp;
      assert str[..] == x[off + start := x[off + end]][off + end := x[off + start]];
      start := start + 1;
      end := end - 1;
    }
    MirroredEnds(t, start);
  }

  lemma SpliceSame(a: seq<char>, off: nat, t: seq<char>)
    requires off + |t| <= |a| && a[off..off + |t|] == t
    ensures Splice(a, off, t) == a
  {
  }

  lemma MirroredEnds(t: seq<char>, k: nat)
    ensures Mirrored(t, 0) == t
    ensures 2 * k + 1 >= |t| ==> Mirrored(t, k) == Reversed(t)
  {
  }

  /** Text and terminator, then the text reversed over itself. */
  lemma SpliceReversed(a: seq<char>, off: nat, raw: seq<char>, z: char)
    requires off + |raw| < |a|
    ensures var x := Splice(a, off, raw + [z]);
            && x[off..off + |raw|] == raw
            && Splice(x, off, Reversed(raw)) == Splice(a, off, Reversed(raw) + [z])
  {
  }

  lemma DigitsStep(num: nat, base: nat, upper: bool, done: seq<char>)
    requires Base(base) && num > 0
    ensures done + Digits(num, base, upper)
         == (done + [DigitChar(num % base, upper)]) + Digits(Quotient(num, base), base, upper)
  {
  }

  /** The digit loop of all four printers. */
  method PutDigits(num: nat, str: array<char>, off: nat, base: nat, upper: bool) returns (i: nat)
    requires Base(base) && off + |Digits(num, base, upper)| <= str.Length
    modifies str
    ensures i == |Digits(num, base, upper)|
    ensures str[..] == Splice(old(str[..]), off, Digits(num, base, upper))
  {
    i := 0;
    var n: nat := num;
    ghost var done := [];
    while n != 0
      invariant i == |done| && done + Digits(n, base, upper) == Digits(num, base, upper)
      invariant str[..] == Splice(old(str[..]), off, done)
      decreases n
    {
      var rem := n % base;
      SpliceAppend(old(str[..]), off, done, DigitChar(rem, upper));
      DigitsStep(n, base, upper, done);
      str[off + i] := DigitChar(rem, upper);
      done := done + [DigitChar(rem, upper)];
      i := i + 1;
      n := Quotient(n, base);
    }
  }

  /** itoa and ltoa, whose bodies differ only in the width of num: digits, sign, NUL, reversal. */
  method PutSigned(num: int, str: array<char>, off: nat, base: nat) returns (i: nat)
    requires Base(base) && off + |SignedText(num, base)| < str.Length
    modifies str
    ensures i == |SignedText(num, base)|
    ensures str[..] == Splice(old(str[..]), off, SignedText(num, base) + ['\0'])
  {
    var isNegative := num < 0;
    var n := if isNegative then -num else num;
    if n == 0 {
      str[off] := '0';
      i := 1;
    } else {
      i := PutDigits(n, str, off, base, false);
    }
    if isNegative {
      str[off + i] := '-';
      i := i + 1;
    }
    str[off + i] := '\0';
    NotEmpty(n, base, false);
    SpliceReversed(old(str[..]), off, SignedRaw(num, base), '\0');
    assert str[..] == Splice(old(str[..]), off, SignedRaw(num, base) + ['\0']);
    Reverse(str, off, i);
  }

  /** itoa.  The negation of the least int is undefined in C. */
  method Itoa(num: int, str: array<char>, off: nat, base: nat) returns (i: nat)
    requires -0x8000_0000 < num < 0x8000_0000
    requires Base(base) && off + |SignedText(num, base)| < str.Length
    modifies str
    ensures i == |SignedText(num, base)|
    ensures str[..] == Splice(old(str[..]), off, SignedText(num, base) + ['\0'])
  {
    i := PutSigned(num, str, off, base);
  }

  /** ltoa */
  method Ltoa(num: int, str: array<char>, off: nat, base: nat) returns (i: nat)
    requires -0x8000_0000_0000_0000 < num < 0x8000_0000_0000_0000
    requires Base(base) && off + |SignedText(num, base)| < str.Length
    modifies str
    ensures i == |SignedText(num, base)|
    ensures str[..] == Splice(old(str[..]), off, SignedText(num, base) + ['\0'])
  {
    i := PutSigned(num, str, off, base);
  }

  /** The digits and the padding of __ultoa and __ultoua. */
  method PutUnsigned(num: nat, str: array<char>, off: nat, base: nat, upper: bool) returns (i: nat)
    requires Base(base) && off + |UnsignedRaw(num, base, upper)| <= str.Length
    modifies str
    ensures i == |UnsignedRaw(num, base, upper)| > 0
    ensures str[..] == Splice(old(str[..]), off, UnsignedRaw(num, base, upper))
  {
    ghost var ds := if num == 0 then "0" else Digits(num, base, upper);
    NotEmpty(num, base, upper);
    if num == 0 {
      str[off] := '0';
      i := 1;
    } else {
      i := PutDigits(num, str, off, base, upper);
    }
    assert str[..] == Splice(old(str[..]), off, ds);
    if base == 16 {
      ghost var raw := UnsignedRaw(num, base, upper);
      SpliceTwice(old(str[..]), off, ds, raw[|ds|..]);
      assert raw[|ds|..] == Zeros(if i < 16 then 16 - i else 0) && ds + raw[|ds|..] == raw;
      i := Pad(str, off, i);
    }
  }

  lemma SpliceTwice(a: seq<char>, off: nat, t: seq<char>, u: seq<char>)
    requires off + |t| + |u| <= |a|
    ensures Splice(Splice(a, off, t), off + |t|, u) == Splice(a, off, t + u)
  {
  }

  /** Zeros up to 16 characters. */
  method Pad(str: array<char>, off: nat, i: nat) returns (j: nat)
    requires off + i <= str.Length && off + 16 <= str.Length
    modifies str
    ensures j == if i < 16 then 16 else i
    ensures str[..] == Splice(old(str[..]), off + i, Zeros(j - i))
  {
    hide Splice, Zeros;
    j := i;
    SpliceNothing(str[..], off + i);
    while j < 16
      invariant i <= j && (j <= 16 || j == i)
      invariant str[..] == Splice(old(str[..]), off + i, Zeros(j - i))
    {
      SpliceAppend(old(str[..]), off + i, Zeros(j - i), '0');
      OneMoreZero(j - i);
      str[off + j] := '0';
      j := j + 1;
    }
  }

  lemma SpliceNothing(a: seq<char>, off: nat)
    requires off <= |a|
    ensures Splice(a, off, Zeros(0)) == a
  {
  }

  lemma OneMoreZero(n: nat)
    ensures Zeros(n) + ['0'] == Zeros(n + 1)
  {
  }

  /** __ultoa (upper false) and __ultoua (upper true). */
  method Ultoa(num: u64, str: array<char>, off: nat, base: nat, upper: bool) returns (i: nat)
    requires Base(base) && off + |UnsignedText(num, base, upper)| < str.Length
    modifies str
    ensures i == |UnsignedText(num, base, upper)|
    ensures str[..] == Splice(old(str[..]), off, UnsignedText(num, base, upper) + ['\0'])
  {
    i := PutUnsigned(num, str, off, base, upper);
    SpliceAppend(old(str[..]), off, UnsignedRaw(num, base, upper), '\0');
    str[off + i] := '\0';
    SpliceReversed(old(str[..]), off, UnsignedRaw(num, base, upper), '\0');
    Reverse(str, off, i);
  }

  lemma NotEmpty(num: nat, base: nat, upper: bool)
    requires Base(base)
    ensures num > 0 ==> |Digits(num, base, upper)| > 0
  {
  }
}
