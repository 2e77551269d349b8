/** Byte- and digit-level helpers: ASCII digits, decimal rendering and parsing, zero padding,
    and Go's conversion of a single byte to a string. A Go string is a sequence of bytes; it is
    modelled as a Dafny `string` whose characters are all below 0x100. */
module Text {

  predicate IsDigit(c: char) { '0' <= c <= '9' }

  predicate AllDigits(s: string) {
    forall j :: 0 <= j < |s| ==> IsDigit(s[j])
  }

  function DigitValue(c: char): nat
    requires IsDigit(c)
  {
    c as int - '0' as int
  }

  function DigitChar(d: nat): (c: char)
    requires d < 10
    ensures IsDigit(c) && DigitValue(c) == d
  {
    (d + '0' as int) as char
  }

  /** The characters `s[lo..hi]` are all digits. */
  predicate DigitsIn(s: string, lo: nat, hi: nat)
    requires lo <= hi <= |s|
  {
    forall j :: lo <= j < hi ==> IsDigit(s[j])
  }

  /** Decimal value of the digits `s[lo..hi]`, read in place, most significant first. */
  function Value(s: string, lo: nat, hi: nat): nat
    requires lo <= hi <= |s| && DigitsIn(s, lo, hi)
    decreases hi
  {
    if hi == lo then 0 else 10 * Value(s, lo, hi - 1) + DigitValue(s[hi - 1])
  }

  /** Reading more digits never makes the value smaller. */
  lemma {:induction false} ValueMonotone(s: string, lo: nat, j: nat, k: nat)
    requires lo <= j <= k <= |s| && DigitsIn(s, lo, k)
    ensures Value(s, lo, j) <= Value(s, lo, k)
    decreases k - j
  {
    if j < k {
      ValueMonotone(s, lo, j, k - 1);
    }
  }

  /** Value of a string of decimal digits, most significant digit first (leading zeros allowed). */
  function DecimalValue(d: string): nat
    requires AllDigits(d)
  {
    if |d| == 0 then 0 else 10 * DecimalValue(d[..|d| - 1]) + DigitValue(d[|d| - 1])
  }

  /** In-place reading agrees with reading the slice. */
  lemma {:induction false} ValueIsDecimalValue(s: string, lo: nat, hi: nat)
    requires lo <= hi <= |s| && DigitsIn(s, lo, hi)
    ensures AllDigits(s[lo..hi]) && Value(s, lo, hi) == DecimalValue(s[lo..hi])
    decreases hi - lo
  {
    if lo < hi {
      ValueIsDecimalValue(s, lo, hi - 1);
      assert s[lo..hi][..hi - lo - 1] == s[lo..hi - 1];
    }
  }

  /** Canonical decimal rendering of `n`, as Go's `strconv` / `%d` writes it. */
  function Decimal(n: nat): (r: string)
    ensures |r| > 0 && AllDigits(r)
    ensures DecimalValue(r) == n
    ensures r[0] == '0' ==> n == 0
    decreases n
  {
    if n < 10 then [DigitChar(n)]
    else
      var r := Decimal(n / 10) + [DigitChar(n % 10)];
      assert r[..|r| - 1] == Decimal(n / 10);
      r
  }

  lemma DecimalInjective(m: nat, n: nat)
    requires Decimal(m) == Decimal(n)
    ensures m == n
  {
  }

  function Zeros(k: nat): (r: string)
    ensures |r| == k && AllDigits(r)
  {
    seq(k, _ => '0')
  }

  /** `%0<width>d` of a non-negative number: pad the digits on the left with zeros up to
      `width`; a longer number is written in full. */
  function ZeroPad(d: string, width: nat): (r: string)
    ensures |r| == if |d| < width then width else |d|
    ensures r[|r| - |d|..] == d
    ensures forall j :: 0 <= j < |r| - |d| ==> r[j] == '0'
  {
    (if |d| < width then Zeros(width - |d|) else "") + d
  }

  lemma {:induction false} ZerosValue(k: nat)
    ensures DecimalValue(Zeros(k)) == 0
  {
    if k > 0 {
      assert Zeros(k)[..k - 1] == Zeros(k - 1);
      ZerosValue(k - 1);
    }
  }

  /** Leading zeros do not change a decimal value. */
  lemma {:induction false} LeadingZerosValue(k: nat, d: string)
    requires AllDigits(d)
    ensures AllDigits(Zeros(k) + d)
    ensures DecimalValue(Zeros(k) + d) == DecimalValue(d)
    decreases |d|
  {
    var z := Zeros(k) + d;
    if |d| == 0 {
      assert z == Zeros(k);
      ZerosValue(k);
    } else {
      assert z[..|z| - 1] == Zeros(k) + d[..|d| - 1];
      LeadingZerosValue(k, d[..|d| - 1]);
    }
  }

  /** Zero padding is undone by reading the digits back, so padded renderings of distinct
      numbers are distinct. */
  lemma PaddedDecimalValue(n: nat, width: nat)
    ensures AllDigits(ZeroPad(Decimal(n), width))
    ensures DecimalValue(ZeroPad(Decimal(n), width)) == n
  {
    var d := Decimal(n);
    var k := if |d| < width then width - |d| else 0;
    assert ZeroPad(d, width) == Zeros(k) + d;
    LeadingZerosValue(k, d);
  }

  predicate IsByteString(s: string) {
    forall j :: 0 <= j < |s| ==> s[j] as int < 0x100
  }

  predicate IsAscii(s: string) {
    forall j :: 0 <= j < |s| ==> s[j] as int < 0x80
  }

  /** Go's `string(b)` for a byte `b`: the byte is taken as the code point U+00bb and encoded
      in UTF-8, so a byte from 0x80 up becomes two bytes. */
  function ByteToString(b: char): (r: string)
    requires b as int < 0x100
    ensures b as int < 0x80 ==> r == [b]
    ensures 0x80 <= b as int ==> |r| == 2 && 0xC0 <= r[0] as int < 0xE0 && 0x80 <= r[1] as int < 0xC0
    ensures 0x80 <= b as int ==> (r[0] as int - 0xC0) * 64 + (r[1] as int - 0x80) == b as int
  {
    if b as int < 0x80 then [b]
    else [(0xC0 + b as int / 64) as char, (0x80 + b as int % 64) as char]
  }

  /** Every byte of `s` passed through `ByteToString`, in order. */
  function Transcode(s: string): string
    requires IsByteString(s)
  {
    if |s| == 0 then "" else ByteToString(s[0]) + Transcode(s[1..])
  }

  /** On ASCII text the byte-by-byte conversion is the identity. */
  lemma {:induction false} TranscodeAscii(s: string)
    requires IsAscii(s)
    ensures Transcode(s) == s
  {
    if |s| > 0 {
      TranscodeAscii(s[1..]);
      assert [s[0]] + s[1..] == s;
    }
  }

  /** A byte at 0x80 or above makes the conversion longer than its input. */
  lemma {:induction false} TranscodeGrows(s: string, j: nat)
    requires IsByteString(s) && j < |s| && 0x80 <= s[j] as int
    ensures |Transcode(s)| > |s|
  {
    TranscodeLength(s[1..]);
    if 0 < j {
      TranscodeGrows(s[1..], j - 1);
    }
  }

  lemma {:induction false} TranscodeLength(s: string)
    requires IsByteString(s)
    ensures |Transcode(s)| >= |s|
  {
    if |s| > 0 {
      TranscodeLength(s[1..]);
    }
  }

  /** The conversion of a byte followed by more text: the byte's encoding, then the rest's. */
  lemma TranscodeCons(c: char, t: string)
    requires c as int < 0x100 && IsByteString(t)
    ensures IsByteString([c] + t) && Transcode([c] + t) == ByteToString(c) + Transcode(t)
  {
    assert ([c] + t)[1..] == t;
  }
}
