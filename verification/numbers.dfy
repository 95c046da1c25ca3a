/** Decimal conversion as Go's strconv.Itoa and strconv.Atoi perform it, and
    the int32 truncation of Go's integer conversions. */
module Numbers {
  import opened Seqs

  const TWO_32: int := 0x1_0000_0000
  const TWO_31: int := 0x8000_0000
  const TWO_63: int := 0x8000_0000_0000_0000

  /** A byte of a file or of an encoded stream. */
  type Byte = b: int | 0 <= b < 256

  /** A value of Go's `int32`. */
  type I32 = x: int | -TWO_31 <= x < TWO_31

  /** A value of Go's `uint32`. */
  type U32 = x: int | 0 <= x < TWO_32

  /** Go's `int32(x)`: keep the low 32 bits, read them as two's complement. */
  function Int32(x: int): (r: int)
    ensures -TWO_31 <= r < TWO_31
    ensures (r - x) % TWO_32 == 0
    ensures -TWO_31 <= x < TWO_31 ==> r == x
  {
    (x + TWO_31) % TWO_32 - TWO_31
  }

  /** Go's `int64` arithmetic: keep the low 64 bits, read them as two's
      complement. */
  function Int64(x: int): (r: int)
    ensures -TWO_63 <= r < TWO_63
    ensures (r - x) % (2 * TWO_63) == 0
  {
    (x + TWO_63) % (2 * TWO_63) - TWO_63
  }

  /** Wrapping at 64 bits before truncating to 32 changes nothing. */
  lemma Int32OfInt64(x: int)
    ensures Int32(Int64(x)) == Int32(x)
  {
    var k := (Int64(x) - x) / (2 * TWO_63);
    assert Int64(x) == x + k * (2 * TWO_63);
    assert 2 * TWO_63 == TWO_32 * TWO_32;
    assert Int64(x) == x + (k * TWO_32) * TWO_32;
    assert (Int32(Int64(x)) - Int32(x)) % TWO_32 == 0;
  }

  /** Go's `uint32(x)`: keep the low 32 bits. */
  function Uint32(x: int): (r: nat)
    ensures r < TWO_32
    ensures (r - x) % TWO_32 == 0
    ensures 0 <= x < TWO_32 ==> r == x
  {
    x % TWO_32
  }

  function DigitChar(d: nat): char
    requires d < 10
  {
    ('0' as int + d) as char
  }

  function DigitValue(c: char): nat
    requires IsDigit(c)
  {
    c as int - '0' as int
  }

  /** The decimal digits of `n`, most significant first, no leading zero. */
  function Digits(n: nat): (s: string)
    ensures |s| >= 1 && forall i :: 0 <= i < |s| ==> IsDigit(s[i])
    ensures |s| > 1 ==> s[0] != '0'
  {
    if n < 10 then [DigitChar(n)] else Digits(n / 10) + [DigitChar(n % 10)]
  }

  predicate AllDigits(s: string) {
    forall i :: 0 <= i < |s| ==> IsDigit(s[i])
  }

  function DigitsValue(s: string): nat
    requires AllDigits(s)
  {
    if s == [] then 0 else DigitsValue(s[..|s| - 1]) * 10 + DigitValue(s[|s| - 1])
  }

  /** strconv.Itoa. */
  function Itoa(n: int): (s: string)
    ensures |s| >= 1
    ensures n >= 0 <==> s[0] != '-'
  {
    if n < 0 then "-" + Digits(-n) else Digits(n)
  }

  /** The largest `uint64`, which strconv.ParseUint returns with ErrRange. */
  const MAX_UINT64: nat := 0xFFFF_FFFF_FFFF_FFFF

  /** What strconv.ParseUint(s, 10, 64) reads. */
  datatype UintRead = UintValue(n: nat) | UintSyntax | UintRange

  /** ParseUint's digit loop from position `i`, with `n` read so far: a
      non-digit is a syntax error; a digit that takes the value past the
      largest `uint64` is a range error at once, whatever follows. */
  function ScanUint(s: string, n: nat, i: nat): UintRead
    requires i <= |s|
    decreases |s| - i
  {
    if i == |s| then UintValue(n)
    else if !IsDigit(s[i]) then UintSyntax
    else
      var n1 := n * 10 + DigitValue(s[i]);
      if n1 > MAX_UINT64 then UintRange else ScanUint(s, n1, i + 1)
  }

  /** strconv.ParseUint(s, 10, 64): the empty text is a syntax error. */
  function ParseUint(s: string): UintRead {
    if s == [] then UintSyntax else ScanUint(s, 0, 0)
  }

  /** What strconv.ParseInt(s, 10, 64) reads before it clamps to `int64`:
      an optional sign, then ParseUint's reading of the rest; a syntax error
      gives 0 and a range error the largest `uint64` with the sign. */
  function Parsed(s: string): int {
    if s == [] then 0
    else
      var neg := s[0] == '-';
      var body := if s[0] == '+' || s[0] == '-' then s[1..] else s;
      var magnitude: int := match ParseUint(body)
        case UintSyntax => 0
        case UintRange => MAX_UINT64
        case UintValue(n) => n;
      if neg then -magnitude else magnitude
  }

  /** strconv.Atoi on a 64-bit `int`: a value out of range comes back
      clamped to the nearest bound (together with ErrRange, which the
      indexer ignores). */
  function Atoi(s: string): int {
    var v := Parsed(s);
    if v >= TWO_63 then TWO_63 - 1 else if v < -TWO_63 then -TWO_63 else v
  }

  /** Atoi's result is a 64-bit `int`: the value read when it fits, and
      otherwise the bound it passed. */
  lemma AtoiClamps(s: string)
    ensures -TWO_63 <= Atoi(s) < TWO_63
    ensures -TWO_63 <= Parsed(s) < TWO_63 ==> Atoi(s) == Parsed(s)
    ensures Parsed(s) >= TWO_63 ==> Atoi(s) == TWO_63 - 1
    ensures Parsed(s) < -TWO_63 ==> Atoi(s) == -TWO_63
  {
  }

  lemma {:induction false} DigitsValueMono(s: string, k: nat)
    requires AllDigits(s) && k <= |s|
    ensures DigitsValue(s[..k]) <= DigitsValue(s)
    decreases |s|
  {
    if k < |s| {
      assert s[..|s| - 1][..k] == s[..k];
      DigitsValueMono(s[..|s| - 1], k);
    } else {
      assert s[..k] == s;
    }
  }

  lemma DigitsValueStep(s: string, i: nat)
    requires i < |s| && AllDigits(s[..i + 1])
    ensures AllDigits(s[..i]) && DigitsValue(s[..i + 1]) == DigitsValue(s[..i]) * 10 + DigitValue(s[i])
  {
    assert s[..i + 1][..i] == s[..i];
  }

  /** The digit loop from `i`, having read the digits before it. */
  lemma {:induction false} ScanUintSpec(s: string, i: nat)
    requires i <= |s| && AllDigits(s[..i]) && DigitsValue(s[..i]) <= MAX_UINT64
    ensures ScanUint(s, DigitsValue(s[..i]), i) == UintRange <==>
      exists k :: i < k <= |s| && AllDigits(s[..k]) && DigitsValue(s[..k]) > MAX_UINT64
    ensures ScanUint(s, DigitsValue(s[..i]), i).UintValue? <==> AllDigits(s) && DigitsValue(s) <= MAX_UINT64
    ensures ScanUint(s, DigitsValue(s[..i]), i).UintValue? ==> ScanUint(s, DigitsValue(s[..i]), i).n == DigitsValue(s)
    decreases |s| - i
  {
    if i == |s| {
      assert s[..i] == s;
    } else if !IsDigit(s[i]) {
      forall k | i < k <= |s| ensures !AllDigits(s[..k]) {
        assert s[..k][i] == s[i];
      }
      assert !AllDigits(s) by {
        assert s[i] == s[i];
      }
    } else {
      assert s[..i + 1][i] == s[i];
      assert AllDigits(s[..i + 1]);
      DigitsValueStep(s, i);
      var n1 := DigitsValue(s[..i + 1]);
      if n1 > MAX_UINT64 {
        if AllDigits(s) {
          DigitsValueMono(s, i + 1);
        }
      } else {
        assert ScanUint(s, DigitsValue(s[..i]), i) == ScanUint(s, n1, i + 1);
        ScanUintSpec(s, i + 1);
        if ScanUint(s, n1, i + 1) == UintRange {
          var k :| i + 1 < k <= |s| && AllDigits(s[..k]) && DigitsValue(s[..k]) > MAX_UINT64;
          assert i < k;
        } else {
          forall k | i < k <= |s| && AllDigits(s[..k])
            ensures DigitsValue(s[..k]) <= MAX_UINT64
          {
            if k == i + 1 {
              assert DigitsValue(s[..k]) == n1;
            }
          }
        }
      }
    }
  }

  /** ParseUint reads a value exactly when the text is a non-empty run of
      digits whose value fits, and fails with ErrRange exactly when some
      leading run of digits already exceeds the largest `uint64`, whatever
      follows it. */
  lemma ParseUintSpec(s: string)
    ensures ParseUint(s) == UintRange <==>
      exists k :: 0 < k <= |s| && AllDigits(s[..k]) && DigitsValue(s[..k]) > MAX_UINT64
    ensures ParseUint(s).UintValue? <==> |s| > 0 && AllDigits(s) && DigitsValue(s) <= MAX_UINT64
    ensures ParseUint(s).UintValue? ==> ParseUint(s).n == DigitsValue(s)
  {
    if s != [] {
      assert s[..0] == [];
      ScanUintSpec(s, 0);
    }
  }

  function Pow10(k: nat): nat {
    if k == 0 then 1 else 10 * Pow10(k - 1)
  }

  /** A run of k nines is worth 10^k - 1. */
  lemma {:induction false} NinesValue(s: string)
    requires forall i :: 0 <= i < |s| ==> s[i] == '9'
    ensures AllDigits(s) && DigitsValue(s) == Pow10(|s|) - 1
  {
    if s != [] {
      NinesValue(s[..|s| - 1]);
    }
  }

  /** A leading run of digits that is already too large for `uint64` makes
      the whole text a range error, whatever follows it: Atoi gives the
      largest `int64`, never the 0 of a syntax error. */
  lemma AtoiRangeWins(p: string, t: string)
    requires |p| > 0 && AllDigits(p) && DigitsValue(p) > MAX_UINT64
    ensures Parsed(p + t) == MAX_UINT64
    ensures Atoi(p + t) == TWO_63 - 1
  {
    var s := p + t;
    assert s[..|p|] == p;
    assert s[0] == p[0];
    ParseUintSpec(s);
  }

  /** The concrete case: twenty nines and then a letter. */
  lemma AtoiOverflowThenJunk()
    ensures Parsed("99999999999999999999x") == MAX_UINT64
    ensures Atoi("99999999999999999999x") == TWO_63 - 1
  {
    var p := "99999999999999999999";
    NinesValue(p);
    assert Pow10(5) == 100000;
    assert Pow10(10) == 10000000000;
    assert Pow10(15) == 1000000000000000;
    assert Pow10(20) == 100000000000000000000;
    AtoiRangeWins(p, "x");
    assert p + "x" == "99999999999999999999x";
  }

  lemma {:induction false} DigitsRoundTrip(n: nat)
    ensures AllDigits(Digits(n)) && DigitsValue(Digits(n)) == n
  {
    var s := Digits(n);
    if n >= 10 {
      DigitsRoundTrip(n / 10);
      assert s[..|s| - 1] == Digits(n / 10);
    }
  }

  /** Atoi reads back what Itoa writes, for every value of a 64-bit `int`. */
  lemma AtoiItoa(n: int)
    requires -TWO_63 <= n < TWO_63
    ensures Atoi(Itoa(n)) == n
  {
    if n < 0 {
      DigitsRoundTrip(-n);
      assert Itoa(n)[1..] == Digits(-n);
      ParseUintSpec(Digits(-n));
    } else {
      DigitsRoundTrip(n);
      ParseUintSpec(Digits(n));
    }
  }

  /** Different numbers are written differently. */
  lemma ItoaInjective(m: int, n: int)
    requires Itoa(m) == Itoa(n)
    ensures m == n
  {
    if m < 0 {
      assert Itoa(m)[1..] == Digits(-m) && Itoa(n)[1..] == Digits(-n);
      DigitsRoundTrip(-m);
      DigitsRoundTrip(-n);
    } else {
      DigitsRoundTrip(m);
      DigitsRoundTrip(n);
    }
  }
}
