/** boot/kernel/print.c, lines 84 to 145: powers, decimal and hexadecimal digits. */
module Print {
  import opened Machine
  import opened Registers

  function Power(a: nat, b: nat): nat { if b == 0 then 1 else a * Power(a, b - 1) }

  lemma {:induction false} PowerPositive(a: nat, b: nat)
    requires 0 < a
    ensures 0 < Power(a, b)
  {
    if b > 0 {
      PowerPositive(a, b - 1);
      MulMono(1, Power(a, b - 1), a);
    }
  }

  lemma {:induction false} PowerAdd(a: nat, b: nat, c: nat)
    ensures Power(a, b + c) == Power(a, b) * Power(a, c)
  {
    if b > 0 {
      PowerAdd(a, b - 1, c);
      MulAssoc(a, Power(a, b - 1), Power(a, c));
    }
  }

  lemma MulMod(x: nat, a: nat)
    ensures (x % WORD) * a % WORD == x * a % WORD
  {
    var q, r := x / WORD, x % WORD;
    var q', r' := r * a / WORD, r * a % WORD;
    assert x * a == (q * a + q') * WORD + r' by {
      assert (q * WORD + r) * a == q * a * WORD + r * a;
    }
    DivModUnique(x * a, WORD, q * a + q', r');
  }

  /** pow: the power of the unsigned 64-bit integers. */
  method Pow(a: u64, b: u64) returns (r: u64)
    ensures r == Power(a, b) % WORD
  {
    if b == 0 {
      return 1;
    }
    var temp, c := a, b;
    assert Power(a, 1) == a * Power(a, 0);
    while c - 1 > 0
      invariant 1 <= c <= b && temp == Power(a, b - c + 1) % WORD
    {
      MulMod(Power(a, b - c + 1), a);
      assert Power(a, b - c + 2) == a * Power(a, b - c + 1);
      temp := temp * a % WORD;
      c := c - 1;
    }
    return temp;
  }

  // ----- decimal -----

  const E19: nat := 10_000_000_000_000_000_000

  lemma TenSmall(e: nat)
    requires e <= 19
    ensures 0 < Power(10, e) <= E19 && (e == 19 ==> Power(10, e) == E19)
    ensures e < 19 ==> Power(10, e + 1) == 10 * Power(10, e) && Power(10, 18 - e) * Power(10, e + 1) == E19
  {
    Tens();
    PowerPositive(10, e);
    if e < 19 {
      PowerAdd(10, 18 - e, e + 1);
      PowerPositive(10, 18 - e);
      PowerPositive(10, e + 1);
      MulMono(1, Power(10, 18 - e), Power(10, e + 1));
    }
  }

  lemma Tens()
    ensures Power(10, 19) == E19
  {
    assert Power(10, 4) == 10_000;
    PowerAdd(10, 4, 4);
    PowerAdd(10, 8, 8);
    assert Power(10, 3) == 1_000;
    PowerAdd(10, 16, 3);
  }

  predicate IsDigit(c: char) { '0' <= c <= '9' }

  // The number a string of digits stands for.
  function Decimal(s: seq<char>): int {
    if s == [] then 0 else 10 * Decimal(s[..|s| - 1]) + (s[|s| - 1] as int - 48)
  }

  lemma DecimalSnoc(s: seq<char>, c: char)
    ensures Decimal(s + [c]) == 10 * Decimal(s) + (c as int - 48)
  {
    assert (s + [c])[..|s|] == s;
  }

  // One more digit of x: the quotient by j from the quotient by 10 * j.
  lemma DigitStep(x: nat, j: nat)
    requires 0 < j
    ensures x / j == 10 * (x / (10 * j)) + x % (10 * j) / j && x % (10 * j) / j < 10
  {
    var q, r := x / (10 * j), x % (10 * j);
    var d, e := r / j, r % j;
    assert r == d * j + e;
    assert x == (10 * q + d) * j + e by {
      assert x == q * (10 * j) + r;
      assert q * (10 * j) == 10 * q * j;
    }
    DivModUnique(x, j, 10 * q + d, e);
    if d >= 10 { MulMono(10, d, j); }
  }

  // num modulo 10^19 without its last e digits.
  function Quotient(num: u64, e: nat): nat
    requires e <= 20
  {
    PowerPositive(10, e);
    num % E19 / Power(10, e)
  }

  // Digit number e of num modulo 10^19.
  function Digit(num: u64, e: nat): int
    requires e <= 19
  {
    Quotient(num, e) - 10 * Quotient(num, e + 1)
  }

  // c is what the code computes for digit number e.
  predicate CodeYields(num: u64, p: nat, c: int)
    requires 0 < p
  {
    0 < p * 10 % WORD && num % (p * 10 % WORD) / p == c && 0 <= c < 10
  }

  // What the code computes below 10^19, where nothing wraps; q is 10 * p.
  lemma SmallCodeDigit(num: u64, p: nat, q: nat, x: nat)
    requires 0 < p && q == 10 * p && q < WORD && x % q == num % q
    ensures CodeYields(num, p, x / p - 10 * (x / q))
  {
    NoWrap(p, q);
    DigitBetween(x, p, q);
  }

  lemma NoWrap(p: nat, q: nat)
    requires q == 10 * p && q < WORD
    ensures p * 10 % WORD == q
  {
    SmallMod(q, WORD);
  }

  lemma DigitBetween(x: nat, p: nat, q: nat)
    requires 0 < p && q == 10 * p
    ensures x % q / p == x / p - 10 * (x / q) && 0 <= x % q / p < 10
  {
    DigitStep(x, p);
  }

  lemma ReducedTwice(num: u64, q: nat, c: nat)
    requires 0 < c && 0 < q && c * q == E19
    ensures q <= E19 && num % E19 % q == num % q
  {
    MulMono(1, c, q);
    ModMod(num, c, q);
  }

  // At 10^19 the product j * 10 wraps to a number below 10^19, and the digit is lost.
  lemma BigCodeDigit(num: u64)
    ensures E19 * 10 % WORD == 7_766_279_631_452_241_920 && num % 7_766_279_631_452_241_920 / E19 == 0
    ensures num % E19 / E19 == 0 && num % E19 / (10 * E19) == 0
  {
  }

  /** The smallest number that suffers: of 10^19, whose first digit is 1, the code writes 0. */
  lemma LeadingDigitLost()
    ensures CodeYields(E19, E19, 0) && E19 / E19 == 1
  {
    BigCodeDigit(E19);
  }

  lemma CodeDigit(num: u64, e: nat)
    requires e <= 19
    ensures 0 < Power(10, e) < WORD && CodeYields(num, Power(10, e), Digit(num, e))
  {
    TenSmall(e);
    if e < 19 {
      CodeDigitBelow(num, e);
    } else {
      assert Power(10, 20) == 10 * Power(10, 19);
      BigCodeDigit(num);
    }
  }

  lemma CodeDigitBelow(num: u64, e: nat)
    requires e < 19
    ensures 0 < Power(10, e) && CodeYields(num, Power(10, e), Digit(num, e))
  {
    TenSmall(e);
    PowerPositive(10, 18 - e);
    PowerPositive(10, e + 1);
    ReducedTwice(num, Power(10, e + 1), Power(10, 18 - e));
    SmallCodeDigit(num, Power(10, e), Power(10, e + 1), num % E19);
  }

  // The first digit written: the leading one of num, or 0 when num has twenty digits.
  lemma FirstDigit(num: u64, k: nat)
    requires k <= 19
    requires if k == 0 then E19 <= num else num < E19 && Power(10, 19 - k) <= num < Power(10, 20 - k)
    ensures Quotient(num, 20 - k) == 0
    ensures Digit(num, 19 - k) == 0 <==> E19 <= num
  {
    if k == 0 {
      TenSmall(19);
      assert Power(10, 20) == 10 * Power(10, 19);
      BigCodeDigit(num);
    } else {
      LeadingDigit(num, Power(10, 19 - k), Power(10, 20 - k));
    }
  }

  lemma LeadingDigit(num: u64, p: nat, q: nat)
    requires num < E19 && 0 < p <= num < q
    ensures num % E19 / q == 0 && num % E19 / p > 0
  {
    SmallQuotient(num, q);
    QuotientPositive(num, p);
  }

  lemma QuotientPositive(x: nat, d: nat)
    requires 0 < d <= x
    ensures 0 < x / d
  {
    assert x == x / d * d + x % d;
  }

  /** itoa. Every 64-bit number yields the digits of num modulo 10^19, behind them NULs only; the
      first digit is 0 only for num = 0 and for the numbers from 10^19 on, whose first digit is lost
      because 10^20 wraps. */
  method Itoa(temp: array<char>, num: u64) returns (ghost d: nat)
    requires temp.Length == 21
    modifies temp
    ensures 1 <= d <= 20
    ensures (forall i :: 0 <= i < d ==> IsDigit(temp[i])) && (forall i :: d <= i < 21 ==> temp[i] == '\0')
    ensures Decimal(temp[..d]) == num % E19 && (Decimal(temp[..d]) == num <==> num < E19)
    ensures temp[0] == '0' <==> num == 0 || E19 <= num
  {
    var k := 0;
    for i := 0 to 21
      invariant forall j :: 0 <= j < i ==> temp[j] == '\0'
    {
      temp[i] := '\0';
    }
    var p19 := Pow(10, 19);
    Tens();
    assert p19 == E19;
    if num >= p19 {
      temp[0] := (num / p19 + 48) as char;
    } else {
      k := k + 1;
    }
    var c := CountDigits(num);
    k := k + c;
    if k == 20 {
      temp[0] := '0';
      d := 1;
      assert Decimal(temp[..1]) == 0 by { assert temp[..1] == [] + ['0']; DecimalSnoc([], '0'); }
      return;
    }
    d := 20 - k;
    FirstOfCounted(num, c, k);
    WriteDigits(temp, num, k);
    assert temp[..][..d] == temp[..d];
  }

  // c powers of ten from 10^18 down exceed num.
  predicate Counted(num: u64, c: nat) {
    && (num >= E19 ==> c == 0) && (num == 0 ==> c == 19)
    && (0 < num < E19 ==> c <= 18 && Power(10, 18 - c) <= num < Power(10, 19 - c))
  }

  // Of 20 - k digits, the first is written as it should be.
  lemma FirstOfCounted(num: u64, c: nat, k: nat)
    requires Counted(num, c) && num != 0 && k == c + if num >= E19 then 0 else 1
    ensures k <= 19 && Quotient(num, 20 - k) == 0 && (Digit(num, 19 - k) == 0 <==> E19 <= num)
  {
    FirstDigit(num, k);
  }

  // The loop that compares num with falling powers of ten.
  method CountDigits(num: u64) returns (c: nat)
    ensures Counted(num, c)
  {
    c := 0;
    var i := Pow(10, 18);
    TenSmall(18);
    Tens();
    while num < i
      invariant c <= 19 && (c <= 18 ==> i == Power(10, 18 - c)) && (c == 19 ==> i == 0)
      invariant num < E19 ==> num < Power(10, 19 - c)
      invariant num >= E19 ==> c == 0
      decreases 20 - c
    {
      if c < 18 {
        assert Power(10, 18 - c) == 10 * Power(10, 17 - c);
      } else {
        assert Power(10, 0) == 1;
      }
      i := i / 10;
      c := c + 1;
    }
  }

  // The loop that fills in the digits.
  method WriteDigits(temp: array<char>, num: u64, k: nat)
    requires temp.Length == 21 && k <= 19 && (forall j :: 1 <= j < 21 ==> temp[j] == '\0')
    requires Quotient(num, 20 - k) == 0 && (Digit(num, 19 - k) == 0 <==> E19 <= num)
    modifies temp
    ensures Shown(temp[..], 20 - k, 20 - k, num % E19, E19 <= num)
  {
    assert temp[..][..0] == [];
    for i := 0 to 20 - k
      invariant Shown(temp[..], 20 - k, i, Quotient(num, 20 - k - i), E19 <= num)
    {
      var c := DigitChar(num, 19 - i - k);
      ghost var before := temp[..];
      temp[i] := c;
      assert temp[..] == before[i := c];
      ShownStep(before, 20 - k, i, Quotient(num, 20 - k - i), E19 <= num, c);
    }
    NoDigitsLeft(num);
  }

  lemma NoDigitsLeft(num: u64)
    ensures Quotient(num, 0) == num % E19
  {
  }

  // The buffer after i of m digits were written: they stand for v, and the first is 0 or not.
  predicate Shown(t: seq<char>, m: nat, i: nat, v: int, zero: bool) {
    && |t| == 21 && i <= m <= 20
    && (forall j :: 0 <= j < i ==> IsDigit(t[j]))
    && (forall j :: (if i == 0 then 1 else i) <= j < 21 ==> t[j] == '\0')
    && Decimal(t[..i]) == v
    && (i > 0 ==> (t[0] == '0' <==> zero))
  }

  lemma ShownStep(t: seq<char>, m: nat, i: nat, v: int, zero: bool, c: char)
    requires Shown(t, m, i, v, zero) && i < m && IsDigit(c) && (i == 0 ==> (c == '0' <==> zero))
    ensures Shown(t[i := c], m, i + 1, 10 * v + (c as int - 48), zero)
  {
    assert t[i := c][..i + 1] == t[..i] + [c];
    DecimalSnoc(t[..i], c);
  }

  // The body of that loop for digit number e.
  method DigitChar(num: u64, e: nat) returns (c: char)
    requires e <= 19
    ensures IsDigit(c) && c as int - 48 == Digit(num, e)
  {
    CodeDigit(num, e);
    SmallMod(Power(10, e), WORD);
    var j := Pow(10, e);
    assert CodeYields(num, j, Digit(num, e));
    var x := num % (j * 10 % WORD) / j;
    c := (x + 48) as char;
  }

  // ----- hexadecimal -----

  const DIGITS: seq<char> := "0123456789ABCDEF"

  // The four lowest bits set.
  function LowFour(): Word64 { seq(64, i requires 0 <= i < 64 => i < 4) }

  // The four bits at 4 * i, moved down to bit 0.
  function Nibble(num: Word64, i: nat): Word64 { Shr(And(num, Shl(LowFour(), i * 4)), i * 4) }

  // Bits 4 * i to 4 * i + 3, and nothing else.
  lemma NibbleBits(num: Word64, i: nat)
    requires i < 16
    ensures Fits(Nibble(num, i), 4) && Nibble(num, i)[..4] == num[i * 4..i * 4 + 4]
  {
  }

  lemma {:induction false} ValueOfFitting(w: Word, k: nat)
    requires k <= |w| && Fits(w, k)
    ensures Value(w) == Value(w[..k])
  {
    if w != [] {
      assert forall j :: 0 <= j < |w| - 1 ==> w[1..][j] == w[j + 1];
      if k == 0 {
        ValueOfFitting(w[1..], 0);
        assert !w[0];
      } else {
        ValueOfFitting(w[1..], k - 1);
        assert w[..k][1..] == w[1..][..k - 1];
      }
    }
  }

  lemma {:induction false} ValueAppend(x: Word, y: Word)
    ensures Value(x + y) == Value(x) + Registers.Pow2(|x|) * Value(y)
  {
    if x == [] {
      assert x + y == y;
    } else {
      ValueAppend(x[1..], y);
      assert (x + y)[1..] == x[1..] + y;
      MulAssoc(2, Registers.Pow2(|x| - 1), Value(y));
    }
  }

  lemma NibbleValue(num: Word64, i: nat)
    requires i < 16
    ensures Value(Nibble(num, i)) == Value(num[i * 4..i * 4 + 4]) < 16
  {
    NibbleBits(num, i);
    ValueOfFitting(Nibble(num, i), 4);
    FitsIsBelow(Nibble(num, i), 4);
    assert Registers.Pow2(2) == 4;
    assert Registers.Pow2(3) == 8;
    assert Registers.Pow2(4) == 16;
  }

  predicate IsHexDigit(c: char) { '0' <= c <= '9' || 'A' <= c <= 'F' }

  function HexValue(c: char): nat {
    if '0' <= c <= '9' then c as nat - 48 else if 'A' <= c <= 'F' then c as nat - 55 else 0
  }

  // The number a string of hexadecimal digits stands for.
  function Hexadecimal(s: seq<char>): nat {
    if s == [] then 0 else Hexadecimal(s[1..]) + Registers.Pow2(4 * (|s| - 1)) * HexValue(s[0])
  }

  // One nibble more, on the left.
  lemma HexStep(num: Word64, i: nat, s: seq<char>, c: char)
    requires i < 16 && |s| == i && Hexadecimal(s) == Value(num[..4 * i]) && HexValue(c) == Value(Nibble(num, i))
    ensures Hexadecimal([c] + s) == Value(num[..4 * (i + 1)])
  {
    NibbleValue(num, i);
    ValueAppend(num[..4 * i], num[i * 4..i * 4 + 4]);
    assert num[..4 * (i + 1)] == num[..4 * i] + num[i * 4..i * 4 + 4];
    assert ([c] + s)[1..] == s;
  }

  // hex[byte]
  lemma DigitOf(b: nat)
    requires b < 16
    ensures IsHexDigit(DIGITS[b]) && HexValue(DIGITS[b]) == b
  {
  }

  // The loops of hex and hexbyte: all characters cleared, then filled from the last to the first.
  method FillNibbles(temp: array<char>, num: Word64, n: nat)
    requires n <= 16 && temp.Length == n + 1
    modifies temp
    ensures (forall i :: 0 <= i < n ==> IsHexDigit(temp[i])) && temp[n] == '\0'
    ensures Hexadecimal(temp[..n]) == Value(num[..4 * n])
  {
    for i := 0 to n + 1
      invariant forall j :: 0 <= j < i ==> temp[j] == '\0'
    {
      temp[i] := '\0';
    }
    for i := 0 to n
      invariant Filled(temp[..], num, n, i)
    {
      var byte := Value(Nibble(num, i));
      NibbleValue(num, i);
      ghost var before := temp[..];
      temp[n - 1 - i] := DIGITS[byte];
      assert temp[..] == before[n - 1 - i := DIGITS[byte]];
      FilledStep(before, num, n, i, byte);
    }
    assert temp[..][0..n] == temp[..n];
  }

  // The buffer after the i lowest of n digits were written.
  predicate Filled(t: seq<char>, num: Word64, n: nat, i: nat)
    requires i <= n <= 16
  {
    && |t| == n + 1 && t[n] == '\0' && (forall j :: n - i <= j < n ==> IsHexDigit(t[j]))
    && Hexadecimal(t[n - i..n]) == Value(num[..4 * i])
  }

  lemma FilledStep(t: seq<char>, num: Word64, n: nat, i: nat, byte: nat)
    requires i < n <= 16 && Filled(t, num, n, i) && byte == Value(Nibble(num, i)) && byte < 16
    ensures Filled(t[n - 1 - i := DIGITS[byte]], num, n, i + 1)
  {
    DigitOf(byte);
    HexStep(num, i, t[n - i..n], DIGITS[byte]);
    assert t[n - 1 - i := DIGITS[byte]][n - 1 - i..n] == [DIGITS[byte]] + t[n - i..n];
  }

  /** hex: sixteen digits that stand for the number. */
  method Hex(temp: array<char>, num: Word64)
    requires temp.Length == 17
    modifies temp
    ensures (forall i :: 0 <= i < 16 ==> IsHexDigit(temp[i])) && temp[16] == '\0'
    ensures Hexadecimal(temp[..16]) == Value(num)
  {
    FillNibbles(temp, num, 16);
    assert num[..64] == num;
  }

  /** hexbyte: two digits that stand for the byte, here widened to 64 bits as C does. */
  method HexByte(temp: array<char>, num: Word64)
    requires temp.Length == 3 && Fits(num, 8)
    modifies temp
    ensures (forall i :: 0 <= i < 2 ==> IsHexDigit(temp[i])) && temp[2] == '\0'
    ensures Hexadecimal(temp[..2]) == Value(num)
  {
    FillNibbles(temp, num, 2);
    ValueOfFitting(num, 8);
  }

  /** Different numbers have different digits. */
  lemma {:induction false} ValueInjective(x: Word, y: Word)
    requires |x| == |y| && Value(x) == Value(y)
    ensures x == y
  {
    if x != [] {
      assert Value(x) % 2 == 1 <==> x[0];
      ValueInjective(x[1..], y[1..]);
      assert x == [x[0]] + x[1..] && y == [y[0]] + y[1..];
    }
  }
}
