/**
 * Printing numbers (the print_num block of shared/doprnt.c) and reading them back (shared/strtoul.c,
 * shared/strtol.c). A long has 32 bits.
 */
module NumberText {
  import opened Arithmetic

  const MAXBUF: nat := 32

  // ---------------------------------------------------------------- digits

  /** digits[d] */
  function DigitChar(d: nat): (c: char)
    requires d < 16
  {
    if d < 10 then '0' + d as char else 'a' + (d - 10) as char
  }

  /** Value of a letter or decimal digit in either case, -1 for any other character. */
  function DigitValue(c: char): int {
    if '0' <= c <= '9' then c as int - '0' as int
    else if 'a' <= c <= 'z' then c as int - 'a' as int + 10
    else if 'A' <= c <= 'Z' then c as int - 'A' as int + 10
    else -1
  }

  predicate IsDigit(c: char, base: nat) {
    0 <= DigitValue(c) < base
  }

  predicate AllDigits(s: string, base: nat) {
    forall i :: 0 <= i < |s| ==> IsDigit(s[i], base)
  }

  lemma DigitCharValue(d: nat)
    requires d < 16
    ensures DigitValue(DigitChar(d)) == d
  {
  }

  /** The number that a string of digits stands for. */
  function Value(s: string, base: nat): nat
    requires AllDigits(s, base)
  {
    if s == "" then 0 else Value(s[..|s| - 1], base) * base + DigitValue(s[|s| - 1])
  }

  /** The digits of a number, at least one. */
  function Digits(u: nat, base: nat): (s: string)
    requires 2 <= base <= 16
    ensures s != ""
    decreases u
  {
    if u < base then [DigitChar(u)] else Digits(u / base, base) + [DigitChar(u % base)]
  }

  lemma DivModOf(u: nat, base: nat)
    requires base > 0
    ensures u == u / base * base + u % base && u / base >= 0 && 0 <= u % base < base
  {
  }

  lemma AppendDigit(s: string, c: char, base: nat)
    requires AllDigits(s, base) && IsDigit(c, base)
    ensures AllDigits(s + [c], base) && Value(s + [c], base) == Value(s, base) * base + DigitValue(c)
  {
    var t := s + [c];
    assert t[..|t| - 1] == s;
  }

  lemma {:induction false} DigitsValue(u: nat, base: nat)
    requires 2 <= base <= 16
    ensures AllDigits(Digits(u, base), base) && Value(Digits(u, base), base) == u
    decreases u
  {
    if u < base {
      DigitCharValue(u);
      assert Digits(u, base)[..0] == "";
    } else {
      DivModOf(u, base);
      DigitsValue(u / base, base);
      DigitsExtend(Digits(u / base, base), u / base, u % base, base);
    }
  }

  lemma DigitsExtend(s: string, q: nat, r: nat, base: nat)
    requires r < base <= 16 && AllDigits(s, base) && Value(s, base) == q
    ensures AllDigits(s + [DigitChar(r)], base) && Value(s + [DigitChar(r)], base) == q * base + r
  {
    DigitCharValue(r);
    AppendDigit(s, DigitChar(r), base);
  }

  lemma {:induction false} DigitsFit(u: nat, base: nat, k: nat)
    requires 2 <= base <= 16 && u < Pow2(k) && k >= 1
    ensures |Digits(u, base)| <= k
    decreases u
  {
    assert Pow2(1) == 2;
    if u >= base {
      AtLeastHalved(u, base);
      DigitsFit(u / base, base, k - 1);
    }
  }

  lemma AtLeastHalved(u: nat, base: nat)
    requires base >= 2
    ensures u / base <= u / 2
  {
    var q := u / base;
    MulLe(2, base, q);
  }

  /** n times the character c, nothing for a negative n. */
  function Fill(c: char, n: int): (s: string)
    ensures |s| == if n < 0 then 0 else n
    ensures forall i :: 0 <= i < |s| ==> s[i] == c
  {
    seq(if n < 0 then 0 else n, _ => c)
  }

  lemma {:induction false} LeadingZeros(n: int, s: string, base: nat)
    requires AllDigits(s, base) && base >= 1
    ensures AllDigits(Fill('0', n) + s, base) && Value(Fill('0', n) + s, base) == Value(s, base)
    decreases |s|, n
  {
    var t := Fill('0', n) + s;
    if s != "" {
      LeadingZeros(n, s[..|s| - 1], base);
      assert t[..|t| - 1] == Fill('0', n) + s[..|s| - 1];
    } else if n > 0 {
      LeadingZeros(n - 1, s, base);
      assert t == Fill('0', n) && t[..|t| - 1] == Fill('0', n - 1) + s;
    } else {
      assert t == "";
    }
  }

  // ---------------------------------------------------------------- printing

  /** The conversion: sign_char (None for 0), '#', precision (negative for none), width, '-', and the pad character. */
  datatype Spec = Spec(sign: string, alt: bool, prec: int, width: nat, ladjust: bool, zeroPad: bool)

  predicate ValidSpec(f: Spec) {
    f.sign == "" || f.sign == "+" || f.sign == " " || f.sign == "-"
  }

  function Prefix(u: nat, base: nat, alt: bool): string {
    if u != 0 && alt then (if base == 8 then "0" else if base == 16 then "0x" else "") else ""
  }

  /** Characters missing to the width. */
  function Padding(u: nat, base: nat, f: Spec): int
    requires 2 <= base <= 16
  {
    f.width - |f.sign| - |Prefix(u, base, f.alt)| - Max(f.prec, |Digits(u, base)|)
  }

  /** The digits with the zeros that precision and zero padding put before them. */
  function Numeral(u: nat, base: nat, f: Spec): string
    requires 2 <= base <= 16
  {
    Fill('0', f.prec - |Digits(u, base)|) + Fill('0', if f.zeroPad then Padding(u, base, f) else 0) + Digits(u, base)
  }

  /** The blanks before the sign, or after the digits. */
  function BlanksBefore(u: nat, base: nat, f: Spec): string
    requires 2 <= base <= 16
  {
    Fill(' ', if !f.zeroPad && !f.ladjust then Padding(u, base, f) else 0)
  }

  function BlanksAfter(u: nat, base: nat, f: Spec): string
    requires 2 <= base <= 16
  {
    Fill(' ', if !f.zeroPad && f.ladjust then Padding(u, base, f) else 0)
  }

  /** The whole field. */
  function Field(u: nat, base: nat, f: Spec): string
    requires 2 <= base <= 16
  {
    BlanksBefore(u, base, f) + f.sign + Prefix(u, base, f.alt) + Numeral(u, base, f) + BlanksAfter(u, base, f)
  }

  /** '#': the characters that tell the base, for numbers other than 0. */
  lemma PrefixText(u: nat, base: nat, alt: bool)
    ensures Prefix(u, base, alt) ==
      if alt && u > 0 && base == 8 then "0" else if alt && u > 0 && base == 16 then "0x" else ""
  {
  }

  /** Digits are those of lower case, none of them too large. */
  lemma {:induction false} DigitsText(u: nat, base: nat, k: nat) returns (v: nat)
    requires 2 <= base <= 16 && k < |Digits(u, base)|
    ensures v < base && DigitIs(Digits(u, base)[k], v)
    decreases u
  {
    if u < base {
      v := u;
      LowerCase(u);
    } else {
      var q, r := u / base, u % base;
      DivModOf(u, base);
      AtLeastHalved(u, base);
      var d := Digits(q, base);
      assert Digits(u, base) == d + [DigitChar(r)];
      if k < |d| {
        v := DigitsText(q, base, k);
      } else {
        v := r;
        LowerCase(r);
      }
    }
  }

  /** The first digit is 0 for the number 0 only. */
  lemma {:induction false} FirstDigit(u: nat, base: nat)
    requires 2 <= base <= 16
    ensures Digits(u, base)[0] == '0' <==> u == 0
    decreases u
  {
    if u < base {
      DigitCharValue(u);
    } else {
      SmallQuotient(u, base);
      AtLeastHalved(u, base);
      FirstDigit(u / base, base);
    }
  }

  predicate DigitIs(c: char, v: nat) {
    v < 16 && c == "0123456789abcdef"[v]
  }

  lemma LowerCase(d: nat)
    requires d < 16
    ensures DigitIs(DigitChar(d), d)
  {
  }

  /**
   * Where everything stands in a field: blanks before the sign unless left adjusted or padded by
   * zeroes, sign and prefix, zeroes for the precision or the width, digits, blanks to the width.
   */
  ghost predicate Placed(out: string, f: Spec, prefix: string, digits: string) {
    var front := f.sign + prefix;
    var zeros := if f.prec > |digits| then f.prec - |digits| else 0;
    var parts := |front| + zeros + |digits|;
    && |out| == (if f.width > parts then f.width else parts)
    && var start := if f.zeroPad || f.ladjust then 0 else |out| - parts;
       var from := if f.zeroPad then |out| - |digits| else start + |front| + zeros;
       && out[start..start + |front|] == front && out[from..from + |digits|] == digits
       && (forall k :: 0 <= k < start ==> out[k] == ' ')
       && (forall k :: start + |front| <= k < from ==> out[k] == '0')
       && (forall k :: from + |digits| <= k < |out| ==> out[k] == ' ')
  }

  /** The zeroes before the digits. */
  function Zeros(u: nat, base: nat, f: Spec): (z: string)
    requires 2 <= base <= 16
    ensures forall k :: 0 <= k < |z| ==> z[k] == '0'
  {
    Fill('0', f.prec - |Digits(u, base)|) + Fill('0', if f.zeroPad then Padding(u, base, f) else 0)
  }

  lemma FieldInParts(u: nat, base: nat, f: Spec)
    requires 2 <= base <= 16
    ensures Field(u, base, f) ==
      BlanksBefore(u, base, f) + (f.sign + Prefix(u, base, f.alt)) + (Zeros(u, base, f) + Digits(u, base))
      + BlanksAfter(u, base, f)
  {
    Associate(BlanksBefore(u, base, f), f.sign, Prefix(u, base, f.alt));
  }

  lemma FieldPlaced(u: nat, base: nat, f: Spec)
    requires 2 <= base <= 16
    ensures Placed(Field(u, base, f), f, Prefix(u, base, f.alt), Digits(u, base))
  {
    FieldInParts(u, base, f);
    ConcatPlaces(BlanksBefore(u, base, f), f.sign + Prefix(u, base, f.alt), Zeros(u, base, f), Digits(u, base),
      BlanksAfter(u, base, f), Field(u, base, f));
    PartsPlaced(BlanksBefore(u, base, f), f.sign, Prefix(u, base, f.alt), Zeros(u, base, f), Digits(u, base),
      BlanksAfter(u, base, f), Field(u, base, f), f);
  }

  lemma PartsPlaced(a: string, sign: string, prefix: string, zeros: string, d: string, e: string, out: string, f: Spec)
    requires out == a + (sign + prefix) + (zeros + d) + e && sign == f.sign
    requires AllBlank(a) && AllBlank(e) && forall k :: 0 <= k < |zeros| ==> zeros[k] == '0'
    requires var pad := f.width - |sign| - |prefix| - Max(f.prec, |d|);
      && |a| == (if !f.zeroPad && !f.ladjust && pad > 0 then pad else 0)
      && |e| == (if !f.zeroPad && f.ladjust && pad > 0 then pad else 0)
      && |zeros| == (if f.prec > |d| then f.prec - |d| else 0) + (if f.zeroPad && pad > 0 then pad else 0)
    ensures Placed(out, f, prefix, d)
  {
    ConcatPlaces(a, sign + prefix, zeros, d, e, out);
  }

  lemma ConcatPlaces(a: string, front: string, zeros: string, d: string, e: string, out: string)
    requires out == a + front + (zeros + d) + e
    ensures |out| == |a| + |front| + |zeros| + |d| + |e|
    ensures out[|a|..|a| + |front|] == front
    ensures var from := |a| + |front| + |zeros|; out[from..from + |d|] == d
    ensures forall k :: 0 <= k < |a| ==> out[k] == a[k]
    ensures forall k :: |a| + |front| <= k < |a| + |front| + |zeros| ==> out[k] == zeros[k - |a| - |front|]
    ensures forall k :: |a| + |front| + |zeros| + |d| <= k < |out| ==> out[k] == e[k - |a| - |front| - |zeros| - |d|]
  {
  }

  /** A field is as wide as asked, or as its parts need. */
  lemma FieldLength(u: nat, base: nat, f: Spec)
    requires 2 <= base <= 16
    ensures |Field(u, base, f)| ==
      Max(f.width, |f.sign| + |Prefix(u, base, f.alt)| + Max(f.prec, |Digits(u, base)|))
  {
  }

  lemma DigitStep(rest: nat, base: nat, d: char, tail: string)
    requires 2 <= base <= 16 && d == DigitChar(rest % base)
    ensures rest / base == 0 ==> [d] + tail == Digits(rest, base) + tail && |Digits(rest, base)| == 1
    ensures rest / base != 0 ==>
      && Digits(rest / base, base) + ([d] + tail) == Digits(rest, base) + tail
      && |Digits(rest, base)| == |Digits(rest / base, base)| + 1
  {
    SmallQuotient(rest, base);
  }

  lemma SmallQuotient(u: nat, base: nat)
    requires base >= 2
    ensures u / base == 0 <==> u < base
    ensures u < base ==> u % base == u
  {
    if u < base {
      DivModUnique(u, base, 0, u);
    } else {
      var q := u / base;
      DivModOf(u, base);
      assert q == 0 ==> q * base == 0;
    }
  }

  /** The digit loop of print_num: digits are stored from the end of a 32-character buffer backwards. */
  method PutDigits(u: nat, base: nat) returns (buf: array<char>, p: nat)
    requires 2 <= base <= 16 && u < TWO_32
    ensures fresh(buf) && buf.Length == 32 && p < 32
    ensures buf[p..] == Digits(u, base)
  {
    buf := new char[MAXBUF](_ => ' ');
    Pow2Is32();
    DigitsFit(u, base, MAXBUF);
    var rest: nat := u;
    p := MAXBUF - 1;
    while true
      invariant p < MAXBUF
      invariant |Digits(rest, base)| + (MAXBUF - 1 - p) == |Digits(u, base)| <= MAXBUF
      invariant Digits(rest, base) + buf[p + 1..] == Digits(u, base)
      decreases rest
    {
      ghost var tail := buf[p + 1..];
      DigitStep(rest, base, DigitChar(rest % base), tail);
      buf[p] := DigitChar(rest % base);
      assert buf[p..] == [DigitChar(rest % base)] + tail;
      if rest / base == 0 {
        return;
      }
      AtLeastHalved(rest, base);
      rest := rest / base;
      p := p - 1;
    }
  }

  /** print_num: characters go out one by one while length and prec are counted down. */
  method PrintNum(u: nat, base: nat, f: Spec) returns (out: string)
    requires 2 <= base <= 16 && u < TWO_32 && ValidSpec(f)
    ensures out == Field(u, base, f)
    ensures Placed(out, f, Prefix(u, base, f.alt), Digits(u, base))
  {
    FieldPlaced(u, base, f);
    var prefix := Prefix(u, base, f.alt);
    var buf, p := PutDigits(u, base);
    var digits := MAXBUF - p;
    var prec, length := f.prec - digits, f.width - digits;
    length := length - |f.sign| - |prefix|;
    if prec > 0 {
      length := length - prec;
    }
    assert length == Padding(u, base, f);
    if !f.zeroPad && !f.ladjust {
      out, length := Emit("", ' ', length);
    } else {
      out := "";
    }
    assert out == BlanksBefore(u, base, f);
    out := out + f.sign + prefix;
    ghost var head := out;
    var numeral;
    numeral, length := PrintDigits(u, base, f, buf[p..], prec, length);
    out := out + numeral;
    if f.ladjust {
      out, length := Emit(out, ' ', length);
    }
    assert out == head + numeral + BlanksAfter(u, base, f);
  }

  /** The zeros and the digits. */
  method PrintDigits(u: nat, base: nat, f: Spec, digits: string, prec: int, length: int)
    returns (numeral: string, length': int)
    requires 2 <= base <= 16 && digits == Digits(u, base) && prec == f.prec - |digits|
    requires f.zeroPad ==> length == Padding(u, base, f)
    ensures numeral == Numeral(u, base, f) && (if f.zeroPad then length' < 0 else length' == length)
  {
    var left;
    numeral, left := Emit("", '0', prec);
    length' := length;
    if f.zeroPad {
      numeral, length' := Emit(numeral, '0', length');
    }
    numeral := numeral + digits;
  }

  /** Emit n times the character c. */
  method Emit(before: string, c: char, count: int) returns (out: string, n: int)
    ensures out == before + Fill(c, count) && n == (if count > 0 then -1 else count - 1)
  {
    out, n := before, count - 1;
    while n >= 0
      invariant (if count > 0 then -1 else count - 1) <= n <= count - 1
      invariant out == before + Fill(c, count - 1 - n)
    {
      out := out + [c];
      n := n - 1;
    }
  }

  // ---------------------------------------------------------------- reading

  /** A C string with its terminating NUL. */
  predicate Terminated(s: string) {
    s != "" && s[|s| - 1] == '\0'
  }

  predicate IsSpace(c: char) {
    c == ' ' || 9 <= c as int <= 13
  }

  function SkipSpaces(s: string, i: nat): (j: nat)
    requires Terminated(s) && i < |s|
    ensures i <= j < |s| && !IsSpace(s[j]) && forall k :: i <= k < j ==> IsSpace(s[k])
    decreases |s| - i
  {
    if IsSpace(s[i]) then SkipSpaces(s, i + 1) else i
  }

  predicate HasHexPrefix(s: string, i: nat)
    requires Terminated(s) && i < |s|
  {
    s[i] == '0' && (s[i + 1] == 'x' || s[i + 1] == 'X')
  }

  /** Where the digits begin, after an optional 0x. */
  function DigitsFrom(s: string, i: nat, base: nat): (j: nat)
    requires Terminated(s) && i < |s|
    ensures i <= j < |s|
  {
    if (base == 16 || base == 0) && HasHexPrefix(s, i) then i + 2 else i
  }

  /** The base in force: base 0 is decided by the prefix. */
  function BaseFrom(s: string, i: nat, base: nat): nat
    requires Terminated(s) && i < |s|
  {
    if base != 0 then base else if HasHexPrefix(s, i) then 16 else if s[i] == '0' then 8 else 10
  }

  /** The end of the longest run of digits from i on. */
  function DigitsEnd(s: string, i: nat, base: nat): (j: nat)
    requires Terminated(s) && i < |s|
    ensures i <= j < |s| && AllDigits(s[i..j], base) && !IsDigit(s[j], base)
    decreases |s| - i
  {
    if IsDigit(s[i], base) then
      var j := DigitsEnd(s, i + 1, base);
      assert forall k :: 0 < k < j - i ==> s[i..j][k] == s[i + 1..j][k - 1];
      j
    else i
  }

  /** The number read at i: digits to the end of their run. */
  function NumberAt(s: string, i: nat, base: nat): nat
    requires Terminated(s) && i < |s|
  {
    var a, b := DigitsFrom(s, i, base), BaseFrom(s, i, base);
    Value(s[a..DigitsEnd(s, a, b)], b)
  }

  function NumberEnd(s: string, i: nat, base: nat): nat
    requires Terminated(s) && i < |s|
  {
    DigitsEnd(s, DigitsFrom(s, i, base), BaseFrom(s, i, base))
  }

  lemma WrapDigit(x: nat, b: nat, d: nat)
    ensures (x % TWO_32 * b + d) % TWO_32 == (x * b + d) % TWO_32
  {
    var q, r := x / TWO_32, x % TWO_32;
    assert (q * TWO_32 + r) * b == q * b * TWO_32 + r * b;
    ModAddMultiple(r * b + d, q * b, TWO_32);
  }

  lemma OneMoreDigit(s: string, start: nat, p: nat, base: nat)
    requires Terminated(s) && start <= p < |s| && AllDigits(s[start..p], base) && IsDigit(s[p], base)
    ensures p + 1 < |s| && AllDigits(s[start..p + 1], base)
    ensures Value(s[start..p + 1], base) == Value(s[start..p], base) * base + DigitValue(s[p])
    ensures DigitsEnd(s, p, base) == DigitsEnd(s, p + 1, base)
  {
    SliceMore(s, start, p);
    AppendDigit(s[start..p], s[p], base);
  }

  lemma SliceMore(s: string, start: nat, p: nat)
    requires start <= p < |s|
    ensures s[start..p + 1] == s[start..p] + [s[p]]
  {
  }

  /** Step over leading white space. */
  method SkipBlank(s: string) returns (p: nat)
    requires Terminated(s)
    ensures p == SkipSpaces(s, 0)
  {
    p := 0;
    while IsSpace(s[p])
      invariant p < |s| && SkipSpaces(s, p) == SkipSpaces(s, 0)
      decreases |s| - p
    {
      p := p + 1;
    }
  }

  /** The optional 0x and the decision on the base. */
  method ReadPrefix(s: string, i: nat, base: nat) returns (p: nat, b: nat)
    requires Terminated(s) && i < |s|
    ensures p == DigitsFrom(s, i, base) && b == BaseFrom(s, i, base)
  {
    p, b := i, base;
    if (b == 16 || b == 0) && s[p] == '0' && (s[p + 1] == 'x' || s[p + 1] == 'X') {
      p := p + 2;
      b := 16;
    }
    if b == 0 {
      b := if s[p] == '0' then 8 else 10;
    }
  }

  /** The loop of strtoul: every step wraps at 32 bits. */
  method ReadUnsigned(s: string, start: nat, base: nat) returns (v: nat, p: nat)
    requires Terminated(s) && start < |s|
    ensures p == DigitsEnd(s, start, base) && v == Value(s[start..p], base) % TWO_32
  {
    v, p := 0, start;
    while IsDigit(s[p], base)
      invariant start <= p < |s| && AllDigits(s[start..p], base)
      invariant DigitsEnd(s, p, base) == DigitsEnd(s, start, base)
      invariant v == Value(s[start..p], base) % TWO_32
      decreases |s| - p
    {
      OneMoreDigit(s, start, p, base);
      WrapDigit(Value(s[start..p], base), base, DigitValue(s[p]));
      v := (v * base + DigitValue(s[p])) % TWO_32;
      p := p + 1;
    }
  }

  /** strtoul */
  method StrToUl(s: string, base: nat) returns (v: nat, end: nat)
    requires Terminated(s)
    ensures v == UnsignedNumber(s, base) % TWO_32 && end == NumberEnd(s, SkipSpaces(s, 0), base)
  {
    var i := SkipBlank(s);
    var p, b := ReadPrefix(s, i, base);
    v, end := ReadUnsigned(s, p, b);
  }

  /** Where strtol looks for its number: a '-' is skipped, a '+' is not. */
  function AfterSign(s: string): (i: nat)
    requires Terminated(s)
    ensures i < |s|
  {
    var i := SkipSpaces(s, 0);
    if s[i] == '-' then i + 1 else i
  }

  function IsNegative(s: string): bool
    requires Terminated(s)
  {
    s[SkipSpaces(s, 0)] == '-'
  }

  /** The loop of strtol, for numbers that a long can hold. */
  method ReadSigned(s: string, start: nat, base: nat) returns (v: nat, p: nat)
    requires Terminated(s) && start < |s|
    ensures p == DigitsEnd(s, start, base) && v == Value(s[start..p], base)
  {
    v, p := 0, start;
    while IsDigit(s[p], base)
      invariant start <= p < |s| && AllDigits(s[start..p], base)
      invariant DigitsEnd(s, p, base) == DigitsEnd(s, start, base)
      invariant v == Value(s[start..p], base)
      decreases |s| - p
    {
      OneMoreDigit(s, start, p, base);
      v := v * base + DigitValue(s[p]);
      p := p + 1;
    }
  }

  function SignedNumber(s: string, base: nat): int
    requires Terminated(s)
  {
    var n: int := NumberAt(s, AfterSign(s), base);
    if IsNegative(s) then -n else n
  }

  /** strtol */
  method StrToL(s: string, base: nat) returns (v: int, end: nat)
    requires Terminated(s)
    ensures v == SignedNumber(s, base) && end == NumberEnd(s, AfterSign(s), base)
  {
    var p := SkipBlank(s);
    var isNeg := false;
    if s[p] == '-' {
      isNeg, p := true, p + 1;
    } else if s[p] == '+' {
      isNeg := false;
    }
    var start, b := ReadPrefix(s, p, base);
    v, end := ReadSigned(s, start, b);
    if isNeg {
      v := -v;
    }
  }

  /** The values of the digits of every base up to 36, in either case; no other character has one. */
  lemma DigitValues(c: char, v: nat)
    requires v < 16
    ensures DigitValue(c) == v <==> c == "0123456789abcdef"[v] || c == "0123456789ABCDEF"[v]
    ensures DigitValue(c) >= 16 <==> 'g' <= c <= 'z' || 'G' <= c <= 'Z'
    ensures 'g' <= c <= 'z' ==> DigitValue(c) == 16 + (c as int - 'g' as int)
    ensures 'G' <= c <= 'Z' ==> DigitValue(c) == 16 + (c as int - 'G' as int)
    ensures DigitValue(c) < 0 ==> DigitValue(c) == -1
  {
  }

  /** The digits of a base are those with values below it. */
  lemma DigitsOfBase(c: char, base: nat)
    requires base <= 16
    ensures IsDigit(c, base) <==>
      exists v: nat :: v < base && (c == "0123456789abcdef"[v] || c == "0123456789ABCDEF"[v])
  {
    if IsDigit(c, base) {
      DigitValues(c, DigitValue(c));
    } else if v: nat :| v < base && (c == "0123456789abcdef"[v] || c == "0123456789ABCDEF"[v]) {
      DigitValues(c, v);
    }
  }

  /** An 8 ends an octal number. */
  lemma OctalEnds()
    ensures NumberAt("178\0", 0, 8) == 15 && NumberEnd("178\0", 0, 8) == 2
  {
    var s := "178\0";
    EndsAt(s, 0, 2, 8);
    assert s[0..2] == "17" && "17"[..1] == "1" && "1"[..0] == "";
    assert Value("1", 8) == 1 && Value("17", 8) == 15;
  }

  /** Blank, and the characters 9 to 13: tab, newline, vertical tab, form feed, carriage return. */
  lemma SpaceCodes(c: char)
    ensures IsSpace(c) <==> c as int in {9, 10, 11, 12, 13, 32}
  {
  }

  /** With base 0 the text decides: 0x or 0X is base 16, another 0 base 8, anything else base 10. */
  lemma BaseFromText(s: string, i: nat)
    requires Terminated(s) && i < |s|
    ensures var x := i + 1 < |s| && s[i] == '0' && (s[i + 1] == 'x' || s[i + 1] == 'X');
      var base := if x then 16 else if s[i] == '0' then 8 else 10;
      NumberAt(s, i, 0) == NumberAt(s, i, base) && NumberEnd(s, i, 0) == NumberEnd(s, i, base)
  {
  }

  /** With base 16 the prefix is stepped over, with the others it ends the number after the 0. */
  lemma HexPrefixText(s: string, i: nat, base: nat)
    requires Terminated(s) && i + 1 < |s| && s[i] == '0' && (s[i + 1] == 'x' || s[i + 1] == 'X') && 0 < base <= 16
    ensures DigitsFrom(s, i, base) == if base == 16 then i + 2 else i
  {
  }

  // ---------------------------------------------------------------- round trip

  lemma {:induction false} SkipsAll(s: string, i: nat, j: nat)
    requires Terminated(s) && i <= j < |s| && (forall k :: i <= k < j ==> IsSpace(s[k])) && !IsSpace(s[j])
    ensures SkipSpaces(s, i) == j
    decreases j - i
  {
    if i < j {
      SkipsAll(s, i + 1, j);
    }
  }

  lemma {:induction false} EndsAt(s: string, i: nat, j: nat, base: nat)
    requires Terminated(s) && i <= j < |s| && !IsDigit(s[j], base)
    requires forall k :: i <= k < j ==> IsDigit(s[k], base)
    ensures DigitsEnd(s, i, base) == j
    decreases j - i
  {
    if i < j {
      EndsAt(s, i + 1, j, base);
    }
  }

  predicate EndsNumber(r: string) {
    Terminated(r) && (r[0] == ' ' || r[0] == '\0')
  }

  /** The string s is a head, a possible 0x, digits t of the base, and a rest that is not read. */
  predicate Parts(s: string, head: string, p: string, t: string, r: string, base: nat) {
    && (base == 8 || base == 10 || base == 16)
    && (p == "" || (p == "0x" && base == 16))
    && t != "" && AllDigits(t, base) && EndsNumber(r)
    && s == head + p + t + r
  }

  /** Reading after the head finds the digits. */
  lemma ReadsDigits(s: string, head: string, p: string, t: string, r: string, base: nat)
    requires Parts(s, head, p, t, r, base)
    ensures Terminated(s) && |head| < |s| && NumberAt(s, |head|, base) == Value(t, base)
    ensures !IsSpace(s[|head|]) && s[|head|] != '-'
  {
    var a := |head| + |p|;
    var e := a + |t|;
    PartsPlaces(s, head, p, t, r, base);
    EndsAt(s, a, e, base);
  }

  lemma PartsPlaces(s: string, head: string, p: string, t: string, r: string, base: nat)
    requires Parts(s, head, p, t, r, base)
    ensures var i, a := |head|, |head| + |p|;
      var e := a + |t|;
      && Terminated(s) && a < e < |s| && s[a..e] == t && !IsDigit(s[e], base)
      && (forall k :: a <= k < e ==> IsDigit(s[k], base))
      && !IsSpace(s[i]) && s[i] != '-' && (HasHexPrefix(s, i) <==> p != "")
  {
    var i, a := |head|, |head| + |p|;
    var e := a + |t|;
    assert s[a..e] == t;
    assert s[a] == t[0] && s[e] == r[0];
    assert forall k :: a <= k < e ==> s[k] == t[k - a];
    if p == "" {
      assert s[i + 1] == if |t| > 1 then t[1] else r[0];
    } else {
      assert s[i] == '0' && s[i + 1] == 'x';
    }
  }

  predicate AllBlank(w: string) {
    forall i :: 0 <= i < |w| ==> w[i] == ' '
  }

  /** The part of the field that is read as digits: an octal prefix is one more leading zero. */
  function DigitText(u: nat, base: nat, f: Spec): string
    requires 2 <= base <= 16
  {
    (if Prefix(u, base, f.alt) == "0" then "0" else "") + Numeral(u, base, f)
  }

  lemma TwoFills(z1: int, z2: int, d: string, base: nat)
    requires d != "" && AllDigits(d, base) && base >= 1
    ensures var n := Fill('0', z1) + Fill('0', z2) + d;
      n != "" && AllDigits(n, base) && Value(n, base) == Value(d, base)
  {
    var a, b := Fill('0', z1), Fill('0', z2);
    LeadingZeros(z2, d, base);
    LeadingZeros(z1, b + d, base);
    Associate(a, b, d);
  }

  lemma Associate(a: string, b: string, c: string)
    ensures a + b + c == a + (b + c) && (c != "" ==> a + b + c != "")
  {
  }

  lemma NumeralValue(u: nat, base: nat, f: Spec)
    requires 2 <= base <= 16
    ensures Numeral(u, base, f) != "" && AllDigits(Numeral(u, base, f), base) && Value(Numeral(u, base, f), base) == u
  {
    DigitsValue(u, base);
    TwoFills(f.prec - |Digits(u, base)|, if f.zeroPad then Padding(u, base, f) else 0, Digits(u, base), base);
  }

  lemma DigitTextValue(u: nat, base: nat, f: Spec)
    requires 2 <= base <= 16
    ensures DigitText(u, base, f) != "" && AllDigits(DigitText(u, base, f), base)
    ensures Value(DigitText(u, base, f), base) == u
  {
    NumeralValue(u, base, f);
    var n := Numeral(u, base, f);
    LeadingZeros(1, n, base);
    assert Fill('0', 1) == "0";
    assert "" + n == n;
  }

  function HexPrefix(u: nat, base: nat, f: Spec): string {
    if Prefix(u, base, f.alt) == "0x" then "0x" else ""
  }

  function Rest(u: nat, base: nat, f: Spec): string
    requires 2 <= base <= 16
  {
    BlanksAfter(u, base, f) + "\0"
  }

  /** The field with its terminator. */
  function FieldString(u: nat, base: nat, f: Spec): string
    requires 2 <= base <= 16
  {
    Field(u, base, f) + "\0"
  }

  lemma Regroup(h: string, x: string, n: string, a: string, z: string)
    ensures h + x + n + a + z == h + x + n + (a + z)
    ensures h + x + n + (a + z) == h + "" + (x + n) + (a + z)
    ensures x == "" ==> x + n == n
  {
    var r := a + z;
    assert h + "" == h;
    assert h + x + n == h + (x + n);
    assert h + x + n + a + z == h + x + n + r;
  }

  /** A field is blanks and sign, possibly 0x, digits, blanks. */
  lemma FieldParts(u: nat, base: nat, f: Spec)
    requires base == 8 || base == 10 || base == 16
    ensures Parts(FieldString(u, base, f), BlanksBefore(u, base, f) + f.sign, HexPrefix(u, base, f),
      DigitText(u, base, f), Rest(u, base, f), base)
  {
    DigitTextValue(u, base, f);
    var h, x, n := BlanksBefore(u, base, f) + f.sign, Prefix(u, base, f.alt), Numeral(u, base, f);
    Regroup(h, x, n, BlanksAfter(u, base, f), "\0");
    Regroup(h, "", n, BlanksAfter(u, base, f), "\0");
    if x == "0x" {
      assert "" + n == n;
    }
  }

  /** What strtoul reads, before it is reduced to 32 bits. */
  function UnsignedNumber(s: string, base: nat): nat
    requires Terminated(s)
  {
    NumberAt(s, SkipSpaces(s, 0), base)
  }

  /** Blanks, a possible 0x and digits are read as the number the digits stand for. */
  lemma ReadsUnsigned(s: string, w: string, p: string, t: string, r: string, base: nat)
    requires Parts(s, w, p, t, r, base) && AllBlank(w)
    ensures Terminated(s) && UnsignedNumber(s, base) == Value(t, base) && SignedNumber(s, base) == Value(t, base)
  {
    ReadsDigits(s, w, p, t, r, base);
    assert forall k :: 0 <= k < |w| ==> s[k] == w[k];
    SkipsAll(s, 0, |w|);
  }

  lemma SignPlace(s: string, w: string, sign: char, p: string, t: string, r: string, base: nat)
    requires AllBlank(w) && Parts(s, w + [sign], p, t, r, base)
    ensures |w| < |s| && s[|w|] == sign && forall k :: 0 <= k < |w| ==> s[k] == ' '
  {
    assert forall k :: 0 <= k < |w| + 1 ==> s[k] == (w + [sign])[k];
  }

  /** After a '-' the number is read and negated; a '+' ends it before it has begun. */
  lemma ReadsSigned(s: string, w: string, sign: char, p: string, t: string, r: string, base: nat)
    requires AllBlank(w) && (sign == '-' || sign == '+') && Parts(s, w + [sign], p, t, r, base)
    ensures Terminated(s) && SignedNumber(s, base) == if sign == '-' then -(Value(t, base) as int) else 0
  {
    ReadsDigits(s, w + [sign], p, t, r, base);
    SignPlace(s, w, sign, p, t, r, base);
    SkipsAll(s, 0, |w|);
    if sign == '+' {
      EndsAt(s, |w|, |w|, base);
      assert s[|w|..|w|] == "";
    }
  }

  /** strtoul gives back every unsigned number, whatever the flags, width and precision. */
  lemma UnsignedRoundTrip(u: nat, base: nat, f: Spec)
    requires base == 8 || base == 10 || base == 16
    requires u < TWO_32 && f.sign == ""
    ensures var s := FieldString(u, base, f); Terminated(s) && UnsignedNumber(s, base) == u
  {
    DigitTextValue(u, base, f);
    FieldParts(u, base, f);
    var w := BlanksBefore(u, base, f) + f.sign;
    ReadsUnsigned(FieldString(u, base, f), w, HexPrefix(u, base, f), DigitText(u, base, f), Rest(u, base, f), base);
  }

  /** The conversion of a signed number: `plus` is the flag given, if any. */
  function SignedSpec(n: int, plus: string, f: Spec): Spec {
    f.(sign := if n >= 0 then plus else "-")
  }

  /** A negative number has a '-', any other one the flag that was given: 0, too. */
  lemma SignText(n: int, plus: string, f: Spec)
    ensures n < 0 ==> SignedSpec(n, plus, f) == f.(sign := "-")
    ensures n >= 0 ==> SignedSpec(n, plus, f) == f.(sign := plus)
    ensures SignedSpec(0, "+", f).sign == "+"
  {
  }

  function Abs(n: int): nat {
    if n < 0 then -n else n
  }

  /**
   * strtol gives back every signed number a long can negate, exactly unless a '+' was printed before
   * a number other than zero: strtol recognises the '+' but does not skip it.
   */
  lemma SignedRoundTrip(n: int, base: nat, plus: string, f: Spec)
    requires base == 8 || base == 10 || base == 16
    requires -0x8000_0000 < n < 0x8000_0000 && (plus == "" || plus == " " || plus == "+")
    ensures var s := FieldString(Abs(n), base, SignedSpec(n, plus, f));
      Terminated(s) && (SignedNumber(s, base) == n <==> !(plus == "+" && n > 0))
  {
    var g, u := SignedSpec(n, plus, f), Abs(n);
    var s, blanks, p := FieldString(u, base, g), BlanksBefore(u, base, g), HexPrefix(u, base, g);
    DigitTextValue(u, base, g);
    FieldParts(u, base, g);
    if g.sign == "-" {
      ReadsSigned(s, blanks, '-', p, DigitText(u, base, g), Rest(u, base, g), base);
    } else if g.sign == "+" {
      ReadsSigned(s, blanks, '+', p, DigitText(u, base, g), Rest(u, base, g), base);
    } else {
      ReadsUnsigned(s, blanks + g.sign, p, DigitText(u, base, g), Rest(u, base, g), base);
    }
  }

  /** Printing then reading an unsigned number, as a program would. */
  method PrintThenRead(u: nat, base: nat, f: Spec) returns (v: nat)
    requires base == 8 || base == 10 || base == 16
    requires u < TWO_32 && f.sign == ""
    ensures v == u
  {
    var out := PrintNum(u, base, f);
    var s := out + "\0";
    ReadBack(u, base, f, s);
    var end;
    v, end := StrToUl(s, base);
  }

  lemma ReadBack(u: nat, base: nat, f: Spec, s: string)
    requires (base == 8 || base == 10 || base == 16) && u < TWO_32 && f.sign == "" && s == FieldString(u, base, f)
    ensures Terminated(s) && UnsignedNumber(s, base) % TWO_32 == u
  {
    UnsignedRoundTrip(u, base, f);
  }

  /** The smallest failing case: "%+d" of 5 is read as 0. */
  lemma PlusFails(f: Spec)
    ensures SignedNumber(FieldString(5, 10, SignedSpec(5, "+", f)), 10) != 5
  {
    SignedRoundTrip(5, 10, "+", f);
  }

  // ---------------------------------------------------------------- in figures

  /** "%-4d", "%4d" and "%04d" of 5. */
  lemma FiveInFour()
    ensures Field(5, 10, Spec("", false, -1, 4, true, false)) == "5   "
    ensures Field(5, 10, Spec("", false, -1, 4, false, false)) == "   5"
    ensures Field(5, 10, Spec("", false, -1, 4, false, true)) == "0005"
  {
    assert Digits(5, 10) == "5";
    FieldPlaced(5, 10, Spec("", false, -1, 4, true, false));
    FieldPlaced(5, 10, Spec("", false, -1, 4, false, false));
    FieldPlaced(5, 10, Spec("", false, -1, 4, false, true));
  }

  lemma ThirtyOne()
    ensures Digits(31, 16) == "1f"
  {
    assert Digits(1, 16) == "1" && 31 / 16 == 1 && 31 % 16 == 15;
    assert Digits(31, 16) == "1" + "f";
  }

  /** "%#6x" of 31. */
  lemma PrefixAfterBlanks()
    ensures Field(31, 16, Spec("", true, -1, 6, false, false)) == "  0x1f"
  {
    ThirtyOne();
    var f := Spec("", true, -1, 6, false, false);
    FieldPlaced(31, 16, f);
    var out := Field(31, 16, f);
    assert out[2..4] == "0x" && out[4..6] == "1f";
    assert out[2] == out[2..4][0] && out[3] == out[2..4][1] && out[4] == out[4..6][0] && out[5] == out[4..6][1];
  }

  /** "%#06x" of 31. */
  lemma PrefixBeforeZeroes()
    ensures Field(31, 16, Spec("", true, -1, 6, false, true)) == "0x001f"
  {
    ThirtyOne();
    var f := Spec("", true, -1, 6, false, true);
    FieldPlaced(31, 16, f);
    var out := Field(31, 16, f);
    assert out[0..2] == "0x" && out[4..6] == "1f";
    assert out[0] == out[0..2][0] && out[1] == out[0..2][1] && out[4] == out[4..6][0] && out[5] == out[4..6][1];
  }

  /** "%+.3d" of 7. */
  lemma SignAndPrecision()
    ensures Field(7, 10, Spec("+", false, 3, 0, false, false)) == "+007"
  {
    assert Digits(7, 10) == "7";
    var f := Spec("+", false, 3, 0, false, false);
    FieldPlaced(7, 10, f);
    var out := Field(7, 10, f);
    assert out[0..1] == "+" && out[3..4] == "7";
    assert out[0] == out[0..1][0] && out[3] == out[3..4][0];
  }
}
