/** Number printing: `itoa` produces digits lowest first and reverses them in place.  Proved to be
    the one numeral without leading zeros that denotes the value. */
module Numbers {
  import opened Prelude
  import opened CStrings
  import opened Division

  const ZERO: byte := 48

  function DigitChar(d: int): byte
    requires 0 <= d < 36
  {
    if d < 10 then 48 + d else 55 + d
  }

  predicate IsDigit(c: byte, radix: int) {
    (48 <= c < 58 && c - 48 < radix) || (65 <= c < 91 && c - 55 < radix)
  }

  function DigitValue(c: byte): int { if c < 58 then c - 48 else c - 55 }

  /** What a string of digits denotes, most significant digit first. */
  function Value(s: seq<byte>, radix: int): int {
    if s == [] then 0 else Value(s[..|s| - 1], radix) * radix + DigitValue(s[|s| - 1])
  }

  predicate Digits(s: seq<byte>, radix: int) {
    forall i :: 0 <= i < |s| ==> IsDigit(s[i], radix)
  }

  /** Digits of a positive number, without leading zeros; nothing for zero. */
  function Numeral(v: nat, radix: int): seq<byte>
    requires 2 <= radix <= 36
    decreases v
  {
    if v == 0 then [] else Numeral(v / radix, radix) + [DigitChar(v % radix)]
  }

  function Rev(s: seq<byte>): (r: seq<byte>)
    ensures |r| == |s|
  {
    seq<byte>(|s|, i requires 0 <= i < |s| => s[|s| - 1 - i])
  }

  // ---------- numerals ----------

  lemma ValueAppend(s: seq<byte>, c: byte, radix: int)
    ensures Value(s + [c], radix) == Value(s, radix) * radix + DigitValue(c)
  {
    assert (s + [c])[..|s|] == s;
  }

  lemma DigitsAppend(s: seq<byte>, d: int, radix: int)
    requires 0 <= d < radix <= 36 && Digits(s, radix)
    ensures Digits(s + [DigitChar(d)], radix) && DigitValue(DigitChar(d)) == d
  {
  }

  lemma {:induction false} NumeralDenotes(v: nat, radix: int)
    requires 2 <= radix <= 36
    ensures Value(Numeral(v, radix), radix) == v && Digits(Numeral(v, radix), radix)
    ensures v > 0 ==> Numeral(v, radix) != [] && Numeral(v, radix)[0] != ZERO
    decreases v
  {
    if v > 0 {
      var q, d := v / radix, v % radix;
      Smaller(v, radix);
      Quotient(v, radix);
      NumeralDenotes(q, radix);
      ValueAppend(Numeral(q, radix), DigitChar(d), radix);
      DigitsAppend(Numeral(q, radix), d, radix);
    }
  }

  lemma {:induction false} NonZeroStartIsPositive(s: seq<byte>, radix: int)
    requires 2 <= radix <= 36 && Digits(s, radix) && s != [] && s[0] != ZERO
    ensures Value(s, radix) > 0
  {
    assert IsDigit(s[|s| - 1], radix);
    if |s| > 1 {
      NonZeroStartIsPositive(s[..|s| - 1], radix);
      Scale(Value(s[..|s| - 1], radix), 1, radix);
    }
  }

  lemma NumeralStep(a: nat, d: int, radix: int, v: int)
    requires 2 <= radix <= 36 && 0 <= d < radix && v == a * radix + d && v > 0
    ensures Numeral(v, radix) == Numeral(a, radix) + [DigitChar(d)]
  {
    DivideBack(a, radix, d, v);
  }

  lemma LastDigit(init: seq<byte>, c: byte, radix: int)
    requires 2 <= radix <= 36 && IsDigit(c, radix) && Value(init, radix) >= 0 && Value(init + [c], radix) > 0
    ensures Numeral(Value(init + [c], radix), radix) == Numeral(Value(init, radix), radix) + [c]
  {
    ValueAppend(init, c, radix);
    NumeralStep(Value(init, radix), DigitValue(c), radix, Value(init + [c], radix));
  }

  /** There is only one numeral without leading zeros for each value. */
  lemma {:induction false} NumeralIsUnique(s: seq<byte>, radix: int)
    requires 2 <= radix <= 36 && Digits(s, radix) && (s != [] ==> s[0] != ZERO)
    ensures Value(s, radix) >= 0 && s == Numeral(Value(s, radix), radix)
  {
    if s != [] {
      var init, c := s[..|s| - 1], s[|s| - 1];
      assert s == init + [c] && IsDigit(c, radix);
      NumeralIsUnique(init, radix);
      NonZeroStartIsPositive(s, radix);
      LastDigit(init, c, radix);
    }
  }

  function Power(b: int, n: nat): int { if n == 0 then 1 else b * Power(b, n - 1) }

  lemma {:induction false} NumeralLength(v: nat, radix: int, n: nat)
    requires 2 <= radix <= 36 && v < Power(radix, n)
    ensures |Numeral(v, radix)| <= n
    decreases n
  {
    if v > 0 && n > 0 {
      var q := v / radix;
      Quotient(v, radix);
      if q >= Power(radix, n - 1) { Scale(q, Power(radix, n - 1), radix); }
      NumeralLength(q, radix, n - 1);
    }
  }

  /** The digits as characters: 0 to 9, then capitals. */
  lemma DigitsAreCharacters(d: int)
    requires 0 <= d < 36
    ensures DigitChar(d) as int == if d < 10 then '0' as int + d else 'A' as int + (d - 10)
    ensures DigitValue(DigitChar(d)) == d
  {
  }

  // ---------- the C functions ----------

  lemma ReversedPart(s: seq<byte>, t: seq<byte>, base: nat, n: nat)
    requires |s| == |t| && base + n <= |s|
    requires forall k :: base <= k < base + n ==> t[k] == s[2 * base + n - 1 - k]
    ensures t[base..base + n] == Rev(s[base..base + n])
  {
    var part, was := t[base..base + n], s[base..base + n];
    forall k | 0 <= k < n ensures part[k] == Rev(was)[k] {
      assert part[k] == t[base + k] == s[2 * base + n - 1 - (base + k)];
      assert was[n - 1 - k] == s[base + (n - 1 - k)];
    }
  }

  /** The loop of `strrev`: swaps ends inwards, in place. */
  method SwapEnds(a: array<byte>, base: nat, n: int)
    requires 0 <= n && base + n <= a.Length
    modifies a
    ensures a[base..base + n] == Rev(old(a[base..base + n]))
    ensures forall k :: 0 <= k < a.Length && !(base <= k < base + n) ==> a[k] == old(a[k])
  {
    ghost var orig := a[..];
    var beg, end := 0, n - 1;
    while beg < end
      invariant 0 <= beg && beg + end == n - 1 && beg <= end + 1
      invariant forall k :: base <= k < base + n && !(base + beg <= k <= base + end) ==>
          a[k] == orig[2 * base + n - 1 - k]
      invariant forall k :: base + beg <= k <= base + end ==> a[k] == orig[k]
      invariant forall k :: 0 <= k < a.Length && !(base <= k < base + n) ==> a[k] == orig[k]
    {
      var tmp := a[base + end];
      a[base + end] := a[base + beg];
      a[base + beg] := tmp;
      beg := beg + 1;
      end := end - 1;
    }
    ReversedPart(orig, a[..], base, n);
    assert a[..][base..base + n] == a[base..base + n];
  }

  method StrRev(a: array<byte>, base: nat)
    requires base <= a.Length && Terminated(a[base..])
    modifies a
    ensures var n := |CStr(old(a[base..]))|;
            && base + n < a.Length && a[base..base + n] == Rev(CStr(old(a[base..])))
            && forall k :: 0 <= k < a.Length && !(base <= k < base + n) ==> a[k] == old(a[k])
  {
    var n := StrLen(a[base..]);
    assert a[base..base + n] == a[base..][..n];
    SwapEnds(a, base, n);
  }

  lemma StringAt(b: seq<byte>, base: nat, t: seq<byte>)
    requires base + |t| < |b| && b[base..base + |t|] == t && NUL !in t && b[base + |t|] == NUL
    ensures Terminated(b[base..]) && CStr(b[base..]) == t
  {
    assert b[base..][..|t|] == t;
    CStrIs(b[base..], |t|);
  }

  lemma RevFacts(t: seq<byte>)
    ensures Rev(Rev(t)) == t
    ensures NUL !in t ==> NUL !in Rev(t)
  {
  }

  /** The string that `itoa` leaves at `base`. */
  function Printed(v: nat, radix: int): seq<byte>
    requires 2 <= radix <= 36
  {
    if v == 0 then [ZERO] else Numeral(v, radix)
  }

  /** The digit loop: lowest place first. */
  method PutDigits(value: nat, buf: array<byte>, base: nat, radix: int) returns (n: nat)
    requires 2 <= radix <= 36 && base + |Numeral(value, radix)| < buf.Length
    modifies buf
    ensures n == |Numeral(value, radix)| && buf[base..base + n] == Rev(Numeral(value, radix))
    ensures forall k :: 0 <= k < buf.Length && !(base <= k < base + n) ==> buf[k] == old(buf[k])
  {
    ghost var target := Numeral(value, radix);
    var newval := value;
    n := 0;
    while newval > 0
      invariant 0 <= newval && n <= |target| && Numeral(newval, radix) == target[..|target| - n]
      invariant forall k :: base <= k < base + n ==> buf[k] == target[|target| - 1 - (k - base)]
      invariant forall k :: 0 <= k < buf.Length && !(base <= k < base + n) ==> buf[k] == old(buf[k])
      decreases newval
    {
      Smaller(newval, radix);
      Quotient(newval, radix);
      var i := newval % radix;
      buf[base + n] := DigitChar(i);
      n := n + 1;
      newval := newval / radix;
    }
  }

  lemma PrintedIsText(v: nat, radix: int)
    requires 2 <= radix <= 36
    ensures NUL !in Printed(v, radix)
  {
    NumeralDenotes(v, radix);
    assert Digits(Printed(v, radix), radix);
  }

  /** `itoa` of a positive number: digits lowest first, then reversed. */
  method ItoaPositive(value: nat, buf: array<byte>, base: nat, radix: int)
    requires value > 0 && 2 <= radix <= 36 && base + |Numeral(value, radix)| < buf.Length
    modifies buf
    ensures Terminated(buf[base..]) && CStr(buf[base..]) == Numeral(value, radix)
    ensures forall k :: 0 <= k < buf.Length && !(base <= k <= base + |Numeral(value, radix)|) ==> buf[k] == old(buf[k])
  {
    ghost var target := Numeral(value, radix);
    PrintedIsText(value, radix);
    RevFacts(target);
    var n := PutDigits(value, buf, base, radix);
    buf[base + n] := NUL;
    StringAt(buf[..], base, Rev(target));
    assert buf[..][base..] == buf[base..];
    StrRev(buf, base);
    StringAt(buf[..], base, target);
    assert buf[..][base..] == buf[base..];
  }

  method Itoa(value: nat, buf: array<byte>, base: nat, radix: int)
    requires 2 <= radix <= 36 && base + |Printed(value, radix)| < buf.Length
    modifies buf
    ensures Terminated(buf[base..]) && CStr(buf[base..]) == Printed(value, radix)
    ensures forall k :: 0 <= k < buf.Length && !(base <= k <= base + |Printed(value, radix)|) ==> buf[k] == old(buf[k])
  {
    if value == 0 {
      buf[base] := ZERO;
      buf[base + 1] := NUL;
      StringAt(buf[..], base, [ZERO]);
      assert buf[..][base..] == buf[base..];
    } else {
      ItoaPositive(value, buf, base, radix);
    }
  }

  // ---------- %#x ----------

  function Zeros(n: nat): (r: seq<byte>)
    ensures |r| == n && forall i :: 0 <= i < n ==> r[i] == ZERO
  {
    if n == 0 then [] else Zeros(n - 1) + [ZERO]
  }

  lemma {:induction false} LeadingZeros(s: seq<byte>, n: nat, radix: int)
    requires radix >= 1 && Digits(s, radix)
    ensures Value(Zeros(n) + s, radix) == Value(s, radix) && Digits(Zeros(n) + s, radix)
    decreases n + |s|
  {
    if s != [] {
      var init, c := s[..|s| - 1], s[|s| - 1];
      assert Zeros(n) + s == (Zeros(n) + init) + [c] && s == init + [c];
      ValueAppend(Zeros(n) + init, c, radix);
      LeadingZeros(init, n, radix);
    } else if n > 0 {
      assert Zeros(n) + s == (Zeros(n - 1) + []) + [ZERO];
      ValueAppend(Zeros(n - 1) + [], ZERO, radix);
      LeadingZeros([], n - 1, radix);
    }
  }

  /** Zeros from `start` up to the digits at 8 complete eight places. */
  lemma PaddedDigits(conv: seq<byte>, start: nat, digits: seq<byte>)
    requires |conv| == 64 && start == |digits| <= 8 && NUL !in digits
    requires conv[8..8 + start] == digits && conv[8 + start] == NUL
    requires forall k :: start <= k < 8 ==> conv[k] == ZERO
    ensures Terminated(conv[start..]) && CStr(conv[start..]) == Zeros(8 - start) + digits
  {
    var t := Zeros(8 - start) + digits;
    assert conv[start..start + 8] == t;
    StringAt(conv, start, t);
  }

  method PadAndPrint(conv: array<byte>, start: nat, ghost digits: seq<byte>) returns (out: seq<byte>)
    requires conv.Length == 64 && start == |digits| <= 8 && NUL !in digits
    requires conv[8..8 + start] == digits && conv[8 + start] == NUL
    modifies conv
    ensures out == Zeros(8 - start) + digits
  {
    PadZeros(conv, start);
    assert conv[..][8..8 + start] == digits;
    PaddedDigits(conv[..], start, digits);
    assert conv[..][start..] == conv[start..];
    var len := StrLen(conv[start..]);
    out := conv[start..][..len];
  }

  /** The loop that fills in the zeros. */
  method PadZeros(conv: array<byte>, start: nat)
    requires start <= 8 < conv.Length
    modifies conv
    ensures forall k :: 0 <= k < conv.Length ==> conv[k] == if start <= k < 8 then ZERO else old(conv[k])
  {
    var i := start;
    while i < 8
      invariant start <= i <= 8
      invariant forall k :: 0 <= k < conv.Length ==> conv[k] == if start <= k < i then ZERO else old(conv[k])
    {
      conv[i] := ZERO;
      i := i + 1;
    }
  }

  lemma EightDigits(value: nat)
    requires value < 0x1_0000_0000
    ensures var p := Printed(value, 16); |p| <= 8 && Digits(p, 16) && Value(p, 16) == value && NUL !in p
  {
    assert Power(16, 8) == 0x1_0000_0000;
    NumeralLength(value, 16, 8);
    NumeralDenotes(value, 16);
    var p := Printed(value, 16);
    assert Digits(p, 16);
    if value == 0 { assert p[..0] == []; }
  }

  /** The digits, at index 8 of the buffer. */
  method PutAtEight(value: nat, conv: array<byte>, radix: int) returns (start: nat)
    requires 2 <= radix <= 36 && |Printed(value, radix)| <= 8 && conv.Length == 64
    modifies conv
    ensures start == |Printed(value, radix)|
    ensures conv[8..8 + start] == Printed(value, radix) && conv[8 + start] == NUL
  {
    Itoa(value, conv, 8, radix);
    ghost var tail := conv[8..];
    start := StrLen(conv[8..]);
    assert conv[8..8 + start] == tail[..start];
    assert conv[8 + start] == tail[start];
  }

  lemma HexPadded(value: nat, start: nat)
    requires value < 0x1_0000_0000 && start == |Printed(value, 16)| <= 8
    ensures var out := Zeros(8 - start) + Printed(value, 16);
            |out| == 8 && Digits(out, 16) && Value(out, 16) == value
  {
    EightDigits(value);
    LeadingZeros(Printed(value, 16), 8 - start, 16);
  }

  /** The `%#x` case of `printf`: the digits go to the middle of the buffer, zeros before them,
      and the string from `start` on is printed. */
  method PrintHex8(value: nat) returns (out: seq<byte>)
    requires value < 0x1_0000_0000
    ensures |out| == 8 && Digits(out, 16) && Value(out, 16) == value
  {
    var conv := new byte[64];
    EightDigits(value);
    var start := PutAtEight(value, conv, 16);
    out := PadAndPrint(conv, start, Printed(value, 16));
    HexPadded(value, start);
  }
}
