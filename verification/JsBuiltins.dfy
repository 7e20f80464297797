/** The JavaScript built-ins the client and server code rely on, restricted to
    the arguments the code passes them: `Number.prototype.toString(radix)` on
    non-negative integers, `parseInt(s, 16)`, `String.prototype.padStart`,
    `String.prototype.split` on one character and `toUpperCase` on ASCII. */
module JsBuiltins {

  datatype Option<+T> = None | Some(value: T)

  /** An element of a `Uint8Array`, or a `number` in 0..255. */
  type Byte = x: int | 0 <= x < 256

  /** A JavaScript `number` as `parseInt` produces it: an integer or NaN. */
  datatype Number = Num(value: int) | NaN

  // ---------------------------------------------------------------------
  // Digits

  /** The digit character for `d` as `toString` writes it (lower case). */
  function DigitChar(d: nat): (c: char)
    requires d < 36
  {
    if d < 10 then ('0' as int + d) as char else ('a' as int + d - 10) as char
  }

  /** The value `parseInt` gives one character, case-insensitively; 36 for a
      character that is a digit in no radix. */
  function DigitValue(c: char): (v: nat)
    ensures v <= 36
  {
    if '0' <= c <= '9' then c as int - '0' as int
    else if 'a' <= c <= 'z' then c as int - 'a' as int + 10
    else if 'A' <= c <= 'Z' then c as int - 'A' as int + 10
    else 36
  }

  predicate IsDigitIn(c: char, radix: nat) {
    DigitValue(c) < radix
  }

  predicate IsHexDigit(c: char) {
    IsDigitIn(c, 16)
  }

  lemma DigitValueOfChar(d: nat)
    requires d < 36
    ensures DigitValue(DigitChar(d)) == d
  {
  }

  lemma DivModBounds(n: nat, radix: nat)
    requires 2 <= radix <= n
    ensures n / radix < n && n % radix < radix && n == n / radix * radix + n % radix
  {
  }

  // ---------------------------------------------------------------------
  // Number.prototype.toString(radix)

  /** `n.toString(radix)` for a non-negative integer `n`: the shortest digit
      string, most significant digit first, in lower case. */
  function ToRadixString(n: nat, radix: nat): (r: string)
    requires 2 <= radix <= 36
    ensures 1 <= |r|
    ensures forall i :: 0 <= i < |r| ==> IsDigitIn(r[i], radix)
    ensures n < radix <==> |r| == 1
    ensures n >= 1 ==> r[0] != '0'
    ensures forall i :: 0 <= i < |r| ==> !('A' <= r[i] <= 'Z')
    decreases n
  {
    if n < radix then
      DigitValueOfChar(n);
      [DigitChar(n)]
    else
      DivModBounds(n, radix);
      DigitValueOfChar(n % radix);
      ToRadixString(n / radix, radix) + [DigitChar(n % radix)]
  }

  /** `n.toString()`: the decimal digits of a non-negative integer. */
  function DecimalString(n: nat): (r: string)
    ensures 1 <= |r|
    ensures forall i :: 0 <= i < |r| ==> '0' <= r[i] <= '9'
    ensures RadixValue(r, 10) == n
    ensures n >= 1 ==> r[0] != '0'
  {
    RadixValueOfToRadixString(n, 10);
    ToRadixString(n, 10)
  }

  /** The value of a digit string in the given radix, most significant digit
      first (it is only applied to strings of digits of that radix). */
  function RadixValue(s: string, radix: nat): nat {
    if s == [] then 0
    else RadixValue(s[..|s| - 1], radix) * radix + DigitValue(s[|s| - 1])
  }

  /** Reading back what `toString(radix)` wrote gives the number. */
  lemma {:induction false} RadixValueOfToRadixString(n: nat, radix: nat)
    requires 2 <= radix <= 36
    ensures RadixValue(ToRadixString(n, radix), radix) == n
    decreases n
  {
    if n < radix {
      DigitValueOfChar(n);
      assert ToRadixString(n, radix) == [DigitChar(n)];
      assert [DigitChar(n)][..0] == [];
    } else {
      var q, m := n / radix, n % radix;
      DivModBounds(n, radix);
      var p := ToRadixString(q, radix);
      var r := p + [DigitChar(m)];
      assert ToRadixString(n, radix) == r;
      assert r[..|r| - 1] == p;
      DigitValueOfChar(m);
      RadixValueOfToRadixString(q, radix);
      assert RadixValue(r, radix) == RadixValue(p, radix) * radix + DigitValue(DigitChar(m));
    }
  }

  /** Different numbers get different decimal strings, so a decimal string
      identifies its number. */
  lemma DecimalStringInjective(m: nat, n: nat)
    ensures DecimalString(m) == DecimalString(n) <==> m == n
  {
    RadixValueOfToRadixString(m, 10);
    RadixValueOfToRadixString(n, 10);
  }

  // ---------------------------------------------------------------------
  // String.prototype.padStart

  /** `s.padStart(width, fill)` with a one-character fill string. */
  function PadStart(s: string, width: nat, fill: char): (r: string)
    ensures |r| == if |s| < width then width else |s|
    ensures r[|r| - |s|..] == s
    ensures forall i :: 0 <= i < |r| - |s| ==> r[i] == fill
  {
    if |s| < width then seq(width - |s|, _ => fill) + s else s
  }

  // ---------------------------------------------------------------------
  // Whitespace, as parseInt trims it and as `.` in a regular expression excludes it

  /** ECMAScript LineTerminator. */
  predicate IsLineTerminator(c: char) {
    c == '\n' || c == '\r' || c == '\U{2028}' || c == '\U{2029}'
  }

  /** ECMAScript WhiteSpace or LineTerminator: what `parseInt` strips first. */
  predicate IsTrimmable(c: char) {
    || IsLineTerminator(c)
    || c == '\t' || c == '\U{000B}' || c == '\U{000C}' || c == ' '
    || c == '\U{00A0}' || c == '\U{FEFF}' || c == '\U{1680}'
    || ('\U{2000}' <= c <= '\U{200A}')
    || c == '\U{202F}' || c == '\U{205F}' || c == '\U{3000}'
  }

  /** The number of leading characters `parseInt` skips. */
  function LeadingTrimmable(s: string): (k: nat)
    ensures k <= |s|
    ensures forall i :: 0 <= i < k ==> IsTrimmable(s[i])
    ensures k < |s| ==> !IsTrimmable(s[k])
  {
    if s != [] && IsTrimmable(s[0]) then 1 + LeadingTrimmable(s[1..]) else 0
  }

  /** The string without its leading white space. */
  function TrimStart(s: string): (r: string)
    ensures |r| <= |s| && r == s[|s| - |r|..]
    ensures r != [] ==> !IsTrimmable(r[0])
    ensures forall i :: 0 <= i < |s| - |r| ==> IsTrimmable(s[i])
  {
    s[LeadingTrimmable(s)..]
  }

  // ---------------------------------------------------------------------
  // parseInt(s, 16)

  /** The length of the longest prefix of `s` made of digits of the radix. */
  function LeadingDigits(s: string, radix: nat): (k: nat)
    ensures k <= |s|
    ensures forall i :: 0 <= i < k ==> IsDigitIn(s[i], radix)
    ensures k < |s| ==> !IsDigitIn(s[k], radix)
  {
    if s != [] && IsDigitIn(s[0], radix) then 1 + LeadingDigits(s[1..], radix) else 0
  }

  /** `parseInt(s, 16)`: skip leading white space, take an optional sign and
      an optional `0x`/`0X` prefix, then read the longest run of hexadecimal
      digits; no digit at all gives NaN. */
  function ParseIntHex(s: string): (r: Number)
    ensures TrimStart(s) == [] ==> r == NaN
    ensures TrimStart(s) != [] && DigitValue(TrimStart(s)[0]) >= 16 && TrimStart(s)[0] != '-' && TrimStart(s)[0] != '+' ==> r == NaN
    ensures r.Num? && r.value < 0 ==> TrimStart(s)[0] == '-'
    ensures |s| >= 1 && IsHexDigit(s[0]) && !(|s| >= 2 && s[0] == '0' && (s[1] == 'x' || s[1] == 'X')) ==>
      r.Num? && r.value >= DigitValue(s[0])
  {
    var t := TrimStart(s);
    var negative := t != [] && t[0] == '-';
    var u := if t != [] && (t[0] == '-' || t[0] == '+') then t[1..] else t;
    var w := if |u| >= 2 && u[0] == '0' && (u[1] == 'x' || u[1] == 'X') then u[2..] else u;
    var k := LeadingDigits(w, 16);
    if k == 0 then NaN
    else
      var v: int := RadixValue(w[..k], 16);
      RadixValueAtLeastFirst(w[..k], 16);
      Num(if negative then -v else v)
  }

  /** A digit string is worth at least its leading digit. */
  lemma {:induction false} RadixValueAtLeastFirst(s: string, radix: nat)
    requires |s| >= 1 && radix >= 1
    ensures RadixValue(s, radix) >= DigitValue(s[0])
  {
    if |s| > 1 {
      var init := s[..|s| - 1];
      RadixValueAtLeastFirst(init, radix);
      assert init[0] == s[0];
      var a := RadixValue(init, radix);
      assert RadixValue(s, radix) == a * radix + DigitValue(s[|s| - 1]);
      ScaleAtLeast(a, radix);
    }
  }

  lemma ScaleAtLeast(a: nat, b: nat)
    requires b >= 1
    ensures a * b >= a
  {
    assert a * b == a * (b - 1) + a;
  }

  /** Two hexadecimal digits parse to the byte they spell, high digit first. */
  lemma ParseTwoHexDigits(hi: char, lo: char, v: int)
    requires IsHexDigit(hi) && IsHexDigit(lo)
    requires v == 16 * DigitValue(hi) + DigitValue(lo)
    ensures ParseIntHex([hi, lo]) == Num(v)
  {
    var s := [hi, lo];
    assert !IsTrimmable(hi) && hi != '-' && hi != '+';
    assert lo != 'x' && lo != 'X';
    assert TrimStart(s) == s;
    assert s[1..][1..] == [];
    assert LeadingDigits(s, 16) == 2;
    assert s[..2] == s;
    assert s[..1] == [hi] && [hi][..0] == [];
    assert RadixValue([hi], 16) == DigitValue(hi);
    assert RadixValue(s, 16) == 16 * DigitValue(hi) + DigitValue(lo);
  }

  // ---------------------------------------------------------------------
  // String.prototype.split and toUpperCase

  /** `s.split(sep)` for a one-character separator. */
  function Split(s: string, sep: char): (parts: seq<string>)
    ensures |parts| >= 1
  {
    if s == [] then [""]
    else
      var init := Split(s[..|s| - 1], sep);
      var c := s[|s| - 1];
      if c == sep then init + [""]
      else init[..|init| - 1] + [init[|init| - 1] + [c]]
  }

  /** The parts joined back with the separator. */
  function Join(parts: seq<string>, sep: char): string
    requires |parts| >= 1
  {
    if |parts| == 1 then parts[0] else Join(parts[..|parts| - 1], sep) + [sep] + parts[|parts| - 1]
  }

  /** How often `c` occurs in `s`. */
  function Count(s: string, c: char): nat {
    if s == [] then 0 else Count(s[..|s| - 1], c) + (if s[|s| - 1] == c then 1 else 0)
  }

  lemma {:induction false} CountZero(s: string, c: char)
    ensures Count(s, c) == 0 <==> c !in s
  {
    if s != [] {
      CountZero(s[..|s| - 1], c);
      assert s == s[..|s| - 1] + [s[|s| - 1]];
    }
  }

  /** Appending a character to the last part appends it to the join. */
  lemma JoinExtendLast(parts: seq<string>, c: char, sep: char)
    requires |parts| >= 1
    ensures Join(parts[..|parts| - 1] + [parts[|parts| - 1] + [c]], sep) == Join(parts, sep) + [c]
  {
    var n := |parts|;
    var ext := parts[..n - 1] + [parts[n - 1] + [c]];
    if n > 1 {
      assert ext[..n - 1] == parts[..n - 1];
    }
  }

  /** Splitting on `sep` is undone by joining with `sep`. */
  lemma {:induction false} SplitJoin(s: string, sep: char)
    ensures Join(Split(s, sep), sep) == s
  {
    if s != [] {
      var init := Split(s[..|s| - 1], sep);
      SplitJoin(s[..|s| - 1], sep);
      var c := s[|s| - 1];
      assert s == s[..|s| - 1] + [c];
      if c == sep {
        var parts := init + [""];
        assert parts[..|parts| - 1] == init;
      } else {
        JoinExtendLast(init, c, sep);
      }
    }
  }

  /** No part of a split holds the separator. */
  lemma {:induction false} SplitPartsFree(s: string, sep: char)
    ensures forall i :: 0 <= i < |Split(s, sep)| ==> sep !in Split(s, sep)[i]
  {
    if s != [] {
      SplitPartsFree(s[..|s| - 1], sep);
    }
  }

  /** A split has one part more than there are separators. */
  lemma {:induction false} SplitCount(s: string, sep: char)
    ensures |Split(s, sep)| == Count(s, sep) + 1
  {
    if s != [] {
      SplitCount(s[..|s| - 1], sep);
    }
  }

  /** `toUpperCase` on the ASCII letters; every other character is kept. */
  function ToUpperAscii(s: string): (r: string)
    ensures |r| == |s|
    ensures forall i :: 0 <= i < |s| ==> 'a' <= s[i] <= 'z' ==> r[i] == (s[i] as int - 32) as char
    ensures forall i :: 0 <= i < |s| ==> !('a' <= s[i] <= 'z') ==> r[i] == s[i]
  {
    seq(|s|, i requires 0 <= i < |s| => if 'a' <= s[i] <= 'z' then (s[i] as int - 32) as char else s[i])
  }
}
