/** The slice of JavaScript's runtime the bridge leans on: numbers that may be
    NaN, `Number.prototype.toString(16)`, `parseInt(s, 16)`, `Number(s)` on
    integer literals, `String.prototype.includes` and `trim`, and the
    character classes of its regular expressions (`\s`, `\w`, `.`). */
module Js {
  import opened Wrappers

  /** A JavaScript number as the bridge uses it: an integer, or NaN. Addresses
      and offsets are unbounded here; doubles above 2^53 are not modelled. */
  datatype Number = Int(v: int) | NaN

  /** `a + b` on numbers: NaN absorbs. */
  function Add(a: Number, b: int): (r: Number)
    ensures r.NaN? <==> a.NaN?
    ensures a.Int? ==> r.v - b == a.v
  {
    match a
    case Int(x) => Int(x + b)
    case NaN => NaN
  }

  /** `a + b` on two numbers. */
  function Sum(a: Number, b: Number): (r: Number)
    ensures r.NaN? <==> a.NaN? || b.NaN?
    ensures r.Int? ==> r.v == a.v + b.v
  {
    match b
    case Int(y) => Add(a, y)
    case NaN => NaN
  }

  // ---------------------------------------------------------------------------
  // Character classes

  /** The `\s` class (white space and line terminators). */
  predicate IsSpace(c: char) {
    var n := c as int;
    n == 0x20 || (0x09 <= n <= 0x0D) || n == 0xA0 || n == 0x1680
    || (0x2000 <= n <= 0x200A) || n == 0x2028 || n == 0x2029
    || n == 0x202F || n == 0x205F || n == 0x3000 || n == 0xFEFF
  }

  /** The line terminators: `.` does not match them, and `^`/`$` under the
      `m` flag match next to them. */
  predicate IsLineTerminator(c: char) {
    var n := c as int;
    n == 0x0A || n == 0x0D || n == 0x2028 || n == 0x2029
  }

  /** The `\w` class: ASCII letters, digits and underscore. */
  predicate IsWordChar(c: char) {
    ('a' <= c <= 'z') || ('A' <= c <= 'Z') || ('0' <= c <= '9') || c == '_'
  }

  predicate IsHexDigit(c: char) {
    ('0' <= c <= '9') || ('a' <= c <= 'f') || ('A' <= c <= 'F')
  }

  /** The value of a hexadecimal digit, either case. */
  function DigitValue(c: char): (d: nat)
    requires IsHexDigit(c)
    ensures d < 16
    ensures '0' <= c <= '9' <==> d < 10
  {
    if '0' <= c <= '9' then (c as int) - ('0' as int)
    else if 'a' <= c <= 'f' then (c as int) - ('a' as int) + 10
    else (c as int) - ('A' as int) + 10
  }

  /** A digit of the given radix (10 or 16). */
  predicate IsDigitIn(c: char, radix: nat) {
    IsHexDigit(c) && DigitValue(c) < radix
  }

  /** The lower-case digit `toString` prints for `d`. */
  function DigitChar(d: nat): (c: char)
    requires d < 16
    ensures IsHexDigit(c) && IsWordChar(c) && DigitValue(c) == d
    ensures !IsSpace(c) && c != 'x' && c != 'X' && c != '-' && c != '`'
  {
    if d < 10 then ((d + '0' as int) as char) else ((d - 10 + 'a' as int) as char)
  }

  predicate AllDigitsIn(s: string, radix: nat) {
    forall i :: 0 <= i < |s| ==> IsDigitIn(s[i], radix)
  }

  // ---------------------------------------------------------------------------
  // Rendering integers: `n.toString(16)` and `${n}`

  /** The digits of `n` in `radix`, most significant first, without leading zeros. */
  function Digits(n: nat, radix: nat): (s: string)
    requires 2 <= radix <= 16
    ensures |s| >= 1 && AllDigitsIn(s, radix)
    ensures forall i :: 0 <= i < |s| ==> IsWordChar(s[i]) && !IsSpace(s[i]) && s[i] != '-' && s[i] != '`'
    decreases n
  {
    if n < radix then [DigitChar(n)]
    else
      DivisionShrinks(n, radix);
      DivisionIdentity(n, radix);
      var p := Digits(n / radix, radix);
      var c := DigitChar(n % radix);
      assert forall i :: 0 <= i < |p| + 1 ==> (p + [c])[i] == if i < |p| then p[i] else c;
      p + [c]
  }

  /** `n.toString(radix)` for an integer `n`. */
  function IntToString(n: int, radix: nat): string
    requires 2 <= radix <= 16
  {
    if n < 0 then "-" + Digits(-n, radix) else Digits(n, radix)
  }

  /** `n.toString(16)`: how the bridge renders every address it sends. */
  function ToHex(n: int): string {
    IntToString(n, 16)
  }

  /** `n.toString(16)` for any number, NaN included. */
  function NumberToHex(n: Number): string {
    match n
    case Int(x) => ToHex(x)
    case NaN => "NaN"
  }

  /** `${n}` / `String(n)` for any number. */
  function NumberToDecimal(n: Number): string {
    match n
    case Int(x) => IntToString(x, 10)
    case NaN => "NaN"
  }

  // ---------------------------------------------------------------------------
  // Parsing integers: `parseInt(s, 16)` and `Number(s)`

  /** The value of a digit string, read most significant digit first. */
  function DigitsValue(s: string, radix: nat): nat
    requires 2 <= radix <= 16 && AllDigitsIn(s, radix)
  {
    if |s| == 0 then 0 else DigitsValue(s[..|s| - 1], radix) * radix + DigitValue(s[|s| - 1])
  }

  /** Length of the longest prefix of `s` made of hexadecimal digits. */
  function HexPrefixLength(s: string): (k: nat)
    ensures k <= |s|
    ensures forall i :: 0 <= i < k ==> IsHexDigit(s[i])
    ensures k < |s| ==> !IsHexDigit(s[k])
  {
    if |s| == 0 || !IsHexDigit(s[0]) then 0 else 1 + HexPrefixLength(s[1..])
  }

  /** `s` without its leading white space. */
  function TrimStart(s: string): (t: string)
    ensures |t| <= |s| && t == s[|s| - |t|..]
    ensures |t| > 0 ==> !IsSpace(t[0])
    ensures forall k :: 0 <= k < |s| - |t| ==> IsSpace(s[k])
  {
    if |s| > 0 && IsSpace(s[0]) then TrimStart(s[1..]) else s
  }

  /** `parseInt(s, 16)`: skip leading white space, take an optional sign and an
      optional `0x`/`0X`, then the longest run of hexadecimal digits; NaN when
      that run is empty. */
  function ParseHex(s: string): Number {
    var t := TrimStart(s);
    if |t| > 0 && t[0] == '-' then Negate(UnsignedHex(t[1..]))
    else if |t| > 0 && t[0] == '+' then UnsignedHex(t[1..])
    else UnsignedHex(t)
  }

  function Negate(n: Number): Number {
    match n
    case Int(x) => Int(-x)
    case NaN => NaN
  }

  /** The unsigned part of `parseInt(_, 16)`, after the sign. */
  function UnsignedHex(u: string): Number {
    var w := if |u| >= 2 && u[0] == '0' && (u[1] == 'x' || u[1] == 'X') then u[2..] else u;
    var k := HexPrefixLength(w);
    if k == 0 then NaN else Int(DigitsValue(w[..k], 16))
  }

  /** `Number(token)` where `token` is an optional sign followed by decimal
      digits; `None` for every other token, whose decimal reading (fractions,
      exponents, `Infinity`, ...) this model leaves uninterpreted. */
  function DecimalInteger(token: string): Option<int> {
    var negative := |token| > 0 && token[0] == '-';
    var body := if |token| > 0 && (token[0] == '-' || token[0] == '+') then token[1..] else token;
    if |body| == 0 || !AllDigitsIn(body, 10) then None
    else
      var magnitude: int := DigitsValue(body, 10);
      Some(if negative then -magnitude else magnitude)
  }

  lemma {:induction false} DigitsValueOfDigits(n: nat, radix: nat)
    requires 2 <= radix <= 16
    ensures DigitsValue(Digits(n, radix), radix) == n
    decreases n
  {
    if n >= radix {
      var q, r := n / radix, n % radix;
      var s := Digits(n, radix);
      DivisionShrinks(n, radix);
      DigitsValueOfDigits(q, radix);
      assert s == Digits(q, radix) + [DigitChar(r)];
      assert s[..|s| - 1] == Digits(q, radix);
      assert DigitsValue(s, radix) == q * radix + r;
      DivisionIdentity(n, radix);
    }
  }

  lemma DivisionIdentity(n: nat, radix: nat)
    requires radix > 0
    ensures (n / radix) * radix + n % radix == n
    ensures 0 <= n % radix < radix
  {
  }

  lemma DivisionShrinks(n: nat, radix: nat)
    requires 2 <= radix <= n
    ensures 1 <= n / radix < n
  {
    DivisionIdentity(n, radix);
    var q := n / radix;
    ScaledAtLeastTwice(q, radix);
  }

  /** `q * radix` is at least `2q`, and positive exactly when `q` is. */
  lemma ScaledAtLeastTwice(q: nat, radix: nat)
    requires radix >= 2
    ensures q * radix >= 2 * q
    ensures q * radix > 0 <==> q > 0
  {
    var e := q * (radix - 2);
    assert q * radix == 2 * q + e;
  }

  lemma HexPrefixOfHexDigits(s: string)
    requires AllDigitsIn(s, 16)
    ensures HexPrefixLength(s) == |s|
  {
    if |s| > 0 {
      HexPrefixOfHexDigits(s[1..]);
    }
  }

  /** `parseInt` reads back a run of hexadecimal digits in full. */
  lemma {:induction false} UnsignedHexOfDigits(d: string)
    requires |d| >= 1 && AllDigitsIn(d, 16)
    ensures UnsignedHex(d) == Int(DigitsValue(d, 16))
  {
    HexPrefixOfHexDigits(d);
    assert d[..|d|] == d;
    if |d| >= 2 {
      assert IsDigitIn(d[1], 16);
    }
  }

  /** `parseInt` reads a run of hexadecimal digits and stops at the first
      character that cannot continue it. */
  lemma {:induction false} ParseHexOfDigits(d: string, rest: string)
    requires |d| >= 1 && AllDigitsIn(d, 16)
    requires |rest| == 0 || (!IsHexDigit(rest[0]) && rest[0] != 'x' && rest[0] != 'X')
    ensures ParseHex(d + rest) == Int(DigitsValue(d, 16))
  {
    var s := d + rest;
    assert s[0] == d[0];
    HexDigitIsPlain(d[0]);
    assert TrimStart(s) == s;
    assert ParseHex(s) == UnsignedHex(s);
    assert |s| >= 2 ==> s[1] != 'x' && s[1] != 'X' by {
      if |s| >= 2 && |d| >= 2 {
        assert s[1] == d[1];
        HexDigitIsPlain(d[1]);
      } else if |s| >= 2 {
        assert s[1] == rest[0];
      }
    }
    HexPrefixOfDigitsThen(d, rest);
    assert UnsignedHex(s) == Int(DigitsValue(s[..|d|], 16));
    assert s[..|d|] == d;
  }

  /** `parseInt(s, 16)` is NaN when `s` starts with a character that is
      neither white space, a sign nor a hexadecimal digit. */
  lemma ParseHexOfNonDigit(s: string)
    requires |s| >= 1 && !IsSpace(s[0]) && !IsHexDigit(s[0]) && s[0] != '-' && s[0] != '+'
    ensures ParseHex(s) == NaN
  {
    assert TrimStart(s) == s;
    assert HexPrefixLength(s) == 0;
  }

  /** A hexadecimal digit is neither white space, a sign nor an `x`. */
  lemma HexDigitIsPlain(c: char)
    requires IsHexDigit(c)
    ensures !IsSpace(c) && c != '-' && c != '+' && c != 'x' && c != 'X'
  {
  }

  lemma {:induction false} HexPrefixOfDigitsThen(d: string, rest: string)
    requires AllDigitsIn(d, 16)
    requires |rest| == 0 || !IsHexDigit(rest[0])
    ensures HexPrefixLength(d + rest) == |d|
    decreases |d|
  {
    if |d| > 0 {
      assert (d + rest)[1..] == d[1..] + rest;
      HexPrefixOfDigitsThen(d[1..], rest);
    } else {
      assert d + rest == rest;
    }
  }

  lemma DigitsAppend(a: string, b: string, radix: nat)
    requires AllDigitsIn(a, radix) && AllDigitsIn(b, radix)
    ensures AllDigitsIn(a + b, radix)
  {
    assert forall i :: |a| <= i < |a + b| ==> (a + b)[i] == b[i - |a|];
  }

  /** Appending digits multiplies the value read so far by the radix at least once. */
  lemma {:induction false} DigitsValueGrows(a: string, b: string, radix: nat)
    requires 2 <= radix <= 16 && AllDigitsIn(a, radix) && AllDigitsIn(b, radix) && |b| >= 1
    ensures AllDigitsIn(a + b, radix)
    ensures DigitsValue(a + b, radix) >= DigitsValue(a, radix) * radix
    decreases |b|
  {
    var s := a + b;
    var p := b[..|b| - 1];
    assert s[..|s| - 1] == a + p;
    assert AllDigitsIn(a + p, radix);
    var x := DigitsValue(a + p, radix);
    assert DigitsValue(s, radix) == x * radix + DigitValue(s[|s| - 1]);
    if |b| > 1 {
      DigitsValueGrows(a, p, radix);
      NoSmallerWhenScaled(x, radix);
    } else {
      assert a + p == a;
    }
  }

  lemma NoSmallerWhenScaled(x: nat, radix: nat)
    requires radix >= 1
    ensures x * radix >= x
  {
  }

  /** `parseInt(n.toString(16), 16) === n`: the address rendering and the value
      parsing the bridge uses are inverse on integers. */
  lemma {:induction false} ParseHexOfToHex(n: int)
    ensures ParseHex(ToHex(n)) == Int(n)
  {
    if n < 0 {
      ParseHexOfNegative(n);
    } else {
      ParseHexOfNonNegative(n);
    }
  }

  lemma {:induction false} ParseHexOfNegative(n: int)
    requires n < 0
    ensures ParseHex(ToHex(n)) == Int(n)
  {
    var d := Digits(-n, 16);
    DigitsValueOfDigits(-n, 16);
    UnsignedHexOfDigits(d);
    var h := ToHex(n);
    assert h == "-" + d;
    assert h[0] == '-' && !IsSpace(h[0]);
    assert TrimStart(h) == h;
    assert h[1..] == d;
    assert UnsignedHex(h[1..]) == Int(-n);
    assert ParseHex(h) == Negate(UnsignedHex(h[1..]));
  }

  lemma {:induction false} ParseHexOfNonNegative(n: nat)
    ensures ParseHex(ToHex(n)) == Int(n)
  {
    var d := Digits(n, 16);
    assert ToHex(n) == d;
    DigitsValueOfDigits(n, 16);
    ParseHexOfDigitRun(d);
  }

  /** `parseInt` reads a run of hexadecimal digits in full. */
  lemma ParseHexOfDigitRun(d: string)
    requires |d| >= 1 && AllDigitsIn(d, 16)
    ensures ParseHex(d) == Int(DigitsValue(d, 16))
  {
    ParseHexOfDigits(d, "");
    assert d + "" == d;
  }

  /** `Number(String(n)) === n` on integers. */
  lemma {:induction false} DecimalIntegerOfDecimal(n: int)
    ensures DecimalInteger(NumberToDecimal(Int(n))) == Some(n)
  {
    var m := if n < 0 then -n else n;
    DigitsValueOfDigits(m, 10);
    if n < 0 {
      assert NumberToDecimal(Int(n))[1..] == Digits(m, 10);
    }
  }

  /** Leading zeros do not change a digit string's value. */
  lemma {:induction false} DigitsValueLeadingZero(s: string, radix: nat)
    requires 2 <= radix <= 16 && AllDigitsIn(s, radix)
    ensures AllDigitsIn("0" + s, radix) && DigitsValue("0" + s, radix) == DigitsValue(s, radix)
    decreases |s|
  {
    if |s| > 0 {
      DigitsValueLeadingZero(s[..|s| - 1], radix);
      assert ("0" + s)[..|s|] == "0" + s[..|s| - 1];
    }
  }

  // ---------------------------------------------------------------------------
  // Strings

  /** `s.includes(sub)`. */
  predicate Includes(s: string, sub: string)
    decreases |s|
  {
    sub <= s || (|s| > 0 && Includes(s[1..], sub))
  }

  lemma {:induction false} IncludesAppend(a: string, b: string, sub: string)
    requires Includes(a, sub)
    ensures Includes(a + b, sub)
    decreases |a|
  {
    if !(sub <= a) {
      IncludesAppend(a[1..], b, sub);
      assert (a + b)[1..] == a[1..] + b;
    }
  }

  /** `sub` occurs in `s` starting at index `i`. */
  predicate OccursAt(s: string, sub: string, i: int) {
    0 <= i <= |s| - |sub| && s[i..i + |sub|] == sub
  }

  /** `s.includes(sub)` holds exactly when `sub` occurs at some position of `s`. */
  lemma {:induction false} IncludesAt(s: string, sub: string)
    ensures Includes(s, sub) <==> exists i :: OccursAt(s, sub, i)
    decreases |s|
  {
    if sub <= s {
      assert OccursAt(s, sub, 0);
    } else if |s| > 0 {
      IncludesAt(s[1..], sub);
      if Includes(s, sub) {
        var i :| OccursAt(s[1..], sub, i);
        assert OccursAt(s, sub, i + 1);
      }
      if exists i :: OccursAt(s, sub, i) {
        var i :| OccursAt(s, sub, i);
        assert i != 0;
        assert s[1..][i - 1..i - 1 + |sub|] == s[i..i + |sub|];
        assert OccursAt(s[1..], sub, i - 1);
      }
    } else {
      assert forall i :: !OccursAt(s, sub, i);
    }
  }

  /** `s` with every occurrence of `c` deleted (`s.replace(/c/g, '')`). */
  function Without(s: string, c: char): (t: string)
    ensures |t| <= |s|
    ensures forall i :: 0 <= i < |t| ==> t[i] != c
    ensures (forall i :: 0 <= i < |s| ==> s[i] != c) ==> t == s
  {
    if |s| == 0 then [] else (if s[0] == c then [] else [s[0]]) + Without(s[1..], c)
  }

  /** Deleting `c` from one character keeps it unless it is `c`. */
  lemma WithoutOne(x: char, c: char)
    ensures Without([x], c) == if x == c then [] else [x]
  {
    assert [x][1..] == [];
  }

  lemma {:induction false} WithoutAppend(a: string, b: string, c: char)
    ensures Without(a + b, c) == Without(a, c) + Without(b, c)
    decreases |a|
  {
    if |a| > 0 {
      var h := if a[0] == c then [] else [a[0]];
      assert (a + b)[0] == a[0];
      assert (a + b)[1..] == a[1..] + b;
      assert Without(a + b, c) == h + Without(a[1..] + b, c);
      WithoutAppend(a[1..], b, c);
      assert Without(a, c) == h + Without(a[1..], c);
      assert h + (Without(a[1..], c) + Without(b, c)) == (h + Without(a[1..], c)) + Without(b, c);
    } else {
      assert a + b == b;
    }
  }

  /** `s.trim()`: both ends stripped of white space and line terminators. */
  function Trim(s: string): (t: string)
    ensures |t| <= |s|
    ensures |t| > 0 ==> !IsSpace(t[0]) && !IsSpace(t[|t| - 1])
    ensures (|s| == 0 || (!IsSpace(s[0]) && !IsSpace(s[|s| - 1]))) ==> t == s
    ensures exists i :: TrimmedAt(s, t, i)
  {
    var u := TrimStart(s);
    var t := TrimEnd(u);
    TrimmedInside(s, u, t);
    t
  }

  /** Stripping a blank prefix to get `u`, then a blank suffix of `u` to get
      `t`, leaves `t` as a slice of `s` between blank ends. */
  lemma TrimmedInside(s: string, u: string, t: string)
    requires |u| <= |s| && u == s[|s| - |u|..]
    requires forall k :: 0 <= k < |s| - |u| ==> IsSpace(s[k])
    requires t <= u && forall k :: |t| <= k < |u| ==> IsSpace(u[k])
    ensures TrimmedAt(s, t, |s| - |u|)
  {
    var i := |s| - |u|;
    assert t == u[..|t|];
    assert s[i..i + |t|] == u[..|t|];
    forall k | i + |t| <= k < |s|
      ensures IsSpace(s[k])
    {
      assert s[k] == u[k - i];
    }
  }

  /** `t` is the slice of `s` starting at `i`, and everything of `s` before and
      after that slice is white space. */
  predicate TrimmedAt(s: string, t: string, i: int) {
    0 <= i <= |s| - |t| && t == s[i..i + |t|] &&
    (forall k :: 0 <= k < i ==> IsSpace(s[k])) &&
    (forall k :: i + |t| <= k < |s| ==> IsSpace(s[k]))
  }

  /** Trimming white space around a word with non-blank ends gives the word. */
  lemma TrimOfPadded(a: string, m: string, b: string)
    requires forall k :: 0 <= k < |a| ==> IsSpace(a[k])
    requires forall k :: 0 <= k < |b| ==> IsSpace(b[k])
    requires |m| >= 1 && !IsSpace(m[0]) && !IsSpace(m[|m| - 1])
    ensures Trim(a + m + b) == m
  {
    var s := a + m + b;
    var t := Trim(s);
    var i :| TrimmedAt(s, t, i);
    SliceBetweenBlanks(a, m, b, t, i);
  }

  /** The only slice of `a + m + b` with non-blank ends and blank surroundings
      is `m`. */
  lemma SliceBetweenBlanks(a: string, m: string, b: string, t: string, i: int)
    requires forall k :: 0 <= k < |a| ==> IsSpace(a[k])
    requires forall k :: 0 <= k < |b| ==> IsSpace(b[k])
    requires |m| >= 1 && !IsSpace(m[0]) && !IsSpace(m[|m| - 1])
    requires TrimmedAt(a + m + b, t, i)
    requires |t| > 0 ==> !IsSpace(t[0]) && !IsSpace(t[|t| - 1])
    ensures t == m
  {
    var s := a + m + b;
    assert s[|a|] == m[0];
    assert s[|a| + |m| - 1] == m[|m| - 1];
    assert |t| > 0;
    assert t[0] == s[i] && t[|t| - 1] == s[i + |t| - 1];
    assert i == |a|;
    assert i + |t| == |a| + |m|;
    assert s[|a|..|a| + |m|] == m;
  }

  function TrimEnd(s: string): (t: string)
    ensures t <= s
    ensures forall k :: |t| <= k < |s| ==> IsSpace(s[k])
    ensures |t| > 0 ==> !IsSpace(t[|t| - 1])
    ensures |s| > 0 && !IsSpace(s[|s| - 1]) ==> t == s
    ensures |s| > 0 && !IsSpace(s[0]) && |t| > 0 ==> !IsSpace(t[0])
  {
    if |s| > 0 && IsSpace(s[|s| - 1]) then TrimEnd(s[..|s| - 1]) else s
  }
}
