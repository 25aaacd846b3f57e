/** The part of JavaScript's string and number semantics that the colour code
    relies on, written out over Dafny strings, integers and exact reals: the
    `[a-f\d]` and `\d` character classes, `toUpperCase`, `trim`, `indexOf`,
    `substring`, `split`, `parseInt`, `String.prototype.match(/\d+/g)`,
    number-to-string conversion, `toString(16)`, `Math.round` and the `%`
    operator. */
module Js {

  datatype Option<+T> = None | Some(value: T)

  // ------------------------------------------------------------------ characters

  /** The class `\d`: ASCII digits only. */
  predicate IsDigit(c: char) { '0' <= c <= '9' }

  /** The class `[a-f\d]` under the flag `i`. */
  predicate IsHexDigit(c: char) { IsDigit(c) || 'a' <= c <= 'f' || 'A' <= c <= 'F' }

  /** A digit as `toString(16)` followed by `toUpperCase()` writes it. */
  predicate IsUpperHexDigit(c: char) { IsDigit(c) || 'A' <= c <= 'F' }

  function DigitValue(c: char): (v: nat)
    requires IsDigit(c)
    ensures v < 10
  {
    c as int - '0' as int
  }

  function HexValue(c: char): (v: nat)
    requires IsHexDigit(c)
    ensures v < 16
  {
    if IsDigit(c) then c as int - '0' as int
    else if 'a' <= c <= 'f' then c as int - 'a' as int + 10
    else c as int - 'A' as int + 10
  }

  function DigitChar(d: nat): (c: char)
    requires d < 10
    ensures IsDigit(c) && DigitValue(c) == d
  {
    ('0' as int + d) as char
  }

  /** The digit `Number.prototype.toString(16)` writes for `n` (lower case). */
  function LowerHexDigit(n: nat): (c: char)
    requires n < 16
    ensures IsHexDigit(c) && HexValue(c) == n
  {
    if n < 10 then ('0' as int + n) as char else ('a' as int + n - 10) as char
  }

  /** `toUpperCase` on one character. Only ASCII letters are mapped: every
      string the colour code upper-cases has been checked to be ASCII first. */
  function UpperChar(c: char): char
  {
    if 'a' <= c <= 'z' then (c as int - 32) as char else c
  }

  function ToUpperCase(s: string): (u: string)
    ensures |u| == |s|
    ensures forall i :: 0 <= i < |s| ==> u[i] == UpperChar(s[i])
  {
    seq(|s|, i requires 0 <= i < |s| => UpperChar(s[i]))
  }

  lemma UpperOfLowerHexDigit(n: nat)
    requires n < 16
    ensures IsUpperHexDigit(UpperChar(LowerHexDigit(n)))
    ensures HexValue(UpperChar(LowerHexDigit(n))) == n
  {
  }

  /** The characters `String.prototype.trim` and `parseInt` skip: WhiteSpace
      and LineTerminator of ECMAScript. */
  predicate IsJsSpace(c: char)
  {
    var n := c as int;
    n == 0x09 || n == 0x0A || n == 0x0B || n == 0x0C || n == 0x0D || n == 0x20
    || n == 0xA0 || n == 0x1680 || (0x2000 <= n <= 0x200A) || n == 0x2028
    || n == 0x2029 || n == 0x202F || n == 0x205F || n == 0x3000 || n == 0xFEFF
  }

  // --------------------------------------------------------------------- strings

  predicate StartsWith(s: string, prefix: string)
  {
    |prefix| <= |s| && s[..|prefix|] == prefix
  }

  function TrimStart(s: string): (t: string)
    ensures |t| <= |s| && t == s[|s| - |t|..]
    ensures t != [] ==> !IsJsSpace(t[0])
    ensures forall i :: 0 <= i < |s| - |t| ==> IsJsSpace(s[i])
  {
    if s != [] && IsJsSpace(s[0]) then
      var t := TrimStart(s[1..]);
      assert s[1..][|s| - 1 - |t|..] == s[|s| - |t|..];
      assert forall i :: 1 <= i < |s| - |t| ==> s[i] == s[1..][i - 1];
      t
    else s
  }

  function TrimEnd(s: string): (t: string)
    ensures |t| <= |s| && t == s[..|t|]
    ensures t != [] ==> !IsJsSpace(t[|t| - 1])
    ensures forall i :: |t| <= i < |s| ==> IsJsSpace(s[i])
  {
    if s != [] && IsJsSpace(s[|s| - 1]) then TrimEnd(s[..|s| - 1]) else s
  }

  /** `String.prototype.trim`. */
  function Trim(s: string): (t: string)
    ensures |t| <= |s|
    ensures t != [] ==> !IsJsSpace(t[0]) && !IsJsSpace(t[|t| - 1])
  {
    TrimEnd(TrimStart(s))
  }

  /** A string that neither starts nor ends with white space is its own trim. */
  lemma TrimOfUnpadded(s: string)
    requires s != [] && !IsJsSpace(s[0]) && !IsJsSpace(s[|s| - 1])
    ensures Trim(s) == s
  {
    assert TrimStart(s) == s;
  }

  lemma TrimStartOfPadding(pad: string, s: string)
    requires forall i :: 0 <= i < |pad| ==> IsJsSpace(pad[i])
    requires s != [] && !IsJsSpace(s[0])
    ensures TrimStart(pad + s) == s
  {
    if pad != [] {
      assert (pad + s)[1..] == pad[1..] + s;
      TrimStartOfPadding(pad[1..], s);
    }
  }

  /** `indexOf` of a single character: -1 when absent, else the first index. */
  function IndexOf(s: string, c: char): (i: int)
    ensures -1 <= i < |s|
    ensures i == -1 <==> c !in s
    ensures 0 <= i ==> s[i] == c && c !in s[..i]
  {
    if s == [] then -1
    else if s[0] == c then 0
    else
      var j := IndexOf(s[1..], c);
      assert s[1..][..j + 1] == s[1..j + 2] by { }
      if j == -1 then -1 else j + 1
  }

  lemma {:induction false} IndexOfAfter(a: string, c: char, b: string)
    requires c !in a
    ensures IndexOf(a + b, c) == if c in b then |a| + IndexOf(b, c) else -1
  {
    if a == [] {
      assert a + b == b;
    } else {
      assert (a + b)[0] == a[0];
      assert (a + b)[1..] == a[1..] + b;
      IndexOfAfter(a[1..], c, b);
    }
  }

  /** `String.prototype.substring`: both ends are clamped into [0, |s|] and
      swapped when the start lies after the end. */
  function Substring(s: string, start: int, end: int): string
  {
    var a := Clamp(start, |s|);
    var b := Clamp(end, |s|);
    if a <= b then s[a..b] else s[b..a]
  }

  function Clamp(x: int, n: nat): (y: nat)
    ensures y <= n
  {
    if x < 0 then 0 else if x > n then n else x
  }

  /** `String.prototype.split` with a one-character separator. */
  function Split(s: string, sep: char): (parts: seq<string>)
    ensures |parts| >= 1
    decreases |s|
  {
    var i := IndexOf(s, sep);
    if i == -1 then [s] else [s[..i]] + Split(s[i + 1..], sep)
  }

  /** The first occurrence is the one with no occurrence before it. */
  lemma IndexOfFirst(s: string, c: char, k: nat)
    requires k < |s| && s[k] == c && c !in s[..k]
    ensures IndexOf(s, c) == k
  {
    assert c in s by { assert s[k] == c; }
    var i := IndexOf(s, c);
    forall j | 0 <= j < i
      ensures s[j] != c
    {
      assert s[..i][j] == s[j];
    }
    forall j | 0 <= j < k
      ensures s[j] != c
    {
      assert s[..k][j] == s[j];
    }
  }

  /** Splitting at the first separator, found at index `k`. */
  lemma SplitAtIndex(s: string, sep: char, k: nat)
    requires k < |s| && s[k] == sep && sep !in s[..k]
    ensures Split(s, sep) == [s[..k]] + Split(s[k + 1..], sep)
  {
    IndexOfFirst(s, sep, k);
  }

  lemma SplitAt(a: string, sep: char, b: string)
    requires sep !in a
    ensures Split(a + [sep] + b, sep) == [a] + Split(b, sep)
  {
    var s := a + [sep] + b;
    assert s[..|a|] == a && s[|a|] == sep;
    IndexOfFirst(s, sep, |a|);
    assert s[|a| + 1..] == b;
  }

  lemma SplitNone(s: string, sep: char)
    requires sep !in s
    ensures Split(s, sep) == [s]
  {
  }

  // --------------------------------------------------------------------- numbers

  predicate AllDigits(s: string)
  {
    forall i :: 0 <= i < |s| ==> IsDigit(s[i])
  }

  predicate NoDigits(s: string)
  {
    forall i :: 0 <= i < |s| ==> !IsDigit(s[i])
  }

  /** The length of the longest prefix of `s` made of decimal digits. */
  function DigitPrefixLen(s: string): (k: nat)
    ensures k <= |s|
    ensures forall i :: 0 <= i < k ==> IsDigit(s[i])
    ensures k < |s| ==> !IsDigit(s[k])
  {
    if s != [] && IsDigit(s[0]) then 1 + DigitPrefixLen(s[1..]) else 0
  }

  lemma {:induction false} DigitPrefixOfRun(a: string, b: string)
    requires AllDigits(a)
    requires b == [] || !IsDigit(b[0])
    ensures DigitPrefixLen(a + b) == |a|
  {
    if a != [] {
      assert (a + b)[1..] == a[1..] + b;
      DigitPrefixOfRun(a[1..], b);
    }
  }

  /** The length of the longest prefix of `s` made of hexadecimal digits. */
  function HexPrefixLen(s: string): (k: nat)
    ensures k <= |s|
    ensures forall i :: 0 <= i < k ==> IsHexDigit(s[i])
  {
    if s != [] && IsHexDigit(s[0]) then 1 + HexPrefixLen(s[1..]) else 0
  }

  function DecimalValue(s: string): nat
    requires AllDigits(s)
  {
    if s == [] then 0 else 10 * DecimalValue(s[..|s| - 1]) + DigitValue(s[|s| - 1])
  }

  function HexNumber(s: string): nat
    requires forall i :: 0 <= i < |s| ==> IsHexDigit(s[i])
  {
    if s == [] then 0 else 16 * HexNumber(s[..|s| - 1]) + HexValue(s[|s| - 1])
  }

  /** `parseInt(s)` without a radix: leading white space is skipped, one sign
      is read, a `0x`/`0X` prefix switches to base 16, and the longest run of
      digits that follows is the value. `None` is `NaN` (no digit at all). */
  function ParseInt(s: string): Option<int>
  {
    ParseSigned(TrimStart(s))
  }

  function ParseSigned(t: string): Option<int>
  {
    if t != [] && t[0] == '-' then
      match ParseUnsigned(t[1..])
      case None => None
      case Some(v) => Some(-v)
    else if t != [] && t[0] == '+' then ParseUnsigned(t[1..])
    else ParseUnsigned(t)
  }

  function ParseUnsigned(u: string): (v: Option<int>)
    ensures v.Some? ==> v.value >= 0
  {
    if |u| >= 2 && u[0] == '0' && (u[1] == 'x' || u[1] == 'X') then
      var k := HexPrefixLen(u[2..]);
      if k == 0 then None else Some(HexNumber(u[2..][..k]))
    else
      var k := DigitPrefixLen(u);
      if k == 0 then None else Some(DecimalValue(u[..k]))
  }

  /** How a JavaScript template literal writes a non-negative integer. */
  function NatToString(n: nat): (s: string)
    ensures s != [] && AllDigits(s)
    ensures |s| > 1 ==> s[0] != '0'
  {
    if n < 10 then [DigitChar(n)] else NatToString(n / 10) + [DigitChar(n % 10)]
  }

  /** How a JavaScript template literal writes an integer. */
  function IntToString(n: int): (s: string)
    ensures s != []
  {
    if n < 0 then "-" + NatToString(-n) else NatToString(n)
  }

  lemma {:induction false} DecimalOfNatToString(n: nat)
    ensures DecimalValue(NatToString(n)) == n
  {
    if n >= 10 {
      var s := NatToString(n);
      assert s[..|s| - 1] == NatToString(n / 10);
      DecimalOfNatToString(n / 10);
    }
  }

  /** `parseInt` reads back what `NatToString` wrote, after any leading
      white space and before any character that is not a digit. */
  lemma ParseIntOfNatToString(pad: string, n: nat, rest: string)
    requires forall i :: 0 <= i < |pad| ==> IsJsSpace(pad[i])
    requires rest == [] || (!IsDigit(rest[0]) && rest[0] != 'x' && rest[0] != 'X')
    ensures ParseInt(pad + NatToString(n) + rest) == Some(n)
  {
    var x := NatToString(n);
    var t := x + rest;
    assert pad + x + rest == pad + t;
    TrimStartOfPadding(pad, t);
    assert t[0] == x[0];
    assert ParseSigned(t) == ParseUnsigned(t);
    ParseUnsignedOfRun(x, rest);
    DecimalOfNatToString(n);
  }

  lemma ParseUnsignedOfRun(x: string, rest: string)
    requires x != [] && AllDigits(x)
    requires rest == [] || (!IsDigit(rest[0]) && rest[0] != 'x' && rest[0] != 'X')
    ensures ParseUnsigned(x + rest) == Some(DecimalValue(x))
  {
    var t := x + rest;
    DigitPrefixOfRun(x, rest);
    if |x| >= 2 {
      assert t[1] == x[1];
    } else if rest != [] {
      assert t[1] == rest[0];
    }
    assert t[..|x|] == x;
  }

  /** `s.match(/\d+/g)`: the maximal runs of decimal digits, in order (the
      empty sequence stands for the `null` that `match` returns). */
  function DigitRuns(s: string): (runs: seq<string>)
    ensures forall i :: 0 <= i < |runs| ==> runs[i] != [] && AllDigits(runs[i])
    decreases |s|
  {
    if s == [] then []
    else if !IsDigit(s[0]) then DigitRuns(s[1..])
    else
      var k := DigitPrefixLen(s);
      [s[..k]] + DigitRuns(s[k..])
  }

  lemma {:induction false} DigitRunsSkip(a: string, b: string)
    requires NoDigits(a)
    ensures DigitRuns(a + b) == DigitRuns(b)
  {
    if a == [] {
      assert a + b == b;
    } else {
      assert (a + b)[0] == a[0];
      assert (a + b)[1..] == a[1..] + b;
      assert DigitRuns(a + b) == DigitRuns(a[1..] + b);
      DigitRunsSkip(a[1..], b);
    }
  }

  lemma DigitRunsTake(a: string, b: string)
    requires a != [] && AllDigits(a)
    requires b == [] || !IsDigit(b[0])
    ensures DigitRuns(a + b) == [a] + DigitRuns(b)
  {
    DigitPrefixOfRun(a, b);
    assert (a + b)[0] == a[0];
    assert (a + b)[..|a|] == a;
    assert (a + b)[|a|..] == b;
  }

  /** `Number.prototype.toString(16)` of a non-negative integer. */
  function ToHexString(n: nat): (s: string)
    ensures s != []
  {
    if n < 16 then [LowerHexDigit(n)] else ToHexString(n / 16) + [LowerHexDigit(n % 16)]
  }

  /** `Math.round`: halves go up. */
  function Round(x: real): int
  {
    (x + 0.5).Floor
  }

  lemma RoundOfInt(n: int)
    ensures Round(n as real) == n
  {
  }

  lemma RoundWithin(x: real, lo: int, hi: int)
    requires lo as real <= x <= hi as real
    ensures lo <= Round(x) <= hi
  {
  }

  /** JavaScript's `%` on integers: the remainder takes the sign of the
      dividend (Dafny's own `%` is Euclidean). */
  function RemInt(a: int, m: int): (r: int)
    requires m > 0
    ensures a >= 0 ==> r == a % m
    ensures a < 0 ==> -m < r <= 0
  {
    if a >= 0 then a % m else -((-a) % m)
  }

  /** The integer part of a real, rounding toward zero. */
  function Trunc(x: real): int
  {
    if x >= 0.0 then x.Floor else -((-x).Floor)
  }

  /** JavaScript's `%` on numbers, for a positive divisor. */
  function RemReal(x: real, m: real): (r: real)
    requires m > 0.0
    ensures x >= 0.0 ==> 0.0 <= r < m
  {
    var r := x - m * (Trunc(x / m) as real);
    RemRealRange(x, m);
    r
  }

  lemma RemRealRange(x: real, m: real)
    requires m > 0.0
    ensures x >= 0.0 ==> 0.0 <= x - m * (Trunc(x / m) as real) < m
  {
    if x >= 0.0 {
      var q := x / m;
      assert m * q == x;
      if q < 0.0 {
        MulStrict(m, q, 0.0);
      }
      var f := q.Floor as real;
      assert Trunc(q) as real == f;
      assert f <= q < f + 1.0;
      MulMono(m, f, q);
      MulStrict(m, q, f + 1.0);
      assert m * (f + 1.0) == m * f + m;
      assert x - m * f < m;
    }
  }

  lemma MulMono(m: real, a: real, b: real)
    requires m > 0.0 && a <= b
    ensures m * a <= m * b
  {
  }

  lemma MulStrict(m: real, a: real, b: real)
    requires m > 0.0 && a < b
    ensures m * a < m * b
  {
  }
}
