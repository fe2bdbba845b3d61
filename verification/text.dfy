/**
 * String primitives with the ASCII semantics the client (Python) and the worker
 * script (JavaScript) rely on: whitespace stripping, splitting on one character,
 * digit strings, Python's int(), JavaScript's parseInt(), and ASCII case folding.
 */
module Text {
  import opened Options

  // ---------------------------------------------------------------- character classes

  /** Python's `str.isspace()` on one character; `str.strip()` without argument removes exactly these. */
  predicate IsPySpace(c: char) {
    || ('\t' <= c <= '\r')
    || ('\U{1c}' <= c <= '\U{1f}')
    || c == ' '
    || c == '\U{85}'
    || c == '\U{a0}'
    || c == '\U{1680}'
    || ('\U{2000}' <= c <= '\U{200a}')
    || c == '\U{2028}'
    || c == '\U{2029}'
    || c == '\U{202f}'
    || c == '\U{205f}'
    || c == '\U{3000}'
  }

  /** The characters JavaScript's `parseInt` skips before the number (WhiteSpace and LineTerminator). */
  predicate IsJsSpace(c: char) {
    || ('\t' <= c <= '\r')
    || c == ' '
    || c == '\U{a0}'
    || c == '\U{1680}'
    || ('\U{2000}' <= c <= '\U{200a}')
    || c == '\U{2028}'
    || c == '\U{2029}'
    || c == '\U{202f}'
    || c == '\U{205f}'
    || c == '\U{3000}'
    || c == '\U{feff}'
  }

  predicate IsDigit(c: char) {
    '0' <= c <= '9'
  }

  predicate IsHexDigit(c: char) {
    IsDigit(c) || ('a' <= c <= 'f') || ('A' <= c <= 'F')
  }

  /** The character sets the client and the worker script strip or scan for. */
  datatype CharClass = PySpace | JsSpace | Brackets | Digits | HexDigits

  predicate In(c: char, cls: CharClass) {
    match cls
    case PySpace => IsPySpace(c)
    case JsSpace => IsJsSpace(c)
    case Brackets => c == '[' || c == ']'
    case Digits => IsDigit(c)
    case HexDigits => IsHexDigit(c)
  }

  /** Every character of `s` is in `cls`. */
  predicate All(s: string, cls: CharClass) {
    forall k | 0 <= k < |s| :: In(s[k], cls)
  }

  // ---------------------------------------------------------------- stripping

  /** Drops the leading characters in `cls`. */
  function TrimStart(s: string, cls: CharClass): (r: string)
    ensures |r| <= |s|
    ensures r == [] || !In(r[0], cls)
  {
    if s != [] && In(s[0], cls) then TrimStart(s[1..], cls) else s
  }

  /** Drops the trailing characters in `cls`. */
  function TrimEnd(s: string, cls: CharClass): (r: string)
    ensures |r| <= |s|
    ensures r == [] || !In(r[|r| - 1], cls)
  {
    if s != [] && In(s[|s| - 1], cls) then TrimEnd(s[..|s| - 1], cls) else s
  }

  /** TrimStart removes a prefix, and only characters in `cls`. */
  lemma {:induction false} TrimStartIsSuffix(s: string, cls: CharClass)
    ensures var r := TrimStart(s, cls);
      r == s[|s| - |r|..] && All(s[..|s| - |r|], cls)
  {
    if s != [] && In(s[0], cls) {
      TrimStartIsSuffix(s[1..], cls);
      var r := TrimStart(s, cls);
      assert s[|s| - |r|..] == s[1..][|s| - 1 - |r|..];
      forall k | 0 <= k < |s| - |r| ensures In(s[k], cls) {
        if k > 0 { assert s[k] == s[1..][..|s| - 1 - |r|][k - 1]; }
      }
    }
  }

  /** TrimEnd removes a suffix, and only characters in `cls`. */
  lemma {:induction false} TrimEndIsPrefix(s: string, cls: CharClass)
    ensures var r := TrimEnd(s, cls);
      r == s[..|r|] && All(s[|r|..], cls)
  {
    if s != [] && In(s[|s| - 1], cls) {
      var p := s[..|s| - 1];
      TrimEndIsPrefix(p, cls);
      var r := TrimEnd(s, cls);
      assert r == p[..|r|];
      forall k | |r| <= k < |s| ensures In(s[k], cls) {
        if k < |s| - 1 { assert s[k] == p[|r|..][k - |r|]; }
      }
    }
  }

  /** Python's `s.strip(chars)`: removes characters in `cls` at both ends. */
  function StripBy(s: string, cls: CharClass): (r: string)
    ensures |r| <= |s|
    ensures r == [] || (!In(r[0], cls) && !In(r[|r| - 1], cls))
  {
    var t := TrimStart(s, cls);
    TrimEndIsPrefix(t, cls);
    TrimEnd(t, cls)
  }

  /** Python's `s.strip()`. */
  function Strip(s: string): (r: string)
    ensures r == [] || (!IsPySpace(r[0]) && !IsPySpace(r[|r| - 1]))
  {
    StripBy(s, PySpace)
  }

  /** TrimStart removes exactly a prefix in `cls` in front of a character outside it. */
  lemma {:induction false} TrimStartPadded(pre: string, x: string, cls: CharClass)
    requires All(pre, cls)
    requires x == [] || !In(x[0], cls)
    ensures TrimStart(pre + x, cls) == x
  {
    if pre != [] {
      assert (pre + x)[0] == pre[0];
      assert (pre + x)[1..] == pre[1..] + x;
      TrimStartPadded(pre[1..], x, cls);
    } else {
      assert pre + x == x;
    }
  }

  /** TrimEnd removes exactly a suffix in `cls` after a character outside it. */
  lemma {:induction false} TrimEndPadded(x: string, post: string, cls: CharClass)
    requires All(post, cls)
    requires x == [] || !In(x[|x| - 1], cls)
    ensures TrimEnd(x + post, cls) == x
  {
    if post != [] {
      var s := x + post;
      assert s[|s| - 1] == post[|post| - 1];
      assert s[..|s| - 1] == x + post[..|post| - 1];
      TrimEndPadded(x, post[..|post| - 1], cls);
    } else {
      assert x + post == x;
    }
  }

  /** A string entirely in `cls` trims to nothing. */
  lemma {:induction false} TrimStartAll(s: string, cls: CharClass)
    requires All(s, cls)
    ensures TrimStart(s, cls) == []
  {
    if s != [] {
      TrimStartAll(s[1..], cls);
    }
  }

  /** TrimStart reaches the empty string only through characters in `cls`. */
  lemma {:induction false} TrimStartEmpty(s: string, cls: CharClass)
    requires TrimStart(s, cls) == []
    ensures All(s, cls)
  {
    if s != [] {
      TrimStartEmpty(s[1..], cls);
      assert forall k | 1 <= k < |s| :: s[k] == s[1..][k - 1];
    }
  }

  /** TrimEnd keeps a string whose first character is outside `cls` non-empty. */
  lemma {:induction false} TrimEndKeeps(t: string, cls: CharClass)
    requires t != [] && !In(t[0], cls)
    ensures TrimEnd(t, cls) != []
  {
    if |t| > 1 && In(t[|t| - 1], cls) {
      TrimEndKeeps(t[..|t| - 1], cls);
    }
  }

  /** Padding removed by StripBy is exactly the padding: stripping `pre + t + post` gives `t`. */
  lemma StripByPadded(pre: string, t: string, post: string, cls: CharClass)
    requires All(pre, cls) && All(post, cls)
    requires t == [] || (!In(t[0], cls) && !In(t[|t| - 1], cls))
    ensures StripBy(pre + t + post, cls) == t
  {
    var s := pre + t + post;
    if t == [] {
      assert All(s, cls) by {
        forall k | 0 <= k < |s| ensures In(s[k], cls) {
          if k < |pre| { assert s[k] == pre[k]; } else { assert s[k] == post[k - |pre|]; }
        }
      }
      TrimStartAll(s, cls);
    } else {
      assert s == pre + (t + post);
      assert (t + post)[0] == t[0];
      TrimStartPadded(pre, t + post, cls);
      TrimEndPadded(t, post, cls);
    }
  }

  /** Stripping twice is stripping once. */
  lemma StripByIdempotent(s: string, cls: CharClass)
    ensures StripBy(StripBy(s, cls), cls) == StripBy(s, cls)
  {
    var r := StripBy(s, cls);
    StripByPadded([], r, [], cls);
    assert [] + r + [] == r;
  }

  /** The strip is empty exactly when every character is in `cls`. */
  lemma StripByEmpty(s: string, cls: CharClass)
    ensures StripBy(s, cls) == [] <==> All(s, cls)
  {
    var t := TrimStart(s, cls);
    if All(s, cls) {
      TrimStartAll(s, cls);
    }
    if StripBy(s, cls) == [] {
      if t != [] {
        TrimEndKeeps(t, cls);
      }
      TrimStartEmpty(s, cls);
    }
  }

  // ---------------------------------------------------------------- splitting

  /** Python's `s.split(sep)` and JavaScript's `s.split(sep)` for a one-character separator. */
  function Split(s: string, sep: char): (r: seq<string>)
    ensures |r| >= 1
  {
    if s == [] then [[]]
    else
      var rest := Split(s[1..], sep);
      if s[0] == sep then [[]] + rest
      else [[s[0]] + rest[0]] + rest[1..]
  }

  /** Joins the parts with the separator between them. */
  function Join(parts: seq<string>, sep: char): string
    requires |parts| >= 1
  {
    if |parts| == 1 then parts[0] else parts[0] + [sep] + Join(parts[1..], sep)
  }

  /** Join undoes Split: the pieces, glued back with the separator, are the original text. */
  lemma {:induction false} JoinSplit(s: string, sep: char)
    ensures Join(Split(s, sep), sep) == s
  {
    if s != [] {
      var rest := Split(s[1..], sep);
      JoinSplit(s[1..], sep);
      if s[0] == sep {
        assert ([[]] + rest)[1..] == rest;
      } else {
        var r := [[s[0]] + rest[0]] + rest[1..];
        if |rest| > 1 {
          assert r[1..] == rest[1..];
        }
      }
      assert s == [s[0]] + s[1..];
    }
  }

  /** No piece of a split contains the separator. */
  lemma {:induction false} SplitPiecesFree(s: string, sep: char)
    ensures forall k | 0 <= k < |Split(s, sep)| :: sep !in Split(s, sep)[k]
  {
    if s != [] {
      SplitPiecesFree(s[1..], sep);
    }
  }

  /** The pieces of a string whose characters are all in `cls` have only such characters. */
  lemma {:induction false} SplitPiecesAll(s: string, sep: char, cls: CharClass)
    requires All(s, cls)
    ensures forall k | 0 <= k < |Split(s, sep)| :: All(Split(s, sep)[k], cls)
  {
    if s != [] {
      assert All(s[1..], cls) by {
        forall k | 0 <= k < |s[1..]| ensures In(s[1..][k], cls) { assert s[1..][k] == s[k + 1]; }
      }
      SplitPiecesAll(s[1..], sep, cls);
      var rest := Split(s[1..], sep);
      assert All(rest[0], cls);
      assert All([s[0]] + rest[0], cls) by {
        forall k | 0 <= k < |[s[0]] + rest[0]| ensures In(([s[0]] + rest[0])[k], cls) {
          if k > 0 { assert ([s[0]] + rest[0])[k] == rest[0][k - 1]; }
        }
      }
    }
  }

  /** Splitting a separator-free string yields that string alone. */
  lemma {:induction false} SplitNoSeparator(s: string, sep: char)
    requires sep !in s
    ensures Split(s, sep) == [s]
  {
    if s != [] {
      SplitNoSeparator(s[1..], sep);
      assert s == [s[0]] + s[1..];
    }
  }

  /** Splitting distributes over a separator: the pieces of `a`, then those of `b`. */
  lemma {:induction false} SplitAppend(a: string, b: string, sep: char)
    ensures Split(a + [sep] + b, sep) == Split(a, sep) + Split(b, sep)
  {
    var s := a + [sep] + b;
    if a == [] {
      assert s[0] == sep && s[1..] == b;
    } else {
      assert s[0] == a[0];
      assert s[1..] == a[1..] + [sep] + b;
      SplitAppend(a[1..], b, sep);
      var ra := Split(a[1..], sep);
      var rb := Split(b, sep);
      if a[0] == sep {
        assert Split(s, sep) == [[]] + (ra + rb);
      } else {
        assert (ra + rb)[0] == ra[0];
        assert (ra + rb)[1..] == ra[1..] + rb;
        assert Split(s, sep) == [[a[0]] + ra[0]] + (ra[1..] + rb);
      }
    }
  }

  /** Split undoes Join: a list of separator-free parts is recovered from its joined text. */
  lemma {:induction false} SplitJoin(parts: seq<string>, sep: char)
    requires |parts| >= 1
    requires forall k | 0 <= k < |parts| :: sep !in parts[k]
    ensures Split(Join(parts, sep), sep) == parts
  {
    SplitNoSeparator(parts[0], sep);
    if |parts| > 1 {
      SplitJoin(parts[1..], sep);
      SplitAppend(parts[0], Join(parts[1..], sep), sep);
      assert parts == [parts[0]] + parts[1..];
    }
  }

  /** The number of occurrences of `c` in `s`. */
  function Count(s: string, c: char): nat {
    if s == [] then 0 else (if s[0] == c then 1 else 0) + Count(s[1..], c)
  }

  /** A split has one piece more than there are separators. */
  lemma {:induction false} SplitCount(s: string, sep: char)
    ensures |Split(s, sep)| == Count(s, sep) + 1
  {
    if s != [] {
      SplitCount(s[1..], sep);
    }
  }

  /** The first piece of a split is the text before the first separator. */
  lemma {:induction false} SplitHead(s: string, sep: char)
    ensures var h := Split(s, sep)[0];
      |h| <= |s| && h == s[..|h|] && sep !in h && (|h| < |s| ==> s[|h|] == sep)
  {
    if s != [] {
      SplitHead(s[1..], sep);
    }
  }

  /** A separator-free front stays in the first piece. */
  lemma {:induction false} SplitFirst(x: string, y: string, sep: char)
    requires sep !in x
    ensures Split(x + y, sep)[0] == x + Split(y, sep)[0]
  {
    if x != [] {
      assert (x + y)[0] == x[0] && (x + y)[1..] == x[1..] + y;
      SplitFirst(x[1..], y, sep);
      assert x == [x[0]] + x[1..];
    } else {
      assert x + y == y;
    }
  }

  /** JavaScript's `s.lastIndexOf(c)`: -1 when absent. */
  function LastIndexOf(s: string, c: char): (k: int)
    ensures -1 <= k < |s|
    ensures k == -1 <==> c !in s
    ensures k >= 0 ==> s[k] == c && c !in s[k + 1..]
  {
    if s == [] then -1
    else if s[|s| - 1] == c then |s| - 1
    else
      var k := LastIndexOf(s[..|s| - 1], c);
      assert s == s[..|s| - 1] + [s[|s| - 1]];
      assert k >= 0 ==> s[k + 1..] == s[..|s| - 1][k + 1..] + [s[|s| - 1]];
      k
  }

  /** The last `c` of `h + [c] + d` is the one after `h` when `d` has none. */
  lemma {:induction false} LastIndexOfAppend(h: string, d: string, c: char)
    requires c !in d
    ensures LastIndexOf(h + [c] + d, c) == |h|
  {
    var s := h + [c] + d;
    if d != [] {
      var n := |d| - 1;
      assert s[|s| - 1] == d[n];
      assert s[..|s| - 1] == h + [c] + d[..n];
      LastIndexOfAppend(h, d[..n], c);
    }
  }

  /** JavaScript's `s.startsWith(prefix)` and Python's `s.startswith(prefix)`. */
  predicate StartsWith(s: string, prefix: string) {
    |prefix| <= |s| && s[..|prefix|] == prefix
  }

  /** Substring test: Python's `w in s`, JavaScript's `s.includes(w)`. */
  predicate Contains(s: string, w: string) {
    exists i | 0 <= i <= |s| - |w| :: OccursAt(s, w, i)
  }

  predicate OccursAt(s: string, w: string, i: int) {
    0 <= i <= |s| - |w| && s[i..i + |w|] == w
  }

  /** A text that lacks one of the characters of `w` does not contain `w`. */
  lemma MissingCharNotContained(s: string, w: string, j: nat)
    requires j < |w| && w[j] !in s
    ensures !Contains(s, w)
  {
    forall i | 0 <= i <= |s| - |w| ensures !OccursAt(s, w, i) {
      assert s[i..i + |w|][j] == s[i + j];
    }
  }

  // ---------------------------------------------------------------- case

  /** ASCII lower-casing of one character. */
  function LowerChar(c: char): char {
    if 'A' <= c <= 'Z' then (c as int + 32) as char else c
  }

  /** ASCII upper-casing of one character. */
  function UpperChar(c: char): char {
    if 'a' <= c <= 'z' then (c as int - 32) as char else c
  }

  /** `s.lower()` on ASCII letters. */
  function Lower(s: string): (r: string)
    ensures |r| == |s|
  {
    seq(|s|, k requires 0 <= k < |s| => LowerChar(s[k]))
  }

  /** A word of lower-case ASCII letters. */
  predicate IsLowerWord(w: string) {
    forall k | 0 <= k < |w| :: 'a' <= w[k] <= 'z'
  }

  /** `w` occurs in `s` where each letter may appear in either case. */
  predicate ContainsIgnoringCase(s: string, w: string) {
    exists i | 0 <= i <= |s| - |w| :: OccursAtIgnoringCase(s, w, i)
  }

  /** Each letter of `w` matches the text at offset `i` in its own case or upper case. */
  predicate OccursAtIgnoringCase(s: string, w: string, i: int) {
    0 <= i <= |s| - |w| && forall k | 0 <= k < |w| :: s[i + k] == w[k] || s[i + k] == UpperChar(w[k])
  }

  /** Searching the lower-cased text is searching the text ignoring case. */
  lemma LowerContainsIff(s: string, w: string)
    requires IsLowerWord(w)
    ensures Contains(Lower(s), w) <==> ContainsIgnoringCase(s, w)
  {
    var l := Lower(s);
    if Contains(l, w) {
      var i :| 0 <= i <= |l| - |w| && OccursAt(l, w, i);
      forall k | 0 <= k < |w| ensures s[i + k] == w[k] || s[i + k] == UpperChar(w[k]) {
        assert l[i + k] == l[i..i + |w|][k] == w[k];
      }
      assert OccursAtIgnoringCase(s, w, i);
    }
    if ContainsIgnoringCase(s, w) {
      var i :| 0 <= i <= |s| - |w| && OccursAtIgnoringCase(s, w, i);
      assert l[i..i + |w|] == w;
      assert OccursAt(l, w, i);
    }
  }

  // ---------------------------------------------------------------- digits

  /** Python's `s.isdigit()` restricted to ASCII: non-empty and all digits. */
  predicate IsDigits(s: string) {
    s != [] && All(s, Digits)
  }

  function DigitValue(c: char): nat
    requires IsDigit(c)
  {
    c as int - '0' as int
  }

  /** The decimal value of a digit string (leading zeros allowed). */
  function DecimalValue(s: string): nat
    requires All(s, Digits)
  {
    if s == [] then 0 else DecimalValue(s[..|s| - 1]) * 10 + DigitValue(s[|s| - 1])
  }

  /** The shortest decimal spelling of `n`. */
  function NatToString(n: nat): (s: string)
    ensures IsDigits(s) && DecimalValue(s) == n
  {
    var d := ('0' as int + n % 10) as char;
    if n < 10 then [d]
    else
      var p := NatToString(n / 10);
      assert (p + [d])[..|p|] == p;
      p + [d]
  }

  /** The longest prefix of `s` whose characters are in `cls`. */
  function TakeWhile(s: string, cls: CharClass): (r: string)
    ensures |r| <= |s| && r == s[..|r|] && All(r, cls)
    ensures |r| < |s| ==> !In(s[|r|], cls)
  {
    if s != [] && In(s[0], cls) then [s[0]] + TakeWhile(s[1..], cls) else []
  }

  /** TakeWhile keeps a string lying entirely in `cls`. */
  lemma {:induction false} TakeWhileAll(s: string, cls: CharClass)
    requires All(s, cls)
    ensures TakeWhile(s, cls) == s
  {
    if s != [] {
      assert All(s[1..], cls) by {
        forall k | 0 <= k < |s[1..]| ensures In(s[1..][k], cls) { assert s[1..][k] == s[k + 1]; }
      }
      TakeWhileAll(s[1..], cls);
      assert s == [s[0]] + s[1..];
    }
  }

  function HexDigitValue(c: char): nat
    requires IsHexDigit(c)
  {
    if IsDigit(c) then DigitValue(c)
    else if 'a' <= c <= 'f' then c as int - 'a' as int + 10
    else c as int - 'A' as int + 10
  }

  function HexValue(s: string): nat
    requires All(s, HexDigits)
  {
    if s == [] then 0 else HexValue(s[..|s| - 1]) * 16 + HexDigitValue(s[|s| - 1])
  }

  /** `u` begins with a JavaScript hexadecimal prefix `0x` or `0X`. */
  predicate HasHexPrefix(u: string) {
    |u| >= 2 && u[0] == '0' && (u[1] == 'x' || u[1] == 'X')
  }

  /** The text after one optional leading sign. */
  function Unsigned(t: string): string {
    if t != [] && (t[0] == '-' || t[0] == '+') then t[1..] else t
  }

  /**
   * JavaScript's `parseInt(s)` with no radix; None stands for NaN. Leading
   * whitespace and one sign are skipped, a `0x`/`0X` prefix selects base 16,
   * and the longest run of digits is read. Double-precision rounding of very
   * long digit runs is not modelled.
   */
  function JsParseInt(s: string): Option<int> {
    var t := TrimStart(s, JsSpace);
    var negative := t != [] && t[0] == '-';
    var u := Unsigned(t);
    var hex := HasHexPrefix(u);
    var digits := if hex then TakeWhile(u[2..], HexDigits) else TakeWhile(u, Digits);
    if digits == [] then None
    else
      var magnitude: int := if hex then HexValue(digits) else DecimalValue(digits);
      Some(if negative then -magnitude else magnitude)
  }

  /** parseInt reads back a canonical decimal spelling. */
  lemma JsParseIntOfNat(n: nat)
    ensures JsParseInt(NatToString(n)) == Some(n)
  {
    var s := NatToString(n);
    assert IsDigit(s[0]);
    TrimStartPadded([], s, JsSpace);
    assert [] + s == s;
    assert Unsigned(s) == s;
    assert !HasHexPrefix(s) by {
      if |s| >= 2 { assert IsDigit(s[1]); }
    }
    TakeWhileAll(s, Digits);
  }

  /**
   * The body Python's `int()` accepts after the sign: ASCII digits, with single
   * underscores allowed between digits.
   */
  predicate IsUnderscoredDigits(b: string) {
    && b != []
    && IsDigit(b[0])
    && IsDigit(b[|b| - 1])
    && forall k | 0 <= k < |b| :: IsDigit(b[k]) || (b[k] == '_' && k + 1 < |b| && IsDigit(b[k + 1]))
  }

  /** The digits of `b`, underscores removed. */
  function DropUnderscores(b: string): (r: string)
    requires forall k | 0 <= k < |b| :: IsDigit(b[k]) || b[k] == '_'
    ensures All(r, Digits)
  {
    if b == [] then []
    else (if b[0] == '_' then [] else [b[0]]) + DropUnderscores(b[1..])
  }

  lemma {:induction false} DropUnderscoresOfDigits(d: string)
    requires All(d, Digits)
    ensures DropUnderscores(d) == d
  {
    if d != [] {
      assert All(d[1..], Digits) by {
        forall k | 0 <= k < |d[1..]| ensures In(d[1..][k], Digits) { assert d[1..][k] == d[k + 1]; }
      }
      DropUnderscoresOfDigits(d[1..]);
      assert d == [d[0]] + d[1..];
    }
  }

  /**
   * Python's `int(s)` for a string in base 10; None stands for the ValueError.
   * Surrounding whitespace and one sign are accepted. Non-ASCII decimal digits
   * are not modelled.
   */
  function PyInt(s: string): Option<int> {
    var t := Strip(s);
    var negative := t != [] && t[0] == '-';
    var body := Unsigned(t);
    if !IsUnderscoredDigits(body) then None
    else
      var magnitude: int := DecimalValue(DropUnderscores(body));
      Some(if negative then -magnitude else magnitude)
  }

  /** A digit string has no surrounding whitespace to strip. */
  lemma StripOfDigits(d: string)
    requires IsDigits(d)
    ensures Strip(d) == d
  {
    assert IsDigit(d[0]) && IsDigit(d[|d| - 1]);
    StripByPadded([], d, [], PySpace);
    assert [] + d + [] == d;
  }

  /** `int()` reads a plain digit string as its decimal value. */
  lemma PyIntOfDigits(d: string)
    requires IsDigits(d)
    ensures PyInt(d) == Some(DecimalValue(d))
  {
    StripOfDigits(d);
    assert IsDigit(d[0]);
    assert Unsigned(d) == d;
    assert IsUnderscoredDigits(d);
    DropUnderscoresOfDigits(d);
  }
}
