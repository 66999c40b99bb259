/**
 * The slice of java.lang the modelled code relies on: two's-complement `int`
 * and `long` narrowing, decimal rendering and parsing of integers
 * (`Long.toString`, `Long.parseLong`), and the `String` methods `trim`,
 * `contains`, `indexOf`, `lastIndexOf`, `split` and `hashCode`.
 *
 * Characters are Dafny `char`s; `isLetterOrDigit` and `toUpperCase` are
 * approximated on ASCII.
 */
module JavaLang {
  import opened Wrappers

  const TWO_32: int := 0x1_0000_0000
  const TWO_64: int := 0x1_0000_0000_0000_0000
  const MIN_INT: int := -0x8000_0000
  const MAX_INT: int := 0x7fff_ffff
  const MIN_LONG: int := -0x8000_0000_0000_0000
  const MAX_LONG: int := 0x7fff_ffff_ffff_ffff

  /** A value of Java's 32-bit `int`. */
  type JInt = x: int | MIN_INT <= x <= MAX_INT

  /** A value of Java's 64-bit `long`. */
  type JLong = x: int | MIN_LONG <= x <= MAX_LONG

  // ---------------------------------------------------------------------
  // Two's-complement arithmetic
  // ---------------------------------------------------------------------

  /** The `int` that Java's wrapping arithmetic yields for the exact value `x`. */
  function Wrap32(x: int): (r: JInt)
    ensures (x - r) % TWO_32 == 0
  {
    var m := x % TWO_32;
    if m > MAX_INT then m - TWO_32 else m
  }

  /** The `long` that Java's wrapping arithmetic yields for the exact value `x`. */
  function Wrap64(x: int): (r: JLong)
    ensures (x - r) % TWO_64 == 0
  {
    var m := x % TWO_64;
    if m > MAX_LONG then m - TWO_64 else m
  }

  /** Two `int`s that agree modulo 2^32 are equal, so `Wrap32` is the only narrowing. */
  lemma Wrap32Unique(x: int, r: JInt)
    requires (x - r) % TWO_32 == 0
    ensures Wrap32(x) == r
  {
    var w := Wrap32(x);
    var d := w - r;
    assert d % TWO_32 == 0 by {
      assert (x - r) - (x - w) == d;
    }
    assert -TWO_32 < d < TWO_32;
  }

  /** Narrowing only depends on the residue modulo 2^32. */
  lemma Wrap32Congruent(x: int, y: int)
    requires (x - y) % TWO_32 == 0
    ensures Wrap32(x) == Wrap32(y)
  {
    var w := Wrap32(y);
    assert (x - w) % TWO_32 == 0 by {
      assert (x - w) == (x - y) + (y - w);
    }
    Wrap32Unique(x, w);
  }

  /** An `int` is left alone by narrowing. */
  lemma Wrap32OfJInt(x: JInt)
    ensures Wrap32(x) == x
  {
    Wrap32Unique(x, x);
  }

  /** An in-range `long` is left alone by narrowing. */
  lemma Wrap64OfJLong(x: JLong)
    ensures Wrap64(x) == x
  {
    var w := Wrap64(x);
    assert -TWO_64 < x - w < TWO_64;
  }

  // ---------------------------------------------------------------------
  // Decimal text
  // ---------------------------------------------------------------------

  predicate IsDigit(c: char) {
    '0' as int <= c as int <= '9' as int
  }

  predicate AllDigits(s: string) {
    forall k :: 0 <= k < |s| ==> IsDigit(s[k])
  }

  function DigitValue(c: char): nat
    requires IsDigit(c)
  {
    (c as int) - ('0' as int)
  }

  function DigitChar(d: nat): (c: char)
    requires d < 10
    ensures IsDigit(c) && DigitValue(c) == d
  {
    (('0' as int) + d) as char
  }

  /** The number a run of decimal digits denotes, most significant digit first. */
  function DecimalValue(s: string): nat
    requires AllDigits(s)
  {
    if |s| == 0 then 0 else 10 * DecimalValue(s[..|s| - 1]) + DigitValue(s[|s| - 1])
  }

  /** The shortest decimal rendering of a natural number (as `Long.toString` writes it). */
  function NatToDecimal(n: nat): (s: string)
    ensures |s| > 0 && AllDigits(s)
    ensures DecimalValue(s) == n
  {
    if n < 10 then
      [DigitChar(n)]
    else
      var p := NatToDecimal(n / 10);
      var s := p + [DigitChar(n % 10)];
      assert s[..|s| - 1] == p;
      s
  }

  /** `Long.toString` / `Integer.toString` / `String.valueOf` of an integer. */
  function LongToString(n: int): (s: string)
    ensures |s| > 0
    ensures s[0] == '-' <==> n < 0
    ensures forall k :: 1 <= k < |s| ==> IsDigit(s[k])
  {
    if n < 0 then "-" + NatToDecimal(-n) else NatToDecimal(n)
  }

  /**
   * `Long.parseLong`: an optional `-` or `+` sign followed by at least one
   * decimal digit, whose value lies in the `long` range; anything else is a
   * `NumberFormatException`, modelled as `None`.
   */
  function ParseLong(s: string): (r: Option<JLong>)
    ensures |s| == 0 ==> r.None?
    ensures r.Some? ==> IsDigit(s[0]) || ((s[0] == '-' || s[0] == '+') && |s| >= 2)
    ensures r.Some? ==> forall k :: 1 <= k < |s| ==> IsDigit(s[k])
    ensures r.Some? && s[0] != '-' ==> r.value >= 0
  {
    if |s| == 0 then None
    else
      var signed := s[0] == '-' || s[0] == '+';
      var digits := if signed then s[1..] else s;
      if |digits| == 0 || !AllDigits(digits) then None
      else
        var v: int := if s[0] == '-' then 0 - DecimalValue(digits) else DecimalValue(digits);
        if MIN_LONG <= v <= MAX_LONG then Some(v) else None
  }

  /** Parsing inverts rendering on the whole `long` range. */
  lemma ParseLongOfLongToString(n: JLong)
    ensures ParseLong(LongToString(n)) == Some(n)
  {
    var s := LongToString(n);
    var m: int := n;
    if m < 0 {
      assert s[1..] == NatToDecimal(-m);
    } else {
      assert IsDigit(s[0]);
    }
  }

  /** An unsigned run of digits parses to the number it denotes, when that fits a `long`. */
  lemma ParseLongOfDigits(s: string)
    requires |s| > 0 && AllDigits(s) && DecimalValue(s) <= MAX_LONG
    ensures ParseLong(s) == Some(DecimalValue(s))
  {
    assert IsDigit(s[0]);
  }

  // ---------------------------------------------------------------------
  // String methods
  // ---------------------------------------------------------------------

  predicate StartsWith(s: string, p: string) {
    |p| <= |s| && s[..|p|] == p
  }

  /** `t` occurs in `s` starting at position `i`. */
  predicate OccursAt(s: string, t: string, i: int) {
    0 <= i && i + |t| <= |s| && s[i..i + |t|] == t
  }

  /** `String.contains`: `t` occurs somewhere in `s`. */
  function Contains(s: string, t: string): (b: bool)
    ensures b <==> exists i :: OccursAt(s, t, i)
    decreases |s|
  {
    if StartsWith(s, t) then
      assert OccursAt(s, t, 0);
      true
    else if |s| <= |t| then
      assert forall i :: OccursAt(s, t, i) ==> i == 0;
      assert !OccursAt(s, t, 0);
      false
    else
      var b := Contains(s[1..], t);
      ShiftOccurrence(s, t);
      b
  }

  /** Occurrences in `s[1..]` are exactly the occurrences in `s` past position 0. */
  lemma ShiftOccurrence(s: string, t: string)
    requires |s| > 0 && !StartsWith(s, t)
    ensures (exists i :: OccursAt(s[1..], t, i)) <==> (exists i :: OccursAt(s, t, i))
  {
    forall i | OccursAt(s[1..], t, i) ensures OccursAt(s, t, i + 1) {
      assert s[1..][i..i + |t|] == s[i + 1..i + 1 + |t|];
    }
    forall i | OccursAt(s, t, i) ensures OccursAt(s[1..], t, i - 1) {
      assert i != 0;
      assert s[1..][i - 1..i - 1 + |t|] == s[i..i + |t|];
    }
  }

  /** `String.indexOf(char)`: the first position holding `c`, or -1. */
  function IndexOf(s: string, c: char): (r: int)
    ensures -1 <= r < |s|
    ensures r >= 0 ==> s[r] == c
    ensures forall k :: 0 <= k < |s| && (r < 0 || k < r) ==> s[k] != c
  {
    if |s| == 0 then -1
    else if s[0] == c then 0
    else
      var r := IndexOf(s[1..], c);
      if r < 0 then -1 else r + 1
  }

  /** `String.lastIndexOf(char)`: the last position holding `c`, or -1. */
  function LastIndexOf(s: string, c: char): (r: int)
    ensures -1 <= r < |s|
    ensures r >= 0 ==> s[r] == c
    ensures forall k :: r < k < |s| ==> s[k] != c
  {
    if |s| == 0 then -1
    else if s[|s| - 1] == c then |s| - 1
    else LastIndexOf(s[..|s| - 1], c)
  }

  /** The text after the last `c`, or all of `s` when it holds none. */
  function AfterLast(s: string, c: char): (r: string)
    ensures |r| <= |s| && c !in r
    decreases |s|
  {
    if |s| == 0 || s[|s| - 1] == c then [] else AfterLast(s[..|s| - 1], c) + [s[|s| - 1]]
  }

  /** `AfterLast` is `s.substring(s.lastIndexOf(c) + 1)`. */
  lemma {:induction false} AfterLastIsSubstring(s: string, c: char)
    ensures AfterLast(s, c) == s[LastIndexOf(s, c) + 1..]
    decreases |s|
  {
    if |s| > 0 && s[|s| - 1] != c {
      var s' := s[..|s| - 1];
      AfterLastIsSubstring(s', c);
      assert s[LastIndexOf(s, c) + 1..] == s'[LastIndexOf(s', c) + 1..] + [s[|s| - 1]];
    }
  }

  /** The first `c` in `a + [c] + rest` is the one placed after `a`, when `a` holds none. */
  lemma {:induction false} IndexOfAfter(a: string, c: char, rest: string)
    requires c !in a
    ensures IndexOf(a + [c] + rest, c) == |a|
    decreases |a|
  {
    var s := a + [c] + rest;
    if |a| > 0 {
      assert s[0] == a[0];
      assert s[1..] == a[1..] + [c] + rest;
      IndexOfAfter(a[1..], c, rest);
    }
  }

  /** The last `c` in `a + [c] + rest` is the one placed before `rest`, when `rest` holds none. */
  lemma {:induction false} LastIndexOfBefore(a: string, c: char, rest: string)
    requires c !in rest
    ensures LastIndexOf(a + [c] + rest, c) == |a|
    decreases |rest|
  {
    var s := a + [c] + rest;
    if |rest| > 0 {
      assert s[|s| - 1] == rest[|rest| - 1];
      assert s[..|s| - 1] == a + [c] + rest[..|rest| - 1];
      LastIndexOfBefore(a, c, rest[..|rest| - 1]);
    }
  }

  /** Decimal digits are neither a sign, a slash, a comma nor a dot. */
  lemma DigitsAreNotPunctuation(s: string)
    requires AllDigits(s)
    ensures '-' !in s && '+' !in s && '/' !in s && ',' !in s && '.' !in s && ' ' !in s
  {
    forall k | 0 <= k < |s| ensures s[k] !in "-+/,. " {
      assert IsDigit(s[k]);
    }
  }

  /** Every piece of `s` between occurrences of `sep`, empty pieces included. */
  function Pieces(s: string, sep: char): (ps: seq<string>)
    ensures |ps| >= 1
    ensures forall k :: 0 <= k < |ps| ==> sep !in ps[k]
    ensures |s| > 0 && s[0] != sep ==> |ps[0]| > 0
    decreases |s|
  {
    var i := IndexOf(s, sep);
    if i < 0 then
      [s]
    else
      var head := s[..i];
      assert sep !in head by {
        forall k | 0 <= k < |head| ensures head[k] != sep {
          assert head[k] == s[k];
        }
      }
      var rest := Pieces(s[i + 1..], sep);
      [head] + rest
  }

  /** Glues pieces back together with `sep` between consecutive ones. */
  function Join(ps: seq<string>, sep: char): string
    requires |ps| >= 1
  {
    if |ps| == 1 then ps[0] else ps[0] + [sep] + Join(ps[1..], sep)
  }

  /** Splitting loses nothing: joining the pieces gives the string back. */
  lemma {:induction false} JoinPieces(s: string, sep: char)
    ensures Join(Pieces(s, sep), sep) == s
    decreases |s|
  {
    var i := IndexOf(s, sep);
    if i >= 0 {
      JoinPieces(s[i + 1..], sep);
      var ps := Pieces(s, sep);
      assert ps[1..] == Pieces(s[i + 1..], sep);
      assert s == s[..i] + [sep] + s[i + 1..];
    }
  }

  /** Drops the empty strings at the end of a piece list. */
  function StripTrailingEmpty(ps: seq<string>): (r: seq<string>)
    ensures |r| <= |ps| && r == ps[..|r|]
    ensures |r| == 0 || r[|r| - 1] != ""
    ensures forall k :: |r| <= k < |ps| ==> ps[k] == ""
  {
    if |ps| == 0 || ps[|ps| - 1] != "" then ps else StripTrailingEmpty(ps[..|ps| - 1])
  }

  /**
   * `String.split(sep)` for a one-character separator: a string without the
   * separator splits into itself (even the empty string); otherwise into its
   * pieces with the trailing empty ones removed.
   */
  function Split(s: string, sep: char): (r: seq<string>)
    ensures |r| <= |Pieces(s, sep)| && r == Pieces(s, sep)[..|r|]
    ensures (|s| == 0 || s[0] != sep) ==> |r| >= 1
    ensures IndexOf(s, sep) < 0 ==> r == [s]
    ensures IndexOf(s, sep) >= 0 ==>
              && (|r| == 0 || r[|r| - 1] != "")
              && forall k :: |r| <= k < |Pieces(s, sep)| ==> Pieces(s, sep)[k] == ""
  {
    if IndexOf(s, sep) < 0 then [s] else StripTrailingEmpty(Pieces(s, sep))
  }

  /** Splitting `a-b` (neither part holding the separator) gives `[a, b]`, or `[a]` when `b` is empty. */
  lemma SplitAround(a: string, sep: char, b: string)
    requires |a| > 0 && sep !in a && sep !in b
    ensures Split(a + [sep] + b, sep) == if b == "" then [a] else [a, b]
  {
    var s := a + [sep] + b;
    IndexOfAfter(a, sep, b);
    assert s[..|a|] == a;
    assert s[|a| + 1..] == b;
    assert Pieces(s, sep) == [a] + Pieces(b, sep);
    assert Pieces(b, sep) == [b];
  }

  /**
   * `r` is `s` with `lo` characters cut from the front and some from the back,
   * every cut character being at or below U+0020.
   */
  predicate IsTrimCut(s: string, r: string, lo: int) {
    && 0 <= lo && lo + |r| <= |s| && s[lo..lo + |r|] == r
    && (forall k :: 0 <= k < lo ==> s[k] <= ' ')
    && (forall k :: lo + |r| <= k < |s| ==> s[k] <= ' ')
  }

  /** `String.trim`: strips characters at or below U+0020 from both ends. */
  function Trim(s: string): (r: string)
    ensures |r| <= |s|
    ensures |r| == 0 || (r[0] > ' ' && r[|r| - 1] > ' ')
    decreases |s|
  {
    if |s| > 0 && s[0] <= ' ' then Trim(s[1..])
    else if |s| > 0 && s[|s| - 1] <= ' ' then Trim(s[..|s| - 1])
    else s
  }

  /** A trimmable first character widens a cut of the rest by one at the front. */
  lemma CutExtendsFront(s: string, r: string, lo: int)
    requires |s| > 0 && s[0] <= ' ' && IsTrimCut(s[1..], r, lo)
    ensures IsTrimCut(s, r, lo + 1)
  {
    var s' := s[1..];
    assert s[lo + 1..lo + 1 + |r|] == s'[lo..lo + |r|];
    forall k | 0 < k < lo + 1 ensures s[k] <= ' ' {
      assert s[k] == s'[k - 1];
    }
    forall k | lo + 1 + |r| <= k < |s| ensures s[k] <= ' ' {
      assert s[k] == s'[k - 1];
    }
  }

  /** A trimmable last character widens a cut of the rest at the back. */
  lemma CutExtendsBack(s: string, r: string, lo: int)
    requires |s| > 0 && s[|s| - 1] <= ' ' && IsTrimCut(s[..|s| - 1], r, lo)
    ensures IsTrimCut(s, r, lo)
  {
    var s' := s[..|s| - 1];
    assert s[lo..lo + |r|] == s'[lo..lo + |r|];
    forall k | 0 <= k < lo ensures s[k] <= ' ' {
      assert s[k] == s'[k];
    }
    forall k | lo + |r| <= k < |s| - 1 ensures s[k] <= ' ' {
      assert s[k] == s'[k];
    }
  }

  /** What `trim` keeps is a contiguous piece of `s`, cut only at trimmable characters. */
  lemma {:induction false} TrimIsCut(s: string)
    ensures exists lo :: IsTrimCut(s, Trim(s), lo)
    decreases |s|
  {
    if |s| > 0 && s[0] <= ' ' {
      TrimIsCut(s[1..]);
      var lo :| IsTrimCut(s[1..], Trim(s), lo);
      CutExtendsFront(s, Trim(s), lo);
    } else if |s| > 0 && s[|s| - 1] <= ' ' {
      TrimIsCut(s[..|s| - 1]);
      var lo :| IsTrimCut(s[..|s| - 1], Trim(s), lo);
      CutExtendsBack(s, Trim(s), lo);
    } else {
      assert s[0..|s|] == s;
      assert IsTrimCut(s, Trim(s), 0);
    }
  }

  /** The cut is unique: only one piece of `s` has untrimmable ends and trimmable surroundings. */
  lemma TrimCutUnique(s: string, r: string, lo: int)
    requires IsTrimCut(s, r, lo)
    requires |r| == 0 || (r[0] > ' ' && r[|r| - 1] > ' ')
    ensures r == Trim(s)
  {
    TrimIsCut(s);
    var t := Trim(s);
    var lo' :| IsTrimCut(s, t, lo');
    if |r| > 0 {
      assert s[lo] == r[0] && s[lo + |r| - 1] == r[|r| - 1];
    }
    if |t| > 0 {
      assert s[lo'] == t[0] && s[lo' + |t| - 1] == t[|t| - 1];
    }
  }

  /** A string with no trimmable character at either end is its own trim. */
  lemma TrimOfTrimmed(s: string)
    requires |s| == 0 || (s[0] > ' ' && s[|s| - 1] > ' ')
    ensures Trim(s) == s
  {
  }

  /** Trimming twice is trimming once. */
  lemma TrimIdempotent(s: string)
    ensures Trim(Trim(s)) == Trim(s)
  {
    TrimOfTrimmed(Trim(s));
  }

  /** The exact polynomial behind `String.hashCode`, before narrowing. */
  function HashPolynomial(s: string): int {
    if |s| == 0 then 0 else 31 * HashPolynomial(s[..|s| - 1]) + (s[|s| - 1] as int)
  }

  /** One step of the hash keeps the wrapped and the exact value congruent modulo 2^32. */
  lemma HashStep(h: int, p: int, c: int)
    requires (p - h) % TWO_32 == 0
    ensures (31 * h + c - (31 * p + c)) % TWO_32 == 0
  {
    var q := (p - h) / TWO_32;
    assert p - h == TWO_32 * q;
    assert 31 * h + c - (31 * p + c) == TWO_32 * (-31 * q);
  }

  /**
   * `String.hashCode`, computed as Java does, one character at a time with
   * `h = 31 * h + c` in wrapping `int` arithmetic.
   */
  function StringHashCode(s: string): (h: JInt)
    ensures h == Wrap32(HashPolynomial(s))
  {
    if |s| == 0 then
      0
    else
      var p := s[..|s| - 1];
      var c := s[|s| - 1] as int;
      var hp := StringHashCode(p);
      HashStep(hp, HashPolynomial(p), c);
      Wrap32Congruent(31 * hp + c, HashPolynomial(s));
      Wrap32(31 * hp + c)
  }

  // ---------------------------------------------------------------------
  // Character classes (ASCII approximation)
  // ---------------------------------------------------------------------

  /** `Character.isLetterOrDigit`, restricted to ASCII. */
  predicate IsLetterOrDigit(c: char) {
    ('a' <= c <= 'z') || ('A' <= c <= 'Z') || IsDigit(c)
  }

  /** `Character.toUpperCase`, restricted to ASCII. */
  function ToUpperCase(c: char): (u: char)
    ensures 'a' <= c <= 'z' ==> 'A' <= u <= 'Z' && (u as int) == (c as int) - 32
    ensures !('a' <= c <= 'z') ==> u == c
  {
    if 'a' <= c <= 'z' then ((c as int) - 32) as char else c
  }
}
