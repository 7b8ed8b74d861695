/**
 Vocabulary shared by the component models: optional values, the bounds of the
 machine integers the daemon uses, and the order Rust gives to strings.
 */
module Common {

  datatype Option<+T> = None | Some(value: T)

  const U32_MAX: nat := 0xFFFF_FFFF
  const U64_MAX: nat := 0xFFFF_FFFF_FFFF_FFFF

  function Max(a: int, b: int): int {
    if a < b then b else a
  }

  function Min(a: int, b: int): int {
    if a < b then a else b
  }

  /** `saturating_add` on a machine integer whose largest value is `max`. */
  function SaturatingAdd(a: nat, b: nat, max: nat): nat {
    Min(a + b, max)
  }

  /** `+ 1` on a `u64` in a release build, where overflow wraps. */
  function WrappingSucc64(a: nat): nat {
    if a == U64_MAX then 0 else a + 1
  }

  // ----- the order of strings

  /** Lexicographic order on strings, with characters ordered by rank. */
  predicate LexLess(rank: char -> int, a: string, b: string)
    decreases |a|
  {
    && b != []
    && (a == [] || rank(a[0]) < rank(b[0]) || (a[0] == b[0] && LexLess(rank, a[1..], b[1..])))
  }

  lemma {:induction false} LexLessIrreflexive(rank: char -> int, a: string)
    ensures !LexLess(rank, a, a)
    decreases |a|
  {
    if a != [] {
      LexLessIrreflexive(rank, a[1..]);
    }
  }

  lemma {:induction false} LexLessTransitive(rank: char -> int, a: string, b: string, c: string)
    requires LexLess(rank, a, b) && LexLess(rank, b, c)
    ensures LexLess(rank, a, c)
    decreases |a|
  {
    if a != [] && a[0] == b[0] == c[0] {
      LexLessTransitive(rank, a[1..], b[1..], c[1..]);
    }
  }

  lemma LexLessAsymmetric(rank: char -> int, a: string, b: string)
    requires LexLess(rank, a, b)
    ensures !LexLess(rank, b, a)
  {
    if LexLess(rank, b, a) {
      LexLessTransitive(rank, a, b, a);
      LexLessIrreflexive(rank, a);
    }
  }

  ghost predicate Injective(rank: char -> int) {
    forall x, y :: rank(x) == rank(y) ==> x == y
  }

  lemma {:induction false} LexLessTotal(rank: char -> int, a: string, b: string)
    requires Injective(rank)
    ensures a == b || LexLess(rank, a, b) || LexLess(rank, b, a)
    decreases |a|
  {
    if a != [] && b != [] && a[0] == b[0] {
      LexLessTotal(rank, a[1..], b[1..]);
      assert a == [a[0]] + a[1..] && b == [b[0]] + b[1..];
    }
  }

  function CodePoint(c: char): int {
    c as int
  }

  /** The order of Rust's `str::cmp`: bytes of UTF-8, and so code points. */
  predicate StrLess(a: string, b: string) {
    LexLess(CodePoint, a, b)
  }

  lemma StrLessIrreflexive(a: string)
    ensures !StrLess(a, a)
  {
    LexLessIrreflexive(CodePoint, a);
  }

  lemma StrLessTransitive(a: string, b: string, c: string)
    requires StrLess(a, b) && StrLess(b, c)
    ensures StrLess(a, c)
  {
    LexLessTransitive(CodePoint, a, b, c);
  }

  lemma StrLessAsymmetric(a: string, b: string)
    requires StrLess(a, b)
    ensures !StrLess(b, a)
  {
    LexLessAsymmetric(CodePoint, a, b);
  }

  lemma StrLessTotal(a: string, b: string)
    ensures a == b || StrLess(a, b) || StrLess(b, a)
  {
    LexLessTotal(CodePoint, a, b);
  }

  /** A character as UTF-16 code units: itself, or a surrogate pair. */
  function Units(c: char): seq<int> {
    var n := c as int;
    if n < 0x1_0000 then [n]
    else [0xD800 + (n - 0x1_0000) / 0x400, 0xDC00 + (n - 0x1_0000) % 0x400]
  }

  function Utf16(s: string): seq<int> {
    if s == [] then [] else Units(s[0]) + Utf16(s[1..])
  }

  predicate UnitsLess(a: seq<int>, b: seq<int>)
    decreases |a|
  {
    b != [] && (a == [] || a[0] < b[0] || (a[0] == b[0] && UnitsLess(a[1..], b[1..])))
  }

  /** Where UTF-16 puts a character: surrogates sort below the characters from U+E000 to U+FFFF. */
  function Utf16Rank(c: char): int {
    var n := c as int;
    if 0xE000 <= n < 0x1_0000 then n + 0x11_0000 else n
  }

  /** The order of JavaScript's `<` on strings. */
  predicate JsLess(a: string, b: string) {
    LexLess(Utf16Rank, a, b)
  }

  lemma {:induction false} UnitsLessBehind(front: seq<int>, a: seq<int>, b: seq<int>)
    ensures UnitsLess(front + a, front + b) <==> UnitsLess(a, b)
    decreases |front|
  {
    if front == [] {
      assert front + a == a && front + b == b;
    } else {
      UnitsLessBehind(front[1..], a, b);
      assert (front + a)[1..] == front[1..] + a && (front + b)[1..] == front[1..] + b;
    }
  }

  lemma UnitsDiffer(x: char, y: char, a: seq<int>, b: seq<int>)
    requires x != y
    ensures UnitsLess(Units(x) + a, Units(y) + b) <==> Utf16Rank(x) < Utf16Rank(y)
  {
    var u, v := Units(x), Units(y);
    if |u| == 2 && |v| == 2 && u[0] == v[0] {
      assert (u + a)[1..][0] == u[1] && (v + b)[1..][0] == v[1];
    }
  }

  /** That is the order of the code units: a lexicographic comparison of UTF-16 text. */
  lemma {:induction false} JsLessIsUtf16(a: string, b: string)
    ensures JsLess(a, b) <==> UnitsLess(Utf16(a), Utf16(b))
    decreases |a|
  {
    if a != [] && b != [] {
      if a[0] == b[0] {
        JsLessIsUtf16(a[1..], b[1..]);
        UnitsLessBehind(Units(a[0]), Utf16(a[1..]), Utf16(b[1..]));
      } else {
        UnitsDiffer(a[0], b[0], Utf16(a[1..]), Utf16(b[1..]));
      }
    }
  }

  predicate Beyond(c: char) {
    c as int >= 0x1_0000
  }

  predicate JustBelow(c: char) {
    0xE000 <= c as int < 0x1_0000
  }

  /** At the first difference one string has a character beyond U+FFFF, the other one from U+E000 to U+FFFF. */
  predicate Straddles(a: string, b: string) {
    && a != [] && b != []
    && if a[0] == b[0] then Straddles(a[1..], b[1..])
       else (Beyond(a[0]) && JustBelow(b[0])) || (JustBelow(a[0]) && Beyond(b[0]))
  }

  /** Rust and JavaScript order two strings differently exactly then. */
  lemma {:induction false} OrdersDifferIff(a: string, b: string)
    ensures (StrLess(a, b) <==> JsLess(a, b)) <==> !Straddles(a, b)
    decreases |a|
  {
    if a != [] && b != [] && a[0] == b[0] {
      OrdersDifferIff(a[1..], b[1..]);
    }
  }

  /** A subset of a finite set has at most as many elements. */
  lemma {:induction false} SubsetCardinality<T>(a: set<T>, b: set<T>)
    requires a <= b
    ensures |a| <= |b|
    decreases a
  {
    if a != {} {
      var x :| x in a;
      SubsetCardinality(a - {x}, b - {x});
    }
  }
}
