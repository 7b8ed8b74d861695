/**
 Baggage headers: percent-encoding, the printer, and the parser that splits at
 commas, trims, and drops metadata. An entry is (key, value, metadata).
 */
module Baggage {
  import opened Common

  const MAX_BAGGAGE_BYTES: nat := 4096

  // ----- percent-encoding

  /** Each element replaced by a sequence. */
  function FlatMap<T, U>(f: T -> seq<U>, s: seq<T>): seq<U> {
    if s == [] then [] else f(s[0]) + FlatMap(f, s[1..])
  }

  lemma FlatMapFirst<T, U>(f: T -> seq<U>, x: T, s: seq<T>)
    ensures FlatMap(f, [x] + s) == f(x) + FlatMap(f, s)
  {
    assert ([x] + s)[1..] == s;
  }

  lemma {:induction false} FlatMapConcat<T, U>(f: T -> seq<U>, a: seq<T>, b: seq<T>)
    ensures FlatMap(f, a + b) == FlatMap(f, a) + FlatMap(f, b)
    decreases |a|
  {
    if a == [] {
      assert [] + b == b;
    } else {
      var x, t := a[0], a[1..];
      FlatMapConcat(f, t, b);
      FlatMapFirst(f, x, t + b);
      assert [x] + (t + b) == a + b;
      assert f(x) + (FlatMap(f, t) + FlatMap(f, b)) == f(x) + FlatMap(f, t) + FlatMap(f, b);
    }
  }

  lemma FlatMapSingle<T, U>(f: T -> seq<U>, x: T)
    ensures FlatMap(f, [x]) == f(x)
  {
    assert [x][1..] == [];
  }

  /** If `f` yields `g`'s one element and perhaps more, it yields more exactly when it does so somewhere. */
  lemma {:induction false} FlatMapExtras<T, U>(f: T -> seq<U>, g: T -> U, s: seq<T>)
    requires forall x :: |f(x)| > 0 && f(x)[0] == g(x)
    ensures |FlatMap(f, s)| >= |s|
    ensures |FlatMap(f, s)| == |s| <==> forall i :: 0 <= i < |s| ==> |f(s[i])| == 1
    ensures |FlatMap(f, s)| == |s| ==> forall i :: 0 <= i < |s| ==> FlatMap(f, s)[i] == g(s[i])
    decreases |s|
  {
    if s != [] {
      FlatMapExtras(f, g, s[1..]);
      assert forall i :: 0 < i < |s| ==> s[i] == s[1..][i - 1];
      assert forall i :: 0 <= i < |s| - 1 ==> s[1..][i] == s[i + 1];
    }
  }

  /** `str::replace` of one character by a string. */
  function Replace(s: string, c: char, r: string): string {
    FlatMap(x => if x == c then r else [x], s)
  }

  function PercentEncode(s: string): string {
    Replace(Replace(Replace(Replace(Replace(s, '%', "%25"), ',', "%2C"), ';', "%3B"), '=', "%3D"), ' ', "%20")
  }

  /** One character, percent-encoded as section 2.1 of RFC 3986 has it. */
  function EncodeChar(c: char): string {
    match c
    case '%' => "%25"
    case ',' => "%2C"
    case ';' => "%3B"
    case '=' => "%3D"
    case ' ' => "%20"
    case _ => [c]
  }

  function OnePass(s: string): string {
    FlatMap(EncodeChar, s)
  }

  lemma ReplaceConcat(a: string, b: string, c: char, r: string)
    ensures Replace(a + b, c, r) == Replace(a, c, r) + Replace(b, c, r)
  {
    FlatMapConcat(x => if x == c then r else [x], a, b);
  }

  lemma EncodeConcat(a: string, b: string)
    ensures PercentEncode(a + b) == PercentEncode(a) + PercentEncode(b)
  {
    var a1, b1 := Replace(a, '%', "%25"), Replace(b, '%', "%25");
    ReplaceConcat(a, b, '%', "%25");
    var a2, b2 := Replace(a1, ',', "%2C"), Replace(b1, ',', "%2C");
    ReplaceConcat(a1, b1, ',', "%2C");
    var a3, b3 := Replace(a2, ';', "%3B"), Replace(b2, ';', "%3B");
    ReplaceConcat(a2, b2, ';', "%3B");
    var a4, b4 := Replace(a3, '=', "%3D"), Replace(b3, '=', "%3D");
    ReplaceConcat(a3, b3, '=', "%3D");
    ReplaceConcat(a4, b4, ' ', "%20");
  }

  lemma {:induction false} ReplaceAbsent(s: string, c: char, r: string)
    requires c !in s
    ensures Replace(s, c, r) == s
    decreases |s|
  {
    if s != [] {
      ReplaceAbsent(s[1..], c, r);
    }
  }

  lemma ReplaceSingle(x: char, c: char, r: string)
    ensures Replace([x], c, r) == if x == c then r else [x]
  {
    FlatMapSingle(y => if y == c then r else [y], x);
  }

  lemma EncodeSingle(x: char)
    ensures PercentEncode([x]) == EncodeChar(x)
  {
    ReplaceSingle(x, '%', "%25");
    var s1 := Replace([x], '%', "%25");
    if x == ',' { ReplaceSingle(x, ',', "%2C"); } else { ReplaceAbsent(s1, ',', "%2C"); }
    var s2 := Replace(s1, ',', "%2C");
    if x == ';' { ReplaceSingle(x, ';', "%3B"); } else { ReplaceAbsent(s2, ';', "%3B"); }
    var s3 := Replace(s2, ';', "%3B");
    if x == '=' { ReplaceSingle(x, '=', "%3D"); } else { ReplaceAbsent(s3, '=', "%3D"); }
    var s4 := Replace(s3, '=', "%3D");
    if x == ' ' { ReplaceSingle(x, ' ', "%20"); } else { ReplaceAbsent(s4, ' ', "%20"); }
  }

  /** The chain of replacements encodes each character once, because `%` goes first. */
  lemma {:induction false} EncodeIsOnePass(s: string)
    ensures PercentEncode(s) == OnePass(s)
    decreases |s|
  {
    if s != [] {
      EncodeIsOnePass(s[1..]);
      EncodeConcat([s[0]], s[1..]);
      EncodeSingle(s[0]);
      assert s == [s[0]] + s[1..];
    }
  }

  // ----- percent-decoding

  function HexDigit(c: char): Option<nat> {
    if '0' <= c <= '9' then Some((c - '0') as int)
    else if 'a' <= c <= 'f' then Some((c - 'a') as int + 10)
    else if 'A' <= c <= 'F' then Some((c - 'A') as int + 10)
    else None
  }

  /** `u8::from_str_radix(h, 16)` on at most two characters; a leading `+` is accepted. */
  function FromHex(h: string): (r: Option<nat>)
    requires |h| <= 2
    ensures r.Some? ==> r.value < 256
  {
    if |h| == 0 then None
    else if |h| == 1 then HexDigit(h[0])
    else if h[0] == '+' then HexDigit(h[1])
    else
      var a, b := HexDigit(h[0]), HexDigit(h[1]);
      if a.Some? && b.Some? && a.value < 16 && b.value < 16 then Some(a.value * 16 + b.value) else None
  }

  /** What one round of the decoder writes, and how many characters it takes. */
  function DecodeHead(s: string): (r: (string, nat))
    requires s != []
    ensures 0 < r.1 <= |s|
  {
    if s[0] != '%' then ([s[0]], 1)
    else
      var n := Min(3, |s|);
      match FromHex(s[1..n])
      case Some(b) => ([b as char], n)
      case None => (s[..n], n)
  }

  function PercentDecode(s: string): string
    decreases |s|
  {
    if s == [] then [] else DecodeHead(s).0 + PercentDecode(s[DecodeHead(s).1..])
  }

  /** One round: take a character, and for `%` the next two if there are that many. */
  method DecodeRound(rest: string) returns (piece: string, taken: nat)
    requires rest != []
    ensures (piece, taken) == DecodeHead(rest)
  {
    if rest[0] == '%' {
      taken := Min(3, |rest|);
      var hex := rest[1..taken];
      var byte := FromHex(hex);
      if byte.Some? {
        piece := [byte.value as char];
      } else {
        piece := ['%'] + hex;
        assert piece == rest[..taken];
      }
    } else {
      piece, taken := [rest[0]], 1;
    }
  }

  /** The loop over the character iterator. */
  method PercentDecodeLoop(s: string) returns (out: string)
    ensures out == PercentDecode(s)
  {
    out := [];
    var rest := s;
    while rest != []
      invariant out + PercentDecode(rest) == PercentDecode(s)
      decreases |rest|
    {
      var piece, taken := DecodeRound(rest);
      ghost var tail := PercentDecode(rest[taken..]);
      assert out + (piece + tail) == out + piece + tail;
      out := out + piece;
      rest := rest[taken..];
    }
  }

  const LOWER: string := "0123456789abcdef"
  const UPPER: string := "0123456789ABCDEF"

  /** Hex digits in either case, and nothing else. */
  lemma HexDigitMeans(c: char, v: nat)
    requires v < 16
    ensures HexDigit(c) == Some(v) <==> c == LOWER[v] || c == UPPER[v]
    ensures HexDigit(c).Some? ==> HexDigit(c).value < 16
  {
  }

  /** An escape of two hex digits decodes to the character of that code. */
  lemma DecodeHex(a: char, b: char, hi: nat, lo: nat, rest: string)
    requires hi < 16 && lo < 16 && (a == LOWER[hi] || a == UPPER[hi]) && (b == LOWER[lo] || b == UPPER[lo])
    ensures PercentDecode(['%', a, b] + rest) == [(16 * hi + lo) as char] + PercentDecode(rest)
  {
    HexDigitMeans(a, hi);
    HexDigitMeans(b, lo);
    var s := ['%', a, b] + rest;
    assert s[1..3] == [a, b] && s[3..] == rest;
  }

  /** The escapes the decoder accepts besides two digits: a sign and a digit, or a single digit at the very end. */
  predicate OddEscape(s: string) {
    || (|s| >= 3 && s[1] == '+' && HexDigit(s[2]).Some?)
    || (|s| == 2 && HexDigit(s[1]).Some?)
  }

  /** Those decode to the character of the one digit. */
  lemma OddEscapeDecodes(d: char, v: nat, rest: string)
    requires v < 16 && (d == LOWER[v] || d == UPPER[v])
    ensures PercentDecode(['%', '+', d] + rest) == [v as char] + PercentDecode(rest)
    ensures PercentDecode(['%', d]) == [v as char]
  {
    HexDigitMeans(d, v);
    var s := ['%', '+', d] + rest;
    assert s[1..3] == ['+', d] && s[3..] == rest;
    assert ['%', d][1..2] == [d] && ['%', d][2..] == [];
    assert [v as char] + [] == [v as char];
  }

  /** Any other escape passes through unchanged, with up to two characters behind the sign. */
  lemma MalformedPasses(s: string)
    requires s != [] && s[0] == '%' && !OddEscape(s)
    requires |s| >= 3 ==> HexDigit(s[1]).None? || HexDigit(s[2]).None?
    ensures PercentDecode(s) == s[..Min(3, |s|)] + PercentDecode(s[Min(3, |s|)..])
  {
  }

  /** Everything but the percent sign stands for itself. */
  lemma OrdinaryPasses(c: char, rest: string)
    requires c != '%'
    ensures PercentDecode([c] + rest) == [c] + PercentDecode(rest)
  {
    assert ([c] + rest)[1..] == rest;
  }

  lemma DecodeTriple(h: string, b: nat, rest: string)
    requires |h| == 2 && FromHex(h) == Some(b)
    ensures PercentDecode(['%'] + h + rest) == [b as char] + PercentDecode(rest)
  {
    var s := ['%'] + h + rest;
    assert s[1..3] == h && s[3..] == rest;
  }

  /** The code of each encoded character. */
  lemma HexCodes()
    ensures FromHex("25") == Some(0x25) && FromHex("2C") == Some(0x2C) && FromHex("3B") == Some(0x3B)
    ensures FromHex("3D") == Some(0x3D) && FromHex("20") == Some(0x20)
    ensures 0x25 as char == '%' && 0x2C as char == ',' && 0x3B as char == ';' && 0x3D as char == '=' && 0x20 as char == ' '
  {
  }

  lemma DecodeEncodedChar(c: char, rest: string)
    ensures PercentDecode(EncodeChar(c) + rest) == [c] + PercentDecode(rest)
  {
    HexCodes();
    if c == '%' {
      DecodeTriple("25", 0x25, rest);
    } else if c == ',' {
      DecodeTriple("2C", 0x2C, rest);
    } else if c == ';' {
      DecodeTriple("3B", 0x3B, rest);
    } else if c == '=' {
      DecodeTriple("3D", 0x3D, rest);
    } else if c == ' ' {
      DecodeTriple("20", 0x20, rest);
    } else {
      assert ([c] + rest)[1..] == rest;
    }
  }

  /** Decoding undoes encoding on every string. */
  lemma {:induction false} DecodeEncode(s: string)
    ensures PercentDecode(PercentEncode(s)) == s
    decreases |s|
  {
    EncodeIsOnePass(s);
    if s != [] {
      EncodeIsOnePass(s[1..]);
      DecodeEncode(s[1..]);
      DecodeEncodedChar(s[0], OnePass(s[1..]));
      assert s == [s[0]] + s[1..];
    }
  }

  /** Encoded text is free of the characters the header gives meaning to. */
  lemma {:induction false} EncodedIsClean(s: string)
    ensures forall x :: x in OnePass(s) ==> x != ',' && x != ';' && x != '=' && x != ' '
    decreases |s|
  {
    if s != [] {
      EncodedIsClean(s[1..]);
      assert OnePass(s) == EncodeChar(s[0]) + OnePass(s[1..]);
    }
  }

  // ----- the header

  datatype Item = Item(key: string, value: string, metadata: string)

  /** `char::is_whitespace`. */
  predicate IsWhitespace(c: char) {
    var n := c as int;
    || 9 <= n <= 13 || n == 0x20 || n == 0x85 || n == 0xA0 || n == 0x1680
    || 0x2000 <= n <= 0x200A || n == 0x2028 || n == 0x2029 || n == 0x202F || n == 0x205F || n == 0x3000
  }

  /** The characters with the Unicode property White_Space. */
  const WHITE_SPACE: seq<int> := [
    0x9, 0xA, 0xB, 0xC, 0xD, 0x20, 0x85, 0xA0, 0x1680,
    0x2000, 0x2001, 0x2002, 0x2003, 0x2004, 0x2005, 0x2006, 0x2007, 0x2008, 0x2009, 0x200A,
    0x2028, 0x2029, 0x202F, 0x205F, 0x3000]

  lemma WhitespaceIsListed(c: char)
    ensures IsWhitespace(c) <==> exists i :: 0 <= i < |WHITE_SPACE| && WHITE_SPACE[i] == c as int
  {
    var n := c as int;
    if 9 <= n <= 13 {
      assert WHITE_SPACE[n - 9] == n;
    } else if 0x2000 <= n <= 0x200A {
      assert WHITE_SPACE[9 + n - 0x2000] == n;
    } else if IsWhitespace(c) {
      assert WHITE_SPACE[5] == 0x20 && WHITE_SPACE[6] == 0x85 && WHITE_SPACE[7] == 0xA0 && WHITE_SPACE[8] == 0x1680;
      assert WHITE_SPACE[20] == 0x2028 && WHITE_SPACE[21] == 0x2029 && WHITE_SPACE[22] == 0x202F;
      assert WHITE_SPACE[23] == 0x205F && WHITE_SPACE[24] == 0x3000;
    }
  }

  function TrimStart(s: string): string {
    if s != [] && IsWhitespace(s[0]) then TrimStart(s[1..]) else s
  }

  function TrimEnd(s: string): string {
    if s != [] && IsWhitespace(s[|s| - 1]) then TrimEnd(s[..|s| - 1]) else s
  }

  /** One more character in front of split text: an empty piece before a separator, or a longer first piece. */
  function Glue(x: char, c: char, pieces: seq<string>): (r: seq<string>)
    requires |pieces| > 0
    ensures |r| > 0
  {
    if x == c then [[]] + pieces else [[x] + pieces[0]] + pieces[1..]
  }

  /** `split(c)`: the pieces between separators, at least one. */
  function Split(s: string, c: char): (r: seq<string>)
    ensures |r| > 0
  {
    if s == [] then [[]] else Glue(s[0], c, Split(s[1..], c))
  }

  /** `split_once(c)`. */
  function SplitOnce(s: string, c: char): Option<(string, string)> {
    if s == [] then None
    else if s[0] == c then Some(([], s[1..]))
    else match SplitOnce(s[1..], c)
      case None => None
      case Some((a, b)) => Some(([s[0]] + a, b))
  }

  function Join(parts: seq<string>): string {
    if parts == [] then []
    else if |parts| == 1 then parts[0]
    else parts[0] + "," + Join(parts[1..])
  }

  function ItemText(e: Item): string {
    PercentEncode(e.key) + "=" + PercentEncode(e.value) + if e.metadata != [] then ";" + e.metadata else []
  }

  function Texts(items: seq<Item>): seq<string> {
    if items == [] then [] else [ItemText(items[0])] + Texts(items[1..])
  }

  /** The bytes of one character in UTF-8. */
  function Width(c: char): nat {
    var n := c as int;
    if n < 0x80 then 1 else if n < 0x800 then 2 else if n < 0x1_0000 then 3 else 4
  }

  /** How many code points UTF-8 can spell with `k` bytes: 7, 11, 16 and 21 bits (section 3 of RFC 3629). */
  function Spellable(k: nat): nat {
    if k == 0 then 0 else if k == 1 then 0x80 else if k == 2 then 0x800 else if k == 3 then 0x1_0000 else 0x20_0000
  }

  /** A character takes the least number of bytes that can spell it. */
  lemma WidthIsLeast(c: char, k: nat)
    ensures c as int < Spellable(Width(c)) && 1 <= Width(c) <= 4
    ensures k < Width(c) ==> c as int >= Spellable(k)
  {
  }

  function Utf8Bytes(s: string): nat {
    if s == [] then 0 else Width(s[0]) + Utf8Bytes(s[1..])
  }

  /** A header over the limit is cut at a byte offset, which panics inside a character. */
  datatype Encoded = Whole(wire: string) | Cut(wire: string) | Panic

  function CutAt(s: string, bytes: nat): Encoded
    decreases |s|
  {
    if bytes == 0 then Cut([])
    else if s == [] || Width(s[0]) > bytes then Panic
    else match CutAt(s[1..], bytes - Width(s[0]))
      case Cut(w) => Cut([s[0]] + w)
      case _ => Panic
  }

  function EncodeBaggage(items: seq<Item>): Encoded {
    var wire := Join(Texts(items));
    if Utf8Bytes(wire) > MAX_BAGGAGE_BYTES then CutAt(wire, MAX_BAGGAGE_BYTES) else Whole(wire)
  }

  function DecodeItem(part: string): Option<(string, string)> {
    var p := TrimEnd(TrimStart(part));
    if p == [] then None
    else
      var kv := match SplitOnce(p, ';') case Some((a, _)) => a case None => p;
      match SplitOnce(kv, '=')
      case Some((k, v)) => Some((PercentDecode(k), PercentDecode(v)))
      case None => None
  }

  /** The entries of one part: one, or none. */
  function PartEntries(part: string): seq<(string, string)> {
    match DecodeItem(part) case Some(kv) => [kv] case None => []
  }

  function DecodeItems(parts: seq<string>): seq<(string, string)> {
    FlatMap(PartEntries, parts)
  }

  function DecodeBaggage(wire: string): seq<(string, string)> {
    if wire == [] then [] else DecodeItems(Split(wire, ','))
  }

  /** The loop of `decode_baggage`, pushing into `entries`. */
  method DecodeBaggageLoop(wire: string) returns (entries: seq<(string, string)>)
    ensures entries == DecodeBaggage(wire)
  {
    entries := [];
    if wire == [] {
      return;
    }
    var parts := Split(wire, ',');
    for i := 0 to |parts|
      invariant entries == DecodeItems(parts[..i])
    {
      assert parts[..i + 1] == parts[..i] + [parts[i]];
      FlatMapConcat(PartEntries, parts[..i], [parts[i]]);
      FlatMapSingle(PartEntries, parts[i]);
      var pair := TrimEnd(TrimStart(parts[i]));
      if pair != [] {
        var meta := SplitOnce(pair, ';');
        var kv := if meta.Some? then meta.value.0 else pair;
        var split := SplitOnce(kv, '=');
        if split.Some? {
          var key := PercentDecodeLoop(split.value.0);
          var value := PercentDecodeLoop(split.value.1);
          entries := entries + [(key, value)];
        }
      }
    }
    assert parts[..|parts|] == parts;
  }

  // ----- what the parser recovers

  /** Whitespace that encoding leaves alone. */
  predicate Exposed(c: char) {
    IsWhitespace(c) && c != ' '
  }

  function StripStart(s: string): string {
    if s != [] && Exposed(s[0]) then StripStart(s[1..]) else s
  }

  function StripEnd(s: string): string {
    if s != [] && Exposed(s[|s| - 1]) then StripEnd(s[..|s| - 1]) else s
  }

  lemma OnePassConcat(a: string, b: string)
    ensures OnePass(a + b) == OnePass(a) + OnePass(b)
  {
    FlatMapConcat(EncodeChar, a, b);
  }

  /** Trimming the start leaves the text, or drops its one leading whitespace and goes on. */
  lemma TrimStartFirst(x: string, b: string)
    requires x != []
    ensures !IsWhitespace(x[0]) ==> TrimStart(x + b) == x + b
    ensures |x| == 1 && IsWhitespace(x[0]) ==> TrimStart(x + b) == TrimStart(b)
  {
    if |x| == 1 {
      assert (x + b)[1..] == b;
    }
  }

  lemma {:induction false} TrimEncodedStart(s: string, rest: string)
    requires rest != [] && !IsWhitespace(rest[0])
    ensures TrimStart(OnePass(s) + rest) == OnePass(StripStart(s)) + rest
    decreases |s|
  {
    if s == [] {
      assert OnePass(s) + rest == rest;
    } else {
      var x, y := EncodeChar(s[0]), OnePass(s[1..]);
      EncodedEnds(s[0]);
      assert x + y + rest == x + (y + rest);
      TrimStartFirst(x, y + rest);
      if Exposed(s[0]) {
        TrimEncodedStart(s[1..], rest);
      }
    }
  }

  lemma OnePassLast(s: string)
    requires s != []
    ensures OnePass(s) == OnePass(s[..|s| - 1]) + EncodeChar(s[|s| - 1])
  {
    var n := |s| - 1;
    OnePassConcat(s[..n], [s[n]]);
    assert s == s[..n] + [s[n]];
    FlatMapSingle(EncodeChar, s[n]);
  }

  lemma EncodedEnds(c: char)
    ensures var x := EncodeChar(c);
            && x != [] && (IsWhitespace(x[0]) <==> Exposed(c)) && (IsWhitespace(x[|x| - 1]) <==> Exposed(c))
            && (Exposed(c) ==> x == [c])
  {
  }

  lemma {:induction false} TrimEncodedEnd(front: string, s: string)
    requires front != [] && !IsWhitespace(front[|front| - 1])
    ensures TrimEnd(front + OnePass(s)) == front + OnePass(StripEnd(s))
    decreases |s|
  {
    if s == [] {
      assert front + OnePass(s) == front;
    } else {
      var n := |s| - 1;
      var short := front + OnePass(s[..n]);
      OnePassLast(s);
      EncodedEnds(s[n]);
      assert front + OnePass(s) == short + EncodeChar(s[n]);
      TrimEndLast(short, EncodeChar(s[n]));
      if Exposed(s[n]) {
        TrimEncodedEnd(front, s[..n]);
      }
    }
  }

  lemma TrimEndLast(a: string, x: string)
    requires x != []
    ensures !IsWhitespace(x[|x| - 1]) ==> TrimEnd(a + x) == a + x
    ensures |x| == 1 && IsWhitespace(x[0]) ==> TrimEnd(a + x) == TrimEnd(a)
  {
    var t := a + x;
    assert t[|t| - 1] == x[|x| - 1];
    if |x| == 1 {
      assert t[..|t| - 1] == a;
    }
  }

  /** Trimming at the end stops at the latest at a character that is no whitespace. */
  lemma {:induction false} TrimEndKeeps(front: string, tail: string) returns (kept: string)
    requires front != [] && !IsWhitespace(front[|front| - 1])
    ensures TrimEnd(front + tail) == front + kept
    decreases |tail|
  {
    var t := front + tail;
    if tail == [] {
      assert t == front;
      kept := [];
      assert front + kept == front;
    } else if IsWhitespace(tail[|tail| - 1]) {
      assert t[..|t| - 1] == front + tail[..|tail| - 1];
      kept := TrimEndKeeps(front, tail[..|tail| - 1]);
    } else {
      kept := tail;
    }
  }

  lemma {:induction false} SplitOnceAt(a: string, c: char, b: string)
    requires c !in a
    ensures SplitOnce(a + [c] + b, c) == Some((a, b))
    decreases |a|
  {
    var t := a + [c] + b;
    if a == [] {
      assert t[1..] == b;
    } else {
      assert t[1..] == a[1..] + [c] + b;
      SplitOnceAt(a[1..], c, b);
      assert [a[0]] + a[1..] == a;
    }
  }

  lemma {:induction false} SplitOnceAbsent(a: string, c: char)
    requires c !in a
    ensures SplitOnce(a, c) == None
    decreases |a|
  {
    if a != [] {
      SplitOnceAbsent(a[1..], c);
    }
  }

  lemma TextPlain(e: Item)
    requires e.metadata == []
    ensures ItemText(e) == OnePass(e.key) + ("=" + OnePass(e.value))
  {
    EncodeIsOnePass(e.key);
    EncodeIsOnePass(e.value);
  }

  lemma TrimmedPlain(e: Item)
    requires e.metadata == []
    ensures TrimEnd(TrimStart(ItemText(e))) == OnePass(StripStart(e.key)) + "=" + OnePass(StripEnd(e.value))
  {
    var k, v := OnePass(StripStart(e.key)), OnePass(e.value);
    TextPlain(e);
    TrimEncodedStart(e.key, "=" + v);
    assert k + ("=" + v) == (k + "=") + v;
    TrimEncodedEnd(k + "=", e.value);
  }

  /** A key and value with `m` behind the semicolon: all of an entry's metadata, or what precedes its first comma. */
  function WithMetadata(key: string, value: string, m: string): string {
    OnePass(key) + ("=" + OnePass(value) + ";") + m
  }

  lemma TextWithMetadata(e: Item)
    requires e.metadata != []
    ensures ItemText(e) == WithMetadata(e.key, e.value, e.metadata)
  {
    EncodeIsOnePass(e.key);
    EncodeIsOnePass(e.value);
    assert "=" + OnePass(e.value) + (";" + e.metadata) == "=" + OnePass(e.value) + ";" + e.metadata;
  }

  lemma Reassociate(k: string, v: string, m: string)
    ensures k + ("=" + v + ";") + m == k + ("=" + v + ";" + m) == (k + "=" + v + ";") + m
  {
  }

  lemma TrimmedWithMetadata(key: string, value: string, m: string) returns (kept: string)
    ensures TrimEnd(TrimStart(WithMetadata(key, value, m)))
            == OnePass(StripStart(key)) + "=" + OnePass(value) + ";" + kept
  {
    var k, v := OnePass(StripStart(key)), OnePass(value);
    Reassociate(OnePass(key), v, m);
    TrimEncodedStart(key, "=" + v + ";" + m);
    Reassociate(k, v, m);
    kept := TrimEndKeeps(k + "=" + v + ";", m);
  }

  /** What comes back of an entry: its key and value, less exposed whitespace at the outer ends. */
  function RecoveredItem(e: Item): (string, string) {
    (StripStart(e.key), if e.metadata == [] then StripEnd(e.value) else e.value)
  }

  lemma PlainRoundTrip(e: Item)
    requires e.metadata == []
    ensures DecodeItem(ItemText(e)) == Some(RecoveredItem(e))
  {
    var key, value := StripStart(e.key), StripEnd(e.value);
    TrimmedPlain(e);
    EncodedIsClean(key);
    EncodedIsClean(value);
    ParsedItem(ItemText(e), key, value, OnePass(key) + "=" + OnePass(value), None);
  }

  lemma MetadataRoundTrip(key: string, value: string, m: string)
    ensures DecodeItem(WithMetadata(key, value, m)) == Some((StripStart(key), value))
  {
    var k := StripStart(key);
    var kept := TrimmedWithMetadata(key, value, m);
    EncodedIsClean(k);
    EncodedIsClean(value);
    ParsedItem(WithMetadata(key, value, m), k, value, OnePass(k) + "=" + OnePass(value), Some(kept));
  }

  /** One printed entry parses to that, whatever its metadata. */
  lemma ItemRoundTrip(e: Item)
    ensures DecodeItem(ItemText(e)) == Some(RecoveredItem(e))
  {
    if e.metadata == [] {
      PlainRoundTrip(e);
    } else {
      TextWithMetadata(e);
      MetadataRoundTrip(e.key, e.value, e.metadata);
    }
  }

  /** Parsing of a trimmed part whose pair `kv` is clean, with or without metadata behind it. */
  lemma ParsedItem(part: string, key: string, value: string, kv: string, meta: Option<string>)
    requires kv == OnePass(key) + "=" + OnePass(value)
    requires ';' !in kv && '=' !in OnePass(key)
    requires TrimEnd(TrimStart(part)) == match meta case Some(m) => kv + ";" + m case None => kv
    ensures DecodeItem(part) == Some((key, value))
  {
    match meta {
      case Some(m) => SplitOnceAt(kv, ';', m);
      case None => SplitOnceAbsent(kv, ';');
    }
    SplitOnceAt(OnePass(key), '=', OnePass(value));
    EncodeIsOnePass(key);
    EncodeIsOnePass(value);
    DecodeEncode(key);
    DecodeEncode(value);
  }

  // ----- parts that were not printed here

  predicate Blank(s: string) {
    forall i :: 0 <= i < |s| ==> IsWhitespace(s[i])
  }

  lemma {:induction false} TrimStartBlank(ws: string, s: string)
    requires Blank(ws)
    ensures TrimStart(ws + s) == TrimStart(s)
    decreases |ws|
  {
    if ws == [] {
      assert ws + s == s;
    } else {
      TrimStartBlank(ws[1..], s);
      assert (ws + s)[1..] == ws[1..] + s;
    }
  }

  lemma {:induction false} TrimEndBlank(s: string, ws: string)
    requires Blank(ws)
    ensures TrimEnd(s + ws) == TrimEnd(s)
    decreases |ws|
  {
    if ws == [] {
      assert s + ws == s;
    } else {
      var n := |ws| - 1;
      TrimEndBlank(s, ws[..n]);
      assert (s + ws)[..|s + ws| - 1] == s + ws[..n];
    }
  }

  /** No whitespace at either end. */
  predicate Trimmed(s: string) {
    s != [] ==> !IsWhitespace(s[0]) && !IsWhitespace(s[|s| - 1])
  }

  lemma TrimPadded(before: string, s: string, after: string)
    requires Blank(before) && Blank(after) && Trimmed(s)
    ensures TrimEnd(TrimStart(before + s + after)) == s
  {
    assert before + s + after == before + (s + after);
    TrimStartBlank(before, s + after);
    if s == [] {
      assert s + after == after + [];
      TrimStartBlank(after, []);
    } else {
      assert TrimStart(s + after) == s + after;
      TrimEndBlank(s, after);
    }
  }

  /** Whitespace around a part does not matter, and a blank part, or one without an equals sign, is skipped. */
  lemma PartSkipped(before: string, s: string, after: string)
    requires Blank(before) && Blank(after) && Trimmed(s) && '=' !in s
    ensures DecodeItem(before + s + after) == None
  {
    TrimPadded(before, s, after);
    if s != [] {
      SplitOncePart(s, ';');
      var kv := match SplitOnce(s, ';') case Some((a, _)) => a case None => s;
      SplitOnceAbsent(kv, '=');
    }
  }

  lemma {:induction false} SplitOncePart(s: string, c: char)
    ensures SplitOnce(s, c).Some? ==> forall x :: x in SplitOnce(s, c).value.0 ==> x in s
    decreases |s|
  {
    if s != [] && s[0] != c {
      SplitOncePart(s[1..], c);
    }
  }

  /**
   A part key=value, with or without metadata behind a semicolon and with any
   whitespace around it, yields the decoded key and the decoded value; the first
   equals sign separates them.
   */
  lemma PartParsed(before: string, key: string, value: string, metadata: Option<string>, after: string)
    requires Blank(before) && Blank(after) && '=' !in key && ';' !in key && ';' !in value
    requires Trimmed(PartText(key, value, metadata))
    ensures DecodeItem(before + PartText(key, value, metadata) + after) == Some((PercentDecode(key), PercentDecode(value)))
  {
    TrimPadded(before, PartText(key, value, metadata), after);
    var kv := key + "=" + value;
    match metadata {
      case Some(m) => SplitOnceAt(kv, ';', m);
      case None => SplitOnceAbsent(kv, ';');
    }
    SplitOnceAt(key, '=', value);
  }

  function PartText(key: string, value: string, metadata: Option<string>): string {
    match metadata
    case Some(m) => key + "=" + value + ";" + m
    case None => key + "=" + value
  }

  // ----- the whole header

  /** Text without the separator goes in front of the first piece. */
  lemma {:induction false} SplitBehind(a: string, c: char, b: string)
    requires c !in a
    ensures Split(a + b, c) == [a + Split(b, c)[0]] + Split(b, c)[1..]
    decreases |a|
  {
    var first, more := Split(b, c)[0], Split(b, c)[1..];
    if a == [] {
      assert a + b == b && a + first == first;
    } else {
      var x, t := a[0], a[1..];
      SplitBehind(t, c, b);
      SplitFirst(x, c, t + b);
      GlueFirst(x, c, t + first, more);
      assert [x] + (t + b) == a + b && [x] + (t + first) == a + first;
    }
  }

  lemma SplitFirst(x: char, c: char, s: string)
    ensures Split([x] + s, c) == Glue(x, c, Split(s, c))
  {
    assert ([x] + s)[1..] == s;
  }

  lemma GlueFirst(x: char, c: char, p: string, q: seq<string>)
    requires x != c
    ensures Glue(x, c, [p] + q) == [[x] + p] + q
  {
    assert ([p] + q)[1..] == q;
  }

  /** A separator between two texts separates their pieces. */
  lemma {:induction false} SplitBetween(a: string, c: char, b: string)
    ensures Split(a + [c] + b, c) == Split(a, c) + Split(b, c)
    decreases |a|
  {
    var t := a + [c] + b;
    if a == [] {
      assert t[1..] == b;
    } else {
      SplitBetween(a[1..], c, b);
      assert t[1..] == a[1..] + [c] + b;
      GlueAppend(a[0], c, Split(a[1..], c), Split(b, c));
    }
  }

  lemma GlueAppend(x: char, c: char, p: seq<string>, q: seq<string>)
    requires |p| > 0
    ensures Glue(x, c, p + q) == Glue(x, c, p) + q
  {
  }

  /** What the parser takes for further entries: the pieces of the metadata behind its first comma. */
  function Stray(metadata: string): seq<(string, string)> {
    DecodeItems(Split(metadata, ',')[1..])
  }

  lemma PlainMetadata(metadata: string)
    requires ',' !in metadata
    ensures Stray(metadata) == []
  {
    SplitBehind(metadata, ',', []);
    assert metadata + [] == metadata;
  }

  lemma EncodedHasNoComma(e: Item)
    ensures ',' !in OnePass(e.key) + ("=" + OnePass(e.value)) && ',' !in OnePass(e.key) + ("=" + OnePass(e.value) + ";")
  {
    EncodedIsClean(e.key);
    EncodedIsClean(e.value);
  }

  lemma DecodePieces(e: Item)
    ensures DecodeItems(Split(ItemText(e), ',')) == ItemEntries(e)
  {
    var pieces := Split(e.metadata, ',');
    var first;
    EncodedHasNoComma(e);
    if e.metadata == [] {
      TextPlain(e);
      first := ItemText(e);
      SplitBehind(first, ',', []);
      assert first + [] == first;
      PlainRoundTrip(e);
    } else {
      TextWithMetadata(e);
      first := WithMetadata(e.key, e.value, pieces[0]);
      SplitBehind(OnePass(e.key) + ("=" + OnePass(e.value) + ";"), ',', e.metadata);
      MetadataRoundTrip(e.key, e.value, pieces[0]);
    }
    assert Split(ItemText(e), ',') == [first] + pieces[1..];
    FlatMapConcat(PartEntries, [first], pieces[1..]);
    FlatMapSingle(PartEntries, first);
  }

  function Recovered(items: seq<Item>): (r: seq<(string, string)>)
    ensures |r| == |items| && forall i :: 0 <= i < |r| ==> r[i] == RecoveredItem(items[i])
  {
    if items == [] then [] else [RecoveredItem(items[0])] + Recovered(items[1..])
  }

  function ItemEntries(e: Item): seq<(string, string)> {
    [RecoveredItem(e)] + Stray(e.metadata)
  }

  /** What the parser makes of a header: each entry, followed by what its metadata is mistaken for. */
  function Parsed(items: seq<Item>): seq<(string, string)> {
    FlatMap(ItemEntries, items)
  }

  lemma {:induction false} DecodeJoined(items: seq<Item>)
    requires items != []
    ensures DecodeItems(Split(Join(Texts(items)), ',')) == Parsed(items)
    decreases |items|
  {
    var text, later := ItemText(items[0]), items[1..];
    DecodePieces(items[0]);
    if later == [] {
      assert Texts(items) == [text];
      assert items == [items[0]];
      FlatMapSingle(ItemEntries, items[0]);
    } else {
      DecodeJoined(later);
      assert Texts(items) == [text] + Texts(later) && |Texts(later)| > 0;
      assert Texts(items)[1..] == Texts(later);
      SplitBetween(text, ',', Join(Texts(later)));
      FlatMapConcat(PartEntries, Split(text, ','), Split(Join(Texts(later)), ','));
    }
  }

  lemma JoinedNotEmpty(items: seq<Item>)
    requires items != []
    ensures Join(Texts(items)) != []
  {
    assert '=' in ItemText(items[0]);
  }

  /** Every header that fits decodes to its entries in order, with stray entries where metadata holds a comma. */
  lemma BaggageRoundTrip(items: seq<Item>)
    requires EncodeBaggage(items).Whole?
    ensures DecodeBaggage(EncodeBaggage(items).wire) == Parsed(items)
  {
    if items != [] {
      JoinedNotEmpty(items);
      DecodeJoined(items);
    }
  }

  ghost predicate NoStray(items: seq<Item>) {
    forall i :: 0 <= i < |items| ==> Stray(items[i].metadata) == []
  }

  /** Exactly the entries come back if and only if no metadata piece behind a comma reads as an entry. */
  lemma BaggageRoundTripIff(items: seq<Item>)
    requires EncodeBaggage(items).Whole?
    ensures DecodeBaggage(EncodeBaggage(items).wire) == Recovered(items)
            <==> NoStray(items)
  {
    BaggageRoundTrip(items);
    FlatMapExtras(ItemEntries, RecoveredItem, items);
    assert NoStray(items) <==> forall i :: 0 <= i < |items| ==> |ItemEntries(items[i])| == 1;
  }

  /** All keys and values survive exactly when none exposes whitespace at the end that is trimmed. */
  lemma RecoveredIff(items: seq<Item>)
    ensures (forall i :: 0 <= i < |items| ==> Recovered(items)[i] == (items[i].key, items[i].value)) <==>
            (forall i :: 0 <= i < |items| ==> Survives(items[i]))
  {
    forall i | 0 <= i < |items| ensures Recovered(items)[i] == (items[i].key, items[i].value) <==> Survives(items[i]) {
      StripStartSame(items[i].key);
      StripEndSame(items[i].value);
    }
  }

  predicate Survives(e: Item) {
    && !(e.key != [] && Exposed(e.key[0]))
    && !(e.metadata == [] && e.value != [] && Exposed(e.value[|e.value| - 1]))
  }

  lemma {:induction false} StripStartSame(s: string)
    ensures |StripStart(s)| <= |s|
    ensures StripStart(s) == s <==> !(s != [] && Exposed(s[0]))
    decreases |s|
  {
    if s != [] && Exposed(s[0]) {
      StripStartSame(s[1..]);
    }
  }

  lemma {:induction false} StripEndSame(s: string)
    ensures |StripEnd(s)| <= |s|
    ensures StripEnd(s) == s <==> !(s != [] && Exposed(s[|s| - 1]))
    decreases |s|
  {
    if s != [] && Exposed(s[|s| - 1]) {
      StripEndSame(s[..|s| - 1]);
    }
  }

  /** The keys and values as they were put in. */
  function Given(items: seq<Item>): (r: seq<(string, string)>)
    ensures |r| == |items| && forall i :: 0 <= i < |r| ==> r[i] == (items[i].key, items[i].value)
  {
    if items == [] then [] else [(items[0].key, items[0].value)] + Given(items[1..])
  }

  /** Keys and values come back just as given if and only if no metadata reads as an entry and no end is trimmed. */
  lemma ExactRoundTripIff(items: seq<Item>)
    requires EncodeBaggage(items).Whole?
    ensures DecodeBaggage(EncodeBaggage(items).wire) == Given(items)
            <==> NoStray(items) && forall i :: 0 <= i < |items| ==> Survives(items[i])
  {
    var decoded := DecodeBaggage(EncodeBaggage(items).wire);
    BaggageRoundTrip(items);
    BaggageRoundTripIff(items);
    RecoveredIff(items);
    if decoded == Given(items) {
      FlatMapExtras(ItemEntries, RecoveredItem, items);
      assert forall i :: 0 <= i < |items| ==> |ItemEntries(items[i])| == 1;
      assert NoStray(items);
    }
  }

  /** Metadata without commas is never misread. */
  lemma PlainMetadataRoundTrip(items: seq<Item>)
    requires EncodeBaggage(items).Whole? && forall i :: 0 <= i < |items| ==> ',' !in items[i].metadata
    ensures DecodeBaggage(EncodeBaggage(items).wire) == Recovered(items)
  {
    forall i | 0 <= i < |items| ensures Stray(items[i].metadata) == [] {
      PlainMetadata(items[i].metadata);
    }
    BaggageRoundTripIff(items);
  }

  // ----- inputs on which the round trip fails

  /** Whatever printed entry follows a comma in metadata comes back as an entry. */
  lemma MetadataReadsAsEntry(front: string, f: Item)
    requires ',' !in front && f.metadata == []
    ensures Stray(front + "," + ItemText(f)) == [RecoveredItem(f)]
  {
    var text := ItemText(f);
    SplitBetween(front, ',', text);
    SplitBehind(front, ',', []);
    assert front + [] == front;
    assert Split(front, ',') == [front];
    DecodePieces(f);
    PlainMetadata([]);
  }

  /** Text without characters to encode. */
  predicate Plain(s: string) {
    forall i :: 0 <= i < |s| ==> EncodeChar(s[i]) == [s[i]]
  }

  lemma {:induction false} EncodePlain(s: string)
    requires Plain(s)
    ensures PercentEncode(s) == s
    decreases |s|
  {
    EncodeIsOnePass(s);
    if s != [] {
      EncodePlain(s[1..]);
      EncodeIsOnePass(s[1..]);
    }
  }

  lemma SingleHeader(e: Item)
    ensures Join(Texts([e])) == ItemText(e)
    ensures Recovered([e]) == [RecoveredItem(e)] && Parsed([e]) == ItemEntries(e)
  {
    assert [e][1..] == [];
    assert Texts([e]) == [ItemText(e)];
    FlatMapSingle(ItemEntries, e);
  }

  /** Any one ASCII character that is neither encoded nor whitespace, such as a letter. */
  predicate Letter(s: string) {
    |s| == 1 && EncodeChar(s[0]) == s && Width(s[0]) == 1 && !IsWhitespace(s[0])
  }

  lemma LetterText(k: string, v: string)
    requires Letter(k) && Letter(v)
    ensures ItemText(Item(k, v, [])) == k + "=" + v && RecoveredItem(Item(k, v, [])) == (k, v)
  {
    EncodePlain(k);
    EncodePlain(v);
    assert k + "=" + v + [] == k + "=" + v;
  }

  lemma ShortHeaderFits(e: Item)
    requires Ascii(ItemText(e)) && |ItemText(e)| <= MAX_BAGGAGE_BYTES
    ensures EncodeBaggage([e]).Whole?
    ensures DecodeBaggage(EncodeBaggage([e]).wire) == ItemEntries(e)
  {
    SingleHeader(e);
    AsciiBytes(ItemText(e));
    BaggageRoundTrip([e]);
  }

  /** With letters for the names: one entry k=v with the metadata "a,b=c" comes back as two, k=v and b=c. */
  lemma CommaIsMisread(k: string, v: string, a: string, b: string, c: string)
    requires Letter(k) && Letter(v) && Letter(a) && Letter(b) && Letter(c)
    ensures var items := [Item(k, v, a + "," + (b + "=" + c))];
            && EncodeBaggage(items).Whole?
            && DecodeBaggage(EncodeBaggage(items).wire) == [(k, v), (b, c)]
  {
    var m := a + "," + (b + "=" + c);
    var f := Item(b, c, []);
    assert Stray(m) == [(b, c)] by {
      LetterText(b, c);
      MetadataReadsAsEntry(a, f);
    }
    LetterWithMetadata(k, v, m);
  }

  lemma LetterWithMetadata(k: string, v: string, m: string)
    requires Letter(k) && Letter(v) && 0 < |m| <= 5 && Ascii(m)
    ensures var items := [Item(k, v, m)];
            && EncodeBaggage(items).Whole?
            && DecodeBaggage(EncodeBaggage(items).wire) == [(k, v)] + Stray(m)
  {
    var e := Item(k, v, m);
    EncodePlain(k);
    EncodePlain(v);
    assert ItemText(e) == k + "=" + v + (";" + m);
    assert RecoveredItem(e) == (k, v);
    ShortHeaderFits(e);
  }

  /** A tab at the end of a value does not come back. */
  lemma TabIsLost(k: string, v: string)
    requires Letter(k) && Letter(v)
    ensures var items := [Item(k, v + "\t", [])];
            && EncodeBaggage(items).Whole?
            && DecodeBaggage(EncodeBaggage(items).wire) == [(k, v)]
  {
    var value := v + "\t";
    var e := Item(k, value, []);
    LetterText(k, v);
    EncodePlain(value);
    assert ItemText(e) == k + "=" + value;
    assert value[..1] == v && StripEnd(value) == StripEnd(v);
    ShortHeaderFits(e);
    PlainMetadata([]);
  }

  /** Letters are what they are called. */
  lemma LettersExist()
    ensures Letter("a")
  {
  }

  // ----- headers over the limit

  /** Some prefix of `s` takes exactly `bytes` bytes: a cut there falls between characters. */
  ghost predicate Boundary(s: string, bytes: nat) {
    exists n :: 0 <= n <= |s| && Utf8Bytes(s[..n]) == bytes
  }

  lemma {:induction false} CutAtBoundary(s: string, bytes: nat)
    ensures CutAt(s, bytes).Panic? <==> !Boundary(s, bytes)
    ensures !CutAt(s, bytes).Whole?
    ensures CutAt(s, bytes).Cut? ==> CutAt(s, bytes).wire <= s && Utf8Bytes(CutAt(s, bytes).wire) == bytes
    decreases |s|
  {
    if bytes == 0 {
      assert Utf8Bytes(s[..0]) == 0;
    } else if s != [] {
      BoundaryBehind(s, bytes);
      if Width(s[0]) <= bytes {
        CutAtBoundary(s[1..], bytes - Width(s[0]));
        if CutAt(s[1..], bytes - Width(s[0])).Cut? {
          var w := CutAt(s[1..], bytes - Width(s[0])).wire;
          assert ([s[0]] + w)[1..] == w;
        }
      }
    }
  }

  lemma PrefixBytes(s: string, n: nat)
    requires 0 < n <= |s|
    ensures Utf8Bytes(s[..n]) == Width(s[0]) + Utf8Bytes(s[1..][..n - 1])
  {
    assert s[..n][1..] == s[1..][..n - 1];
  }

  lemma BoundaryBehind(s: string, bytes: nat)
    requires s != [] && bytes > 0
    ensures Boundary(s, bytes) <==> Width(s[0]) <= bytes && Boundary(s[1..], bytes - Width(s[0]))
  {
    if n :| 0 <= n <= |s| && Utf8Bytes(s[..n]) == bytes {
      PrefixBytes(s, n);
    }
    if Width(s[0]) <= bytes && Boundary(s[1..], bytes - Width(s[0])) {
      var n :| 0 <= n <= |s[1..]| && Utf8Bytes(s[1..][..n]) == bytes - Width(s[0]);
      PrefixBytes(s, n + 1);
    }
  }

  /** Printing panics exactly when the header is over 4096 bytes and the cut falls inside a character. */
  lemma EncodePanicsIff(items: seq<Item>)
    ensures EncodeBaggage(items).Panic? <==>
              Utf8Bytes(Join(Texts(items))) > MAX_BAGGAGE_BYTES && !Boundary(Join(Texts(items)), MAX_BAGGAGE_BYTES)
    ensures EncodeBaggage(items).Cut? ==>
              EncodeBaggage(items).wire <= Join(Texts(items)) && Utf8Bytes(EncodeBaggage(items).wire) == MAX_BAGGAGE_BYTES
  {
    CutAtBoundary(Join(Texts(items)), MAX_BAGGAGE_BYTES);
  }

  lemma {:induction false} BytesConcat(a: string, b: string)
    ensures Utf8Bytes(a + b) == Utf8Bytes(a) + Utf8Bytes(b)
    decreases |a|
  {
    if a == [] {
      assert a + b == b;
    } else {
      BytesConcat(a[1..], b);
      assert (a + b)[1..] == a[1..] + b;
    }
  }

  lemma {:induction false} WideBytes(s: string)
    requires forall i :: 0 <= i < |s| ==> Width(s[i]) == 2
    ensures Utf8Bytes(s) == 2 * |s|
    decreases |s|
  {
    if s != [] {
      WideBytes(s[1..]);
    }
  }

  /** Behind three bytes, no character of two bytes each ends at byte 4096. */
  lemma OddBoundary(v: string)
    requires forall i :: 0 <= i < |v| ==> Width(v[i]) == 2
    ensures Utf8Bytes("kk=" + v) == 3 + 2 * |v| && !Boundary("kk=" + v, MAX_BAGGAGE_BYTES)
  {
    var wire := "kk=" + v;
    AsciiBytes("kk=");
    WideBytes(v);
    BytesConcat("kk=", v);
    forall n | 0 <= n <= |wire| ensures Utf8Bytes(wire[..n]) != MAX_BAGGAGE_BYTES {
      if n <= 3 {
        assert wire[..n] == "kk="[..n];
        AsciiBytes("kk="[..n]);
      } else {
        assert wire[..n] == "kk=" + v[..n - 3];
        WideBytes(v[..n - 3]);
        BytesConcat("kk=", v[..n - 3]);
      }
    }
  }

  lemma WideIsPlain(v: string)
    requires forall i :: 0 <= i < |v| ==> Width(v[i]) == 2
    ensures Plain(v)
  {
  }

  /** Printing does panic: on any value of 2047 or more characters that take two bytes, such as U+00E9. */
  lemma PanicHappens(v: string)
    requires |v| >= 2047 && forall i :: 0 <= i < |v| ==> Width(v[i]) == 2
    ensures EncodeBaggage([Item("kk", v, [])]).Panic?
  {
    var e := Item("kk", v, []);
    assert ItemText(e) == "kk=" + v by {
      EncodePlain("kk");
      WideIsPlain(v);
      EncodePlain(v);
    }
    OddBoundary(v);
    SingleHeader(e);
    EncodePanicsIff([e]);
  }

  predicate Ascii(s: string) {
    forall i :: 0 <= i < |s| ==> Width(s[i]) == 1
  }

  lemma {:induction false} AsciiBytes(s: string)
    requires Ascii(s)
    ensures Utf8Bytes(s) == |s|
    decreases |s|
  {
    if s != [] {
      AsciiBytes(s[1..]);
    }
  }

  /** A header of ASCII characters never makes printing panic. */
  lemma AsciiNeverPanics(items: seq<Item>)
    requires Ascii(Join(Texts(items)))
    ensures !EncodeBaggage(items).Panic?
  {
    var wire := Join(Texts(items));
    EncodePanicsIff(items);
    AsciiBytes(wire);
    if |wire| > MAX_BAGGAGE_BYTES {
      AsciiBytes(wire[..MAX_BAGGAGE_BYTES]);
    }
  }

  /** The pieces of a prefix are those of the text, but for the last, which may be cut short. */
  lemma {:induction false} SplitPrefix(s: string, c: char, n: nat)
    requires n <= |s|
    ensures CutShort(Split(s[..n], c), Split(s, c))
    decreases n
  {
    if n > 0 {
      SplitPrefix(s[1..], c, n - 1);
      assert s[..n][1..] == s[1..][..n - 1];
      GluePrefix(s[0], c, Split(s[1..][..n - 1], c), Split(s[1..], c));
    }
  }

  /** `p` is the pieces of `q` up to one that may be cut short. */
  ghost predicate CutShort(p: seq<string>, q: seq<string>) {
    0 < |p| <= |q| && p[..|p| - 1] == q[..|p| - 1] && p[|p| - 1] <= q[|p| - 1]
  }

  lemma GluePrefix(x: char, c: char, p: seq<string>, q: seq<string>)
    requires CutShort(p, q)
    ensures CutShort(Glue(x, c, p), Glue(x, c, q))
  {
    var g, h := Glue(x, c, p), Glue(x, c, q);
    forall i | 0 <= i < |g| - 1 ensures g[i] == h[i] {
      assert i < |p| - 1 ==> p[i] == p[..|p| - 1][i] == q[..|p| - 1][i] == q[i];
      assert x == c && i > 0 ==> p[i - 1] == p[..|p| - 1][i - 1] == q[..|p| - 1][i - 1] == q[i - 1];
    }
  }

  /** Parsing a text cut short: the leading pieces as before, then the piece that was cut. */
  lemma DecodeCutShort(wire: string, n: nat)
    requires 0 < n <= |wire|
    ensures var whole, cut := Split(wire, ','), Split(wire[..n], ',');
            && CutShort(cut, whole)
            && DecodeBaggage(wire[..n]) == DecodeItems(whole[..|cut| - 1]) + DecodeItems([cut[|cut| - 1]])
  {
    SplitPrefix(wire, ',', n);
    var cut := Split(wire[..n], ',');
    var m := |cut| - 1;
    assert cut == cut[..m] + [cut[m]];
    FlatMapConcat(PartEntries, cut[..m], [cut[m]]);
  }

  /** A header cut to the limit still yields its leading pieces; only the piece that was cut can be misread. */
  lemma CutKeepsLeading(items: seq<Item>)
    requires EncodeBaggage(items).Cut?
    ensures var whole, cut := Split(Join(Texts(items)), ','), Split(EncodeBaggage(items).wire, ',');
            && CutShort(cut, whole)
            && DecodeBaggage(EncodeBaggage(items).wire) == DecodeItems(whole[..|cut| - 1]) + DecodeItems([cut[|cut| - 1]])
  {
    EncodePanicsIff(items);
    var wire, w := Join(Texts(items)), EncodeBaggage(items).wire;
    assert w != [] && w == wire[..|w|];
    DecodeCutShort(wire, |w|);
  }
}
