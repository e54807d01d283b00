/**
  The part of PHP's runtime that the two batch scripts rely on: `trim`, `empty`,
  `explode`, `stripos` and the character classes of PCRE (PHP's regex engine)
  when the pattern has no `u` modifier. Strings are sequences of characters; every
  class below is ASCII, so a multi-byte UTF-8 character (the Cyrillic product
  names) is never in any of them, exactly as none of its bytes would be.
*/
module Php {

  datatype Option<+T> = None | Some(value: T)

  /** PHP_INT_MAX on a 64-bit build. */
  const IntMax: int := 0x7FFF_FFFF_FFFF_FFFF

  /** PCRE `\s`: space, tab, line feed, vertical tab, form feed, carriage return. */
  predicate IsSpace(c: char) {
    c == ' ' || c == '\t' || c == '\n' || c == '\U{B}' || c == '\U{C}' || c == '\r'
  }

  /** PCRE `\d`. */
  predicate IsDigit(c: char) { '0' <= c <= '9' }

  predicate IsLetter(c: char) { 'a' <= c <= 'z' || 'A' <= c <= 'Z' }

  /** `[a-zA-Z0-9]` */
  predicate IsAlnum(c: char) { IsLetter(c) || IsDigit(c) }

  /** The characters `trim` strips when given no character list: " \t\n\r\0\x0B". */
  predicate IsTrimmed(c: char) {
    c == ' ' || c == '\t' || c == '\n' || c == '\r' || c == '\0' || c == '\U{B}'
  }

  predicate StartsWith(s: string, prefix: string) {
    |prefix| <= |s| && s[..|prefix|] == prefix
  }

  /** Where a greedy character-class repetition that starts at `i` stops. */
  function SpanAt(s: string, i: nat, p: char -> bool): (j: nat)
    requires i <= |s|
    ensures i <= j <= |s|
    ensures forall k :: i <= k < j ==> p(s[k])
    ensures j == |s| || !p(s[j])
    decreases |s| - i
  {
    if i == |s| || !p(s[i]) then i else SpanAt(s, i + 1, p)
  }

  /** A run of `p` characters from `i` that stops at `j` is where `SpanAt` stops. */
  lemma {:induction false} SpanAtExact(s: string, i: nat, p: char -> bool, j: nat)
    requires i <= j <= |s|
    requires forall k :: i <= k < j ==> p(s[k])
    requires j == |s| || !p(s[j])
    ensures SpanAt(s, i, p) == j
    decreases j - i
  {
    if i < j {
      SpanAtExact(s, i + 1, p, j);
    }
  }

  /** Length of the longest prefix of `s` whose characters all satisfy `p`:
      what a greedy repetition at the start of `s` consumes. */
  function Span(s: string, p: char -> bool): (n: nat)
    ensures n <= |s|
    ensures forall k :: 0 <= k < n ==> p(s[k])
    ensures n == |s| || !p(s[n])
  {
    SpanAt(s, 0, p)
  }

  /** A run of `p` characters at the start of `s` that ends at `n` is the whole span. */
  lemma SpanExact(s: string, p: char -> bool, n: nat)
    requires n <= |s|
    requires forall k :: 0 <= k < n ==> p(s[k])
    requires n == |s| || !p(s[n])
    ensures Span(s, p) == n
  {
    SpanAtExact(s, 0, p, n);
  }

  /** Index of the first occurrence of `c` in `s`. */
  function IndexOf(s: string, c: char): (i: nat)
    requires c in s
    ensures i < |s| && s[i] == c && c !in s[..i]
  {
    if s[0] == c then 0 else 1 + IndexOf(s[1..], c)
  }

  /** PHP `empty()` on a string: true for "" and for "0". */
  predicate IsEmpty(s: string) { s == "" || s == "0" }

  /** Where a greedy run of `p` characters that ends at `j` starts, scanning
      back no further than `lo`. */
  function SpanBackAt(s: string, j: nat, lo: nat, p: char -> bool): (i: nat)
    requires lo <= j <= |s|
    ensures lo <= i <= j
    ensures forall k :: i <= k < j ==> p(s[k])
    ensures i == lo || !p(s[i - 1])
    decreases j - lo
  {
    if j == lo || !p(s[j - 1]) then j else SpanBackAt(s, j - 1, lo, p)
  }

  /** PHP `trim($s)`: strips the default characters from both ends. The result is
      the slice of `s` between the first and the last character that is kept, so a
      line of `s` stays free of line feeds. */
  function Trim(s: string): (r: string)
    ensures var a := SpanAt(s, 0, IsTrimmed);
              && a + |r| <= |s| && r == s[a..a + |r|]
              && (forall k :: 0 <= k < a ==> IsTrimmed(s[k]))
              && (forall k :: a + |r| <= k < |s| ==> IsTrimmed(s[k]))
    ensures r == [] || (!IsTrimmed(r[0]) && !IsTrimmed(r[|r| - 1]))
    ensures '\n' !in s ==> '\n' !in r
  {
    var a := SpanAt(s, 0, IsTrimmed);
    var b := SpanBackAt(s, |s|, a, IsTrimmed);
    SliceHasNoNewline(s, a, b);
    s[a..b]
  }

  lemma SliceHasNoNewline(s: string, a: nat, b: nat)
    requires a <= b <= |s|
    ensures '\n' !in s ==> '\n' !in s[a..b]
  {
    if '\n' in s[a..b] {
      var k :| 0 <= k < b - a && s[a..b][k] == '\n';
      assert s[a + k] == '\n';
    }
  }

  /** PHP `explode("\n", $s)`. */
  function Split(s: string): (lines: seq<string>)
    ensures |lines| > 0
    ensures forall k :: 0 <= k < |lines| ==> '\n' !in lines[k]
    decreases |s|
  {
    if '\n' in s then
      var i := IndexOf(s, '\n');
      [s[..i]] + Split(s[i + 1..])
    else
      [s]
  }

  /** PHP `implode("\n", $lines)`: the first line, then, if there are more, a line
      feed and the rest joined. */
  function Join(lines: seq<string>): (s: string)
    requires |lines| > 0
    ensures StartsWith(s, lines[0])
    ensures |lines| == 1 ==> s == lines[0]
    ensures |lines| > 1 ==> |lines[0]| < |s| && s[|lines[0]|] == '\n'
  {
    if |lines| == 1 then lines[0] else lines[0] + "\n" + Join(lines[1..])
  }

  /** Joining the lines back gives the text that was split. */
  lemma {:induction false} JoinSplit(s: string)
    ensures Join(Split(s)) == s
    decreases |s|
  {
    if '\n' in s {
      var i := IndexOf(s, '\n');
      JoinSplit(s[i + 1..]);
      assert s == s[..i] + "\n" + s[i + 1..];
    }
  }

  /** Splitting joined lines that hold no line feed gives the lines back. */
  lemma {:induction false} SplitJoin(lines: seq<string>)
    requires |lines| > 0
    requires forall k :: 0 <= k < |lines| ==> '\n' !in lines[k]
    ensures Split(Join(lines)) == lines
  {
    if |lines| > 1 {
      SplitJoin(lines[1..]);
      var s := Join(lines);
      assert s == lines[0] + "\n" + Join(lines[1..]);
      assert s[|lines[0]|] == '\n';
      assert s[..|lines[0]|] == lines[0];
      assert IndexOf(s, '\n') == |lines[0]|;
      assert s[|lines[0]| + 1..] == Join(lines[1..]);
    }
  }

  /** ASCII case folding, as `stripos` does for the bytes of a name. */
  function Lower(c: char): char {
    if 'A' <= c <= 'Z' then (c as int + 32) as char else c
  }

  function LowerAll(s: string): (r: string)
    ensures |r| == |s| && forall k :: 0 <= k < |s| ==> r[k] == Lower(s[k])
  {
    seq(|s|, k requires 0 <= k < |s| => Lower(s[k]))
  }

  /** `needle` occurs, ignoring ASCII case, in `hay` starting at `i`. */
  predicate OccursAt(hay: string, needle: string, i: nat) {
    i + |needle| <= |hay| && LowerAll(hay[i..i + |needle|]) == LowerAll(needle)
  }

  /** PHP `stripos($hay, $needle, $from)`: the first case-insensitive occurrence
      at or after `from`, or nothing. */
  function StrIPos(hay: string, needle: string, from: nat := 0): (r: Option<nat>)
    ensures r.Some? ==>
              && from <= r.value && OccursAt(hay, needle, r.value)
              && forall j :: from <= j < r.value ==> !OccursAt(hay, needle, j)
    ensures r.None? ==> forall j :: from <= j ==> !OccursAt(hay, needle, j)
    decreases |hay| - from
  {
    if from + |needle| > |hay| then None
    else if OccursAt(hay, needle, from) then Some(from)
    else StrIPos(hay, needle, from + 1)
  }

  /** PHP `explode(' ', $s, 2)` followed by `isset($parts[1]) ? $parts[1] : $s`:
      the text after the first space, or all of `s` when it holds no space. */
  function AfterFirstSpace(s: string): (r: string)
    ensures ' ' !in s ==> r == s
    ensures ' ' in s ==>
              && |r| < |s| && s == s[..|s| - |r| - 1] + " " + r
              && ' ' !in s[..|s| - |r| - 1]
  {
    if ' ' in s then
      var i := IndexOf(s, ' ');
      assert s == s[..i] + " " + s[i + 1..];
      s[i + 1..]
    else
      s
  }

  /** The first space of `s` at `i` leaves the text after it. */
  lemma AfterSpaceAt(s: string, i: nat)
    requires i < |s| && s[i] == ' '
    requires forall k :: 0 <= k < i ==> s[k] != ' '
    ensures AfterFirstSpace(s) == s[i + 1..]
  {
    assert IndexOf(s, ' ') == i by {
      assert ' ' !in s[..i];
    }
  }

  /** How many elements of `s` satisfy `p`. */
  function Count<T>(s: seq<T>, p: T -> bool): (n: nat)
    ensures n <= |s|
  {
    if |s| == 0 then 0
    else Count(s[..|s| - 1], p) + (if p(s[|s| - 1]) then 1 else 0)
  }

  lemma {:induction false} CountAppend<T>(a: seq<T>, b: seq<T>, p: T -> bool)
    ensures Count(a + b, p) == Count(a, p) + Count(b, p)
    decreases |b|
  {
    if |b| == 0 {
      assert a + b == a;
    } else {
      assert (a + b)[..|a + b| - 1] == a + b[..|b| - 1];
      assert (a + b)[|a + b| - 1] == b[|b| - 1];
      CountAppend(a, b[..|b| - 1], p);
    }
  }

  /** The elements of `s` that satisfy `p`, in their order in `s`. */
  function Filter<T(!new)>(s: seq<T>, p: T -> bool): (r: seq<T>)
    ensures |r| <= |s|
    ensures forall x :: x in r <==> x in s && p(x)
  {
    if |s| == 0 then []
    else Filter(s[..|s| - 1], p) + (if p(s[|s| - 1]) then [s[|s| - 1]] else [])
  }

  /** Filtering works piece by piece, so it keeps the order of `s`. */
  lemma {:induction false} FilterAppend<T(!new)>(a: seq<T>, b: seq<T>, p: T -> bool)
    ensures Filter(a + b, p) == Filter(a, p) + Filter(b, p)
    decreases |b|
  {
    if |b| == 0 {
      assert a + b == a;
    } else {
      assert (a + b)[..|a + b| - 1] == a + b[..|b| - 1];
      assert (a + b)[|a + b| - 1] == b[|b| - 1];
      FilterAppend(a, b[..|b| - 1], p);
    }
  }

  /** A single element is kept exactly when it satisfies `p`. */
  lemma FilterSingle<T(!new)>(x: T, p: T -> bool)
    ensures Filter([x], p) == if p(x) then [x] else []
  {
    assert [x][..0] == [];
  }
}
