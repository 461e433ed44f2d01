/**
 * Python value semantics the persistence layer relies on: truthiness of
 * optional strings and integers, the `or` operator, `str.lower`, substring
 * tests, the CJK test of the free-text search, and SQLite's ordering of TEXT.
 */
module Text {
  import opened Wrappers

  /** Python truthiness of a nullable string: `None` and `""` are false. */
  predicate Truthy(s: Option<string>) {
    s.Some? && |s.value| > 0
  }

  /** Python truthiness of a nullable integer: `None` and `0` are false. */
  predicate TruthyInt(x: Option<int>) {
    x.Some? && x.value != 0
  }

  /** Python's `a or b` on nullable strings. */
  function Or(a: Option<string>, b: Option<string>): Option<string> {
    if Truthy(a) then a else b
  }

  /** Python's `a or ''`: a nullable string read as a plain one. */
  function OrEmpty(a: Option<string>): string {
    if Truthy(a) then a.value else ""
  }

  /** `str.lower` on one character; only the ASCII letters are mapped. */
  function LowerChar(c: char): char {
    if 'A' <= c <= 'Z' then (c as int - 'A' as int + 'a' as int) as char else c
  }

  /** `str.lower`, character by character. */
  function Lower(s: string): (r: string)
    ensures |r| == |s|
    ensures forall i :: 0 <= i < |s| ==> r[i] == LowerChar(s[i])
  {
    seq(|s|, i requires 0 <= i < |s| => LowerChar(s[i]))
  }

  /** `needle` occurs in `hay` starting at position `i`. */
  predicate OccursAt(needle: string, hay: string, i: int) {
    0 <= i <= |hay| - |needle| && hay[i..i + |needle|] == needle
  }

  /** Python's `needle in hay` on strings. */
  predicate IsSubstring(needle: string, hay: string) {
    exists i :: 0 <= i <= |hay| - |needle| && OccursAt(needle, hay, i)
  }

  /** A character of the CJK Unified Ideographs block, U+4E00..U+9FFF. */
  predicate IsCjk(c: char) {
    '\U{4E00}' <= c <= '\U{9FFF}'
  }

  /** `any('一' <= ch <= '鿿' for ch in s)`. */
  predicate HasCjk(s: string) {
    exists i :: 0 <= i < |s| && IsCjk(s[i])
  }

  /**
   * Strict lexicographic order by code point. SQLite compares TEXT with the
   * BINARY collation, i.e. by UTF-8 bytes, and UTF-8 preserves code point order.
   */
  predicate LexLess(a: string, b: string) {
    if |b| == 0 then false
    else if |a| == 0 then true
    else if a[0] != b[0] then a[0] < b[0]
    else LexLess(a[1..], b[1..])
  }

  lemma LexLessIrreflexive(a: string)
    ensures !LexLess(a, a)
  {
  }

  lemma {:induction false} LexLessTransitive(a: string, b: string, c: string)
    requires LexLess(a, b) && LexLess(b, c)
    ensures LexLess(a, c)
    decreases |a|
  {
    if |a| > 0 && a[0] == b[0] && b[0] == c[0] {
      LexLessTransitive(a[1..], b[1..], c[1..]);
    }
  }

  lemma {:induction false} LexLessTotal(a: string, b: string)
    requires a != b
    ensures LexLess(a, b) || LexLess(b, a)
    decreases |a|
  {
    if |a| > 0 && |b| > 0 && a[0] == b[0] {
      assert a == [a[0]] + a[1..] && b == [b[0]] + b[1..];
      LexLessTotal(a[1..], b[1..]);
    }
  }

  lemma {:induction false} LexLessAsymmetric(a: string, b: string)
    requires LexLess(a, b)
    ensures !LexLess(b, a)
    decreases |a|
  {
    if |a| > 0 && a[0] == b[0] {
      LexLessAsymmetric(a[1..], b[1..]);
    }
  }
}
