/** Strings the way Python and SQL treat them: ordering by code point, stripping, and lower case over ASCII. */
module Text {

  /** The order of two strings, as `<=` compares them. */
  predicate Leq(a: string, b: string) {
    a == [] || (b != [] && (a[0] < b[0] || (a[0] == b[0] && Leq(a[1..], b[1..]))))
  }

  lemma {:induction false} LeqTotal(a: string, b: string)
    ensures Leq(a, b) || Leq(b, a)
  {
    if a != [] && b != [] && a[0] == b[0] {
      LeqTotal(a[1..], b[1..]);
    }
  }

  lemma {:induction false} LeqAntisymmetric(a: string, b: string)
    requires Leq(a, b) && Leq(b, a)
    ensures a == b
  {
    if a != [] {
      LeqAntisymmetric(a[1..], b[1..]);
      assert a == [a[0]] + a[1..] && b == [b[0]] + b[1..];
    }
  }

  lemma {:induction false} LeqTransitive(a: string, b: string, c: string)
    requires Leq(a, b) && Leq(b, c)
    ensures Leq(a, c)
  {
    if a != [] && a[0] == b[0] && b[0] == c[0] {
      LeqTransitive(a[1..], b[1..], c[1..]);
    }
  }

  /** A common prefix does not change the order. */
  lemma {:induction false} LeqSamePrefix(p: string, a: string, b: string)
    ensures Leq(p + a, p + b) <==> Leq(a, b)
  {
    if p == [] {
      assert p + a == a && p + b == b;
    } else {
      assert (p + a)[1..] == p[1..] + a && (p + b)[1..] == p[1..] + b;
      LeqSamePrefix(p[1..], a, b);
    }
  }

  /** The whitespace `str.strip` removes. */
  predicate IsSpace(c: char) {
    var n := c as int;
    || 9 <= n <= 13 || 28 <= n <= 32 || n == 0x85 || n == 0xA0 || n == 0x1680 || 0x2000 <= n <= 0x200A
    || n == 0x2028 || n == 0x2029 || n == 0x202F || n == 0x205F || n == 0x3000
  }

  /** Removing from both ends the characters that `blank` accepts. */
  function Trim(s: string, blank: char -> bool): string {
    TrimRight(TrimLeft(s, blank), blank)
  }

  function TrimLeft(s: string, blank: char -> bool): string {
    if s != [] && blank(s[0]) then TrimLeft(s[1..], blank) else s
  }

  function TrimRight(s: string, blank: char -> bool): string {
    if s != [] && blank(s[|s| - 1]) then TrimRight(s[..|s| - 1], blank) else s
  }

  /** Python's `str.strip()`. */
  function Strip(s: string): string {
    Trim(s, IsSpace)
  }

  predicate IsBlank(c: char) {
    c == ' '
  }

  /** SQL's `btrim(s)` and `trim(s)`: spaces only. */
  function Btrim(s: string): string {
    Trim(s, IsBlank)
  }

  predicate All(s: string, blank: char -> bool) {
    forall c <- s :: blank(c)
  }

  /** Nothing is left to trim. */
  predicate IsTrimmed(s: string, blank: char -> bool) {
    s == "" || (!blank(s[0]) && !blank(s[|s| - 1]))
  }

  lemma {:induction false} TrimLeftParts(s: string, blank: char -> bool) returns (left: string)
    ensures s == left + TrimLeft(s, blank) && All(left, blank)
    ensures TrimLeft(s, blank) == "" || !blank(TrimLeft(s, blank)[0])
  {
    left := "";
    if s != [] && blank(s[0]) {
      var rest := TrimLeftParts(s[1..], blank);
      left := [s[0]] + rest;
      assert s == [s[0]] + s[1..];
    }
  }

  lemma {:induction false} TrimRightParts(s: string, blank: char -> bool) returns (right: string)
    ensures s == TrimRight(s, blank) + right && All(right, blank)
    ensures TrimRight(s, blank) == "" || !blank(TrimRight(s, blank)[|TrimRight(s, blank)| - 1])
  {
    right := "";
    if s != [] && blank(s[|s| - 1]) {
      var rest := TrimRightParts(s[..|s| - 1], blank);
      right := rest + [s[|s| - 1]];
      assert s == s[..|s| - 1] + [s[|s| - 1]];
    }
  }

  /** Trimming takes blank characters off the two ends, and no more can be taken. */
  lemma TrimParts(s: string, blank: char -> bool) returns (left: string, right: string)
    ensures s == left + Trim(s, blank) + right && All(left, blank) && All(right, blank)
    ensures IsTrimmed(Trim(s, blank), blank)
  {
    left := TrimLeftParts(s, blank);
    right := TrimRightParts(TrimLeft(s, blank), blank);
    var m := Trim(s, blank);
    hide TrimLeft, TrimRight, All;
    assert m != "" ==> m[0] == TrimLeft(s, blank)[0];
  }

  lemma {:induction false} TrimLeftSkips(left: string, s: string, blank: char -> bool)
    requires All(left, blank)
    ensures TrimLeft(left + s, blank) == TrimLeft(s, blank)
  {
    if left == "" {
      assert left + s == s;
    } else {
      assert (left + s)[1..] == left[1..] + s && left[0] in left;
      TrimLeftSkips(left[1..], s, blank);
    }
  }

  lemma {:induction false} TrimRightSkips(s: string, right: string, blank: char -> bool)
    requires All(right, blank)
    ensures TrimRight(s + right, blank) == TrimRight(s, blank)
  {
    if right == "" {
      assert s + right == s;
    } else {
      var n := |right| - 1;
      assert (s + right)[..|s| + n] == s + right[..n] && right[n] in right;
      TrimRightSkips(s, right[..n], blank);
    }
  }

  /** And that determines the result. */
  lemma TrimIs(left: string, middle: string, right: string, blank: char -> bool)
    requires All(left, blank) && All(right, blank) && IsTrimmed(middle, blank)
    ensures Trim(left + middle + right, blank) == middle
  {
    assert left + middle + right == left + (middle + right);
    TrimLeftSkips(left, middle + right, blank);
    if middle == "" {
      assert middle + right == right + "";
      TrimLeftSkips(right, "", blank);
    } else {
      TrimRightSkips(middle, right, blank);
    }
  }

  /** A trimmed string is left as it is. */
  lemma TrimmedStays(s: string, blank: char -> bool)
    requires IsTrimmed(s, blank)
    ensures Trim(s, blank) == s
  {
    TrimIs("", s, "", blank);
    assert "" + s + "" == s;
  }

  function LowerChar(c: char): char {
    if 'A' <= c <= 'Z' then c - 'A' + 'a' else c
  }

  function Lower(s: string): (r: string)
    ensures |r| == |s| && forall i :: 0 <= i < |s| ==> r[i] == LowerChar(s[i])
  {
    seq(|s|, i requires 0 <= i < |s| => LowerChar(s[i]))
  }

  lemma Regroup<T>(a: seq<T>, b: seq<T>, c: seq<T>)
    ensures a + (b + c) == a + b + c
  {
  }
}
