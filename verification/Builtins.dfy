/** The JavaScript built-ins the planner's logic is written with, stated on
    Dafny sequences: `String.prototype.includes`, `String(n)`, `split(sep)[0]`,
    `Array.prototype.indexOf` and `[...new Set(xs)]`. */
module Builtins {

  /** `hay.includes(needle)`: needle occurs somewhere in hay (the empty
      needle occurs everywhere). */
  predicate Includes<T(==)>(hay: seq<T>, needle: seq<T>)
    decreases |hay|
  {
    needle <= hay || (hay != [] && Includes(hay[1..], needle))
  }

  /** Includes agrees with the positional definition of an occurrence. */
  lemma {:induction false} IncludesIffOccurs<T>(hay: seq<T>, needle: seq<T>)
    ensures Includes(hay, needle) <==> exists i :: 0 <= i <= |hay| && needle <= hay[i..]
    decreases |hay|
  {
    if needle <= hay {
      assert hay[0..] == hay;
    } else if hay != [] {
      IncludesIffOccurs(hay[1..], needle);
      if Includes(hay[1..], needle) {
        var i :| 0 <= i <= |hay[1..]| && needle <= hay[1..][i..];
        assert hay[1..][i..] == hay[i + 1..];
      } else {
        forall i | 0 <= i <= |hay|
          ensures !(needle <= hay[i..])
        {
          if i > 0 {
            assert hay[1..][i - 1..] == hay[i..];
          } else {
            assert hay[0..] == hay;
          }
        }
      }
    } else {
      forall i | 0 <= i <= |hay|
        ensures !(needle <= hay[i..])
      {
        assert hay[i..] == hay;
      }
    }
  }

  /** The decimal digit character for d. */
  function Digit(d: nat): (c: char)
    requires d < 10
    ensures '0' <= c <= '9' && c as int - '0' as int == d
  {
    ('0' as int + d) as char
  }

  /** `String(n)` for a natural number: its decimal digits, no leading zero. */
  function DecimalString(n: nat): (r: string)
    ensures |r| > 0
    ensures forall i :: 0 <= i < |r| ==> '0' <= r[i] <= '9'
    ensures |r| > 1 ==> r[0] != '0'
  {
    if n < 10 then [Digit(n)] else DecimalString(n / 10) + [Digit(n % 10)]
  }

  /** The number a string of decimal digits denotes. */
  function DigitsValue(s: string): nat
    requires forall i :: 0 <= i < |s| ==> '0' <= s[i] <= '9'
  {
    if s == [] then 0 else 10 * DigitsValue(s[..|s| - 1]) + (s[|s| - 1] as int - '0' as int)
  }

  /** Reading back the decimal form of n gives n. */
  lemma {:induction false} DecimalStringRoundTrip(n: nat)
    ensures DigitsValue(DecimalString(n)) == n
  {
    if n >= 10 {
      DecimalStringRoundTrip(n / 10);
      var r := DecimalString(n);
      assert r[..|r| - 1] == DecimalString(n / 10);
    }
  }

  /** `s.split(sep)[0]`: the text before the first separator, or all of s. */
  function SplitHead(s: string, sep: char): (r: string)
    ensures r <= s && sep !in r
    ensures |r| < |s| ==> s[|r|] == sep
  {
    if s == [] || s[0] == sep then [] else [s[0]] + SplitHead(s[1..], sep)
  }

  /** `s.indexOf(x)`: the first position holding x, or -1 when there is none. */
  function IndexOf<T(==)>(s: seq<T>, x: T): (r: int)
    ensures -1 <= r < |s|
    ensures r == -1 <==> x !in s
    ensures 0 <= r ==> s[r] == x && x !in s[..r]
  {
    if s == [] then -1
    else if s[0] == x then 0
    else
      var k := IndexOf(s[1..], x);
      if k == -1 then -1
      else
        assert s[..k + 1] == [s[0]] + s[1..][..k];
        k + 1
  }

  predicate NoDuplicates<T(==)>(s: seq<T>) {
    forall i, j :: 0 <= i < j < |s| ==> s[i] != s[j]
  }

  /** In a sequence without repetitions, the element at p is found at p. */
  lemma IndexOfUnique<T>(s: seq<T>, p: nat)
    requires NoDuplicates(s) && p < |s|
    ensures IndexOf(s, s[p]) == p
  {
  }

  /** `[...new Set(s)]`: the distinct elements of s in first-occurrence order. */
  function Distinct<T(==)>(s: seq<T>): (r: seq<T>)
    ensures NoDuplicates(r)
    ensures forall x :: x in r ==> x in s
    ensures forall i :: 0 <= i < |s| ==> s[i] in r
    decreases |s|
  {
    if s == [] then []
    else
      var d := Distinct(s[..|s| - 1]);
      assert s == s[..|s| - 1] + [s[|s| - 1]];
      if s[|s| - 1] in d then d else d + [s[|s| - 1]]
  }

  /** The distinct elements of a prefix are a prefix of the distinct elements. */
  lemma {:induction false} DistinctOfPrefix<T>(s: seq<T>, j: nat)
    requires j <= |s|
    ensures Distinct(s[..j]) <= Distinct(s)
    decreases |s|
  {
    if j < |s| {
      var init := s[..|s| - 1];
      assert init[..j] == s[..j];
      DistinctOfPrefix(init, j);
      assert Distinct(init) <= Distinct(s);
    } else {
      assert s[..j] == s;
    }
  }

  /** An element first seen at position i of s sits, among the distinct
      elements, right after the distinct elements of s[..i]. */
  lemma DistinctIndexOfFirst<T>(s: seq<T>, i: nat)
    requires i < |s| && s[i] !in s[..i]
    ensures IndexOf(Distinct(s), s[i]) == |Distinct(s[..i])|
  {
    var prefix := s[..i + 1];
    assert prefix[..|prefix| - 1] == s[..i];
    assert Distinct(prefix) == Distinct(s[..i]) + [s[i]];
    DistinctOfPrefix(s, i + 1);
    var p := |Distinct(s[..i])|;
    assert Distinct(s)[p] == s[i];
    IndexOfUnique(Distinct(s), p);
  }

  /** A subset has no more elements than its superset. */
  lemma SubsetCardinality<T>(a: set<T>, b: set<T>)
    requires a <= b
    ensures |a| <= |b|
  {
    assert b == a + (b - a);
  }

  /** xs is ys with some elements dropped, the rest kept in order. */
  predicate IsSubsequence<T(==)>(xs: seq<T>, ys: seq<T>)
    decreases |ys|
  {
    xs == []
    || (ys != [] && ((xs[0] == ys[0] && IsSubsequence(xs[1..], ys[1..])) || IsSubsequence(xs, ys[1..])))
  }
}
