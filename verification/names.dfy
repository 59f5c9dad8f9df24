/**
  Symbol names as the compiler builds and orders them: decimal printing of the
  counter that numbers generated names (`_a3`, `_i4`), the prefix tests the passes
  use to tell generated names from user names, and Python's ordering of `str`
  values, which `sorted` uses when the passes list arguments and indices.
*/
module Names {

  predicate IsDigit(c: char) {
    '0' <= c <= '9'
  }

  function DigitChar(d: nat): (c: char)
    requires d < 10
    ensures IsDigit(c)
  {
    ('0' as int + d) as char
  }

  function DigitValue(c: char): (d: nat)
    requires IsDigit(c)
    ensures d < 10
  {
    c as int - '0' as int
  }

  predicate AllDigits(s: string) {
    forall i :: 0 <= i < |s| ==> IsDigit(s[i])
  }

  /** Python's `str(n)` for a natural number. */
  function NatToString(n: nat): (s: string)
    ensures |s| >= 1 && AllDigits(s)
  {
    if n < 10 then [DigitChar(n)] else NatToString(n / 10) + [DigitChar(n % 10)]
  }

  /** Python's `int(s)` for a string of decimal digits; the inverse of NatToString. */
  function ParseNat(s: string): nat
    requires AllDigits(s)
  {
    if s == [] then 0 else ParseNat(s[..|s| - 1]) * 10 + DigitValue(s[|s| - 1])
  }

  lemma {:induction false} ParseNatToString(n: nat)
    ensures ParseNat(NatToString(n)) == n
  {
    if n >= 10 {
      var s := NatToString(n / 10);
      var t := s + [DigitChar(n % 10)];
      assert t[..|t| - 1] == s;
      ParseNatToString(n / 10);
    }
  }

  lemma NatToStringInjective(a: nat, b: nat)
    ensures NatToString(a) == NatToString(b) <==> a == b
  {
    ParseNatToString(a);
    ParseNatToString(b);
  }

  /** The name `generate_unique_array_name` returns for a table of size `k`. */
  function ArrayName(k: nat): string {
    "_a" + NatToString(k)
  }

  /** The name `generate_unique_index_name` returns for a table of size `k`. */
  function IndexName(k: nat): string {
    "_i" + NatToString(k)
  }

  lemma {:induction false} GeneratedNamesDistinct(j: nat, k: nat)
    ensures ArrayName(j) == ArrayName(k) <==> j == k
    ensures IndexName(j) == IndexName(k) <==> j == k
    ensures ArrayName(j) != IndexName(k)
  {
    NatToStringInjective(j, k);
    if ArrayName(j) == ArrayName(k) {
      assert NatToString(j) == ArrayName(j)[2..];
      assert NatToString(k) == ArrayName(k)[2..];
    }
    if IndexName(j) == IndexName(k) {
      assert NatToString(j) == IndexName(j)[2..];
      assert NatToString(k) == IndexName(k)[2..];
    }
    assert ArrayName(j)[1] == 'a' && IndexName(k)[1] == 'i';
  }

  /** Python's `s.startswith(prefix)`. */
  predicate StartsWith(s: string, prefix: string) {
    |prefix| <= |s| && s[..|prefix|] == prefix
  }

  lemma GeneratedNamePrefixes(k: nat)
    ensures StartsWith(ArrayName(k), "_a") && !StartsWith(ArrayName(k), "_i")
    ensures StartsWith(IndexName(k), "_i") && !StartsWith(IndexName(k), "_a")
    ensures StartsWith(ArrayName(k), "_") && StartsWith(IndexName(k), "_")
  {
    assert ArrayName(k)[..2] == "_a";
    assert IndexName(k)[..2] == "_i";
    assert ArrayName(k)[..1] == "_";
    assert IndexName(k)[..1] == "_";
  }

  // Python compares `str` values lexicographically by code point.

  predicate LexLessEq(a: string, b: string)
    decreases |a|
  {
    if a == [] then true
    else if b == [] then false
    else if a[0] != b[0] then a[0] < b[0]
    else LexLessEq(a[1..], b[1..])
  }

  predicate LexLess(a: string, b: string) {
    LexLessEq(a, b) && a != b
  }

  lemma {:induction false} LexTotal(a: string, b: string)
    ensures LexLessEq(a, b) || LexLessEq(b, a)
    decreases |a|
  {
    if a != [] && b != [] && a[0] == b[0] {
      LexTotal(a[1..], b[1..]);
    }
  }

  lemma {:induction false} LexAntisymmetric(a: string, b: string)
    requires LexLessEq(a, b) && LexLessEq(b, a)
    ensures a == b
    decreases |a|
  {
    if a != [] && b != [] {
      LexAntisymmetric(a[1..], b[1..]);
      assert a == [a[0]] + a[1..] && b == [b[0]] + b[1..];
    }
  }

  lemma {:induction false} LexTransitive(a: string, b: string, c: string)
    requires LexLessEq(a, b) && LexLessEq(b, c)
    ensures LexLessEq(a, c)
    decreases |a|
  {
    if a != [] && b != [] && c != [] && a[0] == b[0] && b[0] == c[0] {
      LexTransitive(a[1..], b[1..], c[1..]);
    }
  }

  /** Strictly ascending under Python's string order: `sorted` of a set. */
  predicate StrictlySorted(s: seq<string>) {
    forall i, j :: 0 <= i < j < |s| ==> LexLess(s[i], s[j])
  }

  lemma {:induction false} MinimumExists(names: set<string>)
    requires names != {}
    ensures exists m :: m in names && forall x :: x in names ==> LexLessEq(m, x)
    decreases |names|
  {
    var y :| y in names;
    var rest := names - {y};
    if rest == {} {
      assert names == {y};
      assert forall x :: x in names ==> x == y;
      LexTotal(y, y);
    } else {
      MinimumExists(rest);
      var m :| m in rest && forall x :: x in rest ==> LexLessEq(m, x);
      LexTotal(y, m);
      if LexLessEq(y, m) {
        forall x | x in names ensures LexLessEq(y, x) {
          if x != y { LexTransitive(y, m, x); } else { LexTotal(y, y); }
        }
      } else {
        assert forall x :: x in names ==> x == y || x in rest;
      }
    }
  }

  /** Python's `sorted(names)` for a set of strings. */
  method SortedNames(names: set<string>) returns (r: seq<string>)
    ensures StrictlySorted(r)
    ensures forall x :: x in r <==> x in names
    ensures |r| == |names|
  {
    r := [];
    var rest := names;
    while rest != {}
      invariant StrictlySorted(r)
      invariant rest <= names
      invariant forall x :: x in names <==> x in r || x in rest
      invariant forall i, x :: 0 <= i < |r| && x in rest ==> LexLess(r[i], x)
      invariant |r| + |rest| == |names|
      decreases |rest|
    {
      MinimumExists(rest);
      var m :| m in rest && forall x :: x in rest ==> LexLessEq(m, x);
      r := r + [m];
      rest := rest - {m};
    }
  }
}
