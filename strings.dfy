/**
 * The two pieces of java.lang.String behaviour the resolver relies on:
 * String.equalsIgnoreCase, restricted to ASCII letters, and the decimal
 * rendering of a non-negative int that string concatenation performs.
 */
module Strings {

  /** Character.toUpperCase on ASCII; every other character maps to itself. */
  function Upper(c: char): char
  {
    if 'a' <= c <= 'z' then (c as int - 32) as char else c
  }

  /** Character.toLowerCase on ASCII; every other character maps to itself. */
  function Lower(c: char): char
  {
    if 'A' <= c <= 'Z' then (c as int + 32) as char else c
  }

  /** The per-character test of String.regionMatches(ignoreCase = true). */
  predicate CharEqualsIgnoreCase(c1: char, c2: char)
  {
    c1 == c2 || Upper(c1) == Upper(c2) || Lower(Upper(c1)) == Lower(Upper(c2))
  }

  /** String.equalsIgnoreCase: equal lengths and every position matches ignoring case. */
  predicate EqualsIgnoreCase(a: string, b: string)
  {
    |a| == |b| && forall i :: 0 <= i < |a| ==> CharEqualsIgnoreCase(a[i], b[i])
  }

  /** The ASCII lower-case fold of a whole string. */
  function Fold(s: string): (r: string)
    ensures |r| == |s|
  {
    seq(|s|, i requires 0 <= i < |s| => Lower(s[i]))
  }

  /** Two characters match ignoring case exactly when their lower-case folds agree. */
  lemma CharEqualsIgnoreCaseIsLowerEq(c1: char, c2: char)
    ensures CharEqualsIgnoreCase(c1, c2) <==> Lower(c1) == Lower(c2)
  {
  }

  /** equalsIgnoreCase is equality of folds, hence an equivalence relation. */
  lemma EqualsIgnoreCaseIsFoldEq(a: string, b: string)
    ensures EqualsIgnoreCase(a, b) <==> Fold(a) == Fold(b)
  {
    if EqualsIgnoreCase(a, b) {
      forall i | 0 <= i < |a| ensures Fold(a)[i] == Fold(b)[i] {
        CharEqualsIgnoreCaseIsLowerEq(a[i], b[i]);
      }
    }
    if Fold(a) == Fold(b) {
      forall i | 0 <= i < |a| ensures CharEqualsIgnoreCase(a[i], b[i]) {
        assert Fold(a)[i] == Fold(b)[i];
        CharEqualsIgnoreCaseIsLowerEq(a[i], b[i]);
      }
    }
  }

  /** The fold-equality view of every pair of strings at once. */
  lemma FoldView()
    ensures forall a, b :: EqualsIgnoreCase(a, b) <==> Fold(a) == Fold(b)
  {
    forall a, b ensures EqualsIgnoreCase(a, b) <==> Fold(a) == Fold(b) {
      EqualsIgnoreCaseIsFoldEq(a, b);
    }
  }

  lemma FoldAppend(a: string, b: string)
    ensures Fold(a + b) == Fold(a) + Fold(b)
  {
    assert forall i :: 0 <= i < |a + b| ==> Fold(a + b)[i] == (Fold(a) + Fold(b))[i];
  }

  predicate IsDigit(c: char)
  {
    '0' <= c <= '9'
  }

  function DigitChar(d: nat): (c: char)
    requires d < 10
  {
    (d + '0' as int) as char
  }

  function DigitValue(c: char): nat
    requires IsDigit(c)
  {
    c as int - '0' as int
  }

  /** Integer.toString of a non-negative value: decimal, no sign, no leading zeros. */
  function NatToString(n: nat): (s: string)
    ensures 1 <= |s|
    ensures forall i :: 0 <= i < |s| ==> IsDigit(s[i])
    ensures n > 0 ==> s[0] != '0'
  {
    if n < 10 then [DigitChar(n)] else NatToString(n / 10) + [DigitChar(n % 10)]
  }

  /** The value of a string of decimal digits (Integer.parseInt on such strings). */
  function ParseDecimal(s: string): nat
    requires forall i :: 0 <= i < |s| ==> IsDigit(s[i])
  {
    if s == [] then 0 else ParseDecimal(s[..|s| - 1]) * 10 + DigitValue(s[|s| - 1])
  }

  /** Parsing the rendering gives the number back. */
  lemma {:induction false} ParseNatToString(n: nat)
    ensures ParseDecimal(NatToString(n)) == n
  {
    var s := NatToString(n);
    if n >= 10 {
      ParseNatToString(n / 10);
      assert s[..|s| - 1] == NatToString(n / 10);
    } else {
      assert s[..0] == [];
    }
  }

  /** Distinct numbers render to distinct strings. */
  lemma NatToStringInjective(a: nat, b: nat)
    ensures NatToString(a) == NatToString(b) ==> a == b
  {
    ParseNatToString(a);
    ParseNatToString(b);
  }

  /** Digits have no case, so folding leaves a rendered number as it is. */
  lemma FoldDigits(s: string)
    requires forall i :: 0 <= i < |s| ==> IsDigit(s[i])
    ensures Fold(s) == s
  {
  }
}
