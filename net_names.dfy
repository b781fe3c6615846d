/**
 * Specification of the net-name uniqueness resolver of the Verilog exporter
 * (VerilogGenerator.checkForUniqueNetNames).
 *
 * A module's nets form an ordered list; a net has a mutable name and a fixed
 * flag telling whether the user chose that name. Names are compared with
 * equalsIgnoreCase. Pass 1 visits the nets in order and renames every
 * user-named net whose current name clashes with another net's, to the first
 * candidate "s_" + name, "s_" + name + "1", "s_" + name + "2", ... that no net
 * currently holds. Pass 2 fails on the first pair that still clashes.
 *
 * Pass 1 is defined here as a function of the list (Rename, Processed,
 * Pass1); the in-place algorithm in NetNameResolver is proved to compute it.
 */
module NetNames {
  import opened Strings

  /** An HDLNet: its current name and whether that name was given by the user. */
  datatype Net = Net(name: string, userNamed: bool)

  /** Some net currently holds `name`, ignoring case. */
  predicate Holds(nets: seq<Net>, name: string)
  {
    exists j :: 0 <= j < |nets| && EqualsIgnoreCase(nets[j].name, name)
  }

  /** Net k's name equals, ignoring case, the name of some other net of the list. */
  predicate CollidesWithOther(nets: seq<Net>, k: nat)
    requires k < |nets|
  {
    exists j :: 0 <= j < |nets| && j != k && EqualsIgnoreCase(nets[k].name, nets[j].name)
  }

  /** No two different nets have names equal ignoring case. */
  predicate AllDistinct(nets: seq<Net>)
  {
    forall i, j :: 0 <= i < j < |nets| ==> !EqualsIgnoreCase(nets[i].name, nets[j].name)
  }

  /** (i, j) is the first clashing pair in the order of the nested loops i < j. */
  predicate IsFirstDuplicate(nets: seq<Net>, i: nat, j: nat)
  {
    i < j < |nets| && EqualsIgnoreCase(nets[i].name, nets[j].name) &&
    (forall i', j' :: 0 <= i' < i && i' < j' < |nets| ==> !EqualsIgnoreCase(nets[i'].name, nets[j'].name)) &&
    (forall j' :: i < j' < j ==> !EqualsIgnoreCase(nets[i].name, nets[j'].name))
  }

  /** Two nets that were both generated, not named by the user, clash ignoring case. */
  predicate HasGeneratedClash(nets: seq<Net>)
  {
    exists i, j :: 0 <= i < j < |nets| && !nets[i].userNamed && !nets[j].userNamed &&
      EqualsIgnoreCase(nets[i].name, nets[j].name)
  }

  /** The number appended to the c-th candidate: none for the first, then 1, 2, ... */
  function Suffix(c: nat): string
  {
    if c == 0 then "" else NatToString(c)
  }

  /** The c-th name tried for a renamed net whose name was `base`. */
  function Candidate(base: string, c: nat): string
  {
    "s_" + base + Suffix(c)
  }

  /** Different candidates for one base name never match ignoring case. */
  lemma CandidatesDistinct(base: string, c1: nat, c2: nat)
    ensures EqualsIgnoreCase(Candidate(base, c1), Candidate(base, c2)) ==> c1 == c2
  {
    if EqualsIgnoreCase(Candidate(base, c1), Candidate(base, c2)) {
      var p := "s_" + base;
      EqualsIgnoreCaseIsFoldEq(Candidate(base, c1), Candidate(base, c2));
      FoldAppend(p, Suffix(c1));
      FoldAppend(p, Suffix(c2));
      FoldDigits(Suffix(c1));
      FoldDigits(Suffix(c2));
      var f1, f2 := Fold(p) + Suffix(c1), Fold(p) + Suffix(c2);
      assert f1 == f2;
      assert Suffix(c1) == f1[|Fold(p)|..];
      assert Suffix(c2) == f2[|Fold(p)|..];
      if c1 != 0 && c2 != 0 {
        NatToStringInjective(c1, c2);
      }
    }
  }

  /** The nets whose names match none of the candidates before the c-th. */
  ghost function Unmatched(nets: seq<Net>, base: string, c: nat): set<nat>
  {
    set j: nat | j < |nets| &&
      forall d :: 0 <= d < c ==> !EqualsIgnoreCase(nets[j].name, Candidate(base, d))
  }

  /**
   * A taken candidate is held by a net that held none of the earlier ones,
   * so each taken candidate uses up a net: the candidate search terminates.
   */
  lemma UnmatchedShrinks(nets: seq<Net>, base: string, c: nat)
    requires Holds(nets, Candidate(base, c))
    ensures Unmatched(nets, base, c + 1) < Unmatched(nets, base, c)
  {
    var j :| 0 <= j < |nets| && EqualsIgnoreCase(nets[j].name, Candidate(base, c));
    forall d | 0 <= d < c
      ensures !EqualsIgnoreCase(nets[j].name, Candidate(base, d))
    {
      if EqualsIgnoreCase(nets[j].name, Candidate(base, d)) {
        FoldView();
        CandidatesDistinct(base, d, c);
      }
    }
    assert j in Unmatched(nets, base, c);
    assert j !in Unmatched(nets, base, c + 1);
  }

  /** The first candidate from the c-th on that no net holds. */
  function FirstFreeFrom(nets: seq<Net>, base: string, c: nat): (r: nat)
    requires forall d :: 0 <= d < c ==> Holds(nets, Candidate(base, d))
    ensures c <= r
    ensures !Holds(nets, Candidate(base, r))
    ensures forall d :: 0 <= d < r ==> Holds(nets, Candidate(base, d))
    decreases Unmatched(nets, base, c)
  {
    if !Holds(nets, Candidate(base, c)) then c
    else
      UnmatchedShrinks(nets, base, c);
      FirstFreeFrom(nets, base, c + 1)
  }

  /** The index of the first candidate for `base` that no net holds. */
  function FirstFree(nets: seq<Net>, base: string): nat
  {
    FirstFreeFrom(nets, base, 0)
  }

  /** The indices 0 .. n-1 as a set. */
  ghost function Below(n: nat): (r: set<nat>)
    ensures forall j: nat :: j in r <==> j < n
    ensures |r| == n
  {
    if n == 0 then {} else Below(n - 1) + {n - 1}
  }

  lemma SubsetCard<T>(a: set<T>, b: set<T>)
    requires a <= b
    ensures |a| <= |b|
    ensures a < b ==> |a| < |b|
  {
    assert b == a + (b - a);
  }

  /** Each taken candidate uses up one net, so at most |nets| candidates are taken before a free one. */
  lemma {:induction false} FirstFreeFromBound(nets: seq<Net>, base: string, c: nat)
    requires forall d :: 0 <= d < c ==> Holds(nets, Candidate(base, d))
    ensures FirstFreeFrom(nets, base, c) <= c + |Unmatched(nets, base, c)|
    decreases Unmatched(nets, base, c)
  {
    if Holds(nets, Candidate(base, c)) {
      UnmatchedShrinks(nets, base, c);
      SubsetCard(Unmatched(nets, base, c + 1), Unmatched(nets, base, c));
      FirstFreeFromBound(nets, base, c + 1);
    }
  }

  /**
   * The numbered suffix never exceeds the number of nets, so the int counter
   * of the name search cannot overflow.
   */
  lemma FirstFreeBound(nets: seq<Net>, base: string)
    ensures FirstFree(nets, base) <= |nets|
  {
    FirstFreeFromBound(nets, base, 0);
    SubsetCard(Unmatched(nets, base, 0), Below(|nets|));
  }

  /** A free candidate all of whose predecessors are taken is the first free one. */
  lemma FirstFreeUnique(nets: seq<Net>, base: string, c: nat)
    requires !Holds(nets, Candidate(base, c))
    requires forall d :: 0 <= d < c ==> Holds(nets, Candidate(base, d))
    ensures c == FirstFree(nets, base)
  {
    var r := FirstFree(nets, base);
    var takenC, takenR := Holds(nets, Candidate(base, c)), Holds(nets, Candidate(base, r));
    assert c < r ==> takenC;
    assert r < c ==> takenR;
  }

  /**
   * What pass 1 does for net k: a user-named net that clashes with another
   * net takes the first free candidate; otherwise the list is unchanged.
   */
  function Rename(nets: seq<Net>, k: nat): (r: seq<Net>)
    requires k < |nets|
    ensures |r| == |nets| && r[k].userNamed == nets[k].userNamed
    ensures forall j :: 0 <= j < |nets| && j != k ==> r[j] == nets[j]
  {
    if nets[k].userNamed && CollidesWithOther(nets, k) then
      nets[k := nets[k].(name := Candidate(nets[k].name, FirstFree(nets, nets[k].name)))]
    else
      nets
  }

  /** The list after pass 1 has visited nets 0 .. k-1. */
  function Processed(nets: seq<Net>, k: nat): (r: seq<Net>)
    requires k <= |nets|
    ensures |r| == |nets|
    ensures forall j :: 0 <= j < |nets| ==> r[j].userNamed == nets[j].userNamed
    decreases k
  {
    if k == 0 then nets else Rename(Processed(nets, k - 1), k - 1)
  }

  /** The list after the whole of pass 1. */
  function Pass1(nets: seq<Net>): seq<Net>
  {
    Processed(nets, |nets|)
  }

  /**
   * The name given by a rename is fresh: it matches, ignoring case, no name
   * held before the rename (not even the renamed net's own old name), and so
   * no other net's name afterwards. It is the first free candidate.
   */
  lemma RenameFresh(nets: seq<Net>, k: nat)
    requires k < |nets|
    requires nets[k].userNamed && CollidesWithOther(nets, k)
    ensures var r := Rename(nets, k);
      var c := FirstFree(nets, nets[k].name);
      r[k].name == Candidate(nets[k].name, c) &&
      (forall d :: 0 <= d < c ==> Holds(nets, Candidate(nets[k].name, d))) &&
      (forall j :: 0 <= j < |nets| ==> !EqualsIgnoreCase(r[k].name, nets[j].name)) &&
      !CollidesWithOther(r, k)
  {
    var r := Rename(nets, k);
    FoldView();
    assert !Holds(nets, r[k].name);
  }

  /** Nets from index `from` on are as in s. */
  predicate UntouchedFrom(s: seq<Net>, t: seq<Net>, from: nat)
    requires |s| == |t|
  {
    forall j :: from <= j < |s| ==> t[j] == s[j]
  }

  /** No user-named net among the first k clashes with any other net. */
  predicate SettledUpTo(t: seq<Net>, k: nat)
    requires k <= |t|
  {
    forall m :: 0 <= m < k && t[m].userNamed ==> !CollidesWithOther(t, m)
  }

  /**
   * Every net is as in s, or was a user-named net clashing with another net
   * in s and now carries a name "s_" + its old name + suffix.
   */
  ghost predicate RenamedOnlyIfColliding(s: seq<Net>, t: seq<Net>)
  {
    |t| == |s| &&
    forall m :: 0 <= m < |s| ==>
      t[m] == s[m] ||
      (s[m].userNamed && CollidesWithOther(s, m) && t[m].userNamed &&
       exists c :: t[m].name == Candidate(s[m].name, c))
  }

  /** Step case of ProcessedInvariant. */
  lemma RenameKeepsInvariant(s: seq<Net>, t: seq<Net>, k: nat)
    requires k < |s| == |t|
    requires forall j :: 0 <= j < |s| ==> t[j].userNamed == s[j].userNamed
    requires UntouchedFrom(s, t, k) && SettledUpTo(t, k) && RenamedOnlyIfColliding(s, t)
    ensures var t' := Rename(t, k);
      UntouchedFrom(s, t', k + 1) && SettledUpTo(t', k + 1) && RenamedOnlyIfColliding(s, t')
  {
    var t' := Rename(t, k);
    FoldView();
    if t[k].userNamed && CollidesWithOther(t, k) {
      RenameFresh(t, k);
      var c := FirstFree(t, t[k].name);
      forall m | 0 <= m < k + 1 && t'[m].userNamed
        ensures !CollidesWithOther(t', m)
      {
        if m < k {
          assert !CollidesWithOther(t, m);
          forall j | 0 <= j < |t'| && j != m
            ensures !EqualsIgnoreCase(t'[m].name, t'[j].name)
          {
            if j == k {
              assert !EqualsIgnoreCase(t'[k].name, t[m].name);
            }
          }
        }
      }
      // the clash of net k is already a clash in s
      var j :| 0 <= j < |t| && j != k && EqualsIgnoreCase(t[k].name, t[j].name);
      var settled := t[j].userNamed && !CollidesWithOther(t, j);
      assert j < k && t[j] != s[j] ==> settled;
      assert t[j] == s[j];
      assert EqualsIgnoreCase(s[k].name, s[j].name);
      assert CollidesWithOther(s, k);
      assert t'[k].name == Candidate(s[k].name, c);
    } else {
      assert t' == t;
    }
  }

  /** What holds of the list once pass 1 has visited nets 0 .. k-1. */
  lemma {:induction false} ProcessedInvariant(s: seq<Net>, k: nat)
    requires k <= |s|
    ensures UntouchedFrom(s, Processed(s, k), k)
    ensures SettledUpTo(Processed(s, k), k)
    ensures RenamedOnlyIfColliding(s, Processed(s, k))
  {
    if k > 0 {
      ProcessedInvariant(s, k - 1);
      RenameKeepsInvariant(s, Processed(s, k - 1), k - 1);
    }
  }

  /**
   * Pass 1 keeps the list's length, order and flags; it renames only
   * user-named nets that clash with another net of the input, always to
   * "s_" + the old name + a suffix; generated nets keep their names.
   */
  lemma Pass1Frame(s: seq<Net>)
    ensures |Pass1(s)| == |s|
    ensures forall m :: 0 <= m < |s| ==> Pass1(s)[m].userNamed == s[m].userNamed
    ensures forall m :: 0 <= m < |s| && !s[m].userNamed ==> Pass1(s)[m] == s[m]
    ensures forall m :: 0 <= m < |s| && Pass1(s)[m] != s[m] ==>
      s[m].userNamed && CollidesWithOther(s, m) &&
      exists c :: Pass1(s)[m].name == Candidate(s[m].name, c)
  {
    ProcessedInvariant(s, |s|);
  }

  /** After pass 1 no user-named net clashes with any other net. */
  lemma Pass1SettlesUserNamed(s: seq<Net>)
    ensures forall m :: 0 <= m < |Pass1(s)| && Pass1(s)[m].userNamed ==> !CollidesWithOther(Pass1(s), m)
  {
    ProcessedInvariant(s, |s|);
  }

  /** Any clash left after pass 1 is between two generated nets with their original names. */
  lemma Pass1RemainingClashes(s: seq<Net>, i: nat, j: nat)
    requires i < |s| && j < |s| && i != j
    requires EqualsIgnoreCase(Pass1(s)[i].name, Pass1(s)[j].name)
    ensures !s[i].userNamed && !s[j].userNamed
    ensures Pass1(s)[i] == s[i] && Pass1(s)[j] == s[j]
  {
    Pass1Frame(s);
    Pass1SettlesUserNamed(s);
    FoldView();
    if s[i].userNamed {
      assert CollidesWithOther(Pass1(s), i);
    }
    if s[j].userNamed {
      assert CollidesWithOther(Pass1(s), j);
    }
  }

  /**
   * The resolver succeeds exactly when the input has no two generated nets
   * whose names are equal ignoring case.
   */
  lemma Pass1DistinctIff(s: seq<Net>)
    ensures AllDistinct(Pass1(s)) <==> !HasGeneratedClash(s)
  {
    Pass1Frame(s);
    if HasGeneratedClash(s) {
      var i, j :| 0 <= i < j < |s| && !s[i].userNamed && !s[j].userNamed &&
        EqualsIgnoreCase(s[i].name, s[j].name);
      assert EqualsIgnoreCase(Pass1(s)[i].name, Pass1(s)[j].name);
    }
    if !AllDistinct(Pass1(s)) {
      var i, j :| 0 <= i < j < |Pass1(s)| && EqualsIgnoreCase(Pass1(s)[i].name, Pass1(s)[j].name);
      Pass1RemainingClashes(s, i, j);
    }
  }

  /** A list whose user-named nets clash with nothing is left as it is. */
  lemma {:induction false} ProcessedNoOp(s: seq<Net>, k: nat)
    requires k <= |s|
    requires forall m :: 0 <= m < |s| && s[m].userNamed ==> !CollidesWithOther(s, m)
    ensures Processed(s, k) == s
  {
    if k > 0 {
      ProcessedNoOp(s, k - 1);
    }
  }

  /** Pass 1 changes no name when no user-named net clashes with another net. */
  lemma Pass1NoOp(s: seq<Net>)
    requires forall m :: 0 <= m < |s| && s[m].userNamed ==> !CollidesWithOther(s, m)
    ensures Pass1(s) == s
  {
    ProcessedNoOp(s, |s|);
  }

  /** In particular a list whose names are already distinct is left as it is. */
  lemma Pass1OnDistinct(s: seq<Net>)
    requires AllDistinct(s)
    ensures Pass1(s) == s
  {
    FoldView();
    forall m | 0 <= m < |s| && s[m].userNamed
      ensures !CollidesWithOther(s, m)
    {
      forall j | 0 <= j < |s| && j != m
        ensures !EqualsIgnoreCase(s[m].name, s[j].name)
      {
        if j < m {
          assert !EqualsIgnoreCase(s[j].name, s[m].name);
        }
      }
    }
    Pass1NoOp(s);
  }

  /** Running pass 1 a second time changes nothing. */
  lemma Pass1Idempotent(s: seq<Net>)
    ensures Pass1(Pass1(s)) == Pass1(s)
  {
    Pass1SettlesUserNamed(s);
    Pass1NoOp(Pass1(s));
  }
}
