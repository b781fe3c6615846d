/** Worked cases of the net-name resolver, proved from its specification. */
module NetNameExamples {
  import opened Strings
  import opened NetNames

  /** A user-named "Sig" beside a generated "sig": the user's net becomes "s_Sig". */
  lemma UserNamedYieldsToGenerated()
    ensures Pass1([Net("Sig", true), Net("sig", false)]) == [Net("s_Sig", true), Net("sig", false)]
    ensures AllDistinct(Pass1([Net("Sig", true), Net("sig", false)]))
  {
    var s := [Net("Sig", true), Net("sig", false)];
    assert EqualsIgnoreCase(s[0].name, s[1].name);
    assert CollidesWithOther(s, 0);
    assert !Holds(s, Candidate("Sig", 0));
    FirstFreeUnique(s, "Sig", 0);
    assert Candidate("Sig", 0) == "s_Sig";
    var t := Rename(s, 0);
    assert t == [Net("s_Sig", true), Net("sig", false)];
    assert Rename(t, 1) == t;
    assert Processed(s, 2) == t;
  }

  /** Two user-named nets "CLK" and "clk": the first one reached is renamed. */
  lemma BothUserNamed()
    ensures Pass1([Net("CLK", true), Net("clk", true)]) == [Net("s_CLK", true), Net("clk", true)]
  {
    var s := [Net("CLK", true), Net("clk", true)];
    assert EqualsIgnoreCase(s[0].name, s[1].name);
    assert CollidesWithOther(s, 0);
    assert !Holds(s, Candidate("CLK", 0));
    FirstFreeUnique(s, "CLK", 0);
    assert Candidate("CLK", 0) == "s_CLK";
    var t := Rename(s, 0);
    assert t == [Net("s_CLK", true), Net("clk", true)];
    assert !EqualsIgnoreCase(t[1].name, t[0].name);
    assert !CollidesWithOther(t, 1);
    assert Rename(t, 1) == t;
    assert Processed(s, 2) == t;
  }

  /** When "s_X" is taken (here as "s_x"), the numbered candidate "s_X1" is used. */
  lemma NumericSuffix()
    ensures Pass1([Net("X", true), Net("x", false), Net("s_x", false)])
         == [Net("s_X1", true), Net("x", false), Net("s_x", false)]
  {
    var s := [Net("X", true), Net("x", false), Net("s_x", false)];
    assert EqualsIgnoreCase(s[0].name, s[1].name);
    assert CollidesWithOther(s, 0);
    assert Candidate("X", 0) == "s_X";
    assert EqualsIgnoreCase(s[2].name, "s_X");
    assert Holds(s, Candidate("X", 0));
    assert NatToString(1) == "1";
    assert Candidate("X", 1) == "s_X1";
    assert !Holds(s, "s_X1");
    FirstFreeUnique(s, "X", 1);
    var t := Rename(s, 0);
    assert t == [Net("s_X1", true), Net("x", false), Net("s_x", false)];
    assert Rename(t, 1) == t;
    assert Rename(t, 2) == t;
    assert Processed(s, 3) == t;
  }

  /** Two generated nets "a" and "A" cannot be resolved: the check then fails. */
  lemma GeneratedClashRemains()
    ensures !AllDistinct(Pass1([Net("a", false), Net("A", false)]))
  {
    var s := [Net("a", false), Net("A", false)];
    assert EqualsIgnoreCase(s[0].name, s[1].name);
    assert HasGeneratedClash(s);
    Pass1DistinctIff(s);
  }
}
