/**
 * The in-place net-name resolver of the Verilog exporter:
 * VerilogGenerator.checkForUniqueNetNames and its helper exits. The nets of
 * one module are an array whose elements are rewritten in place when a net
 * is renamed; each method is proved against the specification in NetNames.
 */
module NetNameResolver {
  import opened Wrappers
  import opened Strings
  import opened NetNames

  /** The error raised when two nets of a module still share a name. */
  datatype NamingConflict = NamesNotUnique(first: string, second: string, origin: string)

  /** exits: does some net currently hold `name`, ignoring case? Reads only. */
  method Exits(nets: array<Net>, name: string) returns (found: bool)
    ensures found == Holds(nets[..], name)
  {
    for j := 0 to nets.Length
      invariant forall i :: 0 <= i < j ==> !EqualsIgnoreCase(nets[i].name, name)
    {
      if EqualsIgnoreCase(nets[j].name, name) {
        return true;
      }
    }
    return false;
  }

  /**
   * The name search of pass 1 for a net called `base`: "s_" + base, then
   * "s_" + base + 1, + 2, ... until no net holds the candidate. Reads only.
   */
  method FreshName(nets: array<Net>, base: string) returns (newName: string)
    ensures newName == Candidate(base, FirstFree(nets[..], base))
    ensures !Holds(nets[..], newName)
  {
    newName := "s_" + base;
    var i := 1;
    var taken := Exits(nets, newName);
    while taken
      invariant 1 <= i && newName == Candidate(base, i - 1)
      invariant forall d :: 0 <= d < i - 1 ==> Holds(nets[..], Candidate(base, d))
      invariant taken == Holds(nets[..], newName)
      decreases Unmatched(nets[..], base, i - 1)
    {
      UnmatchedShrinks(nets[..], base, i - 1);
      newName := "s_" + base + NatToString(i);
      i := i + 1;
      taken := Exits(nets, newName);
    }
    FirstFreeUnique(nets[..], base, i - 1);
  }

  /**
   * The inner loop of pass 1 for the user-named net k: scan every net and
   * rename net k on a clash; once renamed, net k clashes with nothing more.
   */
  method ResolveNet(nets: array<Net>, k: nat)
    requires k < nets.Length && nets[k].userNamed
    modifies nets
    ensures nets[..] == Rename(old(nets[..]), k)
  {
    ghost var before := nets[..];
    ghost var renamed := false;
    for m := 0 to nets.Length
      invariant !renamed ==> (nets[..] == before &&
        forall m' :: 0 <= m' < m && m' != k ==> !EqualsIgnoreCase(before[k].name, before[m'].name))
      invariant renamed ==> (CollidesWithOther(before, k) && nets[..] == Rename(before, k))
    {
      if renamed {
        RenameFresh(before, k);
        FoldView();
      }
      if m != k && EqualsIgnoreCase(nets[k].name, nets[m].name) {
        var newName := FreshName(nets, nets[k].name);
        nets[k] := nets[k].(name := newName);
        renamed := true;
      }
    }
  }

  /**
   * Pass 1: every user-named net whose name clashes with another net's is
   * renamed, as it is reached, to the first free "s_" candidate.
   */
  method ResolveDuplicates(nets: array<Net>)
    modifies nets
    ensures nets[..] == Pass1(old(nets[..]))
  {
    ghost var s := nets[..];
    for k := 0 to nets.Length
      invariant nets[..] == Processed(s, k)
    {
      if nets[k].userNamed {
        ResolveNet(nets, k);
      }
    }
  }

  /**
   * Pass 2: the first pair i < j, in the order of the nested loops, whose
   * names are equal ignoring case; None when all names are distinct.
   */
  method FindDuplicate(nets: array<Net>) returns (dup: Option<(nat, nat)>)
    ensures dup.None? <==> AllDistinct(nets[..])
    ensures dup.Some? ==> IsFirstDuplicate(nets[..], dup.value.0, dup.value.1)
  {
    for i := 0 to nets.Length
      invariant forall i', j' :: 0 <= i' < i && i' < j' < nets.Length ==>
        !EqualsIgnoreCase(nets[i'].name, nets[j'].name)
    {
      for j := i + 1 to nets.Length
        invariant forall j' :: i < j' < j ==> !EqualsIgnoreCase(nets[i].name, nets[j'].name)
      {
        if EqualsIgnoreCase(nets[i].name, nets[j].name) {
          return Some((i, j));
        }
      }
    }
    return None;
  }

  /**
   * checkForUniqueNetNames: pass 1, then pass 2. It completes normally exactly
   * when the module has no two generated nets with names equal ignoring case;
   * otherwise it fails naming the first clashing pair and the module's origin.
   */
  method CheckForUniqueNetNames(nets: array<Net>, origin: string) returns (r: Outcome<NamingConflict>)
    modifies nets
    ensures nets[..] == Pass1(old(nets[..]))
    ensures r.Pass? <==> !HasGeneratedClash(old(nets[..]))
    ensures r.Pass? ==> AllDistinct(nets[..])
    ensures r.Fail? ==> exists i: nat, j: nat :: (IsFirstDuplicate(nets[..], i, j) &&
      r.error == NamesNotUnique(nets[i].name, nets[j].name, origin))
  {
    ghost var s := nets[..];
    ResolveDuplicates(nets);
    Pass1DistinctIff(s);
    var dup := FindDuplicate(nets);
    if dup.Some? {
      var (i, j) := dup.value;
      return Fail(NamesNotUnique(nets[i].name, nets[j].name, origin));
    }
    return Pass;
  }
}
