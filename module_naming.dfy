/**
 * How the Verilog exporter names the top module: the output file's name (or
 * the circuit's origin name when there is no output file) split by the regular
 * expression "(?=(\.[^\.]+)$)", the first token passed through the target
 * renamer's checkName.
 */
module ModuleNaming {
  import opened Wrappers

  /**
   * The lookahead "(?=(\.[^\.]+)$)" matches at position p of s: a dot at p,
   * then one or more characters up to the end, none of them a dot.
   */
  predicate ExtensionAt(s: string, p: nat)
  {
    p + 1 < |s| && s[p] == '.' && forall q :: p < q < |s| ==> s[q] != '.'
  }

  /** The position of the last '.' in s, if there is one. */
  function LastDot(s: string): (r: Option<nat>)
    ensures r.Some? ==> (r.value < |s| && s[r.value] == '.' &&
      forall q :: r.value < q < |s| ==> s[q] != '.')
    ensures r.None? ==> forall q :: 0 <= q < |s| ==> s[q] != '.'
  {
    if |s| == 0 then None
    else if s[|s| - 1] == '.' then Some(|s| - 1)
    else LastDot(s[..|s| - 1])
  }

  /** Where the lookahead matches, that is the last dot. */
  lemma ExtensionIsLastDot(s: string)
    ensures forall p: nat :: ExtensionAt(s, p) ==> LastDot(s) == Some(p)
  {
    forall p: nat | ExtensionAt(s, p)
      ensures LastDot(s) == Some(p)
    {
      var d := LastDot(s);
      assert s[p] == '.';
      assert d.Some? && p <= d.value;
    }
  }

  /**
   * The tokens of String.split with that lookahead. It can match at one
   * position at most (the last dot, when something follows it); a match at
   * position 0 yields no empty leading token, so the string stays whole.
   */
  function SplitAtExtension(s: string): (tokens: seq<string>)
    ensures |tokens| == 2 <==> exists p: nat :: 0 < p && ExtensionAt(s, p)
    ensures forall p: nat :: 0 < p && ExtensionAt(s, p) ==> tokens == [s[..p], s[p..]]
    ensures |tokens| != 2 ==> tokens == [s]
  {
    ExtensionIsLastDot(s);
    match LastDot(s)
    case Some(p) => if 0 < p && p + 1 < |s| then assert ExtensionAt(s, p); [s[..p], s[p..]] else [s]
    case None => [s]
  }

  /** The tokens put back together give the name that was split. */
  lemma SplitRejoins(s: string)
    ensures |SplitAtExtension(s)| == 1 ==> SplitAtExtension(s)[0] == s
    ensures |SplitAtExtension(s)| == 2 ==> SplitAtExtension(s)[0] + SplitAtExtension(s)[1] == s
  {
    var tokens := SplitAtExtension(s);
    if |tokens| == 2 {
      var p: nat :| 0 < p && ExtensionAt(s, p);
      assert tokens == [s[..p], s[p..]];
    }
  }

  /**
   * The top module's name: the base name of the output file, or of the
   * circuit's origin when there is no output file, checked by the renamer.
   */
  function TopModuleName(outFileName: Option<string>, originName: string, checkName: string -> string): (r: string)
    ensures var name := if outFileName.Some? then outFileName.value else originName;
      (forall p: nat :: 0 < p && ExtensionAt(name, p) ==> r == checkName(name[..p])) &&
      ((forall p: nat :: !(0 < p && ExtensionAt(name, p))) ==> r == checkName(name))
  {
    var fileName := if outFileName.Some? then outFileName.value else originName;
    var tokens := SplitAtExtension(fileName);
    checkName(tokens[0])
  }

  /** Only the last extension goes; a trailing dot or a leading-dot name stays whole. */
  lemma SplitExamples()
    ensures SplitAtExtension("blink.v")[0] == "blink"
    ensures SplitAtExtension("blink")[0] == "blink"
    ensures SplitAtExtension("a.b.c")[0] == "a.b"
    ensures SplitAtExtension("blink.")[0] == "blink."
    ensures SplitAtExtension(".v")[0] == ".v"
  {
    assert ExtensionAt("blink.v", 5);
    assert ExtensionAt("a.b.c", 3);
    assert !ExtensionAt("blink.", 5);
  }
}
