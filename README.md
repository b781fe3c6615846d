# Verilog export of Digital: net-name resolution and export order

This project models the core of Digital's Verilog exporter, the class
`VerilogGenerator`. It covers three parts:

- **The net-name resolver** (`checkForUniqueNetNames` and `exits`). The code
  compares net names ignoring case and requires every net of a module to have
  a name that is unique in that sense.
  - Pass 1 renames each user-named net that clashes with another net. The new
    name is the first free candidate among `"s_" + name`, `"s_" + name + 1`,
    `"s_" + name + 2`, and so on.
  - Pass 2 fails with a naming conflict if any two names still clash.
- **The top-module name**. It is the output file's name, or the circuit's
  origin name when there is no output file. The name is split by the regular
  expression `(?=(\.[^\.]+)$)`, and the renamer's `checkName` is applied to the
  first token.
- **The export routine** (`export` and `disableClockIntegration`). This covers:
  - the ROM-manager guard;
  - the clock-integrator request, made only with a board and with clock
    integration on;
  - building, optimising and label-renaming the model;
  - the net-name check of every module;
  - the header, then the main module;
  - the writers, which run only for a real output file.

  The pin, node, HDL and evaluation errors that reach the export routine are
  wrapped into a single export error. In this model those are the ROM-manager
  error, a model-construction error and a naming conflict.

Modules:

- `Strings`: Java's `String.equalsIgnoreCase` on ASCII characters, and the
  decimal rendering of the numeric suffix.
- `NetNames`: a specification of pass 1 as functions on a sequence of nets
  (`Rename`, `Processed`, `Pass1`), and the theorems about it.
- `NetNameResolver`: the resolver as methods over an `array<Net>` that is
  rewritten in place. Each method is proved against `NetNames`.
- `NetNameExamples`: worked cases, proved from the specification.
- `ModuleNaming`: the split and the top-module name.
- `VerilogExport`: the export routine as a class `VerilogGenerator`.
  - Its fields are the output lines, the test-bench list and the
    clock-integration flag.
  - A ghost trace of collaborator calls lets the order and the guards of
    those calls be stated.
  - Model construction, optimisation, label renaming, name checking, printing
    and the test-bench writer are functions passed in a `Collaborators` value.

Two behaviours of the code that a reader might not expect:

- A net renamed in pass 1 gets a name that no net holds. So once renamed, it
  cannot clash again later in the same pass. `Pass1SettlesUserNamed` proves
  that no user-named net clashes after pass 1.
- The split takes off only the last extension, and only when at least one
  character follows the last dot. A name that starts with its only dot, such
  as `.v`, stays whole: a zero-width match at position 0 does not produce an
  empty leading token.

## Model

All source paths are in `src/main/java/de/neemann/digital/hdl/verilog2/VerilogGenerator.java`.

| member | source | states |
|---|---|---|
| Strings.CharEqualsIgnoreCaseIsLowerEq | src/main/java/de/neemann/digital/hdl/verilog2/VerilogGenerator.java:113 | two characters match ignoring case exactly when their lower-case forms are equal |
| Strings.EqualsIgnoreCaseIsFoldEq | src/main/java/de/neemann/digital/hdl/verilog2/VerilogGenerator.java:113 | equalsIgnoreCase holds exactly when the lower-case folds of the two strings are equal, so it is an equivalence |
| Strings.NatToString | src/main/java/de/neemann/digital/hdl/verilog2/VerilogGenerator.java:117 | the rendered suffix is non-empty and all digits, with no leading zero for a positive number |
| Strings.ParseNatToString | src/main/java/de/neemann/digital/hdl/verilog2/VerilogGenerator.java:117 | parsing the rendered suffix gives back the number |
| Strings.NatToStringInjective | src/main/java/de/neemann/digital/hdl/verilog2/VerilogGenerator.java:117 | different counters give different suffixes |
| NetNames.CandidatesDistinct | src/main/java/de/neemann/digital/hdl/verilog2/VerilogGenerator.java:114-117 | two candidate names for one base name match ignoring case only if they are the same candidate |
| NetNames.UnmatchedShrinks | src/main/java/de/neemann/digital/hdl/verilog2/VerilogGenerator.java:116-117 | each taken candidate uses up a net that held none of the earlier candidates, so the search loop ends |
| NetNames.FirstFreeFrom | src/main/java/de/neemann/digital/hdl/verilog2/VerilogGenerator.java:114-117 | the chosen candidate is held by no net, and every earlier candidate is held by some net |
| NetNames.FirstFreeBound | src/main/java/de/neemann/digital/hdl/verilog2/VerilogGenerator.java:115-117 | the suffix counter never exceeds the number of nets, so the int counter cannot overflow |
| NetNames.FirstFreeUnique | src/main/java/de/neemann/digital/hdl/verilog2/VerilogGenerator.java:114-117 | a free candidate whose predecessors are all taken is the one the search picks |
| NetNames.Rename | src/main/java/de/neemann/digital/hdl/verilog2/VerilogGenerator.java:112-119 | handling net k changes at most net k's name, and keeps its user-named flag and every other net |
| NetNames.RenameFresh | src/main/java/de/neemann/digital/hdl/verilog2/VerilogGenerator.java:113-118 | a clashing user-named net gets a name no net held, and then it clashes with no other net |
| NetNames.Processed | src/main/java/de/neemann/digital/hdl/verilog2/VerilogGenerator.java:110-119 | pass 1 keeps the number of nets and every user-named flag |
| NetNames.RenameKeepsInvariant | src/main/java/de/neemann/digital/hdl/verilog2/VerilogGenerator.java:110-119 | handling one more net keeps all three invariants: later nets untouched, earlier user-named nets settled, renamed nets were colliding |
| NetNames.ProcessedInvariant | src/main/java/de/neemann/digital/hdl/verilog2/VerilogGenerator.java:110-119 | after nets 0..k-1: later nets are untouched, handled user-named nets clash with nothing, and only colliding user-named nets were renamed |
| NetNames.Pass1Frame | src/main/java/de/neemann/digital/hdl/verilog2/VerilogGenerator.java:110-119 | pass 1 never renames a generated net and renames a user-named net only when it collided with another net |
| NetNames.Pass1SettlesUserNamed | src/main/java/de/neemann/digital/hdl/verilog2/VerilogGenerator.java:110-119 | after pass 1 no user-named net clashes with any other net |
| NetNames.Pass1RemainingClashes | src/main/java/de/neemann/digital/hdl/verilog2/VerilogGenerator.java:110-131 | any clash left after pass 1 is between two generated nets, which keep their original names |
| NetNames.Pass1DistinctIff | src/main/java/de/neemann/digital/hdl/verilog2/VerilogGenerator.java:107-131 | all names are distinct after pass 1 exactly when no two generated nets clash beforehand |
| NetNames.Pass1NoOp | src/main/java/de/neemann/digital/hdl/verilog2/VerilogGenerator.java:110-119 | pass 1 changes nothing when no user-named net clashes with another net |
| NetNames.Pass1OnDistinct | src/main/java/de/neemann/digital/hdl/verilog2/VerilogGenerator.java:110-119 | a module whose names are already distinct is left as it is |
| NetNames.Pass1Idempotent | src/main/java/de/neemann/digital/hdl/verilog2/VerilogGenerator.java:110-119 | running pass 1 a second time changes nothing |
| NetNameResolver.Exits | src/main/java/de/neemann/digital/hdl/verilog2/VerilogGenerator.java:134-139 | true exactly when some net's name equals the given name ignoring case |
| NetNameResolver.FreshName | src/main/java/de/neemann/digital/hdl/verilog2/VerilogGenerator.java:114-117 | the loop returns the first candidate that no net holds |
| NetNameResolver.ResolveNet | src/main/java/de/neemann/digital/hdl/verilog2/VerilogGenerator.java:112-119 | the inner scan for user-named net k leaves the array equal to Rename of its old contents |
| NetNameResolver.ResolveDuplicates | src/main/java/de/neemann/digital/hdl/verilog2/VerilogGenerator.java:110-119 | pass 1 in place leaves the array equal to Pass1 of its old contents |
| NetNameResolver.FindDuplicate | src/main/java/de/neemann/digital/hdl/verilog2/VerilogGenerator.java:122-131 | finds no pair exactly when all names are distinct; otherwise returns the first clashing pair i < j in loop order |
| NetNameResolver.CheckForUniqueNetNames | src/main/java/de/neemann/digital/hdl/verilog2/VerilogGenerator.java:107-132 | renames as pass 1 does; succeeds exactly when no two generated nets clashed, and then all names are distinct; otherwise fails naming the first clashing pair and the module's origin |
| NetNameExamples.UserNamedYieldsToGenerated | src/main/java/de/neemann/digital/hdl/verilog2/VerilogGenerator.java:110-119 | user-named "Sig" beside generated "sig" becomes "s_Sig", and the names are then distinct |
| NetNameExamples.BothUserNamed | src/main/java/de/neemann/digital/hdl/verilog2/VerilogGenerator.java:110-119 | of user-named "CLK" and "clk", the first is renamed to "s_CLK" |
| NetNameExamples.NumericSuffix | src/main/java/de/neemann/digital/hdl/verilog2/VerilogGenerator.java:114-117 | when "s_X" is taken (as "s_x"), the net becomes "s_X1" |
| NetNameExamples.GeneratedClashRemains | src/main/java/de/neemann/digital/hdl/verilog2/VerilogGenerator.java:122-131 | generated nets "a" and "A" still clash after pass 1 |
| ModuleNaming.LastDot | src/main/java/de/neemann/digital/hdl/verilog2/VerilogGenerator.java:85 | the position found holds a dot, and no dot follows it; with no result, the name has no dot |
| ModuleNaming.ExtensionIsLastDot | src/main/java/de/neemann/digital/hdl/verilog2/VerilogGenerator.java:85 | the lookahead can match only at the last dot |
| ModuleNaming.SplitAtExtension | src/main/java/de/neemann/digital/hdl/verilog2/VerilogGenerator.java:85 | two tokens, split at the extension's dot, exactly when an extension follows a non-empty prefix; otherwise the whole name |
| ModuleNaming.SplitRejoins | src/main/java/de/neemann/digital/hdl/verilog2/VerilogGenerator.java:85 | the tokens put back together give the original name |
| ModuleNaming.TopModuleName | src/main/java/de/neemann/digital/hdl/verilog2/VerilogGenerator.java:84-87 | checkName applied to the base name (before the extension) of the output file's name, or of the origin's name when there is no file |
| ModuleNaming.SplitExamples | src/main/java/de/neemann/digital/hdl/verilog2/VerilogGenerator.java:85 | blink.v gives blink, a.b.c gives a.b; blink, blink. and .v stay whole |
| VerilogExport.OptimizeCalls | src/main/java/de/neemann/digital/hdl/verilog2/VerilogGenerator.java:70-71 | n calls; call i optimises module i |
| VerilogExport.CheckCalls | src/main/java/de/neemann/digital/hdl/verilog2/VerilogGenerator.java:76-77 | n calls; call i checks the net names of module i |
| VerilogExport.FirstClashFrom | src/main/java/de/neemann/digital/hdl/verilog2/VerilogGenerator.java:76-77 | the first module from i on whose generated nets clash; all modules before it pass |
| VerilogExport.PrepareCalls | src/main/java/de/neemann/digital/hdl/verilog2/VerilogGenerator.java:63-74 | the clock integrator is requested exactly when there is a board and clock integration is on; nothing is written |
| VerilogExport.FinishCalls | src/main/java/de/neemann/digital/hdl/verilog2/VerilogGenerator.java:76-99 | the test-bench writer runs exactly when every module passes the check and there is an output file; board files are written only with a board as well |
| VerilogExport.ExportCalls | src/main/java/de/neemann/digital/hdl/verilog2/VerilogGenerator.java:60-99 | no call at all with ROM-manager contents; the clock integrator is requested only with a board and clock integration on; the writers run only after a fully successful check and only for an output file |
| VerilogExport.VerilogGenerator.constructor | src/main/java/de/neemann/digital/hdl/verilog2/VerilogGenerator.java:37-48 | nothing printed, no test benches, clock integration on |
| VerilogExport.VerilogGenerator.DisableClockIntegration | src/main/java/de/neemann/digital/hdl/verilog2/VerilogGenerator.java:164-167 | clock integration is off; nothing else changes |
| VerilogExport.VerilogGenerator.OptimizeAll | src/main/java/de/neemann/digital/hdl/verilog2/VerilogGenerator.java:70-71 | every module is optimised, in order |
| VerilogExport.FirstClashAt | src/main/java/de/neemann/digital/hdl/verilog2/VerilogGenerator.java:76-77 | a module that keeps a clash after clash-free modules is the first one with a clash |
| VerilogExport.VerilogGenerator.CheckModule | src/main/java/de/neemann/digital/hdl/verilog2/VerilogGenerator.java:77 | one module's nets after pass 1; passes exactly when no generated nets clash, otherwise the conflict names the first clashing pair and the module's origin |
| VerilogExport.VerilogGenerator.CheckAllNetNames | src/main/java/de/neemann/digital/hdl/verilog2/VerilogGenerator.java:76-77 | succeeds exactly when no module has a generated clash, giving every module's nets after pass 1; otherwise stops at the first module that keeps a clash, with the conflict naming that module's first clashing pair after pass 1 and its origin |
| VerilogExport.VerilogGenerator.Prepare | src/main/java/de/neemann/digital/hdl/verilog2/VerilogGenerator.java:63-74 | gives the built, optimised and label-renamed model, or the construction error |
| VerilogExport.VerilogGenerator.PrintTopModule | src/main/java/de/neemann/digital/hdl/verilog2/VerilogGenerator.java:79-89 | the four header lines come first, then the main module under the top-module name |
| VerilogExport.VerilogGenerator.WriteAuxiliary | src/main/java/de/neemann/digital/hdl/verilog2/VerilogGenerator.java:91-99 | test benches (and board files, with a board) are written only for an output file; otherwise the test-bench list is kept |
| VerilogExport.VerilogGenerator.Finish | src/main/java/de/neemann/digital/hdl/verilog2/VerilogGenerator.java:76-99 | passes exactly when every module is resolvable; a failure is the conflict of the first module that keeps a clash (its first clashing pair after pass 1 and its origin) and leaves the output unchanged |
| VerilogExport.VerilogGenerator.Export | src/main/java/de/neemann/digital/hdl/verilog2/VerilogGenerator.java:57-105 | fails on ROM-manager contents, a construction error, or the naming conflict of the first module of the prepared model that keeps a clash (its first clashing pair after pass 1 and its origin); each is wrapped in one error and leaves the output unchanged; on success prints the header and then the resolved main module, and makes the calls of ExportCalls in order |

## Left out

- I/O: the code printer, the file and its name, `toString` and `close` are not modelled. Output is a list of lines, and the output file is an optional name.
- The collaborators are opaque functions supplied by the caller: the board provider, model construction, optimisation, label renaming, `checkName`, module printing, the test-bench writer and the board's file writer. Their internals are not part of this model.
- Only model construction and the net-name check can fail. Exceptions from optimisation, label renaming, printing or the writers are not modelled.
- An IOException from printing or from writing files, and any runtime exception, leaves the export unwrapped. The model has no such errors, so it does not capture this.
- A failure while printing leaves the header, and possibly part of the module, in the output. The model's printing cannot fail, so the model never has partial output.
- Error messages and their localisation (`Lang.get`) are left out. A naming conflict records the two names and the module's origin.
- `getTestBenches` is read directly from the `testBenches` field. The element library field is not modelled. The `this` returned for chaining is not modelled.
- Nets are values in an array, identified by position. Two list entries holding the same object (aliasing) are not modelled.
- Strings.EqualsIgnoreCase: case folding covers ASCII letters only. Java folds the whole of Unicode.
- VerilogExport.VerilogGenerator.Export: the board's own file writing is recorded only as a call in the trace, and its files are not modelled.
