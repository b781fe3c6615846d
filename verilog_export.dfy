/**
 * The export routine of the Verilog generator (VerilogGenerator.export and
 * disableClockIntegration): the order of its steps, its guards and its error
 * paths. Board lookup, model construction, optimisation, label renaming,
 * code printing and the test-bench writer are collaborators whose internals
 * are not modelled; they are supplied as functions in a Collaborators value.
 * The generator records the collaborator calls it makes in a ghost trace so
 * that their order and their guards can be stated.
 */
module VerilogExport {
  import opened Wrappers
  import opened NetNames
  import opened NetNameResolver
  import opened ModuleNaming

  /** The parts of a circuit the export routine looks at. */
  datatype Circuit = Circuit(romManager: seq<string>, originName: string)

  datatype ClockIntegrator = ClockIntegrator(name: string)

  /** A target board; its clock integrator may be absent. */
  datatype Board = Board(name: string, clockIntegrator: Option<ClockIntegrator>)

  /** One module of the HDL model: its nets and the source it came from. */
  datatype HdlCircuit = HdlCircuit(nets: seq<Net>, origin: string)

  datatype RawModel = RawModel(circuits: seq<HdlCircuit>, main: nat)

  /** An HDL model: its modules, one of them the main (top) module. */
  type HdlModel = m: RawModel | m.main < |m.circuits| witness RawModel([HdlCircuit([], "")], 0)

  /** The exceptions the export routine catches and wraps. */
  datatype Cause =
    | CentralRomsNotSupported
    | PinError
    | NodeError
    | HdlError
    | EvalError
    | NetNamesNotUnique(conflict: NamingConflict)

  /** The single exception type export lets out, wrapping the cause. */
  datatype ExportError = ExportFailed(cause: Cause)

  /** The collaborators of the export routine, each an opaque function. */
  datatype Collaborators = Collaborators(
    board: Option<Board>,
    createModel: (Circuit, Option<ClockIntegrator>) -> Result<HdlModel, Cause>,
    optimize: HdlCircuit -> HdlCircuit,
    renameLabels: HdlModel -> HdlModel,
    checkName: string -> string,
    printCircuit: (HdlCircuit, string) -> seq<string>,
    writeTestBenches: (Circuit, HdlModel, string, string) -> seq<string>)

  /** A call of the export routine into a collaborator. */
  datatype Call =
    | GetClockIntegrator
    | CreateModel(clock: Option<ClockIntegrator>)
    | Optimize(index: nat)
    | RenameLabels
    | CheckNetNames(index: nat)
    | PrintMain(topModuleName: string)
    | WriteTestBenches
    | WriteBoardFiles

  /** The comment block printed before the top module. */
  const Header: seq<string> := [
    "/*",
    " * Generated by Digital. Don't modify this file!",
    " * Any changes will be lost if this file is regenerated.",
    " */"
  ]

  /** The clock integrator passed to model construction. */
  function ClockFor(board: Option<Board>, useClockIntegration: bool): Option<ClockIntegrator>
  {
    if board.Some? && useClockIntegration then board.value.clockIntegrator else None
  }

  /** The calls made before model construction returns. */
  function Prelude(board: Option<Board>, useClockIntegration: bool): seq<Call>
  {
    (if board.Some? && useClockIntegration then [GetClockIntegrator] else []) +
    [CreateModel(ClockFor(board, useClockIntegration))]
  }

  /** Optimize(0), ..., Optimize(n-1). */
  function OptimizeCalls(n: nat): (cs: seq<Call>)
    ensures |cs| == n && forall c :: c in cs ==> c.Optimize?
    ensures forall i :: 0 <= i < n ==> cs[i] == Optimize(i)
  {
    if n == 0 then [] else OptimizeCalls(n - 1) + [Optimize(n - 1)]
  }

  /** CheckNetNames(0), ..., CheckNetNames(n-1). */
  function CheckCalls(n: nat): (cs: seq<Call>)
    ensures |cs| == n && forall c :: c in cs ==> c.CheckNetNames?
    ensures forall i :: 0 <= i < n ==> cs[i] == CheckNetNames(i)
  {
    if n == 0 then [] else CheckCalls(n - 1) + [CheckNetNames(n - 1)]
  }

  /** The writers run only for a real output file; the board's only if there is a board. */
  function AuxiliaryCalls(outFile: Option<string>, board: Option<Board>): seq<Call>
  {
    if outFile.None? then []
    else [WriteTestBenches] + (if board.Some? then [WriteBoardFiles] else [])
  }

  /** Every module of the model after applyDefaultOptimizations. */
  function Optimized(m: HdlModel, optimize: HdlCircuit -> HdlCircuit): HdlModel
  {
    RawModel(seq(|m.circuits|, i requires 0 <= i < |m.circuits| => optimize(m.circuits[i])), m.main)
  }

  /** Every module of the model after checkForUniqueNetNames has renamed its nets. */
  function Resolved(m: HdlModel): HdlModel
  {
    RawModel(seq(|m.circuits|, i requires 0 <= i < |m.circuits| =>
      m.circuits[i].(nets := Pass1(m.circuits[i].nets))), m.main)
  }

  /** What model construction gives for the circuit under this clock setting. */
  function Created(circuit: Circuit, env: Collaborators, useClockIntegration: bool): Result<HdlModel, Cause>
  {
    env.createModel(circuit, ClockFor(env.board, useClockIntegration))
  }

  /** The model that reaches the net-name check: built, optimised, labels renamed. */
  function Prepared(circuit: Circuit, env: Collaborators, useClockIntegration: bool): Result<HdlModel, Cause>
  {
    match Created(circuit, env, useClockIntegration)
    case Failure(e) => Failure(e)
    case Success(m) => Success(env.renameLabels(Optimized(m, env.optimize)))
  }

  /** No module of the model has two generated nets whose names clash. */
  predicate Resolvable(m: HdlModel)
  {
    forall i :: 0 <= i < |m.circuits| ==> !HasGeneratedClash(m.circuits[i].nets)
  }

  /** The index of the first module, from the i-th on, that keeps a clash; |circuits| if none. */
  function FirstClashFrom(m: HdlModel, i: nat): (r: nat)
    requires i <= |m.circuits|
    ensures i <= r <= |m.circuits|
    ensures forall j :: i <= j < r ==> !HasGeneratedClash(m.circuits[j].nets)
    ensures r < |m.circuits| ==> HasGeneratedClash(m.circuits[r].nets)
    decreases |m.circuits| - i
  {
    if i == |m.circuits| || HasGeneratedClash(m.circuits[i].nets) then i
    else FirstClashFrom(m, i + 1)
  }

  function FirstClash(m: HdlModel): nat
  {
    FirstClashFrom(m, 0)
  }

  /**
   * e is the conflict checkForUniqueNetNames raises for module c: the first
   * clashing pair of its nets after pass 1, and its origin.
   */
  ghost predicate IsModuleConflict(c: HdlCircuit, e: NamingConflict)
  {
    var t := Pass1(c.nets);
    exists i: nat, j: nat :: IsFirstDuplicate(t, i, j) && e == NamesNotUnique(t[i].name, t[j].name, c.origin)
  }

  /** e is the error the net-name check raises for m: the conflict of the first module that keeps a clash. */
  ghost predicate IsConflictOf(m: HdlModel, e: Cause)
  {
    FirstClash(m) < |m.circuits| && e.NetNamesNotUnique? && IsModuleConflict(m.circuits[FirstClash(m)], e.conflict)
  }

  /** A module that keeps a clash after clash-free modules 0 .. i-1 is the first one. */
  lemma FirstClashAt(m: HdlModel, i: nat)
    requires i < |m.circuits| && HasGeneratedClash(m.circuits[i].nets)
    requires forall j :: 0 <= j < i ==> !HasGeneratedClash(m.circuits[j].nets)
    ensures FirstClash(m) == i
  {
  }

  /**
   * The calls of model preparation: the prelude, then, once a model exists,
   * one optimisation per module and the label renaming.
   */
  function PrepareCalls(circuit: Circuit, env: Collaborators, useClockIntegration: bool): (cs: seq<Call>)
    ensures GetClockIntegrator in cs <==> env.board.Some? && useClockIntegration
    ensures WriteTestBenches !in cs && WriteBoardFiles !in cs
  {
    var prelude := Prelude(env.board, useClockIntegration);
    match Created(circuit, env, useClockIntegration)
    case Failure(_) => prelude
    case Success(built) =>
      assert NoWriterCalls(OptimizeCalls(|built.circuits|) + [RenameLabels]);
      prelude + (OptimizeCalls(|built.circuits|) + [RenameLabels])
  }

  /**
   * The calls made once the model is prepared: check each module's net names
   * up to the first that fails; when all pass, print the main module and then
   * run the writers for a real output file.
   */
  function FinishCalls(m: HdlModel, board: Option<Board>, outFile: Option<string>, top: string): (cs: seq<Call>)
    ensures GetClockIntegrator !in cs
    ensures WriteTestBenches in cs <==> Resolvable(m) && outFile.Some?
    ensures WriteBoardFiles in cs <==> WriteTestBenches in cs && board.Some?
  {
    if Resolvable(m) then
      assert NoWriterCalls(CheckCalls(|m.circuits|) + [PrintMain(top)]);
      CheckCalls(|m.circuits|) + ([PrintMain(top)] + AuxiliaryCalls(outFile, board))
    else
      assert NoWriterCalls(CheckCalls(FirstClash(m) + 1));
      CheckCalls(FirstClash(m) + 1)
  }

  /**
   * The collaborator calls of one export, in order: nothing at all when the
   * circuit uses the ROM manager; the clock integrator only with a board and
   * clock integration on; the writers only after the main module has been
   * printed and only for a real output file.
   */
  function ExportCalls(circuit: Circuit, env: Collaborators, useClockIntegration: bool,
                       outFile: Option<string>): (cs: seq<Call>)
    ensures cs == [] <==> circuit.romManager != []
    ensures GetClockIntegrator in cs <==>
      circuit.romManager == [] && env.board.Some? && useClockIntegration
    ensures WriteTestBenches in cs <==>
      circuit.romManager == [] && Prepared(circuit, env, useClockIntegration).Success? &&
      Resolvable(Prepared(circuit, env, useClockIntegration).value) && outFile.Some?
    ensures WriteBoardFiles in cs <==> WriteTestBenches in cs && env.board.Some?
  {
    if circuit.romManager != [] then []
    else
      var prepareCalls := PrepareCalls(circuit, env, useClockIntegration);
      match Prepared(circuit, env, useClockIntegration)
      case Failure(_) => prepareCalls
      case Success(m) =>
        prepareCalls + FinishCalls(m, env.board, outFile, TopModuleName(outFile, circuit.originName, env.checkName))
  }

  lemma Assoc(a: seq<Call>, b: seq<Call>, c: seq<Call>)
    ensures a + b + c == a + (b + c)
  {
  }

  /** ExportCalls unfolded for a circuit without ROM-manager contents whose model is prepared. */
  lemma ExportCallsPrepared(circuit: Circuit, env: Collaborators, useClockIntegration: bool,
                            outFile: Option<string>, m: HdlModel)
    requires circuit.romManager == [] && Prepared(circuit, env, useClockIntegration) == Success(m)
    ensures ExportCalls(circuit, env, useClockIntegration, outFile) ==
      PrepareCalls(circuit, env, useClockIntegration) +
      FinishCalls(m, env.board, outFile, TopModuleName(outFile, circuit.originName, env.checkName))
  {
  }

  /** None of the calls writes a file or asks the board for its clock integrator. */
  predicate NoWriterCalls(cs: seq<Call>)
  {
    GetClockIntegrator !in cs && WriteTestBenches !in cs && WriteBoardFiles !in cs
  }

  class VerilogGenerator {
    /** The file behind the output stream, if there is one (out.getFile()). */
    const outFile: Option<string>
    /** The lines printed to the output stream. */
    var output: seq<string>
    /** The test-bench files written by the last file export, None until then. */
    var testBenches: Option<seq<string>>
    var useClockIntegration: bool
    /** The collaborator calls made so far, in order. */
    ghost var calls: seq<Call>

    constructor(outFile: Option<string>)
      ensures this.outFile == outFile
      ensures output == [] && testBenches == None && useClockIntegration && calls == []
    {
      this.outFile := outFile;
      output := [];
      testBenches := None;
      useClockIntegration := true;
      calls := [];
    }

    /** Turns clock integration off; nothing else changes. */
    method DisableClockIntegration()
      modifies this
      ensures !useClockIntegration
      ensures output == old(output) && testBenches == old(testBenches) && calls == old(calls)
    {
      useClockIntegration := false;
    }

    /** applyDefaultOptimizations on every module of the model, in order. */
    method OptimizeAll(m: HdlModel, optimize: HdlCircuit -> HdlCircuit) returns (o: HdlModel)
      modifies this
      ensures o == Optimized(m, optimize)
      ensures calls == old(calls) + OptimizeCalls(|m.circuits|)
      ensures output == old(output) && testBenches == old(testBenches)
      ensures useClockIntegration == old(useClockIntegration)
    {
      var circuits := m.circuits;
      for i := 0 to |circuits|
        invariant |circuits| == |m.circuits|
        invariant forall j :: 0 <= j < i ==> circuits[j] == optimize(m.circuits[j])
        invariant forall j :: i <= j < |circuits| ==> circuits[j] == m.circuits[j]
        invariant calls == old(calls) + OptimizeCalls(i)
        invariant output == old(output) && testBenches == old(testBenches)
        invariant useClockIntegration == old(useClockIntegration)
      {
        circuits := circuits[i := optimize(circuits[i])];
        calls := calls + [Optimize(i)];
      }
      o := RawModel(circuits, m.main);
    }

    /** checkForUniqueNetNames on one module, whose nets are copied into an array. */
    method CheckModule(current: HdlCircuit, i: nat) returns (resolved: HdlCircuit, outcome: Outcome<NamingConflict>)
      modifies this
      ensures resolved == current.(nets := Pass1(current.nets))
      ensures outcome.Pass? <==> !HasGeneratedClash(current.nets)
      ensures outcome.Fail? ==> IsModuleConflict(current, outcome.error)
      ensures calls == old(calls) + [CheckNetNames(i)]
      ensures output == old(output) && testBenches == old(testBenches)
      ensures useClockIntegration == old(useClockIntegration)
    {
      var nets := new Net[|current.nets|](j requires 0 <= j < |current.nets| => current.nets[j]);
      assert nets[..] == current.nets;
      calls := calls + [CheckNetNames(i)];
      outcome := CheckForUniqueNetNames(nets, current.origin);
      resolved := current.(nets := nets[..]);
    }

    /**
     * checkForUniqueNetNames on every module of the model, in order; the first
     * module that keeps a clash stops the loop with its naming conflict.
     */
    method CheckAllNetNames(m: HdlModel) returns (res: Result<HdlModel, Cause>)
      modifies this
      ensures res.Success? <==> Resolvable(m)
      ensures res.Success? ==> res.value == Resolved(m) && calls == old(calls) + CheckCalls(|m.circuits|)
      ensures res.Failure? ==> IsConflictOf(m, res.error) && calls == old(calls) + CheckCalls(FirstClash(m) + 1)
      ensures output == old(output) && testBenches == old(testBenches)
      ensures useClockIntegration == old(useClockIntegration)
    {
      var circuits := m.circuits;
      for i := 0 to |circuits|
        invariant |circuits| == |m.circuits|
        invariant forall j :: 0 <= j < i ==> circuits[j] == Resolved(m).circuits[j]
        invariant forall j :: 0 <= j < i ==> !HasGeneratedClash(m.circuits[j].nets)
        invariant forall j :: i <= j < |circuits| ==> circuits[j] == m.circuits[j]
        invariant calls == old(calls) + CheckCalls(i)
        invariant output == old(output) && testBenches == old(testBenches)
        invariant useClockIntegration == old(useClockIntegration)
      {
        var resolved, outcome := CheckModule(circuits[i], i);
        circuits := circuits[i := resolved];
        if outcome.Fail? {
          FirstClashAt(m, i);
          return Failure(NetNamesNotUnique(outcome.error));
        }
      }
      res := Success(RawModel(circuits, m.main));
      assert circuits == Resolved(m).circuits;
    }

    /** Prints the header and then the main module under the top-module name. */
    method PrintTopModule(model: HdlModel, printCircuit: (HdlCircuit, string) -> seq<string>, top: string)
      modifies this
      ensures output == old(output) + Header + printCircuit(model.circuits[model.main], top)
      ensures calls == old(calls) + [PrintMain(top)]
      ensures testBenches == old(testBenches) && useClockIntegration == old(useClockIntegration)
    {
      output := output + Header;
      output := output + printCircuit(model.circuits[model.main], top);
      calls := calls + [PrintMain(top)];
    }

    /**
     * For a real output file writes the test benches and, with a board, the
     * board files; with no output file does nothing.
     */
    method WriteAuxiliary(circuit: Circuit, env: Collaborators, model: HdlModel, top: string)
      modifies this
      ensures calls == old(calls) + AuxiliaryCalls(outFile, env.board)
      ensures testBenches == (if outFile.Some? then Some(env.writeTestBenches(circuit, model, top, outFile.value))
                              else old(testBenches))
      ensures output == old(output) && useClockIntegration == old(useClockIntegration)
    {
      if outFile.Some? {
        testBenches := Some(env.writeTestBenches(circuit, model, top, outFile.value));
        calls := calls + [WriteTestBenches];
        if env.board.Some? {
          calls := calls + [WriteBoardFiles];
        }
      }
    }

    /**
     * Model preparation: asks the board for its clock integrator when clock
     * integration is on, builds the model, optimises each module and renames
     * the labels.
     */
    method Prepare(circuit: Circuit, env: Collaborators) returns (prepared: Result<HdlModel, Cause>)
      modifies this
      ensures prepared == Prepared(circuit, env, useClockIntegration)
      ensures calls == old(calls) + PrepareCalls(circuit, env, useClockIntegration)
      ensures output == old(output) && testBenches == old(testBenches)
      ensures useClockIntegration == old(useClockIntegration)
    {
      var board := env.board;
      var clockIntegrator: Option<ClockIntegrator> := None;
      if board.Some? && useClockIntegration {
        calls := calls + [GetClockIntegrator];
        clockIntegrator := board.value.clockIntegrator;
      }
      calls := calls + [CreateModel(clockIntegrator)];
      assert clockIntegrator == ClockFor(env.board, useClockIntegration);
      assert calls == old(calls) + Prelude(env.board, useClockIntegration);
      var created := env.createModel(circuit, clockIntegrator);
      if created.Failure? {
        return Failure(created.error);
      }
      var optimized := OptimizeAll(created.value, env.optimize);
      var model := env.renameLabels(optimized);
      calls := calls + [RenameLabels];
      return Success(model);
    }

    /**
     * The export of a prepared model: check every module's net names; when
     * all pass, print the header and the main module, then run the writers.
     */
    method Finish(circuit: Circuit, env: Collaborators, model: HdlModel) returns (r: Outcome<ExportError>)
      modifies this
      ensures useClockIntegration == old(useClockIntegration)
      ensures calls == old(calls) +
        FinishCalls(model, env.board, outFile, TopModuleName(outFile, circuit.originName, env.checkName))
      ensures r.Pass? <==> Resolvable(model)
      ensures r.Fail? ==> IsConflictOf(model, r.error.cause) && output == old(output) && testBenches == old(testBenches)
      ensures r.Pass? ==>
        var top := TopModuleName(outFile, circuit.originName, env.checkName);
        output == old(output) + Header + env.printCircuit(Resolved(model).circuits[model.main], top) &&
        testBenches == (if outFile.Some? then Some(env.writeTestBenches(circuit, Resolved(model), top, outFile.value))
                        else old(testBenches))
    {
      var checked := CheckAllNetNames(model);
      if checked.Failure? {
        return Fail(ExportFailed(checked.error));
      }
      var topModuleName := TopModuleName(outFile, circuit.originName, env.checkName);
      ghost var cc := CheckCalls(|model.circuits|);
      PrintTopModule(checked.value, env.printCircuit, topModuleName);
      WriteAuxiliary(circuit, env, checked.value, topModuleName);
      Assoc(old(calls) + cc, [PrintMain(topModuleName)], AuxiliaryCalls(outFile, env.board));
      Assoc(old(calls), cc, [PrintMain(topModuleName)] + AuxiliaryCalls(outFile, env.board));
      return Pass;
    }

    /**
     * Exports a circuit. A non-empty ROM-manager setting fails before any
     * collaborator is called. The clock integrator is asked for only when a
     * board exists and clock integration is on. Any failure leaves the output,
     * the test-bench list and the flag as they were. On success the header
     * comes before the main module's text, and the test-bench and board-file
     * writers run only for a real output file.
     */
    method Export(circuit: Circuit, env: Collaborators) returns (r: Outcome<ExportError>)
      modifies this
      ensures useClockIntegration == old(useClockIntegration)
      ensures calls == old(calls) + ExportCalls(circuit, env, useClockIntegration, outFile)
      ensures r.Pass? <==> (circuit.romManager == [] &&
        Prepared(circuit, env, useClockIntegration).Success? &&
        Resolvable(Prepared(circuit, env, useClockIntegration).value))
      ensures circuit.romManager != [] ==> r == Fail(ExportFailed(CentralRomsNotSupported))
      ensures circuit.romManager == [] && Prepared(circuit, env, useClockIntegration).Failure? ==>
        r == Fail(ExportFailed(Prepared(circuit, env, useClockIntegration).error))
      ensures circuit.romManager == [] && Prepared(circuit, env, useClockIntegration).Success? && r.Fail? ==>
        IsConflictOf(Prepared(circuit, env, useClockIntegration).value, r.error.cause)
      ensures r.Fail? ==> output == old(output) && testBenches == old(testBenches)
      ensures r.Pass? ==>
        var model := Resolved(Prepared(circuit, env, useClockIntegration).value);
        var top := TopModuleName(outFile, circuit.originName, env.checkName);
        output == old(output) + Header + env.printCircuit(model.circuits[model.main], top) &&
        testBenches == (if outFile.Some? then Some(env.writeTestBenches(circuit, model, top, outFile.value))
                        else old(testBenches))
    {
      if circuit.romManager != [] {
        return Fail(ExportFailed(CentralRomsNotSupported));
      }

      var prepared := Prepare(circuit, env);
      if prepared.Failure? {
        assert ExportCalls(circuit, env, useClockIntegration, outFile) == PrepareCalls(circuit, env, useClockIntegration);
        return Fail(ExportFailed(prepared.error));
      }
      ExportCallsPrepared(circuit, env, useClockIntegration, outFile, prepared.value);
      ghost var prepareCalls := PrepareCalls(circuit, env, useClockIntegration);
      r := Finish(circuit, env, prepared.value);
      Assoc(old(calls), prepareCalls,
        FinishCalls(prepared.value, env.board, outFile, TopModuleName(outFile, circuit.originName, env.checkName)));
    }
  }
}
