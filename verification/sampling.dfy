/** The sample command: converts a model for the Gibbs sampler, asks the
    sampler for a training, a test and a validation set, and writes the
    header files of the data. The sampler is an outside program, so the
    model gives the command lines it would start; the network's variables
    come from a parser that is not part of this model and are an input. */
module Sampling {
  import opened Results
  import opened Text
  import opened Registry
  import opened Headers
  import Inference

  /** `runSample`: the sampler's command line (the program, the model, the
      count and the output name, separated by single spaces), or nothing for
      a count that is not positive. */
  function SampleCommand(mdName: string, outName: string, nSamp: int): (r: Option<string>)
    ensures r.Some? <==> nSamp > 0
  {
    if nSamp <= 0 then None
    else Some(Join(["example_gibbs", mdName, Itoa(nSamp), outName], " "))
  }

  /** The sampler's arguments come back out of the command line: the
      program, the model, the count and the output, when neither file name
      holds a space. */
  lemma SampleCommandFields(mdName: string, outName: string, nSamp: int)
    requires nSamp > 0 && ' ' !in mdName && ' ' !in outName
    ensures var parts := Split(SampleCommand(mdName, outName, nSamp).value, ' ');
      && parts == ["example_gibbs", mdName, Itoa(nSamp), outName]
      && Atoi(parts[2]) == Some(nSamp)
  {
    var parts := ["example_gibbs", mdName, Itoa(nSamp), outName];
    ItoaIsToken(nSamp);
    AtoiItoa(nSamp);
    assert ' ' !in "example_gibbs";
    assert forall i :: 0 <= i < |parts| ==> ' ' !in parts[i];
    SplitJoin(parts, ' ');
  }

  /** What one run does: the model converted to this file, the sampler's
      command lines in order, and the `.schema` and `.hdr` files' lines. */
  datatype SampleRun = SampleRun(uai: string, commands: seq<string>, schema: seq<string>, hdr: seq<string>)

  datatype SampleError = MissingArguments

  /** `Generate` behind the argument guard: no run without a model, an
      output base name, or a non-zero total of samples. The sets are taken
      in the order training (`.train`), test (`.test`), validation
      (`.valid`), each only when its count is positive. */
  function Generate(bifFile: string, outFile: string, nTrain: int, nTest: int, nValid: int, vs: seq<Var>)
    : (r: Result<SampleRun, SampleError>)
    ensures r.Failure? <==> |bifFile| == 0 || |outFile| == 0 || nTrain + nTest + nValid == 0
    ensures r.Success? ==> r.value.uai == Inference.UaiName(bifFile)
    ensures r.Success? ==>
      |r.value.commands| == (if nTrain > 0 then 1 else 0) + (if nTest > 0 then 1 else 0) + (if nValid > 0 then 1 else 0)
    ensures r.Success? ==> (r.value.schema, r.value.hdr) == WriteHeaders(vs)
  {
    if |bifFile| == 0 || |outFile| == 0 || nTrain + nTest + nValid == 0 then Failure(MissingArguments)
    else
      var uai := Inference.UaiName(bifFile);
      var cmds := Started(SampleCommand(uai, outFile + ".train", nTrain))
        + Started(SampleCommand(uai, outFile + ".test", nTest))
        + Started(SampleCommand(uai, outFile + ".valid", nValid));
      var headers := WriteHeaders(vs);
      Success(SampleRun(uai, cmds, headers.0, headers.1))
  }

  /** The command started, if any. */
  function Started(cmd: Option<string>): (r: seq<string>)
    ensures |r| == if cmd.Some? then 1 else 0
  {
    if cmd.Some? then [cmd.value] else []
  }

  /** A run with only a training count starts the sampler once, on the
      converted model, writing the `.train` set. */
  lemma TrainingOnly(bifFile: string, outFile: string, n: nat, vs: seq<Var>)
    requires |bifFile| > 0 && |outFile| > 0 && n > 0
    ensures Generate(bifFile, outFile, n, 0, 0, vs).Success?
    ensures Generate(bifFile, outFile, n, 0, 0, vs).value.commands
      == [Join(["example_gibbs", Inference.UaiName(bifFile), Itoa(n), outFile + ".train"], " ")]
  {
    var uai := Inference.UaiName(bifFile);
    assert Started(SampleCommand(uai, outFile + ".test", 0)) == [];
    assert Started(SampleCommand(uai, outFile + ".valid", 0)) == [];
  }
}
