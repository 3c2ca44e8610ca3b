/** The inference command: the file names it derives from the model path,
    the probability file it writes, and the reader of the solver's `PR`
    output. The solver itself (an outside program started with a fresh
    seed) is the parameter `solve`; numbers are exact reals whose printed
    form is the parameter `show`, and `num` reads a printed value back. */
module Inference {
  import opened Results
  import opened Text
  import opened Stats
  import opened Evidence

  // File names

  /** The files one run uses: the converted model, the two evidence files
      the solver reads, the merged query file and the probability file. */
  datatype InferNames = InferNames(uai: string, evid: string, quer: string, temp: string, result: string)

  /** `strings.TrimSuffix(path, filepath.Ext(path)) + ".uai"`: the model
      converted for the solver sits beside it (also the name `Generate`
      of the sample command uses). */
  function UaiName(model: string): string {
    StripExt(model) + ".uai"
  }

  /** The names `Infer` derives: everything hangs off the `.uai` name; the
      result goes to the log file when one is given and otherwise to the
      model's base name with `.infkey`. */
  function Names(model: string, logFile: string): (n: InferNames)
    ensures n.result == (if |logFile| == 0 then StripExt(model) + ".infkey" else logFile)
  {
    var uai := UaiName(model);
    InferNames(uai, uai + ".evid", uai + ".quer", uai + ".temp",
      if |logFile| == 0 then StripExt(model) + ".infkey" else logFile)
  }

  /** Scanning down from `i`, the dot at `d` is the first one met when no
      dot or slash lies between them. */
  lemma {:induction false} ExtDotFinds(path: string, i: nat, d: nat)
    requires d < i <= |path| && path[d] == '.'
    requires forall k :: d < k < i ==> path[k] != '.' && path[k] != '/'
    ensures ExtDot(path, i) == Some(d)
    decreases i
  {
    if i - 1 != d {
      ExtDotFinds(path, i - 1, d);
    }
  }

  /** A name ending in an extension (a dot, then no dot or slash) has that
      extension, and trimming it gives the name back. */
  lemma ExtOfSuffix(base: string, e: string)
    requires |e| > 0 && e[0] == '.' && '.' !in e[1..] && '/' !in e
    ensures Ext(base + e) == e
    ensures StripExt(base + e) == base
  {
    var path := base + e;
    forall k | |base| < k < |path| ensures path[k] != '.' && path[k] != '/' {
      assert path[k] == e[1..][k - |base| - 1];
    }
    ExtDotFinds(path, |path|, |base|);
    assert path[|base|..] == e;
  }

  /** The converted model's name has the extension `.uai` and the model's
      base name: converting `a/net.bif` gives `a/net.uai`, and a model
      without an extension gets `.uai` appended. */
  lemma UaiNameOfModel(model: string)
    ensures Ext(UaiName(model)) == ".uai"
    ensures StripExt(UaiName(model)) == StripExt(model)
    ensures HasSuffix(UaiName(model), ".uai")
  {
    ExtOfSuffix(StripExt(model), ".uai");
  }

  /** The probability file defaults to a name with extension `.infkey`
      beside the model, and is the log file whenever one is given. */
  lemma ResultName(model: string, logFile: string)
    ensures |logFile| > 0 ==> Names(model, logFile).result == logFile
    ensures |logFile| == 0 ==>
      Ext(Names(model, logFile).result) == ".infkey" && StripExt(Names(model, logFile).result) == StripExt(model)
  {
    ExtOfSuffix(StripExt(model), ".infkey");
  }

  // writeProbs

  /** `writeProbs`: one line per probability, in order, then the average
      when there is at least one. */
  function WriteProbs(probs: seq<real>, show: real -> string): (ls: seq<string>)
    ensures |ls| == |probs| + (if |probs| > 0 then 1 else 0)
    ensures forall i :: 0 <= i < |probs| ==> ls[i] == show(probs[i])
    ensures |probs| > 0 ==> ls[|probs|] == "avg = " + show(Mean(probs))
  {
    var lines := seq(|probs|, i requires 0 <= i < |probs| => show(probs[i]));
    if |probs| > 0 then lines + ["avg = " + show(Mean(probs))] else lines
  }

  /** The average printed lies between the least and the greatest
      probability, and is the probability itself for a single query. */
  lemma AverageInRange(probs: seq<real>, lo: real, hi: real)
    requires |probs| > 0
    requires forall i :: 0 <= i < |probs| ==> lo <= probs[i] <= hi
    ensures lo <= Mean(probs) <= hi
    ensures |probs| == 1 ==> Mean(probs) == probs[0]
  {
    MeanBounds(probs, lo, hi);
    if |probs| == 1 {
      assert probs == [probs[0]];
      MeanSingle(probs[0]);
    }
  }

  // The solver's PR file

  /** `strings.Index(line, "BEGIN") >= 0`: a marker line, skipped. */
  predicate IsMarker(line: string) {
    Contains(line, "BEGIN")
  }

  /** The blocks of a PR file after its header line: marker lines are
      skipped; otherwise a line is a count `n` followed by `n` value lines
      (value lines are not checked for markers). A count or value that does
      not read, or a block cut short, stops the program: `None`. A negative
      count reads no values. */
  function PRBlocks<V>(lines: seq<string>, num: string -> Option<V>): (r: Option<seq<seq<V>>>)
    ensures r.Some? ==> |r.value| <= |lines|
    ensures r.Some? ==> forall k :: 0 <= k < |r.value| ==> |r.value[k]| < |lines|
    decreases |lines|
  {
    if |lines| == 0 then Some([])
    else if IsMarker(lines[0]) then PRBlocks(lines[1..], num)
    else
      var n :- Atoi(lines[0]);
      var k := if n < 0 then 0 else n;
      if |lines| - 1 < k then None
      else
        var vals :- MapAll(lines[1..1 + k], num);
        var rest :- PRBlocks(lines[1 + k..], num);
        Some([vals] + rest)
  }

  /** One block read into the result so far: a result shorter than the
      block is replaced by a fresh one of the block's length, then the
      block's values are written from position 0 on. */
  function Overlay<V>(fs: seq<V>, vals: seq<V>, zero: V): (r: seq<V>)
    ensures |r| == if |fs| < |vals| then |vals| else |fs|
    ensures forall j :: 0 <= j < |r| ==> r[j] == if j < |vals| then vals[j] else fs[j]
  {
    var base := if |fs| < |vals| then seq(|vals|, _ => zero) else fs;
    seq(|base|, j requires 0 <= j < |base| => if j < |vals| then vals[j] else base[j])
  }

  /** The blocks read one after another into `fs`. */
  function Layered<V>(fs: seq<V>, blocks: seq<seq<V>>, zero: V): seq<V>
    decreases |blocks|
  {
    if |blocks| == 0 then fs
    else Overlay(Layered(fs, blocks[..|blocks| - 1], zero), blocks[|blocks| - 1], zero)
  }

  /** `parsePR`: the header line is dropped, then every block is read in. */
  function ParsePR<V>(lines: seq<string>, num: string -> Option<V>, zero: V): (r: Option<seq<V>>)
    ensures |lines| == 0 ==> r == Some([])
    ensures |lines| > 0 ==> (r.Some? <==> PRBlocks(lines[1..], num).Some?)
  {
    if |lines| == 0 then Some([])
    else
      var blocks :- PRBlocks(lines[1..], num);
      Some(Layered([], blocks, zero))
  }

  /** The last block long enough to reach position `j`, if any. */
  function LastCovering<V>(blocks: seq<seq<V>>, j: nat): (r: Option<nat>)
    ensures r.Some? ==>
      r.value < |blocks| && j < |blocks[r.value]| && forall k :: r.value < k < |blocks| ==> |blocks[k]| <= j
    ensures r.None? ==> forall k :: 0 <= k < |blocks| ==> |blocks[k]| <= j
    decreases |blocks|
  {
    if |blocks| == 0 then None
    else if j < |blocks[|blocks| - 1]| then Some(|blocks| - 1)
    else
      var init := blocks[..|blocks| - 1];
      var r := LastCovering(init, j);
      assert forall k :: 0 <= k < |init| ==> init[k] == blocks[k];
      r
  }

  /** Reading blocks in place: the result is as long as the longest of the
      start and the blocks, and each position holds the value of the last
      block reaching it, or its starting value when no block does. */
  lemma {:induction false} LayeredSpec<V>(fs: seq<V>, blocks: seq<seq<V>>, zero: V)
    ensures var r := Layered(fs, blocks, zero);
      && |fs| <= |r|
      && (forall k :: 0 <= k < |blocks| ==> |blocks[k]| <= |r|)
      && (|r| == |fs| || exists k :: 0 <= k < |blocks| && |r| == |blocks[k]|)
      && forall j :: 0 <= j < |r| ==>
           r[j] == match LastCovering(blocks, j) { case Some(k) => blocks[k][j] case None => fs[j] }
    decreases |blocks|
  {
    if |blocks| > 0 {
      var init, last := blocks[..|blocks| - 1], blocks[|blocks| - 1];
      LayeredSpec(fs, init, zero);
      var prev := Layered(fs, init, zero);
      var r := Layered(fs, blocks, zero);
      assert r == Overlay(prev, last, zero);
      assert forall k :: 0 <= k < |init| ==> init[k] == blocks[k];
      if |r| != |fs| && |r| != |last| {
        var k :| 0 <= k < |init| && |prev| == |init[k]|;
        assert |r| == |blocks[k]|;
      }
      forall j | 0 <= j < |r|
        ensures r[j] == match LastCovering(blocks, j) { case Some(k) => blocks[k][j] case None => fs[j] }
      {
        if j >= |last| {
          assert LastCovering(blocks, j) == LastCovering(init, j);
        }
      }
    }
  }

  /** Every position of a parsed PR result holds the value the last block
      reaching it gave; the result is as long as the longest block. */
  lemma ParsedPositions<V>(lines: seq<string>, num: string -> Option<V>, zero: V)
    requires ParsePR(lines, num, zero).Some?
    requires |lines| > 0
    ensures var r, blocks := ParsePR(lines, num, zero).value, PRBlocks(lines[1..], num).value;
      && (forall k :: 0 <= k < |blocks| ==> |blocks[k]| <= |r|)
      && (|r| == 0 || exists k :: 0 <= k < |blocks| && |r| == |blocks[k]|)
      && forall j :: 0 <= j < |r| ==>
           LastCovering(blocks, j).Some? && r[j] == blocks[LastCovering(blocks, j).value][j]
  {
    var blocks := PRBlocks(lines[1..], num).value;
    LayeredSpec([], blocks, zero);
  }

  /** The lines a block is printed as: its count, then its values. */
  function PRBlock<V>(vals: seq<V>, show: V -> string): (ls: seq<string>)
    ensures |ls| == 1 + |vals|
  {
    [Itoa(|vals|)] + seq(|vals|, i requires 0 <= i < |vals| => show(vals[i]))
  }

  function PRText<V>(blocks: seq<seq<V>>, show: V -> string): seq<string>
    decreases |blocks|
  {
    if |blocks| == 0 then [] else PRBlock(blocks[0], show) + PRText(blocks[1..], show)
  }

  /** A count line is never a marker. */
  lemma CountNotMarker(n: int)
    ensures !IsMarker(Itoa(n))
  {
    ItoaChars(n);
    NotContains(Itoa(n), "BEGIN");
  }

  /** Blocks printed one after another read back as themselves when every
      printed value reads back, whatever the values look like. */
  lemma {:induction false} PRBlocksRead<V>(blocks: seq<seq<V>>, show: V -> string, num: string -> Option<V>)
    requires forall v :: num(show(v)) == Some(v)
    ensures PRBlocks(PRText(blocks, show), num) == Some(blocks)
    decreases |blocks|
  {
    if |blocks| > 0 {
      var b := blocks[0];
      var lines := PRText(blocks, show);
      var block := PRBlock(b, show);
      assert lines == block + PRText(blocks[1..], show);
      CountNotMarker(|b|);
      AtoiItoa(|b|);
      assert lines[1..1 + |b|] == block[1..];
      MapAllOf(lines[1..1 + |b|], num, b);
      assert lines[1 + |b|..] == PRText(blocks[1..], show);
      PRBlocksRead(blocks[1..], show, num);
      assert blocks == [b] + blocks[1..];
    }
  }

  /** A solver file, a header line then printed blocks, parses into the
      blocks read in place one after another. */
  lemma PRRoundTrip<V>(header: string, blocks: seq<seq<V>>, show: V -> string, num: string -> Option<V>, zero: V)
    requires forall v :: num(show(v)) == Some(v)
    ensures ParsePR([header] + PRText(blocks, show), num, zero) == Some(Layered([], blocks, zero))
  {
    PRBlocksRead(blocks, show, num);
    assert ([header] + PRText(blocks, show))[1..] == PRText(blocks, show);
  }

  // Infer

  /** `floats.Sub`: the difference position by position; lists of
      different lengths stop the program. */
  function Difference(xs: seq<real>, ys: seq<real>): (r: Option<seq<real>>)
    ensures r.Some? <==> |xs| == |ys|
    ensures r.Some? ==> |r.value| == |xs| && forall i :: 0 <= i < |xs| ==> r.value[i] + ys[i] == xs[i]
  {
    if |xs| != |ys| then None
    else Some(seq(|xs|, i requires 0 <= i < |xs| => xs[i] - ys[i]))
  }

  /** `computeProb` on an evidence file: the lines, encoded by `ev2evid`,
      go to the solver with the converted model, and the solver's `PR` file
      is read back. `solve(model, evid)` stands for the solver run and the
      `PR` file it leaves. */
  function Probabilities(uai: string, lines: seq<string>, solve: (string, seq<string>) -> seq<string>,
                         num: string -> Option<real>): Option<seq<real>> {
    ParsePR(solve(uai, EvToEvid(lines)), num, 0.0)
  }

  /** The probabilities `Infer` writes: with an evidence file, the query
      lines merged with the evidence lines, less the evidence alone; without
      one, the query's. There are none when the merge panics, when a `PR`
      file does not read, or when the two lists differ in length. */
  function Answer(uai: string, qLines: seq<string>, evFile: string, evLines: seq<string>,
                  solve: (string, seq<string>) -> seq<string>, num: string -> Option<real>)
    : (r: Option<seq<real>>)
    ensures |evFile| == 0 ==> r == Probabilities(uai, qLines, solve, num)
    ensures |evFile| > 0 && (exists k :: 0 <= k < |qLines| && Overflows(Split(qLines[k], ','), Split(EvidenceAt(evLines, k), ',')))
      ==> r.None?
    ensures var pe := Probabilities(uai, evLines, solve, num);
      |evFile| > 0 && MergeQev(qLines, evLines).Some? ==>
        var pq := Probabilities(uai, MergeQev(qLines, evLines).value, solve, num);
        && (r.Some? <==> pq.Some? && pe.Some? && |pq.value| == |pe.value|)
        && (r.Some? ==> |r.value| == |pq.value| && forall i :: 0 <= i < |r.value| ==> r.value[i] + pe.value[i] == pq.value[i])
  {
    if |evFile| == 0 then Probabilities(uai, qLines, solve, num)
    else
      var merged :- MergeQev(qLines, evLines);
      var pq :- Probabilities(uai, merged, solve, num);
      var pe :- Probabilities(uai, evLines, solve, num);
      Difference(pq, pe)
  }

  /** `Infer`: the answer's probability file, written to the derived name.
      The run stops when there is no answer. The result is the file written
      and its lines. */
  function Infer(model: string, qLines: seq<string>, evFile: string, evLines: seq<string>, logFile: string,
                 solve: (string, seq<string>) -> seq<string>, num: string -> Option<real>, show: real -> string)
    : (r: Option<(string, seq<string>)>)
    ensures r.Some? ==> r.value.0 == Names(model, logFile).result
    ensures var a := Answer(Names(model, logFile).uai, qLines, evFile, evLines, solve, num);
      && (r.Some? <==> a.Some?)
      && (r.Some? ==> |r.value.1| == |a.value| + (if |a.value| > 0 then 1 else 0))
      && (r.Some? ==> forall i :: 0 <= i < |a.value| ==> r.value.1[i] == show(a.value[i]))
  {
    var n := Names(model, logFile);
    var probs :- Answer(n.uai, qLines, evFile, evLines, solve, num);
    Some((n.result, WriteProbs(probs, show)))
  }
}
