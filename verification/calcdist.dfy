/** The distance command: it compares two inference results row by row with
    a named distance and reports one number. The distance functions and the
    number parser are parameters; a file is given as its lines. */
module CalcDist {
  import opened Results
  import opened Text
  import opened MarFormat
  import opened Stats

  /** The names of the distance functions. */
  const Distances: set<string> :=
    {"mse", "abs", "max-abs", "hellinger", "cross-entropy", "kl", "l1norm", "l2norm"}

  datatype DistError =
    | MissingArguments               // no first input, no second input or no distance name
    | InvalidOption(name: string)    // a name that is not one of `Distances`
    | Unreadable                     // a MAR file whose counts or values do not read
    | SizeNotEnough(n1: nat, n2: nat)

  /** `readInfFile`: every line that parses as a number, as `exp` of it,
      in file order; other lines are skipped. */
  function InfValues<V>(lines: seq<string>, num: string -> Option<V>, exp: V -> V): (vs: seq<V>)
    ensures |vs| <= |lines|
    decreases |lines|
  {
    if |lines| == 0 then []
    else
      var rest := InfValues(lines[1..], num, exp);
      match num(lines[0]) {
        case Some(v) => [exp(v)] + rest
        case None => rest
      }
  }

  /** When every line parses, every line gives one value, in order. */
  lemma {:induction false} InfValuesAll<V>(lines: seq<string>, num: string -> Option<V>, exp: V -> V)
    requires forall i :: 0 <= i < |lines| ==> num(lines[i]).Some?
    ensures var vs := InfValues(lines, num, exp);
      |vs| == |lines| && forall i :: 0 <= i < |lines| ==> vs[i] == exp(num(lines[i]).value)
    decreases |lines|
  {
    if |lines| > 0 {
      assert forall i :: 0 <= i < |lines| - 1 ==> lines[1..][i] == lines[i + 1];
      InfValuesAll(lines[1..], num, exp);
    }
  }

  /** A line that does not parse adds nothing. */
  lemma InfValuesSkips<V>(line: string, lines: seq<string>, num: string -> Option<V>, exp: V -> V)
    requires num(line).None?
    ensures InfValues([line] + lines, num, exp) == InfValues(lines, num, exp)
  {
    assert ([line] + lines)[1..] == lines;
  }

  /** `parseValues`: a file whose first line is `MAR` gives its rows, read
      as numbers; any other file (an empty one included) gives one row. */
  function ParseValues<V>(lines: seq<string>, num: string -> Option<V>, exp: V -> V): (r: Option<seq<seq<V>>>)
    ensures (|lines| == 0 || lines[0] != "MAR") ==> r == Some([InfValues(lines, num, exp)])
    ensures |lines| > 0 && lines[0] == "MAR" ==>
      (r.Some? <==> ReadMar(lines).Some? && forall i, j :: 0 <= i < |ReadMar(lines).value| && 0 <= j < |ReadMar(lines).value[i]| ==> num(ReadMar(lines).value[i][j]).Some?)
    ensures |lines| > 0 && lines[0] == "MAR" && r.Some? ==>
      |r.value| == |ReadMar(lines).value|
      && forall i :: 0 <= i < |r.value| ==> |r.value[i]| == |ReadMar(lines).value[i]|
  {
    if |lines| > 0 && lines[0] == "MAR" then
      var rows :- ReadMar(lines);
      var xs := seq(|rows|, i requires 0 <= i < |rows| => MapAll(rows[i], num));
      assert forall i :: 0 <= i < |rows| ==> xs[i] == MapAll(rows[i], num);
      AllSome(xs)
    else Some([InfValues(lines, num, exp)])
  }

  /** The distances of the paired rows: row i of the first input with row
      i of the second, for every row of the first. */
  function Pairs<V>(f1: seq<seq<V>>, f2: seq<seq<V>>, dist: (seq<V>, seq<V>) -> real): (ds: seq<real>)
    requires |f1| <= |f2|
    ensures |ds| == |f1| && forall i :: 0 <= i < |f1| ==> ds[i] == dist(f1[i], f2[i])
  {
    seq(|f1|, i requires 0 <= i < |f1| => dist(f1[i], f2[i]))
  }

  /** The comparison once both inputs are read: rejected when the second
      has fewer rows than the first or the first has none; one row each is
      compared directly, more rows by the mean over the pairs. */
  function Compare<V>(f1: seq<seq<V>>, f2: seq<seq<V>>, dist: (seq<V>, seq<V>) -> real): (r: Result<real, DistError>)
    ensures r.Failure? <==> |f2| < |f1| || |f1| < 1
    ensures r.Failure? ==> r.error == SizeNotEnough(|f1|, |f2|)
  {
    if |f2| < |f1| || |f1| < 1 then Failure(SizeNotEnough(|f1|, |f2|))
    else if |f1| == 1 then Success(dist(f1[0], f2[0]))
    else Success(Mean(Pairs(f1, f2, dist)))
  }

  /** Whatever the number of rows, the result is the mean distance of the
      paired rows (one row is its own mean), so it lies between any bounds
      of those distances; rows of the second input past the first's are
      never looked at. */
  lemma CompareIsMeanOfPairs<V>(f1: seq<seq<V>>, f2: seq<seq<V>>, dist: (seq<V>, seq<V>) -> real, lo: real, hi: real)
    requires 1 <= |f1| <= |f2|
    ensures Compare(f1, f2, dist) == Success(Mean(Pairs(f1, f2, dist)))
    ensures (forall i :: 0 <= i < |f1| ==> lo <= dist(f1[i], f2[i]) <= hi) ==>
      lo <= Compare(f1, f2, dist).value <= hi
  {
    if |f1| == 1 {
      assert Pairs(f1, f2, dist) == [dist(f1[0], f2[0])];
      MeanSingle(dist(f1[0], f2[0]));
    }
    if forall i :: 0 <= i < |f1| ==> lo <= dist(f1[i], f2[i]) <= hi {
      MeanBounds(Pairs(f1, f2, dist), lo, hi);
    }
  }

  /** Rows appended to the second input change nothing once it has as
      many rows as the first. */
  lemma CompareIgnoresExtra<V>(f1: seq<seq<V>>, f2: seq<seq<V>>, extra: seq<seq<V>>, dist: (seq<V>, seq<V>) -> real)
    requires 1 <= |f1| <= |f2|
    ensures Compare(f1, f2 + extra, dist) == Compare(f1, f2, dist)
  {
    assert forall i :: 0 <= i < |f1| ==> (f2 + extra)[i] == f2[i];
    if |f1| > 1 {
      assert Pairs(f1, f2 + extra, dist) == Pairs(f1, f2, dist);
    }
  }

  /** The command: the argument guard, the distance name checked before
      either file is read, then both files parsed and compared.
      `dist(name)` is the distance function of that name. */
  function CalcDist<V>(in1: string, in2: string, distOpt: string, lines1: seq<string>, lines2: seq<string>,
                       num: string -> Option<V>, exp: V -> V, dist: string -> ((seq<V>, seq<V>) -> real))
    : (r: Result<real, DistError>)
    ensures r.Success? ==> distOpt in Distances
    ensures r.Success? ==> ParseValues(lines1, num, exp).Some? && ParseValues(lines2, num, exp).Some?
    ensures r.Success? ==> 1 <= |ParseValues(lines1, num, exp).value| <= |ParseValues(lines2, num, exp).value|
  {
    if in1 == "" || in2 == "" || distOpt == "" then Failure(MissingArguments)
    else if distOpt !in Distances then Failure(InvalidOption(distOpt))
    else
      var f1 :- ParseValues(lines1, num, exp).ToResult(Unreadable);
      var f2 :- ParseValues(lines2, num, exp).ToResult(Unreadable);
      Compare(f1, f2, dist(distOpt))
  }

  /** An unknown distance name is reported whatever the files hold. */
  lemma UnknownNameFirst<V>(in1: string, in2: string, distOpt: string, lines1: seq<string>, lines2: seq<string>,
                            num: string -> Option<V>, exp: V -> V, dist: string -> ((seq<V>, seq<V>) -> real))
    requires in1 != "" && in2 != "" && distOpt != "" && distOpt !in Distances
    ensures CalcDist(in1, in2, distOpt, lines1, lines2, num, exp, dist) == Failure(InvalidOption(distOpt))
  {
  }

  /** Two single-row files (neither starts with `MAR`) are compared by the
      named distance of their rows. */
  lemma SingleRows<V>(in1: string, in2: string, distOpt: string, lines1: seq<string>, lines2: seq<string>,
                      num: string -> Option<V>, exp: V -> V, dist: string -> ((seq<V>, seq<V>) -> real))
    requires in1 != "" && in2 != "" && distOpt in Distances
    requires |lines1| == 0 || lines1[0] != "MAR"
    requires |lines2| == 0 || lines2[0] != "MAR"
    ensures CalcDist(in1, in2, distOpt, lines1, lines2, num, exp, dist)
      == Success(dist(distOpt)(InfValues(lines1, num, exp), InfValues(lines2, num, exp)))
  {
  }
}
