/** The `xml2bif` conversion: a network read from XMLBIF (its variables with
    their states, and one probability entry per child) written as BIF text.
    The XML reader is not part of this model, so the network it yields is
    the input. State names of the written variables come from the variable
    library and are the parameter `stateName`; the order in which the parents'
    assignments are walked is the parameter `conv`. */
module XmlBif {
  import opened Results
  import opened Text
  import opened Registry
  import opened MixedRadix
  import opened Runs
  import opened Headers

  datatype XmlVar = XmlVar(name: string, states: seq<string>)

  /** A probability entry: the child names (`For`), the parent names
      (`Given`) and the table text. */
  datatype XmlProb = XmlProb(child: seq<string>, given: seq<string>, table: string)

  datatype XmlNet = XmlNet(name: string, vars: seq<XmlVar>, probs: seq<XmlProb>)

  datatype XmlError =
    | NoChild                   // an entry without a child name
    | UnknownName(name: string) // a child or parent name no variable carries
    | TableTooShort(child: string)

  // Cutting a table into rows

  lemma RowEnd(i: nat, c: nat, rows: nat)
    requires i < rows
    ensures i * c + c <= rows * c
  {
    MulMonotone(i + 1, rows, c);
  }

  /** Row `k` of a table cut into rows of `c`: the `c` values from `k * c`
      on. */
  function Row(vals: seq<string>, c: nat, k: nat): (row: seq<string>)
    requires k * c + c <= |vals|
    ensures |row| == c
  {
    MulMonotone(k, 0, c);
    vals[k * c..k * c + c]
  }

  /** The table's values cut into `rows` runs of `c`, if there are enough:
      row `i` holds the values from `i * c` on. */
  function Chunks(vals: seq<string>, c: nat, rows: nat): (r: Option<seq<seq<string>>>)
    ensures r.Some? <==> rows * c <= |vals|
    ensures r.Some? ==> (|r.value| == rows
      && forall i :: 0 <= i < rows ==> i * c + c <= |vals| && r.value[i] == Row(vals, c, i))
  {
    if |vals| < rows * c then None
    else
      var ch := seq(rows, i requires 0 <= i < rows => RowEnd(i, c, rows); Row(vals, c, i));
      assert forall i :: 0 <= i < rows ==> i * c + c <= |vals| by {
        forall i | 0 <= i < rows ensures i * c + c <= |vals| { RowEnd(i, c, rows); }
      }
      Some(ch)
  }

  /** Runs of `c` taken one after another from the start of `vals`, laid end
      to end, are the first `|ch| * c` values. */
  lemma {:induction false} ConcatSlices(vals: seq<string>, c: nat, ch: seq<seq<string>>)
    requires |ch| * c <= |vals|
    requires forall i :: 0 <= i < |ch| ==> i * c + c <= |vals| && ch[i] == Row(vals, c, i)
    ensures Concat(ch) == vals[..|ch| * c]
    decreases |ch|
  {
    if |ch| > 0 {
      var rest := vals[c..];
      var n := |ch| - 1;
      assert n * c + c == |ch| * c;
      forall i | 0 <= i < n ensures i * c + c <= |rest| && ch[1..][i] == Row(rest, c, i) {
        RowShift(vals, c, i);
      }
      ConcatSlices(rest, c, ch[1..]);
      assert ch[0] == vals[..c] by { assert ch[0] == Row(vals, c, 0); }
      MulMonotone(n, 0, c);
      ConcatStep(vals, c, n * c, ch);
    }
  }

  /** A first run of `c` values followed by runs covering the next `m`
      covers the first `c + m`. */
  lemma ConcatStep<T>(vals: seq<T>, c: nat, m: nat, ch: seq<seq<T>>)
    requires c + m <= |vals| && |ch| > 0 && ch[0] == vals[..c] && Concat(ch[1..]) == vals[c..][..m]
    ensures Concat(ch) == vals[..c + m]
  {
    assert vals[..c] + vals[c..][..m] == vals[..c + m];
  }

  /** Dropping the first row shifts the rows by one. */
  lemma RowShift(vals: seq<string>, c: nat, i: nat)
    requires (i + 1) * c + c <= |vals|
    ensures i * c + c <= |vals| - c && Row(vals[c..], c, i) == Row(vals, c, i + 1)
  {
    MulMonotone(i, 0, c);
    assert (i + 1) * c == i * c + c;
  }

  /** The rows laid end to end are the first `rows * c` values: every value
      is used once, in order, and any beyond are left out. */
  lemma ChunksCover(vals: seq<string>, c: nat, rows: nat)
    requires rows * c <= |vals|
    ensures Concat(Chunks(vals, c, rows).value) == vals[..rows * c]
  {
    ConcatSlices(vals, c, Chunks(vals, c, rows).value);
  }

  // The BIF text

  /** The state names the library gives a variable with `n` states. */
  function States(n: nat, stateName: nat -> string): (ss: seq<string>)
    ensures |ss| == n
  {
    seq(n, d requires 0 <= d < n => stateName(d))
  }

  /** A row of a table with parents: the parents' states of the row's
      assignment, then the child's values, both comma-separated; a printed
      exponent `E+00` is dropped from the values. */
  function RowLine(labels: seq<string>, chunk: seq<string>): string {
    "  (" + Join(labels, ", ") + ") " + ReplaceAll(Join(chunk, ", "), "E+00", "") + ";"
  }

  /** The parents' states of row `r`: the assignment the index walk reaches
      at step `r`. */
  function RowLabels(r: nat, pcards: seq<nat>, conv: Convention, stateName: nat -> string): (ls: seq<string>)
    requires r < Product(pcards)
    ensures |ls| == |pcards|
  {
    OffsetOfDigits(r, pcards, conv);
    var d := Digits(r, pcards, conv);
    seq(|d|, j requires 0 <= j < |d| => stateName(d[j]))
  }

  /** The rows of a table with parents: one per joint assignment of the
      parents, each with the next `card` values of the table's fields. */
  function ProbRows(child: Var, parents: seq<Var>, table: string, conv: Convention, stateName: nat -> string)
    : (r: Option<seq<string>>)
    ensures r.Some? <==> Product(Cards(parents)) * child.card <= |Fields(Trim(table, {' '}))|
    ensures r.Some? ==> |r.value| == Product(Cards(parents))
    ensures r.Some? ==> var ch := Chunks(Fields(Trim(table, {' '})), child.card, Product(Cards(parents)));
      ch.Some? && forall k :: 0 <= k < |r.value| ==> r.value[k] == RowLine(RowLabels(k, Cards(parents), conv, stateName), ch.value[k])
  {
    var pcards := Cards(parents);
    var vals := Fields(Trim(table, {' '}));
    var chunks :- Chunks(vals, child.card, Product(pcards));
    var rows := seq(Product(pcards), r requires 0 <= r < Product(pcards) =>
      RowLine(RowLabels(r, pcards, conv, stateName), chunks[r]));
    assert forall k :: 0 <= k < |rows| ==> rows[k] == RowLine(RowLabels(k, pcards, conv, stateName), chunks[k]);
    Some(rows)
  }

  /** Every joint assignment of the parents has exactly one row: the row at
      its offset, whose states are the assignment's and whose values are the
      `card` values from that offset times `card` on. */
  lemma EveryAssignmentOneRow(child: Var, parents: seq<Var>, table: string, conv: Convention, stateName: nat -> string, d: seq<nat>)
    requires ProbRows(child, parents, table, conv, stateName).Some?
    requires InRange(d, Cards(parents))
    ensures var pcards, vals, c := Cards(parents), Fields(Trim(table, {' '})), child.card;
      var k := Offset(d, pcards, conv);
      && k < Product(pcards) && k * c + c <= |vals|
      && ProbRows(child, parents, table, conv, stateName).value[k]
           == RowLine(seq(|d|, j requires 0 <= j < |d| => stateName(d[j])), Row(vals, c, k))
      && forall r :: 0 <= r < Product(pcards) && Digits(r, pcards, conv) == d ==> r == k
  {
    var pcards, vals, c := Cards(parents), Fields(Trim(table, {' '})), child.card;
    DigitsOfOffset(d, pcards, conv);
    var k := Offset(d, pcards, conv);
    RowAt(child, parents, table, conv, stateName, k);
    assert RowLabels(k, pcards, conv, stateName) == seq(|d|, j requires 0 <= j < |d| => stateName(d[j]));
    forall r | 0 <= r < Product(pcards) && Digits(r, pcards, conv) == d ensures r == k {
      OffsetOfDigits(r, pcards, conv);
    }
  }

  /** Row `k` of a table with parents holds the `card` values from
      `k * card` on. */
  lemma RowAt(child: Var, parents: seq<Var>, table: string, conv: Convention, stateName: nat -> string, k: nat)
    requires ProbRows(child, parents, table, conv, stateName).Some?
    requires k < Product(Cards(parents))
    ensures var vals, c := Fields(Trim(table, {' '})), child.card;
      && k * c + c <= |vals|
      && ProbRows(child, parents, table, conv, stateName).value[k]
           == RowLine(RowLabels(k, Cards(parents), conv, stateName), Row(vals, c, k))
  {
    var ch := Chunks(Fields(Trim(table, {' '})), child.card, Product(Cards(parents)));
    assert ch.Some?;
  }

  /** A table without parents: its text with spaces trimmed from both ends,
      each space turned into a comma and a space, `E+00` dropped. */
  function NoParentLine(table: string): string {
    "  table " + ReplaceAll(ReplaceAll(Trim(table, {' '}), " ", ", "), "E+00", "") + ";"
  }

  /** Replacing a one-character pattern skips a prefix without it. */
  lemma {:induction false} ReplaceSkips(a: string, b: string, pat: string, rep: string)
    requires |pat| == 1 && pat[0] !in a
    ensures ReplaceAll(a + b, pat, rep) == a + ReplaceAll(b, pat, rep)
    decreases |a|
  {
    if |a| == 0 {
      assert a + b == b;
    } else {
      var s, r := a + b, ReplaceAll(b, pat, rep);
      assert s[..|pat|] != pat by { assert s[..|pat|][0] == a[0] && a[0] != pat[0]; }
      assert s[1..] == a[1..] + b;
      ReplaceSkips(a[1..], b, pat, rep);
      assert ReplaceAll(s, pat, rep) == [a[0]] + (a[1..] + r);
      assert [a[0]] + (a[1..] + r) == a + r;
    }
  }

  /** Joined by single spaces, words without a space come out joined by
      `", "` once every space is replaced. */
  lemma {:induction false} SpacesToCommas(toks: seq<string>)
    requires forall i :: 0 <= i < |toks| ==> ' ' !in toks[i]
    ensures ReplaceAll(Join(toks, " "), " ", ", ") == Join(toks, ", ")
    decreases |toks|
  {
    if |toks| == 1 {
      ReplaceSkips(toks[0], "", " ", ", ");
      assert toks[0] + "" == toks[0];
    } else if |toks| > 1 {
      var rest := Join(toks[1..], " ");
      assert Join(toks, " ") == toks[0] + (" " + rest);
      ReplaceSkips(toks[0], " " + rest, " ", ", ");
      assert HasPrefix(" " + rest, " ");
      assert (" " + rest)[1..] == rest;
      SpacesToCommas(toks[1..]);
    }
  }

  lemma {:induction false} JoinEnds(toks: seq<string>, sep: string)
    requires |toks| > 0 && forall i :: 0 <= i < |toks| ==> |toks[i]| > 0
    ensures var s := Join(toks, sep); |s| > 0 && s[0] == toks[0][0] && s[|s| - 1] == toks[|toks| - 1][|toks[|toks| - 1]| - 1]
    decreases |toks|
  {
    if |toks| > 1 {
      JoinEnds(toks[1..], sep);
    }
  }

  /** For a table of words separated by single spaces, the line without
      parents lists the same values, in the same form, as a row holding all
      of them. */
  lemma NoParentAsOneRow(toks: seq<string>)
    requires |toks| > 0 && forall i :: 0 <= i < |toks| ==> IsWord(toks[i])
    ensures NoParentLine(Join(toks, " ")) == "  table " + ReplaceAll(Join(toks, ", "), "E+00", "") + ";"
  {
    JoinEnds(toks, " ");
    TrimKeeps(Join(toks, " "), {' '});
    forall i | 0 <= i < |toks| ensures ' ' !in toks[i] {
      assert forall k :: 0 <= k < |toks[i]| ==> toks[i][k] != ' ';
    }
    SpacesToCommas(toks);
  }

  /** The variables in file order, with consecutive ids from 0. */
  function XmlVars(net: XmlNet): (vs: seq<Var>)
    ensures |vs| == |net.vars| && Ascending(vs)
    ensures forall i :: 0 <= i < |vs| ==> vs[i] == Var(i, |net.vars[i].states|, net.vars[i].name, false)
  {
    seq(|net.vars|, i requires 0 <= i < |net.vars| => Var(i, |net.vars[i].states|, net.vars[i].name, false))
  }

  /** Adding the variables one by one to an empty list (`vs.Add`) gives
      them in file order. */
  lemma XmlVarsRegistered(net: XmlNet)
    ensures AddAll([], XmlVars(net)) == XmlVars(net)
  {
    AddAllAppends(XmlVars(net));
  }

  function VarLines(v: Var, stateName: nat -> string): seq<string> {
    [ "variable " + v.name + " {",
      "  type discrete [ " + Itoa(v.card) + " ] { " + Join(States(v.card, stateName), ", ") + " };",
      "}" ]
  }

  function VarBlocks(vs: seq<Var>, stateName: nat -> string): seq<seq<string>> {
    seq(|vs|, i requires 0 <= i < |vs| => VarLines(vs[i], stateName))
  }

  /** Every named variable, in the order named, or the first name that is
      not found. */
  function FindAll(vs: seq<Var>, names: seq<string>): (r: Result<seq<Var>, XmlError>)
    ensures r.Success? ==> (|r.value| == |names|
      && forall i :: 0 <= i < |names| ==> FindByName(vs, names[i]) == Some(r.value[i]))
    ensures r.Failure? ==> exists i :: 0 <= i < |names| && FindByName(vs, names[i]).None?
    decreases |names|
  {
    if |names| == 0 then Success([])
    else
      match FindByName(vs, names[0]) {
        case None => Failure(UnknownName(names[0]))
        case Some(v) =>
          var rest :- FindAll(vs, names[1..]);
          assert forall i :: 1 <= i < |names| ==> names[i] == names[1..][i - 1];
          Success([v] + rest)
      }
  }

  /** One probability entry: its header line, its rows (or its single table
      line without parents) and the closing brace. */
  function ProbLines(vs: seq<Var>, p: XmlProb, conv: Convention, stateName: nat -> string): (r: Result<seq<string>, XmlError>)
    ensures r.Success? ==> |p.child| > 0
    ensures r.Success? && |p.given| == 0 ==> r.value == ["probability ( " + p.child[0] + " ) {", NoParentLine(p.table), "}"]
    ensures r.Success? && |p.given| > 0 ==>
      && FindByName(vs, p.child[0]).Some? && FindAll(vs, p.given).Success?
      && |r.value| == 2 + Product(Cards(FindAll(vs, p.given).value))
  {
    if |p.child| == 0 then Failure(NoChild)
    else if |p.given| > 0 then
      var xv :- FindByName(vs, p.child[0]).ToResult(UnknownName(p.child[0]));
      var pavs :- FindAll(vs, p.given);
      var rows :- ProbRows(xv, pavs, p.table, conv, stateName).ToResult(TableTooShort(p.child[0]));
      Success(["probability ( " + p.child[0] + " | " + Join(p.given, ", ") + " ) {"] + rows + ["}"])
    else Success(["probability ( " + p.child[0] + " ) {", NoParentLine(p.table), "}"])
  }

  /** The lines of every entry, in order, or the first entry's error. */
  function AllProbLines(vs: seq<Var>, ps: seq<XmlProb>, conv: Convention, stateName: nat -> string)
    : (r: Result<seq<seq<string>>, XmlError>)
  {
    MapResults(ps, p => ProbLines(vs, p, conv, stateName))
  }

  function NetworkLine(net: XmlNet): string {
    "network " + (if |net.name| == 0 then "unknown" else net.name) + " {}"
  }

  /** The text of a network whose probability entries print as `probs`:
      the network line (an unnamed network is called `unknown`), every
      variable's block, then the entries. */
  function BifText(net: XmlNet, stateName: nat -> string, probs: seq<seq<string>>): seq<string> {
    [NetworkLine(net)] + Concat(VarBlocks(XmlVars(net), stateName)) + Concat(probs)
  }

  /** `writeXMLToBif`: the BIF text, or the first entry's error. */
  function WriteXmlBif(net: XmlNet, conv: Convention, stateName: nat -> string): (r: Result<seq<string>, XmlError>)
    ensures r.Success? <==> forall i :: 0 <= i < |net.probs| ==> ProbLines(XmlVars(net), net.probs[i], conv, stateName).Success?
    ensures r.Failure? ==> exists i :: (0 <= i < |net.probs|
      && ProbLines(XmlVars(net), net.probs[i], conv, stateName) == Failure(r.error)
      && forall j :: 0 <= j < i ==> ProbLines(XmlVars(net), net.probs[j], conv, stateName).Success?)
    ensures r.Success? ==> exists probs :: (|probs| == |net.probs|
      && (forall i :: 0 <= i < |probs| ==> ProbLines(XmlVars(net), net.probs[i], conv, stateName) == Success(probs[i]))
      && r.value == BifText(net, stateName, probs))
  {
    var probs :- AllProbLines(XmlVars(net), net.probs, conv, stateName);
    Success(BifText(net, stateName, probs))
  }

  /** After the network line come the variables' blocks, three lines each,
      in file order: variable `i` is declared with its name and its number
      of states, whatever the entries print as. */
  lemma VariableDeclared(net: XmlNet, stateName: nat -> string, probs: seq<seq<string>>, i: nat)
    requires i < |net.vars|
    ensures var ls := BifText(net, stateName, probs);
      var n := |net.vars[i].states|;
      && 3 * i + 3 < |ls|
      && ls[0] == NetworkLine(net)
      && ls[1 + 3 * i] == "variable " + net.vars[i].name + " {"
      && ls[2 + 3 * i] == "  type discrete [ " + Itoa(n) + " ] { " + Join(States(n, stateName), ", ") + " };"
      && ls[3 + 3 * i] == "}"
  {
    var vs := XmlVars(net);
    var blocks := VarBlocks(vs, stateName);
    assert forall k :: 0 <= k < |blocks| ==> |blocks[k]| == 3;
    var pre := [NetworkLine(net)];
    var ls := BifText(net, stateName, probs);
    var post := Concat(probs);
    FixedBlockAt(ls, pre, blocks, post, 3, i, 0, 1 + 3 * i);
    FixedBlockAt(ls, pre, blocks, post, 3, i, 1, 2 + 3 * i);
    FixedBlockAt(ls, pre, blocks, post, 3, i, 2, 3 + 3 * i);
    assert blocks[i] == VarLines(vs[i], stateName);
  }
}
