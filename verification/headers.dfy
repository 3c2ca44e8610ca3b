/** Header and schema files. The sample command writes a `.schema` file (one
    line of cardinalities) and a `.hdr` file (a line of names and a line of
    largest state indices); the convert command reads either shape back
    with `parseHeader`, and the `csv2arff` conversion writes an ARFF header
    from the variables read. */
module Headers {
  import opened Results
  import opened Text
  import opened Registry

  datatype HeaderError =
    | BadNumber(text: string)     // a cardinality that is not a non-negative decimal
    | MissingCard(column: nat)    // the second line has no field for this column

  /** A cardinality field read with `conv.Atoi`; the variable library keeps
      it as a number of states, so a negative number is an error too. */
  function CardOf(text: string): (r: Result<nat, HeaderError>)
    ensures r.Success? <==> Atoi(text).Some? && Atoi(text).value >= 0
    ensures r.Success? ==> Atoi(text) == Some(r.value as int)
  {
    match Atoi(text)
    case None => Failure(BadNumber(text))
    case Some(n) => if n < 0 then Failure(BadNumber(text)) else Success(n)
  }

  /** Reads the cardinality of every column `i < count`, from `row`. */
  function CardsOf(row: seq<string>, count: nat): (r: Result<seq<nat>, HeaderError>)
    ensures r.Success? ==> |r.value| == count
    ensures r.Success? ==> forall i :: 0 <= i < count ==> i < |row| && CardOf(row[i]) == Success(r.value[i])
    ensures count <= |row| && (forall i :: 0 <= i < count ==> CardOf(row[i]).Success?) ==> r.Success?
    decreases count
  {
    if count == 0 then Success([])
    else
      var init :- CardsOf(row, count - 1);
      if count - 1 >= |row| then Failure(MissingCard(count - 1))
      else
        var c :- CardOf(row[count - 1]);
        Success(init + [c])
  }

  /** The variables of a header: column i is variable i. */
  function HeaderVars(cards: seq<nat>, names: seq<string>): (vs: seq<Var>)
    requires |names| == |cards|
    ensures |vs| == |cards|
  {
    seq(|cards|, i requires 0 <= i < |cards| => Var(i, cards[i], names[i], false))
  }

  /** `vs.Add` of each variable in turn, the last one added last. */
  function AddAll(vs: seq<Var>, news: seq<Var>): seq<Var>
    decreases |news|
  {
    if |news| == 0 then vs else AddVar(AddAll(vs, news[..|news| - 1]), news[|news| - 1])
  }

  /** Variables added in ascending id order to an empty registry are kept
      in that order. */
  lemma {:induction false} AddAllAppends(news: seq<Var>)
    requires Ascending(news)
    ensures AddAll([], news) == news
    decreases |news|
  {
    if |news| > 0 {
      var init := news[..|news| - 1];
      var last := news[|news| - 1];
      assert Ascending(init) by {
        forall i, j | 0 <= i < j < |init| ensures init[i].id < init[j].id {
          assert init[i] == news[i] && init[j] == news[j];
        }
      }
      AddAllAppends(init);
      if |init| == 0 {
        assert AddVar([], last) == [last];
      } else {
        assert init[|init| - 1] == news[|news| - 2];
        assert news[|news| - 2].id < news[|news| - 1].id;
        AddFreshAppends(init, last);
      }
      assert init + [last] == news;
    }
  }

  /** `parseHeader`: one non-empty line lists the cardinalities of variables
      0, 1, ... (unnamed); with two or more, the first lists the names and
      the second the cardinalities, further lines being ignored; no line
      gives no variables. The variables are added to an empty registry one
      by one; `HeaderVarsAscending` shows that this yields them in column
      order, which is what is returned here. */
  function ParseHeader(lines: seq<string>): (r: Result<seq<Var>, HeaderError>)
  {
    var rows := NonEmpty(lines);
    if |rows| == 0 then Success([])
    else
      var first := Split(rows[0], ',');
      if |rows| == 1 then
        var cards :- CardsOf(first, |first|);
        Success(HeaderVars(cards, seq(|first|, _ => "")))
      else
        var cards :- CardsOf(Split(rows[1], ','), |first|);
        Success(HeaderVars(cards, first))
  }

  /** The header's variables have ascending ids, so adding them to an empty
      registry in column order keeps every one of them, in that order. */
  lemma HeaderVarsAscending(cards: seq<nat>, names: seq<string>)
    requires |names| == |cards|
    ensures Ascending(HeaderVars(cards, names))
    ensures AddAll([], HeaderVars(cards, names)) == HeaderVars(cards, names)
  {
    AddAllAppends(HeaderVars(cards, names));
  }

  /** What `parseHeader` yields: variable i has id i, is not latent, takes
      its name from the first line (or none, for a one-line header) and its
      cardinality from column i of the cardinality line. It fails exactly
      when some column's cardinality is missing or is not a non-negative
      decimal. */
  lemma ParseHeaderOutcome(lines: seq<string>)
    ensures var rows := NonEmpty(lines);
      |rows| >= 1 ==>
        var first := Split(rows[0], ',');
        var cardRow := if |rows| == 1 then first else Split(rows[1], ',');
        && (ParseHeader(lines).Success? <==>
              |first| <= |cardRow| && forall i :: 0 <= i < |first| ==> CardOf(cardRow[i]).Success?)
        && (ParseHeader(lines).Success? ==>
              var vs := ParseHeader(lines).value;
              && |vs| == |first|
              && forall i :: 0 <= i < |vs| ==>
                   && vs[i].id == i && !vs[i].latent
                   && vs[i].name == (if |rows| == 1 then "" else first[i])
                   && Atoi(cardRow[i]) == Some(vs[i].card as int))
    ensures NonEmpty(lines) == [] ==> ParseHeader(lines) == Success([])
  {
    var rows := NonEmpty(lines);
    if |rows| >= 1 {
      var first := Split(rows[0], ',');
      var cardRow := if |rows| == 1 then first else Split(rows[1], ',');
      var names := if |rows| == 1 then seq(|first|, _ => "") else first;
    }
  }

  // writeHeaders (sample command)

  function CardTexts(vs: seq<Var>): (r: seq<string>)
    ensures |r| == |vs|
  {
    seq(|vs|, i requires 0 <= i < |vs| => Itoa(vs[i].card))
  }

  function Names(vs: seq<Var>): (r: seq<string>)
    ensures |r| == |vs|
  {
    seq(|vs|, i requires 0 <= i < |vs| => vs[i].name)
  }

  function MaxTexts(vs: seq<Var>): (r: seq<string>)
    ensures |r| == |vs|
  {
    seq(|vs|, i requires 0 <= i < |vs| => Itoa(vs[i].card - 1))
  }

  /** `writeHeaders`: the `.schema` file's one line and the `.hdr` file's
      two lines. */
  function WriteHeaders(vs: seq<Var>): (r: (seq<string>, seq<string>))
    ensures |r.0| == 1 && |r.1| == 2
  {
    ([Join(CardTexts(vs), [','])], [Join(Names(vs), [',']), Join(MaxTexts(vs), [','])])
  }

  /** A joined line whose first part is not empty is not empty. */
  lemma JoinNonEmpty(parts: seq<string>, sep: string)
    requires |parts| >= 1 && parts[0] != ""
    ensures Join(parts, sep) != ""
  {
    if |parts| > 1 {
      assert Join(parts, sep) == parts[0] + sep + Join(parts[1..], sep);
    }
  }

  /** A comma-joined line of printed numbers reads back as those numbers. */
  lemma NumbersReadBack(texts: seq<string>, cs: seq<nat>)
    requires |texts| == |cs| >= 1
    requires forall i :: 0 <= i < |texts| ==> texts[i] == Itoa(cs[i])
    ensures Split(Join(texts, [',']), ',') == texts
    ensures CardsOf(texts, |texts|) == Success(cs)
    ensures Join(texts, [',']) != ""
  {
    forall i | 0 <= i < |texts| ensures ',' !in texts[i] && CardOf(texts[i]) == Success(cs[i]) {
      ItoaIsToken(cs[i]);
      AtoiItoa(cs[i]);
    }
    var r := CardsOf(texts, |texts|);
    assert r.Success?;
    assert forall i :: 0 <= i < |cs| ==> r.value[i] == cs[i] by {
      forall i | 0 <= i < |cs| ensures r.value[i] == cs[i] {
        assert CardOf(texts[i]) == Success(r.value[i]);
      }
    }
    assert r.value == cs;
    SplitJoin(texts, ',');
    JoinNonEmpty(texts, [',']);
  }

  /** A single non-empty line of readable cardinalities. */
  lemma OneLineHeader(line: string, cs: seq<nat>)
    requires line != ""
    requires CardsOf(Split(line, ','), |Split(line, ',')|) == Success(cs)
    ensures ParseHeader([line]) == Success(HeaderVars(cs, seq(|cs|, _ => "")))
  {
    assert NonEmpty([line]) == [line] by {
      assert [line][1..] == [];
    }
  }

  /** Reading the `.schema` file back with `parseHeader` gives variables
      0 .. n-1, unnamed, with the written cardinalities. */
  lemma SchemaRoundTrip(vs: seq<Var>)
    ensures ParseHeader(WriteHeaders(vs).0) == Success(HeaderVars(Cards(vs), seq(|vs|, _ => "")))
  {
    var texts := CardTexts(vs);
    var line := Join(texts, [',']);
    if |vs| == 0 {
      assert NonEmpty([line]) == [];
    } else {
      var cs := Cards(vs);
      assert forall i :: 0 <= i < |texts| ==> texts[i] == Itoa(cs[i]);
      NumbersReadBack(texts, cs);
      OneLineHeader(line, cs);
    }
  }

  /** Reading the `.hdr` file back with `parseHeader` gives the variables'
      names with their largest state index (one less than the number of
      states) as cardinality, when every variable has a state and a
      non-empty name without commas. */
  lemma HdrRoundTrip(vs: seq<Var>)
    requires |vs| >= 1
    requires forall i :: 0 <= i < |vs| ==> vs[i].card >= 1 && vs[i].name != "" && ',' !in vs[i].name
    ensures ParseHeader(WriteHeaders(vs).1) ==
              Success(HeaderVars(seq(|vs|, i requires 0 <= i < |vs| => vs[i].card - 1), Names(vs)))
  {
    var names, maxs := Names(vs), MaxTexts(vs);
    var l0, l1 := Join(names, [',']), Join(maxs, [',']);
    var cs := seq(|vs|, i requires 0 <= i < |vs| => vs[i].card - 1);
    NumbersReadBack(maxs, cs);
    SplitJoin(names, ',');
    JoinNonEmpty(names, [',']);
    assert NonEmpty([l0, l1]) == [l0, l1] by {
      assert [l0, l1][1..] == [l1];
      assert [l1][1..] == [];
    }
  }

  // writeCsvToArff header

  /** The state labels `0 .. n-1`. */
  function StateList(n: nat): (r: seq<string>)
    ensures |r| == n
  {
    seq(n, j requires 0 <= j < n => Itoa(j))
  }

  const AttributePrefix := "@attribute x"

  /** The attribute line of one variable; the `x` keeps a numeric name from
      being read as a number. */
  function AttributeLine(v: Var): string {
    AttributePrefix + v.name + " {" + Join(StateList(v.card), [',']) + "}"
  }

  /** The lines of the ARFF header: the relation, one attribute per
      variable in order, and the `@data` marker after which the CSV text is
      copied unchanged. */
  function ArffHeader(vs: seq<Var>): (r: seq<string>)
    ensures |r| == |vs| + 2
    ensures r[0] == "@relation data" && r[|r| - 1] == "@data"
    ensures forall i :: 0 <= i < |vs| ==> r[i + 1] == AttributeLine(vs[i])
  {
    ["@relation data"] + seq(|vs|, i requires 0 <= i < |vs| => AttributeLine(vs[i])) + ["@data"]
  }

  /** Each line followed by a newline. */
  function Lines(ls: seq<string>): string
    decreases |ls|
  {
    if |ls| == 0 then "" else ls[0] + "\n" + Lines(ls[1..])
  }

  /** `writeCsvToArff`: the header, a newline, then the CSV text. */
  function CsvToArff(vs: seq<Var>, csv: string): (out: string)
    ensures HasSuffix(out, csv)
  {
    Lines(ArffHeader(vs)) + csv
  }

  /** Reads an attribute line back: the variable's name and its number of
      states, which must be listed as `0,1,...`. */
  function ReadAttribute(line: string): Option<(string, nat)> {
    if !HasPrefix(line, AttributePrefix) then None
    else
      var parts :- SplitOnce(line[|AttributePrefix|..], " {");
      var tail := parts.1;
      if |tail| == 0 || tail[|tail| - 1] != '}' then None
      else
        var n :- ReadStates(tail[..|tail| - 1]);
        Some((parts.0, n))
  }

  /** The number of states of a `0,1,...` list; none for any other text. */
  function ReadStates(inner: string): Option<nat> {
    if inner == "" then Some(0)
    else
      var states := Split(inner, ',');
      if states == StateList(|states|) then Some(|states|) else None
  }

  /** The written state list reads back as its length. */
  lemma StatesRoundTrip(n: nat)
    ensures ReadStates(Join(StateList(n), [','])) == Some(n)
  {
    var states := StateList(n);
    if n > 0 {
      forall j | 0 <= j < n ensures ',' !in states[j] {
        ItoaIsToken(j);
      }
      SplitJoin(states, ',');
      ItoaIsToken(0);
      JoinNonEmpty(states, [',']);
    }
  }

  /** Reading an attribute line back gives the variable's name and number
      of states, when the name has no space. */
  lemma AttributeRoundTrip(v: Var)
    requires ' ' !in v.name
    ensures ReadAttribute(AttributeLine(v)) == Some((v.name, v.card))
  {
    var inner := Join(StateList(v.card), [',']);
    var line := AttributeLine(v);
    assert line == AttributePrefix + (v.name + " {" + (inner + "}"));
    assert line[|AttributePrefix|..] == v.name + " {" + (inner + "}");
    SplitOnceFirst(v.name, " {", inner + "}");
    assert (inner + "}")[..|inner|] == inner;
    StatesRoundTrip(v.card);
  }
}
