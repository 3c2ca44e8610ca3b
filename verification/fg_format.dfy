/** The `bif2fg` conversion: every factor of a Bayesian network written in
    the factor-graph layout, and a reader of that layout. The factors come
    from a network parser that is not part of this model, so they are the
    input; printed numbers (`%v` of a float) are the parameter `show`. */
module FgFormat {
  import opened Results
  import opened Text
  import opened Registry
  import opened Printed
  import opened Runs

  /** An entry line: the entry's index, a tab, the printed value. */
  function EntryLine(i: nat, value: string): string {
    Itoa(i) + "\t" + value
  }

  /** One factor's block: its scope size, its ids, its cardinalities, its
      number of entries, one entry line per stored entry in stored order,
      and an empty line. */
  function FgBlock(f: Factor<real>, show: real -> string): (b: seq<string>)
    ensures |b| == 5 + |f.values|
    ensures b[0] == Itoa(|f.scope|) && b[1] == Numbers(ScopeIds(f.scope)) && b[2] == Numbers(Cards(f.scope))
    ensures b[3] == Itoa(|f.values|) && b[4 + |f.values|] == ""
    ensures forall i :: 0 <= i < |f.values| ==> b[4 + i] == EntryLine(i, show(f.values[i]))
  {
    var head := [Itoa(|f.scope|), Numbers(ScopeIds(f.scope)), Numbers(Cards(f.scope)), Itoa(|f.values|)];
    var entries := seq(|f.values|, i requires 0 <= i < |f.values| => EntryLine(i, show(f.values[i])));
    var b := head + entries + [""];
    assert forall i :: 0 <= i < |f.values| ==> b[4 + i] == entries[i];
    b
  }

  /** The blocks of the factors, one after the other. */
  function FgBlocks(fs: seq<Factor<real>>, show: real -> string): seq<string> {
    Concat(seq(|fs|, i requires 0 <= i < |fs| => FgBlock(fs[i], show)))
  }

  /** `writeBifToFG`: the number of factors (one per variable), an empty
      line, then the factors' blocks in variable order. */
  function WriteFg(fs: seq<Factor<real>>, show: real -> string): (ls: seq<string>)
    ensures |ls| >= 2 && ls[0] == Itoa(|fs|) && ls[1] == ""
  {
    [Itoa(|fs|), ""] + FgBlocks(fs, show)
  }

  // Reading the layout back

  /** What a block states: the scope's ids and cardinalities and the
      entries as (index, printed value) pairs. */
  datatype FgFactor = FgFactor(ids: seq<int>, cards: seq<int>, entries: seq<(int, string)>)

  /** What the writer states about a factor. */
  function Stated(f: Factor<real>, show: real -> string): FgFactor {
    FgFactor(ScopeIds(f.scope), Cards(f.scope),
      seq(|f.values|, i requires 0 <= i < |f.values| => (i, show(f.values[i]))))
  }

  /** An entry line: the index before the first tab, the value after it. */
  function ReadEntry(line: string): Option<(int, string)> {
    var parts :- SplitOnce(line, "\t");
    var i :- Atoi(parts.0);
    Some((i, parts.1))
  }

  /** One block at the head of the lines, and how many lines it takes. */
  function ReadFgBlock(lines: seq<string>): (r: Option<(FgFactor, nat)>)
    ensures r.Some? ==> 0 < r.value.1 <= |lines|
  {
    if |lines| < 4 then None
    else
      var k :- Atoi(lines[0]);
      var ids :- ReadInts(Fields(lines[1]));
      var cards :- ReadInts(Fields(lines[2]));
      var m :- Atoi(lines[3]);
      if |ids| != k || |cards| != k || m < 0 || |lines| < 5 + m || lines[4 + m] != "" then None
      else
        var entries :- MapAll(lines[4..4 + m], ReadEntry);
        Some((FgFactor(ids, cards, entries), 5 + m))
  }

  /** Reads a factor-graph file: the count, an empty line, the blocks. */
  function ReadFg(lines: seq<string>): Option<seq<FgFactor>> {
    if |lines| < 2 || lines[1] != "" then None
    else
      var n :- Atoi(lines[0]);
      if n < 0 then None else ReadRuns(lines[2..], n, ReadFgBlock)
  }

  /** An entry line reads back as its index and value, whatever the value. */
  lemma EntryRead(i: nat, value: string)
    ensures ReadEntry(EntryLine(i, value)) == Some((i, value))
  {
    ItoaIsToken(i);
    SplitOnceFirst(Itoa(i), "\t", value);
    AtoiItoa(i);
  }

  /** The reader accepts a block whose lines read back, position by
      position, as the parts of `u`. */
  lemma ReadBlockOf(lines: seq<string>, u: FgFactor, m: nat)
    requires |lines| >= 5 + m && |u.cards| == |u.ids|
    requires Atoi(lines[0]) == Some(|u.ids|) && Atoi(lines[3]) == Some(m) && lines[4 + m] == ""
    requires ReadInts(Fields(lines[1])) == Some(u.ids) && ReadInts(Fields(lines[2])) == Some(u.cards)
    requires MapAll(lines[4..4 + m], ReadEntry) == Some(u.entries)
    ensures ReadFgBlock(lines) == Some((u, 5 + m))
  {
  }

  /** A block followed by anything reads back as what it states, taking
      exactly its own lines. */
  lemma BlockRead(f: Factor<real>, show: real -> string, rest: seq<string>)
    ensures ReadFgBlock(FgBlock(f, show) + rest) == Some((Stated(f, show), |FgBlock(f, show)|))
  {
    var b := FgBlock(f, show);
    var lines := b + rest;
    var m := |f.values|;
    var u := Stated(f, show);
    assert forall j :: 0 <= j < |b| ==> lines[j] == b[j];
    assert Atoi(lines[0]) == Some(|u.ids|) by { AtoiItoa(|f.scope|); }
    assert ReadInts(Fields(lines[1])) == Some(u.ids) by { NumbersRead(ScopeIds(f.scope)); }
    assert ReadInts(Fields(lines[2])) == Some(u.cards) by { NumbersRead(Cards(f.scope)); }
    assert Atoi(lines[3]) == Some(m) by { AtoiItoa(m); }
    assert MapAll(lines[4..4 + m], ReadEntry) == Some(u.entries) by {
      forall i | 0 <= i < m ensures ReadEntry(lines[4..4 + m][i]) == Some(u.entries[i]) {
        EntryRead(i, show(f.values[i]));
      }
      MapAllOf(lines[4..4 + m], ReadEntry, u.entries);
    }
    ReadBlockOf(lines, u, m);
  }

  /** Reading a written file gives back, factor by factor, the scope's ids
      and cardinalities and every stored entry with its index, whatever the
      printed values look like. */
  lemma FgRoundTrip(fs: seq<Factor<real>>, show: real -> string)
    ensures ReadFg(WriteFg(fs, show)) == Some(seq(|fs|, i requires 0 <= i < |fs| => Stated(fs[i], show)))
  {
    var ls := WriteFg(fs, show);
    var blocks := seq(|fs|, i requires 0 <= i < |fs| => FgBlock(fs[i], show));
    var us := seq(|fs|, i requires 0 <= i < |fs| => Stated(fs[i], show));
    AtoiItoa(|fs|);
    assert ls[2..] == Concat(blocks);
    forall i | 0 <= i < |fs| ensures ReadFgBlock(Concat(blocks[i..])) == Some((us[i], |blocks[i]|)) {
      ConcatFrom(blocks, i);
      BlockRead(fs[i], show, Concat(blocks[i + 1..]));
    }
    ReadRunsConcat(blocks, ReadFgBlock, us);
  }
}
