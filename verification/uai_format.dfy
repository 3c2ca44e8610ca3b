/** The `bif2uai` conversion: a Bayesian network, one factor per variable,
    written in the UAI `MARKOV` layout after every certain entry has been
    smoothed; and a reader of that layout. Printed numbers (`%v` of a
    float) are the parameter `show`. */
module UaiFormat {
  import opened Results
  import opened Text
  import opened Registry
  import opened MixedRadix
  import opened Printed

  /** `smoothValues`: a copy of the table in which an entry equal to 1 is
      lowered by `eps` and an entry equal to 0 is raised by `eps`; both
      tests look at the original entry, and other entries are copied. */
  function Smooth(values: seq<real>, eps: real): (ws: seq<real>)
    ensures |ws| == |values|
    ensures forall i :: 0 <= i < |values| && values[i] == 1.0 ==> ws[i] == 1.0 - eps
    ensures forall i :: 0 <= i < |values| && values[i] == 0.0 ==> ws[i] == eps
    ensures forall i :: 0 <= i < |values| && values[i] != 0.0 && values[i] != 1.0 ==> ws[i] == values[i]
    decreases |values|
  {
    if |values| == 0 then []
    else
      var v := values[|values| - 1];
      Smooth(values[..|values| - 1], eps) + [if v == 1.0 then v - eps else if v == 0.0 then v + eps else v]
  }

  /** With no smoothing the table is copied unchanged. */
  lemma SmoothIdentity(values: seq<real>)
    ensures Smooth(values, 0.0) == values
  {
    var ws := Smooth(values, 0.0);
    assert forall i :: 0 <= i < |values| ==> ws[i] == values[i];
  }

  /** A table of probabilities smoothed by some `eps` in (0, 1) has no
      certain entry left: every entry lies strictly between 0 and 1. */
  lemma SmoothRemovesCertainty(values: seq<real>, eps: real)
    requires 0.0 < eps < 1.0
    requires forall i :: 0 <= i < |values| ==> 0.0 <= values[i] <= 1.0
    ensures forall i :: 0 <= i < |values| ==> 0.0 < Smooth(values, eps)[i] < 1.0
  {
    var ws := Smooth(values, eps);
    forall i | 0 <= i < |values| ensures 0.0 < ws[i] < 1.0 {
      if values[i] == 1.0 {
        assert ws[i] == 1.0 - eps;
      } else if values[i] == 0.0 {
        assert ws[i] == eps;
      } else {
        assert ws[i] == values[i];
      }
    }
  }

  // The UAI layout

  /** The entries of one factor in printed order: the writer walks the
      scope's assignments with the last variable fastest and prints, for
      each, the entry the factor stores for it. A table shorter than its
      scope's product has no entry for some assignment (the source panics). */
  function UaiTable(f: Factor<real>, eps: real, show: real -> string, conv: Convention)
    : (r: Option<seq<string>>)
    ensures r.Some? <==> Product(Cards(f.scope)) <= |f.values|
    ensures r.Some? ==> |r.value| == Product(Cards(f.scope))
  {
    var cards := Cards(f.scope);
    if |f.values| < Product(cards) then None
    else
      var ws := Smooth(f.values, eps);
      Some(seq(Product(cards), k requires 0 <= k < Product(cards) => show(ws[Recode(k, cards, NextRightWalk, conv)])))
  }

  /** Every stored entry is printed exactly once: entry p appears at the
      printed position of its assignment, and the printed positions are a
      permutation of the stored ones. When the factor stores its entries in
      the order `NextRight` walks (last variable fastest), the order is
      unchanged. */
  lemma UaiTableCovers(f: Factor<real>, eps: real, show: real -> string, conv: Convention)
    requires Product(Cards(f.scope)) <= |f.values|
    ensures var cards := Cards(f.scope); var t := UaiTable(f, eps, show, conv).value;
      && (forall p :: 0 <= p < Product(cards) ==>
            t[Recode(p, cards, conv, NextRightWalk)] == show(Smooth(f.values, eps)[p]))
      && (conv == NextRightWalk ==> forall k :: 0 <= k < |t| ==> t[k] == show(Smooth(f.values, eps)[k]))
  {
    var cards := Cards(f.scope);
    forall p | 0 <= p < Product(cards)
      ensures UaiTable(f, eps, show, conv).value[Recode(p, cards, conv, NextRightWalk)] == show(Smooth(f.values, eps)[p])
    {
      RecodeBack(p, cards, conv, NextRightWalk);
    }
    if conv == NextRightWalk {
      forall k | 0 <= k < Product(cards) ensures Recode(k, cards, NextRightWalk, conv) == k {
        RecodeBack(k, cards, NextRightWalk, conv);
      }
    }
  }

  /** A factor's line of the preamble: its scope size, a tab, and the ids. */
  function ScopeLine(f: Factor<real>): string {
    Itoa(|f.scope|) + "\t" + Numbers(ScopeIds(f.scope))
  }

  /** The cardinalities of the network's variables. */
  function NetCards(net: seq<(Var, Factor<real>)>): (cs: seq<int>)
    ensures |cs| == |net|
  {
    seq(|net|, i requires 0 <= i < |net| => net[i].0.card)
  }

  /** The tables of all factors, if every one is long enough. */
  function UaiTables(net: seq<(Var, Factor<real>)>, eps: real, show: real -> string, conv: Convention)
    : (r: Option<seq<seq<string>>>)
    ensures r.Some? <==> forall i :: 0 <= i < |net| ==> Product(Cards(net[i].1.scope)) <= |net[i].1.values|
    ensures r.Some? ==> |r.value| == |net|
    ensures r.Some? ==> forall i :: 0 <= i < |net| ==> UaiTable(net[i].1, eps, show, conv) == Some(r.value[i])
  {
    var xs := seq(|net|, i requires 0 <= i < |net| => UaiTable(net[i].1, eps, show, conv));
    assert forall i :: 0 <= i < |net| ==> (xs[i].Some? <==> Product(Cards(net[i].1.scope)) <= |net[i].1.values|);
    AllSome(xs)
  }

  /** Three lines per factor: its table size, its entries, and an empty
      line. */
  function Blocks(sizeLines: seq<string>, tableLines: seq<string>): (b: seq<string>)
    requires |tableLines| == |sizeLines|
    ensures |b| == 3 * |sizeLines|
    ensures forall i :: 0 <= i < |sizeLines| ==>
      b[3 * i] == sizeLines[i] && b[3 * i + 1] == tableLines[i] && b[3 * i + 2] == ""
  {
    var n := |sizeLines|;
    var b := seq(3 * n, j requires 0 <= j < 3 * n =>
      if j % 3 == 0 then sizeLines[j / 3] else if j % 3 == 1 then tableLines[j / 3] else "");
    assert forall i :: 0 <= i < n ==>
      b[3 * i] == sizeLines[i] && b[3 * i + 1] == tableLines[i] && b[3 * i + 2] == "" by {
      forall i | 0 <= i < n
        ensures b[3 * i] == sizeLines[i] && b[3 * i + 1] == tableLines[i] && b[3 * i + 2] == ""
      {
        BlockLine(i, 0, n);
        BlockLine(i, 1, n);
        BlockLine(i, 2, n);
      }
    }
    b
  }

  /** The position of line `r` of block `i` among the block lines. */
  lemma BlockLine(i: nat, r: nat, n: nat)
    requires i < n && r < 3
    ensures 3 * i + r < 3 * n && (3 * i + r) / 3 == i && (3 * i + r) % 3 == r
  {
  }

  /** The `MARKOV` layout: the number of variables, the cardinalities line,
      the number of factors (one per variable), one scope line per factor,
      an empty line, then per factor its size line, its entries line and an
      empty line. */
  function Layout(cardsLine: string, scopeLines: seq<string>, sizeLines: seq<string>, tableLines: seq<string>)
    : (ls: seq<string>)
    requires |sizeLines| == |scopeLines| && |tableLines| == |scopeLines|
    ensures var n := |scopeLines|;
      && |ls| == 5 + 4 * n
      && ls[0] == "MARKOV" && ls[1] == Itoa(n) && ls[2] == cardsLine && ls[3] == Itoa(n)
      && ls[4..4 + n] == scopeLines && ls[4 + n] == ""
      && (forall i :: 0 <= i < n ==>
            && ls[5 + n + 3 * i] == sizeLines[i]
            && ls[6 + n + 3 * i] == tableLines[i]
            && ls[7 + n + 3 * i] == "")
  {
    var n := |scopeLines|;
    var pre := ["MARKOV", Itoa(n), cardsLine, Itoa(n)] + scopeLines + [""];
    var blocks := Blocks(sizeLines, tableLines);
    assert |pre| == 5 + n;
    var ls := pre + blocks;
    assert ls[4..4 + n] == scopeLines by {
      assert forall j :: 0 <= j < n ==> ls[4 + j] == scopeLines[j];
    }
    forall i | 0 <= i < n
      ensures ls[5 + n + 3 * i] == blocks[3 * i]
      ensures ls[6 + n + 3 * i] == blocks[3 * i + 1]
      ensures ls[7 + n + 3 * i] == blocks[3 * i + 2]
    {
      BlockAt(pre, blocks, n, i);
    }
    ls
  }

  /** Line `r` of block `i` after a prefix of `5 + n` lines. */
  lemma BlockAt<T>(pre: seq<T>, blocks: seq<T>, n: nat, i: nat)
    requires |pre| == 5 + n && |blocks| == 3 * n && i < n
    ensures (pre + blocks)[5 + n + 3 * i] == blocks[3 * i]
    ensures (pre + blocks)[6 + n + 3 * i] == blocks[3 * i + 1]
    ensures (pre + blocks)[7 + n + 3 * i] == blocks[3 * i + 2]
  {
    ConcatAt(pre, blocks, 3 * i);
    ConcatAt(pre, blocks, 3 * i + 1);
    ConcatAt(pre, blocks, 3 * i + 2);
  }

  /** `writeBifToUAI` over the network's variables, each with its factor:
      the layout of the smoothed tables in printed order, if every table is
      long enough. */
  function WriteUai(net: seq<(Var, Factor<real>)>, eps: real, show: real -> string, conv: Convention)
    : (r: Option<seq<string>>)
    ensures r.Some? <==> forall i :: 0 <= i < |net| ==> Product(Cards(net[i].1.scope)) <= |net[i].1.values|
    ensures r.Some? ==> |r.value| == 5 + 4 * |net|
  {
    var tables :- UaiTables(net, eps, show, conv);
    var n := |net|;
    Some(Layout(
      Numbers(NetCards(net)),
      seq(n, i requires 0 <= i < n => ScopeLine(net[i].1)),
      seq(n, i requires 0 <= i < n => Itoa(|net[i].1.values|)),
      seq(n, i requires 0 <= i < n => Spaced(tables[i]))))
  }

  // Reading the layout back

  /** What a UAI file states: the cardinalities, each factor's scope ids,
      its declared table size and its entries as printed. */
  datatype Uai = Uai(cards: seq<int>, scopes: seq<seq<int>>, sizes: seq<int>, tables: seq<seq<string>>)

  /** A scope line: its size, a tab, then that many ids. */
  function ReadScope(line: string): Option<seq<int>> {
    var parts :- SplitOnce(line, "\t");
    var k :- Atoi(parts.0);
    var ids :- ReadInts(Fields(parts.1));
    if |ids| == k then Some(ids) else None
  }

  /** The `i`-th line of each table block, `r` < 3. */
  function BlockLines(lines: seq<string>, m: nat, r: nat): (ls: seq<string>)
    requires 5 + 4 * m <= |lines| && r < 3
    ensures |ls| == m && forall i :: 0 <= i < m ==> ls[i] == lines[5 + m + 3 * i + r]
  {
    seq(m, i requires 0 <= i < m => lines[5 + m + 3 * i + r])
  }

  /** Every table block ends with an empty line. */
  predicate Separated(lines: seq<string>, m: nat)
    requires 5 + 4 * m <= |lines|
  {
    forall i :: 0 <= i < m ==> lines[7 + m + 3 * i] == ""
  }

  /** The entries line of each table block, split into its fields. */
  function Tables(lines: seq<string>, m: nat): (ts: seq<seq<string>>)
    requires 5 + 4 * m <= |lines|
    ensures |ts| == m && forall i :: 0 <= i < m ==> ts[i] == Fields(lines[6 + m + 3 * i])
  {
    var ls := BlockLines(lines, m, 1);
    seq(m, i requires 0 <= i < m => Fields(ls[i]))
  }

  /** Reads the layout back, position by position. */
  function ReadUai(lines: seq<string>): Option<Uai> {
    if |lines| < 5 || lines[0] != "MARKOV" then None
    else
      var n :- Atoi(lines[1]);
      var cards :- ReadInts(Fields(lines[2]));
      var m :- Atoi(lines[3]);
      if n < 0 || m < 0 || |cards| != n || |lines| != 5 + 4 * m || lines[4 + m] != "" || !Separated(lines, m) then None
      else
        var scopes :- MapAll(lines[4..4 + m], ReadScope);
        var sizes :- MapAll(BlockLines(lines, m, 0), Atoi);
        Some(Uai(cards, scopes, sizes, Tables(lines, m)))
  }

  lemma ScopeLineRead(f: Factor<real>)
    ensures ReadScope(ScopeLine(f)) == Some(ScopeIds(f.scope))
  {
    ItoaIsToken(|f.scope|);
    SplitOnceFirst(Itoa(|f.scope|), "\t", Numbers(ScopeIds(f.scope)));
    AtoiItoa(|f.scope|);
    NumbersRead(ScopeIds(f.scope));
  }

  /** The reader accepts a layout whose lines read back as the record's
      parts. */
  lemma ReadLayout(cardsLine: string, scopeLines: seq<string>, sizeLines: seq<string>, tableLines: seq<string>, u: Uai)
    requires |sizeLines| == |scopeLines| && |tableLines| == |scopeLines|
    requires ReadInts(Fields(cardsLine)) == Some(u.cards) && |u.cards| == |scopeLines|
    requires MapAll(scopeLines, ReadScope) == Some(u.scopes)
    requires MapAll(sizeLines, Atoi) == Some(u.sizes)
    requires |u.tables| == |scopeLines| && forall i :: 0 <= i < |scopeLines| ==> Fields(tableLines[i]) == u.tables[i]
    ensures ReadUai(Layout(cardsLine, scopeLines, sizeLines, tableLines)) == Some(u)
  {
    var n := |scopeLines|;
    var lines := Layout(cardsLine, scopeLines, sizeLines, tableLines);
    AtoiItoa(n);
    assert Separated(lines, n);
    assert BlockLines(lines, n, 0) == sizeLines;
    assert Tables(lines, n) == u.tables;
    ReadParts(lines, n, u);
  }

  /** The reader's steps, once each part of the lines is known to read. */
  lemma ReadParts(lines: seq<string>, n: nat, u: Uai)
    requires |lines| == 5 + 4 * n && lines[0] == "MARKOV" && Atoi(lines[1]) == Some(n) && Atoi(lines[3]) == Some(n)
    requires ReadInts(Fields(lines[2])) == Some(u.cards) && |u.cards| == n
    requires lines[4 + n] == "" && Separated(lines, n)
    requires MapAll(lines[4..4 + n], ReadScope) == Some(u.scopes)
    requires MapAll(BlockLines(lines, n, 0), Atoi) == Some(u.sizes)
    requires Tables(lines, n) == u.tables
    ensures ReadUai(lines) == Some(u)
  {
  }

  /** The scope lines read back as the scopes' ids. */
  lemma ScopeLinesRead(net: seq<(Var, Factor<real>)>)
    ensures var n := |net|;
      MapAll(seq(n, i requires 0 <= i < n => ScopeLine(net[i].1)), ReadScope)
        == Some(seq(n, i requires 0 <= i < n => ScopeIds(net[i].1.scope)))
  {
    var n := |net|;
    var lines := seq(n, i requires 0 <= i < n => ScopeLine(net[i].1));
    var ids := seq(n, i requires 0 <= i < n => ScopeIds(net[i].1.scope));
    forall i | 0 <= i < n ensures ReadScope(lines[i]) == Some(ids[i]) {
      ScopeLineRead(net[i].1);
    }
    MapAllOf(lines, ReadScope, ids);
  }

  /** The size lines read back as the table sizes. */
  lemma SizeLinesRead(net: seq<(Var, Factor<real>)>)
    ensures var n := |net|;
      MapAll(seq(n, i requires 0 <= i < n => Itoa(|net[i].1.values|)), Atoi)
        == Some(seq(n, i requires 0 <= i < n => |net[i].1.values|))
  {
    var n := |net|;
    var lines := seq(n, i requires 0 <= i < n => Itoa(|net[i].1.values|));
    var sizes := seq(n, i requires 0 <= i < n => |net[i].1.values|);
    forall i | 0 <= i < n ensures Atoi(lines[i]) == Some(sizes[i]) {
      AtoiItoa(|net[i].1.values|);
    }
    MapAllOf(lines, Atoi, sizes);
  }

  /** The entries lines split back into the entries, when each is a word. */
  lemma TableLinesRead(tables: seq<seq<string>>)
    requires forall i, k :: 0 <= i < |tables| && 0 <= k < |tables[i]| ==> IsWord(tables[i][k])
    ensures var n := |tables|;
      forall i :: 0 <= i < n ==> Fields(seq(n, j requires 0 <= j < n => Spaced(tables[j]))[i]) == tables[i]
  {
    var n := |tables|;
    var lines := seq(n, j requires 0 <= j < n => Spaced(tables[j]));
    forall i | 0 <= i < n ensures Fields(lines[i]) == tables[i] {
      forall t | t in tables[i] ensures IsWord(t) {
        var k :| 0 <= k < |tables[i]| && tables[i][k] == t;
      }
      FieldsOfSpaced(tables[i]);
    }
  }

  /** Reading a written file gives back the variables' cardinalities, the
      factors' scopes and table sizes, and each factor's smoothed entries
      in printed order, when every printed number is a single word. */
  lemma UaiRoundTrip(net: seq<(Var, Factor<real>)>, eps: real, show: real -> string, conv: Convention)
    requires WriteUai(net, eps, show, conv).Some?
    requires forall x :: IsWord(show(x))
    ensures var n := |net|;
      ReadUai(WriteUai(net, eps, show, conv).value) == Some(Uai(
        NetCards(net),
        seq(n, i requires 0 <= i < n => ScopeIds(net[i].1.scope)),
        seq(n, i requires 0 <= i < n => |net[i].1.values|),
        UaiTables(net, eps, show, conv).value))
  {
    var n := |net|;
    var tables := UaiTables(net, eps, show, conv).value;
    var cardsLine := Numbers(NetCards(net));
    var scopeLines := seq(n, i requires 0 <= i < n => ScopeLine(net[i].1));
    var sizeLines := seq(n, i requires 0 <= i < n => Itoa(|net[i].1.values|));
    var tableLines := seq(n, i requires 0 <= i < n => Spaced(tables[i]));
    var u := Uai(NetCards(net),
      seq(n, i requires 0 <= i < n => ScopeIds(net[i].1.scope)),
      seq(n, i requires 0 <= i < n => |net[i].1.values|),
      tables);
    assert WriteUai(net, eps, show, conv).value == Layout(cardsLine, scopeLines, sizeLines, tableLines);
    assert forall i, k :: 0 <= i < n && 0 <= k < |tables[i]| ==> IsWord(tables[i][k]) by {
      forall i, k | 0 <= i < n && 0 <= k < |tables[i]| ensures IsWord(tables[i][k]) {
        var t := UaiTable(net[i].1, eps, show, conv);
        assert t == Some(tables[i]);
      }
    }
    assert ReadInts(Fields(cardsLine)) == Some(u.cards) by { NumbersRead(NetCards(net)); }
    assert MapAll(scopeLines, ReadScope) == Some(u.scopes) by { ScopeLinesRead(net); }
    assert MapAll(sizeLines, Atoi) == Some(u.sizes) by { SizeLinesRead(net); }
    assert forall i :: 0 <= i < n ==> Fields(tableLines[i]) == u.tables[i] by { TableLinesRead(tables); }
    ReadLayout(cardsLine, scopeLines, sizeLines, tableLines, u);
  }
}
