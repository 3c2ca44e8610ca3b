/** The query/evidence line convention the commands share: a line holds one
    comma-separated field per variable, in id order, and the field `*` means
    the variable is unset. The `ev2evid` conversion (`writeEvToEvid`) turns
    such lines into the solver's evidence format, and the inference command
    (`mergeQev`) overlays a query line on an evidence line. */
module Evidence {
  import opened Results
  import opened Text

  /** The marker of an unset field. */
  const Unset := "*"

  /** A set field: its 0-based column and its text. */
  type Entry = (nat, string)

  // writeEvToEvid

  /** The set fields of `fields` from column `i` on, in ascending column
      order: the columns `writeEvToEvid` collects in `psID`, with their
      values in `psVL`. */
  function ObservedFrom(fields: seq<string>, i: nat): (obs: seq<Entry>)
    requires i <= |fields|
    ensures forall k :: 0 <= k < |obs| ==>
              i <= obs[k].0 < |fields| && fields[obs[k].0] == obs[k].1 && obs[k].1 != Unset
    ensures forall k :: 0 <= k < |obs| - 1 ==> obs[k].0 < obs[k + 1].0
    decreases |fields| - i
  {
    if i == |fields| then []
    else if fields[i] == Unset then ObservedFrom(fields, i + 1)
    else [(i, fields[i])] + ObservedFrom(fields, i + 1)
  }

  function Observed(fields: seq<string>): (obs: seq<Entry>)
    ensures forall k :: 0 <= k < |obs| ==> obs[k].0 < |fields| && fields[obs[k].0] == obs[k].1 && obs[k].1 != Unset
    ensures forall k :: 0 <= k < |obs| - 1 ==> obs[k].0 < obs[k + 1].0
  {
    ObservedFrom(fields, 0)
  }

  /** Writes each entry's value into its column, in order. */
  function Fill(base: seq<string>, obs: seq<Entry>): (r: seq<string>)
    requires forall k :: 0 <= k < |obs| ==> obs[k].0 < |base|
    ensures |r| == |base|
    decreases |obs|
  {
    if |obs| == 0 then base
    else Fill(base[obs[0].0 := obs[0].1], obs[1..])
  }

  /** The line of `n` fields that a list of set fields stands for: every
      other field is `*`. */
  function Unmask(n: nat, obs: seq<Entry>): (fields: seq<string>)
    requires forall k :: 0 <= k < |obs| ==> obs[k].0 < n
    ensures |fields| == n
  {
    Fill(seq(n, _ => Unset), obs)
  }

  lemma {:induction false} FillFrom(fields: seq<string>, i: nat, base: seq<string>)
    requires i <= |fields| == |base|
    requires base[..i] == fields[..i]
    requires forall c :: i <= c < |base| ==> base[c] == Unset
    ensures Fill(base, ObservedFrom(fields, i)) == fields
    decreases |fields| - i
  {
    if i == |fields| {
      assert base == base[..i] && fields == fields[..i];
    } else if fields[i] == Unset {
      assert base[..i + 1] == base[..i] + [base[i]];
      assert fields[..i + 1] == fields[..i] + [fields[i]];
      FillFrom(fields, i + 1, base);
    } else {
      var obs := ObservedFrom(fields, i);
      assert obs[0] == (i, fields[i]) && obs[1..] == ObservedFrom(fields, i + 1);
      var base' := base[i := fields[i]];
      assert base'[..i + 1] == base[..i] + [fields[i]];
      assert fields[..i + 1] == fields[..i] + [fields[i]];
      FillFrom(fields, i + 1, base');
    }
  }

  /** Nothing is lost in dropping the unset fields: the set fields and the
      number of columns give the line back. */
  lemma UnmaskObserved(fields: seq<string>)
    ensures Unmask(|fields|, Observed(fields)) == fields
  {
    FillFrom(fields, 0, seq(|fields|, _ => Unset));
  }

  /** The tokens `id value` of each entry, in order. */
  function EntryTokens(obs: seq<Entry>): (toks: seq<string>)
    ensures |toks| == 2 * |obs|
    decreases |obs|
  {
    if |obs| == 0 then [] else [Itoa(obs[0].0), obs[0].1] + EntryTokens(obs[1..])
  }

  /** One evidence line of the solver format for one query/evidence line:
      the number of set fields, then each set column and its value, every
      token followed by a space. */
  function EvidLine(line: string): (r: string)
    ensures HasPrefix(r, Itoa(|Observed(Split(line, ','))|) + " ")
  {
    var obs := Observed(Split(line, ','));
    var toks := [Itoa(|obs|)] + EntryTokens(obs);
    assert Spaced(toks) == toks[0] + " " + Spaced(toks[1..]);
    Spaced(toks)
  }

  /** The encoded lines of the non-empty input lines, in order. */
  function EvidLines(lines: seq<string>): (out: seq<string>)
    ensures |out| <= |lines|
    decreases |lines|
  {
    if |lines| == 0 then []
    else if lines[0] == "" then EvidLines(lines[1..])
    else [EvidLine(lines[0])] + EvidLines(lines[1..])
  }

  /** `writeEvToEvid`: the output lines, the first of which counts the
      encoded lines that follow. */
  function EvToEvid(lines: seq<string>): (out: seq<string>)
    ensures |out| >= 1 && Atoi(out[0]) == Some(|out| - 1)
  {
    var parsed := EvidLines(lines);
    AtoiItoa(|parsed|);
    [Itoa(|parsed|)] + parsed
  }

  // Reading the evidence format back

  /** Reads `count` entries from a token list, which must hold exactly
      that many `id value` pairs. */
  function ReadEntries(toks: seq<string>, count: nat): (r: Option<seq<Entry>>)
    ensures r.Some? ==> |r.value| == count
    decreases count
  {
    if count == 0 then
      if |toks| == 0 then Some([]) else None
    else if |toks| < 2 then None
    else
      var c := Atoi(toks[0]);
      if c.None? || c.value < 0 then None
      else
        var rest :- ReadEntries(toks[2..], count - 1);
        Some([(c.value as nat, toks[1])] + rest)
  }

  /** Reads one evidence line: a count, then that many `id value` pairs. */
  function ReadEvid(line: string): (r: Option<seq<Entry>>)
    ensures r.Some? ==> |Fields(line)| == 1 + 2 * |r.value|
  {
    var toks := Fields(line);
    if |toks| == 0 then None
    else
      var count := Atoi(toks[0]);
      if count.None? || count.value < 0 then None
      else
        var r := ReadEntries(toks[1..], count.value as nat);
        assert r.Some? ==> |toks[1..]| == 2 * |r.value| by {
          if r.Some? { ReadEntriesLength(toks[1..], count.value as nat); }
        }
        r
  }

  lemma {:induction false} ReadEntriesLength(toks: seq<string>, count: nat)
    requires ReadEntries(toks, count).Some?
    ensures |toks| == 2 * count
    decreases count
  {
    if count > 0 {
      ReadEntriesLength(toks[2..], count - 1);
    }
  }

  /** Every value is a word, so each token of the encoding is a word. */
  ghost predicate WordValues(obs: seq<Entry>) {
    forall k :: 0 <= k < |obs| ==> IsWord(obs[k].1)
  }

  lemma {:induction false} EntryTokensRead(obs: seq<Entry>)
    requires WordValues(obs)
    ensures forall i :: 0 <= i < |EntryTokens(obs)| ==> IsWord(EntryTokens(obs)[i])
    ensures ReadEntries(EntryTokens(obs), |obs|) == Some(obs)
    decreases |obs|
  {
    if |obs| > 0 {
      var toks := EntryTokens(obs);
      EntryTokensRead(obs[1..]);
      ItoaIsToken(obs[0].0);
      AtoiItoa(obs[0].0);
      assert toks[2..] == EntryTokens(obs[1..]);
      assert forall i :: 2 <= i < |toks| ==> toks[i] == EntryTokens(obs[1..])[i - 2];
      assert [obs[0]] + obs[1..] == obs;
    }
  }

  /** Reading an encoded line gives back its set fields, provided every set
      field is a word (non-empty, no white space). */
  lemma EvidLineRoundTrip(line: string)
    requires WordValues(Observed(Split(line, ',')))
    ensures ReadEvid(EvidLine(line)) == Some(Observed(Split(line, ',')))
  {
    var obs := Observed(Split(line, ','));
    var toks := [Itoa(|obs|)] + EntryTokens(obs);
    EntryTokensRead(obs);
    ItoaIsToken(|obs|);
    AtoiItoa(|obs|);
    assert forall i :: 1 <= i < |toks| ==> toks[i] == EntryTokens(obs)[i - 1];
    FieldsOfSpaced(toks);
    assert toks[1..] == EntryTokens(obs);
  }

  /** The set fields of each non-empty line, in order. */
  function ObservedLines(lines: seq<string>): seq<seq<Entry>>
    decreases |lines|
  {
    if |lines| == 0 then []
    else if lines[0] == "" then ObservedLines(lines[1..])
    else [Observed(Split(lines[0], ','))] + ObservedLines(lines[1..])
  }

  /** Reads an evidence file: the count line, then one evidence line for
      each line counted. */
  function ReadEvidFile(out: seq<string>): Option<seq<seq<Entry>>> {
    if |out| == 0 then None
    else
      var count := Atoi(out[0]);
      if count != Some(|out| - 1) then None
      else ReadEvidLines(out[1..])
  }

  function ReadEvidLines(lines: seq<string>): (r: Option<seq<seq<Entry>>>)
    ensures r.Some? ==> |r.value| == |lines|
    decreases |lines|
  {
    if |lines| == 0 then Some([])
    else
      var first :- ReadEvid(lines[0]);
      var rest :- ReadEvidLines(lines[1..]);
      Some([first] + rest)
  }

  /** Every set field of every line is a word. */
  ghost predicate WordFields(lines: seq<string>) {
    forall i :: 0 <= i < |lines| ==> WordValues(Observed(Split(lines[i], ',')))
  }

  lemma {:induction false} EvidLinesRead(lines: seq<string>)
    requires WordFields(lines)
    ensures ReadEvidLines(EvidLines(lines)) == Some(ObservedLines(lines))
    decreases |lines|
  {
    if |lines| > 0 {
      assert WordFields(lines[1..]) by {
        assert forall i :: 1 <= i < |lines| ==> lines[1..][i - 1] == lines[i];
      }
      EvidLinesRead(lines[1..]);
      if lines[0] != "" {
        EvidLineRoundTrip(lines[0]);
        var out := EvidLines(lines);
        assert out[0] == EvidLine(lines[0]) && out[1..] == EvidLines(lines[1..]);
      }
    }
  }

  /** The `ev2evid` file reads back as the set fields of each non-empty
      input line, in order, when every set field is a word. */
  lemma EvToEvidRoundTrip(lines: seq<string>)
    requires WordFields(lines)
    ensures ReadEvidFile(EvToEvid(lines)) == Some(ObservedLines(lines))
  {
    EvidLinesRead(lines);
    assert EvToEvid(lines)[1..] == EvidLines(lines);
  }

  // mergeQev

  /** The evidence line paired with the i-th query line. Once the evidence
      file is exhausted its scanner yields the empty text. */
  function EvidenceAt(evs: seq<string>, i: nat): string {
    if i < |evs| then evs[i] else ""
  }

  /** A query field that is set but lies past the last evidence field: the
      source writes it past the end of the field slice, which panics. */
  predicate Overflows(qf: seq<string>, ef: seq<string>) {
    exists i :: |ef| <= i < |qf| && qf[i] != Unset
  }

  /** One step of `mergeQev`: the evidence fields, overwritten by every
      query field that is not `*`. Only a set query field past the end of
      the evidence fields makes the source panic: that is `None`; query
      fields that are `*` are never written, wherever they stand. */
  function MergeLine(q: string, e: string): (r: Option<string>)
    ensures r.None? <==> Overflows(Split(q, ','), Split(e, ','))
    ensures r.Some? ==> |Split(r.value, ',')| == |Split(e, ',')|
    ensures r.Some? ==> forall i :: 0 <= i < |Split(e, ',')| ==>
              Split(r.value, ',')[i] ==
                if i < |Split(q, ',')| && Split(q, ',')[i] != Unset then Split(q, ',')[i] else Split(e, ',')[i]
  {
    var qf, ef := Split(q, ','), Split(e, ',');
    if Overflows(qf, ef) then None
    else
      var line := seq(|ef|, i requires 0 <= i < |ef| => if i < |qf| && qf[i] != Unset then qf[i] else ef[i]);
      assert forall i :: 0 <= i < |line| ==> ',' !in line[i];
      SplitJoin(line, ',');
      Some(Join(line, [',']))
  }

  /** `mergeQev`: one merged line per query line, each query line paired
      with the evidence line of the same position. It fails (the source
      panics) exactly when some query line sets a field past the end of its
      evidence line. */
  function MergeQev(qs: seq<string>, evs: seq<string>): (r: Option<seq<string>>)
    ensures r.Some? ==> |r.value| == |qs|
    ensures r.Some? ==> forall k :: 0 <= k < |qs| ==> Some(r.value[k]) == MergeLine(qs[k], EvidenceAt(evs, k))
    ensures r.None? <==> exists k :: 0 <= k < |qs| && Overflows(Split(qs[k], ','), Split(EvidenceAt(evs, k), ','))
  {
    AllSome(seq(|qs|, k requires 0 <= k < |qs| => MergeLine(qs[k], EvidenceAt(evs, k))))
  }

  /** Trailing `*` fields of a query line never reach the evidence: a query
      line longer than its evidence line merges whenever its extra fields
      are all `*`. */
  lemma TrailingUnsetMerges(q: string, e: string)
    requires forall i :: |Split(e, ',')| <= i < |Split(q, ',')| ==> Split(q, ',')[i] == Unset
    ensures MergeLine(q, e).Some?
  {
  }

  /** In a merged line a column is set exactly when the query or the
      evidence sets it. */
  lemma MergedObserved(q: string, e: string, i: nat)
    requires MergeLine(q, e).Some?
    requires i < |Split(e, ',')|
    ensures Split(MergeLine(q, e).value, ',')[i] != Unset <==>
              (i < |Split(q, ',')| && Split(q, ',')[i] != Unset) || Split(e, ',')[i] != Unset
  {
  }
}
