/** The query/evidence generator (`qevgen`): for each line it picks a root
    variable as the query and a set of leaves as evidence, and writes one
    query line and one evidence line in the `*`-masked convention. The
    random choices (which root, the shuffle of the leaves, the drawn states)
    are inputs here. */
module QueryGen {
  import opened Results
  import opened Text
  import opened Registry
  import opened Evidence

  /** The field `writeLine` writes for a field: empty becomes `*`. */
  function Mark(f: string): string {
    if f == "" then Unset else f
  }

  /** `writeLine`: replaces every empty field by `*` in the slice itself,
      then writes the fields joined by commas. Returns the changed fields,
      which the caller keeps using, and the line written. */
  function WriteLine(line: seq<string>): (r: (seq<string>, string))
    ensures |r.0| == |line|
    ensures forall i :: 0 <= i < |line| ==> r.0[i] != "" && (line[i] != "" ==> r.0[i] == line[i])
    ensures forall i :: 0 <= i < |line| ==> (r.0[i] == Unset <==> line[i] == "" || line[i] == Unset)
    ensures |line| >= 1 && (forall i :: 0 <= i < |line| ==> ',' !in line[i]) ==> Split(r.1, ',') == r.0
  {
    var marked := seq(|line|, i requires 0 <= i < |line| => Mark(line[i]));
    assert (forall i :: 0 <= i < |line| ==> ',' !in line[i]) ==> forall i :: 0 <= i < |marked| ==> ',' !in marked[i];
    assert |line| >= 1 && (forall i :: 0 <= i < |line| ==> ',' !in line[i]) ==> Split(Join(marked, [',']), ',') == marked by {
      if |line| >= 1 && (forall i :: 0 <= i < |line| ==> ',' !in line[i]) {
        SplitJoin(marked, ',');
      }
    }
    (marked, Join(marked, [',']))
  }

  /** A line `writeLine` produced and `writeEvToEvid` encodes reads back as
      exactly its set fields, when no field holds a comma or white space:
      `writeLine` leaves no empty field behind. */
  lemma WrittenLineRoundTrip(line: seq<string>)
    requires |line| >= 1
    requires forall i :: 0 <= i < |line| ==> ',' !in line[i] && forall k :: 0 <= k < |line[i]| ==> !IsSpace(line[i][k])
    ensures ReadEvid(EvidLine(WriteLine(line).1)) == Some(Observed(WriteLine(line).0))
  {
    var w := WriteLine(line);
    var obs := Observed(w.0);
    forall k | 0 <= k < |obs| ensures IsWord(obs[k].1) {
      var c := obs[k].0;
      assert w.0[c] == Mark(line[c]);
    }
    EvidLineRoundTrip(w.1);
  }

  /** `sampleState`: with a sample line, the field of the variable's id
      (out of range panics: `None`); without one, the decimal of a random
      state. `draw` is the random source's number, taken modulo the number
      of states; a variable without states makes the source panic. */
  function SampleState(v: Var, read: seq<string>, draw: nat): (r: Option<string>)
    ensures |read| > 0 ==> (r.Some? <==> 0 <= v.id < |read|)
    ensures |read| > 0 && r.Some? ==> r.value == read[v.id]
    ensures |read| == 0 ==> (r.Some? <==> v.card > 0)
    ensures |read| == 0 && r.Some? ==> exists s :: 0 <= s < v.card && Atoi(r.value) == Some(s)
  {
    if |read| > 0 then
      if 0 <= v.id < |read| then Some(read[v.id]) else None
    else if v.card == 0 then None
    else
      AtoiItoa(draw % v.card);
      Some(Itoa(draw % v.card))
  }

  /** The leaves written as evidence: all of them, in their own order, when
      `maxLfs` is negative or too large; otherwise the first `maxLfs` of
      the shuffled list. */
  function Chosen(leaves: seq<Var>, shuffled: seq<Var>, maxLfs: int): (r: seq<Var>)
    requires multiset(shuffled) == multiset(leaves)
    ensures maxLfs < 0 || maxLfs > |leaves| ==> r == leaves
    ensures 0 <= maxLfs <= |leaves| ==> |r| == maxLfs
    ensures forall j :: 0 <= j < |r| ==> r[j] in leaves
  {
    if maxLfs < 0 || maxLfs > |leaves| then leaves
    else
      assert |shuffled| == |leaves| by {
        assert |multiset(shuffled)| == |multiset(leaves)|;
      }
      assert forall j :: 0 <= j < maxLfs ==> shuffled[j] in multiset(leaves);
      shuffled[..maxLfs]
  }

  /** The evidence loop of `sampleLine`: each chosen leaf's field is set to
      its sampled state, in order; `draws[j]` is the random number for the
      j-th leaf. */
  function SetLeaves(write: seq<string>, ls: seq<Var>, read: seq<string>, draws: seq<nat>): (r: Option<seq<string>>)
    requires |draws| == |ls|
    ensures r.Some? ==> |r.value| == |write|
    decreases |ls|
  {
    if |ls| == 0 then Some(write)
    else if !(0 <= ls[0].id < |write|) then None
    else
      var st :- SampleState(ls[0], read, draws[0]);
      SetLeaves(write[ls[0].id := st], ls[1..], read, draws[1..])
  }

  /** No two listed variables share an id. */
  predicate DistinctIds(ls: seq<Var>) {
    forall j, l :: 0 <= j < l < |ls| ==> ls[j].id != ls[l].id
  }

  /** A column no chosen leaf has keeps its field. */
  lemma {:induction false} SetLeavesKeeps(write: seq<string>, ls: seq<Var>, read: seq<string>, draws: seq<nat>, i: nat)
    requires |draws| == |ls|
    requires SetLeaves(write, ls, read, draws).Some?
    requires i < |write|
    requires forall j :: 0 <= j < |ls| ==> ls[j].id != i
    ensures SetLeaves(write, ls, read, draws).value[i] == write[i]
    decreases |ls|
  {
    if |ls| > 0 {
      var st := SampleState(ls[0], read, draws[0]).value;
      assert forall j :: 0 <= j < |ls[1..]| ==> ls[1..][j] == ls[j + 1];
      SetLeavesKeeps(write[ls[0].id := st], ls[1..], read, draws[1..], i);
    }
  }

  /** A chosen leaf's column holds that leaf's sampled state. */
  lemma {:induction false} SetLeavesSets(write: seq<string>, ls: seq<Var>, read: seq<string>, draws: seq<nat>, j: nat)
    requires |draws| == |ls|
    requires SetLeaves(write, ls, read, draws).Some?
    requires DistinctIds(ls)
    requires j < |ls|
    ensures 0 <= ls[j].id < |write| && SampleState(ls[j], read, draws[j]).Some?
    ensures SetLeaves(write, ls, read, draws).value[ls[j].id] == SampleState(ls[j], read, draws[j]).value
    decreases |ls|
  {
    var st := SampleState(ls[0], read, draws[0]).value;
    var w' := write[ls[0].id := st];
    assert forall l :: 0 <= l < |ls[1..]| ==> ls[1..][l] == ls[l + 1];
    if j == 0 {
      SetLeavesKeeps(w', ls[1..], read, draws[1..], ls[0].id);
    } else {
      assert ls[j] == ls[1..][j - 1] && draws[j] == draws[1..][j - 1];
      SetLeavesSets(w', ls[1..], read, draws[1..], j - 1);
    }
  }

  /** The fields after the query line is written: `*` everywhere except the
      root's column, which holds the (marked) root state. */
  function QueryFields(n: nat, rootId: nat, state: string): (fs: seq<string>)
    requires rootId < n
    ensures |fs| == n
  {
    seq(n, i requires 0 <= i < n => if i == rootId then Mark(state) else Unset)
  }

  /** `sampleLine`: the query line and the evidence line for a model of `n`
      variables (ids 0 .. n-1), the randomly picked root, the model's leaves
      and their random shuffle, the `maxLfs` bound, the sample line (empty
      when sampling states at random) and the random numbers for the root
      and for each evidence leaf. A variable id outside the line or a
      failed state draw makes the source panic: `None`. */
  function SampleLine(n: nat, root: Var, leaves: seq<Var>, shuffled: seq<Var>, maxLfs: int,
                      read: seq<string>, rootDraw: nat, leafDraws: seq<nat>): (r: Option<(string, string)>)
    requires multiset(shuffled) == multiset(leaves)
    requires |leafDraws| == |Chosen(leaves, shuffled, maxLfs)|
    ensures !(0 <= root.id < n) ==> r.None?
    ensures r.Some? ==> SampleState(root, read, rootDraw).Some?
  {
    if !(0 <= root.id < n) then None
    else
      var rs :- SampleState(root, read, rootDraw);
      var query := WriteLine(seq(n, _ => "")[root.id := rs]);
      var ev :- SetLeaves(query.0[root.id := ""], Chosen(leaves, shuffled, maxLfs), read, leafDraws);
      Some((query.1, WriteLine(ev).1))
  }

  /** No field of a split line, or of a drawn state, holds a comma. */
  ghost predicate CommaFree(read: seq<string>) {
    forall i :: 0 <= i < |read| ==> ',' !in read[i]
  }

  lemma ItoaCommaFree(n: int)
    ensures ',' !in Itoa(n)
  {
    ItoaIsToken(n);
  }

  lemma StateCommaFree(v: Var, read: seq<string>, draw: nat)
    requires CommaFree(read)
    requires SampleState(v, read, draw).Some?
    ensures ',' !in SampleState(v, read, draw).value
  {
    if |read| == 0 {
      ItoaCommaFree(draw % v.card);
    }
  }

  /** The fields and the line `writeLine` makes of a fresh line with only
      the root's state in it. */
  lemma QueryWritten(n: nat, rootId: nat, rs: string)
    requires rootId < n && ',' !in rs
    ensures WriteLine(seq(n, _ => "")[rootId := rs]).0 == QueryFields(n, rootId, rs)
    ensures Split(WriteLine(seq(n, _ => "")[rootId := rs]).1, ',') == QueryFields(n, rootId, rs)
  {
    var line := seq(n, _ => "")[rootId := rs];
    assert forall i :: 0 <= i < |line| ==> ',' !in line[i];
    assert WriteLine(line).0 == QueryFields(n, rootId, rs);
  }

  /** The query line sets exactly the root's column, to the root's state
      (an empty state is written as `*`). */
  lemma QueryLineSetsRoot(n: nat, root: Var, leaves: seq<Var>, shuffled: seq<Var>, maxLfs: int,
                          read: seq<string>, rootDraw: nat, leafDraws: seq<nat>)
    requires multiset(shuffled) == multiset(leaves)
    requires |leafDraws| == |Chosen(leaves, shuffled, maxLfs)|
    requires CommaFree(read)
    requires SampleLine(n, root, leaves, shuffled, maxLfs, read, rootDraw, leafDraws).Some?
    ensures 0 <= root.id < n && SampleState(root, read, rootDraw).Some?
    ensures Split(SampleLine(n, root, leaves, shuffled, maxLfs, read, rootDraw, leafDraws).value.0, ',')
              == QueryFields(n, root.id, SampleState(root, read, rootDraw).value)
  {
    StateCommaFree(root, read, rootDraw);
    QueryWritten(n, root.id, SampleState(root, read, rootDraw).value);
  }

  /** A prefix of a list of distinct variables, or the list itself, has
      distinct ids. */
  lemma ChosenDistinct(leaves: seq<Var>, shuffled: seq<Var>, maxLfs: int)
    requires multiset(shuffled) == multiset(leaves)
    requires DistinctIds(leaves) && DistinctIds(shuffled)
    ensures DistinctIds(Chosen(leaves, shuffled, maxLfs))
  {
    if !(maxLfs < 0 || maxLfs > |leaves|) {
      assert |shuffled| == |leaves| by {
        assert |multiset(shuffled)| == |multiset(leaves)|;
      }
      var ls := Chosen(leaves, shuffled, maxLfs);
      assert forall j :: 0 <= j < |ls| ==> ls[j] == shuffled[j];
    }
  }

  /** The evidence fields before they are written: the root's column is
      cleared, every other column not set by a leaf is `*`, and each leaf's
      column holds its state. */
  lemma EvidenceFieldsSet(base: seq<string>, rootId: nat, ls: seq<Var>, read: seq<string>, draws: seq<nat>)
    requires rootId < |base| && base[rootId] == ""
    requires forall i :: 0 <= i < |base| && i != rootId ==> base[i] == Unset
    requires DistinctIds(ls) && |draws| == |ls|
    requires CommaFree(read)
    requires SetLeaves(base, ls, read, draws).Some?
    ensures var ev := SetLeaves(base, ls, read, draws).value;
            && (forall i :: 0 <= i < |ev| && (forall j :: 0 <= j < |ls| ==> ls[j].id != i) ==> Mark(ev[i]) == Unset)
            && (forall j :: 0 <= j < |ls| ==>
                  0 <= ls[j].id < |ev| && SampleState(ls[j], read, draws[j]).Some? &&
                  ev[ls[j].id] == SampleState(ls[j], read, draws[j]).value)
            && (forall i :: 0 <= i < |ev| ==> ',' !in ev[i])
  {
    var ev := SetLeaves(base, ls, read, draws).value;
    forall i | 0 <= i < |ev| && (forall j :: 0 <= j < |ls| ==> ls[j].id != i)
      ensures ev[i] == base[i]
    {
      SetLeavesKeeps(base, ls, read, draws, i);
    }
    forall j | 0 <= j < |ls|
      ensures 0 <= ls[j].id < |ev| && SampleState(ls[j], read, draws[j]).Some?
      ensures ev[ls[j].id] == SampleState(ls[j], read, draws[j]).value
      ensures ',' !in ev[ls[j].id]
    {
      SetLeavesSets(base, ls, read, draws, j);
      StateCommaFree(ls[j], read, draws[j]);
    }
    forall i | 0 <= i < |ev| ensures ',' !in ev[i] {
      if exists j :: 0 <= j < |ls| && ls[j].id == i {
        var j :| 0 <= j < |ls| && ls[j].id == i;
      }
    }
  }

  /** In the evidence line a column is set only if some chosen leaf has that
      id, so the root's column is `*` unless the root is itself a chosen
      leaf; each chosen leaf's column holds its (marked) state. The leaves,
      and their shuffle, are distinct variables. */
  lemma EvidenceLineSetsLeaves(n: nat, root: Var, leaves: seq<Var>, shuffled: seq<Var>, maxLfs: int,
                               read: seq<string>, rootDraw: nat, leafDraws: seq<nat>)
    requires multiset(shuffled) == multiset(leaves)
    requires DistinctIds(leaves) && DistinctIds(shuffled)
    requires |leafDraws| == |Chosen(leaves, shuffled, maxLfs)|
    requires CommaFree(read)
    requires SampleLine(n, root, leaves, shuffled, maxLfs, read, rootDraw, leafDraws).Some?
    ensures var ev := Split(SampleLine(n, root, leaves, shuffled, maxLfs, read, rootDraw, leafDraws).value.1, ',');
            var ls := Chosen(leaves, shuffled, maxLfs);
            && |ev| == n
            && (forall i :: 0 <= i < n && (forall j :: 0 <= j < |ls| ==> ls[j].id != i) ==> ev[i] == Unset)
            && (forall j :: 0 <= j < |ls| ==>
                  0 <= ls[j].id < n && SampleState(ls[j], read, leafDraws[j]).Some? &&
                  ev[ls[j].id] == Mark(SampleState(ls[j], read, leafDraws[j]).value))
  {
    var rs := SampleState(root, read, rootDraw).value;
    StateCommaFree(root, read, rootDraw);
    QueryWritten(n, root.id, rs);
    var base := QueryFields(n, root.id, rs)[root.id := ""];
    var ls := Chosen(leaves, shuffled, maxLfs);
    ChosenDistinct(leaves, shuffled, maxLfs);
    EvidenceFieldsSet(base, root.id, ls, read, leafDraws);
    var ev := SetLeaves(base, ls, read, leafDraws).value;
    assert SampleLine(n, root, leaves, shuffled, maxLfs, read, rootDraw, leafDraws).value.1 == WriteLine(ev).1;
  }
}
