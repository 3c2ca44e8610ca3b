/** The parameter-learning command: a parent list file read into a map from
    child id to parent ids, the network structure built from it over the
    dataset's variables, and the (empty) learning step. The dataset reader
    and the network writer are not part of this model: the variables are
    an input and the structure is the output. */
module PmLearn {
  import opened Results
  import opened Text
  import opened Registry
  import opened Headers
  import opened MixedRadix

  // parseParentMat

  /** What one line of a parent list says: nothing more (no `<-` in it),
      or a child and its parents. */
  datatype ParentLine = Stop | Entry(child: int, parents: seq<int>)

  /** A line `c<-p1,p2,...,`: split at the first `<-`; the child is the
      number before it; the parents are the comma fields after it with the
      last field dropped. A number that does not read stops the program:
      `None`. */
  function ReadParentLine(line: string): (r: Option<ParentLine>)
    ensures !Contains(line, "<-") ==> r == Some(Stop)
  {
    match SplitOnce(line, "<-")
    case None => Some(Stop)
    case Some((left, right)) =>
      var child :- Atoi(left);
      var fields := Split(right, ',');
      var parents :- MapAll(fields[..|fields| - 1], Atoi);
      Some(Entry(child, parents))
  }

  /** The entries of the lines before the first one without `<-`. */
  function ParentEntries(lines: seq<string>): (r: Option<seq<(int, seq<int>)>>)
    ensures r.Some? ==> |r.value| <= |lines|
    ensures r.Some? ==> forall i :: 0 <= i < |r.value| ==> ReadParentLine(lines[i]) == Some(Entry(r.value[i].0, r.value[i].1))
    decreases |lines|
  {
    if |lines| == 0 then Some([])
    else
      var first :- ReadParentLine(lines[0]);
      match first
      case Stop => Some([])
      case Entry(c, ps) =>
        var rest :- ParentEntries(lines[1..]);
        Some([(c, ps)] + rest)
  }

  /** The map the entries are stored into one by one. */
  function ToMap(es: seq<(int, seq<int>)>): map<int, seq<int>>
    decreases |es|
  {
    if |es| == 0 then map[]
    else ToMap(es[..|es| - 1])[es[|es| - 1].0 := es[|es| - 1].1]
  }

  /** `parseParentMat`: every child in the map has, as its parents, what
      some line of the file says about it. */
  function ParseParentMat(lines: seq<string>): (r: Option<map<int, seq<int>>>)
    ensures r.Some? <==> ParentEntries(lines).Some?
    ensures r.Some? ==> forall c :: c in r.value ==>
      exists i :: 0 <= i < |lines| && ReadParentLine(lines[i]) == Some(Entry(c, r.value[c]))
  {
    var es :- ParentEntries(lines);
    MapValues(es);
    Some(ToMap(es))
  }

  /** Every key of the map is stored with the parents of some entry. */
  lemma {:induction false} MapValues(es: seq<(int, seq<int>)>)
    ensures forall c :: c in ToMap(es) ==> exists i :: 0 <= i < |es| && es[i] == (c, ToMap(es)[c])
    decreases |es|
  {
    if |es| > 0 {
      var init, last := es[..|es| - 1], es[|es| - 1];
      MapValues(init);
      assert forall i :: 0 <= i < |init| ==> init[i] == es[i];
      forall c | c in ToMap(es) ensures exists i :: 0 <= i < |es| && es[i] == (c, ToMap(es)[c]) {
        if c == last.0 {
          assert es[|es| - 1] == (c, ToMap(es)[c]);
        } else {
          var i :| 0 <= i < |init| && init[i] == (c, ToMap(init)[c]);
          assert es[i] == (c, ToMap(es)[c]);
        }
      }
    }
  }

  /** Reading stops at the first line without `<-`: nothing after it is
      looked at, not even a line that would not read. */
  lemma {:induction false} StopsAtLineWithoutArrow(pre: seq<string>, line: string, post: seq<string>)
    requires !Contains(line, "<-")
    ensures ParseParentMat(pre + [line] + post) == ParseParentMat(pre)
    decreases |pre|
  {
    EntriesStop(pre, line, post);
  }

  lemma {:induction false} EntriesStop(pre: seq<string>, line: string, post: seq<string>)
    requires !Contains(line, "<-")
    ensures ParentEntries(pre + [line] + post) == ParentEntries(pre)
    decreases |pre|
  {
    var lines := pre + [line] + post;
    if |pre| == 0 {
      assert lines[0] == line;
    } else {
      assert lines[0] == pre[0];
      assert lines[1..] == pre[1..] + [line] + post;
      EntriesStop(pre[1..], line, post);
    }
  }

  /** The map holds a child exactly when some entry names it. */
  lemma {:induction false} MapKeys(es: seq<(int, seq<int>)>)
    ensures forall c :: c in ToMap(es) <==> exists i :: 0 <= i < |es| && es[i].0 == c
    decreases |es|
  {
    if |es| > 0 {
      var init, last := es[..|es| - 1], es[|es| - 1];
      MapKeys(init);
      assert ToMap(es) == ToMap(init)[last.0 := last.1];
      assert forall i :: 0 <= i < |init| ==> init[i] == es[i];
      forall c | c in ToMap(es) ensures exists i :: 0 <= i < |es| && es[i].0 == c {
        if c != last.0 {
          var i :| 0 <= i < |init| && init[i].0 == c;
          assert es[i].0 == c;
        }
      }
    }
  }

  /** An entry no later entry overrides is what the map holds for its
      child: a later line for the same child replaces an earlier one. */
  lemma {:induction false} LastEntryWins(es: seq<(int, seq<int>)>, i: nat)
    requires i < |es|
    requires forall j :: i < j < |es| ==> es[j].0 != es[i].0
    ensures es[i].0 in ToMap(es) && ToMap(es)[es[i].0] == es[i].1
    decreases |es|
  {
    var init, last := es[..|es| - 1], es[|es| - 1];
    assert ToMap(es) == ToMap(init)[last.0 := last.1];
    if i < |es| - 1 {
      assert init[i] == es[i];
      assert forall j :: i < j < |init| ==> init[j] == es[j];
      LastEntryWins(init, i);
    }
  }

  /** The line a parent list writes for a child: the child, `<-`, then
      every parent followed by a comma. */
  function ParentText(child: int, parents: seq<int>): string {
    Itoa(child) + "<-" + Join(seq(|parents|, i requires 0 <= i < |parents| => Itoa(parents[i])) + [""], [','])
  }

  /** Such a line reads back as its child and parents, the empty list
      included (`4<-`). */
  lemma ParentTextRead(child: int, parents: seq<int>)
    ensures ReadParentLine(ParentText(child, parents)) == Some(Entry(child, parents))
  {
    var texts := seq(|parents|, i requires 0 <= i < |parents| => Itoa(parents[i]));
    var right := Join(texts + [""], [',']);
    ItoaChars(child);
    SplitOnceFirst(Itoa(child), "<-", right);
    AtoiItoa(child);
    forall i | 0 <= i < |texts + [""]| ensures ',' !in (texts + [""])[i] {
      if i < |texts| { ItoaIsToken(parents[i]); }
    }
    SplitJoin(texts + [""], ',');
    assert (texts + [""])[..|texts|] == texts;
    forall i | 0 <= i < |texts| ensures Atoi(texts[i]) == Some(parents[i]) {
      AtoiItoa(parents[i]);
    }
    MapAllOf(texts, Atoi, parents);
  }

  // buildStruct

  datatype PmError = UnknownParent(id: int)

  /** A node of the network: its variable and its potential. */
  datatype Node = Node(v: Var, potential: Factor<real>)

  /** The parents listed for a variable; a child the map does not hold has
      none. */
  function ParentsOf(paMap: map<int, seq<int>>, v: Var): seq<int> {
    if v.id in paMap then paMap[v.id] else []
  }

  /** Each parent id resolved among the variables. An id no variable
      carries gives no variable, which the family cannot take: a failure. */
  function Resolve(vs: seq<Var>, ids: seq<int>): (r: Result<seq<Var>, PmError>)
    ensures r.Success? <==> forall k :: 0 <= k < |ids| ==> HasId(vs, ids[k])
    ensures r.Success? ==> (|r.value| == |ids| && forall k :: 0 <= k < |ids| ==> FindById(vs, ids[k]) == Some(r.value[k]))
  {
    MapResults(ids, (j: int) => FindById(vs, j).ToResult(UnknownParent(j)))
  }

  /** `buildStruct` for one variable: the family is the variable with each
      parent added in turn (`Add` keeps ids unique and ascending), and the
      potential is all zeros over the family. */
  function NodeOf(vs: seq<Var>, paMap: map<int, seq<int>>, v: Var): (r: Result<Node, PmError>)
    ensures r.Success? <==> forall k :: 0 <= k < |ParentsOf(paMap, v)| ==> HasId(vs, ParentsOf(paMap, v)[k])
  {
    var parents :- Resolve(vs, ParentsOf(paMap, v));
    var family := AddAll([v], parents);
    Success(Node(v, Factor(family, seq(Product(Cards(family)), _ => 0.0))))
  }

  /** `buildStruct`: one node per variable, in variable order. */
  function BuildStruct(vs: seq<Var>, paMap: map<int, seq<int>>): (r: Result<seq<Node>, PmError>)
    ensures r.Success? <==> forall i :: 0 <= i < |vs| ==> NodeOf(vs, paMap, vs[i]).Success?
    ensures r.Success? ==> (|r.value| == |vs| && forall i :: 0 <= i < |vs| ==> NodeOf(vs, paMap, vs[i]) == Success(r.value[i]))
  {
    MapResults(vs, (v: Var) => NodeOf(vs, paMap, v))
  }

  /** Adding variables one by one keeps what was there, and every added
      variable's id ends up present; nothing else comes in. */
  lemma {:induction false} AddAllContents(base: seq<Var>, news: seq<Var>)
    ensures forall u :: u in base ==> u in AddAll(base, news)
    ensures forall u :: u in news ==> HasId(AddAll(base, news), u.id)
    ensures forall u :: u in AddAll(base, news) ==> u in base || u in news
    ensures Ascending(base) ==> Ascending(AddAll(base, news))
    decreases |news|
  {
    if |news| > 0 {
      var init, last := news[..|news| - 1], news[|news| - 1];
      AddAllContents(base, init);
      var prev := AddAll(base, init);
      AddVarContents(prev, last);
      forall u | u in news ensures HasId(AddAll(base, news), u.id) {
        if u != last {
          assert u in init;
          HasIdIffMember(prev, u.id);
          HasIdIffMember(AddAll(base, news), u.id);
        }
      }
    }
  }

  /** A variable's family holds the variable and every resolved parent (by
      id), nothing else, and comes out in ascending id order. */
  lemma FamilyOf(vs: seq<Var>, ps: seq<int>, parents: seq<Var>, v: Var)
    requires Resolve(vs, ps) == Success(parents)
    ensures var family := AddAll([v], parents);
      && HasId(family, v.id)
      && (forall k :: 0 <= k < |ps| ==> HasId(family, ps[k]))
      && (forall u :: u in family ==> u == v || exists k :: 0 <= k < |ps| && FindById(vs, ps[k]) == Some(u))
      && Ascending(family)
  {
    AddAllContents([v], parents);
    var family := AddAll([v], parents);
    HasIdIffMember(family, v.id);
    forall k | 0 <= k < |ps| ensures HasId(family, ps[k]) {
      assert parents[k] in parents;
    }
    forall u | u in family ensures u == v || exists k :: 0 <= k < |ps| && FindById(vs, ps[k]) == Some(u) {
      if u != v {
        var k :| 0 <= k < |parents| && parents[k] == u;
        assert FindById(vs, ps[k]) == Some(u);
      }
    }
  }

  /** Each node is its variable's: the potential's scope holds the
      variable and every listed parent (by id), nothing else, in ascending
      id order, and its values are as many zeros as the scope has joint
      states. */
  lemma NodeFamily(vs: seq<Var>, paMap: map<int, seq<int>>, v: Var)
    requires NodeOf(vs, paMap, v).Success?
    ensures var nd, ps := NodeOf(vs, paMap, v).value, ParentsOf(paMap, v);
      && nd.v == v
      && HasId(nd.potential.scope, v.id)
      && (forall k :: 0 <= k < |ps| ==> HasId(nd.potential.scope, ps[k]))
      && (forall u :: u in nd.potential.scope ==> u == v || exists k :: 0 <= k < |ps| && FindById(vs, ps[k]) == Some(u))
      && Ascending(nd.potential.scope)
      && |nd.potential.values| == Product(Cards(nd.potential.scope))
      && forall j :: 0 <= j < |nd.potential.values| ==> nd.potential.values[j] == 0.0
  {
    var ps := ParentsOf(paMap, v);
    var parents := Resolve(vs, ps).value;
    var nd := NodeOf(vs, paMap, v).value;
    assert nd.potential.scope == AddAll([v], parents);
    FamilyOf(vs, ps, parents, v);
  }

  /** `learnParms` does nothing. */
  function LearnParms(bn: seq<Node>): (r: seq<Node>)
  {
    bn
  }

  /** `ParmLearn`: the parent list read, the structure built over the
      dataset's variables, the learning step applied. */
  function ParmLearn(lines: seq<string>, vs: seq<Var>): (r: Option<Result<seq<Node>, PmError>>)
    ensures r.Some? <==> ParseParentMat(lines).Some?
    ensures r.Some? ==> r.value == BuildStruct(vs, ParseParentMat(lines).value)
  {
    var paMap :- ParseParentMat(lines);
    Some(match BuildStruct(vs, paMap) { case Success(bn) => Success(LearnParms(bn)) case Failure(e) => Failure(e) })
  }

  /** Since learning does nothing, the network written has one node per
      variable, in order, and every potential is all zeros. */
  lemma LearnedIsZero(lines: seq<string>, vs: seq<Var>)
    requires ParmLearn(lines, vs).Some? && ParmLearn(lines, vs).value.Success?
    ensures var bn := ParmLearn(lines, vs).value.value;
      && |bn| == |vs|
      && forall i :: 0 <= i < |bn| ==>
           bn[i].v == vs[i] && forall j :: 0 <= j < |bn[i].potential.values| ==> bn[i].potential.values[j] == 0.0
  {
    var paMap := ParseParentMat(lines).value;
    var bn := ParmLearn(lines, vs).value.value;
    assert BuildStruct(vs, paMap) == Success(bn);
    forall i | 0 <= i < |bn|
      ensures bn[i].v == vs[i] && forall j :: 0 <= j < |bn[i].potential.values| ==> bn[i].potential.values[j] == 0.0
    {
      NodeFamily(vs, paMap, vs[i]);
    }
  }
}
