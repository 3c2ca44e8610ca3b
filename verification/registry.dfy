/** Variables, factors and variable lists as the commands use them. A list
    of variables plays two roles: the registry a conversion run extends while
    parsing, and the scope of a factor. The variable-list library is not part
    of this model; its `Add` is modelled as insertion in ascending id order
    that ignores an id already present, which is the canonical (ascending id)
    order factors are addressed in. */
module Registry {
  import opened Results

  /** A discrete variable: stable id, number of states, name, latent flag. */
  datatype Var = Var(id: int, card: nat, name: string, latent: bool)

  /** A potential: an ordered scope and its flat table of values. */
  datatype Factor<V> = Factor(scope: seq<Var>, values: seq<V>)

  /** `VarList.FindByName`: the first variable with that name, if any. */
  function FindByName(vs: seq<Var>, name: string): (r: Option<Var>)
    ensures r.Some? ==> r.value in vs && r.value.name == name
    decreases |vs|
  {
    if |vs| == 0 then None
    else if vs[0].name == name then Some(vs[0])
    else FindByName(vs[1..], name)
  }

  /** The search fails exactly when no listed variable has the name. */
  lemma {:induction false} FindByNameNone(vs: seq<Var>, name: string)
    ensures FindByName(vs, name).None? <==> forall v :: v in vs ==> v.name != name
    decreases |vs|
  {
    if |vs| > 0 {
      FindByNameNone(vs[1..], name);
      assert vs == [vs[0]] + vs[1..];
    }
  }

  /** Some listed variable carries this id. */
  predicate HasId(vs: seq<Var>, id: int)
    decreases |vs|
  {
    |vs| > 0 && (vs[0].id == id || HasId(vs[1..], id))
  }

  lemma {:induction false} HasIdIffMember(vs: seq<Var>, id: int)
    ensures HasId(vs, id) <==> exists v :: v in vs && v.id == id
    decreases |vs|
  {
    if |vs| > 0 {
      HasIdIffMember(vs[1..], id);
      assert vs == [vs[0]] + vs[1..];
    }
  }

  /** `VarList.FindByID`: the first variable with that id, if any. */
  function FindById(vs: seq<Var>, id: int): (r: Option<Var>)
    ensures r.Some? ==> r.value in vs && r.value.id == id
    ensures r.None? <==> !HasId(vs, id)
    decreases |vs|
  {
    if |vs| == 0 then None
    else if vs[0].id == id then Some(vs[0])
    else FindById(vs[1..], id)
  }

  function Cards(vs: seq<Var>): (cs: seq<nat>)
    ensures |cs| == |vs|
    ensures forall i :: 0 <= i < |vs| ==> cs[i] == vs[i].card
    decreases |vs|
  {
    if |vs| == 0 then [] else [vs[0].card] + Cards(vs[1..])
  }

  predicate Ascending(vs: seq<Var>) {
    forall i, j :: 0 <= i < j < |vs| ==> vs[i].id < vs[j].id
  }

  /** `maxID`: the id of the last registered variable, or -1. */
  function MaxId(vs: seq<Var>): int {
    if |vs| > 0 then vs[|vs| - 1].id else -1
  }

  /** In an ascending registry the last id is the largest one. */
  lemma MaxIdIsMaximum(vs: seq<Var>)
    requires Ascending(vs)
    ensures forall v :: v in vs ==> v.id <= MaxId(vs)
  {
  }

  /** Inserts a variable before the first one with a larger id. */
  function InsertById(vs: seq<Var>, v: Var): (r: seq<Var>)
    ensures |r| == |vs| + 1
    decreases |vs|
  {
    if |vs| == 0 || v.id < vs[0].id then
      [v] + vs
    else
      [vs[0]] + InsertById(vs[1..], v)
  }

  /** Insertion adds exactly the one element. */
  lemma {:induction false} InsertByIdContents(vs: seq<Var>, v: Var)
    ensures multiset(InsertById(vs, v)) == multiset(vs) + multiset{v}
    decreases |vs|
  {
    if |vs| > 0 && v.id >= vs[0].id {
      InsertByIdContents(vs[1..], v);
      assert vs == [vs[0]] + vs[1..];
    }
  }

  lemma MembersOfInsert(vs: seq<Var>, v: Var)
    ensures forall u :: u in InsertById(vs, v) <==> u in vs || u == v
  {
    InsertByIdContents(vs, v);
    forall u ensures u in InsertById(vs, v) <==> u in vs || u == v {
      assert u in InsertById(vs, v) <==> u in multiset(InsertById(vs, v));
      assert u in vs <==> u in multiset(vs);
    }
  }

  /** A variable above every listed id goes to the end. */
  lemma {:induction false} InsertAfterAll(vs: seq<Var>, v: Var)
    requires forall u :: u in vs ==> u.id < v.id
    ensures InsertById(vs, v) == vs + [v]
    decreases |vs|
  {
    if |vs| > 0 {
      assert vs[0] in vs;
      forall u | u in vs[1..] ensures u.id < v.id {
        assert u in vs;
      }
      InsertAfterAll(vs[1..], v);
      assert vs == [vs[0]] + vs[1..];
    }
  }

  lemma AscendingCons(x: Var, rest: seq<Var>)
    requires Ascending(rest)
    requires forall u :: u in rest ==> x.id < u.id
    ensures Ascending([x] + rest)
  {
    forall i, j | 0 <= i < j < |rest| + 1 ensures ([x] + rest)[i].id < ([x] + rest)[j].id {
      if i == 0 {
        assert ([x] + rest)[j] == rest[j - 1];
        assert rest[j - 1] in rest;
      }
    }
  }

  lemma AscendingTail(vs: seq<Var>)
    requires Ascending(vs) && |vs| > 0
    ensures Ascending(vs[1..])
    ensures forall u :: u in vs[1..] ==> vs[0].id < u.id
  {
    forall u | u in vs[1..] ensures vs[0].id < u.id {
      var i :| 0 <= i < |vs[1..]| && vs[1..][i] == u;
      assert vs[i + 1] == u;
    }
  }

  lemma {:induction false} InsertKeepsAscending(vs: seq<Var>, v: Var)
    requires Ascending(vs)
    requires !HasId(vs, v.id)
    ensures Ascending(InsertById(vs, v))
    decreases |vs|
  {
    if |vs| == 0 || v.id < vs[0].id {
      assert forall u :: u in vs ==> v.id < u.id by {
        if |vs| > 0 { AscendingTail(vs); }
      }
      AscendingCons(v, vs);
    } else {
      AscendingTail(vs);
      var rest := InsertById(vs[1..], v);
      InsertKeepsAscending(vs[1..], v);
      MembersOfInsert(vs[1..], v);
      AscendingCons(vs[0], rest);
    }
  }

  /** `VarList.Add`: a variable whose id is already listed is ignored;
      otherwise it is inserted in ascending id position. */
  function AddVar(vs: seq<Var>, v: Var): (r: seq<Var>)
    ensures HasId(vs, v.id) ==> r == vs
    ensures !HasId(vs, v.id) ==> |r| == |vs| + 1
    ensures Ascending(vs) ==> Ascending(r)
  {
    if HasId(vs, v.id) then vs
    else
      assert Ascending(vs) ==> Ascending(InsertById(vs, v)) by {
        if Ascending(vs) { InsertKeepsAscending(vs, v); }
      }
      InsertById(vs, v)
  }

  /** Adding to a one-variable list: a clash of ids leaves it alone,
      otherwise the pair comes out in ascending id order. */
  lemma AddToSingleton(c: Var, p: Var)
    ensures AddVar([c], p) == if p.id == c.id then [c] else if p.id < c.id then [p, c] else [c, p]
  {
    assert [c][1..] == [];
    assert HasId([c], p.id) <==> p.id == c.id;
    if p.id > c.id {
      assert InsertById([c], p) == [c] + InsertById([], p);
    }
  }

  /** What `AddVar` keeps and adds: every old variable stays, the only new
      one is `v`, and a fresh `v` is added exactly once. */
  lemma AddVarContents(vs: seq<Var>, v: Var)
    ensures forall u :: u in vs ==> u in AddVar(vs, v)
    ensures forall u :: u in AddVar(vs, v) ==> u in vs || u == v
    ensures !HasId(vs, v.id) ==> multiset(AddVar(vs, v)) == multiset(vs) + multiset{v}
    ensures HasId(AddVar(vs, v), v.id)
  {
    if !HasId(vs, v.id) {
      InsertByIdContents(vs, v);
      MembersOfInsert(vs, v);
      HasIdIffMember(AddVar(vs, v), v.id);
    }
  }

  /** Adding a variable with an id above every registered one appends it. */
  lemma AddFreshAppends(vs: seq<Var>, v: Var)
    requires Ascending(vs)
    requires v.id > MaxId(vs)
    ensures AddVar(vs, v) == vs + [v]
    ensures Ascending(vs + [v])
    ensures MaxId(vs + [v]) == v.id
  {
    MaxIdIsMaximum(vs);
    HasIdIffMember(vs, v.id);
    InsertAfterAll(vs, v);
    assert Ascending(vs + [v]) by {
      forall i, j | 0 <= i < j < |vs| + 1 ensures (vs + [v])[i].id < (vs + [v])[j].id {
        assert (vs + [v])[i] in vs;
      }
    }
  }
}
