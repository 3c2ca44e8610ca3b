/** The latent-tree BIF reader (`parseLTMbif`, cmd/convert/convert.go).

    The file is read as a sequence of white-space separated tokens, walked
    by position. Two kinds of block matter, every other token is skipped:

      variable NAME ... discrete[K] ...
      probability ( CHILD [| PARENT] ... table V1 V2 ... }

    A variable block registers NAME with the next free id unless a variable
    of that name is already known. A probability block yields one factor over
    the child and at most one parent. Values stay the tokens of the file
    (`;` trimmed); the float conversion is not modelled. */
module LtmParser {
  import opened Results
  import opened Text
  import opened Registry
  import opened MixedRadix
  import opened LtmTables

  const VariableKeyword: string := "variable"
  const ProbabilityKeyword: string := "probability"
  const DiscretePrefix: string := "discrete"
  const TablePrefix: string := "table"

  /** Names are read with surrounding double quotes removed. */
  function Unquote(tok: string): string {
    Trim(tok, {'"'})
  }

  /** The cardinality text of a `discrete[K]` token. */
  function CardinalityText(tok: string): string
    requires HasPrefix(tok, DiscretePrefix)
  {
    Trim(tok[|DiscretePrefix|..], {'[', ']'})
  }

  /** Table values are read with leading and trailing `;` removed. */
  function TrimValues(ts: seq<string>): (vs: seq<string>)
    ensures |vs| == |ts|
    decreases |ts|
  {
    if |ts| == 0 then [] else [Trim(ts[0], {';'})] + TrimValues(ts[1..])
  }

  lemma {:induction false} TrimValuesPointwise(ts: seq<string>)
    ensures forall i :: 0 <= i < |ts| ==> TrimValues(ts)[i] == Trim(ts[i], {';'})
    decreases |ts|
  {
    if |ts| > 0 {
      TrimValuesPointwise(ts[1..]);
    }
  }

  /** The first position at or after `i` whose token starts with `prefix`:
      the reader's scan for `discrete` and for `table`. */
  function FindPrefix(ts: seq<string>, i: nat, prefix: string): (r: Option<nat>)
    ensures r.Some? ==> i <= r.value < |ts| && HasPrefix(ts[r.value], prefix)
    decreases |ts| - i
  {
    if i >= |ts| then None
    else if HasPrefix(ts[i], prefix) then Some(i)
    else FindPrefix(ts, i + 1, prefix)
  }

  /** The position found is the first match, and no match means none at
      all from `i` on. */
  lemma {:induction false} FindPrefixIsFirst(ts: seq<string>, i: nat, prefix: string)
    ensures var r := FindPrefix(ts, i, prefix);
      && (r.Some? ==> forall k :: i <= k < r.value ==> !HasPrefix(ts[k], prefix))
      && (r.None? ==> forall k :: i <= k < |ts| ==> !HasPrefix(ts[k], prefix))
    decreases |ts| - i
  {
    if i < |ts| && !HasPrefix(ts[i], prefix) {
      FindPrefixIsFirst(ts, i + 1, prefix);
    }
  }

  /** The first position at or after `i` holding the token `w`. */
  function FindToken(ts: seq<string>, i: nat, w: string): (r: Option<nat>)
    ensures r.Some? ==> i <= r.value < |ts| && ts[r.value] == w
    decreases |ts| - i
  {
    if i >= |ts| then None
    else if ts[i] == w then Some(i)
    else FindToken(ts, i + 1, w)
  }

  lemma {:induction false} FindTokenIsFirst(ts: seq<string>, i: nat, w: string)
    ensures var r := FindToken(ts, i, w);
      && (r.Some? ==> forall k :: i <= k < r.value ==> ts[k] != w)
      && (r.None? ==> forall k :: i <= k < |ts| ==> ts[k] != w)
    decreases |ts| - i
  {
    if i < |ts| && ts[i] != w {
      FindTokenIsFirst(ts, i + 1, w);
    }
  }

  // ---------------------------------------------------------------------
  // Variable blocks (convert.go:195-211)

  /** Outcome of a variable block: the registry, the next free id, the
      variable registered (if the name was new) and how many tokens the
      block took from its name on. */
  datatype Registered = Registered(vars: seq<Var>, nextId: int, added: Option<Var>, width: nat)

  /** `pos` is the position of the name, right after `variable`. */
  function VariableBlock(ts: seq<string>, pos: nat, vs: seq<Var>, id: int): (r: Result<Registered, ParseError>)
    requires pos <= |ts|
    ensures r.Success? ==> 0 < r.value.width && pos + r.value.width <= |ts|
    // the stream ends before the name
    ensures pos == |ts| ==> r == Failure(Truncated)
  {
    if pos == |ts| then Failure(Truncated)
    else
      var name := Unquote(ts[pos]);
      if FindByName(vs, name).Some? then Success(Registered(vs, id, None, 1))
      else
        var d :- FindPrefix(ts, pos + 1, DiscretePrefix).ToResult(Truncated);
        var n :- Atoi(CardinalityText(ts[d])).ToResult(BadCardinality(ts[d]));
        if n < 0 then Failure(BadCardinality(ts[d]))
        else
          var v := Var(id, n, name, Contains(name, VariableKeyword));
          Success(Registered(AddVar(vs, v), id + 1, Some(v), d + 1 - pos))
  }

  /** What a variable block registers. */
  lemma VariableBlockOutcome(ts: seq<string>, pos: nat, vs: seq<Var>, id: int)
    requires pos < |ts|
    // a known name is not re-added and consumes no id
    ensures var r := VariableBlock(ts, pos, vs, id);
      r.Success? && FindByName(vs, Unquote(ts[pos])).Some? ==>
        r.value.added.None? && r.value.vars == vs && r.value.nextId == id && r.value.width == 1
    // a new name gets the id `id`, a latent flag from its spelling and the
    // cardinality of the first following `discrete` token
    ensures var r := VariableBlock(ts, pos, vs, id);
      r.Success? && FindByName(vs, Unquote(ts[pos])).None? ==> (
        && r.value.added.Some?
        && var v := r.value.added.value;
        && v.id == id && v.name == Unquote(ts[pos])
        && v.latent == Contains(v.name, VariableKeyword)
        && r.value.vars == AddVar(vs, v)
        && r.value.nextId == id + 1
        && var d := FindPrefix(ts, pos + 1, DiscretePrefix);
        && d.Some?
        && Atoi(CardinalityText(ts[d.value])) == Some(v.card as int)
        && pos + r.value.width == d.value + 1)
    // no `discrete` token after a new name: the stream ended inside the block
    ensures FindByName(vs, Unquote(ts[pos])).None? && FindPrefix(ts, pos + 1, DiscretePrefix).None? ==>
      VariableBlock(ts, pos, vs, id) == Failure(Truncated)
  {
  }

  /** On an ascending registry whose next id follows its largest, a
      variable block appends (if anything) and keeps both facts. */
  lemma VariableBlockKeepsOrder(ts: seq<string>, pos: nat, vs: seq<Var>, id: int)
    requires pos < |ts|
    requires Ascending(vs) && id == MaxId(vs) + 1
    ensures var r := VariableBlock(ts, pos, vs, id);
      r.Success? ==>
        && Ascending(r.value.vars) && r.value.nextId == MaxId(r.value.vars) + 1
        && (r.value.added.Some? ==> r.value.vars == vs + [r.value.added.value])
  {
    var r := VariableBlock(ts, pos, vs, id);
    if r.Success? {
      VariableBlockOutcome(ts, pos, vs, id);
      if r.value.added.Some? {
        AddFreshAppends(vs, r.value.added.value);
      }
    }
  }

  // ---------------------------------------------------------------------
  // Probability blocks (convert.go:212-250)

  /** `a` is where the values of a block begin: the first `table...` token
      at or after `from`. */
  predicate IsTableStart(ts: seq<string>, from: nat, a: nat) {
    from <= a < |ts| && HasPrefix(ts[a], TablePrefix)
    && forall i :: from <= i < a ==> !HasPrefix(ts[i], TablePrefix)
  }

  /** The values of a table and how many tokens it took, from where the
      search for `table` began through the closing brace. */
  datatype TableRead = TableRead(read: seq<string>, width: nat)

  /** `t` is the table that begins at `a`: the `;`-trimmed tokens up to the
      first literal `}`, which is the last token taken. */
  ghost predicate Spans(ts: seq<string>, from: nat, a: nat, t: TableRead) {
    && IsTableStart(ts, from, a)
    && from + t.width == a + 2 + |t.read| <= |ts|
    && ts[a + 1 + |t.read|] == "}"
    && (forall i :: a + 1 <= i < a + 1 + |t.read| ==> ts[i] != "}")
    && t.read == TrimValues(ts[a + 1..a + 1 + |t.read|])
  }

  /** Skips to the first `table...` token at or after `from` and reads the
      values that follow it up to `}`. */
  function TableAt(ts: seq<string>, from: nat): Option<TableRead> {
    match FindPrefix(ts, from, TablePrefix)
    case None => None
    case Some(a) =>
      match FindToken(ts, a + 1, "}")
      case None => None
      case Some(b) => Some(TableRead(TrimValues(ts[a + 1..b]), b + 1 - from))
  }

  lemma TableAtSpans(ts: seq<string>, from: nat)
    requires TableAt(ts, from).Some?
    ensures Spans(ts, from, FindPrefix(ts, from, TablePrefix).value, TableAt(ts, from).value)
  {
    var a := FindPrefix(ts, from, TablePrefix).value;
    FindPrefixIsFirst(ts, from, TablePrefix);
    FindTokenIsFirst(ts, a + 1, "}");
  }

  /** The table of a block; a missing `table` token or closing brace means
      the stream ended inside the block. */
  function ReadTable(ts: seq<string>, from: nat): (r: Result<TableRead, ParseError>)
    ensures r.Success? ==> 0 < r.value.width && from + r.value.width <= |ts|
    ensures r.Failure? ==> r.error == Truncated
  {
    TableAt(ts, from).ToResult(Truncated)
  }

  /** No `table` token from `from` on: the stream ended inside the block. */
  lemma ReadTableTruncated(ts: seq<string>, from: nat)
    requires forall i :: from <= i < |ts| ==> !HasPrefix(ts[i], TablePrefix)
    ensures ReadTable(ts, from) == Failure(Truncated)
  {
    FindPrefixIsFirst(ts, from, TablePrefix);
  }

  /** The variables a probability block is about. */
  datatype Header = Header(child: Var, parent: Option<Var>)

  /** How many tokens the header takes: the opening token and the child's
      name and, when the next token is `|`, that bar and one parent name. */
  function HeaderWidth(ts: seq<string>, pos: nat): nat
    requires pos + 3 <= |ts|
  {
    if ts[pos + 2] == "|" then 4 else 2
  }

  /** `pos` is the position after `probability`: an opening token, the
      child's name, then `|` and one parent name, or anything else. */
  function ReadHeader(ts: seq<string>, pos: nat, vs: seq<Var>): Result<Header, ParseError>
    requires pos + 3 <= |ts|
  {
    var childName := Unquote(ts[pos + 1]);
    var child :- FindByName(vs, childName).ToResult(UnknownName(childName));
    if ts[pos + 2] != "|" then Success(Header(child, None))
    else if pos + 4 > |ts| then Failure(Truncated)
    else
      var parentName := Unquote(ts[pos + 3]);
      var p :- FindByName(vs, parentName).ToResult(UnknownName(parentName));
      Success(Header(child, Some(p)))
  }

  /** The child is the registered variable of the name after the opening
      token; there is a parent exactly when `|` follows, and it is the
      registered variable of the next name. */
  lemma ReadHeaderOutcome(ts: seq<string>, pos: nat, vs: seq<Var>)
    requires pos + 3 <= |ts|
    ensures ReadHeader(ts, pos, vs).Success? ==> Some(ReadHeader(ts, pos, vs).value.child) == FindByName(vs, Unquote(ts[pos + 1]))
    ensures ReadHeader(ts, pos, vs).Success? ==> (ReadHeader(ts, pos, vs).value.parent.Some? <==> ts[pos + 2] == "|")
    ensures (ReadHeader(ts, pos, vs).Success? && ts[pos + 2] == "|") ==>
      pos + 4 <= |ts| && ReadHeader(ts, pos, vs).value.parent == FindByName(vs, Unquote(ts[pos + 3]))
    ensures ReadHeader(ts, pos, vs).Success? ==> pos + HeaderWidth(ts, pos) <= |ts|
    // a name that is not registered stops the block
    ensures FindByName(vs, Unquote(ts[pos + 1])).None? ==> ReadHeader(ts, pos, vs) == Failure(UnknownName(Unquote(ts[pos + 1])))
  {
  }

  /** A probability block as read: its header, the values in declared
      order, and how many tokens it took after the `probability` keyword. */
  datatype Block = Block(header: Header, read: seq<string>, width: nat)

  /** The block from the outcomes of its two parts, the header's error
      first. */
  function Combine(h: Result<Header, ParseError>, skip: nat, t: Result<TableRead, ParseError>): (r: Result<Block, ParseError>)
    ensures r.Success? <==> h.Success? && t.Success?
    ensures r.Success? ==> r.value.header == h.value && r.value.read == t.value.read && r.value.width == skip + t.value.width
    ensures h.Failure? ==> r == Failure(h.error)
    ensures h.Success? && t.Failure? ==> r == Failure(t.error)
  {
    var hv :- h;
    var tv :- t;
    Success(Block(hv, tv.read, skip + tv.width))
  }

  /** `pos` is the position after the `probability` keyword. */
  function ProbabilityBlock(ts: seq<string>, pos: nat, vs: seq<Var>): (r: Result<Block, ParseError>)
    ensures r.Success? ==> 0 < r.value.width && pos + r.value.width <= |ts|
  {
    if pos + 3 > |ts| then Failure(Truncated)
    else
      var skip := HeaderWidth(ts, pos);
      Combine(ReadHeader(ts, pos, vs), skip, ReadTable(ts, pos + skip))
  }

  /** The factor of a block: its child and parent over the values read. */
  function FactorOf(b: Block, conv: Convention): Result<Factor<string>, ParseError> {
    MakeFactor(b.header.child, b.header.parent, b.read, conv)
  }

  /** A block is its header and the table that follows it. */
  lemma BlockParts(ts: seq<string>, pos: nat, vs: seq<Var>)
    requires ProbabilityBlock(ts, pos, vs).Success?
    ensures var b := ProbabilityBlock(ts, pos, vs).value;
      && pos + 3 <= |ts|
      && ReadHeader(ts, pos, vs) == Success(b.header)
      && var from := pos + HeaderWidth(ts, pos);
      && (exists a, w :: Spans(ts, from, a, TableRead(b.read, w)) && pos + b.width == from + w)
  {
    var from := pos + HeaderWidth(ts, pos);
    TableAtSpans(ts, from);
  }

  /** Both variables of a header are in the registry `R`. */
  ghost predicate HeaderIn(h: Header, R: seq<Var>) {
    h.child in R && (h.parent.Some? ==> h.parent.value in R)
  }

  /** A block names registered variables only. */
  lemma BlockVarsIn(ts: seq<string>, pos: nat, vs: seq<Var>)
    requires ProbabilityBlock(ts, pos, vs).Success?
    ensures HeaderIn(ProbabilityBlock(ts, pos, vs).value.header, vs)
  {
    BlockParts(ts, pos, vs);
    ReadHeaderOutcome(ts, pos, vs);
  }

  /** The factor of a block over registered variables has one or two of
      them in ascending id order, the child among them, and its table is a
      permutation of the values read. */
  lemma FactorScoped(b: Block, conv: Convention, R: seq<Var>)
    requires HeaderIn(b.header, R)
    ensures var f := FactorOf(b, conv);
      f.Success? ==>
        && 1 <= |f.value.scope| <= 2 && Ascending(f.value.scope)
        && b.header.child in f.value.scope
        && (forall v :: v in f.value.scope ==> v in R)
        && multiset(f.value.values) == multiset(b.read)
  {
    MakeFactorShape(b.header.child, b.header.parent, b.read, conv);
  }

  // ---------------------------------------------------------------------
  // The main loop (convert.go:182-255)
  //
  // The loop is modelled in two passes: the token walk collects the
  // probability blocks in file order, then their factors are built in the
  // same order. The first failure in file order wins, as in the single
  // pass of the source, where each factor is built right after its block.

  /** What the token walk has read when it stops: the probability blocks in
      file order, the registry, the next free id, and the error that ended
      it early, if any. */
  datatype Scanned = Scanned(blocks: seq<Block>, vars: seq<Var>, nextId: int, stop: Option<ParseError>)

  /** The token walk from position `pos` with the running id counter: the
      two block keywords dispatch, every other token is skipped. */
  function ScanFrom(ts: seq<string>, pos: nat, vs: seq<Var>, id: int): Scanned
    decreases |ts| - pos, 1
  {
    if pos >= |ts| then Scanned([], vs, id, None)
    else if ts[pos] == VariableKeyword then ScanVariable(ts, pos + 1, vs, id)
    else if ts[pos] == ProbabilityKeyword then ScanProbability(ts, pos + 1, vs, id)
    else ScanFrom(ts, pos + 1, vs, id)
  }

  /** The walk after a `variable` keyword: the block, then the rest with
      the registry it leaves. */
  function ScanVariable(ts: seq<string>, pos: nat, vs: seq<Var>, id: int): Scanned
    requires pos <= |ts|
    decreases |ts| - pos + 1, 0
  {
    match VariableBlock(ts, pos, vs, id)
    case Failure(e) => Scanned([], vs, id, Some(e))
    case Success(reg) => ScanFrom(ts, pos + reg.width, reg.vars, reg.nextId)
  }

  /** The walk after a `probability` keyword: the block in front of the
      blocks of the rest. */
  function ScanProbability(ts: seq<string>, pos: nat, vs: seq<Var>, id: int): Scanned
    decreases |ts| - pos + 1, 0
  {
    match ProbabilityBlock(ts, pos, vs)
    case Failure(e) => Scanned([], vs, id, Some(e))
    case Success(b) =>
      var more := ScanFrom(ts, pos + b.width, vs, id);
      Scanned([b] + more.blocks, more.vars, more.nextId, more.stop)
  }

  /** Registry facts the walk keeps: existing entries stay in place and
      the entries after them were registered one by one from the counter
      on. */
  ghost predicate GrowsRegistry(vs: seq<Var>, id: int, R: seq<Var>, next: int) {
    && |R| >= |vs| && R[..|vs|] == vs
    && Ascending(R)
    && next == id + (|R| - |vs|) == MaxId(R) + 1
    && Registers(vs, id, R[|vs|..])
  }

  /** `added` is what registering new names one after the other on top of
      `vs` appends: consecutive ids from `id`, names unknown when
      registered, the latent flag following the name. */
  ghost predicate Registers(vs: seq<Var>, id: int, added: seq<Var>)
    decreases |added|
  {
    |added| == 0 ||
      (&& added[0].id == id
       && FindByName(vs, added[0].name).None?
       && added[0].latent == Contains(added[0].name, VariableKeyword)
       && Registers(vs + [added[0]], id + 1, added[1..]))
  }

  /** The same facts entry by entry. */
  lemma {:induction false} RegistersPointwise(vs: seq<Var>, id: int, added: seq<Var>)
    requires Registers(vs, id, added)
    ensures forall k :: 0 <= k < |added| ==> added[k].id == id + k
    ensures forall k :: 0 <= k < |added| ==> FindByName(vs + added[..k], added[k].name).None?
    ensures forall k :: 0 <= k < |added| ==> added[k].latent == Contains(added[k].name, VariableKeyword)
    decreases |added|
  {
    if |added| > 0 {
      var v, rest := added[0], added[1..];
      RegistersPointwise(vs + [v], id + 1, rest);
      forall k | 1 <= k < |added|
        ensures added[k].id == id + k
        ensures FindByName(vs + added[..k], added[k].name).None?
        ensures added[k].latent == Contains(added[k].name, VariableKeyword)
      {
        assert added[k] == rest[k - 1];
        assert vs + added[..k] == (vs + [v]) + rest[..k - 1];
      }
      assert vs + added[..0] == vs;
    }
  }

  /** The registry facts indexed by position in the grown registry. */
  lemma GrowsPointwise(vs: seq<Var>, id: int, R: seq<Var>, next: int)
    requires GrowsRegistry(vs, id, R, next)
    ensures forall k :: |vs| <= k < |R| ==> R[k].id == id + (k - |vs|)
    ensures forall k :: |vs| <= k < |R| ==> FindByName(R[..k], R[k].name).None?
    ensures forall k :: |vs| <= k < |R| ==> R[k].latent == Contains(R[k].name, VariableKeyword)
  {
    var added := R[|vs|..];
    RegistersPointwise(vs, id, added);
    forall k | |vs| <= k < |R|
      ensures R[k].id == id + (k - |vs|)
      ensures FindByName(R[..k], R[k].name).None?
      ensures R[k].latent == Contains(R[k].name, VariableKeyword)
    {
      assert R[k] == added[k - |vs|];
      assert R[..k] == vs + added[..k - |vs|];
    }
  }

  /** Every block names variables of the registry `R`. */
  ghost predicate BlocksIn(bs: seq<Block>, R: seq<Var>)
    decreases |bs|
  {
    |bs| == 0 || (HeaderIn(bs[0].header, R) && BlocksIn(bs[1..], R))
  }

  /** What the walk promises about its outcome from registry `vs` and
      counter `id`, whether it read to the end or stopped early. */
  ghost predicate Keeps(s: Scanned, vs: seq<Var>, id: int) {
    GrowsRegistry(vs, id, s.vars, s.nextId) && BlocksIn(s.blocks, s.vars)
  }

  /** Registering a fresh variable in front of a registry that then grows. */
  lemma GrowsAfterFresh(vs: seq<Var>, id: int, v: Var, R: seq<Var>, next: int)
    requires v.id == id && FindByName(vs, v.name).None? && v.latent == Contains(v.name, VariableKeyword)
    requires GrowsRegistry(vs + [v], id + 1, R, next)
    ensures GrowsRegistry(vs, id, R, next)
  {
    assert R[..|vs|] == R[..|vs| + 1][..|vs|];
    assert R[|vs|] == R[..|vs| + 1][|vs|];
    assert R[|vs|..][1..] == R[|vs| + 1..];
  }

  /** A registry that keeps `vs` as a prefix holds every variable of `vs`. */
  lemma PrefixMembers(vs: seq<Var>, R: seq<Var>, v: Var)
    requires |R| >= |vs| && R[..|vs|] == vs && v in vs
    ensures v in R
  {
    var i :| 0 <= i < |vs| && vs[i] == v;
    assert R[i] == v;
  }

  /** A variable block keeps the invariants, given that the rest of the
      walk does. */
  lemma VariableStep(ts: seq<string>, pos: nat, vs: seq<Var>, id: int)
    requires pos < |ts| && Ascending(vs) && id == MaxId(vs) + 1
    requires VariableBlock(ts, pos, vs, id).Success?
    requires var reg := VariableBlock(ts, pos, vs, id).value;
      Keeps(ScanFrom(ts, pos + reg.width, reg.vars, reg.nextId), reg.vars, reg.nextId)
    ensures Keeps(ScanVariable(ts, pos, vs, id), vs, id)
  {
    var reg := VariableBlock(ts, pos, vs, id).value;
    var s := ScanFrom(ts, pos + reg.width, reg.vars, reg.nextId);
    assert ScanVariable(ts, pos, vs, id) == s;
    RegisteredShape(ts, pos, vs, id);
    RegistrationKeeps(vs, id, reg, s);
  }

  /** What a variable block leaves on an ascending registry: nothing new, or
      one fresh variable appended with the counter's id. */
  ghost predicate RegisteredOn(vs: seq<Var>, id: int, reg: Registered) {
    && (reg.added.None? ==> reg.vars == vs && reg.nextId == id)
    && (reg.added.Some? ==>
      var v := reg.added.value;
      && reg.vars == vs + [v] && reg.nextId == id + 1 && v.id == id
      && FindByName(vs, v.name).None? && v.latent == Contains(v.name, VariableKeyword))
  }

  lemma RegisteredShape(ts: seq<string>, pos: nat, vs: seq<Var>, id: int)
    requires pos < |ts| && Ascending(vs) && id == MaxId(vs) + 1
    requires VariableBlock(ts, pos, vs, id).Success?
    ensures RegisteredOn(vs, id, VariableBlock(ts, pos, vs, id).value)
  {
    VariableBlockOutcome(ts, pos, vs, id);
    VariableBlockKeepsOrder(ts, pos, vs, id);
  }

  lemma RegistrationKeeps(vs: seq<Var>, id: int, reg: Registered, s: Scanned)
    requires RegisteredOn(vs, id, reg) && Keeps(s, reg.vars, reg.nextId)
    ensures Keeps(s, vs, id)
  {
    if reg.added.Some? {
      GrowsAfterFresh(vs, id, reg.added.value, s.vars, s.nextId);
    }
  }

  /** A probability block keeps the invariants, given that the rest of the
      walk does. */
  lemma ProbabilityStep(ts: seq<string>, pos: nat, vs: seq<Var>, id: int)
    requires ProbabilityBlock(ts, pos, vs).Success?
    requires Keeps(ScanFrom(ts, pos + ProbabilityBlock(ts, pos, vs).value.width, vs, id), vs, id)
    ensures Keeps(ScanProbability(ts, pos, vs, id), vs, id)
  {
    var b := ProbabilityBlock(ts, pos, vs).value;
    var more := ScanFrom(ts, pos + b.width, vs, id);
    BlockVarsIn(ts, pos, vs);
    BlockInGrown(b, more, vs, id);
  }

  /** A block over `vs` in front of an outcome that keeps the invariants. */
  lemma BlockInGrown(b: Block, more: Scanned, vs: seq<Var>, id: int)
    requires HeaderIn(b.header, vs) && Keeps(more, vs, id)
    ensures Keeps(Scanned([b] + more.blocks, more.vars, more.nextId, more.stop), vs, id)
  {
    PrefixMembers(vs, more.vars, b.header.child);
    if b.header.parent.Some? {
      PrefixMembers(vs, more.vars, b.header.parent.value);
    }
    assert ([b] + more.blocks)[1..] == more.blocks;
  }

  lemma {:induction false} ScanFromInvariants(ts: seq<string>, pos: nat, vs: seq<Var>, id: int)
    requires Ascending(vs) && id == MaxId(vs) + 1
    ensures Keeps(ScanFrom(ts, pos, vs, id), vs, id)
    decreases |ts| - pos, 1
  {
    if pos >= |ts| {
      assert vs[..|vs|] == vs && vs[|vs|..] == [];
    } else if ts[pos] == VariableKeyword {
      ScanVariableInvariants(ts, pos + 1, vs, id);
    } else if ts[pos] == ProbabilityKeyword {
      ScanProbabilityInvariants(ts, pos + 1, vs, id);
    } else {
      ScanFromInvariants(ts, pos + 1, vs, id);
    }
  }

  lemma {:induction false} ScanVariableInvariants(ts: seq<string>, pos: nat, vs: seq<Var>, id: int)
    requires pos <= |ts| && Ascending(vs) && id == MaxId(vs) + 1
    ensures Keeps(ScanVariable(ts, pos, vs, id), vs, id)
    decreases |ts| - pos + 1, 0
  {
    var b := VariableBlock(ts, pos, vs, id);
    if b.Success? {
      var reg := b.value;
      VariableBlockKeepsOrder(ts, pos, vs, id);
      ScanFromInvariants(ts, pos + reg.width, reg.vars, reg.nextId);
      VariableStep(ts, pos, vs, id);
    } else {
      assert vs[..|vs|] == vs && vs[|vs|..] == [];
    }
  }

  lemma {:induction false} ScanProbabilityInvariants(ts: seq<string>, pos: nat, vs: seq<Var>, id: int)
    requires Ascending(vs) && id == MaxId(vs) + 1
    ensures Keeps(ScanProbability(ts, pos, vs, id), vs, id)
    decreases |ts| - pos + 1, 0
  {
    var b := ProbabilityBlock(ts, pos, vs);
    if b.Success? {
      ScanFromInvariants(ts, pos + b.value.width, vs, id);
      ProbabilityStep(ts, pos, vs, id);
    } else {
      assert vs[..|vs|] == vs && vs[|vs|..] == [];
    }
  }

  /** The factors of the blocks read, built in file order. The first block
      whose factor cannot be built ends the loop; the error that ended the
      reading, if any, comes after every block read before it. */
  function Build(blocks: seq<Block>, stop: Option<ParseError>, conv: Convention): (r: Result<seq<Factor<string>>, ParseError>)
    ensures r.Success? ==> |r.value| == |blocks|
    decreases |blocks|
  {
    if |blocks| == 0 then
      match stop
      case Some(e) => Failure(e)
      case None => Success([])
    else
      var f :- FactorOf(blocks[0], conv);
      var rest :- Build(blocks[1..], stop, conv);
      Success([f] + rest)
  }

  /** Building succeeds exactly when the reading ran to the end and every
      block's factor builds, and then factor i is that of block i. */
  lemma {:induction false} BuildSucceeds(blocks: seq<Block>, stop: Option<ParseError>, conv: Convention)
    ensures Build(blocks, stop, conv).Success? <==>
      stop.None? && forall i :: 0 <= i < |blocks| ==> FactorOf(blocks[i], conv).Success?
    ensures Build(blocks, stop, conv).Success? ==>
      forall i :: 0 <= i < |blocks| ==> Build(blocks, stop, conv).value[i] == FactorOf(blocks[i], conv).value
    decreases |blocks|
  {
    if |blocks| > 0 {
      BuildSucceeds(blocks[1..], stop, conv);
      assert forall i :: 1 <= i < |blocks| ==> blocks[1..][i - 1] == blocks[i];
    }
  }

  /** The error reported is that of the first block whose factor fails, or
      the one that ended the reading when every factor builds. */
  lemma {:induction false} BuildFailsFirst(blocks: seq<Block>, stop: Option<ParseError>, conv: Convention, i: nat)
    requires i <= |blocks|
    requires forall k :: 0 <= k < i ==> FactorOf(blocks[k], conv).Success?
    ensures i < |blocks| && FactorOf(blocks[i], conv).Failure? ==>
      Build(blocks, stop, conv) == Failure(FactorOf(blocks[i], conv).error)
    ensures i == |blocks| && stop.Some? ==> Build(blocks, stop, conv) == Failure(stop.value)
    decreases i
  {
    if i > 0 {
      assert forall k :: 0 <= k < i - 1 ==> blocks[1..][k] == blocks[k + 1];
      BuildFailsFirst(blocks[1..], stop, conv, i - 1);
    }
  }

  /** Built factors over blocks that name registered variables are well
      scoped. */
  lemma {:induction false} BuildScoped(blocks: seq<Block>, stop: Option<ParseError>, conv: Convention, R: seq<Var>)
    requires BlocksIn(blocks, R)
    ensures Build(blocks, stop, conv).Success? ==> WellScoped(Build(blocks, stop, conv).value, R)
    decreases |blocks|
  {
    if |blocks| > 0 {
      FactorScoped(blocks[0], conv, R);
      BuildScoped(blocks[1..], stop, conv, R);
    }
  }

  /** Every factor has one or two variables of the registry `R`, in
      ascending id order. */
  ghost predicate WellScoped(fs: seq<Factor<string>>, R: seq<Var>) {
    forall f :: f in fs ==>
      1 <= |f.scope| <= 2 && Ascending(f.scope) && forall v :: v in f.scope ==> v in R
  }

  /** `parseLTMbif`: the factors, one per probability block, and the
      registry extended with the newly declared variables. */
  function Parse(ts: seq<string>, vs: seq<Var>, conv: Convention)
    : (r: Result<(seq<Factor<string>>, seq<Var>), ParseError>)
  {
    Assemble(ScanFrom(ts, 0, vs, MaxId(vs) + 1), conv)
  }

  /** The second pass: the factors of the blocks read, with the registry. */
  function Assemble(s: Scanned, conv: Convention): Result<(seq<Factor<string>>, seq<Var>), ParseError> {
    var fs :- Build(s.blocks, s.stop, conv);
    Success((fs, s.vars))
  }

  lemma ParseIsAssemble(ts: seq<string>, vs: seq<Var>, conv: Convention, s: Scanned)
    requires ScanFrom(ts, 0, vs, MaxId(vs) + 1) == s
    ensures Parse(ts, vs, conv) == Assemble(s, conv)
  {
  }

  /** The second pass succeeds exactly when the walk ran to the end and
      every block's factor builds; factor i is then that of block i. */
  lemma AssembleOutcome(s: Scanned, conv: Convention)
    ensures Assemble(s, conv).Success? <==>
      s.stop.None? && forall i :: 0 <= i < |s.blocks| ==> FactorOf(s.blocks[i], conv).Success?
    ensures var r := Assemble(s, conv);
      r.Success? ==> (r.value.1 == s.vars && |r.value.0| == |s.blocks|
        && forall i :: 0 <= i < |s.blocks| ==> FactorOf(s.blocks[i], conv) == Success(r.value.0[i]))
  {
    BuildSucceeds(s.blocks, s.stop, conv);
  }

  /** What `Parse` promises on an ascending pre-seeded registry. */
  lemma ParseOutcome(ts: seq<string>, vs: seq<Var>, conv: Convention)
    requires Ascending(vs)
    // the pre-seeded registry is kept as a prefix
    ensures var r := Parse(ts, vs, conv);
      r.Success? ==> |r.value.1| >= |vs| && r.value.1[..|vs|] == vs
    // new variables get ids MaxId(vs)+1, MaxId(vs)+2, ... in order of appearance
    ensures var r := Parse(ts, vs, conv);
      r.Success? ==> forall k :: |vs| <= k < |r.value.1| ==> r.value.1[k].id == MaxId(vs) + 1 + (k - |vs|)
    // a name is registered only if no earlier variable carries it
    ensures var r := Parse(ts, vs, conv);
      r.Success? ==> forall k :: |vs| <= k < |r.value.1| ==> FindByName(r.value.1[..k], r.value.1[k].name).None?
    ensures var r := Parse(ts, vs, conv);
      r.Success? ==> forall k :: |vs| <= k < |r.value.1| ==> r.value.1[k].latent == Contains(r.value.1[k].name, VariableKeyword)
    ensures var r := Parse(ts, vs, conv);
      r.Success? ==> Ascending(r.value.1) && WellScoped(r.value.0, r.value.1)
    // one factor per probability block read, in file order
    ensures var r := Parse(ts, vs, conv);
      var s := ScanFrom(ts, 0, vs, MaxId(vs) + 1);
      r.Success? ==> (|r.value.0| == |s.blocks|
        && forall i :: 0 <= i < |s.blocks| ==> FactorOf(s.blocks[i], conv) == Success(r.value.0[i]))
  {
    var s := ScanFrom(ts, 0, vs, MaxId(vs) + 1);
    ScanFromInvariants(ts, 0, vs, MaxId(vs) + 1);
    ParseIsAssemble(ts, vs, conv, s);
    AssembleKeeps(s, vs, MaxId(vs) + 1, conv);
  }

  /** The second pass over a walk that kept its invariants. */
  lemma AssembleKeeps(s: Scanned, vs: seq<Var>, id: int, conv: Convention)
    requires Keeps(s, vs, id)
    ensures var r := Assemble(s, conv);
      r.Success? ==> (
        && |r.value.1| >= |vs| && r.value.1[..|vs|] == vs
        && (forall k :: |vs| <= k < |r.value.1| ==> r.value.1[k].id == id + (k - |vs|))
        && (forall k :: |vs| <= k < |r.value.1| ==> FindByName(r.value.1[..k], r.value.1[k].name).None?)
        && (forall k :: |vs| <= k < |r.value.1| ==> r.value.1[k].latent == Contains(r.value.1[k].name, VariableKeyword))
        && Ascending(r.value.1) && WellScoped(r.value.0, r.value.1)
        && |r.value.0| == |s.blocks|
        && forall i :: 0 <= i < |s.blocks| ==> FactorOf(s.blocks[i], conv) == Success(r.value.0[i]))
  {
    GrowsPointwise(vs, id, s.vars, s.nextId);
    BuildScoped(s.blocks, s.stop, conv, s.vars);
    AssembleOutcome(s, conv);
  }

  // ---------------------------------------------------------------------
  // Blocks read the same wherever they sit in the stream

  /** `small` occurs in `big` starting at position `off`. */
  predicate Embeds(big: seq<string>, off: nat, small: seq<string>) {
    off + |small| <= |big| && forall k :: 0 <= k < |small| ==> big[off + k] == small[k]
  }

  /** A search inside an embedded stream finds the same token; when the
      embedded stream runs to the end, a failed search fails in both. */
  lemma {:induction false} FindPrefixIn(small: seq<string>, big: seq<string>, off: nat, i: nat, prefix: string)
    requires Embeds(big, off, small) && i <= |small|
    ensures FindPrefix(small, i, prefix).Some? ==>
      FindPrefix(big, off + i, prefix) == Some(off + FindPrefix(small, i, prefix).value)
    ensures off + |small| == |big| && FindPrefix(small, i, prefix).None? ==> FindPrefix(big, off + i, prefix).None?
    decreases |small| - i
  {
    if i < |small| {
      assert big[off + i] == small[i];
      if !HasPrefix(small[i], prefix) {
        FindPrefixIn(small, big, off, i + 1, prefix);
      }
    }
  }

  lemma {:induction false} FindTokenIn(small: seq<string>, big: seq<string>, off: nat, i: nat, w: string)
    requires Embeds(big, off, small) && i <= |small|
    ensures FindToken(small, i, w).Some? ==> FindToken(big, off + i, w) == Some(off + FindToken(small, i, w).value)
    ensures off + |small| == |big| && FindToken(small, i, w).None? ==> FindToken(big, off + i, w).None?
    decreases |small| - i
  {
    if i < |small| {
      assert big[off + i] == small[i];
      if small[i] != w {
        FindTokenIn(small, big, off, i + 1, w);
      }
    }
  }

  lemma VariableBlockIn(small: seq<string>, big: seq<string>, off: nat, pos: nat, vs: seq<Var>, id: int)
    requires Embeds(big, off, small) && pos <= |small|
    ensures VariableBlock(small, pos, vs, id).Success? || off + |small| == |big| ==>
      VariableBlock(big, off + pos, vs, id) == VariableBlock(small, pos, vs, id)
  {
    if pos < |small| && (VariableBlock(small, pos, vs, id).Success? || off + |small| == |big|) {
      VariablePartsIn(small, big, off, pos, vs, id);
      SameVariableParts(big, small, off, pos, vs, id);
    }
  }

  /** A new name needs a `discrete` token to succeed. */
  lemma NewNameNeedsDiscrete(ts: seq<string>, pos: nat, vs: seq<Var>, id: int)
    requires pos < |ts|
    ensures VariableBlock(ts, pos, vs, id).Success? && FindByName(vs, Unquote(ts[pos])).None? ==>
      FindPrefix(ts, pos + 1, DiscretePrefix).Some?
  {
  }

  /** The name and the `discrete` token of a variable block are found at
      the same places inside a larger stream. */
  lemma VariablePartsIn(small: seq<string>, big: seq<string>, off: nat, pos: nat, vs: seq<Var>, id: int)
    requires Embeds(big, off, small) && pos < |small|
    requires VariableBlock(small, pos, vs, id).Success? || off + |small| == |big|
    ensures off + pos < |big| && big[off + pos] == small[pos]
    ensures FindByName(vs, Unquote(small[pos])).None? ==>
      var d := FindPrefix(small, pos + 1, DiscretePrefix);
      && (d.Some? ==> FindPrefix(big, off + pos + 1, DiscretePrefix) == Some(off + d.value) && big[off + d.value] == small[d.value])
      && (d.None? ==> FindPrefix(big, off + pos + 1, DiscretePrefix).None?)
  {
    NewNameNeedsDiscrete(small, pos, vs, id);
    FindPrefixIn(small, big, off, pos + 1, DiscretePrefix);
    assert off + pos + 1 == off + (pos + 1);
    var d := FindPrefix(small, pos + 1, DiscretePrefix);
    if d.Some? {
      assert big[off + d.value] == small[d.value];
    }
  }

  /** Two variable blocks with the same name and the same `discrete` token
      at the same distance are the same block. */
  lemma SameVariableParts(big: seq<string>, small: seq<string>, off: nat, pos: nat, vs: seq<Var>, id: int)
    requires pos < |small| && off + pos < |big| && big[off + pos] == small[pos]
    requires FindByName(vs, Unquote(small[pos])).None? ==>
      var d := FindPrefix(small, pos + 1, DiscretePrefix);
      && (d.Some? ==> FindPrefix(big, off + pos + 1, DiscretePrefix) == Some(off + d.value) && big[off + d.value] == small[d.value])
      && (d.None? ==> FindPrefix(big, off + pos + 1, DiscretePrefix).None?)
    ensures VariableBlock(big, off + pos, vs, id) == VariableBlock(small, pos, vs, id)
  {
  }

  lemma TableAtIn(small: seq<string>, big: seq<string>, off: nat, from: nat)
    requires Embeds(big, off, small) && from <= |small|
    ensures TableAt(small, from).Some? || off + |small| == |big| ==>
      TableAt(big, off + from) == TableAt(small, from)
  {
    if TableAt(small, from).Some? || off + |small| == |big| {
      TablePartsIn(small, big, off, from);
      SameTableParts(big, small, off, from);
    }
  }

  /** Where a table's `table` token and closing brace lie, found again
      inside a larger stream. */
  ghost predicate TablePartsShifted(big: seq<string>, small: seq<string>, off: nat, from: nat) {
    var a := FindPrefix(small, from, TablePrefix);
    && (a.None? ==> FindPrefix(big, off + from, TablePrefix).None?)
    && (a.Some? ==>
      && FindPrefix(big, off + from, TablePrefix) == Some(off + a.value)
      && var b := FindToken(small, a.value + 1, "}");
      && (b.None? ==> FindToken(big, off + a.value + 1, "}").None?)
      && (b.Some? ==>
        && FindToken(big, off + a.value + 1, "}") == Some(off + b.value)
        && big[off + a.value + 1..off + b.value] == small[a.value + 1..b.value]))
  }

  lemma TablePartsIn(small: seq<string>, big: seq<string>, off: nat, from: nat)
    requires Embeds(big, off, small) && from <= |small|
    requires TableAt(small, from).Some? || off + |small| == |big|
    ensures TablePartsShifted(big, small, off, from)
  {
    FindPrefixIn(small, big, off, from, TablePrefix);
    var a := FindPrefix(small, from, TablePrefix);
    if a.Some? {
      BraceIn(small, big, off, a.value);
    }
  }

  /** The closing brace after a `table` token, found again inside a larger
      stream, with the values between at the same places. */
  lemma BraceIn(small: seq<string>, big: seq<string>, off: nat, a: nat)
    requires Embeds(big, off, small) && a < |small|
    requires FindToken(small, a + 1, "}").Some? || off + |small| == |big|
    ensures var b := FindToken(small, a + 1, "}");
      && (b.None? ==> FindToken(big, off + a + 1, "}").None?)
      && (b.Some? ==>
        && FindToken(big, off + a + 1, "}") == Some(off + b.value)
        && big[off + a + 1..off + b.value] == small[a + 1..b.value])
  {
    FindTokenIn(small, big, off, a + 1, "}");
    assert off + a + 1 == off + (a + 1);
    var b := FindToken(small, a + 1, "}");
    if b.Some? {
      SliceIn(small, big, off, a + 1, b.value);
    }
  }

  lemma SliceIn(small: seq<string>, big: seq<string>, off: nat, i: nat, j: nat)
    requires Embeds(big, off, small) && i <= j <= |small|
    ensures big[off + i..off + j] == small[i..j]
  {
    forall k | 0 <= k < j - i ensures big[off + i..off + j][k] == small[i..j][k] {
      assert big[off + i + k] == small[i + k];
    }
  }

  lemma SameTableParts(big: seq<string>, small: seq<string>, off: nat, from: nat)
    requires TablePartsShifted(big, small, off, from)
    ensures TableAt(big, off + from) == TableAt(small, from)
  {
  }

  lemma ReadHeaderIn(small: seq<string>, big: seq<string>, off: nat, pos: nat, vs: seq<Var>)
    requires Embeds(big, off, small) && pos + 3 <= |small|
    ensures ReadHeader(small, pos, vs).Success? || off + |small| == |big| ==>
      ReadHeader(big, off + pos, vs) == ReadHeader(small, pos, vs)
    ensures HeaderWidth(big, off + pos) == HeaderWidth(small, pos)
  {
    assert big[off + pos + 1] == small[pos + 1];
    assert big[off + pos + 2] == small[pos + 2];
    if pos + 4 <= |small| {
      assert big[off + pos + 3] == small[pos + 3];
    }
  }

  lemma ReadTableIn(small: seq<string>, big: seq<string>, off: nat, from: nat)
    requires Embeds(big, off, small)
    ensures ReadTable(small, from).Success? || off + |small| == |big| ==>
      ReadTable(big, off + from) == ReadTable(small, from)
  {
    if from <= |small| {
      TableAtIn(small, big, off, from);
    }
  }

  lemma ProbabilityBlockIn(small: seq<string>, big: seq<string>, off: nat, pos: nat, vs: seq<Var>)
    requires Embeds(big, off, small) && pos <= |small|
    ensures ProbabilityBlock(small, pos, vs).Success? || off + |small| == |big| ==>
      ProbabilityBlock(big, off + pos, vs) == ProbabilityBlock(small, pos, vs)
  {
    if pos + 3 <= |small| && (ProbabilityBlock(small, pos, vs).Success? || off + |small| == |big|) {
      PartsIn(small, big, off, pos, vs);
      SameParts(big, off + pos, small, pos, vs);
    }
  }

  /** The header and the table of a block read the same inside a larger
      stream. */
  lemma PartsIn(small: seq<string>, big: seq<string>, off: nat, pos: nat, vs: seq<Var>)
    requires Embeds(big, off, small) && pos + 3 <= |small|
    requires ProbabilityBlock(small, pos, vs).Success? || off + |small| == |big|
    ensures off + pos + 3 <= |big|
    ensures ReadHeader(big, off + pos, vs) == ReadHeader(small, pos, vs)
    ensures HeaderWidth(big, off + pos) == HeaderWidth(small, pos)
    ensures ReadTable(big, off + pos + HeaderWidth(big, off + pos)) == ReadTable(small, pos + HeaderWidth(small, pos))
  {
    var skip := HeaderWidth(small, pos);
    BlockNeedsParts(small, pos, vs);
    ReadHeaderIn(small, big, off, pos, vs);
    ReadTableIn(small, big, off, pos + skip);
    assert off + pos + skip == off + (pos + skip);
  }

  /** A block that reads has a header and a table that read. */
  lemma BlockNeedsParts(ts: seq<string>, pos: nat, vs: seq<Var>)
    requires pos + 3 <= |ts|
    ensures ProbabilityBlock(ts, pos, vs).Success? ==>
      ReadHeader(ts, pos, vs).Success? && ReadTable(ts, pos + HeaderWidth(ts, pos)).Success?
  {
  }

  /** Two blocks with the same header and table are the same block. */
  lemma SameParts(ts1: seq<string>, pos1: nat, ts2: seq<string>, pos2: nat, vs: seq<Var>)
    requires pos1 + 3 <= |ts1| && pos2 + 3 <= |ts2|
    requires ReadHeader(ts1, pos1, vs) == ReadHeader(ts2, pos2, vs)
    requires HeaderWidth(ts1, pos1) == HeaderWidth(ts2, pos2)
    requires ReadTable(ts1, pos1 + HeaderWidth(ts1, pos1)) == ReadTable(ts2, pos2 + HeaderWidth(ts2, pos2))
    ensures ProbabilityBlock(ts1, pos1, vs) == ProbabilityBlock(ts2, pos2, vs)
  {
  }

  /** A block's result does not depend on what follows it. */
  lemma BlockIgnoresRest(ts: seq<string>, u: seq<string>, pos: nat, vs: seq<Var>)
    requires pos <= |ts| && ProbabilityBlock(ts, pos, vs).Success?
    ensures ProbabilityBlock(ts + u, pos, vs) == ProbabilityBlock(ts, pos, vs)
  {
    ProbabilityBlockIn(ts, ts + u, 0, pos, vs);
    assert 0 + pos == pos;
  }


  /** Walking the tail of a stream from an offset is walking that tail. */
  lemma {:induction false} ScanFromIn(small: seq<string>, big: seq<string>, off: nat, pos: nat, vs: seq<Var>, id: int)
    requires Embeds(big, off, small) && off + |small| == |big| && pos <= |small|
    ensures ScanFrom(big, off + pos, vs, id) == ScanFrom(small, pos, vs, id)
    decreases |small| - pos, 1
  {
    if pos < |small| {
      assert big[off + pos] == small[pos];
      if small[pos] == VariableKeyword {
        ScanVariableIn(small, big, off, pos + 1, vs, id);
      } else if small[pos] == ProbabilityKeyword {
        ScanProbabilityIn(small, big, off, pos + 1, vs, id);
      } else {
        ScanFromIn(small, big, off, pos + 1, vs, id);
      }
      SameDispatch(big, off + pos, small, pos, vs, id);
    }
  }

  /** The walk takes the same step at two positions holding the same token
      when what follows the token gives the same outcome. */
  lemma SameDispatch(ts1: seq<string>, p1: nat, ts2: seq<string>, p2: nat, vs: seq<Var>, id: int)
    requires p1 < |ts1| && p2 < |ts2| && ts1[p1] == ts2[p2]
    requires ts2[p2] == VariableKeyword ==>
      ScanVariable(ts1, p1 + 1, vs, id) == ScanVariable(ts2, p2 + 1, vs, id)
    requires ts2[p2] == ProbabilityKeyword ==>
      ScanProbability(ts1, p1 + 1, vs, id) == ScanProbability(ts2, p2 + 1, vs, id)
    requires ts2[p2] != VariableKeyword && ts2[p2] != ProbabilityKeyword ==>
      ScanFrom(ts1, p1 + 1, vs, id) == ScanFrom(ts2, p2 + 1, vs, id)
    ensures ScanFrom(ts1, p1, vs, id) == ScanFrom(ts2, p2, vs, id)
  {
  }

  lemma {:induction false} ScanVariableIn(small: seq<string>, big: seq<string>, off: nat, pos: nat, vs: seq<Var>, id: int)
    requires Embeds(big, off, small) && off + |small| == |big| && pos <= |small|
    ensures ScanVariable(big, off + pos, vs, id) == ScanVariable(small, pos, vs, id)
    decreases |small| - pos + 1, 0
  {
    VariableBlockIn(small, big, off, pos, vs, id);
    var r := VariableBlock(small, pos, vs, id);
    if r.Success? {
      ScanFromIn(small, big, off, pos + r.value.width, r.value.vars, r.value.nextId);
      assert off + pos + r.value.width == off + (pos + r.value.width);
    }
  }

  lemma {:induction false} ScanProbabilityIn(small: seq<string>, big: seq<string>, off: nat, pos: nat, vs: seq<Var>, id: int)
    requires Embeds(big, off, small) && off + |small| == |big| && pos <= |small|
    ensures ScanProbability(big, off + pos, vs, id) == ScanProbability(small, pos, vs, id)
    decreases |small| - pos + 1, 0
  {
    ProbabilityBlockIn(small, big, off, pos, vs);
    var r := ProbabilityBlock(small, pos, vs);
    if r.Success? {
      var w := r.value.width;
      ScanFromIn(small, big, off, pos + w, vs, id);
      assert off + pos + w == off + (pos + w);
      SameBlockSameRest(big, off + pos, small, pos, vs, id, w);
    }
  }

  /** The walk after a `probability` keyword gives the same outcome at two
      positions when the block, of width `w`, and the rest after it do. */
  lemma SameBlockSameRest(ts1: seq<string>, p1: nat, ts2: seq<string>, p2: nat, vs: seq<Var>, id: int, w: nat)
    requires ProbabilityBlock(ts1, p1, vs) == ProbabilityBlock(ts2, p2, vs)
    requires ProbabilityBlock(ts2, p2, vs).Success? && ProbabilityBlock(ts2, p2, vs).value.width == w
    requires ScanFrom(ts1, p1 + w, vs, id) == ScanFrom(ts2, p2 + w, vs, id)
    ensures ScanProbability(ts1, p1, vs, id) == ScanProbability(ts2, p2, vs, id)
  {
  }

  // ---------------------------------------------------------------------
  // Files made of probability blocks only

  /** A stream of consecutive probability blocks, each introduced by its
      keyword. */
  function ProbabilityBlocks(bs: seq<seq<string>>): seq<string>
    decreases |bs|
  {
    if |bs| == 0 then [] else [ProbabilityKeyword] + bs[0] + ProbabilityBlocks(bs[1..])
  }

  /** The first block of such a stream, and the stream after it. */
  lemma BlocksSplit(bs: seq<seq<string>>)
    requires |bs| > 0
    ensures var all := ProbabilityBlocks(bs);
      && |all| == 1 + |bs[0]| + |ProbabilityBlocks(bs[1..])|
      && all[0] == ProbabilityKeyword
      && Embeds(all, 1, bs[0])
      && Embeds(all, 1 + |bs[0]|, ProbabilityBlocks(bs[1..]))
  {
    var head := [ProbabilityKeyword] + bs[0];
    var tail := ProbabilityBlocks(bs[1..]);
    assert ProbabilityBlocks(bs) == head + tail;
    EmbedsInConcat(head, tail);
    EmbedsAfterFirst(bs[0]);
    EmbedsTransitive(head + tail, 0, head, 1, bs[0]);
  }

  /** Both parts of a concatenation are embedded in it. */
  lemma EmbedsInConcat(a: seq<string>, b: seq<string>)
    ensures Embeds(a + b, 0, a) && Embeds(a + b, |a|, b)
  {
  }

  lemma EmbedsAfterFirst(s: seq<string>)
    ensures Embeds([ProbabilityKeyword] + s, 1, s)
  {
  }

  lemma EmbedsTransitive(c: seq<string>, i: nat, b: seq<string>, j: nat, a: seq<string>)
    requires Embeds(c, i, b) && Embeds(b, j, a)
    ensures Embeds(c, i + j, a)
  {
    forall k | 0 <= k < |a| ensures c[i + j + k] == a[k] {
      assert c[i + (j + k)] == b[j + k];
    }
  }

  /** `b` is exactly one probability block, after its keyword, that reads. */
  predicate WholeBlock(b: seq<string>, vs: seq<Var>) {
    var r := ProbabilityBlock(b, 0, vs);
    r.Success? && r.value.width == |b|
  }

  /** The blocks as read, in order. */
  function BlocksRead(bs: seq<seq<string>>, vs: seq<Var>): (blocks: seq<Block>)
    requires forall i :: 0 <= i < |bs| ==> WholeBlock(bs[i], vs)
    ensures |blocks| == |bs|
    decreases |bs|
  {
    if |bs| == 0 then []
    else
      assert WholeBlock(bs[0], vs);
      [ProbabilityBlock(bs[0], 0, vs).value] + BlocksRead(bs[1..], vs)
  }

  lemma {:induction false} BlocksReadPointwise(bs: seq<seq<string>>, vs: seq<Var>)
    requires forall i :: 0 <= i < |bs| ==> WholeBlock(bs[i], vs)
    ensures forall i :: 0 <= i < |bs| ==> BlocksRead(bs, vs)[i] == ProbabilityBlock(bs[i], 0, vs).value
    decreases |bs|
  {
    if |bs| > 0 {
      BlocksReadPointwise(bs[1..], vs);
      forall i | 1 <= i < |bs|
        ensures BlocksRead(bs, vs)[i] == ProbabilityBlock(bs[i], 0, vs).value
      {
        assert bs[1..][i - 1] == bs[i];
      }
    }
  }

  /** The walk over such a stream starts with the first block and continues
      with the walk over the rest. */
  lemma FirstBlock(bs: seq<seq<string>>, vs: seq<Var>, id: int)
    requires |bs| > 0 && WholeBlock(bs[0], vs)
    ensures var more := ScanFrom(ProbabilityBlocks(bs[1..]), 0, vs, id);
      ScanFrom(ProbabilityBlocks(bs), 0, vs, id)
        == Scanned([ProbabilityBlock(bs[0], 0, vs).value] + more.blocks, more.vars, more.nextId, more.stop)
  {
    var all := ProbabilityBlocks(bs);
    var blk := ProbabilityBlock(bs[0], 0, vs).value;
    HeadBlockIn(bs, vs);
    TailIn(bs, vs, id);
    AtProbabilityKeyword(all, 0, vs, id);
    KnownBlock(all, 1, vs, id, blk);
  }

  /** The first block reads the same inside the stream. */
  lemma HeadBlockIn(bs: seq<seq<string>>, vs: seq<Var>)
    requires |bs| > 0
    ensures |ProbabilityBlocks(bs)| > 0 && ProbabilityBlocks(bs)[0] == ProbabilityKeyword
    ensures ProbabilityBlock(bs[0], 0, vs).Success? ==>
      ProbabilityBlock(ProbabilityBlocks(bs), 1, vs) == ProbabilityBlock(bs[0], 0, vs)
  {
    BlocksSplit(bs);
    BlockAfterKeyword(ProbabilityBlocks(bs), bs[0], vs);
  }

  lemma BlockAfterKeyword(all: seq<string>, head: seq<string>, vs: seq<Var>)
    requires Embeds(all, 1, head)
    ensures ProbabilityBlock(head, 0, vs).Success? ==> ProbabilityBlock(all, 1, vs) == ProbabilityBlock(head, 0, vs)
  {
    ProbabilityBlockIn(head, all, 1, 0, vs);
  }

  /** The walk after the first block is the walk over the other blocks. */
  lemma TailIn(bs: seq<seq<string>>, vs: seq<Var>, id: int)
    requires |bs| > 0
    ensures ScanFrom(ProbabilityBlocks(bs), 1 + |bs[0]|, vs, id) == ScanFrom(ProbabilityBlocks(bs[1..]), 0, vs, id)
  {
    BlocksSplit(bs);
    WalkOverSuffix(ProbabilityBlocks(bs), ProbabilityBlocks(bs[1..]), 1 + |bs[0]|, vs, id);
  }

  lemma WalkOverSuffix(all: seq<string>, tail: seq<string>, off: nat, vs: seq<Var>, id: int)
    requires Embeds(all, off, tail) && off + |tail| == |all|
    ensures ScanFrom(all, off, vs, id) == ScanFrom(tail, 0, vs, id)
  {
    ScanFromIn(tail, all, off, 0, vs, id);
  }

  lemma AtProbabilityKeyword(ts: seq<string>, pos: nat, vs: seq<Var>, id: int)
    requires pos < |ts| && ts[pos] == ProbabilityKeyword
    ensures ScanFrom(ts, pos, vs, id) == ScanProbability(ts, pos + 1, vs, id)
  {
  }

  /** The walk after a block that reads: the block, then the rest. */
  lemma KnownBlock(ts: seq<string>, pos: nat, vs: seq<Var>, id: int, blk: Block)
    requires ProbabilityBlock(ts, pos, vs) == Success(blk)
    ensures var more := ScanFrom(ts, pos + blk.width, vs, id);
      ScanProbability(ts, pos, vs, id) == Scanned([blk] + more.blocks, more.vars, more.nextId, more.stop)
  {
  }

  /** One block read per probability block, in file order, the registry
      and the id counter untouched, and the walk runs to the end. */
  lemma {:induction false} OnePerBlock(bs: seq<seq<string>>, vs: seq<Var>, id: int)
    requires forall i :: 0 <= i < |bs| ==> WholeBlock(bs[i], vs)
    ensures ScanFrom(ProbabilityBlocks(bs), 0, vs, id) == Scanned(BlocksRead(bs, vs), vs, id, None)
    decreases |bs|
  {
    if |bs| > 0 {
      FirstBlock(bs, vs, id);
      OnePerBlock(bs[1..], vs, id);
    }
  }

  /** Parsing such a file yields one factor per block, in order, and keeps
      the registry, exactly when every block's factor builds. */
  lemma OneFactorPerBlock(bs: seq<seq<string>>, vs: seq<Var>, conv: Convention)
    requires forall i :: 0 <= i < |bs| ==> WholeBlock(bs[i], vs)
    ensures Parse(ProbabilityBlocks(bs), vs, conv).Success? <==>
      forall i :: 0 <= i < |bs| ==> FactorOf(BlocksRead(bs, vs)[i], conv).Success?
    ensures var r := Parse(ProbabilityBlocks(bs), vs, conv);
      r.Success? ==> (r.value.1 == vs && |r.value.0| == |bs|
        && forall i :: 0 <= i < |bs| ==> Success(r.value.0[i]) == FactorOf(BlocksRead(bs, vs)[i], conv))
  {
    var s := Scanned(BlocksRead(bs, vs), vs, MaxId(vs) + 1, None);
    OnePerBlock(bs, vs, MaxId(vs) + 1);
    ParseIsAssemble(ProbabilityBlocks(bs), vs, conv, s);
    AssembleOutcome(s, conv);
  }
}
