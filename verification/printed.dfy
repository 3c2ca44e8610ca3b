/** Lines of numbers as `fmt.Fprintf(w, "%v ", x)` prints them, and
    reading them back. */
module Printed {
  import opened Results
  import opened Text
  import opened Registry

  /** The ids of a scope, in scope order. */
  function ScopeIds(scope: seq<Var>): (ids: seq<int>)
    ensures |ids| == |scope|
    ensures forall j :: 0 <= j < |scope| ==> ids[j] == scope[j].id
  {
    seq(|scope|, j requires 0 <= j < |scope| => scope[j].id)
  }

  /** Each number printed with `%v` and a space. */
  function Numbers(xs: seq<int>): string {
    Spaced(seq(|xs|, j requires 0 <= j < |xs| => Itoa(xs[j])))
  }

  /** Every token as an integer, if each is one. */
  function ReadInts(toks: seq<string>): Option<seq<int>> {
    MapAll(toks, Atoi)
  }

  /** Printed numbers read back as themselves. */
  lemma NumbersRead(xs: seq<int>)
    ensures ReadInts(Fields(Numbers(xs))) == Some(xs)
  {
    var toks := seq(|xs|, j requires 0 <= j < |xs| => Itoa(xs[j]));
    forall j | 0 <= j < |xs| ensures IsWord(toks[j]) && Atoi(toks[j]) == Some(xs[j]) {
      ItoaIsToken(xs[j]);
      AtoiItoa(xs[j]);
    }
    FieldsOfSpaced(toks);
    MapAllOf(toks, Atoi, xs);
  }

  lemma ConcatAt<T>(a: seq<T>, b: seq<T>, k: nat)
    requires k < |b|
    ensures (a + b)[|a| + k] == b[k]
  {
  }
}
