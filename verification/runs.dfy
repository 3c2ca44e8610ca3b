/** Runs laid one after another: a list of blocks written back to back, and
    a reader that takes a given number of runs off the head of the input,
    each run telling how long it was. The factor-graph blocks and the rows
    of a MAR line are read this way. */
module Runs {
  import opened Results

  /** The blocks one after another. */
  function Concat<S>(blocks: seq<seq<S>>): (xs: seq<S>)
    decreases |blocks|
  {
    if |blocks| == 0 then [] else blocks[0] + Concat(blocks[1..])
  }

  /** `n` runs read by `read`, which reads one run at the head of its input
      and returns it with its length; what follows the last run is not
      looked at. */
  function ReadRuns<S, T>(xs: seq<S>, n: nat, read: seq<S> -> Option<(T, nat)>): (r: Option<seq<T>>)
    ensures r.Some? ==> |r.value| == n
    decreases n
  {
    if n == 0 then Some([])
    else
      var p :- read(xs);
      if |xs| < p.1 then None
      else
        var rest :- ReadRuns(xs[p.1..], n - 1, read);
        Some([p.0] + rest)
  }

  /** The blocks from `i` on start with block `i`. */
  lemma ConcatFrom<S>(blocks: seq<seq<S>>, i: nat)
    requires i < |blocks|
    ensures Concat(blocks[i..]) == blocks[i] + Concat(blocks[i + 1..])
  {
    assert blocks[i..][1..] == blocks[i + 1..];
  }

  /** When `read` takes each block, followed by the blocks after it, as the
      run `us[i]` of exactly that block's length, the runs read back as `us`. */
  lemma {:induction false} ReadRunsConcat<S, T>(blocks: seq<seq<S>>, read: seq<S> -> Option<(T, nat)>, us: seq<T>)
    requires |us| == |blocks|
    requires forall i :: 0 <= i < |blocks| ==> read(Concat(blocks[i..])) == Some((us[i], |blocks[i]|))
    ensures ReadRuns(Concat(blocks), |blocks|, read) == Some(us)
    decreases |blocks|
  {
    if |blocks| > 0 {
      var xs, tail := Concat(blocks), blocks[1..];
      assert read(xs) == Some((us[0], |blocks[0]|)) by { assert blocks[0..] == blocks; }
      assert |blocks[0]| <= |xs| && xs[|blocks[0]|..] == Concat(tail) by {
        assert xs == blocks[0] + Concat(tail);
      }
      assert ReadRuns(Concat(tail), |tail|, read) == Some(us[1..]) by {
        forall i | 0 <= i < |tail| ensures read(Concat(tail[i..])) == Some((us[1..][i], |tail[i]|)) {
          assert tail[i..] == blocks[i + 1..];
        }
        ReadRunsConcat(tail, read, us[1..]);
      }
      assert us == [us[0]] + us[1..];
    }
  }

  /** Every element of the blocks laid one after another comes from one of
      the blocks. */
  lemma {:induction false} ConcatIn<S>(blocks: seq<seq<S>>, x: S)
    requires x in Concat(blocks)
    ensures exists i, j :: 0 <= i < |blocks| && 0 <= j < |blocks[i]| && blocks[i][j] == x
    decreases |blocks|
  {
    if x in blocks[0] {
      var j :| 0 <= j < |blocks[0]| && blocks[0][j] == x;
      assert blocks[0][j] == x;
    } else {
      ConcatIn(blocks[1..], x);
      var i, j :| 0 <= i < |blocks[1..]| && 0 <= j < |blocks[1..][i]| && blocks[1..][i][j] == x;
      assert blocks[i + 1][j] == x;
    }
  }

  /** Blocks of one width `w` laid one after another take `w` elements
      each. */
  lemma {:induction false} ConcatFixedLength<S>(blocks: seq<seq<S>>, w: nat)
    requires forall i :: 0 <= i < |blocks| ==> |blocks[i]| == w
    ensures |Concat(blocks)| == w * |blocks|
    decreases |blocks|
  {
    if |blocks| > 0 {
      ConcatFixedLength(blocks[1..], w);
      assert w * |blocks| == w + w * (|blocks| - 1);
    }
  }

  /** Element `j` of block `i` sits at `w * i + j`. */
  lemma {:induction false} ConcatFixedAt<S>(blocks: seq<seq<S>>, w: nat, i: nat, j: nat)
    requires forall k :: 0 <= k < |blocks| ==> |blocks[k]| == w
    requires i < |blocks| && j < w
    ensures w * i + j < |Concat(blocks)| && Concat(blocks)[w * i + j] == blocks[i][j]
    decreases i
  {
    ConcatFixedLength(blocks, w);
    MulStep(w, i, |blocks|);
    if i > 0 {
      ConcatFixedAt(blocks[1..], w, i - 1, j);
      assert w * i + j == w + (w * (i - 1) + j);
    }
  }

  /** `w * i + w <= w * n` when `i < n`. */
  lemma MulStep(w: nat, i: nat, n: nat)
    requires i < n
    ensures w * i + w <= w * n
  {
    var m: int := i + 1;
    assert m * w <= n * w;
    assert m * w == w * i + w;
  }

  /** The same, with anything before and after the blocks: element `j`
      of block `i` is element `|pre| + w * i + j` of the whole. */
  lemma FixedBlockAt<S>(xs: seq<S>, pre: seq<S>, blocks: seq<seq<S>>, post: seq<S>, w: nat, i: nat, j: nat, k: nat)
    requires xs == pre + Concat(blocks) + post
    requires forall b :: 0 <= b < |blocks| ==> |blocks[b]| == w
    requires i < |blocks| && j < w && k == |pre| + w * i + j
    ensures k < |xs| && xs[k] == blocks[i][j]
  {
    ConcatFixedAt(blocks, w, i, j);
  }
}
