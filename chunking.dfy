/**
 * Cutting the settlement outputs into payment messages: the loop
 * `for (i = 0, j = n; i < j; i += size) xs.slice(i, i + size)`, as a
 * function of the outputs and the chunk size, and the facts that make it a
 * partition.
 */
module Chunking {

  /** A chunk size; the loop only terminates when it steps by a positive amount. */
  type Pos = n: int | n > 0 witness 1

  function Min(a: int, b: int): int {
    if a <= b then a else b
  }

  /** `xs.slice(begin, end)` for non-negative bounds: bounds past the end are clamped to the length. */
  function Slice<T>(xs: seq<T>, begin: nat, end: nat): (r: seq<T>)
    ensures begin <= end <= |xs| ==> r == xs[begin..end]
    ensures begin <= |xs| <= end ==> r == xs[begin..]
    ensures |xs| <= begin ==> r == []
    ensures end <= begin ==> r == []
  {
    var b, e := Min(begin, |xs|), Min(end, |xs|);
    if e <= b then [] else xs[b..e]
  }

  /** The chunks the loop cuts once its index has reached `i`. */
  function ChunksFrom<T>(xs: seq<T>, size: Pos, i: nat): seq<seq<T>>
    decreases |xs| - i
  {
    if i >= |xs| then [] else [Slice(xs, i, i + size)] + ChunksFrom(xs, size, i + size)
  }

  /** All the chunks the loop cuts, in the order it submits them. */
  function Chunks<T>(xs: seq<T>, size: Pos): seq<seq<T>> {
    ChunksFrom(xs, size, 0)
  }

  function Flatten<T>(xss: seq<seq<T>>): seq<T> {
    if xss == [] then [] else xss[0] + Flatten(xss[1..])
  }

  lemma FlattenCons<T>(c: seq<T>, rest: seq<seq<T>>)
    ensures Flatten([c] + rest) == c + Flatten(rest)
  {
    assert ([c] + rest)[1..] == rest;
  }

  lemma SplitAt<T>(xs: seq<T>, i: nat, k: nat)
    requires i <= k <= |xs|
    ensures xs[i..] == xs[i..k] + xs[k..]
  {
  }

  lemma {:induction false} FlattenChunksFrom<T>(xs: seq<T>, size: Pos, i: nat)
    requires i <= |xs|
    ensures Flatten(ChunksFrom(xs, size, i)) == xs[i..]
    decreases |xs| - i
  {
    if i < |xs| {
      var c := Slice(xs, i, i + size);
      var rest := ChunksFrom(xs, size, i + size);
      FlattenCons(c, rest);
      if i + size <= |xs| {
        FlattenChunksFrom(xs, size, i + size);
        SplitAt(xs, i, i + size);
      } else {
        assert rest == [] && c == xs[i..];
      }
    }
  }

  /** The one step of multiplication the proofs below use. */
  lemma MulSucc(n: int, size: Pos)
    ensures (n + 1) * size == n * size + size
  {
  }

  lemma {:induction false} MulMonotone(x: nat, y: nat, size: Pos)
    requires x <= y
    ensures x * size <= y * size
    decreases y - x
  {
    if x < y {
      MulMonotone(x, y - 1, size);
      MulSucc(y - 1, size);
    }
  }

  /** Integer division is pinned down by the two multiples around the dividend. */
  lemma DivBetween(a: nat, size: Pos, q: nat)
    requires q * size <= a < q * size + size
    ensures a / size == q
  {
    var r := a / size;
    assert a == r * size + a % size;
    if r > q {
      MulMonotone(q + 1, r, size);
      assert false;
    } else if r < q {
      MulMonotone(r + 1, q, size);
      assert false;
    }
  }

  /** The loop runs once per started window of `size` outputs. */
  lemma {:induction false} ChunksFromCount<T>(xs: seq<T>, size: Pos, i: nat)
    requires i <= |xs|
    ensures (|ChunksFrom(xs, size, i)| - 1) * size < |xs| - i <= |ChunksFrom(xs, size, i)| * size
    decreases |xs| - i
  {
    if i < |xs| {
      var rest := ChunksFrom(xs, size, i + size);
      assert |ChunksFrom(xs, size, i)| == 1 + |rest|;
      if i + size <= |xs| {
        ChunksFromCount(xs, size, i + size);
        MulSucc(|rest|, size);
        MulSucc(|rest| - 1, size);
      } else {
        assert rest == [];
      }
    }
  }

  lemma {:induction false} ChunksFromAt<T>(xs: seq<T>, size: Pos, i: nat, j: nat)
    requires j < |ChunksFrom(xs, size, i)|
    ensures 0 <= j * size && i + j * size < |xs|
    ensures ChunksFrom(xs, size, i)[j] == xs[i + j * size..Min(i + j * size + size, |xs|)]
    decreases j
  {
    var cs := ChunksFrom(xs, size, i);
    assert i < |xs|;
    if j > 0 {
      var rest := ChunksFrom(xs, size, i + size);
      assert cs[j] == rest[j - 1];
      ChunksFromAt(xs, size, i + size, j - 1);
      MulSucc(j - 1, size);
    } else {
      assert cs[0] == Slice(xs, i, i + size);
    }
  }

  /** There are ceil(n / size) chunks, none for an empty list. */
  lemma ChunksCount<T>(xs: seq<T>, size: Pos)
    ensures |Chunks(xs, size)| == (|xs| + size - 1) / size
    ensures xs == [] <==> Chunks(xs, size) == []
  {
    var cs := Chunks(xs, size);
    ChunksFromCount(xs, size, 0);
    if xs == [] {
      DivBetween(|xs| + size - 1, size, 0);
    } else {
      MulSucc(|cs| - 1, size);
      DivBetween(|xs| + size - 1, size, |cs|);
    }
  }

  /** Chunk `j` is the `j`-th window of `size` outputs; all are full but the last, which is not empty. */
  lemma ChunksWindows<T>(xs: seq<T>, size: Pos)
    ensures forall j :: 0 <= j < |Chunks(xs, size)| ==>
      0 <= j * size < |xs| && Chunks(xs, size)[j] == xs[j * size..Min(j * size + size, |xs|)]
    ensures forall j :: 0 <= j < |Chunks(xs, size)| ==>
      0 < |Chunks(xs, size)[j]| <= size && (j < |Chunks(xs, size)| - 1 ==> |Chunks(xs, size)[j]| == size)
  {
    var cs := Chunks(xs, size);
    forall j | 0 <= j < |cs|
      ensures 0 <= j * size < |xs| && cs[j] == xs[j * size..Min(j * size + size, |xs|)]
      ensures 0 < |cs[j]| <= size && (j < |cs| - 1 ==> |cs[j]| == size)
    {
      ChunkWindow(xs, size, j);
    }
  }

  lemma ChunkWindow<T>(xs: seq<T>, size: Pos, j: nat)
    requires j < |Chunks(xs, size)|
    ensures 0 <= j * size < |xs| && Chunks(xs, size)[j] == xs[j * size..Min(j * size + size, |xs|)]
    ensures 0 < |Chunks(xs, size)[j]| <= size
    ensures j < |Chunks(xs, size)| - 1 ==> |Chunks(xs, size)[j]| == size
  {
    ChunksFromAt(xs, size, 0, j);
    if j < |Chunks(xs, size)| - 1 {
      ChunksFromAt(xs, size, 0, j + 1);
      MulSucc(j, size);
    }
  }

  /** A position below n <= c * size lies in one of the first c windows. */
  lemma WindowInRange(n: nat, size: Pos, c: nat, p: nat)
    requires n <= c * size && p < n
    ensures p / size < c
  {
    var j := p / size;
    if j >= c {
      MulMonotone(c, j, size);
      assert false;
    }
  }

  lemma ChunkIndexInRange<T>(xs: seq<T>, size: Pos, p: nat)
    requires p < |xs|
    ensures p / size < |Chunks(xs, size)|
  {
    ChunksFromCount(xs, size, 0);
    WindowInRange(|xs|, size, |Chunks(xs, size)|, p);
  }

  lemma DivMod(p: nat, size: Pos)
    ensures p == p / size * size + p % size && 0 <= p % size < size
  {
  }

  lemma ChunkOfPosition<T>(xs: seq<T>, size: Pos, p: nat)
    requires p < |xs|
    ensures 0 <= p / size < |Chunks(xs, size)| && 0 <= p % size < |Chunks(xs, size)[p / size]|
    ensures Chunks(xs, size)[p / size][p % size] == xs[p]
  {
    var j, k := p / size, p % size;
    DivMod(p, size);
    ChunkIndexInRange(xs, size, p);
    ChunkElement(xs, size, j, k);
  }

  lemma ChunkElement<T>(xs: seq<T>, size: Pos, j: nat, k: nat)
    requires j < |Chunks(xs, size)| && k < size && j * size + k < |xs|
    ensures k < |Chunks(xs, size)[j]| && Chunks(xs, size)[j][k] == xs[j * size + k]
  {
    ChunksFromAt(xs, size, 0, j);
    WindowElement(xs, Chunks(xs, size)[j], j * size, size, k);
  }

  lemma WindowElement<T>(xs: seq<T>, window: seq<T>, b: nat, size: Pos, k: nat)
    requires b < |xs| && window == xs[b..Min(b + size, |xs|)]
    requires k < size && b + k < |xs|
    ensures k < |window| && window[k] == xs[b + k]
  {
  }

  /** Output `p` is at position `p % size` of chunk `p / size`. */
  lemma ChunksPositions<T>(xs: seq<T>, size: Pos)
    ensures forall p :: 0 <= p < |xs| ==>
      0 <= p / size < |Chunks(xs, size)| && 0 <= p % size < |Chunks(xs, size)[p / size]|
      && Chunks(xs, size)[p / size][p % size] == xs[p]
  {
    forall p | 0 <= p < |xs|
      ensures 0 <= p / size < |Chunks(xs, size)| && 0 <= p % size < |Chunks(xs, size)[p / size]|
      ensures Chunks(xs, size)[p / size][p % size] == xs[p]
    {
      ChunkOfPosition(xs, size, p);
    }
  }

  /**
   * The chunks partition the outputs: they concatenate back to the list,
   * chunk `j` is the `j`-th window of `size` outputs, every chunk holds
   * between 1 and `size` outputs and only the last may hold fewer, output
   * `p` lies in chunk `p / size` and nowhere else, and there are
   * ceil(n / size) chunks, none for an empty list.
   */
  lemma ChunksPartition<T>(xs: seq<T>, size: Pos)
    ensures Flatten(Chunks(xs, size)) == xs
    ensures |Chunks(xs, size)| == (|xs| + size - 1) / size
    ensures xs == [] <==> Chunks(xs, size) == []
    ensures forall j :: 0 <= j < |Chunks(xs, size)| ==>
      0 <= j * size < |xs| && Chunks(xs, size)[j] == xs[j * size..Min(j * size + size, |xs|)]
    ensures forall j :: 0 <= j < |Chunks(xs, size)| ==>
      0 < |Chunks(xs, size)[j]| <= size && (j < |Chunks(xs, size)| - 1 ==> |Chunks(xs, size)[j]| == size)
    ensures forall p :: 0 <= p < |xs| ==>
      0 <= p / size < |Chunks(xs, size)| && 0 <= p % size < |Chunks(xs, size)[p / size]|
      && Chunks(xs, size)[p / size][p % size] == xs[p]
  {
    FlattenChunksFrom(xs, size, 0);
    ChunksCount(xs, size);
    ChunksWindows(xs, size);
    ChunksPositions(xs, size);
  }

  /**
   * 2 * (size + 1) + 1 outputs, with `size` one less than the per-message
   * limit, go out in three messages of size, size and 3 outputs.
   */
  lemma ThreeMessages<T>(xs: seq<T>, size: Pos)
    requires size >= 3 && |xs| == 2 * (size + 1) + 1
    ensures |Chunks(xs, size)| == 3
    ensures |Chunks(xs, size)[0]| == size && |Chunks(xs, size)[1]| == size && |Chunks(xs, size)[2]| == 3
  {
    ChunksCount(xs, size);
    ChunksWindows(xs, size);
    assert (|xs| + size - 1) / size == 3 by {
      assert |xs| + size - 1 == 3 * size + 2;
    }
    assert Chunks(xs, size)[2] == xs[2 * size..Min(2 * size + size, |xs|)];
  }
}
