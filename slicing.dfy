/**
 * Cutting an id list into consecutive pieces. The crawler does it twice: `getScoresForDocs`
 * cuts the list into memory partitions with a counted loop (Crawler.js lines 179-182), and
 * `findOutlinks` / `_getScoresForDocs` cut it into one chunk per worker with a `reduce` that
 * sends index `i` to chunk `floor(i / ceil(n / numWorkers))` (lines 122-128 and 213-219).
 * Both produce `Slices` of the list.
 */
module Slicing {
  import opened Sequences

  /** `s` cut into consecutive pieces of `size` elements; only the last may be shorter. */
  function Slices<T>(s: seq<T>, size: nat): seq<seq<T>>
    requires size > 0
    decreases |s|
  {
    if |s| == 0 then []
    else if |s| <= size then [s]
    else [s[..size]] + Slices(s[size..], size)
  }

  lemma DivStep(a: nat, size: nat)
    requires size > 0 && a >= size
    ensures (a - size) / size + 1 == a / size
    ensures (a - size) % size == a % size
  {
    var q, r := (a - size) / size, (a - size) % size;
    assert a - size == q * size + r;
    assert a == (q + 1) * size + r;
    DivUnique(a, size, q + 1, r);
  }

  lemma {:induction false} MulAtLeast(d: int, size: nat)
    requires d >= 1
    ensures d * size >= size
    decreases d
  {
    if d > 1 {
      MulAtLeast(d - 1, size);
      assert d * size == (d - 1) * size + size;
    }
  }

  /** Euclidean division is determined by its quotient-remainder decomposition. */
  lemma DivUnique(a: int, size: nat, q: int, r: int)
    requires size > 0 && 0 <= r < size && a == q * size + r
    ensures a / size == q && a % size == r
  {
    var q', r' := a / size, a % size;
    assert (q - q') * size == r' - r;
    if q > q' {
      MulAtLeast(q - q', size);
      assert false;
    } else if q < q' {
      MulAtLeast(q' - q, size);
      assert false;
    }
  }

  /** The pieces cover `s` in order, each holds between one and `size` elements, all but the
      last exactly `size`, and there are `ceil(|s| / size)` of them. */
  lemma {:induction false} SlicesSpec<T>(s: seq<T>, size: nat)
    requires size > 0
    ensures Flatten(Slices(s, size)) == s
    ensures forall i :: 0 <= i < |Slices(s, size)| ==> 0 < |Slices(s, size)[i]| <= size
    ensures forall i :: 0 <= i < |Slices(s, size)| - 1 ==> |Slices(s, size)[i]| == size
    ensures |Slices(s, size)| == (|s| + size - 1) / size
    decreases |s|
  {
    if |s| == 0 {
      DivUnique(size - 1, size, 0, size - 1);
    } else if |s| <= size {
      DivUnique(|s| + size - 1, size, 1, |s| - 1);
    } else {
      SlicesSpec(s[size..], size);
      DivStep(|s| + size - 1, size);
      assert s[..size] + s[size..] == s;
    }
  }

  /** Element `i` of `s` is element `i % size` of piece `i / size`: the index rule of the
      crawler's chunking `reduce`. */
  lemma {:induction false} SlicesIndex<T>(s: seq<T>, size: nat, i: nat)
    requires size > 0 && i < |s|
    ensures i / size < |Slices(s, size)|
    ensures i % size < |Slices(s, size)[i / size]|
    ensures Slices(s, size)[i / size][i % size] == s[i]
    decreases |s|
  {
    if i < size {
      DivUnique(i, size, 0, i);
    } else {
      DivStep(i, size);
      SlicesIndex(s[size..], size, i - size);
    }
  }

  /** The loop of `getScoresForDocs` (Crawler.js lines 179-182): `slice(i, i + max)` for
      `i = 0, max, 2 * max, ...` while `i` is below the length. With `max == 0` and a non-empty
      list the loop never ends, so callers must configure a positive maximum. */
  method Partition<T>(ids: seq<T>, max: nat) returns (parts: seq<seq<T>>)
    requires max > 0 || |ids| == 0
    ensures parts == if |ids| == 0 then [] else Slices(ids, max)
  {
    parts := [];
    var i := 0;
    while i < |ids|
      invariant i < |ids| ==> parts + Slices(ids[i..], max) == Slices(ids, max)
      invariant |ids| <= i ==> parts == if |ids| == 0 then [] else Slices(ids, max)
      decreases |ids| - i
    {
      var end := if i + max < |ids| then i + max else |ids|;
      if |ids| - i > max {
        assert ids[i..][..max] == ids[i..end];
        assert ids[i..][max..] == ids[end..];
      }
      if |ids| - i <= max {
        assert ids[i..end] == ids[i..];
      }
      parts := parts + [ids[i..end]];
      i := i + max;
    }
  }

  /** `Math.ceil(n / workers)`, for a positive worker count. */
  function ChunkSize(n: nat, workers: nat): (size: nat)
    requires workers > 0
    ensures n > 0 ==> size > 0
  {
    if n == 0 then 0
    else
      DivUnique(n + workers - 1, workers, (n + workers - 1) / workers, (n + workers - 1) % workers);
      (n + workers - 1) / workers
  }

  /** `Math.floor(index / chunkSize)`. With no workers `chunkSize` is `Infinity`, which sends
      every index to chunk 0. */
  function ChunkIndex(index: nat, n: nat, workers: nat): nat
    requires index < n
  {
    if workers == 0 then 0 else index / ChunkSize(n, workers)
  }

  /** `acc[k].push(x)` after `if (!acc[k]) acc[k] = []`. Only `k <= |acc|` occurs (see
      `ChunksAreSlices`), so the array never gets holes. */
  function Place<T>(acc: seq<seq<T>>, k: nat, x: T): seq<seq<T>>
  {
    if k < |acc| then acc[k := acc[k] + [x]] else acc + [[x]]
  }

  /** The `reduce` over the first `m` ids. */
  function ReduceChunks<T>(ids: seq<T>, m: nat, workers: nat): seq<seq<T>>
    requires m <= |ids|
  {
    if m == 0 then []
    else Place(ReduceChunks(ids, m - 1, workers), ChunkIndex(m - 1, |ids|, workers), ids[m - 1])
  }

  /** The chunks `findOutlinks` and `_getScoresForDocs` hand to the workers. */
  function Chunks<T>(ids: seq<T>, workers: nat): seq<seq<T>>
  {
    ReduceChunks(ids, |ids|, workers)
  }

  lemma {:induction false} PlaceAfterHead<T>(h: seq<T>, rest: seq<seq<T>>, k: nat, x: T)
    ensures Place([h] + rest, k + 1, x) == [h] + Place(rest, k, x)
  {
  }

  /** Appending one element to `t` puts it in the piece the index rule names. */
  lemma {:induction false} SlicesSnoc<T>(t: seq<T>, x: T, size: nat)
    requires size > 0
    ensures Slices(t + [x], size) == Place(Slices(t, size), |t| / size, x)
    decreases |t|
  {
    if |t| == 0 {
      assert t + [x] == [x];
      DivUnique(0, size, 0, 0);
    } else if |t| < size {
      DivUnique(|t|, size, 0, |t|);
    } else if |t| == size {
      DivUnique(size, size, 1, 0);
      assert (t + [x])[..size] == t;
      assert (t + [x])[size..] == [x];
    } else {
      DivStep(|t|, size);
      assert (t + [x])[..size] == t[..size];
      assert (t + [x])[size..] == t[size..] + [x];
      SlicesSnoc(t[size..], x, size);
      PlaceAfterHead(t[..size], Slices(t[size..], size), (|t| - size) / size, x);
    }
  }

  lemma {:induction false} ReducePrefix<T>(ids: seq<T>, m: nat, workers: nat)
    requires workers > 0 && 0 < |ids| && m <= |ids|
    ensures ReduceChunks(ids, m, workers) == Slices(ids[..m], ChunkSize(|ids|, workers))
  {
    if m > 0 {
      ReducePrefix(ids, m - 1, workers);
      assert ids[..m] == ids[..m - 1] + [ids[m - 1]];
      SlicesSnoc(ids[..m - 1], ids[m - 1], ChunkSize(|ids|, workers));
    }
  }

  /** With at least one worker the `reduce` yields exactly the pieces of size `ceil(n / workers)`. */
  lemma ChunksAreSlices<T>(ids: seq<T>, workers: nat)
    requires workers > 0 && |ids| > 0
    ensures Chunks(ids, workers) == Slices(ids, ChunkSize(|ids|, workers))
  {
    ReducePrefix(ids, |ids|, workers);
    assert ids[..|ids|] == ids;
  }

  /** With no workers every id lands in chunk 0. */
  lemma {:induction false} ChunksWithoutWorkers<T>(ids: seq<T>, m: nat)
    requires 0 < m <= |ids|
    ensures ReduceChunks(ids, m, 0) == [ids[..m]]
  {
    if m > 1 {
      ChunksWithoutWorkers(ids, m - 1);
      assert ids[..m] == ids[..m - 1] + [ids[m - 1]];
    } else {
      assert ids[..1] == [ids[0]];
    }
  }

  lemma DivMonotone(a: nat, b: nat, size: nat)
    requires size > 0 && a <= b
    ensures a / size <= b / size
  {
    var qa, qb := a / size, b / size;
    assert a == qa * size + a % size && b == qb * size + b % size;
    if qa > qb {
      MulAtLeast(qa - qb, size);
      assert false;
    }
  }

  /** `ceil(n / ceil(n / workers)) <= workers`: there is never a chunk without a worker. */
  lemma ChunkCountFits(n: nat, workers: nat)
    requires n > 0 && workers > 0
    ensures (n + ChunkSize(n, workers) - 1) / ChunkSize(n, workers) <= workers
  {
    var size := ChunkSize(n, workers);
    var r := (n + workers - 1) % workers;
    DivUnique(n + workers - 1, workers, size, r);
    assert workers * size >= n;
    DivMonotone(n + size - 1, workers * size + size - 1, size);
    DivUnique(workers * size + size - 1, size, workers, size - 1);
  }

  /** The worker chunks: they concatenate back to the id list, every chunk but the last holds
      exactly `ceil(n / workers)` ids, none is empty, and there are at most `workers` of them,
      so `workers[index]` always exists. */
  lemma ChunksSpec<T>(ids: seq<T>, workers: nat)
    requires workers > 0
    ensures Flatten(Chunks(ids, workers)) == ids
    ensures forall i :: 0 <= i < |Chunks(ids, workers)| ==> |Chunks(ids, workers)[i]| > 0
    ensures forall i :: 0 <= i < |Chunks(ids, workers)| - 1 ==>
      |Chunks(ids, workers)[i]| == ChunkSize(|ids|, workers)
    ensures |Chunks(ids, workers)| <= workers
  {
    if |ids| > 0 {
      ChunksAreSlices(ids, workers);
      SlicesSpec(ids, ChunkSize(|ids|, workers));
      ChunkCountFits(|ids|, workers);
    }
  }
}
