/** The frame renderer of one child process: `compute_image`, its per-thread
    stripe pass `compute_image_thread`, and the child's allocate-fill-compute
    sequence.

    The image is an `array2<int>` indexed `img[i, j]` with `i` the column
    (`0 <= i < width`) and `j` the row (`0 <= j < height`), the order of the
    source's `setPixelCOLOR(img, i, j, colour)`. Each pass also returns, as a
    ghost sequence, the cells it wrote in the order it wrote them, so that
    "every cell is written exactly once and every write is inside the grid"
    can be stated.

    Worker threads are modelled as their stripe passes run one after another,
    in an order given by a `schedule` parameter: the stripes are disjoint, so
    any interleaving of the threads' writes has the effect of some such order.
 */
module Partition {

  import opened Arith
  import opened Color
  import opened Escape

  /** The integer part of the descriptor each worker thread receives
      (`thread_par`); the image handle and the plane bounds are left out. */
  datatype ThreadPar = ThreadPar(width: int, height: int, tid: int, numThreads: int, max: int)

  /** What the renderer computes per pixel, kept abstract: `plane(i, j)` is
      the point of the fractal plane for pixel (i, j), `step` and `bounded`
      are the recurrence and the magnitude test of the escape-time kernel. */
  datatype Kernel<!P> = Kernel(plane: (int, int) -> P, step: (P, P) -> P, bounded: P -> bool)

  /** The colour the renderer gives pixel (i, j): the corrected colour ramp
      of the pixel's escape time, a 24-bit value. */
  function PixelColor<P>(k: Kernel<P>, max: int, i: int, j: int): (c: int)
    requires max != 0
    ensures max > 0 ==> 0 <= c <= MaxColor
  {
    var z0 := k.plane(i, j);
    EscapeTimeIsFirst(k.step, k.bounded, z0, max);
    IterationToColor(EscapeTime(k.step, k.bounded, z0, max), max)
  }

  predicate InGrid(c: (int, int), width: int, height: int)
  {
    0 <= c.0 < width && 0 <= c.1 < height
  }

  /** No cell occurs twice in a write log. */
  predicate Distinct(s: seq<(int, int)>)
  {
    forall p, q :: 0 <= p < q < |s| ==> s[p] != s[q]
  }

  /** A permutation of the thread ids `0 .. n-1`: one order in which the
      workers' stripe passes may complete. */
  predicate IsSchedule(schedule: seq<int>, n: int)
  {
    |schedule| == n &&
    (forall p :: 0 <= p < |schedule| ==> 0 <= schedule[p] < n) &&
    (forall p, q :: 0 <= p < q < |schedule| ==> schedule[p] != schedule[q]) &&
    (forall t :: 0 <= t < n ==> t in schedule)
  }

  /** Column `a` belongs to the stripe of worker `tid` out of `n`. */
  predicate InStripe(a: int, tid: int, n: int)
  {
    n > 0 && a % n == tid
  }

  /** Between two consecutive columns of a stripe lies no other column of it. */
  lemma StripeGap(i: int, a: int, n: int)
    requires n > 0 && 0 <= i && i < a < i + n
    ensures a % n != i % n
  {
    var q, r := i / n, i % n;
    if r + (a - i) < n {
      DivUnique(a, n, q, r + (a - i));
    } else {
      DivUnique(a, n, q + 1, r + (a - i) - n);
    }
  }

  lemma NextInStripe(i: int, tid: int, n: int)
    requires 0 <= i && InStripe(i, tid, n)
    ensures InStripe(i + n, tid, n)
    ensures forall a :: i < a < i + n ==> !InStripe(a, tid, n)
  {
    forall a | i < a < i + n ensures !InStripe(a, tid, n) {
      StripeGap(i, a, n);
    }
    StripeStep(i, n);
  }

  /** Going one stripe width to the right stays in the same stripe. */
  lemma StripeStep(i: int, n: int)
    requires n > 0
    ensures (i + n) % n == i % n
  {
    DivUnique(i + n, n, i / n + 1, i % n);
  }

  /** `compute_image_thread`: worker `tid` visits every row and, in each row,
      the columns `tid, tid + numThreads, ...` below `width`. It writes exactly
      the cells whose column is `tid` modulo `numThreads`, each once, and no
      other cell; a worker whose `tid` is at least `width` writes nothing. */
  method ComputeImageThread<P>(img: array2<int>, args: ThreadPar, k: Kernel<P>)
    returns (ghost writes: seq<(int, int)>)
    requires img.Length0 == args.width && img.Length1 == args.height
    requires 0 <= args.tid < args.numThreads
    requires args.max != 0
    modifies img
    ensures forall i, j :: 0 <= i < img.Length0 && 0 <= j < img.Length1 ==>
      img[i, j] == if InStripe(i, args.tid, args.numThreads) then PixelColor(k, args.max, i, j)
                   else old(img[i, j])
    ensures forall p :: 0 <= p < |writes| ==>
      InGrid(writes[p], args.width, args.height) && InStripe(writes[p].0, args.tid, args.numThreads)
    ensures forall i, j ::
      (0 <= i < args.width && 0 <= j < args.height && InStripe(i, args.tid, args.numThreads)) ==>
      (i, j) in writes
    ensures Distinct(writes)
    ensures args.tid >= args.width ==> writes == []
  {
    var width, height, tid, n, max := args.width, args.height, args.tid, args.numThreads, args.max;
    writes := [];
    var j := 0;
    while j < height
      invariant 0 <= j <= height
      invariant forall a, b :: 0 <= a < width && 0 <= b < height ==>
        img[a, b] == if InStripe(a, tid, n) && b < j then PixelColor(k, max, a, b) else old(img[a, b])
      invariant forall p :: 0 <= p < |writes| ==>
        InGrid(writes[p], width, height) && InStripe(writes[p].0, tid, n) && writes[p].1 < j
      invariant forall a, b :: 0 <= a < width && 0 <= b < j && InStripe(a, tid, n) ==> (a, b) in writes
      invariant Distinct(writes)
      invariant tid >= width ==> writes == []
    {
      ghost var w := ComputeStripeRow(img, args, k, j);
      DistinctConcat(writes, w);
      writes := writes + w;
      j := j + 1;
    }
  }

  /** The inner loop of `compute_image_thread` for row `j`: the columns
      `tid, tid + numThreads, ...` below `width`, each written once. */
  method ComputeStripeRow<P>(img: array2<int>, args: ThreadPar, k: Kernel<P>, j: int)
    returns (ghost writes: seq<(int, int)>)
    requires img.Length0 == args.width && img.Length1 == args.height
    requires 0 <= args.tid < args.numThreads
    requires args.max != 0 && 0 <= j < args.height
    modifies img
    ensures forall a, b :: 0 <= a < img.Length0 && 0 <= b < img.Length1 ==>
      img[a, b] == if InStripe(a, args.tid, args.numThreads) && b == j then PixelColor(k, args.max, a, b)
                   else old(img[a, b])
    ensures forall p :: 0 <= p < |writes| ==>
      InGrid(writes[p], args.width, args.height) && InStripe(writes[p].0, args.tid, args.numThreads) &&
      writes[p].1 == j
    ensures forall a :: 0 <= a < args.width && InStripe(a, args.tid, args.numThreads) ==> (a, j) in writes
    ensures Distinct(writes)
    ensures args.tid >= args.width ==> writes == []
  {
    var width, tid, n, max := args.width, args.tid, args.numThreads, args.max;
    DivUnique(tid, n, 0, tid);
    writes := [];
    var i := tid;
    while i < width
      invariant tid <= i && InStripe(i, tid, n)
      invariant forall a, b :: 0 <= a < img.Length0 && 0 <= b < img.Length1 ==>
        img[a, b] == if (a, b) in writes then PixelColor(k, max, a, b) else old(img[a, b])
      invariant RowLog(writes, width, args.height, tid, n, j, i)
      decreases width - i
    {
      var iters := IterationsAtPoint(k.plane(i, j), max, k.step, k.bounded);
      img[i, j] := IterationToColor(iters, max);
      RowLogStep(writes, width, args.height, tid, n, j, i);
      writes := writes + [(i, j)];
      i := i + n;
    }
    RowLogExact(writes, width, args.height, tid, n, j, i);
  }

  /** The write log of a stripe pass over row `j` that has reached column
      `i`: stripe cells of row `j` left of `i`, all of them, each once. */
  ghost predicate RowLog(w: seq<(int, int)>, width: int, height: int, tid: int, n: int, j: int, i: int)
  {
    (forall p :: 0 <= p < |w| ==>
      InGrid(w[p], width, height) && InStripe(w[p].0, tid, n) && w[p].1 == j && w[p].0 < i) &&
    (forall a :: 0 <= a < width && InStripe(a, tid, n) && a < i ==> (a, j) in w) &&
    Distinct(w) && (tid >= width ==> w == [])
  }

  /** A finished row pass has written exactly the stripe cells of row `j`. */
  lemma RowLogExact(w: seq<(int, int)>, width: int, height: int, tid: int, n: int, j: int, i: int)
    requires RowLog(w, width, height, tid, n, j, i) && i >= width
    ensures forall a, b :: 0 <= a < width && 0 <= b < height ==>
      ((a, b) in w <==> InStripe(a, tid, n) && b == j)
  {
  }

  /** Writing cell (i, j) and moving one stripe width to the right. */
  lemma RowLogStep(w: seq<(int, int)>, width: int, height: int, tid: int, n: int, j: int, i: int)
    requires RowLog(w, width, height, tid, n, j, i)
    requires 0 <= tid <= i < width && InStripe(i, tid, n) && 0 <= j < height
    ensures RowLog(w + [(i, j)], width, height, tid, n, j, i + n) && InStripe(i + n, tid, n)
  {
    DistinctSnoc(w, (i, j));
    NextInStripe(i, tid, n);
  }

  lemma DistinctSnoc(s: seq<(int, int)>, c: (int, int))
    requires Distinct(s) && forall p :: 0 <= p < |s| ==> s[p] != c
    ensures Distinct(s + [c])
  {
  }

  /** Two write logs without a common cell join into one without repeats. */
  lemma DistinctConcat(s: seq<(int, int)>, u: seq<(int, int)>)
    requires Distinct(s) && Distinct(u)
    requires forall p, q :: 0 <= p < |s| && 0 <= q < |u| ==> s[p] != u[q]
    ensures Distinct(s + u)
  {
    forall p, q | 0 <= p < q < |s + u| ensures (s + u)[p] != (s + u)[q] {
      if q < |s| {
        assert (s + u)[p] == s[p] && (s + u)[q] == s[q];
      } else if p < |s| {
        assert (s + u)[p] == s[p] && (s + u)[q] == u[q - |s|];
      } else {
        assert (s + u)[p] == u[p - |s|] && (s + u)[q] == u[q - |s|];
      }
    }
  }

  /** The `num_threads <= 1` branch of `compute_image`: a row-major scan of
      the whole grid that writes every cell exactly once. */
  method ComputeSequential<P>(img: array2<int>, max: int, k: Kernel<P>)
    returns (ghost writes: seq<(int, int)>)
    requires max != 0
    modifies img
    ensures forall i, j :: 0 <= i < img.Length0 && 0 <= j < img.Length1 ==>
      img[i, j] == PixelColor(k, max, i, j)
    ensures forall p :: 0 <= p < |writes| ==> InGrid(writes[p], img.Length0, img.Length1)
    ensures forall i, j :: 0 <= i < img.Length0 && 0 <= j < img.Length1 ==> (i, j) in writes
    ensures Distinct(writes)
  {
    var width, height := img.Length0, img.Length1;
    writes := [];
    var j := 0;
    while j < height
      invariant 0 <= j <= height
      invariant forall a, b :: 0 <= a < width && 0 <= b < height ==>
        img[a, b] == if b < j then PixelColor(k, max, a, b) else old(img[a, b])
      invariant forall p :: 0 <= p < |writes| ==> InGrid(writes[p], width, height) && writes[p].1 < j
      invariant forall a, b :: 0 <= a < width && 0 <= b < j ==> (a, b) in writes
      invariant Distinct(writes)
    {
      var i := 0;
      while i < width
        invariant 0 <= i <= width
        invariant forall a, b :: 0 <= a < width && 0 <= b < height ==>
          img[a, b] == if b < j || (b == j && a < i) then PixelColor(k, max, a, b) else old(img[a, b])
        invariant forall p :: 0 <= p < |writes| ==>
          InGrid(writes[p], width, height) &&
          (writes[p].1 < j || (writes[p].1 == j && writes[p].0 < i))
        invariant forall a, b :: 0 <= a < width && (0 <= b < j || (b == j && a < i)) ==> (a, b) in writes
        invariant Distinct(writes)
      {
        var iters := IterationsAtPoint(k.plane(i, j), max, k.step, k.bounded);
        img[i, j] := IterationToColor(iters, max);
        DistinctSnoc(writes, (i, j));
        writes := writes + [(i, j)];
        i := i + 1;
      }
      j := j + 1;
    }
  }

  /** `compute_image`: with `numThreads <= 1` a sequential scan, otherwise one
      descriptor per thread id and one stripe pass per descriptor, the passes
      completing in the order `schedule`. Either way, and whatever the order,
      every cell ends up holding its pixel colour and is written exactly once. */
  method ComputeImage<P>(img: array2<int>, max: int, numThreads: int, k: Kernel<P>, schedule: seq<int>)
    returns (ghost writes: seq<(int, int)>)
    requires max != 0
    requires numThreads > 1 ==> IsSchedule(schedule, numThreads)
    modifies img
    ensures forall i, j :: 0 <= i < img.Length0 && 0 <= j < img.Length1 ==>
      img[i, j] == PixelColor(k, max, i, j)
    ensures forall p :: 0 <= p < |writes| ==> InGrid(writes[p], img.Length0, img.Length1)
    ensures forall i, j :: 0 <= i < img.Length0 && 0 <= j < img.Length1 ==> (i, j) in writes
    ensures Distinct(writes)
  {
    var width, height := img.Length0, img.Length1;
    if numThreads <= 1 {
      writes := ComputeSequential(img, max, k);
    } else {
      var n := numThreads;
      var args: seq<ThreadPar> := [];
      for t := 0 to n
        invariant |args| == t
        invariant forall s :: 0 <= s < t ==> args[s] == ThreadPar(width, height, s, n, max)
      {
        args := args + [ThreadPar(width, height, t, n, max)];
      }
      writes := [];
      for m := 0 to n
        invariant forall a, b :: 0 <= a < width && 0 <= b < height ==>
          img[a, b] == if a % n in schedule[..m] then PixelColor(k, max, a, b) else old(img[a, b])
        invariant forall p :: 0 <= p < |writes| ==>
          InGrid(writes[p], width, height) && writes[p].0 % n in schedule[..m]
        invariant forall a, b :: 0 <= a < width && 0 <= b < height && a % n in schedule[..m] ==>
          (a, b) in writes
        invariant Distinct(writes)
      {
        var t := schedule[m];
        assert schedule[..m + 1] == schedule[..m] + [t];
        assert t !in schedule[..m];
        ghost var w := ComputeImageThread(img, args[t], k);
        writes := writes + w;
      }
      assert schedule[..n] == schedule;
    }
  }

  /** The child process's work for one frame: allocate the raw image,
      fill it black, and compute it. */
  method RenderFrame<P>(width: nat, height: nat, max: int, numThreads: int, k: Kernel<P>,
                        schedule: seq<int>)
    returns (img: array2<int>, ghost writes: seq<(int, int)>)
    requires max != 0
    requires numThreads > 1 ==> IsSchedule(schedule, numThreads)
    ensures fresh(img) && img.Length0 == width && img.Length1 == height
    ensures forall i, j :: 0 <= i < width && 0 <= j < height ==> img[i, j] == PixelColor(k, max, i, j)
    ensures forall p :: 0 <= p < |writes| ==> InGrid(writes[p], width, height)
    ensures forall i, j :: 0 <= i < width && 0 <= j < height ==> (i, j) in writes
    ensures Distinct(writes)
  {
    img := new int[width, height]((i, j) => 0);
    writes := ComputeImage(img, max, numThreads, k, schedule);
  }
}
