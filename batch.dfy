/** The frame/batch loop of `main`: frames `0 .. MandelAmount-1` are admitted
    in batches of at most `maxProc` child processes; after each batch the
    parent waits for every child of the batch before it admits the next.

    `fork()` is modelled by a sequence of outcomes consumed one per call
    (`true`: the child was created, `false`: `fork` returned a negative pid);
    each `wait` that reaps a child is one `Reaped` event. The run is recorded
    as a trace of events, and the properties of the loop are stated over that
    trace. What a child does with its frame is `Partition.RenderFrame`.
 */
module Batch {

  import opened Arith

  /** `MANDEL_AMOUNT`, the number of frames of the animation. */
  const MandelAmount: int := 50

  /** The zoom factor applied to `xscale` before each `fork`. */
  const Zoom: real := 0.9

  datatype Event =
    | Spawned(frame: int, name: string, xscale: real)  // fork succeeded; the child renders `frame` into `name`
    | ForkFailed(frame: int, xscale: real)             // fork returned a negative pid
    | Reaped                                           // one `wait` returned

  // ---------------------------------------------------------------------
  // Output file names: sprintf(filename, "mandel%d.jpg", i)

  function DigitChar(d: int): char
    requires 0 <= d < 10
  {
    (48 + d) as char
  }

  /** The decimal numeral of `n`, as `%d` prints it: digits only, no leading
      zero, and reading it back gives `n`. */
  function Decimal(n: nat): (s: string)
    ensures |s| >= 1 && forall p :: 0 <= p < |s| ==> '0' <= s[p] <= '9'
    ensures (s[0] == '0') == (n == 0)
    ensures NumeralValue(s) == n
  {
    if n < 10 then [DigitChar(n)]
    else
      var s := Decimal(n / 10) + [DigitChar(n % 10)];
      assert s[..|s| - 1] == Decimal(n / 10);
      s
  }

  /** The number a string of decimal digits denotes. */
  function NumeralValue(s: string): int
  {
    if s == [] then 0 else NumeralValue(s[..|s| - 1]) * 10 + (s[|s| - 1] as int - 48)
  }

  /** `sprintf(filename, "mandel%d.jpg", i)`: the prefix, the numeral of the
      frame index, and the extension. */
  function FileName(i: nat): (name: string)
    ensures |name| >= 11 && name[..6] == "mandel" && name[|name| - 4..] == ".jpg"
    ensures NumeralValue(name[6..|name| - 4]) == i
  {
    var name := "mandel" + Decimal(i) + ".jpg";
    assert name[6..|name| - 4] == Decimal(i);
    name
  }

  /** `%d` never prints two numbers the same way: reading the numerals back
      gives the numbers. */
  lemma DecimalInjective(a: nat, b: nat)
    requires Decimal(a) == Decimal(b)
    ensures a == b
  {
  }

  /** Admitted frames get pairwise different file names. */
  lemma FileNamesDistinct(a: nat, b: nat)
    requires a != b
    ensures FileName(a) != FileName(b)
  {
  }

  // ---------------------------------------------------------------------
  // Reading a trace

  /** `xscale` after `k` executions of `xscale *= 0.9`, starting from `s0`. */
  function ScaleAfter(s0: real, k: nat): (s: real)
    ensures s0 > 0.0 ==> 0.0 < s <= s0
    ensures s0 > 0.0 && k > 0 ==> s < s0
  {
    if k == 0 then s0 else ScaleAfter(s0, k - 1) * Zoom
  }

  /** Change of the active-process count `act_proc` caused by one event. */
  function Delta(e: Event): int
  {
    match e
    case Spawned(_, _, _) => 1
    case ForkFailed(_, _) => 0
    case Reaped => -1
  }

  /** The number of children alive after the trace `t`. */
  function Active(t: seq<Event>): int
  {
    if t == [] then 0 else Active(t[..|t| - 1]) + Delta(t[|t| - 1])
  }

  /** The frames admitted along `t`, in the order they were admitted. */
  function Admitted(t: seq<Event>): seq<int>
  {
    if t == [] then []
    else Admitted(t[..|t| - 1]) + (if t[|t| - 1].Spawned? then [t[|t| - 1].frame] else [])
  }

  /** The fork outcomes consumed along `t`, one per fork attempt. */
  function Outcomes(t: seq<Event>): seq<bool>
  {
    if t == [] then []
    else Outcomes(t[..|t| - 1]) + (if t[|t| - 1].Reaped? then [] else [t[|t| - 1].Spawned?])
  }

  function CountTrue(s: seq<bool>): nat
  {
    if s == [] then 0 else (if s[0] then 1 else 0) + CountTrue(s[1..])
  }

  /** The integers `lo, lo+1, ..., hi-1`. */
  function Range(lo: int, hi: int): (r: seq<int>)
    requires lo <= hi
    ensures |r| == hi - lo && forall k :: 0 <= k < |r| ==> r[k] == lo + k
  {
    seq(hi - lo, k => lo + k)
  }

  lemma RangeAppend(lo: int, mid: int, hi: int)
    requires lo <= mid <= hi
    ensures Range(lo, mid) + Range(mid, hi) == Range(lo, hi)
  {
  }

  /** Every fork attempt in `t` concerns the next frame not yet admitted
      (counting from `base`), happens after exactly as many zoom steps as
      there were attempts before it plus one, and a successful one names the
      frame's file. */
  ghost predicate AttemptsTrack(t: seq<Event>, base: int, s0: real)
  {
    forall n :: 0 <= n < |t| ==> AttemptOk(t, n, base, s0)
  }

  /** The condition `AttemptsTrack` places on the event at position `n`. */
  ghost predicate AttemptOk(t: seq<Event>, n: int, base: int, s0: real)
    requires 0 <= n < |t|
  {
    !t[n].Reaped? ==>
      t[n].frame == base + |Admitted(t[..n])| &&
      t[n].xscale == ScaleAfter(s0, |Outcomes(t[..n])| + 1) &&
      (t[n].Spawned? ==> 0 <= t[n].frame && t[n].name == FileName(t[n].frame))
  }

  /** At every point of `t` after its start, between 0 and `maxProc` children
      are alive. */
  ghost predicate PoolWithin(t: seq<Event>, maxProc: int)
  {
    forall n :: 0 < n <= |t| ==> 0 <= Active(t[..n]) <= maxProc
  }

  /** Within a batch that opens at frame `base`, frame `f` is spawned when
      exactly the `f - base` earlier frames of the batch are alive. */
  ghost predicate SpawnsFrom(t: seq<Event>, base: int)
  {
    forall n :: 0 <= n < |t| && t[n].Spawned? ==> Active(t[..n]) == t[n].frame - base
  }

  /** Over the whole run, frame `f` is spawned when exactly `f % maxProc`
      children are alive: the ones of its own batch. */
  ghost predicate SpawnsInSlot(t: seq<Event>, maxProc: int)
  {
    maxProc > 0 &&
    forall n :: 0 <= n < |t| && t[n].Spawned? ==> Active(t[..n]) == t[n].frame % maxProc
  }

  /** Every failed fork is followed by another fork attempt, never by a
      `wait` or by the end of the trace. */
  ghost predicate Retried(t: seq<Event>)
  {
    forall n :: 0 <= n < |t| && t[n].ForkFailed? ==> n + 1 < |t| && !t[n + 1].Reaped?
  }

  /** A trace of fork attempts that does not end in a failure. */
  lemma RetriedAttempts(t: seq<Event>)
    requires forall n :: 0 <= n < |t| ==> !t[n].Reaped?
    requires t != [] ==> !t[|t| - 1].ForkFailed?
    ensures Retried(t)
  {
  }

  lemma RetriedThenReaps(t: seq<Event>, u: seq<Event>)
    requires Retried(t) && |t| <= |u| && u[..|t|] == t
    requires forall n :: |t| <= n < |u| ==> u[n].Reaped?
    ensures Retried(u)
  {
    forall n | 0 <= n < |u| && u[n].ForkFailed? ensures n + 1 < |u| && !u[n + 1].Reaped? {
      assert n < |t| && u[n] == t[n];
      assert u[n + 1] == t[n + 1];
    }
  }

  lemma RetriedConcat(a: seq<Event>, b: seq<Event>)
    requires Retried(a) && Retried(b)
    ensures Retried(a + b)
  {
    forall n | 0 <= n < |a + b| && (a + b)[n].ForkFailed?
      ensures n + 1 < |a + b| && !(a + b)[n + 1].Reaped?
    {
      if n < |a| {
        assert (a + b)[n] == a[n] && (a + b)[n + 1] == a[n + 1];
      } else {
        assert (a + b)[n] == b[n - |a|] && (a + b)[n + 1] == b[n + 1 - |a|];
      }
    }
  }

  /** Once a `wait` has happened, nothing but `wait`s follows. */
  ghost predicate ReapsLast(t: seq<Event>)
  {
    forall p, q :: 0 <= p < q < |t| && t[p].Reaped? ==> t[q].Reaped?
  }

  /** The facts about a trace extended by one event. */
  lemma Extend(t: seq<Event>, e: Event)
    ensures forall n :: 0 <= n <= |t| ==> (t + [e])[..n] == t[..n]
    ensures (t + [e])[..|t| + 1] == t + [e]
    ensures Active(t + [e]) == Active(t) + Delta(e)
    ensures Admitted(t + [e]) == Admitted(t) + (if e.Spawned? then [e.frame] else [])
    ensures Outcomes(t + [e]) == Outcomes(t) + (if e.Reaped? then [] else [e.Spawned?])
  {
    assert (t + [e])[..|t|] == t;
  }

  lemma ExtendAttempts(t: seq<Event>, e: Event, base: int, s0: real)
    requires AttemptsTrack(t, base, s0)
    requires !e.Reaped? ==>
      e.frame == base + |Admitted(t)| && e.xscale == ScaleAfter(s0, |Outcomes(t)| + 1) &&
      (e.Spawned? ==> 0 <= e.frame && e.name == FileName(e.frame))
    ensures AttemptsTrack(t + [e], base, s0)
  {
    var u := t + [e];
    forall n | 0 <= n < |u| ensures AttemptOk(u, n, base, s0) {
      if n < |t| {
        assert AttemptOk(t, n, base, s0);
        assert u[n] == t[n] && u[..n] == t[..n];
      } else {
        assert u[n] == e && u[..n] == t;
      }
    }
  }

  lemma ExtendPool(t: seq<Event>, e: Event, maxProc: int)
    requires PoolWithin(t, maxProc)
    requires 0 <= Active(t) + Delta(e) <= maxProc
    ensures PoolWithin(t + [e], maxProc)
  {
    Extend(t, e);
  }

  lemma ExtendSpawns(t: seq<Event>, e: Event, base: int)
    requires SpawnsFrom(t, base)
    requires e.Spawned? ==> Active(t) == e.frame - base
    ensures SpawnsFrom(t + [e], base)
  {
    Extend(t, e);
  }

  lemma ExtendReaps(t: seq<Event>, e: Event)
    requires ReapsLast(t)
    requires (exists p :: 0 <= p < |t| && t[p].Reaped?) ==> e.Reaped?
    ensures ReapsLast(t + [e])
  {
  }

  lemma {:induction false} TraceConcat(a: seq<Event>, b: seq<Event>)
    ensures Active(a + b) == Active(a) + Active(b)
    ensures Admitted(a + b) == Admitted(a) + Admitted(b)
    ensures Outcomes(a + b) == Outcomes(a) + Outcomes(b)
    decreases |b|
  {
    if b == [] {
      assert a + b == a;
    } else {
      var b' := b[..|b| - 1];
      assert (a + b)[..|a + b| - 1] == a + b';
      assert (a + b)[|a + b| - 1] == b[|b| - 1];
      TraceConcat(a, b');
    }
  }

  /** The prefixes of a concatenation, read through the trace functions. */
  lemma PrefixOfConcat(a: seq<Event>, b: seq<Event>, n: int)
    requires |a| <= n <= |a| + |b|
    ensures (a + b)[..n] == a + b[..n - |a|]
    ensures Active((a + b)[..n]) == Active(a) + Active(b[..n - |a|])
    ensures Admitted((a + b)[..n]) == Admitted(a) + Admitted(b[..n - |a|])
    ensures Outcomes((a + b)[..n]) == Outcomes(a) + Outcomes(b[..n - |a|])
  {
    assert (a + b)[..n] == a + b[..n - |a|];
    TraceConcat(a, b[..n - |a|]);
  }

  lemma OutcomesGrow(t: seq<Event>, n: nat, m: nat)
    requires n < m <= |t| && !t[n].Reaped?
    ensures |Outcomes(t[..n])| < |Outcomes(t[..m])|
    decreases m - n
  {
    if m == n + 1 {
      assert t[..m][..n] == t[..n];
    } else {
      OutcomesGrow(t, n, m - 1);
      assert t[..m][..m - 1] == t[..m - 1];
    }
  }

  /** Zooming by 0.9 strictly shrinks a positive scale, at every step. */
  lemma {:induction false} ScaleDecreasing(s0: real, a: nat, b: nat)
    requires s0 > 0.0 && a < b
    ensures 0.0 < ScaleAfter(s0, b) < ScaleAfter(s0, a)
    decreases b - a
  {
    if a < b - 1 {
      ScaleDecreasing(s0, a, b - 1);
    } else {
      ScalePositive(s0, a);
    }
  }

  lemma {:induction false} ScalePositive(s0: real, n: nat)
    requires s0 > 0.0
    ensures ScaleAfter(s0, n) > 0.0
  {
    if n > 0 {
      ScalePositive(s0, n - 1);
    }
  }

  /** `k` zoom steps applied after `a` earlier ones are `a + k` steps. */
  lemma {:induction false} ScaleAdd(s0: real, a: nat, k: nat)
    ensures ScaleAfter(ScaleAfter(s0, a), k) == ScaleAfter(s0, a + k)
  {
    if k > 0 {
      ScaleAdd(s0, a, k - 1);
    }
  }

  /** The zoom strictly shrinks: a later fork attempt runs at a strictly
      smaller `xscale` than an earlier one whenever the initial scale is
      positive. */
  lemma ScalesDecrease(t: seq<Event>, base: int, s0: real, n: nat, m: nat)
    requires AttemptsTrack(t, base, s0) && s0 > 0.0
    requires n < m < |t| && !t[n].Reaped? && !t[m].Reaped?
    ensures t[m].xscale < t[n].xscale
  {
    assert AttemptOk(t, n, base, s0) && AttemptOk(t, m, base, s0);
    var a, b := |Outcomes(t[..n])| + 1, |Outcomes(t[..m])| + 1;
    assert t[n].xscale == ScaleAfter(s0, a) && t[m].xscale == ScaleAfter(s0, b);
    OutcomesGrow(t, n, m);
    ScaleDecreasing(s0, a, b);
  }

  function Pow(r: real, n: nat): real
  {
    if n == 0 then 1.0 else r * Pow(r, n - 1)
  }

  /** The closed form of the zoom: `k` steps scale `s0` by `0.9^k`. */
  lemma {:induction false} ScaleClosedForm(s0: real, k: nat)
    ensures ScaleAfter(s0, k) == s0 * Pow(Zoom, k)
  {
    if k > 0 {
      ScaleClosedForm(s0, k - 1);
      assert s0 * Pow(Zoom, k - 1) * Zoom == s0 * (Zoom * Pow(Zoom, k - 1));
    }
  }

  lemma AdmittedGrow(t: seq<Event>, n: nat, m: nat)
    requires n < m <= |t| && t[n].Spawned?
    ensures |Admitted(t[..n])| < |Admitted(t[..m])|
    decreases m - n
  {
    if m == n + 1 {
      assert t[..m][..n] == t[..n];
    } else {
      AdmittedGrow(t, n, m - 1);
      assert t[..m][..m - 1] == t[..m - 1];
    }
  }

  /** Two children of one run never render the same frame, so they never
      write the same file. */
  lemma SpawnNamesDistinct(t: seq<Event>, base: int, s0: real, n: nat, m: nat)
    requires AttemptsTrack(t, base, s0)
    requires n < m < |t| && t[n].Spawned? && t[m].Spawned?
    ensures t[n].frame < t[m].frame && t[n].name != t[m].name
  {
    assert AttemptOk(t, n, base, s0) && AttemptOk(t, m, base, s0);
    AdmittedGrow(t, n, m);
    FileNamesDistinct(t[n].frame, t[m].frame);
  }

  /** A failed fork is retried: the next fork attempt is for the same frame. */
  lemma FailedForkRetried(t: seq<Event>, base: int, s0: real, n: nat)
    requires AttemptsTrack(t, base, s0) && Retried(t)
    requires n < |t| && t[n].ForkFailed?
    ensures n + 1 < |t| && !t[n + 1].Reaped? && t[n + 1].frame == t[n].frame
  {
    assert AttemptOk(t, n, base, s0) && AttemptOk(t, n + 1, base, s0);
    assert t[..n + 1][..n] == t[..n];
  }

  /** Without failed forks the attempts are exactly the admissions. */
  lemma {:induction false} NoFailureCounts(t: seq<Event>)
    requires forall n :: 0 <= n < |t| ==> !t[n].ForkFailed?
    ensures |Outcomes(t)| == |Admitted(t)|
  {
    if t != [] {
      NoFailureCounts(t[..|t| - 1]);
    }
  }

  /** When no fork fails, frame `f` is rendered at `s0 * 0.9^(f+1)`: the
      zoom is applied once before each frame, including the first. */
  lemma NoFailureScale(t: seq<Event>, s0: real, n: nat)
    requires AttemptsTrack(t, 0, s0)
    requires forall k :: 0 <= k < |t| ==> !t[k].ForkFailed?
    requires n < |t| && t[n].Spawned?
    ensures t[n].frame >= 0 && t[n].xscale == s0 * Pow(Zoom, t[n].frame + 1)
  {
    NoFailureAttempts(t, s0, n);
    ZoomedScale(t[n].xscale, s0, t[n].frame + 1);
  }

  /** When no fork fails, the fork of frame `f` is the `f+1`-th attempt. */
  lemma NoFailureAttempts(t: seq<Event>, s0: real, n: nat)
    requires AttemptsTrack(t, 0, s0)
    requires forall k :: 0 <= k < |t| ==> !t[k].ForkFailed?
    requires n < |t| && t[n].Spawned?
    ensures t[n].frame >= 0 && t[n].xscale == ScaleAfter(s0, t[n].frame + 1)
  {
    assert AttemptOk(t, n, 0, s0);
    NoFailureCounts(t[..n]);
  }

  lemma ZoomedScale(x: real, s0: real, k: nat)
    requires x == ScaleAfter(s0, k)
    ensures x == s0 * Pow(Zoom, k)
  {
    ScaleClosedForm(s0, k);
  }

  // ---------------------------------------------------------------------
  // The loops

  /** One pass of the outer `while (i < MANDEL_AMOUNT)` loop: admit frames
      from `i0` while fewer than `maxProc` children are active and frames
      remain, then `wait` for every one of them. With `maxProc <= 0` the pass
      admits nothing and changes nothing, so the outer loop never ends. */
  method RunBatch(i0: int, xscale0: real, maxProc: int, forks: seq<bool>)
    returns (i: int, xscale: real, rest: seq<bool>, events: seq<Event>)
    requires 0 <= i0 <= MandelAmount
    requires CountTrue(forks) >= MandelAmount - i0
    ensures maxProc <= 0 ==> i == i0 && xscale == xscale0 && rest == forks && events == []
    ensures maxProc > 0 ==> i == if i0 + maxProc <= MandelAmount then i0 + maxProc else MandelAmount
    ensures Admitted(events) == Range(i0, i)
    ensures Outcomes(events) + rest == forks
    ensures CountTrue(rest) >= MandelAmount - i
    ensures xscale == ScaleAfter(xscale0, |Outcomes(events)|)
    ensures AttemptsTrack(events, i0, xscale0)
    ensures PoolWithin(events, maxProc)
    ensures SpawnsFrom(events, i0)
    ensures ReapsLast(events) && Retried(events)
    ensures Active(events) == 0
  {
    var act;
    i, xscale, rest, events, act := AdmitFrames(i0, xscale0, maxProc, forks);
    AdmittedDraining(i0, i, xscale0, xscale, maxProc, forks, rest, events);
    ghost var t := events;
    events := ReapAll(act, i0, i, xscale0, xscale, maxProc, forks, rest, events);
    RetriedThenReaps(t, events);
  }

  /** The admission loop `while (act_proc < MAX_PROC && i < MANDEL_AMOUNT)`:
      it forks until the batch is full or no frame remains, retrying a frame
      whose fork failed. It returns the number of children alive. */
  method AdmitFrames(i0: int, xscale0: real, maxProc: int, forks: seq<bool>)
    returns (i: int, xscale: real, rest: seq<bool>, events: seq<Event>, act: int)
    requires 0 <= i0 <= MandelAmount
    requires CountTrue(forks) >= MandelAmount - i0
    ensures act == i - i0 == Active(events)
    ensures Admitting(i0, i, xscale0, xscale, maxProc, forks, rest, events)
    ensures maxProc <= 0 ==> i == i0 && xscale == xscale0 && rest == forks && events == []
    ensures maxProc > 0 ==> i == if i0 + maxProc <= MandelAmount then i0 + maxProc else MandelAmount
    ensures Retried(events)
  {
    i, xscale, rest, events := i0, xscale0, forks, [];
    act := 0;
    while act < maxProc && i < MandelAmount
      invariant act == i - i0
      invariant Admitting(i0, i, xscale0, xscale, maxProc, forks, rest, events)
      invariant maxProc <= 0 ==> i == i0 && xscale == xscale0 && rest == forks && events == []
      decreases |rest|
    {
      ghost var t := events;
      ForksRemain(i, rest);
      var name := FileName(i);
      var ok := rest[0];
      if ok {
        SpawnStep(i0, i, xscale0, xscale, maxProc, forks, rest, t);
        xscale := xscale * Zoom;
        events, rest := events + [Spawned(i, name, xscale)], rest[1..];
        act, i := act + 1, i + 1;
      } else {
        FailStep(i0, i, xscale0, xscale, maxProc, forks, rest, t);
        xscale := xscale * Zoom;
        events, rest := events + [ForkFailed(i, xscale)], rest[1..];
      }
    }
    RetriedAttempts(events);
  }

  /** The `wait` loop `while (act_proc > 0)`: one `Reaped` event per child
      alive, and nothing else. */
  method ReapAll(act: int, ghost i0: int, ghost i: int, ghost s0: real, ghost s: real,
                 ghost maxProc: int, ghost forks: seq<bool>, ghost rest: seq<bool>, t: seq<Event>)
    returns (events: seq<Event>)
    requires act == Active(t) && Draining(i0, i, s0, s, maxProc, forks, rest, t)
    ensures |events| == |t| + act && events[..|t|] == t
    ensures forall n :: |t| <= n < |events| ==> events[n].Reaped?
    ensures Draining(i0, i, s0, s, maxProc, forks, rest, events) && Active(events) == 0
  {
    events := t;
    var left := act;
    while left > 0
      invariant left == Active(events)
      invariant |events| == |t| + act - left && events[..|t|] == t
      invariant forall n :: |t| <= n < |events| ==> events[n].Reaped?
      invariant Draining(i0, i, s0, s, maxProc, forks, rest, events)
    {
      DrainStep(i0, i, s0, s, maxProc, forks, rest, events);
      events := events + [Reaped];
      left := left - 1;
    }
  }

  lemma AdmittedDraining(i0: int, i: int, s0: real, s: real, maxProc: int,
                         forks: seq<bool>, rest: seq<bool>, t: seq<Event>)
    requires Admitting(i0, i, s0, s, maxProc, forks, rest, t)
    ensures Draining(i0, i, s0, s, maxProc, forks, rest, t)
  {
  }

  /** The state of the admission loop of a batch opened at frame `i0`. */
  ghost predicate Admitting(i0: int, i: int, s0: real, s: real, maxProc: int,
                            forks: seq<bool>, rest: seq<bool>, t: seq<Event>)
  {
    0 <= i0 <= i <= MandelAmount &&
    Active(t) == i - i0 && (maxProc > 0 ==> i - i0 <= maxProc) &&
    Admitted(t) == Range(i0, i) &&
    Outcomes(t) + rest == forks && CountTrue(rest) >= MandelAmount - i &&
    s == ScaleAfter(s0, |Outcomes(t)|) &&
    AttemptsTrack(t, i0, s0) && PoolWithin(t, maxProc) && SpawnsFrom(t, i0) &&
    (forall n :: 0 <= n < |t| ==> !t[n].Reaped?) &&
    (t != [] && t[|t| - 1].ForkFailed? ==> i - i0 < maxProc && i < MandelAmount)
  }

  /** The state of the `wait` loop of a batch opened at frame `i0`. */
  ghost predicate Draining(i0: int, i: int, s0: real, s: real, maxProc: int,
                           forks: seq<bool>, rest: seq<bool>, t: seq<Event>)
  {
    0 <= i0 <= i <= MandelAmount && 0 <= Active(t) &&
    Admitted(t) == Range(i0, i) &&
    Outcomes(t) + rest == forks && CountTrue(rest) >= MandelAmount - i &&
    s == ScaleAfter(s0, |Outcomes(t)|) &&
    AttemptsTrack(t, i0, s0) && PoolWithin(t, maxProc) && SpawnsFrom(t, i0) && ReapsLast(t)
  }

  /** A successful fork: frame `i` is admitted and the active count rises. */
  lemma SpawnStep(i0: int, i: int, s0: real, s: real, maxProc: int,
                  forks: seq<bool>, rest: seq<bool>, t: seq<Event>)
    requires Admitting(i0, i, s0, s, maxProc, forks, rest, t)
    requires i - i0 < maxProc && i < MandelAmount
    requires rest != [] && rest[0]
    ensures Admitting(i0, i + 1, s0, s * Zoom, maxProc, forks, rest[1..],
                      t + [Spawned(i, FileName(i), s * Zoom)])
  {
    var e := Spawned(i, FileName(i), s * Zoom);
    AttemptStep(i0, i, s0, s, maxProc, forks, rest, t, e);
    RangeSnoc(i0, i);
    ConsumeOutcome(Outcomes(t), Outcomes(t + [e]), rest, forks);
    assert CountTrue(rest) == 1 + CountTrue(rest[1..]);
  }

  /** A failed fork: the outcome is consumed, `i` and the active count stay. */
  lemma FailStep(i0: int, i: int, s0: real, s: real, maxProc: int,
                 forks: seq<bool>, rest: seq<bool>, t: seq<Event>)
    requires Admitting(i0, i, s0, s, maxProc, forks, rest, t)
    requires i - i0 < maxProc && i < MandelAmount
    requires rest != [] && !rest[0]
    ensures Admitting(i0, i, s0, s * Zoom, maxProc, forks, rest[1..],
                      t + [ForkFailed(i, s * Zoom)])
  {
    var e := ForkFailed(i, s * Zoom);
    AttemptStep(i0, i, s0, s, maxProc, forks, rest, t, e);
    ConsumeOutcome(Outcomes(t), Outcomes(t + [e]), rest, forks);
    assert CountTrue(rest) == CountTrue(rest[1..]);
  }

  lemma RangeSnoc(lo: int, hi: int)
    requires lo <= hi
    ensures Range(lo, hi) + [hi] == Range(lo, hi + 1)
  {
  }

  /** Taking the next fork outcome off the unread ones. */
  lemma ConsumeOutcome(o: seq<bool>, o': seq<bool>, rest: seq<bool>, forks: seq<bool>)
    requires o + rest == forks && rest != [] && o' == o + [rest[0]]
    ensures o' + rest[1..] == forks
  {
    assert rest == [rest[0]] + rest[1..];
  }

  /** While frames remain, so do successful fork outcomes. */
  lemma ForksRemain(i: int, rest: seq<bool>)
    requires i < MandelAmount && CountTrue(rest) >= MandelAmount - i
    ensures rest != []
  {
  }

  /** The trace facts one fork attempt `e` for frame `i` establishes. */
  lemma AttemptStep(i0: int, i: int, s0: real, s: real, maxProc: int,
                    forks: seq<bool>, rest: seq<bool>, t: seq<Event>, e: Event)
    requires 0 <= i0 <= i && Active(t) == i - i0 < maxProc && |Admitted(t)| == i - i0
    requires s == ScaleAfter(s0, |Outcomes(t)|)
    requires AttemptsTrack(t, i0, s0) && PoolWithin(t, maxProc) && SpawnsFrom(t, i0)
    requires forall n :: 0 <= n < |t| ==> !t[n].Reaped?
    requires e == Spawned(i, FileName(i), s * Zoom) || e == ForkFailed(i, s * Zoom)
    ensures Active(t + [e]) == Active(t) + Delta(e)
    ensures Admitted(t + [e]) == Admitted(t) + (if e.Spawned? then [i] else [])
    ensures Outcomes(t + [e]) == Outcomes(t) + [e.Spawned?]
    ensures s * Zoom == ScaleAfter(s0, |Outcomes(t + [e])|)
    ensures AttemptsTrack(t + [e], i0, s0) && PoolWithin(t + [e], maxProc) && SpawnsFrom(t + [e], i0)
    ensures forall n :: 0 <= n < |t + [e]| ==> !(t + [e])[n].Reaped?
  {
    Extend(t, e);
    ExtendAttempts(t, e, i0, s0);
    ExtendPool(t, e, maxProc);
    ExtendSpawns(t, e, i0);
  }

  /** One `wait`: the active count drops by one and nothing else changes. */
  lemma DrainStep(i0: int, i: int, s0: real, s: real, maxProc: int,
                  forks: seq<bool>, rest: seq<bool>, t: seq<Event>)
    requires Draining(i0, i, s0, s, maxProc, forks, rest, t) && Active(t) > 0
    ensures Draining(i0, i, s0, s, maxProc, forks, rest, t + [Reaped])
    ensures Active(t + [Reaped]) == Active(t) - 1
  {
    Extend(t, Reaped);
    ExtendAttempts(t, Reaped, i0, s0);
    ExtendPool(t, Reaped, maxProc);
    ExtendSpawns(t, Reaped, i0);
    ExtendReaps(t, Reaped);
    assert Outcomes(t + [Reaped]) == Outcomes(t);
  }

  /** The loop of `main` from `i = 0`: admits every frame exactly once and in
      order, never runs more than `maxProc` children at once, starts frame `f`
      when exactly `f % maxProc` children of its batch are running (so a frame
      that opens a batch finds the pool drained), and ends with no child
      alive. It needs `maxProc >= 1` and enough successful forks to reach its
      end. */
  method RunFrames(maxProc: int, xscale0: real, forks: seq<bool>) returns (events: seq<Event>)
    requires maxProc >= 1
    requires CountTrue(forks) >= MandelAmount
    ensures Admitted(events) == Range(0, MandelAmount)
    ensures Outcomes(events) <= forks
    ensures AttemptsTrack(events, 0, xscale0)
    ensures PoolWithin(events, maxProc)
    ensures SpawnsInSlot(events, maxProc)
    ensures Retried(events)
    ensures Active(events) == 0
  {
    var i, xscale, rest := 0, xscale0, forks;
    ghost var batches := 0;
    events := [];
    while i < MandelAmount
      invariant Running(i, batches, xscale0, xscale, maxProc, forks, rest, events)
      invariant Retried(events)
      decreases MandelAmount - i
    {
      var i', xscale', rest', batch := RunBatch(i, xscale, maxProc, rest);
      RetriedConcat(events, batch);
      BatchStep(i, batches, xscale0, xscale, maxProc, forks, rest, events, i', xscale', rest', batch);
      events, i, xscale, rest := events + batch, i', xscale', rest';
      batches := batches + 1;
    }
    assert forks == Outcomes(events) + rest;
  }

  /** The state of the outer loop after `b` complete batches. */
  ghost predicate Running(i: int, b: int, s0: real, s: real, maxProc: int,
                          forks: seq<bool>, rest: seq<bool>, t: seq<Event>)
  {
    0 <= i <= MandelAmount && maxProc >= 1 && (i == b * maxProc || i == MandelAmount) &&
    Admitted(t) == Range(0, i) &&
    Outcomes(t) + rest == forks && CountTrue(rest) >= MandelAmount - i &&
    s == ScaleAfter(s0, |Outcomes(t)|) &&
    AttemptsTrack(t, 0, s0) && PoolWithin(t, maxProc) && SpawnsInSlot(t, maxProc) &&
    Active(t) == 0
  }

  /** A batch run from the state after `b` batches leads to the state after
      `b + 1` batches. */
  lemma BatchStep(i: int, b: int, s0: real, s: real, maxProc: int,
                  forks: seq<bool>, rest: seq<bool>, t: seq<Event>,
                  i': int, s': real, rest': seq<bool>, batch: seq<Event>)
    requires Running(i, b, s0, s, maxProc, forks, rest, t) && i < MandelAmount
    requires i' == if i + maxProc <= MandelAmount then i + maxProc else MandelAmount
    requires Admitted(batch) == Range(i, i')
    requires Outcomes(batch) + rest' == rest && CountTrue(rest') >= MandelAmount - i'
    requires s' == ScaleAfter(s, |Outcomes(batch)|)
    requires AttemptsTrack(batch, i, s) && PoolWithin(batch, maxProc) && SpawnsFrom(batch, i)
    requires Active(batch) == 0
    ensures Running(i', b + 1, s0, s', maxProc, forks, rest', t + batch)
  {
    var u := t + batch;
    AppendAdmitted(t, batch, i, i');
    AppendTotals(t, batch, s0, s, s', forks, rest, rest');
    assert AttemptsTrack(u, 0, s0) by {
      AppendAttempts(t, batch, i, s0, s);
    }
    assert PoolWithin(u, maxProc) by {
      AppendPool(t, batch, maxProc);
    }
    assert SpawnsInSlot(u, maxProc) by {
      AppendSpawns(t, batch, i, b, maxProc);
    }
    assert i' == (b + 1) * maxProc || i' == MandelAmount by {
      assert (b + 1) * maxProc == b * maxProc + maxProc;
    }
  }

  // ---------------------------------------------------------------------
  // Appending one batch's trace to the run so far

  lemma AppendAdmitted(t: seq<Event>, batch: seq<Event>, i: int, i': int)
    requires 0 <= i <= i' && Admitted(t) == Range(0, i) && Admitted(batch) == Range(i, i')
    ensures Admitted(t + batch) == Range(0, i')
  {
    TraceConcat(t, batch);
    RangeAppend(0, i, i');
  }

  lemma AppendTotals(t: seq<Event>, batch: seq<Event>, s0: real, s: real, s': real,
                     forks: seq<bool>, rest: seq<bool>, rest': seq<bool>)
    requires Outcomes(t) + rest == forks && Outcomes(batch) + rest' == rest
    requires s == ScaleAfter(s0, |Outcomes(t)|) && s' == ScaleAfter(s, |Outcomes(batch)|)
    requires Active(t) == 0 && Active(batch) == 0
    ensures Outcomes(t + batch) + rest' == forks
    ensures s' == ScaleAfter(s0, |Outcomes(t + batch)|)
    ensures Active(t + batch) == 0
  {
    TraceConcat(t, batch);
    assert Outcomes(t) + Outcomes(batch) + rest' == Outcomes(t) + (Outcomes(batch) + rest');
    ScaleAdd(s0, |Outcomes(t)|, |Outcomes(batch)|);
  }

  lemma AppendAttempts(t: seq<Event>, batch: seq<Event>, i: int, s0: real, s: real)
    requires AttemptsTrack(t, 0, s0) && |Admitted(t)| == i
    requires s == ScaleAfter(s0, |Outcomes(t)|)
    requires AttemptsTrack(batch, i, s)
    ensures AttemptsTrack(t + batch, 0, s0)
  {
    var u := t + batch;
    forall n | 0 <= n < |u| ensures AttemptOk(u, n, 0, s0) {
      if n < |t| {
        assert AttemptOk(t, n, 0, s0);
        assert u[n] == t[n] && u[..n] == t[..n];
      } else {
        var m := n - |t|;
        assert AttemptOk(batch, m, i, s);
        AppendAttemptAt(t, batch, i, s0, s, n);
      }
    }
  }

  lemma AppendAttemptAt(t: seq<Event>, batch: seq<Event>, i: int, s0: real, s: real, n: int)
    requires |Admitted(t)| == i && s == ScaleAfter(s0, |Outcomes(t)|)
    requires |t| <= n < |t| + |batch| && AttemptOk(batch, n - |t|, i, s)
    ensures AttemptOk(t + batch, n, 0, s0)
  {
    var u, m := t + batch, n - |t|;
    PrefixOfConcat(t, batch, n);
    assert u[n] == batch[m];
    if !u[n].Reaped? {
      var k := |Outcomes(batch[..m])| + 1;
      ScaleAdd(s0, |Outcomes(t)|, k);
    }
  }

  lemma AppendPool(t: seq<Event>, batch: seq<Event>, maxProc: int)
    requires PoolWithin(t, maxProc) && Active(t) == 0
    requires PoolWithin(batch, maxProc)
    ensures PoolWithin(t + batch, maxProc)
  {
    var u := t + batch;
    forall n | |t| < n <= |u| ensures 0 <= Active(u[..n]) <= maxProc {
      PrefixOfConcat(t, batch, n);
    }
    forall n | 0 < n <= |t| ensures u[..n] == t[..n] { }
  }

  lemma AppendSpawns(t: seq<Event>, batch: seq<Event>, i: int, b: int, maxProc: int)
    requires maxProc > 0 && i == b * maxProc
    requires SpawnsInSlot(t, maxProc) && Active(t) == 0
    requires SpawnsFrom(batch, i) && PoolWithin(batch, maxProc)
    ensures SpawnsInSlot(t + batch, maxProc)
  {
    var u := t + batch;
    forall n | |t| <= n < |u| && u[n].Spawned?
      ensures Active(u[..n]) == u[n].frame % maxProc
    {
      PrefixOfConcat(t, batch, n);
      var m := n - |t|;
      assert u[n] == batch[m];
      assert batch[..m + 1][..m] == batch[..m];
      assert Active(batch[..m + 1]) == Active(batch[..m]) + 1;
      DivUnique(batch[m].frame, maxProc, b, batch[m].frame - i);
    }
    forall n | 0 <= n <= |t| ensures u[..n] == t[..n] { }
  }
}
