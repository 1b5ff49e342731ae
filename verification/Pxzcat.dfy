/** Parallel decompression: any number of workers share one block iterator under a mutex,
    each decodes the block it claimed into a bounded buffer, and writes the chunks that are
    not all zeros into a file that starts as zeros. A state machine over interleaved steps. */
module Pxzcat {
  import opened OutputFile
  import opened Wrappers

  /** What each block of the index decodes to, in index order. */
  type Blocks = seq<seq<Byte>>

  const BUFFER_SIZE: nat := 64 * 1024

  function Concat(b: Blocks): seq<Byte> {
    if b == [] then [] else Concat(b[..|b| - 1]) + b[|b| - 1]
  }

  /** Where block i starts in the output, as the index records it. */
  function Offset(b: Blocks, i: nat): nat
    requires i <= |b|
  {
    |Concat(b[..i])|
  }

  /** The iterator moves on to a block that is not empty, or to the end. */
  function NextNonEmpty(b: Blocks, i: nat): (r: nat)
    requires i <= |b|
    ensures i <= r <= |b| && (r < |b| ==> b[r] != [])
    ensures forall k | i <= k < r :: b[k] == []
    decreases |b| - i
  {
    if i == |b| || b[i] != [] then i else NextNonEmpty(b, i + 1)
  }

  /** How the decoder call that filled the buffer went on. */
  datatype Result = Running | StreamEnd | Error

  /** Where a worker stands. It holds the mutex from Locked to Claimed or Leaving. `done` bytes
      of its block have been dealt with, `filled` more are in the buffer. */
  datatype Worker =
    | Idle
    | Locked
    | Claimed(block: nat)
    | Leaving
    | Decoding(block: nat, done: nat, filled: nat)
    | Writing(block: nat, done: nat, size: nat, written: nat, result: Result)
    | Exited(status: int)

  datatype State = State(next: nat, finished: bool, mutex: Option<nat>, workers: seq<Worker>,
                         file: seq<Byte>, claims: seq<nat>)

  /** One step of worker t; its parameters are the choices of the decoder and the kernel. */
  datatype Step =
    | Lock(t: nat)
    | Iterate(t: nat)
    | Unlock(t: nat)
    | Decode(t: nat, n: nat, result: Result)
    | Pwrite(t: nat, n: nat)
    | Fail(t: nat)

  predicate Enabled(b: Blocks, s: State, e: Step) {
    && e.t < |s.workers| && s.next <= |b|
    && var w := s.workers[e.t];
       match e
       case Lock(t) => w.Idle? && s.mutex == None
       case Iterate(t) => w.Locked?
       case Unlock(t) => w.Claimed? || w.Leaving?
       case Decode(t, n, r) =>
         && w.Decoding? && w.block < |b| && w.filled + n <= BUFFER_SIZE
         && w.done + w.filled + n <= |b[w.block]|
         && (r == StreamEnd ==> w.done + w.filled + n == |b[w.block]|)
       case Pwrite(t, n) =>
         && w.Writing? && w.block < |b| && 1 <= n && w.written + n <= w.size
         && w.done + w.size <= |b[w.block]|
       case Fail(t) => w.Idle? || w.Decoding? || w.Writing?
  }

  /** After a chunk has been dealt with. */
  function Continue(block: nat, done: nat, r: Result): Worker {
    match r
    case Running => Decoding(block, done, 0)
    case StreamEnd => Idle
    case Error => Exited(-1)
  }

  /** The decoder has put n more bytes into the buffer. A full buffer, and the last one, is
      written unless it is all zeros. */
  function Decoded(b: Blocks, w: Worker, n: nat, r: Result): Worker
    requires w.Decoding? && w.block < |b| && w.done + w.filled + n <= |b[w.block]|
  {
    var size := w.filled + n;
    if size == BUFFER_SIZE || r == StreamEnd then
      if AllZero(b[w.block][w.done..w.done + size]) then Continue(w.block, w.done + size, r)
      else Writing(w.block, w.done, size, 0, r)
    else if r == Error then Exited(-1)
    else Decoding(w.block, w.done, size)
  }

  function Apply(b: Blocks, s: State, e: Step): State
    requires Enabled(b, s, e)
  {
    var w := s.workers[e.t];
    match e
    case Lock(t) => s.(mutex := Some(t), workers := s.workers[t := Locked])
    case Iterate(t) =>
      if s.finished then s.(workers := s.workers[t := Leaving])
      else
        var c := NextNonEmpty(b, s.next);
        if c == |b| then s.(finished := true, workers := s.workers[t := Leaving])
        else s.(next := c + 1, claims := s.claims + [c], workers := s.workers[t := Claimed(c)])
    case Unlock(t) =>
      s.(mutex := None,
         workers := s.workers[t := if w.Claimed? then Decoding(w.block, 0, 0) else Exited(0)])
    case Decode(t, n, r) => s.(workers := s.workers[t := Decoded(b, w, n, r)])
    case Pwrite(t, n) =>
      var from := w.done + w.written;
      s.(file := Written(s.file, Offset(b, w.block) + from, b[w.block][from..from + n]),
         workers := s.workers[t := if w.written + n == w.size then Continue(w.block, w.done + w.size, w.result)
                                   else w.(written := w.written + n)])
    case Fail(t) => s.(workers := s.workers[t := Exited(-1)])
  }

  function Init(b: Blocks, n: nat): State {
    State(0, false, None, seq(n, _ => Idle), Zeros(|Concat(b)|), [])
  }

  /** The states of a run that takes the given steps from n idle workers. */
  ghost predicate IsRun(b: Blocks, n: nat, trace: seq<State>, steps: seq<Step>) {
    && |trace| == |steps| + 1 && trace[0] == Init(b, n)
    && forall k | 0 <= k < |steps| ::
         Enabled(b, trace[k], steps[k]) && trace[k + 1] == Apply(b, trace[k], steps[k])
  }

  ghost predicate InLock(w: Worker) {
    w.Locked? || w.Claimed? || w.Leaving?
  }

  ghost predicate Holds(w: Worker, i: nat) {
    (w.Claimed? || w.Decoding? || w.Writing?) && w.block == i
  }

  /** The first q bytes of block i are in the file. */
  ghost predicate Settled(b: Blocks, file: seq<Byte>, i: nat, q: nat)
    requires i <= |b|
  {
    forall p | Offset(b, i) <= p < Offset(b, i) + q && p < |file| && p < |Concat(b)| ::
      file[p] == Concat(b)[p]
  }

  ghost predicate WorkerOk(b: Blocks, s: State, w: Worker)
    requires s.next <= |b|
  {
    match w
    case Claimed(i) => i < s.next
    case Decoding(i, done, filled) =>
      && i < s.next && done + filled <= |b[i]| && filled <= BUFFER_SIZE && Settled(b, s.file, i, done)
    case Writing(i, done, size, written, r) =>
      && i < s.next && written < size && done + size <= |b[i]|
      && Settled(b, s.file, i, done + written) && (r == StreamEnd ==> done + size == |b[i]|)
    case Leaving => s.finished
    case Exited(status) => (status == 0 && s.finished) || status == -1
    case _ => true
  }

  /** Block i is in the file, or in work, or lost to a worker that reports its failure. */
  ghost predicate Covered(b: Blocks, s: State, i: nat)
    requires i < |b|
  {
    || Settled(b, s.file, i, |b[i]|)
    || (exists t :: 0 <= t < |s.workers| && Holds(s.workers[t], i))
    || exists t :: 0 <= t < |s.workers| && s.workers[t] == Exited(-1)
  }

  /** No byte of the file is ever wrong other than by still being zero. */
  ghost predicate ZeroOrFinal(b: Blocks, file: seq<Byte>) {
    && |file| == |Concat(b)|
    && forall p | 0 <= p < |file| :: file[p] == 0 || file[p] == Concat(b)[p]
  }

  ghost predicate Exclusive(s: State) {
    && (s.mutex.Some? ==> s.mutex.value < |s.workers|)
    && (forall t | 0 <= t < |s.workers| :: InLock(s.workers[t]) <==> s.mutex == Some(t))
    && forall t, u, i | 0 <= t < |s.workers| && 0 <= u < |s.workers| && t != u
                        && Holds(s.workers[t], i) :: !Holds(s.workers[u], i)
  }

  /** The blocks before n that are not empty, in order. */
  function NonEmptyBelow(b: Blocks, n: nat): seq<nat>
    requires n <= |b|
  {
    if n == 0 then [] else NonEmptyBelow(b, n - 1) + if b[n - 1] == [] then [] else [n - 1]
  }

  ghost predicate Inv(b: Blocks, s: State) {
    && s.next <= |b|
    && ZeroOrFinal(b, s.file)
    && (forall t | 0 <= t < |s.workers| :: WorkerOk(b, s, s.workers[t]))
    && (forall i | 0 <= i < s.next :: Covered(b, s, i))
    && (s.finished ==> forall i | s.next <= i < |b| :: b[i] == [])
    && Exclusive(s)
    && s.claims == NonEmptyBelow(b, s.next)
  }

  lemma {:induction false} OffsetStep(b: Blocks, i: nat)
    requires i < |b|
    ensures Concat(b[..i + 1]) == Concat(b[..i]) + b[i]
    ensures Offset(b, i) + |b[i]| <= |Concat(b)|
    decreases |b| - i
  {
    assert b[..i + 1][..i] == b[..i];
    ConcatPrefix(b, i + 1);
  }

  lemma {:induction false} ConcatPrefix(b: Blocks, i: nat)
    requires i <= |b|
    ensures Concat(b[..i]) <= Concat(b)
    decreases |b|
  {
    if i == |b| {
      assert b[..i] == b;
    } else {
      assert b[..|b| - 1][..i] == b[..i];
      ConcatPrefix(b[..|b| - 1], i);
    }
  }

  lemma ConcatAt(b: Blocks, i: nat, j: nat)
    requires i < |b| && j < |b[i]|
    ensures Offset(b, i) + j < |Concat(b)| && Concat(b)[Offset(b, i) + j] == b[i][j]
  {
    OffsetStep(b, i);
    ConcatPrefix(b, i + 1);
    assert Concat(b[..i + 1])[Offset(b, i) + j] == b[i][j];
  }

  /** Only final values enter the file. */
  ghost predicate Grows(b: Blocks, f: seq<Byte>, g: seq<Byte>) {
    && |f| == |g| == |Concat(b)|
    && forall p | 0 <= p < |f| :: g[p] == f[p] || g[p] == Concat(b)[p]
  }

  lemma WriteGrows(b: Blocks, f: seq<Byte>, i: nat, from: nat, n: nat)
    requires ZeroOrFinal(b, f) && i < |b| && from + n <= |b[i]|
    requires Settled(b, f, i, from)
    ensures var g := Written(f, Offset(b, i) + from, b[i][from..from + n]);
            Grows(b, f, g) && ZeroOrFinal(b, g) && Settled(b, g, i, from + n)
  {
    hide Written, Concat;
    OffsetStep(b, i);
    var o := Offset(b, i) + from;
    var g := Written(f, o, b[i][from..from + n]);
    forall p | o <= p < o + n ensures g[p] == Concat(b)[p] {
      ConcatAt(b, i, p - Offset(b, i));
    }
  }

  /** A chunk of zeros need not be written: the file is zero there already. */
  lemma SkipSettles(b: Blocks, f: seq<Byte>, i: nat, from: nat, n: nat)
    requires ZeroOrFinal(b, f) && i < |b| && from + n <= |b[i]|
    requires Settled(b, f, i, from) && AllZero(b[i][from..from + n])
    ensures Settled(b, f, i, from + n)
  {
    forall p | Offset(b, i) + from <= p < Offset(b, i) + from + n && p < |f|
      ensures f[p] == Concat(b)[p]
    {
      var j := p - Offset(b, i);
      ConcatAt(b, i, j);
      assert b[i][from..from + n][j - from] == 0;
    }
  }

  /** When worker t moves on, whatever it lets go of is in the file or reported. */
  lemma WorkerMoves(b: Blocks, s: State, t: nat, w: Worker, file: seq<Byte>, mutex: Option<nat>)
    requires Inv(b, s) && t < |s.workers| && !s.workers[t].Exited? && Grows(b, s.file, file) && ZeroOrFinal(b, file)
    requires WorkerOk(b, s.(file := file), w)
    requires forall i: nat | Holds(w, i) :: Holds(s.workers[t], i)
    requires forall i: nat | Holds(s.workers[t], i) && !Holds(w, i) && i < |b| ::
               Settled(b, file, i, |b[i]|) || w == Exited(-1)
    requires InLock(w) <==> mutex == Some(t)
    requires forall u: nat | u != t :: s.mutex == Some(u) <==> mutex == Some(u)
    ensures Inv(b, s.(workers := s.workers[t := w], file := file, mutex := mutex))
  {
    var r := s.(workers := s.workers[t := w], file := file, mutex := mutex);
    forall u | 0 <= u < |r.workers| ensures WorkerOk(b, r, r.workers[u]) {
      if u != t { assert WorkerOk(b, s, s.workers[u]); }
    }
    forall i | 0 <= i < r.next ensures Covered(b, r, i) {
      CoverStays(b, s, t, w, file, mutex, i);
    }
  }

  lemma CoverStays(b: Blocks, s: State, t: nat, w: Worker, file: seq<Byte>, mutex: Option<nat>, i: nat)
    requires i < |b| && Covered(b, s, i) && t < |s.workers| && Grows(b, s.file, file)
    requires Holds(s.workers[t], i) && !Holds(w, i) ==> Settled(b, file, i, |b[i]|) || w == Exited(-1)
    requires s.workers[t] != Exited(-1) || w == s.workers[t]
    ensures Covered(b, s.(workers := s.workers[t := w], file := file, mutex := mutex), i)
  {
    var r := s.(workers := s.workers[t := w], file := file, mutex := mutex);
    if Settled(b, s.file, i, |b[i]|) {
      assert Settled(b, file, i, |b[i]|);
    } else if u :| 0 <= u < |s.workers| && Holds(s.workers[u], i) {
      if u != t { assert Holds(r.workers[u], i); }
      else if Holds(w, i) { assert Holds(r.workers[t], i); }
      else if w == Exited(-1) { assert r.workers[t] == Exited(-1); }
    } else if u :| 0 <= u < |s.workers| && s.workers[u] == Exited(-1) {
      assert r.workers[u] == Exited(-1);
    }
  }

  lemma ContinueOk(b: Blocks, s: State, t: nat, file: seq<Byte>, i: nat, done: nat, r: Result)
    requires Inv(b, s) && t < |s.workers| && !InLock(s.workers[t]) && Holds(s.workers[t], i)
    requires i < s.next && Grows(b, s.file, file) && ZeroOrFinal(b, file)
    requires done <= |b[i]| && Settled(b, file, i, done) && (r == StreamEnd ==> done == |b[i]|)
    ensures Inv(b, s.(workers := s.workers[t := Continue(i, done, r)], file := file))
  {
    hide ZeroOrFinal, Grows, Settled, Exclusive, Covered, Inv;
    assert s.mutex != Some(t) by { WorkerFacts(b, s, t); }
    WorkerMoves(b, s, t, Continue(i, done, r), file, s.mutex);
  }

  lemma WorkerFacts(b: Blocks, s: State, t: nat)
    requires Inv(b, s) && t < |s.workers|
    ensures s.next <= |b| && ZeroOrFinal(b, s.file) && Grows(b, s.file, s.file)
    ensures InLock(s.workers[t]) <==> s.mutex == Some(t)
    ensures WorkerOk(b, s, s.workers[t])
  {
  }

  lemma DecodeStep(b: Blocks, s: State, e: Step)
    requires Inv(b, s) && Enabled(b, s, e) && e.Decode?
    ensures Inv(b, Apply(b, s, e))
  {
    hide ZeroOrFinal, Settled, Exclusive, Covered, Inv;
    var w, t, r := s.workers[e.t], e.t, e.result;
    var size := w.filled + e.n;
    WorkerFacts(b, s, t);
    if (size == BUFFER_SIZE || r == StreamEnd) && AllZero(b[w.block][w.done..w.done + size]) {
      SkipSettles(b, s.file, w.block, w.done, size);
      ContinueOk(b, s, t, s.file, w.block, w.done + size, r);
    } else {
      WorkerMoves(b, s, t, Decoded(b, w, e.n, r), s.file, s.mutex);
    }
  }

  lemma PwriteStep(b: Blocks, s: State, e: Step)
    requires Inv(b, s) && Enabled(b, s, e) && e.Pwrite?
    ensures Inv(b, Apply(b, s, e))
  {
    hide ZeroOrFinal, Settled, Exclusive, Covered, Grows, Inv, Written, Concat, Offset;
    var w, t, n := s.workers[e.t], e.t, e.n;
    var file := Apply(b, s, e).file;
    WorkerFacts(b, s, t);
    WriteGrows(b, s.file, w.block, w.done + w.written, n);
    assert file == Written(s.file, Offset(b, w.block) + (w.done + w.written),
                           b[w.block][w.done + w.written..w.done + w.written + n]);
    if w.written + n == w.size {
      ContinueOk(b, s, t, file, w.block, w.done + w.size, w.result);
    } else {
      WorkerMoves(b, s, t, w.(written := w.written + n), file, s.mutex);
    }
  }

  lemma IterateStep(b: Blocks, s: State, e: Step)
    requires Inv(b, s) && Enabled(b, s, e) && e.Iterate?
    ensures Inv(b, Apply(b, s, e))
  {
    hide Settled, Concat;
    var t, r := e.t, Apply(b, s, e);
    WorkerFacts(b, s, t);
    forall u | 0 <= u < |r.workers| ensures WorkerOk(b, r, r.workers[u]) {
      if u != t { assert WorkerOk(b, s, s.workers[u]); }
    }
    forall i | 0 <= i < r.next ensures Covered(b, r, i) {
      if i < s.next {
        assert Covered(b, s, i);
        CoverStays(b, s, t, r.workers[t], s.file, s.mutex, i);
      } else if b[i] != [] {
        assert Holds(r.workers[t], i);
      } else {
        NothingToSettle(b, r.file, i);
      }
    }
    NonEmptySkip(b, s.next, r.next);
  }

  lemma {:induction false} NonEmptySkip(b: Blocks, i: nat, k: nat)
    requires i <= k <= |b|
    requires forall l | i <= l < k - 1 :: b[l] == []
    ensures NonEmptyBelow(b, k) == NonEmptyBelow(b, i)
                                   + if i < k && b[k - 1] != [] then [k - 1] else []
    decreases k
  {
    if i < k { NonEmptySkip(b, i, k - 1); }
  }

  lemma {:induction false} StepKeepsInv(b: Blocks, s: State, e: Step)
    requires Inv(b, s) && Enabled(b, s, e)
    ensures Inv(b, Apply(b, s, e))
  {
    hide ZeroOrFinal, Settled, Covered;
    var t := e.t;
    WorkerFacts(b, s, t);
    match e
    case Lock(_) => WorkerMoves(b, s, t, Locked, s.file, Some(t));
    case Iterate(_) => IterateStep(b, s, e);
    case Unlock(_) => UnlockStep(b, s, e);
    case Decode(_, _, _) => DecodeStep(b, s, e);
    case Pwrite(_, _) => PwriteStep(b, s, e);
    case Fail(_) => WorkerMoves(b, s, t, Exited(-1), s.file, s.mutex);
  }

  lemma UnlockStep(b: Blocks, s: State, e: Step)
    requires Inv(b, s) && Enabled(b, s, e) && e.Unlock?
    ensures Inv(b, Apply(b, s, e))
  {
    WorkerFacts(b, s, e.t);
    WorkerMoves(b, s, e.t, Apply(b, s, e).workers[e.t], s.file, None);
  }

  lemma InitInv(b: Blocks, n: nat)
    ensures Inv(b, Init(b, n))
  {
  }

  /** The invariant holds in every state of every run, for any number of workers. */
  lemma {:induction false} RunInv(b: Blocks, n: nat, trace: seq<State>, steps: seq<Step>, k: nat)
    requires IsRun(b, n, trace, steps) && k < |trace|
    ensures Inv(b, trace[k]) && |trace[k].workers| == n
    decreases k
  {
    if k == 0 {
      InitInv(b, n);
    } else {
      RunInv(b, n, trace, steps, k - 1);
      StepKeepsInv(b, trace[k - 1], steps[k - 1]);
    }
  }

  /** In every interleaving of any positive number of workers, if all of them report success
      then the file is the concatenation of the decoded blocks, and every block that is not
      empty was claimed exactly once, in index order. */
  lemma {:induction false} AllSucceed(b: Blocks, n: nat, trace: seq<State>, steps: seq<Step>, k: nat)
    requires IsRun(b, n, trace, steps) && k < |trace| && 0 < n
    requires forall w | w in trace[k].workers :: w == Exited(0)
    ensures trace[k].file == Concat(b)
    ensures trace[k].claims == NonEmptyBelow(b, |b|)
  {
    hide Inv, Concat, NonEmptyBelow, IsRun;
    RunInv(b, n, trace, steps, k);
    var w := trace[k].workers;
    forall t | 0 <= t < |w| ensures w[t] == Exited(0) { assert w[t] in w; }
    FinalState(b, trace[k]);
  }

  lemma {:induction false} FinalState(b: Blocks, s: State)
    requires Inv(b, s) && s.workers != []
    requires forall t | 0 <= t < |s.workers| :: s.workers[t] == Exited(0)
    ensures s.file == Concat(b) && s.claims == NonEmptyBelow(b, |b|)
  {
    hide Settled, Concat, NonEmptyBelow;
    assert WorkerOk(b, s, s.workers[0]);
    forall i | 0 <= i < |b| ensures Settled(b, s.file, i, |b[i]|) {
      if i < s.next { assert Covered(b, s, i); } else { NothingToSettle(b, s.file, i); }
    }
    AllSettled(b, s.file, |b|);
    assert b[..|b|] == b;
    NothingLeft(b, s.next, |b|);
  }

  lemma NothingToSettle(b: Blocks, f: seq<Byte>, i: nat)
    requires i <= |b|
    ensures Settled(b, f, i, 0)
  {
  }

  lemma {:induction false} AllSettled(b: Blocks, f: seq<Byte>, n: nat)
    requires |f| == |Concat(b)| && n <= |b|
    requires forall i | 0 <= i < n :: Settled(b, f, i, |b[i]|)
    ensures |Concat(b[..n])| <= |f| && f[..|Concat(b[..n])|] == Concat(b)[..|Concat(b[..n])|]
    decreases n
  {
    if 0 < n {
      AllSettled(b, f, n - 1);
      OffsetStep(b, n - 1);
      assert Settled(b, f, n - 1, |b[n - 1]|);
    }
  }

  lemma {:induction false} NothingLeft(b: Blocks, i: nat, k: nat)
    requires i <= k <= |b| && forall l | i <= l < k :: b[l] == []
    ensures NonEmptyBelow(b, k) == NonEmptyBelow(b, i)
    decreases k
  {
    if i < k { NothingLeft(b, i, k - 1); }
  }

  /** At every moment of every run, failures included, each byte of the file is zero or has its
      final value, and no two workers are at work on the same block. */
  lemma NeverWrong(b: Blocks, n: nat, trace: seq<State>, steps: seq<Step>, k: nat)
    requires IsRun(b, n, trace, steps) && k < |trace|
    ensures ZeroOrFinal(b, trace[k].file) && Exclusive(trace[k])
  {
    RunInv(b, n, trace, steps, k);
  }

  // ---- When workers fail, and that they need not

  /** A step by which worker t learns that it has failed. */
  predicate Fails(e: Step, t: nat) {
    e == Fail(t) || (e.Decode? && e.t == t && e.result == Error)
  }

  /** The worker reports failure, or will once its last chunk is written. */
  predicate Failing(w: Worker) {
    (w.Exited? && w.status != 0) || (w.Writing? && w.result == Error)
  }

  /** In every run, a worker that reports failure had a call fail or was given an error by the
      decoder. */
  lemma {:induction false} FailureHasCause(b: Blocks, n: nat, trace: seq<State>, steps: seq<Step>, k: nat, t: nat)
    returns (j: nat)
    requires IsRun(b, n, trace, steps) && k < |trace| && t < |trace[k].workers| && Failing(trace[k].workers[t])
    ensures j < k && Fails(steps[j], t)
    decreases k
  {
    hide AllZero, NextNonEmpty, Written, Concat;
    if k == 0 {
      assert false;
    } else if Fails(steps[k - 1], t) {
      j := k - 1;
    } else {
      var e := steps[k - 1];
      assert trace[k - 1 + 1] == Apply(b, trace[k - 1], e);
      assert Failing(trace[k - 1].workers[t]);
      j := FailureHasCause(b, n, trace, steps, k - 1, t);
    }
  }

  /** And whoever has, never reports success. */
  lemma {:induction false} FailureIsReported(b: Blocks, n: nat, trace: seq<State>, steps: seq<Step>,
                                             j: nat, k: nat, t: nat)
    requires IsRun(b, n, trace, steps) && j < k < |trace| && Fails(steps[j], t)
    ensures t < |trace[k].workers| && Failing(trace[k].workers[t])
    decreases k
  {
    hide AllZero, NextNonEmpty, Written, Concat, Inv;
    var e := steps[k - 1];
    assert trace[k - 1 + 1] == Apply(b, trace[k - 1], e);
    if j < k - 1 {
      FailureIsReported(b, n, trace, steps, j, k - 1, t);
    }
  }

  predicate NoneFailing(s: State) {
    forall t | 0 <= t < |s.workers| :: !Failing(s.workers[t])
  }

  /** How much a worker may still have to do before it looks for another block. */
  function Work(b: Blocks, w: Worker): nat {
    match w
    case Idle => 4
    case Locked => 3
    case Leaving => 2
    case Claimed(i) => 7 + if i < |b| then 2 * |b[i]| else 0
    case Decoding(i, done, _) => 6 + if i < |b| && done <= |b[i]| then 2 * (|b[i]| - done) else 0
    case Writing(i, done, _, _, _) => 5 + if i < |b| && done <= |b[i]| then 2 * (|b[i]| - done) else 0
    case Exited(_) => 0
  }

  function TotalWork(b: Blocks, ws: seq<Worker>): nat {
    if ws == [] then 0 else Work(b, ws[0]) + TotalWork(b, ws[1..])
  }

  lemma {:induction false} TotalWorkUpdate(b: Blocks, ws: seq<Worker>, t: nat, w: Worker)
    requires t < |ws|
    ensures TotalWork(b, ws[t := w]) == TotalWork(b, ws) - Work(b, ws[t]) + Work(b, w)
    decreases |ws|
  {
    if 0 < t {
      TotalWorkUpdate(b, ws[1..], t - 1, w);
      assert ws[t := w][1..] == ws[1..][t - 1 := w];
    } else {
      assert ws[t := w][1..] == ws[1..];
    }
  }

  /** How many blocks are left to claim, and whether the end is still to be noticed. */
  function Unclaimed(b: Blocks, s: State): nat
    requires s.next <= |b|
  {
    |b| - s.next + if s.finished then 0 else 1
  }

  /** A step of worker t that brings it on when nothing goes wrong: all that fits into the buffer
      is decoded, and all that is in it written. */
  function NextStep(b: Blocks, w: Worker, t: nat): Step {
    match w
    case Idle => Lock(t)
    case Locked => Iterate(t)
    case Decoding(i, done, filled) =>
      if i < |b| && done + filled <= |b[i]| && filled <= BUFFER_SIZE then
        var left := |b[i]| - done - filled;
        if left <= BUFFER_SIZE - filled then Decode(t, left, StreamEnd)
        else Decode(t, BUFFER_SIZE - filled, Running)
      else Fail(t)
    case Writing(_, _, size, written, _) => if written < size then Pwrite(t, size - written) else Fail(t)
    case _ => Unlock(t)
  }

  /** Such a step can be taken by a worker that is in the lock, or by any when none is. */
  lemma NextStepRuns(b: Blocks, s: State, t: nat)
    requires Inv(b, s) && NoneFailing(s) && t < |s.workers| && !s.workers[t].Exited?
    requires s.mutex == None || s.mutex == Some(t)
    ensures var e := NextStep(b, s.workers[t], t);
            && Enabled(b, s, e) && !e.Fail? && e.t == t
            && (e.Decode? ==> e.result != Error)
  {
    hide Inv, ZeroOrFinal, Settled;
    WorkerFacts(b, s, t);
  }

  /** It leaves no worker failing, and less to do. */
  lemma NextStepWorks(b: Blocks, s: State, t: nat)
    requires Inv(b, s) && NoneFailing(s) && t < |s.workers| && Enabled(b, s, NextStep(b, s.workers[t], t))
    requires var e := NextStep(b, s.workers[t], t); !e.Fail? && e.t == t
    ensures var r := Apply(b, s, NextStep(b, s.workers[t], t));
            && NoneFailing(r) && r.next <= |b| && |r.workers| == |s.workers| && s.next <= |b|
            && (Unclaimed(b, r) < Unclaimed(b, s)
                || (Unclaimed(b, r) == Unclaimed(b, s) && TotalWork(b, r.workers) < TotalWork(b, s.workers)))
  {
    hide Inv, ZeroOrFinal, Settled, Written, Concat, AllZero, TotalWork;
    WorkerFacts(b, s, t);
    var r := Apply(b, s, NextStep(b, s.workers[t], t));
    TotalWorkUpdate(b, s.workers, t, r.workers[t]);
  }

  /** From every state that a run can reach with no worker failing, some continuation ends with
      all of them reporting success: there is no deadlock, and no failure without a cause. */
  lemma {:induction false} CanSucceed(b: Blocks, n: nat, trace: seq<State>, steps: seq<Step>)
    returns (trace': seq<State>, steps': seq<Step>)
    requires IsRun(b, n, trace, steps) && NoneFailing(trace[|steps|])
    ensures IsRun(b, n, trace', steps') && steps <= steps' && trace <= trace'
    ensures forall w | w in trace'[|steps'|].workers :: w == Exited(0)
    decreases (RunInv(b, n, trace, steps, |steps|); Unclaimed(b, trace[|steps|])),
              TotalWork(b, trace[|steps|].workers)
  {
    hide Inv, Enabled, Apply, NextStep, TotalWork, Unclaimed;
    var s := trace[|steps|];
    RunInv(b, n, trace, steps, |steps|);
    if forall t | 0 <= t < |s.workers| :: s.workers[t].Exited? {
      return trace, steps;
    }
    var t := Runnable(b, s);
    var e := NextStep(b, s.workers[t], t);
    NextStepRuns(b, s, t);
    NextStepWorks(b, s, t);
    ExtendRun(b, n, trace, steps, e);
    trace', steps' := CanSucceed(b, n, trace + [Apply(b, s, e)], steps + [e]);
  }

  lemma Runnable(b: Blocks, s: State) returns (t: nat)
    requires Inv(b, s) && exists t :: 0 <= t < |s.workers| && !s.workers[t].Exited?
    ensures t < |s.workers| && !s.workers[t].Exited? && (s.mutex == None || s.mutex == Some(t))
  {
    t :| 0 <= t < |s.workers| && !s.workers[t].Exited?;
    if s.mutex.Some? { t := s.mutex.value; }
  }

  lemma ExtendRun(b: Blocks, n: nat, trace: seq<State>, steps: seq<Step>, e: Step)
    requires IsRun(b, n, trace, steps) && Enabled(b, trace[|steps|], e)
    ensures IsRun(b, n, trace + [Apply(b, trace[|steps|], e)], steps + [e])
  {
    hide Enabled, Apply, Init;
    var trace', steps' := trace + [Apply(b, trace[|steps|], e)], steps + [e];
    forall k | 0 <= k < |steps'|
      ensures Enabled(b, trace'[k], steps'[k]) && trace'[k + 1] == Apply(b, trace'[k], steps'[k])
    {
      if k < |steps| {
        assert trace'[k] == trace[k] && trace'[k + 1] == trace[k + 1];
      }
    }
  }

  /** So for all blocks and any number of workers there is a run in which all of them succeed. */
  lemma SuccessfulRun(b: Blocks, n: nat) returns (trace: seq<State>, steps: seq<Step>)
    ensures IsRun(b, n, trace, steps)
    ensures forall w | w in trace[|steps|].workers :: w == Exited(0)
    ensures 0 < n ==> trace[|steps|].file == Concat(b)
  {
    assert IsRun(b, n, [Init(b, n)], []);
    trace, steps := CanSucceed(b, n, [Init(b, n)], []);
    if 0 < n { AllSucceed(b, n, trace, steps, |steps|); }
  }
}
