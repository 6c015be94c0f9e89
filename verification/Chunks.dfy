/** `process_layer` as a concurrent machine. Each chunk of the current row is one thread that
    first reads and hashes its nodes and later writes the result; any thread may move next.
    Whatever the interleaving, the outcome is one sequential splice of the whole next row. */
module Chunks {
  import opened Powers
  import opened Sequences
  import opened Rows

  /** `VecStore::copy_from_slice`: grow with default elements if need be, then overwrite. */
  function Splice<E>(store: seq<E>, buf: seq<E>, start: nat, fill: E): (r: seq<E>)
    ensures |r| == if |store| < start + |buf| then start + |buf| else |store|
  {
    var grown := if |store| < start + |buf|
                 then store + seq(start + |buf| - |store|, _ => fill)
                 else store;
    grown[..start] + buf + grown[start + |buf|..]
  }

  lemma SpliceAt<E>(store: seq<E>, buf: seq<E>, start: nat, fill: E, i: nat)
    requires start <= i < start + |buf| || i < |store|
    ensures i < |Splice(store, buf, start, fill)|
    ensures Splice(store, buf, start, fill)[i] == if start <= i < start + |buf| then buf[i - start] else store[i]
  {}

  // ---------- pieces of one target row, written in any order ----------

  /** Element i of the target row is in its place. */
  ghost predicate Cell<E>(store: seq<E>, target: seq<E>, ws: nat, i: nat)
    requires i < |target|
  {
    ws + i < |store| && store[ws + i] == target[i]
  }

  /** `store` is `initial` with the elements `cells` of `target` in place from `ws` on. */
  ghost predicate Written<E>(store: seq<E>, initial: seq<E>, target: seq<E>, ws: nat, cells: set<nat>) {
    && ws <= |initial| <= |store|
    && (|store| == |initial| || |store| <= ws + |target|)
    && (forall i: nat | i < ws :: store[i] == initial[i])
    && (forall i: nat | ws + |target| <= i < |initial| :: store[i] == initial[i])
    && (forall i: nat | i < |target| && i in cells :: Cell(store, target, ws, i))
  }

  /** The elements covered by the pieces in `done`. */
  ghost function CellsOf(n: nat, piece: nat, done: set<nat>): set<nat>
    requires piece > 0
  {
    set i: nat | i < n && i / piece in done
  }

  lemma WriteCells<E>(store: seq<E>, initial: seq<E>, target: seq<E>, ws: nat,
                      cells: set<nat>, more: set<nat>, lo: nat, hi: nat, fill: E)
    requires Written(store, initial, target, ws, cells) && lo <= hi <= |target|
    requires forall i: nat | i in more :: i in cells || lo <= i < hi
    ensures Written(Splice(store, target[lo..hi], ws + lo, fill), initial, target, ws, more)
  {
    var buf, at := target[lo..hi], ws + lo;
    var next := Splice(store, buf, at, fill);
    forall i: nat | i < |initial| && (i < ws || ws + |target| <= i)
      ensures next[i] == initial[i]
    {
      SpliceAt(store, buf, at, fill, i);
    }
    forall i: nat | i < |target| && i in more
      ensures Cell(next, target, ws, i)
    {
      if !(lo <= i < hi) { assert Cell(store, target, ws, i); }
      SpliceAt(store, buf, at, fill, ws + i);
    }
  }

  lemma CellsOfPiece(n: nat, piece: nat, done: set<nat>, k: nat)
    requires piece > 0 && k < ChunkCount(n, piece)
    ensures k * piece < n
    ensures forall i: nat | i in CellsOf(n, piece, done + {k}) ::
              i in CellsOf(n, piece, done) || (k * piece <= i < k * piece + piece && i < n)
  {
    ChunkInside(n, piece, k);
    forall i: nat | i in CellsOf(n, piece, done + {k})
      ensures i in CellsOf(n, piece, done) || k * piece <= i < k * piece + piece
    {
      assert i == (i / piece) * piece + i % piece;
    }
  }

  lemma WritePiece<E>(store: seq<E>, initial: seq<E>, target: seq<E>, ws: nat, piece: nat, done: set<nat>, k: nat,
                      fill: E)
    requires piece > 0 && Written(store, initial, target, ws, CellsOf(|target|, piece, done))
    requires k < ChunkCount(|target|, piece)
    ensures Written(Splice(store, Chunk(target, piece, k), ws + k * piece, fill),
                    initial, target, ws, CellsOf(|target|, piece, done + {k}))
  {
    hide CellsOf, Written, ChunkCount, Splice;
    CellsOfPiece(|target|, piece, done, k);
    var lo := k * piece;
    var hi := if lo + piece <= |target| then lo + piece else |target|;
    assert Chunk(target, piece, k) == target[lo..hi];
    WriteCells(store, initial, target, ws, CellsOf(|target|, piece, done), CellsOf(|target|, piece, done + {k}),
               lo, hi, fill);
  }

  lemma AllWritten<E>(store: seq<E>, initial: seq<E>, target: seq<E>, ws: nat, piece: nat, done: set<nat>, fill: E)
    requires piece > 0 && Written(store, initial, target, ws, CellsOf(|target|, piece, done))
    requires forall k: nat | k < ChunkCount(|target|, piece) :: k in done
    ensures store == Splice(initial, target, ws, fill)
  {
    forall i: nat | i < |target|
      ensures Cell(store, target, ws, i)
    {
      PieceOf(i, |target|, piece);
    }
    if |target| > 0 { assert Cell(store, target, ws, |target| - 1); }
    var whole := Splice(initial, target, ws, fill);
    forall i: nat | i < |store|
      ensures store[i] == whole[i]
    {
      if ws <= i < ws + |target| { assert Cell(store, target, ws, i - ws); }
      SpliceAt(initial, target, ws, fill, i);
    }
  }

  lemma PieceOf(i: nat, n: nat, piece: nat)
    requires piece > 0 && i < n
    ensures i / piece < ChunkCount(n, piece)
  {
    var c := ChunkCount(n, piece);
    assert n + piece - 1 == c * piece + (n + piece - 1) % piece;
    GroupFits(i, piece, c);
  }

  // ---------- the layer machine ----------

  /** Where chunk k of a row starts. */
  function ChunkFrom(start: nat, chunk: nat, k: nat): nat {
    MulMono(0, k, chunk);
    start + k * chunk
  }

  /** How long chunk k of a row of `width` nodes is. */
  function ChunkSize(width: nat, chunk: nat, k: nat): nat
    requires chunk > 0 && k < ChunkCount(width, chunk)
  {
    ChunkInside(width, chunk, k);
    if width - k * chunk < chunk then width - k * chunk else chunk
  }

  /** One call of `process_layer`: `count` threads, one per chunk of the row read. `admit` is the
      bounds check of the store's range read. */
  datatype Job<!E> = Job(node: NodeHash<E>, b: nat, level: nat, width: nat, rs: nat, ws: nat,
                         chunk: nat, count: nat, fill: E, admit: (nat, nat) -> bool)
  {
    predicate Valid() {
      b > 0 && chunk > 0 && chunk % b == 0 && count <= ChunkCount(width, chunk)
    }

    function Threads(): nat {
      count
    }

    function Size(k: nat): nat
      requires Valid() && k < Threads()
    {
      ChunkSize(width, chunk, k)
    }

    /** Where thread k reads. */
    function From(k: nat): nat {
      ChunkFrom(rs, chunk, k)
    }

    /** Where thread k writes. */
    function To(k: nat): nat
      requires Valid()
    {
      MulMono(0, k, chunk);
      ws + (k * chunk) / b
    }

    /** Chunk k passes the bounds check. */
    predicate Admits(k: nat)
      requires Valid() && k < Threads()
    {
      admit(From(k), From(k) + Size(k))
    }

    /** Every chunk passes the bounds check and the row is made of whole groups. */
    ghost predicate Runs(initial: seq<E>) {
      && Valid()
      && count == ChunkCount(width, chunk)
      && width % b == 0
      && rs + width <= ws <= |initial|
      && (forall k: nat | k < Threads() :: Admits(k))
    }

    ghost function Target(initial: seq<E>): seq<E>
      requires Valid() && rs + width <= |initial|
    {
      HashLayer(node, b, initial[rs..rs + width], level)
    }
  }

  datatype Thread<E> = Idle | Holding(out: seq<E>) | Done | Failed

  datatype State<E> = State(store: seq<E>, threads: seq<Thread<E>>)

  function Init<E>(job: Job<E>, store: seq<E>): State<E>
    requires job.Valid()
  {
    State(store, seq(job.Threads(), _ => Idle))
  }

  /** What thread k does next: read and hash its chunk, or write what it holds. */
  function Step<E>(job: Job<E>, st: State<E>, k: nat): (next: State<E>)
    requires job.Valid() && |st.threads| == job.Threads() && k < job.Threads()
    ensures |next.threads| == job.Threads()
  {
    match st.threads[k]
    case Idle =>
      var start, size := job.From(k), job.Size(k);
      if !job.Admits(k) || start + size > |st.store| then
        st.(threads := st.threads[k := Failed])
      else
        var out := HashLayer(job.node, job.b, st.store[start..start + size], job.level);
        st.(threads := st.threads[k := if |out| == size / job.b then Holding(out) else Failed])
    case Holding(out) =>
      State(Splice(st.store, out, job.To(k), job.fill), st.threads[k := Done])
    case _ => st
  }

  ghost function DoneThreads<E>(threads: seq<Thread<E>>): set<nat> {
    set k: nat | k < |threads| && threads[k].Done?
  }

  /** What holds in every reachable state of a job that can run. */
  ghost predicate Inv<E>(job: Job<E>, initial: seq<E>, st: State<E>)
    requires job.Runs(initial)
  {
    && |st.threads| == job.Threads()
    && PieceShape(job, initial)
    && Written(st.store, initial, job.Target(initial), job.ws,
               CellsOf(|job.Target(initial)|, job.chunk / job.b, DoneThreads(st.threads)))
    && (forall k: nat | k < job.Threads() ::
          !st.threads[k].Failed?
          && (st.threads[k].Holding? ==> st.threads[k].out == Chunk(job.Target(initial), job.chunk / job.b, k)))
  }

  /** The next row is cut into as many pieces as there are threads. */
  ghost predicate PieceShape<E>(job: Job<E>, initial: seq<E>)
    requires job.Runs(initial)
  {
    && job.chunk / job.b > 0
    && |job.Target(initial)| == job.width / job.b
    && ChunkCount(|job.Target(initial)|, job.chunk / job.b) == job.Threads()
  }

  lemma ScaledCount(w: nat, c: nat, b: nat)
    requires b > 0 && c > 0
    ensures c * b > 0 && ChunkCount(w * b, c * b) == ChunkCount(w, c)
  {
    var n := ChunkCount(w, c);
    assert w + c - 1 == n * c + (w + c - 1) % c;
    var slack := n * c - w;
    assert 0 <= slack < c;
    MulMono(slack + 1, c, b);
    assert w * b + c * b - 1 == n * (c * b) + (c * b - 1 - slack * b) by {
      MulAssoc(n, c, b);
      assert slack * b == (n * c) * b - w * b;
    }
    DivUnique(w * b + c * b - 1, c * b, n, c * b - 1 - slack * b);
  }

  lemma ShapeHolds<E>(job: Job<E>, initial: seq<E>)
    requires job.Runs(initial)
    ensures PieceShape(job, initial)
  {
    var w, c := job.width / job.b, job.chunk / job.b;
    ExactDiv(job.width, job.b);
    ExactDiv(job.chunk, job.b);
    ChunkCountExact(w, job.b);
    ScaledCount(w, c, job.b);
  }

  /** The offsets of chunk k, in nodes of the row read and of the row written. */
  lemma ChunkOffsets<E>(job: Job<E>, k: nat)
    requires job.Valid() && job.width % job.b == 0 && k < job.Threads()
    ensures var c, w := job.chunk / job.b, job.width / job.b;
            c > 0 && k < ChunkCount(w, c) && k * c < w
            && (k * job.chunk) / job.b == k * c && k * job.chunk == (k * c) * job.b
            && job.Size(k) == (if w - k * c < c then w - k * c else c) * job.b
  {
    hide ChunkCount;
    ExactDiv(job.chunk, job.b);
    ExactDiv(job.width, job.b);
    ScaledChunk(job.width / job.b, job.chunk / job.b, job.b, k);
  }

  lemma ScaledChunk(w: nat, c: nat, b: nat, k: nat)
    requires b > 0 && c > 0 && c * b > 0 && w * b >= 0 && k < ChunkCount(w * b, c * b)
    ensures k < ChunkCount(w, c) && k * c < w
    ensures (k * (c * b)) / b == k * c && k * (c * b) == (k * c) * b
    ensures ChunkSize(w * b, c * b, k) == (if w - k * c < c then w - k * c else c) * b
  {
    hide ChunkCount;
    ScaledCount(w, c, b);
    ChunkInside(w, c, k);
    MulAssoc(k, c, b);
    MulDiv(k * c, b);
    assert (w - k * c) * b == w * b - (k * c) * b;
    if w - k * c < c { MulMono(w - k * c + 1, c, b); } else { MulMono(c, w - k * c, b); }
  }

  /** Hashing chunk k of the row gives piece k of the next row. */
  lemma ChunkHash<E>(job: Job<E>, initial: seq<E>, store: seq<E>, k: nat)
    requires job.Runs(initial) && PieceShape(job, initial) && k < job.Threads()
    requires job.ws <= |store| && forall i: nat | i < job.ws :: store[i] == initial[i]
    ensures var start := job.From(k);
            start + job.Size(k) <= job.rs + job.width <= |store|
            && HashLayer(job.node, job.b, store[start..start + job.Size(k)], job.level)
               == Chunk(job.Target(initial), job.chunk / job.b, k)
            && |Chunk(job.Target(initial), job.chunk / job.b, k)| == job.Size(k) / job.b
  {
    hide HashLayer, ChunkCount, ChunkSize;
    ExactDiv(job.width, job.b);
    ExactDiv(job.chunk, job.b);
    ScaledChunk(job.width / job.b, job.chunk / job.b, job.b, k);
    PieceHash(job.node, job.b, job.level, initial, store, job.rs, job.ws, job.width / job.b, job.chunk / job.b, k);
  }

  /** The same, in groups of b nodes: `w` of them in the row, `c` of them in a chunk. */
  lemma PieceHash<E>(node: NodeHash<E>, b: nat, level: nat, initial: seq<E>, store: seq<E>, rs: nat, ws: nat,
                     w: nat, c: nat, k: nat)
    requires b > 0 && c > 0 && c * b > 0 && w * b >= 0 && rs + w * b <= ws <= |initial| && ws <= |store|
    requires forall i: nat | i < ws :: store[i] == initial[i]
    requires k < ChunkCount(w * b, c * b)
    ensures var start, size := ChunkFrom(rs, c * b, k), ChunkSize(w * b, c * b, k);
            var target := HashLayer(node, b, initial[rs..rs + w * b], level);
            && |target| == w && k < ChunkCount(w, c)
            && start + size <= rs + w * b <= |store|
            && HashLayer(node, b, store[start..start + size], level) == Chunk(target, c, k)
            && |Chunk(target, c, k)| == size / b
  {
    hide HashLayer, ChunkCount, ChunkSize;
    ScaledChunk(w, c, b, k);
    var s := k * c;
    var n := if w - s < c then w - s else c;
    MulDiv(n, b);
    HashLayerSlice(node, b, initial[rs..rs + w * b], level, s, s + n, w);
    RowPart(initial, store, rs, w * b, ws, s, n, b);
  }

  lemma RowPart<E>(initial: seq<E>, store: seq<E>, rs: nat, width: nat, ws: nat, s: nat, n: nat, b: nat)
    requires rs + width <= ws <= |initial| && ws <= |store| && 0 <= s * b <= (s + n) * b <= width
    requires forall i: nat | i < ws :: store[i] == initial[i]
    ensures (s + n) * b == s * b + n * b
    ensures initial[rs..rs + width][s * b..(s + n) * b] == store[rs + s * b..rs + s * b + n * b]
  {
    assert (s + n) * b == s * b + n * b;
    var lo, hi := s * b, s * b + n * b;
    SliceOfSlice(initial, rs, rs + width, lo, hi);
    assert initial[rs + lo..rs + hi] == store[rs + lo..rs + hi];
  }

  lemma InitInv<E>(job: Job<E>, initial: seq<E>)
    requires job.Runs(initial)
    ensures Inv(job, initial, Init(job, initial))
  {
    ShapeHolds(job, initial);
    assert DoneThreads(Init(job, initial).threads) == {};
  }

  /** Every move of every thread keeps the invariant. */
  lemma StepInv<E>(job: Job<E>, initial: seq<E>, st: State<E>, k: nat)
    requires job.Runs(initial) && Inv(job, initial, st) && k < job.Threads()
    ensures Inv(job, initial, Step(job, st, k))
  {
    match st.threads[k]
    case Idle => ReadInv(job, initial, st, k);
    case Holding(_) => WriteInv(job, initial, st, k);
    case Done =>
    case Failed =>
  }

  lemma ReadInv<E>(job: Job<E>, initial: seq<E>, st: State<E>, k: nat)
    requires job.Runs(initial) && Inv(job, initial, st) && k < job.Threads() && st.threads[k].Idle?
    ensures Inv(job, initial, Step(job, st, k))
  {
    hide HashLayer, ChunkCount, ChunkFrom, ChunkSize, Chunk, CellsOf, Splice;
    ChunkHash(job, initial, st.store, k);
    assert DoneThreads(Step(job, st, k).threads) == DoneThreads(st.threads);
  }

  lemma WriteInv<E>(job: Job<E>, initial: seq<E>, st: State<E>, k: nat)
    requires job.Runs(initial) && Inv(job, initial, st) && k < job.Threads() && st.threads[k].Holding?
    ensures Inv(job, initial, Step(job, st, k))
  {
    hide HashLayer, ChunkCount, ChunkSize, Chunk, CellsOf, Splice, Written;
    ChunkOffsets(job, k);
    WritePiece(st.store, initial, job.Target(initial), job.ws, job.chunk / job.b, DoneThreads(st.threads), k, job.fill);
    assert DoneThreads(Step(job, st, k).threads) == DoneThreads(st.threads) + {k};
  }

  /** A run: threads take turns in the order of the schedule. */
  ghost function Run<E>(job: Job<E>, st: State<E>, schedule: seq<nat>): State<E>
    requires job.Valid() && |st.threads| == job.Threads()
    requires forall i: nat | i < |schedule| :: schedule[i] < job.Threads()
    decreases |schedule|
  {
    if schedule == [] then st else Run(job, Step(job, st, schedule[0]), schedule[1..])
  }

  ghost predicate Finished<E>(st: State<E>) {
    forall k: nat | k < |st.threads| :: st.threads[k].Done?
  }

  lemma {:induction false} RunInv<E>(job: Job<E>, initial: seq<E>, st: State<E>, schedule: seq<nat>)
    requires job.Runs(initial) && Inv(job, initial, st)
    requires forall i: nat | i < |schedule| :: schedule[i] < job.Threads()
    ensures Inv(job, initial, Run(job, st, schedule))
    decreases |schedule|
  {
    if schedule != [] {
      StepInv(job, initial, st, schedule[0]);
      RunInv(job, initial, Step(job, st, schedule[0]), schedule[1..]);
    }
  }

  lemma FinishedStore<E>(job: Job<E>, initial: seq<E>, st: State<E>)
    requires job.Runs(initial) && Inv(job, initial, st) && Finished(st)
    ensures st.store == Splice(initial, job.Target(initial), job.ws, job.fill)
  {
    AllWritten(st.store, initial, job.Target(initial), job.ws, job.chunk / job.b, DoneThreads(st.threads), job.fill);
  }

  /** Every interleaving: no thread ever fails, the nodes below the write position never change,
      and once all threads are done the store is the sequential result. */
  lemma AnySchedule<E>(job: Job<E>, initial: seq<E>, schedule: seq<nat>)
    requires job.Runs(initial)
    requires forall i: nat | i < |schedule| :: schedule[i] < job.Threads()
    ensures var st := Run(job, Init(job, initial), schedule);
            && (forall k: nat | k < |st.threads| :: !st.threads[k].Failed?)
            && |st.store| >= job.ws && st.store[..job.ws] == initial[..job.ws]
            && (Finished(st) ==> st.store == Splice(initial, job.Target(initial), job.ws, job.fill))
  {
    InitInv(job, initial);
    RunInv(job, initial, Init(job, initial), schedule);
    var st := Run(job, Init(job, initial), schedule);
    if Finished(st) { FinishedStore(job, initial, st); }
  }

  /** The memory-mapped variants pair read chunks of `chunk` nodes with write chunks of `chunk / b`
      nodes over a window of `width` nodes. There are at least as many of the latter, and each is
      long enough for the hashes of its read chunk. */
  lemma ZipLosesNothing(width: nat, chunk: nat, b: nat, k: nat)
    requires b > 0 && chunk > 0 && chunk % b == 0 && k < ChunkCount(width, chunk)
    ensures chunk / b > 0 && k < ChunkCount(width, chunk / b)
    ensures k * chunk < width
    ensures var size := if width - k * chunk < chunk then width - k * chunk else chunk;
            size / b <= chunk / b && k * (chunk / b) + size / b <= width
  {
    var c := chunk / b;
    ExactDiv(chunk, b);
    ChunkInside(width, chunk, k);
    var size := if width - k * chunk < chunk then width - k * chunk else chunk;
    ProductAtLeast(c, b);
    MulMono(c, chunk, k);
    PieceOf(k * c, width, c);
    MulDiv(k, c);
    QuotientAtMost(size, b);
    QuotientBelow(size, c, b);
  }

  lemma QuotientBelow(n: nat, c: nat, b: nat)
    requires b > 0 && n <= c * b
    ensures n / b <= c
  {}

  lemma ProductAtLeast(c: nat, b: nat)
    requires b > 0
    ensures c <= c * b
  {}

  lemma QuotientAtMost(n: nat, b: nat)
    requires b > 0
    ensures n / b <= n && (n / b) * b <= n
  {
    ProductAtLeast(n / b, b);
  }

  // ---------- the scheduler ----------

  /** A thread that got past its checks was admitted and given whole groups. */
  ghost predicate Whole<E>(job: Job<E>, st: State<E>)
    requires job.Valid()
  {
    && |st.threads| == job.Threads()
    && forall k: nat | k < job.Threads() && (st.threads[k].Holding? || st.threads[k].Done?) ::
         job.Admits(k) && job.Size(k) % job.b == 0
  }

  lemma StepWhole<E>(job: Job<E>, st: State<E>, k: nat)
    requires job.Valid() && Whole(job, st) && k < job.Threads()
    ensures Whole(job, Step(job, st, k))
  {}

  /** If every chunk is made of whole groups, so is the row. */
  lemma WholeWidth<E>(job: Job<E>, st: State<E>)
    requires job.Valid() && Whole(job, st) && Finished(st) && job.count == ChunkCount(job.width, job.chunk)
    ensures job.width % job.b == 0
  {
    hide ChunkCount, ChunkSize;
    if job.width > 0 {
      var k := LastChunk(job.width, job.chunk);
      assert st.threads[k].Done?;
      WholeSum(k, job.chunk, job.Size(k), job.b);
    }
  }

  lemma LastChunk(width: nat, chunk: nat) returns (k: nat)
    requires width > 0 && chunk > 0
    ensures k < ChunkCount(width, chunk) && k * chunk + ChunkSize(width, chunk, k) == width
  {
    hide ChunkCount;
    k := (width - 1) / chunk;
    PieceOf(width - 1, width, chunk);
    assert width - 1 == k * chunk + (width - 1) % chunk;
  }

  lemma WholeSum(k: nat, x: nat, y: nat, b: nat)
    requires b > 0 && x % b == 0 && y % b == 0
    ensures (k * x + y) % b == 0
  {
    var p, q := x / b, y / b;
    ExactDiv(x, b);
    ExactDiv(y, b);
    MulAssoc(k, p, b);
    assert k * x + y == (k * p + q) * b;
    MulDiv(k * p + q, b);
  }

  ghost function Moves<E>(threads: seq<Thread<E>>): nat {
    if threads == [] then 0 else
      (match threads[0] case Idle => 2 case Holding(_) => 1 case _ => 0) + Moves(threads[1..])
  }

  lemma {:induction false} MoveDecreases<E>(threads: seq<Thread<E>>, k: nat, t: Thread<E>)
    requires k < |threads|
    requires (threads[k].Idle? && !t.Idle?) || (threads[k].Holding? && t.Done?)
    ensures Moves(threads[k := t]) < Moves(threads)
  {
    if k == 0 {
      assert threads[0 := t][1..] == threads[1..];
    } else {
      MoveDecreases(threads[1..], k - 1, t);
      assert threads[k := t][1..] == threads[1..][k - 1 := t];
    }
  }

  lemma StepDecreases<E>(job: Job<E>, st: State<E>, k: nat)
    requires job.Valid() && |st.threads| == job.Threads() && k < job.Threads()
    requires st.threads[k].Idle? || st.threads[k].Holding?
    ensures Moves(Step(job, st, k).threads) < Moves(st.threads)
    ensures forall i: nat | i < job.Threads() && i != k :: Step(job, st, k).threads[i] == st.threads[i]
  {
    hide HashLayer, ChunkCount, ChunkFrom, ChunkSize, Splice, Moves;
    MoveDecreases(st.threads, k, Step(job, st, k).threads[k]);
  }

  /** Runs all threads of a job under an arbitrary scheduler, stopping at the first failure. */
  method RunJob<E>(job: Job<E>, initial: seq<E>) returns (ok: bool, store: seq<E>)
    requires job.Valid()
    ensures job.Runs(initial) ==> ok && store == Splice(initial, job.Target(initial), job.ws, job.fill)
    ensures job.count == ChunkCount(job.width, job.chunk) && job.rs + job.width <= job.ws <= |initial| ==>
              (ok <==> job.Runs(initial))
  {
    hide HashLayer, ChunkCount, ChunkFrom, ChunkSize, Splice, Step, Inv, Moves;
    var st := Init(job, initial);
    if job.Runs(initial) { InitInv(job, initial); }
    while exists k: nat :: k < |st.threads| && (st.threads[k].Idle? || st.threads[k].Holding?)
      invariant |st.threads| == job.Threads() && Whole(job, st)
      invariant job.Runs(initial) ==> Inv(job, initial, st)
      invariant forall k: nat | k < |st.threads| :: !st.threads[k].Failed?
      decreases Moves(st.threads)
    {
      var k: nat :| k < |st.threads| && (st.threads[k].Idle? || st.threads[k].Holding?);
      StepWhole(job, st, k);
      if job.Runs(initial) { StepInv(job, initial, st, k); }
      StepDecreases(job, st, k);
      st := Step(job, st, k);
      if st.threads[k].Failed? {
        return false, st.store;
      }
    }
    assert Finished(st);
    if job.count == ChunkCount(job.width, job.chunk) { WholeWidth(job, st); }
    if job.Runs(initial) { FinishedStore(job, initial, st); }
    return true, st.store;
  }
}
