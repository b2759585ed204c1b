/** Cache coherence along histories of writes, roots and proofs: a condition on the history alone
    under which every root and every proof is that of the bytes written so far. */
module History {
  import opened Words
  import opened Bytes
  import opened FlatMemory
  import opened TreeIndex
  import opened Page
  import opened PageTree
  import opened CachedMemory

  datatype Op = Write(addr: u64, data: seq<byte>) | TakeRoot | TakeProof(addr: u64)

  // ----- what has happened to a page -----

  /** A page does not exist; was never hashed; was hashed and not written since; was hashed and then
      written, first in this chunk; or nothing is known of its flags but that it exists. */
  datatype Mark = Absent | Blank | Hashed | Cleared(chunk: nat) | Stale

  /** The flags of a page are as its mark says. */
  ghost predicate Holds(ok: seq<bool>, mark: Mark) {
    match mark
    case Absent => ok == []
    case Blank => |ok| == 128 && NoFlags(ok)
    case Hashed => |ok| == 128 && ok[1]
    case Cleared(c) => |ok| == 128 && !ok[1] && ChunksClear(ok, 64 * c, 64)
    case Stale => |ok| == 128
  }

  /** Whether a page takes a write of n bytes at offset a: anywhere if it was never hashed; inside
      one chunk if it was not written since; then only in that chunk until it is hashed again. */
  predicate Takes(mark: Mark, a: nat, n: nat) {
    match mark
    case Absent => true
    case Blank => true
    case Hashed => a % 64 + n <= 64
    case Cleared(c) => n == 0 || (a / 64 == c && a % 64 + n <= 64)
    case Stale => n == 0
  }

  function WrittenMark(mark: Mark, chunk: nat): Mark {
    match mark
    case Absent => Blank
    case Hashed => Cleared(chunk)
    case _ => mark
  }

  lemma TakesGuard(ok: seq<bool>, mark: Mark, a: nat, n: nat)
    requires Holds(ok, mark) && Takes(mark, a, n)
    ensures WriteGuard(ok, a, n)
  {
    if mark == Hashed || mark.Cleared? {
      forall i | a <= i < a + n ensures i / 64 == a / 64 && 64 * (a / 64) <= i < 64 * (a / 64) + 64 {
      }
    }
  }

  lemma WrittenHolds(ok: seq<bool>, mark: Mark, chunk: nat)
    requires Holds(ok, mark)
    ensures Holds(Written(ok, chunk), WrittenMark(mark, chunk))
  {
    OnPathTop(64 + chunk);
    if mark == Hashed {
      forall i | 64 * chunk <= i < 64 * chunk + 64 ensures i / 64 == chunk {
      }
    }
  }

  // ----- histories -----

  predicate ShortWrites(ops: seq<Op>) {
    forall i :: 0 <= i < |ops| && ops[i].Write? ==> |ops[i].data| <= 32
  }

  /** The mark of page pi after one operation. A proof covers all of the memory, as a root does. */
  function MarkAfter(mark: Mark, op: Op, pi: nat): Mark {
    match op
    case Write(addr, data) =>
      if pi == addr / 4096 then WrittenMark(mark, addr % 4096 / 64)
      else if pi in Touched(addr, |data|) then WrittenMark(mark, 0)
      else mark
    case _ => if mark == Absent then Absent else Hashed
  }

  function After(marks: nat -> Mark, op: Op): nat -> Mark {
    (pi: nat) => MarkAfter(marks(pi), op, pi)
  }

  /** What is known of the pages after a history. */
  function Marks(start: nat -> Mark, ops: seq<Op>): nat -> Mark {
    if |ops| == 0 then start else After(Marks(start, ops[..|ops| - 1]), ops[|ops| - 1])
  }

  /** Every page that a write reaches takes its part of it. */
  predicate Allowed(marks: nat -> Mark, op: Op) {
    op.Write? ==>
      var d := InPage(op.addr, |op.data|);
      && Takes(marks(op.addr / 4096), op.addr % 4096, d)
      && (d < |op.data| <= 32 ==> Takes(marks(AddrAdd(op.addr, d) / 4096), 0, |op.data| - d))
  }

  predicate Guarded(start: nat -> Mark, ops: seq<Op>) {
    forall i :: 0 <= i < |ops| ==> Allowed(Marks(start, ops[..i]), ops[i])
  }

  ghost function Replayed(f: Flat, ops: seq<Op>): Flat
    requires ShortWrites(ops)
  {
    if |ops| == 0 then f
    else
      var op := ops[|ops| - 1];
      var before := Replayed(f, ops[..|ops| - 1]);
      if op.Write? then WriteBytes(before, op.addr, op.data) else before
  }

  /** What an operation should answer on a memory. */
  ghost function Answer(K: Hash, f: Flat, op: Op): seq<Bytes32> {
    match op
    case Write(_, _) => []
    case TakeRoot => [Root(K, f)]
    case TakeProof(addr) => ProofOf(K, f, addr / 32)
  }

  /** The marks fit the flags of the memory. */
  ghost predicate Fit(m: Memory, marks: nat -> Mark)
    reads m`pages, m`okArrays, m.okArrays
  {
    forall pi: nat :: Holds(m.OkOf(pi), marks(pi))
  }

  method Perform(m: Memory, op: Op, ghost marks: nat -> Mark) returns (answer: seq<Bytes32>)
    requires m.Shape() && m.LookupOk() && m.Coherent() && Fit(m, marks)
    requires (op.Write? ==> |op.data| <= 32) && Allowed(marks, op)
    modifies m, m.nodes, m.dataArrays, m.cacheArrays, m.okArrays
    ensures m.Shape() && m.LookupOk() && m.Coherent() && m.Grew()
    ensures m.flat == if op.Write? then WriteBytes(old(m.flat), op.addr, op.data) else old(m.flat)
    ensures answer == Answer(m.K, m.flat, op)
    ensures Fit(m, After(marks, op))
  {
    hide *;
    AnswerIs(m.K, m.flat, op);
    match op
    case Write(addr, data) =>
      AllowedCanWrite(m, addr, data, marks);
      m.SetUnaligned(addr, data);
      AnswerIs(m.K, m.flat, op);
      WriteFits(m, addr, data, marks);
      answer := [];
    case TakeRoot =>
      var root := m.MerkleRoot();
      m.GrewNone();
      HashedFits(m, op, marks);
      answer := [root];
    case TakeProof(addr) =>
      answer := m.MerkleProof(addr);
      m.GrewNone();
      HashedFits(m, op, marks);
  }

  lemma AllowedCanWrite(m: Memory, addr: u64, data: seq<byte>, marks: nat -> Mark)
    requires Fit(m, marks) && |data| <= 32 && Allowed(marks, Write(addr, data))
    ensures m.CanWrite(addr, data)
  {
    hide Holds, Takes, WriteGuard, Memory.OkOf, Memory.CanWrite;
    var d := InPage(addr, |data|);
    NextPage(addr, |data|);
    TakesGuard(m.OkOf(addr / 4096), marks(addr / 4096), addr % 4096, d);
    if d < |data| {
      var next := AddrAdd(addr, d) / 4096;
      TakesGuard(m.OkOf(next), marks(next), 0, |data| - d);
    }
    m.GuardsAllow(addr, data);
  }

  twostate lemma WriteFits(m: Memory, new addr: u64, new data: seq<byte>, new marks: nat -> Mark)
    requires old(Fit(m, marks)) && |data| <= 32
    requires forall qi :: m.OkOf(qi) == FlagsAfter(old(m.OkOf(qi)), qi, addr, |data|)
    ensures Fit(m, After(marks, Write(addr, data)))
  {
    hide Holds, WrittenMark, Written, Memory.OkOf, Touched;
    forall pi: nat ensures Holds(m.OkOf(pi), MarkAfter(marks(pi), Write(addr, data), pi)) {
      assert old(Holds(m.OkOf(pi), marks(pi)));
      WrittenHolds(old(m.OkOf(pi)), marks(pi), addr % 4096 / 64);
      WrittenHolds(old(m.OkOf(pi)), marks(pi), 0);
    }
  }

  twostate lemma HashedFits(m: Memory, new op: Op, new marks: nat -> Mark)
    requires old(Fit(m, marks)) && !op.Write? && m.Dirty() == {}
    requires m.pages == old(m.pages) && m.okArrays == old(m.okArrays) && old(m.Shape()) && m.Shape()
    ensures Fit(m, After(marks, op))
  {
    hide Memory.TableOk, Memory.Dirty, Memory.FlatOk, Memory.TreeOk, Memory.OkOf;
    forall pi: nat ensures Holds(m.OkOf(pi), MarkAfter(marks(pi), op, pi)) {
      assert old(Holds(m.OkOf(pi), marks(pi)));
      m.FlagsOfPage(pi);
      FlagsBefore(m, pi);
      if pi in m.pages {
        m.PageFacts(pi);
      }
    }
  }

  twostate lemma FlagsBefore(m: Memory, new pi: nat)
    requires old(m.TableOk())
    ensures old(|m.OkOf(pi)| == if pi in m.pages then 128 else 0)
  {
  }

  lemma AnswerIs(K: Hash, f: Flat, op: Op)
    ensures op.Write? ==> Answer(K, f, op) == []
    ensures op.TakeRoot? ==> Answer(K, f, op) == [Root(K, f)]
    ensures op.TakeProof? ==> Answer(K, f, op) == ProofOf(K, f, op.addr / 32)
  {
  }

  /** answer i is right for the bytes written by the first i + 1 operations. */
  ghost predicate Answered(K: Hash, f: Flat, ops: seq<Op>, i: nat, answer: seq<Bytes32>)
    requires i < |ops| && ShortWrites(ops)
  {
    answer == Answer(K, Replayed(f, ops[..i + 1]), ops[i])
  }

  lemma AnsweredIs(K: Hash, f: Flat, ops: seq<Op>, i: nat, answer: seq<Bytes32>)
    requires i < |ops| && ShortWrites(ops)
    ensures ShortWrites(ops[..i + 1])
    ensures Answered(K, f, ops, i, answer) <==> answer == Answer(K, Replayed(f, ops[..i + 1]), ops[i])
  {
  }

  /** Coherence along a guarded history: each answer is the answer of the recursive tree over the
      bytes as they are at that point. start says what is known of the pages to begin with. */
  method Replay(m: Memory, ops: seq<Op>, ghost start: nat -> Mark) returns (answers: seq<seq<Bytes32>>)
    requires m.Shape() && m.LookupOk() && m.Coherent() && Fit(m, start) && ShortWrites(ops) && Guarded(start, ops)
    modifies m, m.nodes, m.dataArrays, m.cacheArrays, m.okArrays
    ensures m.Shape() && m.LookupOk() && m.Coherent() && m.flat == Replayed(old(m.flat), ops)
    ensures Fit(m, Marks(start, ops))
    ensures |answers| == |ops|
    ensures forall i :: 0 <= i < |ops| ==> Answered(m.K, old(m.flat), ops, i, answers[i])
  {
    hide *;
    answers := [];
    HistoryStarts(m.flat, start, ops);
    for i := 0 to |ops|
      invariant m.Shape() && m.LookupOk() && m.Coherent() && Fit(m, Marks(start, ops[..i]))
      invariant ShortWrites(ops[..i]) && m.flat == Replayed(old(m.flat), ops[..i]) && |answers| == i
      invariant forall k :: 0 <= k < i ==> Answered(m.K, old(m.flat), ops, k, answers[k])
      invariant m.nodes >= old(m.nodes) && fresh(m.nodes - old(m.nodes))
      invariant m.dataArrays >= old(m.dataArrays) && fresh(m.dataArrays - old(m.dataArrays))
      invariant m.cacheArrays >= old(m.cacheArrays) && fresh(m.cacheArrays - old(m.cacheArrays))
      invariant m.okArrays >= old(m.okArrays) && fresh(m.okArrays - old(m.okArrays))
    {
      HistoryStep(old(m.flat), start, ops, i);
      label L:
      var answer := Perform(m, ops[i], Marks(start, ops[..i]));
      m.GrewParts@L();
      AnsweredIs(m.K, old(m.flat), ops, i, answer);
      answers := answers + [answer];
    }
    assert ops[..|ops|] == ops;
  }

  lemma HistoryStarts(f: Flat, start: nat -> Mark, ops: seq<Op>)
    ensures Marks(start, ops[..0]) == start && ShortWrites(ops[..0]) && Replayed(f, ops[..0]) == f
  {
  }

  /** One more operation. */
  lemma HistoryStep(f: Flat, start: nat -> Mark, ops: seq<Op>, i: nat)
    requires i < |ops| && ShortWrites(ops) && Guarded(start, ops)
    ensures ShortWrites(ops[..i]) && ShortWrites(ops[..i + 1])
    ensures Replayed(f, ops[..i + 1])
         == if ops[i].Write? then WriteBytes(Replayed(f, ops[..i]), ops[i].addr, ops[i].data) else Replayed(f, ops[..i])
    ensures Marks(start, ops[..i + 1]) == After(Marks(start, ops[..i]), ops[i])
    ensures (ops[i].Write? ==> |ops[i].data| <= 32) && Allowed(Marks(start, ops[..i]), ops[i])
  {
    hide Touched, WriteBytes, InPage, After, Allowed;
    assert ops[..i + 1][..i] == ops[..i] && ops[..i + 1][i] == ops[i];
  }

  predicate Fresh(mark: Mark) {
    mark.Absent? || mark.Blank?
  }

  lemma {:induction false} StaysFresh(start: nat -> Mark, ops: seq<Op>, pi: nat)
    requires Fresh(start(pi)) && forall i :: 0 <= i < |ops| ==> ops[i].Write?
    ensures Fresh(Marks(start, ops)(pi))
  {
    hide Touched;
    if |ops| > 0 {
      StaysFresh(start, ops[..|ops| - 1], pi);
    }
  }

  /** Before the first root or proof of a memory that was never hashed, no write needs a guard: of
      any addresses, in any order, as often as they like. */
  lemma UnhashedIsGuarded(start: nat -> Mark, ops: seq<Op>)
    requires forall pi: nat :: Fresh(start(pi))
    requires forall i, j :: 0 <= i < j < |ops| && ops[j].Write? ==> ops[i].Write?
    ensures Guarded(start, ops)
  {
    hide Touched, InPage, Marks;
    forall i | 0 <= i < |ops| ensures Allowed(Marks(start, ops[..i]), ops[i]) {
      if ops[i].Write? {
        var d := InPage(ops[i].addr, |ops[i].data|);
        StaysFresh(start, ops[..i], ops[i].addr / 4096);
        if d < |ops[i].data| <= 32 {
          StaysFresh(start, ops[..i], AddrAdd(ops[i].addr, d) / 4096);
        }
      }
    }
  }

  /** x and y lie in different chunks of a page that was hashed, and the write of c to y, after
      that of b to x, is a change. */
  ghost predicate TwoChunks(m: Memory, x: u64, y: u64, b: byte, c: byte)
    reads m`pages, m`okArrays, m`flat, m.okArrays
  {
    var ok, f := m.OkOf(x / 4096), WriteBytes(m.flat, x, [b]);
    && x / 4096 == y / 4096 && x / 64 != y / 64 && m.flat[y] != c
    && |ok| == 128 && ok[1] && ok[64 + y % 4096 / 64]
    && NoCollisions(m.K, f, WriteBytes(f, y, [c]), {y / 4096})
  }

  /** Without the guard coherence fails, in every memory: a byte x and then a byte y in another
      chunk of the same page are written, after the page was hashed. The hashes of the page go
      on showing the first write only. */
  method TwoChunksGoStale(m: Memory, x: u64, y: u64, b: byte, c: byte)
    requires m.Shape() && m.LookupOk() && m.Coherent() && TwoChunks(m, x, y, b, c)
    modifies m, m.nodes`Children, m.nodes`HashExists, m.nodes`HashValid, m.okArrays, m.dataArrays
    ensures m.Shape() && m.LookupOk() && m.flat == WriteBytes(WriteBytes(old(m.flat), x, [b]), y, [c])
    ensures !m.Coherent() && m.Grew()
    ensures x / 4096 in m.pages && m.pages[x / 4096].Valid()
    ensures m.pages[x / 4096].Shows(m.K, PageData(WriteBytes(old(m.flat), x, [b]), x / 4096))
  {
    hide *;
    ChunksApart(m, x, y, b, c);
    FreshPageGuard(m.OkOf(x / 4096), x % 4096, 1);
    m.GuardsAllow(x, [b]);
    m.SetUnaligned(x, [b]);
    m.GrewParts();
    CannotWrite(m, y, c);
    label L:
    m.SetUnaligned(y, [c]);
    m.GrewParts@L();
    StillShows@L(m, y, c);
    m.GrewFrom();
  }

  /** The next hash of that page is wrong: it is that of the page without the second write. */
  method StaleRoot(m: Memory, x: u64, y: u64, b: byte, c: byte) returns (root: Bytes32)
    requires m.Shape() && m.LookupOk() && m.Coherent() && TwoChunks(m, x, y, b, c)
    modifies m, m.nodes`Children, m.nodes`HashExists, m.nodes`HashValid, m.okArrays, m.dataArrays, m.cacheArrays
    ensures m.flat == WriteBytes(WriteBytes(old(m.flat), x, [b]), y, [c])
    ensures root == PageNode(m.K, PageData(WriteBytes(old(m.flat), x, [b]), x / 4096), 1)
    ensures root != PageNode(m.K, PageData(m.flat, x / 4096), 1)
  {
    ghost var f := WriteBytes(m.flat, x, [b]);
    hide *;
    RootsDiffer(m, x, y, b, c);
    TwoChunksGoStale(m, x, y, b, c);
    m.GrewParts();
    root := RootOfPage(m, x / 4096, PageData(f, x / 4096));
  }

  /** Memory.MerkleizeNode at a page, whatever its cache shows. */
  method RootOfPage(m: Memory, pi: nat, ghost shown: seq<byte>) returns (root: Bytes32)
    requires m.Shape() && pi in m.pages && m.pages[pi].Valid() && m.pages[pi].Shows(m.K, shown) && |shown| == 4096
    modifies m.cacheArrays, m.okArrays
    ensures root == PageNode(m.K, shown, 1)
  {
    hide *;
    InTable(m, pi);
    root := m.pages[pi].MerkleRoot(m.K, shown);
  }

  lemma InTable(m: Memory, pi: nat)
    requires m.Shape() && pi in m.pages
    ensures pi < PAGES && m.pages[pi].Cache in m.cacheArrays && m.pages[pi].Ok in m.okArrays
  {
    hide Memory.FlatOk, Memory.TreeOk;
    m.PageFacts(pi);
  }

  lemma RootsDiffer(m: Memory, x: u64, y: u64, b: byte, c: byte)
    requires TwoChunks(m, x, y, b, c)
    ensures var f := WriteBytes(m.flat, x, [b]);
      PageNode(m.K, PageData(f, x / 4096), 1) != PageNode(m.K, PageData(WriteBytes(f, y, [c]), x / 4096), 1)
  {
    hide PageNode, PageInputs, CollisionFree, WriteBytes, Memory.OkOf;
    var f, a := WriteBytes(m.flat, x, [b]), y % 4096;
    var f' := WriteBytes(f, y, [c]);
    OneByteElsewhere(m.flat, x, y, b);
    OneByteWritten(f, y, c);
    assert PageData(f, y / 4096)[a] == f[y] != f'[y] == PageData(f', y / 4096)[a];
    RootTellsBytes(m.K, PageData(f, y / 4096), PageData(f', y / 4096));
  }

  lemma OneByteWritten(f: Flat, y: u64, c: byte)
    ensures WriteBytes(f, y, [c])[y] == c
    ensures forall x :: 0 <= x < TWO64 && x != y ==> WriteBytes(f, y, [c])[x] == f[x]
  {
  }

  /** What the two writes find. */
  lemma ChunksApart(m: Memory, x: u64, y: u64, b: byte, c: byte)
    requires TwoChunks(m, x, y, b, c)
    ensures x / 4096 == y / 4096 && Touched(y, 1) == {y / 4096}
    ensures var ok := m.OkOf(x / 4096); |ok| == 128 && ok[1]
    ensures InPage(x, 1) == 1 && InPage(y, 1) == 1 && x % 4096 % 64 + 1 <= 64
    ensures var f, ok := WriteBytes(m.flat, x, [b]), FlagsAfter(m.OkOf(x / 4096), x / 4096, x, 1);
      && f[y] != c && NoCollisions(m.K, f, WriteBytes(f, y, [c]), {y / 4096})
      && |ok| == 128 && !ok[1] && ok[64 + y % 4096 / 64]
  {
    hide WriteBytes, NoCollisions, FlagsAfter, Memory.OkOf;
    OneByte(x);
    OneByte(y);
    StaleFlag(m.OkOf(x / 4096), x, y);
    OneByteElsewhere(m.flat, x, y, b);
  }

  /** A write that clears no flags leaves the page showing what it held before. */
  twostate lemma StillShows(m: Memory, new y: u64, new c: byte)
    requires old(m.Shape() && m.Coherent()) && m.Shape() && InPage(y, 1) == 1
    requires forall qi :: qi in old(m.pages) ==> qi in m.pages && m.pages[qi] == old(m.pages)[qi]
    requires forall qi :: m.OkOf(qi) == FlagsAfter(old(m.OkOf(qi)), qi, y, 1)
    requires m.flat == WriteBytes(old(m.flat), y, [c]) && unchanged(old(m.cacheArrays))
    requires var ok := old(m.OkOf(y / 4096)); |ok| == 128 && !ok[1] && ok[64 + y % 4096 / 64]
    ensures y / 4096 in m.pages && m.pages[y / 4096].Valid()
    ensures m.pages[y / 4096].Shows(m.K, PageData(old(m.flat), y / 4096))
  {
    hide PageNode, WriteBytes, Memory.TreeOk, Memory.AllHashed;
    var pi := y / 4096;
    OneByteWritten(old(m.flat), y, c);
    var p := m.pages[pi];
    assert old(p.Sound(m.K));
  }

  lemma OneByte(x: u64)
    ensures Touched(x, 1) == {x / 4096} && InPage(x, 1) == 1 && x % 4096 % 64 + 1 <= 64
  {
  }

  lemma OneByteElsewhere(f: Flat, x: u64, y: u64, b: byte)
    requires x != y
    ensures WriteBytes(f, x, [b])[y] == f[y]
  {
  }

  /** Forgetting the chunk of x leaves the flag over the chunk of y set. */
  lemma StaleFlag(ok: seq<bool>, x: u64, y: u64)
    requires x / 4096 == y / 4096 && x / 64 != y / 64 && |ok| == 128 && ok[1] && ok[64 + y % 4096 / 64]
    ensures var ok' := FlagsAfter(ok, x / 4096, x, 1);
      |ok'| == 128 && !ok'[1] && ok'[64 + y % 4096 / 64] && x != y
  {
    hide Touched;
    var g, l := 64 + y % 4096 / 64, 64 + x % 4096 / 64;
    OnPathTop(l);
    assert x / 64 == x / 4096 * 64 + x % 4096 / 64 && y / 64 == y / 4096 * 64 + y % 4096 / 64;
    if OnPath(g, l) {
      OnPathDeep(g, l);
    }
  }

  lemma CannotWrite(m: Memory, y: u64, c: byte)
    requires m.flat[y] != c && InPage(y, 1) == 1
    requires var ok := m.OkOf(y / 4096); |ok| == 128 && !ok[1] && ok[64 + y % 4096 / 64]
    ensures !m.CanWrite(y, [c])
  {
    var a, g, before := y % 4096, 64 + y % 4096 / 64, PageData(m.flat, y / 4096);
    assert [c][..1] == [c] && before[a] == m.flat[y] && Spliced(before, a, [c])[a] == c;
    assert OnPath(g, 64 + a / 64) && Cached(g) && Written(m.OkOf(y / 4096), a / 64)[g];
  }
}
