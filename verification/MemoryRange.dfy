/** Reading, loading and storing whole ranges of the fast memory (rvgo/fast/memory.go):
    ReadMemoryRange, SetMemoryRange, Serialize and Deserialize. */
module MemoryRange {
  import opened Words
  import opened Bytes
  import opened FlatMemory
  import opened TreeIndex
  import opened Page
  import opened PageTree
  import opened RadixTrie
  import opened CachedMemory
  import opened Cpu

  // ----- reading a range -----

  datatype Chunk = Eof | Data(bytes: seq<byte>) | Panic

  /** The range does not run around the whole address space back into its first page. */
  predicate Readable(addr: u64, count: u64) {
    addr % 4096 + count < TWO64
  }

  /** How many bytes one Read delivers into a buffer with this much room. */
  function ChunkSize(addr: u64, count: u64, room: nat): (n: nat)
    ensures n <= room && n <= count && addr % 4096 + n <= 4096
    ensures room > 0 && count > 0 ==> n > 0
  {
    var left := if addr % 4096 + count <= 4096 then count else 4096 - addr % 4096;
    if left <= room then left else room
  }

  /** Where the slice of the page ends: the range may wrap around, and may not be aligned. */
  function SliceEnd(addr: u64, count: u64): nat {
    var endAddr := AddrAdd(addr, count);
    if addr / 4096 == endAddr / 4096 then endAddr % 4096 else 4096
  }

  /** The bounds of the slice of the page that is copied. */
  lemma SliceBounds(addr: u64, count: u64)
    requires count > 0
    ensures Readable(addr, count) <==> addr % 4096 <= SliceEnd(addr, count)
    ensures Readable(addr, count) ==>
      SliceEnd(addr, count) - addr % 4096 == if addr % 4096 + count <= 4096 then count else 4096 - addr % 4096
  {
    var a, A := addr % 4096, addr / 4096;
    assert addr == 4096 * A + a;
    if a + count >= TWO64 {
      var r := a + count - TWO64;
      assert AddrAdd(addr, count) == 4096 * A + r;
    } else if addr + count < TWO64 {
      assert (addr + count) / 4096 == A + (a + count) / 4096;
    } else {
      var b := (a + count) / 4096;
      assert AddrAdd(addr, count) / 4096 == A + b - PAGES;
    }
  }

  class MemReader {
    const m: Memory
    var addr: u64
    var count: u64

    constructor (m: Memory, addr: u64, count: u64)
      ensures this.m == m && this.addr == addr && this.count == count
    {
      this.m, this.addr, this.count := m, addr, count;
    }

    /** One Read: at most up to the end of the page, and at most as much as there is room for. */
    method Read(room: nat) returns (r: Chunk)
      requires m.Shape() && m.LookupOk()
      modifies this, m`lastPageKey0, m`lastPageKey1, m`lastPage0, m`lastPage1
      ensures m.LookupOk() && m.Shape() && m.Coherent() == old(m.Coherent()) && m.Dirty() == old(m.Dirty())
      ensures r.Eof? <==> old(count) == 0
      ensures r.Panic? <==> old(count) != 0 && !Readable(old(addr), old(count))
      ensures !r.Data? ==> addr == old(addr) && count == old(count)
      ensures r.Data? ==> r.bytes == ReadBytes(m.flat, old(addr), ChunkSize(old(addr), old(count), room))
      ensures r.Data? ==> |r.bytes| <= old(count)
      ensures r.Data? ==> addr == AddrAdd(old(addr), |r.bytes|) && count == old(count) - |r.bytes|
    {
      hide *;
      if count == 0 {
        return Eof;
      }
      SliceBounds(addr, count);
      ReadFacts(addr, count, room);
      var start := addr % 4096;
      var end := SliceEnd(addr, count);
      if start > end {
        return Panic; // the slice would end before it starts
      }
      r := Take(if end - start <= room then end - start else room);
    }

    method Take(n: u64) returns (r: Chunk)
      requires m.Shape() && m.LookupOk() && n <= count && addr % 4096 + n <= 4096
      modifies this, m`lastPageKey0, m`lastPageKey1, m`lastPage0, m`lastPage1
      ensures m.LookupOk() && m.Shape() && m.Coherent() == old(m.Coherent()) && m.Dirty() == old(m.Dirty())
      ensures r == Data(ReadBytes(m.flat, old(addr), n)) && |r.bytes| == n && addr == AddrAdd(old(addr), n) && count == old(count) - n
    {
      hide *;
      var bytes := m.GetPart(addr, n); // zeros where no page is
      addr := AddrAdd(addr, n);
      count := count - n;
      return Data(bytes);
    }
  }

  lemma ReadFacts(addr: u64, count: u64, room: nat)
    ensures var left := if addr % 4096 + count <= 4096 then count else 4096 - addr % 4096;
      && ChunkSize(addr, count, room) == (if left <= room then left else room) && addr % 4096 + left <= 4096
      && 0 <= left <= count
    ensures 0 <= ChunkSize(addr, count, room) < TWO64
  {
  }

  /** Readability carries over to what is left after a chunk. */
  lemma RestReadable(addr: u64, count: u64, n: nat)
    requires n <= count && addr % 4096 + n <= 4096 && Readable(addr, count)
    ensures n < TWO64 && Readable(AddrAdd(addr, n), count - n)
  {
    if addr % 4096 + n == 4096 {
      assert AddrAdd(addr, n) % 4096 == 0;
    } else {
      assert AddrAdd(addr, n) % 4096 == addr % 4096 + n;
    }
  }

  /** Draining the reader, with any buffer size: the range is read exactly if it does not run
      into its first page again from behind, and then it is the bytes of the memory. */
  method ReadAll(m: Memory, start: u64, total: u64, room: nat) returns (data: Option<seq<byte>>)
    requires m.Shape() && m.LookupOk() && room > 0
    modifies m`lastPageKey0, m`lastPageKey1, m`lastPage0, m`lastPage1
    ensures m.LookupOk() && m.Shape() && m.Coherent() == old(m.Coherent()) && m.Dirty() == old(m.Dirty())
    ensures data == if total == 0 || Readable(start, total) then Some(ReadBytes(m.flat, start, total)) else None
  {
    hide *;
    var reader := new MemReader(m, start, total);
    var bytes := [];
    NoBytesRead(m.flat, start);
    var more := true;
    while more
      invariant m.LookupOk() && m.Shape() && m.Coherent() == old(m.Coherent()) && m.Dirty() == old(m.Dirty())
      invariant m.flat == old(m.flat) && reader.m == m && fresh(reader)
      invariant 0 <= |bytes| <= total < TWO64 && reader.count == total - |bytes| && reader.addr == AddrAdd(start, |bytes|)
      invariant bytes == ReadBytes(m.flat, start, |bytes|)
      invariant |bytes| > 0 || Readable(start, total) ==> reader.count == 0 || Readable(reader.addr, reader.count)
      invariant |bytes| > 0 ==> Readable(start, total)
      invariant !more ==> reader.count == 0
      decreases reader.count, more
    {
      ghost var addr, count := reader.addr, reader.count;
      var r := reader.Read(room);
      match r {
        case Panic =>
          return None;
        case Eof =>
          more := false;
        case Data(chunk) =>
          ChunkPositive(addr, count, room);
          RestReadable(addr, count, |chunk|);
          ReadOn(m.flat, start, |bytes|, |chunk|);
          bytes := bytes + chunk;
      }
    }
    return Some(bytes);
  }

  lemma NoBytesRead(f: Flat, start: u64)
    ensures ReadBytes(f, start, 0) == [] && AddrAdd(start, 0) == start
  {
  }

  lemma ChunkPositive(addr: u64, count: u64, room: nat)
    requires room > 0 && count > 0
    ensures 0 < ChunkSize(addr, count, room) <= count && addr % 4096 + ChunkSize(addr, count, room) <= 4096
  {
  }

  lemma ReadOn(f: Flat, start: u64, n1: nat, n2: nat)
    requires n1 + n2 < TWO64
    ensures AddrAdd(AddrAdd(start, n1), n2) == AddrAdd(start, n1 + n2)
    ensures ReadBytes(f, start, n1) + ReadBytes(f, AddrAdd(start, n1), n2) == ReadBytes(f, start, n1 + n2)
  {
    ReadTwice(f, start, n1, n2);
  }

  // ----- loading a range -----

  /** The pages whose root hash is valid. */
  ghost function HashedPages(m: Memory): set<nat>
    reads m`pages, m`okArrays, m.okArrays
  {
    m.pages.Keys - m.Dirty()
  }

  /** Index g of a node has a hash that is marked as valid. */
  ghost predicate StandsValid(n: RadixNode, g: nat)
    reads n`HashExists, n`HashValid, n`Hashes
  {
    1 <= g < |n.Hashes| && g in n.HashExists && g in n.HashValid
  }

  /** No hash that the trie marks as valid stands above page pi. */
  ghost predicate Cold(m: Memory, pi: nat)
    reads m`tree, m`nodes, m.nodes`HashExists, m.nodes`HashValid, m.nodes`Hashes
  {
    forall k, g: nat {:trigger k in m.tree, g in m.tree[k].HashValid} ::
      k in m.tree && m.tree[k] in m.nodes && StandsValid(m.tree[k], g) ==>
        PageAnc(pi, m.tree[k].Depth + Dep(g)) != Pre(m.tree[k].Prefix, g)
  }

  /** One more dirty page does not hurt the hashes of the trie exactly if it is cold. */
  lemma ColdIff(m: Memory, pi: nat)
    ensures m.AllHashed(m.flat, m.Dirty() + {pi}) <==> m.AllHashed(m.flat, m.Dirty()) && Cold(m, pi)
  {
    hide Memory.Dirty, PageAnc, Pre, Dep, Sub, Pow2;
    if m.AllHashed(m.flat, m.Dirty() + {pi}) {
      forall k | k in m.tree ensures m.tree[k] in m.nodes && m.Hashed(m.tree[k], m.flat, m.Dirty()) {
        assert m.Hashed(m.tree[k], m.flat, m.Dirty() + {pi});
      }
      forall k, g: nat | k in m.tree && m.tree[k] in m.nodes && StandsValid(m.tree[k], g)
        ensures PageAnc(pi, m.tree[k].Depth + Dep(g)) != Pre(m.tree[k].Prefix, g)
      {
        assert m.Hashed(m.tree[k], m.flat, m.Dirty() + {pi});
      }
    }
    if m.AllHashed(m.flat, m.Dirty()) && Cold(m, pi) {
      forall k | k in m.tree ensures m.tree[k] in m.nodes && m.Hashed(m.tree[k], m.flat, m.Dirty() + {pi}) {
        assert m.Hashed(m.tree[k], m.flat, m.Dirty());
      }
    }
  }

  /** The pages that are not cold. */
  ghost function Warm(m: Memory): set<nat>
    reads m`pages, m`tree, m`nodes, m.nodes`HashExists, m.nodes`HashValid, m.nodes`Hashes
  {
    set pi | pi in m.pages && !Cold(m, pi)
  }

  lemma WarmIs(m: Memory, pi: nat)
    ensures pi in Warm(m) <==> pi in m.pages && !Cold(m, pi)
  {
  }

  /** In a coherent memory every dirty page is cold. */
  lemma DirtyIsCold(m: Memory)
    requires m.Coherent()
    ensures m.Dirty() !! Warm(m)
  {
    hide *;
    m.CoherentParts(true);
    forall pi | pi in m.Dirty() ensures pi !in Warm(m) {
      assert m.Dirty() + {pi} == m.Dirty();
      ColdIff(m, pi);
      WarmIs(m, pi);
    }
  }

  /** InvalidateFull clears the flags of a page, but nothing above it: hashes that were right
      before are now coherent exactly if none was valid above the page. */
  method InvalidateAll(m: Memory, pi: nat)
    requires m.Shape() && m.LookupOk() && pi in m.pages && m.pages[pi].Valid() && m.pages[pi].Ok in m.okArrays
    modifies m.pages[pi].Ok
    ensures m.Shape() && m.LookupOk()
    ensures unchanged(m) && Warm(m) == old(Warm(m))
    ensures old(m.Coherent()) ==> (m.Coherent() <==> pi !in Warm(m))
    ensures m.Dirty() == old(m.Dirty()) + {pi}
    ensures forall qi :: m.OkOf(qi) == if qi == pi then Blank() else old(m.OkOf(qi))
  {
    hide *;
    m.ShapeParts();
    m.CoherentParts(true);
    ColdIff(m, pi);
    WarmIs(m, pi);
    m.pages[pi].InvalidateFull();
    m.ShapeParts();
    AllForgotten(m, pi);
    m.CoherentParts(true);
    m.CoherentFrom(old(m.Coherent()) && Cold(m, pi));
  }

  twostate lemma AllForgotten(m: Memory, new pi: nat)
    requires old(m.TableOk()) && m.TableOk() && pi in m.pages && unchanged(m) && old(allocated(m.pages[pi].Ok))
    requires unchanged(old(m.okArrays - {m.pages[pi].Ok})) && (forall g :: 0 <= g < 128 ==> !m.pages[pi].Ok[g])
    requires unchanged(old(m.dataArrays)) && unchanged(old(m.cacheArrays))
    ensures m.Dirty() == old(m.Dirty()) + {pi}
    ensures old(m.PagesSound()) ==> m.PagesSound()
    ensures forall qi :: m.OkOf(qi) == if qi == pi then Blank() else old(m.OkOf(qi))
  {
    hide PageNode, Factors, ZeroHash;
    assert m.pages[pi].Ok[..] == Blank();
  }

  twostate lemma NothingDone(m: Memory)
    requires unchanged(m`pages, m`tree, m`nodes) && unchanged(m.nodes)
    ensures Warm(m) == old(Warm(m))
  {
  }

  method FindOrAlloc(m: Memory, pi: nat) returns (p: CachedPage)
    requires m.Shape() && m.LookupOk() && pi < PAGES
    modifies m, m.nodes`Children, m.nodes`HashExists, m.nodes`HashValid
    ensures m.Shape() && m.LookupOk() && m.Grew() && m.flat == old(m.flat)
    ensures old(m.Coherent()) ==> m.Coherent()
    ensures HashedPages(m) == old(HashedPages(m)) && (old(m.Unhashed()) ==> m.Unhashed())
    ensures pi in m.pages && m.pages[pi] == p && old(m.Dirty()) <= m.Dirty()
    ensures if pi in old(m.pages) then m.pages == old(m.pages) && Warm(m) == old(Warm(m)) else pi in m.Dirty()
  {
    hide *;
    HashedIs(m);
    var found := m.PageLookup(pi);
    if found == null {
      m.AbsentKeys(pi);
      p := m.AllocPage(pi);
      m.GrewFrom();
      BlankUnhashed(m, pi);
    } else {
      p := found;
      m.GrewNone();
      NothingDone(m);
      SameFlagsUnhashed(m);
    }
    HashedIs(m);
  }

  /** Finds or allocates a page, and forgets all its hashes. */
  method BlankPage(m: Memory, pi: nat) returns (p: CachedPage)
    requires m.Shape() && m.LookupOk() && pi < PAGES
    modifies m, m.nodes`Children, m.nodes`HashExists, m.nodes`HashValid, m.okArrays
    ensures m.Shape() && m.LookupOk() && m.Grew() && m.flat == old(m.flat)
    ensures old(m.Coherent()) ==> (m.Coherent() <==> pi !in old(Warm(m)))
    ensures HashedPages(m) <= old(HashedPages(m))
    ensures old(m.Dirty()) + {pi} <= m.Dirty()
    ensures pi in old(m.pages) ==> m.pages == old(m.pages) && Warm(m) == old(Warm(m))
    ensures pi in m.pages && m.pages[pi] == p && pi in m.Dirty() && p.Data in m.dataArrays
    ensures m.OkOf(pi) == Blank() && (old(m.Unhashed()) ==> m.Unhashed())
  {
    hide *;
    WarmIs(m, pi);
    p := FindOrAlloc(m, pi);
    HashedIs(m);
    m.ShapeParts();
    m.PageFacts(pi);
    m.DataInTable(pi);
    m.GrewParts();
    if m.Coherent() {
      DirtyIsCold(m);
    }
    label L:
    InvalidateAll(m, pi);
    m.GrewFrom();
    HashedIs(m);
    BlankUnhashed@L(m, pi);
  }

  lemma HashedIs(m: Memory)
    ensures HashedPages(m) == m.pages.Keys - m.Dirty()
  {
  }

  twostate lemma BlankUnhashed(m: Memory, new pi: nat)
    requires forall qi :: m.OkOf(qi) == if qi == pi then Blank() else old(m.OkOf(qi))
    ensures old(m.Unhashed()) ==> m.Unhashed()
  {
    hide Memory.OkOf;
    assert old(m.Unhashed()) ==> forall qi: nat :: NoFlags(old(m.OkOf(qi)));
  }

  /** The pages of n + 1 bytes from start on; loading n bytes looks up the page behind them as well. */
  ghost function Reached(start: u64, n: u64): set<nat> {
    set k: u64 | k <= n :: AddrAdd(start, k) / 4096
  }

  /** Looks up the page, forgets its hashes, and copies what the reader delivers next into it. */
  method LoadNext(m: Memory, addr: u64, rest: seq<byte>, piece: nat) returns (n: nat)
    requires m.Shape() && m.LookupOk()
    modifies m, m.nodes`Children, m.nodes`HashExists, m.nodes`HashValid, m.okArrays, m.dataArrays
    ensures m.Shape() && m.LookupOk() && m.Grew() && HashedPages(m) <= old(HashedPages(m))
    ensures old(m.Coherent()) ==> (m.Coherent() <==> addr / 4096 !in old(Warm(m)))
    ensures old(m.Dirty()) + {addr / 4096} <= m.Dirty()
    ensures addr / 4096 in old(m.pages) ==> m.pages == old(m.pages) && Warm(m) == old(Warm(m))
    ensures old(m.Unhashed()) ==> m.Unhashed()
    ensures n <= |rest| && addr % 4096 + n <= 4096 && (|rest| > 0 && piece > 0 ==> n > 0)
    ensures m.flat == WriteBytes(old(m.flat), addr, rest[..n])
  {
    hide *;
    PageInRange(addr);
    WarmIs(m, addr / 4096);
    n := NextChunk(addr, |rest|, piece);
    var p := BlankPage(m, addr / 4096);
    m.GrewParts();
    FillPage(m, p, addr, rest[..n]);
    m.GrewFrom();
    if m.Coherent() {
      DirtyIsCold(m);
    }
  }

  /** What is known of the caches when the first done of len bytes are loaded. seen are the pages looked
      up so far; hashed and warm are those of the beginning; apart says that the caches were coherent
      and no page of the range was hashed, exist that they were coherent and all its pages exist. */
  ghost predicate Account(m: Memory, start: u64, len: u64, done: nat, seen: set<nat>,
                          hashed: set<nat>, warm: set<nat>, apart: bool, exist: bool)
    reads m`pages, m`tree, m`nodes, m`flat, m`dataArrays, m`cacheArrays, m`okArrays
    reads m.nodes, m.dataArrays, m.cacheArrays, m.okArrays
  {
    && Seen(start, len, done, seen) && seen <= m.Dirty() && HashedPages(m) <= hashed
    && (apart ==> m.Coherent() && Reached(start, len) !! hashed)
    && (exist ==> Reached(start, len) <= m.pages.Keys && Warm(m) == warm && (seen !! warm ==> m.Coherent()))
  }

  lemma AccountIs(m: Memory, start: u64, len: u64, done: nat, seen: set<nat>,
                  hashed: set<nat>, warm: set<nat>, apart: bool, exist: bool)
    ensures Account(m, start, len, done, seen, hashed, warm, apart, exist) <==>
      && Seen(start, len, done, seen) && seen <= m.Dirty() && HashedPages(m) <= hashed
      && (apart ==> m.Coherent() && Reached(start, len) !! hashed)
      && (exist ==> Reached(start, len) <= m.pages.Keys && Warm(m) == warm && (seen !! warm ==> m.Coherent()))
  {
  }

  lemma AccountStarts(m: Memory, start: u64, len: u64, apart: bool, exist: bool)
    requires apart ==> m.Coherent() && Reached(start, len) !! HashedPages(m)
    requires exist ==> m.Coherent() && Reached(start, len) <= m.pages.Keys
    ensures Account(m, start, len, 0, {}, HashedPages(m), Warm(m), apart, exist)
  {
  }

  /** When all pages of the range were seen. */
  lemma AccountEnds(m: Memory, start: u64, len: u64, hashed: set<nat>, warm: set<nat>, apart: bool, exist: bool)
    requires Account(m, start, len, len, Reached(start, len), hashed, warm, apart, exist)
    ensures apart ==> m.Coherent()
    ensures exist ==> (m.Coherent() <==> Reached(start, len) !! warm)
  {
    hide *;
    AccountIs(m, start, len, len, Reached(start, len), hashed, warm, apart, exist);
    if m.Coherent() {
      DirtyIsCold(m);
    }
  }

  /** LoadNext with the account of the pages that were seen. */
  method LoadOn(m: Memory, addr: u64, rest: seq<byte>, piece: nat, ghost start: u64, ghost len: u64, ghost seen: set<nat>,
                ghost hashed: set<nat>, ghost warm: set<nat>, ghost apart: bool, ghost exist: bool)
      returns (n: nat, ghost seen': set<nat>)
    requires m.Shape() && m.LookupOk() && |rest| <= len && addr == AddrAdd(start, len - |rest|)
    requires Account(m, start, len, len - |rest|, seen, hashed, warm, apart, exist)
    modifies m, m.nodes`Children, m.nodes`HashExists, m.nodes`HashValid, m.okArrays, m.dataArrays
    ensures m.Shape() && m.LookupOk() && m.Grew()
    ensures n <= |rest| && Account(m, start, len, len - |rest| + n, seen', hashed, warm, apart, exist)
    ensures |rest| == 0 ==> seen' == Reached(start, len)
    ensures |rest| > 0 && piece > 0 ==> n > 0
    ensures old(m.Unhashed()) ==> m.Unhashed()
    ensures m.flat == WriteBytes(old(m.flat), addr, rest[..n])
  {
    hide *;
    ghost var done := len - |rest|;
    AccountIs(m, start, len, done, seen, hashed, warm, apart, exist);
    if m.Coherent() {
      WarmIsHashed(m);
    }
    seen' := seen + {addr / 4096};
    InReach(start, len, done);
    n := LoadNext(m, addr, rest, piece);
    SeenOn(start, len, done, seen, n);
    AccountIs(m, start, len, done + n, seen', hashed, warm, apart, exist);
  }

  /** SetMemoryRange: copies all of a reader into memory, a page at a time. The reader delivers at
      most pieces[i] bytes at its i-th read, possibly none, and after that as many as fit. Unlike
      Invalidate this does not reach the trie: the caches stay coherent if no page of the range, nor
      the one behind it, has a valid root hash. Where all these pages exist, they stay coherent
      exactly if no hash marked as valid stands above any of them. */
  method SetMemoryRange(m: Memory, start: u64, data: seq<byte>, pieces: seq<nat>)
    requires m.Shape() && m.LookupOk() && |data| < TWO64
    modifies m, m.nodes`Children, m.nodes`HashExists, m.nodes`HashValid, m.okArrays, m.dataArrays
    ensures m.Shape() && m.LookupOk()
    ensures m.flat == WriteBytes(old(m.flat), start, data)
    ensures old(m.Coherent() && Reached(start, |data|) !! HashedPages(m)) ==> m.Coherent()
    ensures old(m.Coherent() && Reached(start, |data|) <= m.pages.Keys) ==>
      (m.Coherent() <==> Reached(start, |data|) !! old(Warm(m)))
    ensures old(m.Unhashed()) ==> m.Unhashed()
  {
    hide *;
    var addr, done, i := start, 0, 0;
    ghost var seen, hashed, warm := {}, HashedPages(m), Warm(m);
    ghost var apart := m.Coherent() && Reached(start, |data|) !! hashed;
    ghost var exist := m.Coherent() && Reached(start, |data|) <= m.pages.Keys;
    NothingWritten(m.flat, start, data);
    AccountStarts(m, start, |data|, apart, exist);
    while true
      invariant m.Shape() && m.LookupOk() && 0 <= done <= |data| && addr == AddrAdd(start, done) && i <= |pieces|
      invariant Account(m, start, |data|, done, seen, hashed, warm, apart, exist)
      invariant old(m.Unhashed()) ==> m.Unhashed()
      invariant m.flat == WriteBytes(old(m.flat), start, data[..done])
      invariant m.nodes >= old(m.nodes) && fresh(m.nodes - old(m.nodes))
      invariant m.dataArrays >= old(m.dataArrays) && fresh(m.dataArrays - old(m.dataArrays))
      invariant m.okArrays >= old(m.okArrays) && fresh(m.okArrays - old(m.okArrays))
      decreases |pieces| - i, |data| - done
    {
      label L:
      var piece := if i < |pieces| then pieces[i] else 4096;
      var n;
      n, seen := LoadOn(m, addr, data[done..], piece, start, |data|, seen, hashed, warm, apart, exist);
      m.GrewParts@L();
      WroteOn(old(m.flat), start, data, done, n);
      if done == |data| && i == |pieces| {
        break; // the reader is drained
      }
      addr := AddrAdd(addr, n);
      done := done + n;
      if i < |pieces| {
        i := i + 1;
      }
    }
    assert data[..done] == data;
    AccountEnds(m, start, |data|, hashed, warm, apart, exist);
  }

  lemma WarmIsHashed(m: Memory)
    requires m.Coherent()
    ensures Warm(m) <= HashedPages(m)
  {
    hide Memory.Coherent, Memory.Dirty, Cold;
    DirtyIsCold(m);
  }

  /** The pages seen when the first done bytes of n are loaded. */
  ghost predicate Seen(start: u64, n: u64, done: nat, seen: set<nat>) {
    seen <= Reached(start, n) && forall k: u64 :: k < done ==> AddrAdd(start, k) / 4096 in seen
  }

  lemma InReach(start: u64, n: u64, k: nat)
    requires k <= n
    ensures AddrAdd(start, k) / 4096 in Reached(start, n)
  {
  }

  lemma SeenOn(start: u64, len: u64, done: nat, seen: set<nat>, n: nat)
    requires Seen(start, len, done, seen) && done + n <= len && AddrAdd(start, done) % 4096 + n <= 4096
    ensures Seen(start, len, done + n, seen + {AddrAdd(start, done) / 4096})
    ensures done == len ==> seen + {AddrAdd(start, done) / 4096} == Reached(start, len)
  {
    forall k: u64 | k < done + n ensures AddrAdd(start, k) / 4096 in seen + {AddrAdd(start, done) / 4096} {
      if k >= done {
        SamePage(start, done, k);
      }
    }
  }

  lemma SamePage(start: u64, done: u64, k: u64)
    requires done <= k && AddrAdd(start, done) % 4096 + (k - done) < 4096
    ensures AddrAdd(start, k) / 4096 == AddrAdd(start, done) / 4096
  {
  }

  method FillPage(m: Memory, p: CachedPage, addr: u64, part: seq<byte>)
    requires m.Shape() && addr % 4096 + |part| <= 4096
    requires addr / 4096 in m.pages && m.pages[addr / 4096] == p && addr / 4096 in m.Dirty()
    requires m.OkOf(addr / 4096) == Blank()
    modifies m`flat, p.Data
    ensures m.Shape() && m.LookupOk() == old(m.LookupOk()) && (old(m.Coherent()) ==> m.Coherent())
    ensures m.Dirty() == old(m.Dirty()) && HashedPages(m) == old(HashedPages(m)) && (old(m.Unhashed()) ==> m.Unhashed())
    ensures m.flat == WriteBytes(old(m.flat), addr, part)
  {
    hide *;
    HashedIs(m);
    PageInRange(addr);
    var pi := addr / 4096;
    m.BlankIsClear(PageData(m.flat, pi), Spliced(PageData(m.flat, pi), addr % 4096, part));
    m.WritePage(p, addr, part, old(m.Coherent()));
    HashedIs(m);
    SameFlagsUnhashed(m);
  }

  twostate lemma SameFlagsUnhashed(m: Memory)
    requires forall qi :: m.OkOf(qi) == old(m.OkOf(qi))
    ensures old(m.Unhashed()) ==> m.Unhashed()
  {
    hide Memory.OkOf;
    assert old(m.Unhashed()) ==> forall qi: nat :: NoFlags(old(m.OkOf(qi)));
  }

  /** What one read of at most piece bytes delivers into the rest of a page. */
  function NextChunk(addr: u64, left: nat, piece: nat): (n: nat)
    ensures n <= left && addr % 4096 + n <= 4096 && (left > 0 && piece > 0 ==> n > 0)
  {
    var room := 4096 - addr % 4096;
    if left <= room && left <= piece then left else if room <= piece then room else piece
  }

  lemma NothingWritten(f: Flat, start: u64, data: seq<byte>)
    ensures WriteBytes(f, start, data[..0]) == f && AddrAdd(start, 0) == start
  {
    assert forall x :: 0 <= x < TWO64 ==> WriteBytes(f, start, data[..0])[x] == f[x];
  }

  lemma WroteOn(f: Flat, start: u64, data: seq<byte>, done: nat, n: nat)
    requires done + n <= |data| < TWO64
    ensures WriteBytes(WriteBytes(f, start, data[..done]), AddrAdd(start, done), data[done..done + n])
         == WriteBytes(f, start, data[..done + n])
    ensures AddrAdd(AddrAdd(start, done), n) == AddrAdd(start, done + n)
    ensures data[done..][..n] == data[done..done + n]
  {
    WriteTwice(f, start, data[..done], data[done..done + n]);
    assert data[..done] + data[done..done + n] == data[..done + n];
  }

  // ----- the binary format -----

  datatype Entry = Entry(index: nat, data: seq<byte>)

  predicate ValidEntries(es: seq<Entry>) {
    forall i :: 0 <= i < |es| ==> es[i].index < PAGES && |es[i].data| == 4096
  }

  function EncodeEntry(e: Entry): seq<byte> {
    ToBE(e.index, 8) + e.data
  }

  function EncodeEntries(es: seq<Entry>): seq<byte> {
    if |es| == 0 then [] else EncodeEntry(es[0]) + EncodeEntries(es[1..])
  }

  /** The pages in some order, each as its index and its bytes, behind their number. */
  function Encoding(es: seq<Entry>): seq<byte> {
    ToBE(|es|, 8) + EncodeEntries(es)
  }

  /** n pages at the front of a stream, and the rest of the stream. */
  function ParseEntries(s: seq<byte>, n: nat): Option<(seq<Entry>, seq<byte>)>
    decreases n, |s|
  {
    if n == 0 then Some(([], s))
    else if |s| < 4104 || FromBE(s[..8]) >= PAGES then None
    else
      match ParseEntries(s[4104..], n - 1)
      case None => None
      case Some((es, rest)) => Some(([Entry(FromBE(s[..8]), s[8..4104])] + es, rest))
  }

  function Parse(s: seq<byte>): Option<(seq<Entry>, seq<byte>)> {
    if |s| < 8 then None else ParseEntries(s[8..], FromBE(s[..8]))
  }

  lemma {:induction false} ParsesEntries(es: seq<Entry>, tail: seq<byte>)
    requires ValidEntries(es)
    ensures ParseEntries(EncodeEntries(es) + tail, |es|) == Some((es, tail))
    decreases |es|
  {
    var s := EncodeEntries(es) + tail;
    if |es| == 0 {
      assert s == tail;
    } else {
      var head, index := EncodeEntry(es[0]), ToBE(es[0].index, 8);
      assert s[..8] == index && s[8..4104] == es[0].data && s[4104..] == EncodeEntries(es[1..]) + tail;
      hide EncodeEntries, ToBE, FromBE;
      IndexFits(es[0].index);
      ParsesEntries(es[1..], tail);
      assert [es[0]] + es[1..] == es;
    }
  }

  lemma IndexFits(i: nat)
    requires i < TWO64
    ensures FromBE(ToBE(i, 8)) == i
  {
    PowValues();
    BEFits(i, 8);
  }

  lemma ParsesBack(es: seq<Entry>, tail: seq<byte>)
    requires ValidEntries(es) && |es| < TWO64
    ensures Parse(Encoding(es) + tail) == Some((es, tail))
  {
    var s := Encoding(es) + tail;
    assert s[..8] == ToBE(|es|, 8) && s[8..] == EncodeEntries(es) + tail;
    IndexFits(|es|);
    ParsesEntries(es, tail);
  }

  /** The memory after pages were loaded one after the other. */
  ghost function Loaded(f: Flat, es: seq<Entry>): Flat
    requires ValidEntries(es)
  {
    if |es| == 0 then f
    else WriteBytes(ZeroPage(Loaded(f, es[..|es| - 1]), es[|es| - 1].index), 4096 * es[|es| - 1].index, es[|es| - 1].data)
  }

  predicate Has(es: seq<Entry>, pi: nat) {
    exists i :: 0 <= i < |es| && es[i].index == pi
  }

  /** The entries list every page of the memory, in whatever order. */
  ghost predicate Lists(es: seq<Entry>, f: Flat) {
    && ValidEntries(es)
    && (forall i :: 0 <= i < |es| ==> es[i].data == PageData(f, es[i].index))
    && (forall x :: 0 <= x < TWO64 && f[x] != 0 ==> Has(es, x / 4096))
  }

  lemma LoadedOne(g: Flat, e: Entry, x: nat)
    requires e.index < PAGES && |e.data| == 4096 && x < TWO64
    ensures WriteBytes(ZeroPage(g, e.index), 4096 * e.index, e.data)[x]
         == if x / 4096 == e.index then e.data[x % 4096] else g[x]
  {
    var a := 4096 * e.index;
    if x / 4096 == e.index {
      assert AddrSub(x, a) == x % 4096;
    } else {
      assert AddrSub(x, a) >= 4096;
    }
  }

  /** Byte x after loading pages of f: that of f if its page was listed. */
  lemma {:induction false} LoadedAt(es: seq<Entry>, f: Flat, x: nat)
    requires ValidEntries(es) && (forall i :: 0 <= i < |es| ==> es[i].data == PageData(f, es[i].index)) && x < TWO64
    ensures Loaded(EMPTY, es)[x] == if Has(es, x / 4096) then f[x] else 0
    decreases |es|
  {
    if |es| > 0 {
      var n := |es| - 1;
      LoadedAt(es[..n], f, x);
      LoadedOne(Loaded(EMPTY, es[..n]), es[n], x);
      assert es == es[..n] + [es[n]];
      HasMore(es[..n], es[n], x / 4096);
      if x / 4096 == es[n].index {
        assert es[n].data[x % 4096] == f[x];
      }
    }
  }

  /** Round trip: whatever order the pages are written in, and whatever follows them in the
      stream, loading them into an empty memory gives back the memory. */
  lemma SerializeRoundTrip(es: seq<Entry>, f: Flat, tail: seq<byte>)
    requires Lists(es, f) && |es| < TWO64
    ensures Parse(Encoding(es) + tail) == Some((es, tail)) && Loaded(EMPTY, es) == f
  {
    ParsesBack(es, tail);
    forall x | 0 <= x < TWO64 ensures Loaded(EMPTY, es)[x] == f[x] {
      LoadedAt(es, f, x);
    }
  }

  lemma {:induction false} EncodeAppend(es: seq<Entry>, e: Entry)
    ensures EncodeEntries(es + [e]) == EncodeEntries(es) + EncodeEntry(e)
  {
    hide EncodeEntry;
    if |es| == 0 {
      assert es + [e] == [e] && EncodeEntries([e]) == EncodeEntry(e) + EncodeEntries([e][1..]);
    } else {
      assert (es + [e])[1..] == es[1..] + [e];
      EncodeAppend(es[1..], e);
    }
  }

  /** There are fewer than 2^64 pages. */
  lemma {:induction false} FewPages(s: set<nat>, n: nat)
    requires forall i :: i in s ==> i < n
    ensures |s| <= n
    decreases n
  {
    if n == 0 {
      assert s == {};
    } else {
      FewPages(s - {n - 1}, n - 1);
      assert s <= (s - {n - 1}) + {n - 1};
      if n - 1 in s {
        assert |s - {n - 1}| == |s| - 1;
      } else {
        assert s - {n - 1} == s;
      }
    }
  }

  /** Serialize: the order in which the page table is enumerated is arbitrary. */
  method Serialize(m: Memory) returns (out: seq<byte>, ghost es: seq<Entry>)
    requires m.Shape()
    ensures out == Encoding(es) && |es| == |m.pages| < TWO64
    ensures Lists(es, m.flat) && forall pi :: pi in m.pages ==> Has(es, pi)
    ensures match Parse(out)
      case None => false
      case Some((read, rest)) => rest == [] && ValidEntries(read) && Loaded(EMPTY, read) == m.flat
  {
    hide Memory.TreeOk, ToBE, PageData, Factors, EncodeEntry, EncodeEntries, Has;
    NoEntries();
    FewPages(m.pages.Keys, PAGES);
    var todo := m.pages.Keys;
    out := ToBE(|m.pages|, 8);
    es := [];
    while todo != {}
      invariant todo <= m.pages.Keys && |es| + |todo| == |m.pages|
      invariant out == ToBE(|m.pages|, 8) + EncodeEntries(es)
      invariant ValidEntries(es) && forall i :: 0 <= i < |es| ==> es[i].data == PageData(m.flat, es[i].index)
      invariant forall pi :: pi in m.pages && pi !in todo ==> Has(es, pi)
      decreases |todo|
    {
      var pi :| pi in todo;
      ghost var e := Entry(pi, m.pages[pi].Data[..]);
      EncodeAppend(es, e);
      EntryBytes(e);
      out := out + ToBE(pi, 8) + m.pages[pi].Data[..];
      forall qi | qi in m.pages && (qi !in todo || qi == pi) ensures Has(es + [e], qi) {
        HasMore(es, e, qi);
      }
      es := es + [e];
      todo := todo - {pi};
    }
    assert forall x :: 0 <= x < TWO64 && m.flat[x] != 0 ==> x / 4096 in m.pages;
    SerializeRoundTrip(es, m.flat, []);
    assert out + [] == out;
  }

  lemma NoEntries()
    ensures EncodeEntries([]) == []
  {
  }

  lemma EntryBytes(e: Entry)
    ensures EncodeEntry(e) == ToBE(e.index, 8) + e.data
  {
  }

  lemma HasMore(es: seq<Entry>, e: Entry, pi: nat)
    ensures Has(es + [e], pi) <==> Has(es, pi) || e.index == pi
  {
    if Has(es, pi) {
      var i :| 0 <= i < |es| && es[i].index == pi;
      assert (es + [e])[i].index == pi;
    }
    assert (es + [e])[|es|] == e;
  }

  /** Deserialize: all or nothing of the stream is understood, and what follows the pages is left.
      The lookup cache goes on answering with the pages of before, so it is right afterwards if and
      only if none of the two pages in it was loaded. */
  method Deserialize(m: Memory, input: seq<byte>) returns (rest: Option<seq<byte>>)
    requires m.Shape() && m.LookupOk()
    modifies m, m.nodes`Children, m.nodes`HashExists, m.nodes`HashValid, m.dataArrays
    ensures m.Shape() && (old(m.Coherent()) ==> m.Coherent()) && (old(m.Unhashed()) ==> m.Unhashed())
    ensures match Parse(input)
      case None => rest.None?
      case Some((es, tail)) =>
        && rest == Some(tail) && ValidEntries(es) && m.flat == Loaded(old(m.flat), es)
        && (m.LookupOk() <==> old(!Has(es, m.lastPageKey0) && !Has(es, m.lastPageKey1)))
  {
    hide Memory.Shape, Memory.LookupOk, Memory.Coherent, Memory.Unhashed, WriteBytes, ZeroPage, FromBE, Memory.Grew, Has;
    if |input| < 8 {
      return None;
    }
    var count, s := FromBE(input[..8]), input[8..];
    ghost var coh, done := m.Coherent(), [];
    PrependNothing(ParseEntries(s, count));
    HasNone(m.lastPageKey0);
    HasNone(m.lastPageKey1);
    while count > 0
      invariant m.Shape() && (coh ==> m.Coherent()) && (old(m.Unhashed()) ==> m.Unhashed())
      invariant m.lastPageKey0 == old(m.lastPageKey0) && m.lastPageKey1 == old(m.lastPageKey1)
      invariant m.LookupOk() <==> !Has(done, m.lastPageKey0) && !Has(done, m.lastPageKey1)
      invariant ValidEntries(done) && m.flat == Loaded(old(m.flat), done)
      invariant Parse(input) == Prepend(done, ParseEntries(s, count))
      invariant m.nodes >= old(m.nodes) && fresh(m.nodes - old(m.nodes))
      invariant m.dataArrays >= old(m.dataArrays) && fresh(m.dataArrays - old(m.dataArrays))
      decreases count
    {
      if |s| < 4104 {
        return None;
      }
      var pageIndex := FromBE(s[..8]);
      if pageIndex >= PAGES {
        return None; // no address leads to such a page
      }
      ghost var e := Entry(pageIndex, s[8..4104]);
      OneMore(done, e, s, count);
      HasMore(done, e, m.lastPageKey0);
      HasMore(done, e, m.lastPageKey1);
      LoadPage(m, pageIndex, s[8..4104], coh);
      assert (done + [e])[..|done|] == done;
      done := done + [e];
      s, count := s[4104..], count - 1;
    }
    assert done + [] == done;
    return Some(s);
  }

  lemma HasNone(pi: nat)
    ensures !Has([], pi)
  {
  }

  function Prepend(es: seq<Entry>, r: Option<(seq<Entry>, seq<byte>)>): Option<(seq<Entry>, seq<byte>)> {
    match r
    case None => None
    case Some((more, rest)) => Some((es + more, rest))
  }

  lemma PrependNothing(r: Option<(seq<Entry>, seq<byte>)>)
    ensures Prepend([], r) == r
  {
    if r.Some? {
      assert [] + r.value.0 == r.value.0;
    }
  }

  lemma OneMore(done: seq<Entry>, e: Entry, s: seq<byte>, count: nat)
    requires count > 0 && |s| >= 4104 && FromBE(s[..8]) < PAGES && e == Entry(FromBE(s[..8]), s[8..4104])
    ensures Prepend(done, ParseEntries(s, count)) == Prepend(done + [e], ParseEntries(s[4104..], count - 1))
  {
    hide FromBE;
    var r := ParseEntries(s[4104..], count - 1);
    if r.Some? {
      assert done + ([e] + r.value.0) == done + [e] + r.value.0;
    }
  }

  /** Allocates a page, replacing one that may be there, and fills it. */
  method LoadPage(m: Memory, pi: nat, data: seq<byte>, ghost coh: bool)
    requires m.Shape() && pi < PAGES && |data| == 4096 && (coh ==> m.Coherent())
    modifies m, m.nodes`Children, m.nodes`HashExists, m.nodes`HashValid
    ensures m.Shape() && (coh ==> m.Coherent()) && (old(m.Unhashed()) ==> m.Unhashed())
    ensures m.lastPageKey0 == old(m.lastPageKey0) && m.lastPageKey1 == old(m.lastPageKey1)
    ensures m.LookupOk() <==> old(m.LookupOk()) && pi != m.lastPageKey0 && pi != m.lastPageKey1
    ensures m.flat == WriteBytes(ZeroPage(old(m.flat), pi), 4096 * pi, data)
    ensures m.nodes >= old(m.nodes) && fresh(m.nodes - old(m.nodes))
    ensures m.dataArrays >= old(m.dataArrays) && fresh(m.dataArrays - old(m.dataArrays))
  {
    hide *;
    PageStart(pi);
    var p := m.AllocPage(pi);
    m.BlankIsClear(PageData(m.flat, pi), Spliced(PageData(m.flat, pi), 0, data));
    m.WritePage(p, 4096 * pi, data, coh);
    BlankUnhashed(m, pi);
  }

  lemma PageStart(pi: nat)
    requires pi < PAGES
    ensures 4096 * pi < TWO64 && 4096 * pi / 4096 == pi && 4096 * pi % 4096 == 0 && pi != NO_KEY
  {
  }
}
