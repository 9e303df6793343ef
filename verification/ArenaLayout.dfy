/** What the arena's bytes mean: which blocks exist, who owns each, and what is stored in it.
    Every lemma here is one elementary move of a block between the allocator's hands
    (`Reserved`), a live value and a free list. */
module ArenaLayout {
  import opened Words
  import opened ArenaSizing

  /** Block references cycle through the generations 1..PERIOD. */
  const PERIOD := 0x3_FFFF
  const MAX_SEGMENTS := 0x200_0000

  datatype Addr = Addr(seg: nat, off: nat)

  /** One segment: the committed bytes and the reserved size. */
  datatype Segment = Segment(data: seq<byte>, cap: nat)

  /** The physical state: segments, free-list heads and released segment slots. */
  datatype Heap = Heap(segs: seq<Segment>, heads: seq<nat>, holes: seq<nat>)

  datatype Status = Live(step: nat) | Free(bucket: nat, depth: nat, next: nat) | Reserved
  datatype Block = Block(size: nat, status: Status)
  datatype Ticket = Ticket(addr: Addr, length: nat, kind: Class)

  /** The logical state.  A ticket is the number of the generation step that issued a reference;
      `contents` holds the bytes of every live ticket, `issued` every ticket ever handed out, and
      `table` the block size of each free-list bucket. */
  datatype Layout = Layout(
    blocks: map<Addr, Block>,
    lists: seq<seq<Addr>>,
    contents: map<nat, seq<byte>>,
    issued: map<nat, Ticket>,
    steps: nat,
    table: seq<nat>)

  function Generation(step: nat): (g: nat)
    ensures g <= PERIOD && (g == 0 <==> step == 0)
  {
    if step == 0 then 0 else (step - 1) % PERIOD + 1
  }

  /** A free-list head or link: zero, or the address of a block. */
  function Link(a: Addr): nat { (a.seg + 1) * TWO32 + a.off }

  function Top(list: seq<Addr>): nat
  {
    if list == [] then 0 else Link(list[|list| - 1])
  }

  function BlockBytes(segs: seq<Segment>, a: Addr, size: nat): seq<byte>
    requires a.seg < |segs| && a.off + size <= |segs[a.seg].data|
  {
    segs[a.seg].data[a.off..a.off + size]
  }

  ghost predicate Placed(segs: seq<Segment>, blocks: map<Addr, Block>)
  {
    forall a :: a in blocks ==>
      16 <= blocks[a].size && a.seg < |segs| && a.off + blocks[a].size <= |segs[a.seg].data|
  }

  /** No two blocks overlap. */
  ghost predicate Apart(blocks: map<Addr, Block>)
  {
    forall a, b {:trigger Disjoint(blocks, a, b)} :: a in blocks && b in blocks ==> Disjoint(blocks, a, b)
  }

  ghost predicate Disjoint(blocks: map<Addr, Block>, a: Addr, b: Addr)
    requires a in blocks && b in blocks
  {
    a.seg == b.seg && a.off < b.off ==> a.off + blocks[a].size <= b.off
  }

  /** A segment above 8 KiB is exactly one block. */
  ghost predicate Segments(segs: seq<Segment>, blocks: map<Addr, Block>)
  {
    && |segs| <= MAX_SEGMENTS
    && forall s :: 0 <= s < |segs| ==>
      && |segs[s].data| <= segs[s].cap
      && (segs[s].cap > SEGMENT_BYTES ==> Addr(s, 0) in blocks && blocks[Addr(s, 0)].size == segs[s].cap)
  }

  /** Free lists are stacks: the head is the last entry and each entry knows its depth, so no block
      is listed twice.  The bucket of blocks above one segment is empty. */
  ghost predicate Lists(heads: seq<nat>, L: Layout)
  {
    && |heads| == BUCKETS && |L.lists| == BUCKETS && |L.table| == BUCKETS
    && L.lists[DEDICATED_BUCKET] == []
    && (forall b :: 0 <= b < BUCKETS ==> heads[b] == Top(L.lists[b]))
    && (forall b, i {:trigger Listed(L, b, i)} :: 0 <= b < BUCKETS && 0 <= i < |L.lists[b]| ==> Listed(L, b, i))
  }

  /** The entry at depth `i` is a free block linked to the entry below it. */
  ghost predicate Listed(L: Layout, b: nat, i: nat)
    requires b < |L.lists| && i < |L.lists[b]|
  {
    && L.lists[b][i] in L.blocks
    && L.blocks[L.lists[b][i]].status == Free(b, i, if i == 0 then 0 else Link(L.lists[b][i - 1]))
  }

  ghost predicate Owned(L: Layout, a: Addr)
    requires a in L.blocks
  {
    match L.blocks[a].status
    case Live(t) => t in L.contents && t in L.issued && L.issued[t].addr == a
    case Free(b, i, next) =>
      b < |L.lists| == |L.table| && i < |L.lists[b]| && L.lists[b][i] == a && L.blocks[a].size == L.table[b]
    case Reserved => true
  }

  ghost predicate Contents(L: Layout)
  {
    forall t {:trigger Held(L, t)} :: t in L.contents ==> Held(L, t)
  }

  /** A live ticket's block exists, has the size of its class and is owned by the ticket. */
  ghost predicate Held(L: Layout, t: nat)
    requires t in L.contents
  {
    && t in L.issued
    && 0 < |L.contents[t]|
    && L.issued[t].length == |L.contents[t]|
    && L.issued[t].addr in L.blocks
    && L.blocks[L.issued[t].addr] == Block(L.issued[t].kind.block, Live(t))
  }

  /** The bytes a block must hold. */
  ghost predicate Stored(bytes: seq<byte>, contents: map<nat, seq<byte>>, status: Status)
  {
    match status
    case Live(t) =>
      && t in contents && 8 + |contents[t]| <= |bytes|
      && FromLe(bytes[..8]) == Generation(t)
      && bytes[8..8 + |contents[t]|] == contents[t]
    case Free(b, i, next) =>
      && 16 <= |bytes|
      && FromLe(bytes[..8]) == 0
      && FromLe(bytes[8..16]) == next
    case Reserved => true
  }

  ghost predicate Filled(segs: seq<Segment>, L: Layout, a: Addr)
    requires Placed(segs, L.blocks) && a in L.blocks
  {
    Stored(BlockBytes(segs, a, L.blocks[a].size), L.contents, L.blocks[a].status)
  }

  ghost predicate Bytes(segs: seq<Segment>, L: Layout)
    requires Placed(segs, L.blocks)
  {
    forall a {:trigger Filled(segs, L, a)} :: a in L.blocks ==> Filled(segs, L, a)
  }

  ghost predicate Owners(L: Layout)
  {
    forall a {:trigger Owned(L, a)} :: a in L.blocks ==> Owned(L, a)
  }

  ghost predicate Holes(segs: seq<Segment>, holes: seq<nat>)
  {
    && (forall i :: 0 <= i < |holes| ==> holes[i] < |segs| && segs[holes[i]] == Segment([], 0))
    && (forall i, j :: 0 <= i < j < |holes| ==> holes[i] != holes[j])
  }

  /** Every ticket ever issued still names a block boundary, and a block that moved on is younger. */
  ghost predicate Tickets(segs: seq<Segment>, L: Layout)
  {
    forall t {:trigger Known(segs, L, t)} :: t in L.issued ==> Known(segs, L, t)
  }

  ghost predicate Known(segs: seq<Segment>, L: Layout, t: nat)
    requires t in L.issued
  {
    var a := L.issued[t].addr;
    && 1 <= t <= L.steps
    && (a in L.blocks || (a.off == 0 && a.seg < |segs| && segs[a.seg].data == []))
    && (a in L.blocks && L.blocks[a].status.Live? ==> t <= L.blocks[a].status.step)
  }

  /** The classes in use are those of the size-class table. */
  ghost predicate Classes(L: Layout)
  {
    && |L.table| == BUCKETS
    && (forall b {:trigger BucketClass(L, b)} :: 0 <= b < BUCKETS ==> BucketClass(L, b))
    && (forall t {:trigger TicketClass(L, t)} :: t in L.issued ==> TicketClass(L, t))
  }

  ghost predicate BucketClass(L: Layout, b: nat)
    requires b < |L.table|
  {
    L.table[b] == BucketBlock(b)
  }

  ghost predicate TicketClass(L: Layout, t: nat)
    requires t in L.issued
  {
    var k := L.issued[t];
    k.length + 8 <= MAX_BLOCK && k.kind == SizeClass(k.length)
  }

  /** The arena invariant; `r` is the block between owners, if any. */
  ghost predicate Inv(h: Heap, L: Layout, r: Option<Addr>)
  {
    && Placed(h.segs, L.blocks)
    && Apart(L.blocks)
    && Segments(h.segs, L.blocks)
    && Lists(h.heads, L)
    && Owners(L)
    && Contents(L)
    && Bytes(h.segs, L)
    && Holes(h.segs, h.holes)
    && Tickets(h.segs, L)
    && Pending(L.blocks, r)
  }

  ghost predicate Pending(blocks: map<Addr, Block>, r: Option<Addr>)
  {
    && (forall a :: a in blocks && blocks[a].status.Reserved? ==> r == Some(a))
    && (r.Some? ==> r.value in blocks && blocks[r.value].status.Reserved?)
  }

  /** Offsets always fit the 13-bit field of a reference. */
  lemma OffsetFits(h: Heap, L: Layout, r: Option<Addr>, a: Addr)
    requires Inv(h, L, r) && a in L.blocks
    ensures a.seg < |h.segs| <= MAX_SEGMENTS && a.off < SEGMENT_BYTES
    ensures L.blocks[a].size > SEGMENT_BYTES ==>
      a.off == 0 && |h.segs[a.seg].data| == h.segs[a.seg].cap == L.blocks[a].size
  {
    if h.segs[a.seg].cap > SEGMENT_BYTES {
      assert Addr(a.seg, 0) in L.blocks;
      var first := Addr(a.seg, 0);
      assert first in L.blocks && L.blocks[first].size == h.segs[a.seg].cap;
      assert Disjoint(L.blocks, first, a);
    }
  }

  /** Giving a block another owner moves no block. */
  lemma SameShape(segs: seq<Segment>, blocks: map<Addr, Block>, a: Addr, status: Status)
    requires Placed(segs, blocks) && Apart(blocks) && Segments(segs, blocks) && a in blocks
    ensures var blocks' := blocks[a := blocks[a].(status := status)];
      Placed(segs, blocks') && Apart(blocks') && Segments(segs, blocks')
  {
    StatusApart(blocks, a, status);
  }

  lemma StatusApart(blocks: map<Addr, Block>, a: Addr, status: Status)
    requires Apart(blocks) && a in blocks
    ensures Apart(blocks[a := blocks[a].(status := status)])
  {
    var blocks' := blocks[a := blocks[a].(status := status)];
    forall b, c | b in blocks' && c in blocks'
      ensures Disjoint(blocks', b, c)
    {
      assert Disjoint(blocks, b, c);
    }
  }

  /** Blocks that hold no live value may change hands without touching contents or tickets. */
  lemma SameValues(segs: seq<Segment>, L: Layout, L': Layout, a: Addr)
    requires Contents(L) && Tickets(segs, L)
    requires a in L.blocks && !L.blocks[a].status.Live?
    requires a in L'.blocks && !L'.blocks[a].status.Live?
    requires L'.blocks == L.blocks[a := L'.blocks[a]]
    requires L'.contents == L.contents && L'.issued == L.issued && L'.steps == L.steps
    ensures Contents(L') && Tickets(segs, L')
  {
    forall t | t in L'.contents ensures Held(L', t) { assert Held(L, t); }
    forall t | t in L'.issued ensures Known(segs, L', t) { assert Known(segs, L, t); }
  }

  /** Moves among live and reserved blocks leave the free lists alone. */
  lemma ListsFrame(heads: seq<nat>, L: Layout, L': Layout)
    requires Lists(heads, L) && L'.lists == L.lists && L'.table == L.table
    requires forall a :: a in L.blocks && L.blocks[a].status.Free? ==> a in L'.blocks && L'.blocks[a] == L.blocks[a]
    ensures Lists(heads, L')
  {
    forall b, i | 0 <= b < BUCKETS && 0 <= i < |L'.lists[b]|
      ensures Listed(L', b, i)
    {
      assert Listed(L, b, i);
    }
  }

  // ---- free list to reserved ----

  function PopLayout(L: Layout, b: nat): Layout
    requires b < |L.lists| && L.lists[b] != []
    requires L.lists[b][|L.lists[b]| - 1] in L.blocks
  {
    var n := |L.lists[b]|;
    var a := L.lists[b][n - 1];
    L.(blocks := L.blocks[a := L.blocks[a].(status := Reserved)], lists := L.lists[b := L.lists[b][..n - 1]])
  }

  lemma PopLists(heads: seq<nat>, L: Layout, b: nat)
    requires Lists(heads, L) && b < BUCKETS && L.lists[b] != [] && L.lists[b][|L.lists[b]| - 1] in L.blocks
    requires Owners(L)
    ensures var n, L' := |L.lists[b]|, PopLayout(L, b);
      && Lists(heads[b := Top(L.lists[b][..n - 1])], L')
      && Owners(L')
  {
    var n, L' := |L.lists[b]|, PopLayout(L, b);
    var a := L.lists[b][n - 1];
    forall c | c in L'.blocks
      ensures Owned(L', c)
    {
      assert Owned(L, c);
    }
    forall d, i | 0 <= d < BUCKETS && 0 <= i < |L'.lists[d]|
      ensures Listed(L', d, i)
    {
      assert Listed(L, d, i);
      assert Listed(L, b, n - 1);
    }
    if n > 1 { assert Listed(L, b, n - 1); }
  }

  lemma PopBytes(segs: seq<Segment>, L: Layout, b: nat)
    requires Placed(segs, L.blocks) && Bytes(segs, L)
    requires b < |L.lists| && L.lists[b] != []
    requires L.lists[b][|L.lists[b]| - 1] in L.blocks
    requires Owners(L)
    ensures Placed(segs, PopLayout(L, b).blocks) && Bytes(segs, PopLayout(L, b))
  {
    var n, L' := |L.lists[b]|, PopLayout(L, b);
    forall c | c in L'.blocks
      ensures Filled(segs, L', c)
    {
      assert Owned(L, c);
      assert Filled(segs, L, c);
    }
  }

  /** Every entry of a free list is a block of the bucket's size whose link is the rest of the list. */
  lemma EntryReads(h: Heap, L: Layout, r: Option<Addr>, b: nat, i: nat)
    requires Inv(h, L, r) && b < BUCKETS && i < |L.lists[b]|
    ensures var a := L.lists[b][i];
      && a in L.blocks && a.seg < |h.segs| && a.off + 16 <= |h.segs[a.seg].data|
      && L.blocks[a].size == L.table[b] && L.blocks[a].status.Free?
      && Word(h.segs[a.seg].data, a.off + 8, 8) == Top(L.lists[b][..i])
      && a == Addr(Link(a) / TWO32 - 1, Link(a) % TWO32)
  {
    var a := L.lists[b][i];
    assert Listed(L, b, i) && Owned(L, a) && Filled(h.segs, L, a);
    SliceOfSlice(h.segs[a.seg].data, a.off, a.off + L.blocks[a].size, 8, 16);
    OffsetFits(h, L, r, a);
  }

  lemma PopKeeps(h: Heap, L: Layout, b: nat)
    requires Inv(h, L, None) && b < BUCKETS && L.lists[b] != []
    ensures var n := |L.lists[b]|;
      var a := L.lists[b][n - 1];
      a in L.blocks && Inv(h.(heads := h.heads[b := Top(L.lists[b][..n - 1])]), PopLayout(L, b), Some(a))
  {
    hide Placed, Apart, Segments, Owners, Bytes, Contents, Tickets, Holes;
    var a := L.lists[b][|L.lists[b]| - 1];
    assert Listed(L, b, |L.lists[b]| - 1);
    PopLists(h.heads, L, b);
    PopBytes(h.segs, L, b);
    SameShape(h.segs, L.blocks, a, Reserved);
    SameValues(h.segs, L, PopLayout(L, b), a);
  }

  // ---- new space to reserved ----

  /** A reserved block in bytes no other block uses. */
  function ReserveLayout(L: Layout, a: Addr, size: nat): Layout
  {
    L.(blocks := L.blocks[a := Block(size, Reserved)])
  }

  /** Segments may gain bytes at the end, and empty segments may be refilled. */
  ghost predicate Extends(segs: seq<Segment>, segs': seq<Segment>)
  {
    && |segs| <= |segs'|
    && forall s :: 0 <= s < |segs| ==> segs[s].data <= segs'[s].data
  }

  lemma ReserveShape(segs: seq<Segment>, segs': seq<Segment>, blocks: map<Addr, Block>, a: Addr, size: nat)
    requires Placed(segs, blocks) && Apart(blocks) && Extends(segs, segs')
    requires 16 <= size && a.seg < |segs'| && a.off + size <= |segs'[a.seg].data|
    requires a.off == if a.seg < |segs| then |segs[a.seg].data| else 0
    ensures a !in blocks
    ensures var blocks' := blocks[a := Block(size, Reserved)];
      Placed(segs', blocks') && Apart(blocks')
  {
    var blocks' := blocks[a := Block(size, Reserved)];
    assert a !in blocks;
    forall b, c | b in blocks' && c in blocks'
      ensures Disjoint(blocks', b, c)
    {
      if b != a && c != a { assert Disjoint(blocks, b, c); }
    }
  }

  lemma ReserveBytes(segs: seq<Segment>, segs': seq<Segment>, L: Layout, a: Addr, size: nat)
    requires Placed(segs, L.blocks) && Bytes(segs, L) && Extends(segs, segs') && a !in L.blocks
    requires Owners(L)
    requires var L' := ReserveLayout(L, a, size); Placed(segs', L'.blocks)
    ensures var L' := ReserveLayout(L, a, size);
      Bytes(segs', L') && Owners(L')
  {
    var L' := ReserveLayout(L, a, size);
    forall c | c in L'.blocks
      ensures Owned(L', c) && Filled(segs', L', c)
    {
      if c != a {
        assert Owned(L, c);
        PrefixSlice(segs[c.seg].data, segs'[c.seg].data, c.off, c.off + L.blocks[c].size);
        assert Filled(segs, L, c);
      }
    }
  }

  lemma PrefixSlice(s: seq<byte>, t: seq<byte>, lo: nat, hi: nat)
    requires s <= t && lo <= hi <= |s|
    ensures s[lo..hi] == t[lo..hi]
  {
  }

  /** The conditions under which fresh bytes become a reserved block. */
  ghost predicate Fresh(h: Heap, h': Heap, a: Addr, size: nat)
  {
    && Extends(h.segs, h'.segs) && |h'.segs| <= MAX_SEGMENTS
    && 16 <= size && a.seg < |h'.segs| && a.off + size == |h'.segs[a.seg].data|
    && a.off == (if a.seg < |h.segs| then |h.segs[a.seg].data| else 0)
    && |h'.segs| <= |h.segs| + 1
    && (|h'.segs| == |h.segs| + 1 ==> a.seg == |h.segs|)
    && (forall s :: 0 <= s < |h.segs| && s != a.seg ==> h'.segs[s] == h.segs[s])
    && |h'.segs[a.seg].data| <= h'.segs[a.seg].cap
    && (h'.segs[a.seg].cap > SEGMENT_BYTES ==> a.off == 0 && size == h'.segs[a.seg].cap)
    && h'.heads == h.heads
    && Holes(h'.segs, h'.holes)
  }

  lemma ReserveKeeps(h: Heap, h': Heap, L: Layout, a: Addr, size: nat)
    requires Inv(h, L, None) && Fresh(h, h', a, size)
    ensures a !in L.blocks && Inv(h', ReserveLayout(L, a, size), Some(a))
  {
    ReserveShape(h.segs, h'.segs, L.blocks, a, size);
    ReserveBytes(h.segs, h'.segs, L, a, size);
    ReserveRest(h, h', L, a, size);
  }

  lemma ReserveRest(h: Heap, h': Heap, L: Layout, a: Addr, size: nat)
    requires Segments(h.segs, L.blocks) && Lists(h.heads, L) && Contents(L) && Tickets(h.segs, L)
    requires a !in L.blocks && Fresh(h, h', a, size)
    ensures var L' := ReserveLayout(L, a, size);
      Segments(h'.segs, L'.blocks) && Lists(h'.heads, L') && Contents(L') && Tickets(h'.segs, L')
  {
    var L' := ReserveLayout(L, a, size);
    ListsFrame(h.heads, L, L');
    forall t | t in L'.contents ensures Held(L', t) { assert Held(L, t); }
    forall t | t in L'.issued
      ensures Known(h'.segs, L', t)
    {
      assert Known(h.segs, L, t);
    }
  }

  // ---- reserved to live ----

  function CommitLayout(L: Layout, a: Addr, value: seq<byte>, k: Class): Layout
    requires a in L.blocks
  {
    var t := L.steps + 1;
    L.(blocks := L.blocks[a := L.blocks[a].(status := Live(t))],
       contents := L.contents[t := value],
       issued := L.issued[t := Ticket(a, |value|, k)],
       steps := t)
  }

  /** A new header and payload written over one block. */
  function WriteBlock(segs: seq<Segment>, a: Addr, header: seq<byte>, body: seq<byte>): (r: seq<Segment>)
    requires a.seg < |segs| && a.off + |header| + |body| <= |segs[a.seg].data|
    ensures |r| == |segs| && |r[a.seg].data| == |segs[a.seg].data|
  {
    var s := segs[a.seg];
    segs[a.seg := s.(data := Patch(Patch(s.data, a.off, header), a.off + |header|, body))]
  }

  lemma WriteFrame(segs: seq<Segment>, a: Addr, header: seq<byte>, body: seq<byte>, c: Addr, size: nat)
    requires a.seg < |segs| && a.off + |header| + |body| <= |segs[a.seg].data|
    requires c.seg < |segs| && c.off + size <= |segs[c.seg].data|
    requires c.seg != a.seg || c.off + size <= a.off || a.off + |header| + |body| <= c.off
    ensures BlockBytes(WriteBlock(segs, a, header, body), c, size) == BlockBytes(segs, c, size)
  {
    if c.seg == a.seg {
      var d := segs[a.seg].data;
      PatchFrame(d, a.off, header, c.off, c.off + size);
      PatchFrame(Patch(d, a.off, header), a.off + |header|, body, c.off, c.off + size);
    }
  }

  lemma WriteReads(segs: seq<Segment>, a: Addr, header: seq<byte>, body: seq<byte>, size: nat)
    requires a.seg < |segs| && |header| + |body| <= size && a.off + size <= |segs[a.seg].data|
    ensures var bytes := BlockBytes(WriteBlock(segs, a, header, body), a, size);
      bytes[..|header|] == header && bytes[|header|..|header| + |body|] == body
  {
    var d := segs[a.seg].data;
    var d' := Patch(Patch(d, a.off, header), a.off + |header|, body);
    var n := |header|;
    SliceOfSlice(d', a.off, a.off + size, 0, n);
    SliceOfSlice(d', a.off, a.off + size, n, n + |body|);
    PatchReads(d, a.off, header);
    PatchReads(Patch(d, a.off, header), a.off + n, body);
    PatchFrame(Patch(d, a.off, header), a.off + n, body, a.off, a.off + n);
  }

  /** Only the bytes of the written block change. */
  lemma WriteShape(segs: seq<Segment>, a: Addr, header: seq<byte>, body: seq<byte>)
    requires a.seg < |segs| && a.off + |header| + |body| <= |segs[a.seg].data|
    ensures SameSizes(segs, WriteBlock(segs, a, header, body))
    ensures forall s :: 0 <= s < |segs| && s != a.seg ==> WriteBlock(segs, a, header, body)[s] == segs[s]
  {
  }

  ghost predicate SameSizes(segs: seq<Segment>, segs': seq<Segment>)
  {
    && |segs| == |segs'|
    && forall s :: 0 <= s < |segs| ==> |segs[s].data| == |segs'[s].data| && segs[s].cap == segs'[s].cap
  }

  lemma RewriteShape(segs: seq<Segment>, segs': seq<Segment>, blocks: map<Addr, Block>, a: Addr, status: Status)
    requires Placed(segs, blocks) && Apart(blocks) && Segments(segs, blocks) && a in blocks
    requires SameSizes(segs, segs')
    ensures var blocks' := blocks[a := blocks[a].(status := status)];
      Placed(segs', blocks') && Apart(blocks') && Segments(segs', blocks')
  {
    StatusApart(blocks, a, status);
  }

  /** Writing over a reserved block leaves every other block's bytes alone. */
  lemma OthersKept(segs: seq<Segment>, blocks: map<Addr, Block>, a: Addr, header: seq<byte>, body: seq<byte>, c: Addr)
    requires Placed(segs, blocks) && Apart(blocks) && a in blocks && c in blocks && c != a
    requires |header| + |body| <= blocks[a].size
    ensures BlockBytes(WriteBlock(segs, a, header, body), c, blocks[c].size) == BlockBytes(segs, c, blocks[c].size)
  {
    assert Disjoint(blocks, a, c) && Disjoint(blocks, c, a);
    assert c.seg == a.seg ==> c.off != a.off;
    WriteFrame(segs, a, header, body, c, blocks[c].size);
  }

  lemma StepFresh(segs: seq<Segment>, L: Layout)
    requires Tickets(segs, L)
    ensures L.steps + 1 !in L.issued
  {
    forall t | t in L.issued ensures t <= L.steps { assert Known(segs, L, t); }
  }

  lemma CommitOwn(segs: seq<Segment>, L: Layout, a: Addr, header: seq<byte>, value: seq<byte>, k: Class)
    requires a in L.blocks && a.seg < |segs| && a.off + L.blocks[a].size <= |segs[a.seg].data|
    requires 8 + |value| <= L.blocks[a].size
    requires |header| == 8 && FromLe(header) == Generation(L.steps + 1)
    requires Placed(WriteBlock(segs, a, header, value), CommitLayout(L, a, value, k).blocks)
    ensures Filled(WriteBlock(segs, a, header, value), CommitLayout(L, a, value, k), a)
  {
    WriteReads(segs, a, header, value, L.blocks[a].size);
  }

  lemma CommitBytes(segs: seq<Segment>, L: Layout, a: Addr, header: seq<byte>, value: seq<byte>, k: Class)
    requires Placed(segs, L.blocks) && Apart(L.blocks) && Bytes(segs, L) && Owners(L)
    requires a in L.blocks && L.blocks[a].status == Reserved && 8 + |value| <= L.blocks[a].size
    requires |header| == 8 && FromLe(header) == Generation(L.steps + 1)
    requires L.steps + 1 !in L.issued
    requires Placed(WriteBlock(segs, a, header, value), CommitLayout(L, a, value, k).blocks)
    ensures Bytes(WriteBlock(segs, a, header, value), CommitLayout(L, a, value, k))
    ensures Owners(CommitLayout(L, a, value, k))
  {
    var segs' := WriteBlock(segs, a, header, value);
    var L' := CommitLayout(L, a, value, k);
    forall c | c in L'.blocks
      ensures Owned(L', c) && Filled(segs', L', c)
    {
      if c == a {
        CommitOwn(segs, L, a, header, value, k);
      } else {
        OthersKept(segs, L.blocks, a, header, value, c);
        assert Owned(L, c) && Filled(segs, L, c);
      }
    }
  }

  lemma CommitValues(segs: seq<Segment>, segs': seq<Segment>, heads: seq<nat>, L: Layout, a: Addr, value: seq<byte>,
                     k: Class)
    requires Lists(heads, L) && Contents(L) && Tickets(segs, L)
    requires SameSizes(segs, segs')
    requires a in L.blocks && L.blocks[a].status == Reserved
    requires 0 < |value| && L.blocks[a].size == k.block
    ensures Lists(heads, CommitLayout(L, a, value, k))
    ensures Contents(CommitLayout(L, a, value, k)) && Tickets(segs', CommitLayout(L, a, value, k))
  {
    var L' := CommitLayout(L, a, value, k);
    ListsFrame(heads, L, L');
    StepFresh(segs, L);
    forall t | t in L'.contents ensures Held(L', t) { if t != L'.steps { assert Held(L, t); } }
    forall t | t in L'.issued ensures Known(segs', L', t) { if t != L'.steps { assert Known(segs, L, t); } }
  }

  /** A value written into a reserved block becomes live under a new ticket. */
  lemma CommitKeeps(h: Heap, L: Layout, a: Addr, header: seq<byte>, value: seq<byte>, k: Class)
    requires Inv(h, L, Some(a)) && 0 < |value| && |value| + 8 <= k.block == L.blocks[a].size
    requires |header| == 8 && FromLe(header) == Generation(L.steps + 1)
    ensures a.seg < |h.segs| && a.off + 8 + |value| <= |h.segs[a.seg].data|
    ensures Inv(h.(segs := WriteBlock(h.segs, a, header, value)), CommitLayout(L, a, value, k), None)
  {
    hide Apart, Lists, Tickets, Contents, Owners, Bytes, Holes, Segments;
    var segs', L' := WriteBlock(h.segs, a, header, value), CommitLayout(L, a, value, k);
    WriteShape(h.segs, a, header, value);
    RewriteShape(h.segs, segs', L.blocks, a, Live(L.steps + 1));
    StepFresh(h.segs, L);
    CommitBytes(h.segs, L, a, header, value, k);
    CommitValues(h.segs, segs', h.heads, L, a, value, k);
    HolesFrame(h.segs, segs', h.holes, a.seg);
    assert Pending(L'.blocks, None);
  }

  lemma HolesFrame(segs: seq<Segment>, segs': seq<Segment>, holes: seq<nat>, s: nat)
    requires Holes(segs, holes) && s < |segs| && segs[s].data != []
    requires |segs'| == |segs| && forall i :: 0 <= i < |segs| && i != s ==> segs'[i] == segs[i]
    ensures Holes(segs', holes)
  {
  }

  // ---- live to reserved ----

  function RetireLayout(L: Layout, t: nat): Layout
    requires t in L.issued && L.issued[t].addr in L.blocks
  {
    var a := L.issued[t].addr;
    L.(blocks := L.blocks[a := L.blocks[a].(status := Reserved)], contents := L.contents - {t})
  }

  lemma RetireValues(segs: seq<Segment>, heads: seq<nat>, L: Layout, t: nat)
    requires Lists(heads, L) && Contents(L) && Tickets(segs, L) && Owners(L) && t in L.contents && Held(L, t)
    ensures Lists(heads, RetireLayout(L, t)) && Contents(RetireLayout(L, t)) && Tickets(segs, RetireLayout(L, t))
  {
    var L' := RetireLayout(L, t);
    ListsFrame(heads, L, L');
    forall u | u in L'.contents ensures Held(L', u) { assert Held(L, u); }
    forall u | u in L'.issued ensures Known(segs, L', u) { assert Known(segs, L, u); }
  }

  lemma RetireBytes(segs: seq<Segment>, L: Layout, t: nat)
    requires Placed(segs, L.blocks) && Bytes(segs, L) && Owners(L) && t in L.contents && Held(L, t)
    ensures var L' := RetireLayout(L, t);
      Owners(L') && Placed(segs, L'.blocks) && Bytes(segs, L')
  {
    var L' := RetireLayout(L, t);
    forall c | c in L'.blocks
      ensures Owned(L', c) && Filled(segs, L', c)
    {
      assert Owned(L, c) && Filled(segs, L, c);
    }
  }

  lemma RetireKeeps(h: Heap, L: Layout, t: nat)
    requires Inv(h, L, None) && t in L.contents
    ensures Held(L, t) && Inv(h, RetireLayout(L, t), Some(L.issued[t].addr))
  {
    assert Held(L, t);
    SameShape(h.segs, L.blocks, L.issued[t].addr, Reserved);
    RetireValues(h.segs, h.heads, L, t);
    RetireBytes(h.segs, L, t);
  }

  // ---- reserved to free list ----

  function ParkLayout(L: Layout, a: Addr, b: nat): Layout
    requires a in L.blocks && b < |L.lists|
  {
    var list := L.lists[b];
    L.(blocks := L.blocks[a := L.blocks[a].(status := Free(b, |list|, Top(list)))], lists := L.lists[b := list + [a]])
  }

  lemma ParkLists(heads: seq<nat>, L: Layout, a: Addr, b: nat)
    requires Lists(heads, L) && Owners(L) && b < BUCKETS && b != DEDICATED_BUCKET
    requires a in L.blocks && L.blocks[a].status == Reserved && L.blocks[a].size == L.table[b]
    ensures Lists(heads[b := Link(a)], ParkLayout(L, a, b)) && Owners(ParkLayout(L, a, b))
  {
    var L' := ParkLayout(L, a, b);
    forall c | c in L'.blocks
      ensures Owned(L', c)
    {
      assert Owned(L, c);
    }
    forall d, i | 0 <= d < BUCKETS && 0 <= i < |L'.lists[d]|
      ensures Listed(L', d, i)
    {
      if d != b || i < |L.lists[b]| { assert Listed(L, d, i); }
    }
  }

  lemma ParkBytes(segs: seq<Segment>, L: Layout, a: Addr, b: nat, header: seq<byte>, link: seq<byte>)
    requires Placed(segs, L.blocks) && Apart(L.blocks) && Bytes(segs, L)
    requires a in L.blocks && L.blocks[a].status == Reserved && b < |L.lists|
    requires |header| == 8 && FromLe(header) == 0 && |link| == 8 && FromLe(link) == Top(L.lists[b])
    requires Placed(WriteBlock(segs, a, header, link), ParkLayout(L, a, b).blocks)
    ensures Bytes(WriteBlock(segs, a, header, link), ParkLayout(L, a, b))
  {
    var segs' := WriteBlock(segs, a, header, link);
    var L' := ParkLayout(L, a, b);
    forall c | c in L'.blocks
      ensures Filled(segs', L', c)
    {
      if c == a {
        WriteReads(segs, a, header, link, L.blocks[a].size);
      } else {
        OthersKept(segs, L.blocks, a, header, link, c);
        assert Filled(segs, L, c);
      }
    }
  }

  /** A reserved block pushed on the free list of its bucket. */
  lemma ParkKeeps(h: Heap, L: Layout, a: Addr, b: nat, header: seq<byte>, link: seq<byte>)
    requires Inv(h, L, Some(a)) && b < BUCKETS && b != DEDICATED_BUCKET && L.blocks[a].size == L.table[b]
    requires |header| == 8 && FromLe(header) == 0 && |link| == 8 && FromLe(link) == Top(L.lists[b])
    ensures a.seg < |h.segs| && a.off + 16 <= |h.segs[a.seg].data|
    ensures Inv(Heap(WriteBlock(h.segs, a, header, link), h.heads[b := Link(a)], h.holes), ParkLayout(L, a, b), None)
  {
    var segs' := WriteBlock(h.segs, a, header, link);
    WriteShape(h.segs, a, header, link);
    RewriteShape(h.segs, segs', L.blocks, a, Free(b, |L.lists[b]|, Top(L.lists[b])));
    ParkLists(h.heads, L, a, b);
    ParkBytes(h.segs, L, a, b, header, link);
    SameValues(h.segs, L, ParkLayout(L, a, b), a);
    TicketsFrame(h.segs, segs', ParkLayout(L, a, b));
    HolesFrame(h.segs, segs', h.holes, a.seg);
  }

  lemma TicketsFrame(segs: seq<Segment>, segs': seq<Segment>, L: Layout)
    requires Tickets(segs, L) && SameSizes(segs, segs')
    ensures Tickets(segs', L)
  {
    forall t | t in L.issued ensures Known(segs', L, t) { assert Known(segs, L, t); }
  }

  // ---- reserved to released ----

  function ReleaseLayout(L: Layout, a: Addr): Layout
  {
    L.(blocks := L.blocks - {a})
  }

  lemma ReleaseRest(h: Heap, L: Layout, a: Addr)
    requires Lists(h.heads, L) && Contents(L) && Tickets(h.segs, L) && Owners(L)
    requires a in L.blocks && L.blocks[a].status == Reserved && a.off == 0 && a.seg < |h.segs|
    requires forall c :: c in L.blocks && c.seg == a.seg ==> c == a
    ensures var L' := ReleaseLayout(L, a);
      && Lists(h.heads, L') && Contents(L') && Owners(L')
      && Tickets(h.segs[a.seg := Segment([], 0)], L')
  {
    var L' := ReleaseLayout(L, a);
    ListsFrame(h.heads, L, L');
    forall t | t in L'.contents ensures Held(L', t) { assert Held(L, t); }
    forall t | t in L'.issued ensures Known(h.segs[a.seg := Segment([], 0)], L', t) { assert Known(h.segs, L, t); }
    forall c | c in L'.blocks
      ensures Owned(L', c)
    {
      assert Owned(L, c);
    }
  }

  lemma ReleaseBytes(segs: seq<Segment>, L: Layout, a: Addr)
    requires Placed(segs, L.blocks) && Bytes(segs, L) && a.seg < |segs|
    requires forall c :: c in L.blocks && c.seg == a.seg ==> c == a
    ensures Placed(segs[a.seg := Segment([], 0)], ReleaseLayout(L, a).blocks)
    ensures Bytes(segs[a.seg := Segment([], 0)], ReleaseLayout(L, a))
  {
    var segs', L' := segs[a.seg := Segment([], 0)], ReleaseLayout(L, a);
    forall c | c in L'.blocks
      ensures Filled(segs', L', c)
    {
      assert Filled(segs, L, c);
    }
  }

  /** A block that fills its segment gives the segment back and leaves a hole. */
  lemma ReleaseKeeps(h: Heap, L: Layout, a: Addr)
    requires Inv(h, L, Some(a)) && a.off == 0 && L.blocks[a].size == |h.segs[a.seg].data|
    ensures Inv(Heap(h.segs[a.seg := Segment([], 0)], h.heads, h.holes + [a.seg]), ReleaseLayout(L, a), None)
  {
    ReleaseAlone(h.segs, L.blocks, a);
    ReleaseRest(h, L, a);
    ReleaseBytes(h.segs, L, a);
    forall b, c | b in ReleaseLayout(L, a).blocks && c in ReleaseLayout(L, a).blocks
      ensures Disjoint(ReleaseLayout(L, a).blocks, b, c)
    {
      assert Disjoint(L.blocks, b, c);
    }
  }

  lemma ReleaseAlone(segs: seq<Segment>, blocks: map<Addr, Block>, a: Addr)
    requires Placed(segs, blocks) && Apart(blocks) && a in blocks && a.off == 0
    requires blocks[a].size == |segs[a.seg].data|
    ensures forall c :: c in blocks && c.seg == a.seg ==> c == a
  {
    forall c | c in blocks && c.seg == a.seg ensures c == a { assert Disjoint(blocks, a, c); }
  }
}
