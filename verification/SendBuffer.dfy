/** The send buffer: a circular linked list of blocks that grows, with one pointer to the oldest block, one to
    the next block to send and one to the first free block. It behaves like a queue with a cursor. */
module SendBuffer {
  import opened Arithmetic

  type Bytes = seq<bv8>

  /** What a block holds. `key` is the encryption key field of the message number word. */
  datatype Chunk = Chunk(payload: Bytes, msgno: nat, first: bool, last: bool, inorder: bool,
                         origin: nat, source: nat, key: bv2)

  /** The chunks not yet acknowledged; those before the cursor have been sent. */
  datatype Queue = Queue(chunks: seq<Chunk>, cursor: nat)

  const MSGNO_MAX := 0x03FF_FFFF

  function Append(q: Queue, more: seq<Chunk>): Queue {
    Queue(q.chunks + more, q.cursor)
  }

  function DropFirst(q: Queue, n: nat): Queue
    requires n <= |q.chunks|
  {
    Queue(q.chunks[n..], if q.cursor < n then 0 else q.cursor - n)
  }

  /** The chunk under the cursor gets its key and the cursor moves on. */
  function Advance(q: Queue, key: bv2): Queue
    requires q.cursor < |q.chunks|
  {
    var c := q.chunks[q.cursor];
    Queue(q.chunks[q.cursor := c.(key := c.key | key)], q.cursor + 1)
  }

  /** What is sent is what was stored, and carries the key besides any it carried before. */
  predicate SentAs(stored: Chunk, sent: Chunk, key: bv2) {
    sent == stored.(key := sent.key) && sent.key == stored.key | key
  }

  lemma AdvanceSends(q: Queue, key: bv2)
    requires q.cursor < |q.chunks|
    ensures SentAs(q.chunks[q.cursor], Advance(q, key).chunks[q.cursor], key)
  {
  }

  function Min(a: int, b: int): int {
    if a < b then a else b
  }

  /** How many chunks a message of len bytes takes. */
  function ChunkCount(len: nat, mss: nat): nat
    requires mss > 0
  {
    if len % mss != 0 then len / mss + 1 else len / mss
  }

  function ChunkAt(data: Bytes, mss: nat, msgno: nat, inorder: bool, now: nat, source: nat, i: nat): Chunk
    requires mss > 0 && i < ChunkCount(|data|, mss)
  {
    ChunkRange(|data|, mss, i);
    Chunk(data[i * mss..Min(|data|, (i + 1) * mss)], msgno, i == 0, i == ChunkCount(|data|, mss) - 1, inorder, now, source, 0)
  }

  /** A message cut into chunks of at most mss bytes, the first and the last of them marked. */
  function Cut(data: Bytes, mss: nat, msgno: nat, inorder: bool, now: nat, source: nat): seq<Chunk>
    requires mss > 0
  {
    seq(ChunkCount(|data|, mss), i requires 0 <= i < ChunkCount(|data|, mss) => ChunkAt(data, mss, msgno, inorder, now, source, i))
  }

  lemma ChunkRange(len: nat, mss: nat, i: nat)
    requires mss > 0 && i < ChunkCount(len, mss)
    ensures 0 <= i * mss < len && i * mss < (i + 1) * mss
    ensures i == ChunkCount(len, mss) - 1 <==> (i + 1) * mss >= len
    ensures (i + 1) * mss == i * mss + mss
  {
    assert (i + 1) * mss == i * mss + mss;
    assert len == (len / mss) * mss + len % mss;
    if i < len / mss {
      MulMonotone(i + 1, len / mss, mss);
    }
    MulMonotone(0, i, mss);
    if i + 1 < len / mss {
      MulMonotone(i + 2, len / mss, mss);
      assert (i + 2) * mss == i * mss + mss + mss;
    }
  }

  function Payloads(chunks: seq<Chunk>): Bytes {
    if chunks == [] then [] else chunks[0].payload + Payloads(chunks[1..])
  }

  lemma {:induction false} PayloadsAppend(a: seq<Chunk>, b: seq<Chunk>)
    ensures Payloads(a + b) == Payloads(a) + Payloads(b)
  {
    if a == [] {
      assert a + b == b;
    } else {
      assert (a + b)[1..] == a[1..] + b;
      PayloadsAppend(a[1..], b);
    }
  }

  /** A chunk not yet sent, with the number, order and times of its message. */
  predicate Stamped(c: Chunk, msgno: nat, inorder: bool, now: nat, source: nat) {
    c.msgno == msgno && c.inorder == inorder && c.origin == now && c.source == source && c.key == 0
  }

  /** Only the first chunk is marked as first and only the last one as last. */
  lemma CutIsMarked(data: Bytes, mss: nat, msgno: nat, inorder: bool, now: nat, source: nat, i: nat)
    requires mss > 0 && i < ChunkCount(|data|, mss)
    ensures var c := Cut(data, mss, msgno, inorder, now, source)[i];
      (c.first <==> i == 0) && (c.last <==> i == ChunkCount(|data|, mss) - 1)
  {
  }

  /** Cutting loses nothing: the chunks of a message put together again are the message, and none is empty or too long. */
  lemma CutIsWhole(data: Bytes, mss: nat, msgno: nat, inorder: bool, now: nat, source: nat)
    requires mss > 0
    ensures Payloads(Cut(data, mss, msgno, inorder, now, source)) == data
    ensures forall c :: c in Cut(data, mss, msgno, inorder, now, source) ==> 0 < |c.payload| <= mss
    ensures forall c :: c in Cut(data, mss, msgno, inorder, now, source) ==> Stamped(c, msgno, inorder, now, source)
  {
    var chunks := Cut(data, mss, msgno, inorder, now, source);
    CutPieces(data, mss, msgno, inorder, now, source);
    CutUpTo(data, mss, msgno, inorder, now, source, |chunks|);
    CountCovers(|data|, mss);
    assert chunks[..|chunks|] == chunks && data[..|data|] == data;
  }

  lemma CutPieces(data: Bytes, mss: nat, msgno: nat, inorder: bool, now: nat, source: nat)
    requires mss > 0
    ensures forall c :: c in Cut(data, mss, msgno, inorder, now, source) ==> 0 < |c.payload| <= mss
  {
    var chunks := Cut(data, mss, msgno, inorder, now, source);
    forall c | c in chunks ensures 0 < |c.payload| <= mss {
      var i :| 0 <= i < |chunks| && chunks[i] == c;
      ChunkRange(|data|, mss, i);
    }
  }

  lemma CountCovers(len: nat, mss: nat)
    requires mss > 0
    ensures ChunkCount(len, mss) * mss >= len
  {
    if ChunkCount(len, mss) > 0 {
      ChunkRange(len, mss, ChunkCount(len, mss) - 1);
    }
  }

  lemma {:induction false} CutUpTo(data: Bytes, mss: nat, msgno: nat, inorder: bool, now: nat, source: nat, n: nat)
    requires mss > 0 && n <= ChunkCount(|data|, mss)
    ensures 0 <= n * mss && Payloads(Cut(data, mss, msgno, inorder, now, source)[..n]) == data[..Min(|data|, n * mss)]
  {
    var chunks := Cut(data, mss, msgno, inorder, now, source);
    MulMonotone(0, n, mss);
    if n > 0 {
      CutUpTo(data, mss, msgno, inorder, now, source, n - 1);
      ChunkRange(|data|, mss, n - 1);
      assert chunks[..n] == chunks[..n - 1] + [chunks[n - 1]];
      PayloadsAppend(chunks[..n - 1], [chunks[n - 1]]);
      var one := [chunks[n - 1]];
      assert one[1..] == [] && Payloads(one) == chunks[n - 1].payload;
    }
  }

  function TotalBytes(chunks: seq<Chunk>): nat {
    if chunks == [] then 0 else |chunks[0].payload| + TotalBytes(chunks[1..])
  }

  lemma {:induction false} TotalIsLength(chunks: seq<Chunk>)
    ensures TotalBytes(chunks) == |Payloads(chunks)|
  {
    if chunks != [] {
      TotalIsLength(chunks[1..]);
    }
  }

  /** How many chunks at the front are older than `latetime`. */
  function LatePrefix(chunks: seq<Chunk>, latetime: nat): (n: nat)
    ensures n <= |chunks| && (forall i :: 0 <= i < n ==> chunks[i].origin < latetime)
    ensures n < |chunks| ==> chunks[n].origin >= latetime
  {
    if chunks == [] || chunks[0].origin >= latetime then 0 else 1 + LatePrefix(chunks[1..], latetime)
  }

  lemma AppendedBytes(chunks: seq<Chunk>, data: Bytes, mss: nat, msgno: nat, inorder: bool, now: nat, source: nat)
    requires mss > 0
    ensures TotalBytes(chunks + Cut(data, mss, msgno, inorder, now, source)) == TotalBytes(chunks) + |data|
  {
    var more := Cut(data, mss, msgno, inorder, now, source);
    CutIsWhole(data, mss, msgno, inorder, now, source);
    PayloadsAppend(chunks, more);
    TotalIsLength(chunks);
    TotalIsLength(chunks + more);
  }

  lemma {:induction false} SameBytes(chunks: seq<Chunk>, i: nat, c: Chunk)
    requires i < |chunks| && |c.payload| == |chunks[i].payload|
    ensures TotalBytes(chunks[i := c]) == TotalBytes(chunks)
  {
    if i > 0 {
      assert chunks[i := c][1..] == chunks[1..][i - 1 := c];
      SameBytes(chunks[1..], i - 1, c);
    } else {
      assert chunks[i := c][1..] == chunks[1..];
    }
  }

  lemma Oldest(chunks: seq<Chunk>, i: nat)
    requires i < |chunks|
    ensures TotalBytes(chunks[i..]) == |chunks[i].payload| + TotalBytes(chunks[i + 1..])
  {
    assert chunks[i..][1..] == chunks[i + 1..];
  }

  /** The encryption key in use, or none because encryption is required but not possible. */
  datatype Key = NoKey | Key(key: bv2)

  function TimeOf(c: Chunk): nat {
    if c.source != 0 then c.source else c.origin
  }

  class Block {
    var chunk: Chunk
    var next: Block?

    constructor ()
      ensures fresh(this) && next == null
    {
      chunk, next := Chunk([], 0, false, false, false, 0, 0, 0), null;
    }
  }

  /** Only a name by which proofs pick out two blocks. */
  ghost predicate Two(i: int, j: int) {
    true
  }

  ghost predicate Distinct(ring: seq<Block>) {
    forall i, j {:trigger Two(i, j)} :: Two(i, j) && 0 <= i < j < |ring| ==> ring[i] != ring[j]
  }

  lemma Others(ring: seq<Block>, k: nat)
    requires Distinct(ring) && k < |ring|
    ensures forall i :: 0 <= i < |ring| && i != k ==> ring[i] != ring[k]
  {
    forall i | 0 <= i < |ring| && i != k ensures ring[i] != ring[k] {
      assert Two(i, k) && Two(k, i);
    }
  }

  ghost predicate Linked(ring: seq<Block>)
    reads ring
  {
    forall i {:trigger ring[i].next} :: 0 <= i < |ring| ==> ring[i].next == After(ring, i)
  }

  function After(ring: seq<Block>, i: nat): Block
    requires i < |ring|
  {
    if i + 1 < |ring| then ring[i + 1] else ring[0]
  }

  /** A chain of blocks spliced in behind block `at` of a circle makes a longer circle. */
  lemma Spliced(ring: seq<Block>, at: nat, chain: seq<Block>, longer: seq<Block>)
    requires at < |ring| && |chain| > 0 && longer == ring[..at + 1] + chain + ring[at + 1..]
    requires forall i {:trigger ring[i].next} :: 0 <= i < |ring| && i != at ==> ring[i].next == After(ring, i)
    requires forall j {:trigger chain[j].next} :: 0 <= j < |chain| - 1 ==> chain[j].next == chain[j + 1]
    requires ring[at].next == chain[0] && chain[|chain| - 1].next == After(ring, at)
    ensures Linked(longer)
  {
    var n := |chain|;
    forall i | 0 <= i < |longer| ensures longer[i].next == After(longer, i) {
      if i <= at {
        assert longer[i] == ring[i];
      } else if i <= at + n {
        assert longer[i] == chain[i - at - 1];
      } else {
        assert longer[i] == ring[i - n];
      }
    }
  }

  lemma SplicedDistinct(ring: seq<Block>, at: nat, chain: seq<Block>, longer: seq<Block>)
    requires at < |ring| && |chain| > 0 && longer == ring[..at + 1] + chain + ring[at + 1..]
    requires Distinct(ring) && Distinct(chain) && forall b :: b in chain ==> b !in ring
    ensures Distinct(longer) && forall b :: b in longer ==> b in ring || b in chain
  {
    var n := |chain|;
    forall i, j {:trigger Two(i, j)} | Two(i, j) && 0 <= i < j < |longer| ensures longer[i] != longer[j] {
      assert longer[i] == if i <= at then ring[i] else if i <= at + n then chain[i - at - 1] else ring[i - n];
      assert longer[j] == if j <= at then ring[j] else if j <= at + n then chain[j - at - 1] else ring[j - n];
      assert Two(i, j) && Two(i - at - 1, j - at - 1) && Two(i - n, j - n) && Two(i, j - n);
      if at < j <= at + n {
        assert longer[j] in chain && (i <= at ==> longer[i] in ring);
      } else if at < i <= at + n {
        assert longer[i] in chain && longer[j] in ring;
      }
    }
  }

  /** A circle may be entered anywhere. */
  lemma Turned(ring: seq<Block>)
    requires Distinct(ring) && Linked(ring) && |ring| > 0
    ensures Distinct(ring[1..] + [ring[0]]) && Linked(ring[1..] + [ring[0]])
  {
    var t := ring[1..] + [ring[0]];
    forall i, j {:trigger Two(i, j)} | Two(i, j) && 0 <= i < j < |t| ensures t[i] != t[j] {
      assert t[i] == ring[i + 1] && Two(i + 1, j + 1) && Two(0, i + 1);
    }
    forall i | 0 <= i < |t| ensures t[i].next == After(t, i) {
      assert i + 1 < |ring| ==> t[i] == ring[i + 1] && ring[i + 1].next == After(ring, i + 1);
    }
  }

  class SendBuffer {
    const mss: nat
    const unitSize: nat
    var firstBlock: Block
    var currBlock: Block
    var lastBlock: Block
    var size: nat
    var count: int
    var bytes: int
    var nextMsgNo: nat
    ghost var ring: seq<Block>
    ghost var stored: Queue

    /** The blocks form a circle that starts at the first one. */
    ghost predicate Ring()
      reads this, ring
    {
      0 < size == |ring| && Distinct(ring) && Linked(ring) && firstBlock == ring[0] && mss > 0 && unitSize > 0
    }

    /** The blocks in use come first, there is a free one after them, and the pointers are where they belong. */
    ghost predicate Valid()
      reads this, ring
    {
      Ring() && stored.cursor <= |stored.chunks| == count < size
      && lastBlock == ring[count] && currBlock == ring[stored.cursor]
      && (forall i {:trigger ring[i].chunk} :: 0 <= i < count ==> ring[i].chunk == stored.chunks[i])
      && bytes == TotalBytes(stored.chunks) && 1 <= nextMsgNo < MSGNO_MAX
    }

    constructor (size: nat, mss: nat)
      requires size > 0 && mss > 0
      ensures Valid() && stored == Queue([], 0) && this.size == size && this.mss == mss && nextMsgNo == 1
      ensures fresh(ring)
    {
      this.mss, this.unitSize := mss, size;
      ghost var blocks;
      var head, tail;
      blocks, head, tail := NewBlocks(size);
      firstBlock, currBlock, lastBlock := head, head, head;
      this.size, count, bytes, nextMsgNo := size, 0, 0, 1;
      ring, stored := blocks, Queue([], 0);
      new;
      Others(ring, size - 1);
      tail.next := firstBlock;
    }

    /** Splices a buffer's worth of new blocks in behind the first free block: nothing stored changes. */
    method Increase()
      requires Valid()
      modifies this`size, this`ring, lastBlock
      ensures Valid() && size == old(size) + unitSize
      ensures forall b :: b in ring ==> b in old(ring) || fresh(b)
    {
      ghost var was := ring;
      ghost var blocks;
      var head, tail;
      blocks, head, tail := NewBlocks(unitSize);
      Others(was, count);
      Others(blocks, |blocks| - 1);
      tail.next := lastBlock.next;
      lastBlock.next := head;
      size := size + unitSize;
      ring := was[..count + 1] + blocks + was[count + 1..];
      Spliced(was, count, blocks, ring);
      SplicedDistinct(was, count, blocks, ring);
    }

    /** Cuts a message into chunks and stores them behind the others, growing the circle until a free block is left. */
    method AddBuffer(data: Bytes, inorder: bool, now: nat, source: nat) returns (msgno: nat)
      requires Valid()
      modifies this, ring
      ensures Valid() && stored == Append(old(stored), Cut(data, mss, msgno, inorder, now, source))
      ensures msgno == old(nextMsgNo) && nextMsgNo == if msgno + 1 == MSGNO_MAX then 1 else msgno + 1
      ensures forall b :: b in ring ==> b in old(ring) || fresh(b)
    {
      var needs := |data| / mss;
      if |data| % mss != 0 {
        needs := needs + 1;
      }
      while needs + count >= size
        invariant Valid() && stored == old(stored) && nextMsgNo == old(nextMsgNo)
        invariant lastBlock == old(lastBlock) && lastBlock in old(ring) && forall b :: b in ring ==> b in old(ring) || fresh(b)
        decreases needs + count - size
      {
        Increase();
      }
      msgno := nextMsgNo;
      assert forall i :: 0 <= i < |ring| ==> ring[i] in ring;
      Fill(data, inorder, now, source, needs);
      nextMsgNo := if nextMsgNo + 1 == MSGNO_MAX then 1 else nextMsgNo + 1;
    }

    /** Writes the chunks of a message into the free blocks. */
    method Fill(data: Bytes, inorder: bool, now: nat, source: nat, needs: nat)
      requires Valid() && needs == ChunkCount(|data|, mss) && needs + count < size
      modifies this`lastBlock, this`count, this`bytes, this`stored, ring
      ensures Valid() && stored == Append(old(stored), Cut(data, mss, nextMsgNo, inorder, now, source))
    {
      ghost var chunks := Cut(data, mss, nextMsgNo, inorder, now, source);
      var s := WriteChunks(data, inorder, now, source, needs);
      lastBlock := s;
      count := count + needs;
      bytes := bytes + |data|;
      AppendedBytes(stored.chunks, data, mss, nextMsgNo, inorder, now, source);
      stored := Append(stored, chunks);
    }

    /** Fills the free blocks one by one, and returns the block behind the last one filled. */
    method WriteChunks(data: Bytes, inorder: bool, now: nat, source: nat, needs: nat) returns (s: Block)
      requires Valid() && needs == ChunkCount(|data|, mss) && needs + count < size
      modifies ring
      ensures Ring() && s == ring[count + needs]
      ensures forall j {:trigger ring[j].chunk} :: 0 <= j < count ==> ring[j].chunk == stored.chunks[j]
      ensures var chunks := Cut(data, mss, nextMsgNo, inorder, now, source);
        forall j {:trigger ring[j].chunk} :: count <= j < count + needs ==> ring[j].chunk == chunks[j - count]
    {
      ghost var chunks := Cut(data, mss, nextMsgNo, inorder, now, source);
      s := lastBlock;
      for i := 0 to needs
        invariant unchanged(this) && Ring() && s == ring[count + i]
        invariant forall j {:trigger ring[j].chunk} :: 0 <= j < count ==> ring[j].chunk == stored.chunks[j]
        invariant forall j {:trigger ring[j].chunk} :: count <= j < count + i ==> ring[j].chunk == chunks[j - count]
      {
        var c := MakeChunk(data, inorder, now, source, i);
        s := WriteChunk(s, c, count + i);
      }
    }

    /** Fills block k, and returns the next one. */
    method WriteChunk(s: Block, c: Chunk, ghost k: nat) returns (next: Block)
      requires Ring() && k + 1 < |ring| && s == ring[k]
      modifies s
      ensures Ring() && next == ring[k + 1] && s.chunk == c
      ensures forall j {:trigger ring[j].chunk} :: 0 <= j < |ring| && j != k ==> ring[j].chunk == old(ring[j].chunk)
    {
      assert ring[k].next == After(ring, k);
      Others(ring, k);
      s.chunk := c;
      next := s.next;
    }

    method MakeChunk(data: Bytes, inorder: bool, now: nat, source: nat, i: nat) returns (c: Chunk)
      requires mss > 0 && i < ChunkCount(|data|, mss)
      ensures c == Cut(data, mss, nextMsgNo, inorder, now, source)[i]
    {
      var pktlen := |data| - i * mss;
      if pktlen > mss {
        pktlen := mss;
      }
      ChunkRange(|data|, mss, i);
      c := Chunk(data[i * mss..i * mss + pktlen], nextMsgNo, i == 0, i == ChunkCount(|data|, mss) - 1, inorder, now, source, 0);
    }

    /** Takes the chunk under the cursor to be sent for the first time. Without a key the cursor moves on all the same,
        but nothing is to be sent. */
    method ReadNext(key: Key) returns (readlen: nat, chunk: Chunk, time: nat)
      requires Valid()
      modifies this`currBlock, this`stored, ring
      ensures Valid()
      ensures old(stored.cursor == |stored.chunks|) ==> readlen == 0 && stored == old(stored)
      ensures old(stored.cursor < |stored.chunks|) ==>
        stored == Advance(old(stored), if key.NoKey? then 0 else key.key) && chunk == stored.chunks[old(stored.cursor)]
        && readlen == (if key.NoKey? then 0 else |chunk.payload|) && time == TimeOf(chunk)
    {
      chunk, time := Chunk([], 0, false, false, false, 0, 0, 0), 0;
      Others(ring, count);
      if currBlock == lastBlock {
        return 0, chunk, time;
      }
      var c := currBlock.chunk;
      readlen := |c.payload|;
      if key.NoKey? {
        readlen := 0;
      } else {
        Others(ring, stored.cursor);
        currBlock.chunk := c.(key := c.key | key.key);
      }
      chunk := currBlock.chunk;
      assert Ring();
      time := if chunk.source != 0 then chunk.source else chunk.origin;
      currBlock := currBlock.next;
      SameBytes(stored.chunks, stored.cursor, chunk);
      stored := Advance(stored, if key.NoKey? then 0 else key.key);
    }

    /** Forgets the oldest `offset` chunks. */
    method AckData(offset: nat)
      requires Valid() && offset <= |stored.chunks|
      modifies this`firstBlock, this`currBlock, this`count, this`bytes, this`ring, this`stored
      ensures Valid() && stored == DropFirst(old(stored), offset)
      ensures forall b :: b in ring ==> b in old(ring)
    {
      ghost var q, r := stored, ring;
      var move := WalkFirst(offset);
      if move {
        currBlock := firstBlock;
      }
      count := count - offset;
      stored := DropFirst(q, offset);
    }

    /** Moves the first pointer `offset` blocks on, and says whether it passed the current block. */
    method WalkFirst(offset: nat) returns (move: bool)
      requires Valid() && offset <= |stored.chunks|
      modifies this`firstBlock, this`bytes, this`ring
      ensures Ring() && ring == old(ring[offset..] + ring[..offset])
      ensures bytes == TotalBytes(stored.chunks[offset..]) && move == (stored.cursor < offset)
    {
      move := false;
      ghost var r := ring;
      for i := 0 to offset
        invariant Ring() && ring == r[i..] + r[..i]
        invariant bytes == TotalBytes(stored.chunks[i..]) && move == (stored.cursor < i)
      {
        Oldest(stored.chunks, i);
        Others(r, i);
        assert firstBlock == r[i] && firstBlock.chunk == stored.chunks[i];
        bytes := bytes - |firstBlock.chunk.payload|;
        if firstBlock == currBlock {
          move := true;
        }
        NextFirst(r, i);
      }
    }

    /** Forgets the chunks at the front that are older than `latetime`, sent or not. */
    method DropLateData(latetime: nat) returns (dpkts: nat, dbytes: nat)
      requires Valid()
      modifies this`firstBlock, this`currBlock, this`count, this`bytes, this`ring, this`stored
      ensures Valid() && dpkts == LatePrefix(old(stored).chunks, latetime) && stored == DropFirst(old(stored), dpkts)
      ensures dbytes == TotalBytes(old(stored).chunks) - TotalBytes(stored.chunks)
      ensures forall b :: b in ring ==> b in old(ring)
    {
      ghost var q, r := stored, ring;
      var move;
      dpkts, dbytes, move := WalkLate(latetime);
      if move {
        currBlock := firstBlock;
      }
      count := count - dpkts;
      bytes := bytes - dbytes;
      stored := DropFirst(q, dpkts);
    }

    /** Moves the first pointer past the late chunks. */
    method WalkLate(latetime: nat) returns (dpkts: nat, dbytes: nat, move: bool)
      requires Valid()
      modifies this`firstBlock, this`ring
      ensures dpkts == LatePrefix(stored.chunks, latetime) && Ring() && ring == old(ring[dpkts..] + ring[..dpkts])
      ensures dbytes == TotalBytes(stored.chunks) - TotalBytes(stored.chunks[dpkts..]) && move == (stored.cursor < dpkts)
    {
      dpkts, dbytes, move := 0, 0, false;
      ghost var r := ring;
      assert firstBlock == r[0] && |r| > count;
      while dpkts < count && firstBlock.chunk.origin < latetime
        invariant dpkts <= count && Ring() && ring == r[dpkts..] + r[..dpkts]
        invariant dbytes == TotalBytes(stored.chunks) - TotalBytes(stored.chunks[dpkts..]) && move == (stored.cursor < dpkts)
        invariant forall j :: 0 <= j < dpkts ==> stored.chunks[j].origin < latetime
      {
        Oldest(stored.chunks, dpkts);
        Others(r, dpkts);
        assert firstBlock == r[dpkts] && firstBlock.chunk == stored.chunks[dpkts];
        dbytes := dbytes + |firstBlock.chunk.payload|;
        if firstBlock == currBlock {
          move := true;
        }
        NextFirst(r, dpkts);
        dpkts := dpkts + 1;
      }
      assert dpkts < count ==> firstBlock == r[dpkts];
    }

    /** The next block becomes the first: the circle is the circle r entered n + 1 blocks later. */
    method NextFirst(ghost r: seq<Block>, ghost n: nat)
      requires Ring() && n < |r| && ring == r[n..] + r[..n]
      modifies this`firstBlock, this`ring
      ensures Ring() && ring == r[n + 1..] + r[..n + 1]
    {
      Turned(ring);
      firstBlock := firstBlock.next;
      ring := ring[1..] + [ring[0]];
      assert r[n..][1..] == r[n + 1..] && r[..n] + [r[n]] == r[..n + 1];
    }

    /** The chunk that lies `offset` blocks after the oldest, for sending it again. */
    method ReadAt(offset: nat) returns (chunk: Chunk, time: nat)
      requires Valid() && offset < |stored.chunks|
      ensures chunk == stored.chunks[offset] && time == TimeOf(chunk)
    {
      var p := firstBlock;
      for i := 0 to offset
        invariant p == ring[i]
      {
        p := p.next;
      }
      chunk := p.chunk;
      time := if chunk.source != 0 then chunk.source else chunk.origin;
    }
  }

  /** A chain of n new blocks, open at its end. */
  method NewBlocks(n: nat) returns (ghost blocks: seq<Block>, first: Block, last: Block)
    requires n > 0
    ensures |blocks| == n && Distinct(blocks) && fresh(blocks) && first == blocks[0] && last == blocks[n - 1]
    ensures forall i :: 0 <= i < n - 1 ==> blocks[i].next == blocks[i + 1]
  {
    first := new Block();
    last, blocks := first, [first];
    for i := 1 to n
      invariant |blocks| == i && Distinct(blocks) && fresh(blocks) && first == blocks[0] && last == blocks[i - 1]
      invariant forall j :: 0 <= j < i - 1 ==> blocks[j].next == blocks[j + 1]
    {
      var b := new Block();
      Others(blocks, i - 1);
      last.next := b;
      last, blocks := b, blocks + [b];
    }
  }
}
