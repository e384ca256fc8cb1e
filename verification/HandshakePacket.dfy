/** A handshake on the wire: a header of twelve words, and behind it extension blocks, each one word with command and
    length and then as many words as that says. */
module HandshakePacket {
  import opened Options

  type Word = w: int | 0 <= w < 0x1_0000_0000
  type Octet = b: int | 0 <= b < 256

  // ---------- the header ----------

  datatype Header = Header(version: Word, kind: Word, isn: Word, mss: Word, flightFlagSize: Word, reqType: Word,
                           id: Word, cookie: Word, peerIp: seq<Word>)

  const HEADER_WORDS := 12

  function HeaderWords(h: Header): seq<Word> {
    [h.version, h.kind, h.isn, h.mss, h.flightFlagSize, h.reqType, h.id, h.cookie] + h.peerIp
  }

  /** Which word is which. */
  predicate InPlace(h: Header, ws: seq<Word>) {
    |ws| >= HEADER_WORDS && |h.peerIp| == 4
    && ws[0] == h.version && ws[1] == h.kind && ws[2] == h.isn && ws[3] == h.mss && ws[4] == h.flightFlagSize
    && ws[5] == h.reqType && ws[6] == h.id && ws[7] == h.cookie && ws[8..12] == h.peerIp
  }

  method StoreTo(h: Header, p: array<Word>, size: nat) returns (rc: int, newSize: nat)
    requires |h.peerIp| == 4 && size <= 4 * p.Length
    modifies p
    ensures size < 4 * HEADER_WORDS ==> rc == -1 && newSize == size && p[..] == old(p[..])
    ensures size >= 4 * HEADER_WORDS ==>
        rc == 0 && newSize == 4 * HEADER_WORDS && p[..] == HeaderWords(h) + old(p[HEADER_WORDS..])
    ensures rc == 0 ==> InPlace(h, p[..])
  {
    if size < 4 * HEADER_WORDS {
      return -1, size;
    }
    p[0], p[1], p[2], p[3] := h.version, h.kind, h.isn, h.mss;
    p[4], p[5], p[6], p[7] := h.flightFlagSize, h.reqType, h.id, h.cookie;
    for i := 0 to 4
      invariant p[..8] == HeaderWords(h)[..8] && p[8..8 + i] == h.peerIp[..i] && p[12..] == old(p[12..])
    {
      p[8 + i] := h.peerIp[i];
    }
    assert p[..] == p[..8] + p[8..12] + p[12..];
    rc, newSize := 0, 4 * HEADER_WORDS;
  }

  method LoadFrom(p: array<Word>, size: nat) returns (rc: int, h: Header)
    requires size <= 4 * p.Length
    ensures rc == if size < 4 * HEADER_WORDS then -1 else 0
    ensures rc == 0 ==> |h.peerIp| == 4 && HeaderWords(h) == p[..HEADER_WORDS] && InPlace(h, p[..])
  {
    h := Header(0, 0, 0, 0, 0, 0, 0, 0, [0, 0, 0, 0]);
    if size < 4 * HEADER_WORDS {
      return -1, h;
    }
    var ip: seq<Word> := [];
    for i := 0 to 4
      invariant ip == p[8..8 + i]
    {
      ip := ip + [p[8 + i]];
    }
    h := Header(p[0], p[1], p[2], p[3], p[4], p[5], p[6], p[7], ip);
    rc := 0;
  }

  /** The words of a header determine it: what was stored is what is loaded. */
  lemma {:induction false} HeaderComesBack(h: Header, g: Header)
    requires |h.peerIp| == 4 && |g.peerIp| == 4 && HeaderWords(h) == HeaderWords(g)
    ensures h == g
  {
    var a, b := HeaderWords(h), HeaderWords(g);
    assert a[0] == b[0] && a[1] == b[1] && a[2] == b[2] && a[3] == b[3];
    assert a[4] == b[4] && a[5] == b[5] && a[6] == b[6] && a[7] == b[7];
    assert h.peerIp == a[8..] && g.peerIp == b[8..];
  }

  // ---------- the extension blocks ----------

  datatype Block = Block(cmd: int, words: seq<Word>)

  /** The blocks whose command and size fit into the 16 bits each has in the first word. */
  ghost predicate Sound(bs: seq<Block>) {
    forall i :: 0 <= i < |bs| ==> 0 <= bs[i].cmd < 0x1_0000 && |bs[i].words| < 0x1_0000
  }

  function CmdSpec(cmd: int, size: nat): Word {
    cmd % 0x1_0000 * 0x1_0000 + size % 0x1_0000
  }

  function CmdOf(w: Word): int {
    w / 0x1_0000
  }

  function SizeOf(w: Word): nat {
    w % 0x1_0000
  }

  lemma {:induction false} SpecComesBack(cmd: int, size: nat)
    requires 0 <= cmd < 0x1_0000 && size < 0x1_0000
    ensures CmdOf(CmdSpec(cmd, size)) == cmd && SizeOf(CmdSpec(cmd, size)) == size
  {
  }

  lemma {:induction false} WordComesBack(w: Word)
    ensures CmdSpec(CmdOf(w), SizeOf(w)) == w
  {
    var c, z := CmdOf(w), SizeOf(w);
    assert w == c * 0x1_0000 + z && 0 <= c < 0x1_0000 && 0 <= z < 0x1_0000;
    assert c % 0x1_0000 == c && z % 0x1_0000 == z;
  }

  function BlockWords(b: Block): seq<Word> {
    [CmdSpec(b.cmd, |b.words|)] + b.words
  }

  function Encode(bs: seq<Block>): seq<Word> {
    if bs == [] then [] else BlockWords(bs[0]) + Encode(bs[1..])
  }

  /** The complete blocks at the front. */
  function Decode(ws: seq<Word>): seq<Block> {
    if ws == [] || 1 + SizeOf(ws[0]) > |ws| then []
    else [Block(CmdOf(ws[0]), ws[1..1 + SizeOf(ws[0])])] + Decode(ws[1 + SizeOf(ws[0])..])
  }

  /** What was written is read, every block, in order, and nothing else: exactly if every command and size fits. */
  lemma {:induction false} BlocksComeBack(bs: seq<Block>)
    ensures Decode(Encode(bs)) == bs <==> Sound(bs)
  {
    if Sound(bs) {
      SoundBlocksComeBack(bs);
    } else {
      DecodeIsSound(Encode(bs));
    }
  }

  lemma {:induction false} DecodeIsSound(ws: seq<Word>)
    ensures Sound(Decode(ws))
  {
    if ws != [] && 1 + SizeOf(ws[0]) <= |ws| {
      DecodeFirst(ws);
      DecodeIsSound(ws[1 + SizeOf(ws[0])..]);
    }
  }

  lemma {:induction false} SoundBlocksComeBack(bs: seq<Block>)
    requires Sound(bs)
    ensures Decode(Encode(bs)) == bs
  {
    if bs != [] {
      var b, rest := bs[0], Encode(bs[1..]);
      var ws := BlockWords(b) + rest;
      SpecComesBack(b.cmd, |b.words|);
      assert ws[1..1 + |b.words|] == b.words && ws[1 + |b.words|..] == rest;
      SoundBlocksComeBack(bs[1..]);
      assert bs == [b] + bs[1..];
    }
  }

  /** On any words whatever, what is read is what is there: the blocks read, written again, are the beginning of the
      words; and reading stops only at the end or at a block that is longer than the rest. */
  lemma {:induction false} ReadsWhatIsThere(ws: seq<Word>)
    ensures var n := |Encode(Decode(ws))|;
      n <= |ws| && Encode(Decode(ws)) == ws[..n] && (n < |ws| ==> 1 + SizeOf(ws[n]) > |ws| - n)
  {
    if ws != [] && 1 + SizeOf(ws[0]) <= |ws| {
      var k := 1 + SizeOf(ws[0]);
      var rest := ws[k..];
      ReadsWhatIsThere(rest);
      FirstBlockIsThere(ws);
      var m := |Encode(Decode(rest))|;
      assert Encode(Decode(ws)) == ws[..k] + rest[..m] == ws[..k + m];
      assert m < |rest| ==> rest[m] == ws[k + m];
    }
  }

  lemma {:induction false} FirstBlockIsThere(ws: seq<Word>)
    requires ws != [] && 1 + SizeOf(ws[0]) <= |ws|
    ensures Encode(Decode(ws)) == ws[..1 + SizeOf(ws[0])] + Encode(Decode(ws[1 + SizeOf(ws[0])..]))
  {
    var w, k := ws[0], 1 + SizeOf(ws[0]);
    DecodeFirst(ws);
    WordComesBack(w);
    EncodeFirst(Block(CmdOf(w), ws[1..k]), Decode(ws[k..]), w);
    assert [w] + ws[1..k] == ws[..k];
  }

  lemma {:induction false} EncodeFirst(b: Block, more: seq<Block>, w: Word)
    requires CmdSpec(b.cmd, |b.words|) == w
    ensures Encode([b] + more) == [w] + b.words + Encode(more)
  {
    assert ([b] + more)[1..] == more;
  }

  /** What FindExtensionBlock makes of the words from `begin` on: no block, or a block and where the next one begins. */
  datatype Found = NoBlock | Found(cmd: int, size: nat, next: int)

  method FindExtensionBlock(p: array<Word>, begin: nat, length: nat) returns (f: Found)
    requires begin + length <= p.Length
    ensures f.NoBlock? <==> length == 0 || 1 + SizeOf(p[begin]) > length
    ensures f.Found? ==> f.cmd == CmdOf(p[begin]) && f.size == SizeOf(p[begin])
    ensures f.Found? ==> f.next == if length == 1 + f.size then -1 else begin + 1 + f.size
  {
    if length == 0 {
      return NoBlock;
    }
    var cmd, size := CmdOf(p[begin]), SizeOf(p[begin]);
    if size + 1 > length {
      return NoBlock;
    }
    f := Found(cmd, size, if length == size + 1 then -1 else begin + 1 + size);
  }

  /** What is still found from `begin` on, once `bs` has been found before. */
  ghost predicate Completes(bs: seq<Block>, ws: seq<Word>, all: seq<Block>) {
    bs + Decode(ws) == all
  }

  lemma {:induction false} TakesFirst(bs: seq<Block>, ws: seq<Word>, all: seq<Block>)
    requires Completes(bs, ws, all) && ws != [] && 1 + SizeOf(ws[0]) <= |ws|
    ensures Completes(bs + [Block(CmdOf(ws[0]), ws[1..1 + SizeOf(ws[0])])], ws[1 + SizeOf(ws[0])..], all)
    ensures 1 + SizeOf(ws[0]) == |ws| ==> bs + [Block(CmdOf(ws[0]), ws[1..1 + SizeOf(ws[0])])] == all
  {
    DecodeFirst(ws);
  }

  lemma {:induction false} PartOfArray(p: array<Word>, begin: nat, end: nat, i: nat, j: nat)
    requires begin <= end <= p.Length && i <= j <= end - begin
    ensures p[begin..end][i..j] == p[begin + i..begin + j]
    ensures j == end - begin ==> p[begin..end][i..] == p[begin + i..end]
  {
    var part := p[begin + i..begin + j];
    assert forall k :: 0 <= k < j - i ==> p[begin..end][i..j][k] == part[k];
  }

  /** Finding one block, and what then is still to be found. */
  method TakeBlock(p: array<Word>, begin: nat, length: nat, ghost bs: seq<Block>, ghost all: seq<Block>)
    returns (f: Found, words: seq<Word>)
    requires begin + length <= p.Length && Completes(bs, p[begin..begin + length], all)
    ensures f.NoBlock? ==> bs == all
    ensures f.Found? ==> f.next == -1 || begin < f.next <= begin + length
    ensures f.Found? && f.next == -1 ==> bs + [Block(f.cmd, words)] == all
    ensures f.Found? && f.next != -1 ==> Completes(bs + [Block(f.cmd, words)], p[f.next..begin + length], all)
  {
    words := [];
    f := FindExtensionBlock(p, begin, length);
    ghost var ws := p[begin..begin + length];
    assert length > 0 ==> ws[0] == p[begin];
    if f.Found? {
      words := p[begin + 1..begin + 1 + f.size];
      PartOfArray(p, begin, begin + length, 1, 1 + f.size);
      PartOfArray(p, begin, begin + length, 1 + f.size, length);
      TakesFirst(bs, ws, all);
    } else {
      assert bs + [] == bs;
    }
  }

  /** The loop around FindExtensionBlock and NextExtensionBlock, over any words: it ends, never looks outside the length
      it was given, and finds exactly the complete blocks. */
  method WalkBlocks(p: array<Word>, start: nat, total: nat) returns (bs: seq<Block>)
    requires start + total <= p.Length
    ensures bs == Decode(p[start..start + total])
  {
    bs := [];
    var begin: nat, length: nat := start, total;
    ghost var all := Decode(p[start..start + total]);
    while true
      invariant begin + length == start + total && Completes(bs, p[begin..begin + length], all)
      decreases length
    {
      var f, words := TakeBlock(p, begin, length, bs, all);
      if f.NoBlock? {
        return;
      }
      bs := bs + [Block(f.cmd, words)];
      if f.next == -1 {
        return;
      }
      length := length - (f.next - begin);
      begin := f.next;
    }
  }

  lemma {:induction false} DecodeFirst(ws: seq<Word>)
    requires ws != [] && 1 + SizeOf(ws[0]) <= |ws|
    ensures Decode(ws) == [Block(CmdOf(ws[0]), ws[1..1 + SizeOf(ws[0])])] + Decode(ws[1 + SizeOf(ws[0])..])
  {
  }

  // ---------- strings in blocks ----------

  function Pack(a: Octet, b: Octet, c: Octet, d: Octet): Word {
    a + 0x100 * b + 0x1_0000 * c + 0x100_0000 * d
  }

  function Unpack(w: Word): seq<Octet> {
    [w % 0x100, w / 0x100 % 0x100, w / 0x1_0000 % 0x100, w / 0x100_0000]
  }

  lemma {:induction false} LowOctet(a: Octet, rest: int)
    ensures (a + 0x100 * rest) % 0x100 == a && (a + 0x100 * rest) / 0x100 == rest
  {
  }

  lemma {:induction false} UnpackPacks(a: Octet, b: Octet, c: Octet, d: Octet)
    ensures Unpack(Pack(a, b, c, d)) == [a, b, c, d]
  {
    var w := Pack(a, b, c, d);
    var v := c + 0x100 * d;
    var u := b + 0x100 * v;
    assert w == a + 0x100 * u;
    LowOctet(a, u);
    LowOctet(b, v);
    LowOctet(c, d);
    assert w / 0x1_0000 == v && w / 0x100_0000 == d;
  }

  function OctetAt(s: seq<Octet>, i: nat): Octet {
    if i < |s| then s[i] else 0
  }

  /** A string in words, least significant octet first, the last word filled up with zeros. */
  function StringWords(s: seq<Octet>): (ws: seq<Word>)
    ensures |ws| == (|s| + 3) / 4
    decreases |s|
  {
    if s == [] then []
    else [Pack(s[0], OctetAt(s, 1), OctetAt(s, 2), OctetAt(s, 3))] + StringWords(if |s| <= 4 then [] else s[4..])
  }

  function Octets(ws: seq<Word>): seq<Octet> {
    if ws == [] then [] else Unpack(ws[0]) + Octets(ws[1..])
  }

  /** A C string: everything before the first zero. */
  function CString(s: seq<Octet>): seq<Octet> {
    if s == [] || s[0] == 0 then [] else [s[0]] + CString(s[1..])
  }

  lemma {:induction false} CStringStops(s: seq<Octet>, zeros: seq<Octet>)
    requires (forall i :: 0 <= i < |s| ==> s[i] != 0) && (zeros == [] || zeros[0] == 0)
    ensures CString(s + zeros) == s
  {
    if s == [] {
      assert s + zeros == zeros;
    } else {
      assert (s + zeros)[1..] == s[1..] + zeros;
      CStringStops(s[1..], zeros);
    }
  }

  /** The octets of a string's words are the string and at most three zeros. */
  lemma {:induction false} OctetsAreString(s: seq<Octet>)
    ensures |Octets(StringWords(s))| >= |s| && Octets(StringWords(s))[..|s|] == s
    ensures forall i :: |s| <= i < |Octets(StringWords(s))| ==> Octets(StringWords(s))[i] == 0
    decreases |s|
  {
    if s != [] {
      var rest := if |s| <= 4 then [] else s[4..];
      var four := [s[0], OctetAt(s, 1), OctetAt(s, 2), OctetAt(s, 3)];
      var ws := StringWords(s);
      UnpackPacks(four[0], four[1], four[2], four[3]);
      assert ws[1..] == StringWords(rest) && Octets(ws) == four + Octets(StringWords(rest));
      OctetsAreString(rest);
      if |s| > 4 {
        assert s == four + rest;
      }
    }
  }

  /** A stream id without zero octets comes back unchanged. */
  lemma {:induction false} StringComesBack(s: seq<Octet>)
    requires forall i :: 0 <= i < |s| ==> s[i] != 0
    ensures CString(Octets(StringWords(s))) == s
  {
    OctetsAreString(s);
    var o := Octets(StringWords(s));
    assert o == s + o[|s|..];
    CStringStops(s, o[|s|..]);
  }

  /** With a zero octet in it, only what is before the zero comes back. */
  lemma {:induction false} ZeroCutsShort(s: seq<Octet>)
    ensures CString(Octets(StringWords(s))) == s <==> forall i :: 0 <= i < |s| ==> s[i] != 0
  {
    if forall i :: 0 <= i < |s| ==> s[i] != 0 {
      StringComesBack(s);
    } else {
      CStringHasNoZero(Octets(StringWords(s)));
    }
  }

  lemma {:induction false} CStringHasNoZero(s: seq<Octet>)
    ensures forall i :: 0 <= i < |CString(s)| ==> CString(s)[i] != 0
  {
    if s != [] && s[0] != 0 {
      CStringHasNoZero(s[1..]);
    }
  }

  // ---------- writing a handshake ----------

  const CMD_HSREQ := 1
  const CMD_HSRSP := 2
  const CMD_KMREQ := 3
  const CMD_KMRSP := 4
  const CMD_SID := 5
  const CMD_CONGESTION := 6
  const CMD_FILTER := 7

  /** What goes behind the header: the SRT handshake itself, the stream id of a request, the congestion control and the
      packet filter if they are not the usual ones, and the blocks with key material. */
  datatype Extensions = Extensions(request: bool, hs: seq<Word>, sid: seq<Octet>, congctl: seq<Octet>, filter: seq<Octet>, km: seq<Block>)

  function StringBlock(cmd: int, s: seq<Octet>): seq<Block> {
    if s == [] then [] else [Block(cmd, StringWords(s))]
  }

  function BlocksOf(x: Extensions): seq<Block> {
    [Block(if x.request then CMD_HSREQ else CMD_HSRSP, x.hs)]
    + (if x.request then StringBlock(CMD_SID, x.sid) else [])
    + StringBlock(CMD_CONGESTION, x.congctl) + StringBlock(CMD_FILTER, x.filter) + x.km
  }

  lemma {:induction false} EncodeAppend(a: seq<Block>, b: seq<Block>)
    ensures Encode(a + b) == Encode(a) + Encode(b)
  {
    if a == [] {
      assert a + b == b;
    } else {
      assert (a + b)[1..] == a[1..] + b;
      EncodeAppend(a[1..], b);
    }
  }

  lemma {:induction false} EncodeOne(b: Block)
    ensures Encode([b]) == BlockWords(b)
  {
    assert [b][1..] == [];
  }

  /** Writes one block at `offset` and returns the place behind it. */
  method WriteBlock(p: array<Word>, offset: nat, b: Block) returns (end: nat)
    requires offset + 1 + |b.words| <= p.Length
    modifies p
    ensures end == offset + 1 + |b.words| && p[..end] == old(p[..offset]) + BlockWords(b)
  {
    var ws := BlockWords(b);
    forall k | 0 <= k < |ws| { p[offset + k] := ws[k]; }
    end := offset + |ws|;
    assert p[offset..end] == ws;
    assert p[..end] == p[..offset] + p[offset..end];
  }

  method WriteBlocks(p: array<Word>, offset: nat, bs: seq<Block>) returns (end: nat)
    requires offset + |Encode(bs)| <= p.Length
    modifies p
    ensures end == offset + |Encode(bs)| && p[..end] == old(p[..offset]) + Encode(bs)
  {
    end := offset;
    for i := 0 to |bs|
      invariant end == offset + |Encode(bs[..i])| && end <= p.Length && p[..end] == old(p[..offset]) + Encode(bs[..i])
    {
      EncodeNext(bs, i);
      end := WriteBlock(p, end, bs[i]);
    }
    assert bs[..|bs|] == bs;
  }

  lemma {:induction false} EncodeNext(bs: seq<Block>, i: nat)
    requires i < |bs|
    ensures Encode(bs[..i + 1]) == Encode(bs[..i]) + BlockWords(bs[i]) && |Encode(bs[..i + 1])| <= |Encode(bs)|
  {
    assert bs[..i + 1] == bs[..i] + [bs[i]] && bs[..i + 1] + bs[i + 1..] == bs;
    EncodeAppend(bs[..i + 1], bs[i + 1..]);
    EncodeAppend(bs[..i], [bs[i]]);
    EncodeOne(bs[i]);
  }

  /** The serialised handshake: false for a stream id of half the payload size or more. */
  method CreateSrtHandshake(p: array<Word>, h: Header, x: Extensions, maxPayload: nat) returns (ok: bool, length: nat)
    requires |h.peerIp| == 4
    requires HEADER_WORDS + |Encode(BlocksOf(x))| <= p.Length
    modifies p
    ensures ok <==> !(x.request && x.sid != [] && |x.sid| >= maxPayload / 2)
    ensures ok ==> length <= p.Length && p[..length] == HeaderWords(h) + Encode(BlocksOf(x))
  {
    if x.request && x.sid != [] && |x.sid| >= maxPayload / 2 {
      return false, 0;
    }
    var rc, size := StoreTo(h, p, 4 * p.Length);
    assert p[..HEADER_WORDS] == HeaderWords(h);
    length := WriteBlocks(p, HEADER_WORDS, BlocksOf(x));
    ok := true;
  }

  /** Round trip of the whole packet: the header, the blocks, and the stream id in its block. */
  lemma {:induction false} PacketComesBack(h: Header, x: Extensions, words: seq<Word>)
    requires |h.peerIp| == 4 && Sound(BlocksOf(x)) && words == HeaderWords(h) + Encode(BlocksOf(x))
    ensures words[..HEADER_WORDS] == HeaderWords(h) && Decode(words[HEADER_WORDS..]) == BlocksOf(x)
    ensures x.request && x.sid != [] && (forall i :: 0 <= i < |x.sid| ==> x.sid[i] != 0) ==>
        BlocksOf(x)[1].cmd == CMD_SID && CString(Octets(BlocksOf(x)[1].words)) == x.sid
  {
    assert words[HEADER_WORDS..] == Encode(BlocksOf(x));
    BlocksComeBack(BlocksOf(x));
    if x.request && x.sid != [] && forall i :: 0 <= i < |x.sid| ==> x.sid[i] != 0 {
      StringComesBack(x.sid);
    }
  }

  // ---------- reading a handshake ----------

  /** The first block with a command, which is where the walk of the receiving side finds it. */
  function FirstWith(bs: seq<Block>, cmd: int): Option<Block> {
    if bs == [] then None else if bs[0].cmd == cmd then Some(bs[0]) else FirstWith(bs[1..], cmd)
  }

  /** The string of a command's block; empty if there is none. */
  function StringOf(bs: seq<Block>, cmd: int): seq<Octet> {
    match FirstWith(bs, cmd)
    case None => []
    case Some(b) => CString(Octets(b.words))
  }

  lemma {:induction false} FirstOfTwo(a: seq<Block>, b: seq<Block>, cmd: int)
    ensures FirstWith(a + b, cmd) == if FirstWith(a, cmd).Some? then FirstWith(a, cmd) else FirstWith(b, cmd)
  {
    if a == [] {
      assert a + b == b;
    } else {
      assert (a + b)[1..] == a[1..] + b;
      FirstOfTwo(a[1..], b, cmd);
    }
  }

  ghost predicate NoZero(s: seq<Octet>) {
    forall i :: 0 <= i < |s| ==> s[i] != 0
  }

  lemma {:induction false} StringBlockFound(own: int, s: seq<Octet>, cmd: int)
    ensures FirstWith(StringBlock(own, s), cmd) == if s == [] || own != cmd then None else Some(Block(own, StringWords(s)))
  {
    if s != [] {
      assert StringBlock(own, s)[1..] == [];
    }
  }

  /** Where each command is found among the blocks written. */
  lemma {:induction false} FoundAmongWritten(x: Extensions, cmd: int)
    ensures FirstWith(BlocksOf(x), cmd) ==
      if cmd == (if x.request then CMD_HSREQ else CMD_HSRSP) then Some(Block(cmd, x.hs))
      else if cmd == CMD_SID && x.request && x.sid != [] then Some(Block(cmd, StringWords(x.sid)))
      else if cmd == CMD_CONGESTION && x.congctl != [] then Some(Block(cmd, StringWords(x.congctl)))
      else if cmd == CMD_FILTER && x.filter != [] then Some(Block(cmd, StringWords(x.filter)))
      else FirstWith(x.km, cmd)
  {
    var first := [Block(if x.request then CMD_HSREQ else CMD_HSRSP, x.hs)];
    var sid := if x.request then StringBlock(CMD_SID, x.sid) else [];
    var cong, filter := StringBlock(CMD_CONGESTION, x.congctl), StringBlock(CMD_FILTER, x.filter);
    FirstOfTwo(first + sid + cong + filter, x.km, cmd);
    FirstOfTwo(first + sid + cong, filter, cmd);
    FirstOfTwo(first + sid, cong, cmd);
    FirstOfTwo(first, sid, cmd);
    assert first[1..] == [];
    StringBlockFound(CMD_SID, x.sid, cmd);
    StringBlockFound(CMD_CONGESTION, x.congctl, cmd);
    StringBlockFound(CMD_FILTER, x.filter, cmd);
  }

  /** The receiving side finds in the packet what the sending side put there: the handshake itself under the command for
      its kind and not under the other, the stream id of a request, the congestion control, the packet filter, and the key
      material, which has commands of its own. */
  lemma {:induction false} ExtensionsComeBack(h: Header, x: Extensions, words: seq<Word>)
    requires |h.peerIp| == 4 && Sound(BlocksOf(x)) && words == HeaderWords(h) + Encode(BlocksOf(x))
    requires NoZero(x.sid) && NoZero(x.congctl) && NoZero(x.filter)
    requires forall i :: 0 <= i < |x.km| ==> x.km[i].cmd in {CMD_KMREQ, CMD_KMRSP}
    ensures var bs := Decode(words[HEADER_WORDS..]);
      && FirstWith(bs, CMD_HSREQ) == (if x.request then Some(Block(CMD_HSREQ, x.hs)) else None)
      && FirstWith(bs, CMD_HSRSP) == (if x.request then None else Some(Block(CMD_HSRSP, x.hs)))
      && StringOf(bs, CMD_SID) == (if x.request then x.sid else [])
      && StringOf(bs, CMD_CONGESTION) == x.congctl && StringOf(bs, CMD_FILTER) == x.filter
      && FirstWith(bs, CMD_KMREQ) == FirstWith(x.km, CMD_KMREQ) && FirstWith(bs, CMD_KMRSP) == FirstWith(x.km, CMD_KMRSP)
  {
    PacketComesBack(h, x, words);
    forall cmd ensures FirstWith(x.km, cmd).Some? ==> cmd in {CMD_KMREQ, CMD_KMRSP} { NotAmong(x.km, cmd); }
    FoundAmongWritten(x, CMD_HSREQ);
    FoundAmongWritten(x, CMD_HSRSP);
    FoundAmongWritten(x, CMD_SID);
    FoundAmongWritten(x, CMD_CONGESTION);
    FoundAmongWritten(x, CMD_FILTER);
    FoundAmongWritten(x, CMD_KMREQ);
    FoundAmongWritten(x, CMD_KMRSP);
    StringComesBack(x.sid);
    StringComesBack(x.congctl);
    StringComesBack(x.filter);
  }

  lemma {:induction false} NotAmong(bs: seq<Block>, cmd: int)
    ensures FirstWith(bs, cmd).Some? ==> exists i :: 0 <= i < |bs| && bs[i].cmd == cmd
  {
    if bs != [] && bs[0].cmd != cmd {
      NotAmong(bs[1..], cmd);
      if FirstWith(bs[1..], cmd).Some? {
        var i :| 0 <= i < |bs[1..]| && bs[1..][i].cmd == cmd;
        assert bs[i + 1].cmd == cmd;
      }
    }
  }
}
