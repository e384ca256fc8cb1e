/** The XOR "clip" that the FEC filter keeps for every group, and what XOR-folding a group means.

    A clip holds the XOR of the length, the crypto flags, the timestamp and the payload of the
    packets folded into it. The payload part always has the configured payload size: a shorter
    packet is padded with zeros. */
module FecClip {
  import opened Arithmetic

  datatype Clip = Clip(length: bv16, flags: bv8, timestamp: bv32, payload: seq<bv8>)

  /** A data packet, as far as the filter looks at it. */
  datatype Packet = Packet(length: bv16, flags: bv8, timestamp: bv32, payload: seq<bv8>)

  /** What the sender may hand to the filter: the length field is the payload's length, the payload fits,
      and only the two crypto-flag bits can be set. */
  predicate Fits(p: Packet, size: nat) {
    p.length as nat == |p.payload| && |p.payload| <= size && p.flags & 3 == p.flags
  }

  /** A byte swap of the 16-bit length; the clip holds the length in network order. */
  function Swap(x: bv16): bv16 {
    (x << 8) | (x >> 8)
  }

  lemma SwapTwice(x: bv16)
    ensures Swap(Swap(x)) == x
  {
  }

  function ByteAt(s: seq<bv8>, i: nat): bv8 {
    if i < |s| then s[i] else 0
  }

  function Padded(s: seq<bv8>, size: nat): (r: seq<bv8>)
    ensures |r| == size
    ensures forall i :: 0 <= i < size ==> r[i] == ByteAt(s, i)
  {
    seq(size, i requires 0 <= i < size => ByteAt(s, i))
  }

  function Zero(size: nat): Clip {
    Clip(0, 0, 0, Padded([], size))
  }

  function XorBytes(a: seq<bv8>, b: seq<bv8>): (r: seq<bv8>)
    ensures |r| == |a|
    ensures forall i :: 0 <= i < |a| ==> r[i] == a[i] ^ ByteAt(b, i)
  {
    seq(|a|, i requires 0 <= i < |a| => a[i] ^ ByteAt(b, i))
  }

  function Xor(a: Clip, b: Clip): Clip {
    Clip(a.length ^ b.length, a.flags ^ b.flags, a.timestamp ^ b.timestamp, XorBytes(a.payload, b.payload))
  }

  function ClipOf(p: Packet, size: nat): Clip {
    Clip(Swap(p.length), p.flags, p.timestamp, Padded(p.payload, size))
  }

  lemma BitsExchange(a: bv8, b: bv8, c: bv8)
    ensures (a ^ b) ^ c == (a ^ c) ^ b
  {
  }

  lemma WordsExchange(a: bv16, b: bv16, c: bv16, x: bv32, y: bv32, z: bv32)
    ensures (a ^ b) ^ c == (a ^ c) ^ b && (x ^ y) ^ z == (x ^ z) ^ y
  {
  }

  lemma BytesExchange(a: seq<bv8>, b: seq<bv8>, c: seq<bv8>)
    ensures XorBytes(XorBytes(a, b), c) == XorBytes(XorBytes(a, c), b)
  {
    forall i | 0 <= i < |a|
      ensures XorBytes(XorBytes(a, b), c)[i] == XorBytes(XorBytes(a, c), b)[i]
    {
      BitsExchange(a[i], ByteAt(b, i), ByteAt(c, i));
    }
  }

  lemma XorExchange(a: Clip, b: Clip, c: Clip)
    ensures Xor(Xor(a, b), c) == Xor(Xor(a, c), b)
  {
    BytesExchange(a.payload, b.payload, c.payload);
    BitsExchange(a.flags, b.flags, c.flags);
    WordsExchange(a.length, b.length, c.length, a.timestamp, b.timestamp, c.timestamp);
  }

  lemma XorAbsorb(a: Clip, b: Clip)
    requires |a.payload| == |b.payload|
    ensures Xor(a, Xor(a, b)) == b
  {
    assert Xor(a, Xor(a, b)).payload == b.payload;
  }

  /** Folding one packet into a clip byte by byte; the bytes past the payload are XORed with zero. */
  method ClipData(c: Clip, lengthNet: bv16, flags: bv8, timestamp: bv32, payload: seq<bv8>) returns (r: Clip)
    requires |payload| <= |c.payload|
    ensures r == Xor(c, Clip(lengthNet, flags, timestamp, Padded(payload, |c.payload|)))
  {
    var bytes := c.payload;
    for i := 0 to |payload|
      invariant |bytes| == |c.payload|
      invariant forall k :: 0 <= k < i ==> bytes[k] == c.payload[k] ^ payload[k]
      invariant forall k :: i <= k < |bytes| ==> bytes[k] == c.payload[k]
    {
      bytes := bytes[i := bytes[i] ^ payload[i]];
    }
    for i := |payload| to |c.payload|
      invariant |bytes| == |c.payload|
      invariant forall k :: 0 <= k < |payload| ==> bytes[k] == c.payload[k] ^ payload[k]
      invariant forall k :: |payload| <= k < |bytes| ==> bytes[k] == c.payload[k]
    {
      bytes := bytes[i := bytes[i] ^ 0];
    }
    assert bytes == XorBytes(c.payload, Padded(payload, |c.payload|));
    r := Clip(c.length ^ lengthNet, c.flags ^ flags, c.timestamp ^ timestamp, bytes);
  }

  method ClipPacket(c: Clip, p: Packet) returns (r: Clip)
    requires Fits(p, |c.payload|)
    ensures r == Xor(c, ClipOf(p, |c.payload|))
  {
    r := ClipData(c, Swap(p.length), p.flags, p.timestamp, p.payload);
  }

  // ---------- groups and their folds ----------

  ghost function At(base: int, step: nat, k: int): int {
    base + k * step
  }

  /** The members of a group of `n` packets that starts at `base` with distance `step`. */
  ghost function Members(base: int, step: nat, n: nat): set<int> {
    if n == 0 then {} else Members(base, step, n - 1) + {At(base, step, n - 1)}
  }

  /** The XOR of the clips of those members of the group that are in `on`. */
  ghost function FoldOn(src: int -> Packet, size: nat, base: int, step: nat, n: nat, on: set<int>): (c: Clip)
    ensures |c.payload| == size
  {
    if n == 0 then Zero(size)
    else
      var rest := FoldOn(src, size, base, step, n - 1, on);
      var m := At(base, step, n - 1);
      if m in on then Xor(rest, ClipOf(src(m), size)) else rest
  }

  /** The XOR of the clips of all members: what a control packet carries. */
  ghost function FoldAll(src: int -> Packet, size: nat, base: int, step: nat, n: nat): (c: Clip)
    ensures |c.payload| == size
  {
    if n == 0 then Zero(size)
    else Xor(FoldAll(src, size, base, step, n - 1), ClipOf(src(At(base, step, n - 1)), size))
  }

  lemma AtOrder(base: int, step: nat, i: int, j: int)
    requires step > 0 && i < j
    ensures At(base, step, i) + step <= At(base, step, j)
  {
    MulStrict(i, j, step);
  }

  lemma {:induction false} MembersAre(base: int, step: nat, n: nat, x: int)
    ensures x in Members(base, step, n) <==> exists k :: 0 <= k < n && x == At(base, step, k)
  {
    if n > 0 {
      MembersAre(base, step, n - 1, x);
    }
  }

  /** The last member lies above all the others. */
  lemma LastIsAbove(base: int, step: nat, n: nat, x: int)
    requires step > 0 && x in Members(base, step, n)
    ensures base <= x < At(base, step, n)
  {
    MembersAre(base, step, n, x);
    var k :| 0 <= k < n && x == At(base, step, k);
    AtOrder(base, step, k, n);
    MulMonotone(0, k, step);
  }

  lemma {:induction false} MembersCount(base: int, step: nat, n: nat)
    requires step > 0
    ensures |Members(base, step, n)| == n
  {
    if n > 0 {
      MembersCount(base, step, n - 1);
      var m := At(base, step, n - 1);
      if m in Members(base, step, n - 1) {
        LastIsAbove(base, step, n - 1, m);
      }
    }
  }

  lemma {:induction false} FoldAgree(src: int -> Packet, size: nat, base: int, step: nat, n: nat, s: set<int>, t: set<int>)
    requires forall x :: x in Members(base, step, n) ==> (x in s <==> x in t)
    ensures FoldOn(src, size, base, step, n, s) == FoldOn(src, size, base, step, n, t)
  {
    if n > 0 {
      FoldAgree(src, size, base, step, n - 1, s, t);
    }
  }

  /** Folding in one more member XORs its clip into the fold. */
  lemma {:induction false} FoldInsert(src: int -> Packet, size: nat, base: int, step: nat, n: nat, on: set<int>, t: int)
    requires step > 0 && t in Members(base, step, n) && t !in on
    ensures FoldOn(src, size, base, step, n, on + {t}) == Xor(FoldOn(src, size, base, step, n, on), ClipOf(src(t), size))
  {
    var m := At(base, step, n - 1);
    var rest := FoldOn(src, size, base, step, n - 1, on);
    if t == m {
      if t in Members(base, step, n - 1) {
        LastIsAbove(base, step, n - 1, t);
      }
      FoldAgree(src, size, base, step, n - 1, on, on + {t});
    } else {
      FoldInsert(src, size, base, step, n - 1, on, t);
      XorExchange(rest, ClipOf(src(t), size), ClipOf(src(m), size));
    }
  }

  lemma {:induction false} FoldFull(src: int -> Packet, size: nat, base: int, step: nat, n: nat, on: set<int>)
    requires Members(base, step, n) <= on
    ensures FoldOn(src, size, base, step, n, on) == FoldAll(src, size, base, step, n)
  {
    if n > 0 {
      FoldFull(src, size, base, step, n - 1, on);
    }
  }

  lemma {:induction false} FoldNone(src: int -> Packet, size: nat, base: int, step: nat, n: nat)
    ensures FoldOn(src, size, base, step, n, {}) == Zero(size)
  {
    if n > 0 {
      FoldNone(src, size, base, step, n - 1);
    }
  }

  /** The heart of the decoder: XORing everything collected with the control packet's fold
      leaves exactly the clip of the one member that was not collected. */
  lemma MissingMember(src: int -> Packet, size: nat, base: int, step: nat, n: nat, got: set<int>, t: int)
    requires step > 0 && t in Members(base, step, n) && t !in got
    requires got <= Members(base, step, n) && |got| == n - 1
    ensures got == Members(base, step, n) - {t}
    ensures Xor(FoldOn(src, size, base, step, n, got), FoldAll(src, size, base, step, n)) == ClipOf(src(t), size)
  {
    MembersCount(base, step, n);
    SubsetSameSize(got, Members(base, step, n) - {t});
    var f := FoldOn(src, size, base, step, n, got);
    var c := ClipOf(src(t), size);
    FoldInsert(src, size, base, step, n, got, t);
    FoldFull(src, size, base, step, n, got + {t});
    XorAbsorb(f, c);
  }

  /** Unpacking the clip of a packet that fits gives the packet back: same length, flags, timestamp and payload. */
  lemma UnclipReturnsPacket(p: Packet, size: nat)
    requires Fits(p, size)
    ensures var c := ClipOf(p, size);
      Swap(c.length) == p.length && Swap(c.length) as nat <= size && c.flags & 3 == p.flags
      && c.timestamp == p.timestamp && c.payload[..Swap(c.length) as nat] == p.payload
  {
    SwapTwice(p.length);
    assert Padded(p.payload, size)[..|p.payload|] == p.payload;
  }
}
