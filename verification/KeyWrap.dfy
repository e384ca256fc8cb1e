/** The AES key wrap for crypto libraries that lack one: RFC 3394, sections 2.2.1 and 2.2.2, over any invertible map of
    16-byte blocks. */
module KeyWrap {
  import opened Options
  import opened Arithmetic

  type Bytes = seq<bv8>
  type Uint32 = x: int | 0 <= x < 0x1_0000_0000

  /** Two block maps that undo each other, as encryption and decryption under one key do. */
  ghost predicate Inverse(e: Bytes -> Bytes, d: Bytes -> Bytes) {
    forall b {:trigger InverseAt(e, d, b)} :: InverseAt(e, d, b)
  }

  ghost predicate InverseAt(e: Bytes -> Bytes, d: Bytes -> Bytes, b: Bytes) {
    |b| == 16 ==> |e(b)| == 16 && |d(b)| == 16 && d(e(b)) == b && e(d(b)) == b
  }

  ghost predicate BlockMap(e: Bytes -> Bytes) {
    forall b {:trigger e(b)} :: |b| == 16 ==> |e(b)| == 16
  }

  // ---------- the algorithms of the standard ----------

  /** The register A, and the words R one after the other. */
  datatype Reg = Reg(a: Bytes, r: Bytes)

  ghost predicate Sized(g: Reg, n: nat) {
    |g.a| == 8 && |g.r| == 8 * n
  }

  function Put(s: Bytes, at: nat, w: Bytes): Bytes
    requires at + |w| <= |s|
  {
    s[..at] + w + s[at + |w|..]
  }

  /** Byte k of t, the least significant one being byte 0. */
  function ByteOf(t: nat, k: nat): bv8 {
    if k == 0 then (t % 256) as bv8 else ByteOf(t / 256, k - 1)
  }

  /** t as a 64-bit number, most significant byte first, exclusive-ored into A. */
  function XorCounter(a: Bytes, t: nat): (r: Bytes)
    requires |a| == 8
  {
    seq(8, k requires 0 <= k < 8 => a[k] ^ ByteOf(t, 7 - k))
  }

  /** One step of wrapping, with the word at `at` and the counter t. */
  function WrapStep(e: Bytes -> Bytes, g: Reg, at: nat, t: nat): (r: Reg)
    ensures |r.a| == |g.a| && |r.r| == |g.r|
  {
    if |g.a| != 8 || at + 8 > |g.r| then g
    else
      var b := e(g.a + g.r[at..at + 8]);
      if |b| != 16 then g else Reg(XorCounter(b[..8], t), Put(g.r, at, b[8..]))
  }

  function UnwrapStep(d: Bytes -> Bytes, g: Reg, at: nat, t: nat): (r: Reg)
    ensures |r.a| == |g.a| && |r.r| == |g.r|
  {
    if |g.a| != 8 || at + 8 > |g.r| then g
    else
      var b := d(XorCounter(g.a, t) + g.r[at..at + 8]);
      if |b| != 16 then g else Reg(b[..8], Put(g.r, at, b[8..]))
  }

  /** A step as a function of the registers, the place of its word and its counter. */
  type Step = (Reg, nat, nat) -> Reg

  function Wrapping(e: Bytes -> Bytes): Step {
    (g: Reg, at: nat, t: nat) => WrapStep(e, g, at, t)
  }

  function Unwrapping(d: Bytes -> Bytes): Step {
    (g: Reg, at: nat, t: nat) => UnwrapStep(d, g, at, t)
  }

  /** The first k words of a round whose counter starts after t. */
  function SomeSteps(f: Step, g: Reg, k: nat, t: nat): Reg {
    if k == 0 then g else f(SomeSteps(f, g, k - 1, t), 8 * (k - 1), t + k)
  }

  /** The same words the other way round, word k first. */
  function SomeStepsBack(u: Step, g: Reg, k: nat, t: nat): Reg
    decreases k
  {
    if k == 0 then g else SomeStepsBack(u, u(g, 8 * (k - 1), t + k), k - 1, t)
  }

  /** j times n. */
  function Times(j: nat, n: nat): nat {
    if j == 0 then 0 else Times(j - 1, n) + n
  }

  /** j rounds over all n words; the counter runs on from round to round. */
  function Rounds(f: Step, g: Reg, j: nat, n: nat): Reg {
    if j == 0 then g else SomeSteps(f, Rounds(f, g, j - 1, n), n, Times(j - 1, n))
  }

  function RoundsBack(u: Step, g: Reg, j: nat, n: nat): Reg
    decreases j
  {
    if j == 0 then g else RoundsBack(u, SomeStepsBack(u, g, n, Times(j - 1, n)), j - 1, n)
  }

  ghost predicate KeepsSize(f: Step) {
    forall g, at, t {:trigger StepAt(f, g, at, t)} :: |StepAt(f, g, at, t).a| == |g.a| && |StepAt(f, g, at, t).r| == |g.r|
  }

  ghost function StepAt(f: Step, g: Reg, at: nat, t: nat): Reg {
    f(g, at, t)
  }

  ghost predicate SameSize(g: Reg, h: Reg) {
    |g.a| == |h.a| && |g.r| == |h.r|
  }

  lemma {:induction false} SomeSized(f: Step, g: Reg, k: nat, t: nat)
    requires KeepsSize(f)
    ensures SameSize(SomeSteps(f, g, k, t), g)
  {
    if k > 0 {
      SomeSized(f, g, k - 1, t);
      assert SameSize(StepAt(f, SomeSteps(f, g, k - 1, t), 8 * (k - 1), t + k), SomeSteps(f, g, k - 1, t));
    }
  }

  lemma {:induction false} RoundsSized(f: Step, g: Reg, j: nat, n: nat)
    requires KeepsSize(f)
    ensures SameSize(Rounds(f, g, j, n), g)
  {
    if j > 0 {
      RoundsSized(f, g, j - 1, n);
      SomeSized(f, Rounds(f, g, j - 1, n), n, Times(j - 1, n));
    }
  }

  lemma {:induction false} SomeBackSized(u: Step, g: Reg, k: nat, t: nat)
    requires KeepsSize(u)
    ensures SameSize(SomeStepsBack(u, g, k, t), g)
    decreases k
  {
    if k > 0 {
      assert SameSize(StepAt(u, g, 8 * (k - 1), t + k), g);
      SomeBackSized(u, u(g, 8 * (k - 1), t + k), k - 1, t);
    }
  }

  lemma {:induction false} RoundsBackSized(u: Step, g: Reg, j: nat, n: nat)
    requires KeepsSize(u)
    ensures SameSize(RoundsBack(u, g, j, n), g)
    decreases j
  {
    if j > 0 {
      SomeBackSized(u, g, n, Times(j - 1, n));
      RoundsBackSized(u, SomeStepsBack(u, g, n, Times(j - 1, n)), j - 1, n);
    }
  }

  const ROUNDS: nat := 6

  const IV: Bytes := [0xA6, 0xA6, 0xA6, 0xA6, 0xA6, 0xA6, 0xA6, 0xA6]

  /** Section 2.2.1, for any step. */
  function WrapWith(f: Step, p: Bytes): (c: Bytes)
    requires |p| % 8 == 0 && KeepsSize(f)
    ensures |c| == |p| + 8
  {
    RoundsSized(f, Reg(IV, p), ROUNDS, |p| / 8);
    var g := Rounds(f, Reg(IV, p), ROUNDS, |p| / 8);
    g.a + g.r
  }

  function Wrap(e: Bytes -> Bytes, p: Bytes): (c: Bytes)
    requires |p| % 8 == 0
    ensures |c| == |p| + 8
  {
    WrapWith(Wrapping(e), p)
  }

  /** Section 2.2.2, for any step back. */
  function UnwrapWith(u: Step, c: Bytes): (p: Option<Bytes>)
    requires |c| % 8 == 0 && |c| >= 16 && KeepsSize(u)
    ensures p.Some? ==> |p.value| == |c| - 8
  {
    var n := |c| / 8 - 1;
    RoundsBackSized(u, Reg(c[..8], c[8..]), ROUNDS, n);
    var g := RoundsBack(u, Reg(c[..8], c[8..]), ROUNDS, n);
    if g.a == IV then Some(g.r) else None
  }

  function Unwrap(d: Bytes -> Bytes, c: Bytes): (p: Option<Bytes>)
    requires |c| % 8 == 0 && |c| >= 16
    ensures p.Some? ==> |p.value| == |c| - 8
  {
    UnwrapWith(Unwrapping(d), c)
  }

  /** The steps one after the other: number m takes word (m - 1) % n, and m is its counter. */
  function Steps(f: Step, g: Reg, m: nat, n: nat): Reg
    requires n > 0
  {
    if m == 0 then g else f(Steps(f, g, m - 1, n), 8 * ((m - 1) % n), m)
  }

  lemma {:induction false} RoundOfSteps(f: Step, g: Reg, m: nat, k: nat, n: nat)
    requires 0 < n && k <= n && m % n == 0
    ensures SomeSteps(f, Steps(f, g, m, n), k, m) == Steps(f, g, m + k, n)
  {
    if k > 0 {
      RoundOfSteps(f, g, m, k - 1, n);
      PlaceInRound(m, k - 1, n);
      assert m + k - 1 == m + (k - 1);
    }
  }

  lemma PlaceInRound(m: nat, i: nat, n: nat)
    requires i < n && m % n == 0
    ensures (m + i) % n == i
  {
    var q := m / n;
    DivModUnique(m + i, n, q, i);
  }

  lemma {:induction false} RoundsAreSteps(f: Step, g: Reg, j: nat, n: nat)
    requires n > 0
    ensures Times(j, n) == j * n && Times(j, n) % n == 0 && Rounds(f, g, j, n) == Steps(f, g, j * n, n)
  {
    if j > 0 {
      RoundsAreSteps(f, g, j - 1, n);
      DivModUnique(j * n, n, j, 0);
      RoundOfSteps(f, g, (j - 1) * n, n, n);
      assert (j - 1) * n + n == j * n;
    }
  }

  /** Wrapping n words is six times n steps, beginning with the register full of 0xA6, and the register comes first. */
  lemma WrapIsSteps(e: Bytes -> Bytes, p: Bytes)
    requires |p| > 0 && |p| % 8 == 0
    ensures var n := |p| / 8;
      n > 0 && var g := Steps(Wrapping(e), Reg(seq<bv8>(8, _ => 0xA6), p), 6 * n, n); Wrap(e, p) == g.a + g.r
  {
    assert IV == seq<bv8>(8, _ => 0xA6);
    RoundsAreSteps(Wrapping(e), Reg(IV, p), 6, |p| / 8);
  }

  // ---------- wrapping and unwrapping undo each other ----------

  lemma XorTwice(a: Bytes, t: nat)
    requires |a| == 8
    ensures XorCounter(XorCounter(a, t), t) == a
  {
    forall k | 0 <= k < 8 ensures XorCounter(XorCounter(a, t), t)[k] == a[k] {
      XorBack(a[k], ByteOf(t, 7 - k));
    }
  }

  /** The bytes are t in base 256, the most significant digit first. */
  predicate Writes(c: Bytes, t: nat) {
    if c == [] then t == 0 else c[|c| - 1] == (t % 256) as bv8 && Writes(c[..|c| - 1], t / 256)
  }

  function Power256(n: nat): nat {
    if n == 0 then 1 else 256 * Power256(n - 1)
  }

  /** t in n bytes. */
  function InBytes(t: nat, n: nat): Bytes {
    seq(n, k requires 0 <= k < n => ByteOf(t, n - 1 - k))
  }

  lemma {:induction false} InBytesIs(t: nat, n: nat)
    requires t < Power256(n)
    ensures Writes(InBytes(t, n), t)
  {
    if n > 0 {
      var c := InBytes(t, n);
      var front, higher := c[..n - 1], InBytes(t / 256, n - 1);
      forall k | 0 <= k < n - 1 ensures front[k] == higher[k] {
        assert ByteOf(t, n - 1 - k) == ByteOf(t / 256, n - 1 - 1 - k);
      }
      assert front == higher;
      InBytesIs(t / 256, n - 1);
      assert c[n - 1] == ByteOf(t, n - 1 - (n - 1)) == ByteOf(t, 0);
      assert ByteOf(t, 0) == (t % 256) as bv8;
    }
  }

  /** What is exclusive-ored into A is the counter: eight bytes that write t. */
  lemma XorsTheCounter(a: Bytes, t: nat)
    requires |a| == 8 && t < 0x1_0000_0000_0000_0000
    ensures var c := InBytes(t, 8); Writes(c, t) && forall k :: 0 <= k < 8 ==> XorCounter(a, t)[k] == a[k] ^ c[k]
  {
    assert Power256(8) == 256 * Power256(7) == 256 * 256 * Power256(6) == 256 * 256 * 256 * Power256(5);
    assert Power256(5) == 256 * Power256(4) == 256 * 256 * Power256(3) == 256 * 256 * 256 * Power256(2) == 256 * 256 * 256 * 256 * 256;
    InBytesIs(t, 8);
  }

  lemma XorBack(x: bv8, y: bv8)
    ensures (x ^ y) ^ y == x
  {
  }

  lemma PutThere(s: Bytes, at: nat, w: Bytes, v: Bytes)
    requires at + 8 <= |s| && |w| == 8 && |v| == 8
    ensures |Put(s, at, w)| == |s| && Put(s, at, w)[at..at + 8] == w
    ensures Put(Put(s, at, w), at, v) == Put(s, at, v) && Put(s, at, s[at..at + 8]) == s
  {
  }

  lemma StepUndone(e: Bytes -> Bytes, d: Bytes -> Bytes, g: Reg, at: nat, t: nat)
    requires Inverse(e, d) && |g.a| == 8 && at + 8 <= |g.r|
    ensures UnwrapStep(d, WrapStep(e, g, at, t), at, t) == g
  {
    var block := g.a + g.r[at..at + 8];
    var b := e(block);
    assert InverseAt(e, d, block);
    XorTwice(b[..8], t);
    PutThere(g.r, at, b[8..], block[8..]);
    assert b[..8] + b[8..] == b;
    assert block[8..] == g.r[at..at + 8];
  }

  lemma StepRedone(e: Bytes -> Bytes, d: Bytes -> Bytes, g: Reg, at: nat, t: nat)
    requires Inverse(e, d) && |g.a| == 8 && at + 8 <= |g.r|
    ensures WrapStep(e, UnwrapStep(d, g, at, t), at, t) == g
  {
    var block := XorCounter(g.a, t) + g.r[at..at + 8];
    var b := d(block);
    assert InverseAt(e, d, block);
    XorTwice(g.a, t);
    PutThere(g.r, at, b[8..], block[8..]);
    assert b[..8] + b[8..] == b;
    assert block[..8] == XorCounter(g.a, t) && block[8..] == g.r[at..at + 8];
  }

  /** u undoes f on registers of the right size, whose size neither changes. */
  ghost predicate Undoes(u: Step, f: Step) {
    forall g, at, t {:trigger UndoesAt(u, f, g, at, t)} :: UndoesAt(u, f, g, at, t)
  }

  ghost predicate UndoesAt(u: Step, f: Step, g: Reg, at: nat, t: nat) {
    |g.a| == 8 && at + 8 <= |g.r| ==>
      u(f(g, at, t), at, t) == g && |f(g, at, t).a| == 8 && |f(g, at, t).r| == |g.r|
  }

  lemma {:induction false} SomeUndone(f: Step, u: Step, g: Reg, k: nat, t: nat)
    requires Undoes(u, f) && |g.a| == 8 && 8 * k <= |g.r|
    ensures SomeStepsBack(u, SomeSteps(f, g, k, t), k, t) == g
    ensures |SomeSteps(f, g, k, t).a| == 8 && |SomeSteps(f, g, k, t).r| == |g.r|
  {
    if k > 0 {
      SomeUndone(f, u, g, k - 1, t);
      assert UndoesAt(u, f, SomeSteps(f, g, k - 1, t), 8 * (k - 1), t + k);
    }
  }

  lemma {:induction false} RoundsUndone(f: Step, u: Step, g: Reg, j: nat, n: nat)
    requires Undoes(u, f) && Sized(g, n)
    ensures RoundsBack(u, Rounds(f, g, j, n), j, n) == g && Sized(Rounds(f, g, j, n), n)
  {
    if j > 0 {
      RoundsUndone(f, u, g, j - 1, n);
      SomeUndone(f, u, Rounds(f, g, j - 1, n), n, Times(j - 1, n));
    }
  }

  lemma {:induction false} SomeRedone(f: Step, u: Step, g: Reg, k: nat, t: nat)
    requires Undoes(f, u) && |g.a| == 8 && 8 * k <= |g.r|
    ensures SomeSteps(f, SomeStepsBack(u, g, k, t), k, t) == g
    ensures |SomeStepsBack(u, g, k, t).a| == 8 && |SomeStepsBack(u, g, k, t).r| == |g.r|
    decreases k
  {
    if k > 0 {
      assert UndoesAt(f, u, g, 8 * (k - 1), t + k);
      SomeRedone(f, u, u(g, 8 * (k - 1), t + k), k - 1, t);
    }
  }

  lemma {:induction false} RoundsRedone(f: Step, u: Step, g: Reg, j: nat, n: nat)
    requires Undoes(f, u) && Sized(g, n)
    ensures Rounds(f, RoundsBack(u, g, j, n), j, n) == g && Sized(RoundsBack(u, g, j, n), n)
    decreases j
  {
    if j > 0 {
      SomeRedone(f, u, g, n, Times(j - 1, n));
      RoundsRedone(f, u, SomeStepsBack(u, g, n, Times(j - 1, n)), j - 1, n);
    }
  }

  lemma StepsUndoEachOther(e: Bytes -> Bytes, d: Bytes -> Bytes)
    requires Inverse(e, d)
    ensures Undoes(Unwrapping(d), Wrapping(e)) && Undoes(Wrapping(e), Unwrapping(d))
  {
    forall g, at: nat, t: nat ensures UndoesAt(Unwrapping(d), Wrapping(e), g, at, t) && UndoesAt(Wrapping(e), Unwrapping(d), g, at, t) {
      if |g.a| == 8 && at + 8 <= |g.r| {
        StepUndone(e, d, g, at, t);
        StepRedone(e, d, g, at, t);
      }
    }
  }

  lemma UnwrapWrapsWith(f: Step, u: Step, p: Bytes)
    requires Undoes(u, f) && KeepsSize(f) && KeepsSize(u) && |p| % 8 == 0 && |p| >= 8
    ensures UnwrapWith(u, WrapWith(f, p)) == Some(p)
  {
    var n, g := |p| / 8, Reg(IV, p);
    RoundsUndone(f, u, g, ROUNDS, n);
    UnwrapOf(u, Rounds(f, g, ROUNDS, n), g, n);
  }

  lemma UnwrapOf(u: Step, w: Reg, g: Reg, n: nat)
    requires KeepsSize(u) && n > 0 && Sized(w, n) && RoundsBack(u, w, ROUNDS, n) == g && g.a == IV
    ensures UnwrapWith(u, w.a + w.r) == Some(g.r)
  {
    var c := w.a + w.r;
    assert c[..8] == w.a && c[8..] == w.r;
    assert |c| / 8 - 1 == n;
  }

  lemma WrapUnwrapsWith(f: Step, u: Step, c: Bytes)
    requires Undoes(f, u) && KeepsSize(f) && KeepsSize(u) && |c| % 8 == 0 && |c| >= 16 && UnwrapWith(u, c).Some?
    ensures WrapWith(f, UnwrapWith(u, c).value) == c
  {
    var n := |c| / 8 - 1;
    var g := Reg(c[..8], c[8..]);
    RoundsRedone(f, u, g, ROUNDS, n);
    var r := RoundsBack(u, g, ROUNDS, n);
    assert r == Reg(IV, r.r) && |r.r| / 8 == n;
  }

  /** Every wrapped key unwraps to itself. */
  lemma UnwrapWraps(e: Bytes -> Bytes, d: Bytes -> Bytes, p: Bytes)
    requires Inverse(e, d) && |p| % 8 == 0 && |p| >= 8
    ensures Unwrap(d, Wrap(e, p)) == Some(p)
  {
    StepsUndoEachOther(e, d);
    UnwrapWrapsWith(Wrapping(e), Unwrapping(d), p);
  }

  /** And whatever unwraps at all is the wrapping of what comes out: nothing else is accepted. */
  lemma WrapUnwraps(e: Bytes -> Bytes, d: Bytes -> Bytes, c: Bytes)
    requires Inverse(e, d) && |c| % 8 == 0 && |c| >= 16 && Unwrap(d, c).Some?
    ensures Wrap(e, Unwrap(d, c).value) == c
  {
    StepsUndoEachOther(e, d);
    WrapUnwrapsWith(Wrapping(e), Unwrapping(d), c);
  }

  // ---------- the loops ----------

  method Memcpy(dst: array<bv8>, at: nat, src: Bytes)
    requires at + |src| <= dst.Length
    modifies dst
    ensures dst[..] == Put(old(dst[..]), at, src)
  {
    forall k | at <= k < at + |src| { dst[k] := src[k - at]; }
  }

  /** The counter goes into the last byte of A, and into the three before it once it needs them. */
  method XorCounterIn(b: array<bv8>, t: Uint32)
    requires b.Length == 16
    modifies b
    ensures b[..] == XorCounter(old(b[..8]), t) + old(b[8..])
  {
    ghost var was := b[..];
    SmallCounter(b[..8], t);
    b[7] := b[7] ^ ByteOf(t, 0);
    if t > 0xff {
      b[6] := b[6] ^ ByteOf(t, 1);
      b[5] := b[5] ^ ByteOf(t, 2);
      b[4] := b[4] ^ ByteOf(t, 3);
    }
    assert b[..8] == XorCounter(was[..8], t);
    assert b[8..] == was[8..];
    assert b[..] == b[..8] + b[8..];
  }

  /** A 32-bit counter leaves the first four bytes alone, and one below 256 the first seven. */
  lemma SmallCounter(a: Bytes, t: Uint32)
    requires |a| == 8
    ensures forall k :: 0 <= k < (if t > 0xff then 4 else 7) ==> XorCounter(a, t)[k] == a[k]
    ensures forall k :: 4 <= k < 8 ==> XorCounter(a, t)[k] == a[k] ^ ByteOf(t, 7 - k)
  {
    forall k | 0 <= k < (if t > 0xff then 4 else 7) ensures XorCounter(a, t)[k] == a[k] {
      NoByte(t, 7 - k);
      XorZero(a[k]);
    }
  }

  lemma XorZero(x: bv8)
    ensures x ^ 0 == x
  {
  }

  lemma NoByte(t: Uint32, k: nat)
    requires k >= 4 || (k >= 1 && t <= 0xff)
    ensures ByteOf(t, k) == 0
  {
    if t <= 0xff {
      ZeroBytes(k - 1);
    } else {
      assert ByteOf(t, k) == ByteOf(t / 256, k - 1) == ByteOf(t / 256 / 256, k - 2);
      assert ByteOf(t / 256 / 256, k - 2) == ByteOf(t / 256 / 256 / 256, k - 3) == ByteOf(t / 256 / 256 / 256 / 256, k - 4);
      ZeroBytes(k - 4);
    }
  }

  lemma {:induction false} ZeroBytes(k: nat)
    ensures ByteOf(0, k) == 0
  {
    if k > 0 {
      ZeroBytes(k - 1);
    }
  }

  /** What the loops keep: A in the first half of `b`, and the words in `text`, between what does not change. */
  ghost predicate Keeps(b: array<bv8>, text: array<bv8>, pre: Bytes, post: Bytes, n: nat, g: Reg)
    reads b, text
  {
    n > 0 && b.Length == 16 && text != b && Sized(g, n) && b[..8] == g.a && text[..] == pre + g.r + post
  }

  lemma PutInside(pre: Bytes, r: Bytes, post: Bytes, i: nat, w: Bytes)
    requires i + 8 <= |r| && |w| == 8
    ensures Put(pre + r + post, |pre| + i, w) == pre + Put(r, i, w) + post
    ensures (pre + r + post)[|pre| + i..|pre| + i + 8] == r[i..i + 8]
  {
    var s := pre + r + post;
    assert s[..|pre| + i] == pre + r[..i];
    assert s[|pre| + i + 8..] == r[i + 8..] + post;
  }

  /** f is the wrapping step under e. */
  ghost predicate Wraps(f: Step, e: Bytes -> Bytes) {
    forall g, at, t {:trigger StepAt(f, g, at, t)} :: StepAt(f, g, at, t) == WrapStep(e, g, at, t)
  }

  ghost predicate Unwraps(u: Step, d: Bytes -> Bytes) {
    forall g, at, t {:trigger StepAt(u, g, at, t)} :: StepAt(u, g, at, t) == UnwrapStep(d, g, at, t)
  }

  method WrapBlock(e: Bytes -> Bytes, b: array<bv8>, text: array<bv8>, i: nat, t: Uint32,
                   ghost pre: Bytes, ghost post: Bytes, ghost n: nat, ghost g: Reg, ghost at: nat)
    requires BlockMap(e) && Keeps(b, text, pre, post, n, g) && at + 8 <= 8 * n && i == |pre| + at
    modifies b, text
    ensures Keeps(b, text, pre, post, n, WrapStep(e, g, at, t))
  {
    PutInside(pre, g.r, post, at, g.r[at..at + 8]);
    Memcpy(b, 8, text[i..i + 8]);
    assert b[..] == g.a + g.r[at..at + 8];
    var c := e(b[..]);
    Memcpy(b, 0, c);
    assert b[..8] == c[..8] && b[8..] == c[8..];
    XorCounterIn(b, t);
    var w := b[8..];
    assert b[..8] == XorCounter(c[..8], t) && w == c[8..];
    PutInside(pre, g.r, post, at, w);
    Memcpy(text, i, w);
    assert WrapStep(e, g, at, t) == Reg(XorCounter(c[..8], t), Put(g.r, at, w));
  }

  method UnwrapBlock(d: Bytes -> Bytes, b: array<bv8>, text: array<bv8>, i: nat, t: Uint32,
                     ghost post: Bytes, ghost n: nat, ghost g: Reg)
    requires BlockMap(d) && Keeps(b, text, [], post, n, g) && i + 8 <= 8 * n
    modifies b, text
    ensures Keeps(b, text, [], post, n, UnwrapStep(d, g, i, t))
  {
    PutInside([], g.r, post, i, g.r[i..i + 8]);
    XorCounterIn(b, t);
    assert b[..8] == XorCounter(g.a, t);
    Memcpy(b, 8, text[i..i + 8]);
    assert b[..] == XorCounter(g.a, t) + g.r[i..i + 8];
    var c := d(b[..]);
    Memcpy(b, 0, c);
    var w := b[8..];
    assert b[..8] == c[..8] && w == c[8..];
    PutInside([], g.r, post, i, w);
    Memcpy(text, i, w);
    assert UnwrapStep(d, g, i, t) == Reg(c[..8], Put(g.r, i, w));
  }

  method WrapOne(e: Bytes -> Bytes, b: array<bv8>, text: array<bv8>, i: nat, t: Uint32, ghost f: Step,
                 ghost pre: Bytes, ghost post: Bytes, ghost n: nat, ghost g: Reg, ghost at: nat)
    requires BlockMap(e) && Wraps(f, e) && Keeps(b, text, pre, post, n, g) && at + 8 <= 8 * n && i == |pre| + at
    modifies b, text
    ensures Keeps(b, text, pre, post, n, f(g, at, t))
  {
    assert StepAt(f, g, at, t) == WrapStep(e, g, at, t);
    WrapBlock(e, b, text, i, t, pre, post, n, g, at);
  }

  method UnwrapOne(d: Bytes -> Bytes, b: array<bv8>, text: array<bv8>, i: nat, t: Uint32, ghost u: Step,
                   ghost post: Bytes, ghost n: nat, ghost g: Reg)
    requires BlockMap(d) && Unwraps(u, d) && Keeps(b, text, [], post, n, g) && i + 8 <= 8 * n
    modifies b, text
    ensures Keeps(b, text, [], post, n, u(g, i, t))
  {
    assert StepAt(u, g, i, t) == UnwrapStep(d, g, i, t);
    UnwrapBlock(d, b, text, i, t, post, n, g);
  }

  /** Refines section 2.2.1 of RFC 3394, in the output buffer. */
  method WrapKey(e: Bytes -> Bytes, out: array<bv8>, input: array<bv8>, inlen: Uint32) returns (rc: int)
    requires BlockMap(e) && out != input
    requires inlen % 8 == 0 && inlen >= 8 ==> inlen <= input.Length && inlen + 8 <= out.Length
    modifies out
    ensures rc == if inlen % 8 != 0 || inlen < 8 then -1 else 0
    ensures rc == -1 ==> out[..] == old(out[..])
    ensures rc == 0 ==> out[..] == Put(old(out[..]), 0, Wrap(e, input[..inlen]))
  {
    if inlen % 8 != 0 || inlen < 8 {
      return -1;
    }
    WrapWords(e, out, input, inlen, Wrapping(e));
    rc := 0;
  }

  method WrapWords(e: Bytes -> Bytes, out: array<bv8>, input: array<bv8>, inlen: Uint32, ghost f: Step)
    requires BlockMap(e) && out != input && inlen % 8 == 0 && 8 <= inlen <= input.Length && inlen + 8 <= out.Length
    requires Wraps(f, e) && KeepsSize(f)
    modifies out
    ensures out[..] == Put(old(out[..]), 0, WrapWith(f, input[..inlen]))
  {
    ghost var was, pre, post, p := out[..], out[..8], out[8 + inlen..], input[..inlen];
    var b := new bv8[16];
    Memcpy(out, 8, input[..inlen]);
    Memcpy(b, 0, IV);
    assert b[..8] == IV;
    ghost var g := WrapRounds(e, b, out, inlen, f, inlen / 8, pre, post, Reg(IV, p));
    assert WrapWith(f, p) == g.a + g.r;
    PutRegisters(out, b[..8], pre, g, post);
    FrontOf(was, g.a + g.r, post);
  }

  method PutRegisters(out: array<bv8>, a: Bytes, ghost pre: Bytes, ghost g: Reg, ghost post: Bytes)
    requires out[..] == pre + g.r + post && a == g.a && |a| == |pre| == 8
    modifies out
    ensures out[..] == g.a + g.r + post
  {
    PutFront(pre, g.r + post, g.a);
    assert out[..] == pre + (g.r + post);
    Memcpy(out, 0, a);
  }

  lemma PutFront(pre: Bytes, rest: Bytes, w: Bytes)
    requires |w| == |pre|
    ensures Put(pre + rest, 0, w) == w + rest
  {
  }

  lemma FrontOf(was: Bytes, c: Bytes, post: Bytes)
    requires |c| <= |was| && post == was[|c|..]
    ensures Put(was, 0, c) == c + post
  {
  }

  method WrapRounds(e: Bytes -> Bytes, b: array<bv8>, out: array<bv8>, inlen: Uint32, ghost f: Step, ghost n: nat,
                    ghost pre: Bytes, ghost post: Bytes, ghost start: Reg) returns (ghost g: Reg)
    requires BlockMap(e) && Wraps(f, e) && inlen == 8 * n && Keeps(b, out, pre, post, n, start) && |pre| == 8
    modifies b, out
    ensures Keeps(b, out, pre, post, n, g) && g == Rounds(f, start, ROUNDS, n)
  {
    var t := 1;
    g := start;
    for j := 0 to ROUNDS
      invariant t == Times(j, n) + 1 && Keeps(b, out, pre, post, n, g) && g == Rounds(f, start, j, n)
    {
      SixTimes(j, n);
      t, g := WrapRound(e, b, out, inlen, t, f, n, pre, post, g);
    }
  }

  lemma SixTimes(j: nat, n: nat)
    requires j <= 5
    ensures Times(j, n) <= 5 * n && Times(6, n) == 6 * n
  {
    assert Times(1, n) == n && Times(2, n) == 2 * n && Times(3, n) == 3 * n && Times(4, n) == 4 * n && Times(5, n) == 5 * n;
  }

  method WrapRound(e: Bytes -> Bytes, b: array<bv8>, out: array<bv8>, inlen: Uint32, first: Uint32, ghost f: Step,
                   ghost n: nat, ghost pre: Bytes, ghost post: Bytes, ghost before: Reg) returns (t: int, ghost g: Reg)
    requires BlockMap(e) && Wraps(f, e) && inlen == 8 * n && Keeps(b, out, pre, post, n, before) && |pre| == 8
    requires 1 <= first <= 5 * n + 1
    modifies b, out
    ensures t == first + n && Keeps(b, out, pre, post, n, g) && g == SomeSteps(f, before, n, first - 1)
  {
    t, g := first, before;
    var i, r := 0, 8;
    ghost var k := 0;
    while i < inlen
      invariant i == 8 * k && 0 <= k <= n && r == 8 + i && t == first + k
      invariant Keeps(b, out, pre, post, n, g) && g == SomeSteps(f, before, k, first - 1)
    {
      WrapOne(e, b, out, r, t, f, pre, post, n, g, i);
      g := f(g, i, t);
      i, t, r, k := i + 8, t + 1, r + 8, k + 1;
    }
  }

  /** The length without the prefix, as an unsigned 32-bit number: a length of 0 becomes a huge multiple of 8. */
  function WithoutPrefix(inlen: Uint32): Uint32 {
    (inlen - 8) % 0x1_0000_0000
  }

  /** Refines section 2.2.2 of RFC 3394, in the output buffer, which is cleared when the key is refused. */
  method UnwrapKey(d: Bytes -> Bytes, out: array<bv8>, input: array<bv8>, inlen: Uint32) returns (rc: int)
    requires BlockMap(d) && out != input
    requires var m := WithoutPrefix(inlen); m % 8 == 0 && m >= 8 ==> m + 8 <= input.Length && m <= out.Length
    modifies out
    ensures var m := WithoutPrefix(inlen); m % 8 != 0 || m < 8 ==> rc == -1 && out[..] == old(out[..])
    ensures var m := WithoutPrefix(inlen); m % 8 == 0 && m >= 8 ==>
      var p := Unwrap(d, input[..m + 8]);
      rc == (if p.Some? then 0 else -1) && out[..] == Put(old(out[..]), 0, if p.Some? then p.value else seq(m, _ => 0))
  {
    var m := WithoutPrefix(inlen);
    if m % 8 != 0 {
      return -1;
    }
    if m < 8 {
      return -1;
    }
    ghost var post := out[m..];
    var b := new bv8[16];
    Memcpy(b, 0, input[..8]);
    Memcpy(out, 0, input[8..m + 8]);
    assert b[..8] == input[..8] && out[..] == [] + input[8..m + 8] + post;
    ghost var g := UnwrapRounds(d, b, out, m, Unwrapping(d), m / 8, post, Reg(input[..8], input[8..m + 8]));
    assert input[..m + 8][..8] == input[..8] && input[..m + 8][8..] == input[8..m + 8];
    var a := b[..8];
    if a != IV {
      Memcpy(out, 0, seq(m, _ => 0));
      return -1;
    }
    rc := 0;
  }

  method UnwrapRounds(d: Bytes -> Bytes, b: array<bv8>, out: array<bv8>, m: Uint32, ghost u: Step, ghost n: nat,
                      ghost post: Bytes, ghost start: Reg) returns (ghost g: Reg)
    requires BlockMap(d) && Unwraps(u, d) && m == 8 * n && Keeps(b, out, [], post, n, start)
    modifies b, out
    ensures Keeps(b, out, [], post, n, g) && g == RoundsBack(u, start, ROUNDS, n)
  {
    var t: int := 6 * (m / 8);
    g := start;
    SixTimes(0, n);
    for j := 0 to ROUNDS
      invariant t == Times(ROUNDS - j, n) && Keeps(b, out, [], post, n, g)
      invariant RoundsBack(u, g, ROUNDS - j, n) == RoundsBack(u, start, ROUNDS, n)
    {
      SixTimes(ROUNDS - 1 - j, n);
      t, g := UnwrapRound(d, b, out, m, t, u, n, post, g);
    }
  }

  method UnwrapRound(d: Bytes -> Bytes, b: array<bv8>, out: array<bv8>, m: Uint32, first: Uint32, ghost u: Step,
                     ghost n: nat, ghost post: Bytes, ghost before: Reg) returns (t: int, ghost g: Reg)
    requires BlockMap(d) && Unwraps(u, d) && m == 8 * n && Keeps(b, out, [], post, n, before) && n <= first <= 6 * n
    modifies b, out
    ensures t == first - n && Keeps(b, out, [], post, n, g) && g == SomeStepsBack(u, before, n, t)
  {
    t, g := first, before;
    var i, r := 0, m - 8;
    ghost var k := n;
    while i < m
      invariant i == m - 8 * k && 0 <= k <= n && r == 8 * k - 8 && t == first - n + k
      invariant Keeps(b, out, [], post, n, g) && SomeStepsBack(u, g, k, first - n) == SomeStepsBack(u, before, n, first - n)
    {
      UnwrapOne(d, b, out, r, t, u, post, n, g);
      g := u(g, r, t);
      i, t, r, k := i + 8, t - 1, r - 8, k - 1;
    }
  }
}
