/** The state of the FEC decoder as a value: its open groups, its marked cells, and what is known.
    The lemmas say what each elementary change of that state keeps. */
module FecPeeling {
  import opened Arithmetic
  import opened FecClip
  import opened FecGeometry

  datatype Kind = Horiz | Vert

  function Cross(k: Kind): Kind {
    if k.Horiz? then Vert else Horiz
  }

  /** The configuration, the initial sequence number, and the stream the sender sends. */
  datatype Env = Env(cfg: Config, isn: int, src: int -> Packet)

  ghost predicate ValidEnv(e: Env) {
    ValidConfig(e.cfg) && forall x :: Fits(e.src(x), e.cfg.payloadSize)
  }

  /** `rowGot[i]` and `colGot[i]` are the sequence numbers folded into a group; `received` are the data packets that
      arrived, `ctl` the member sets of all groups whose control packet arrived, and `known` the packets
      received or rebuilt. `reported` are the numbers ever reported as irrecoverable, and `missed` those that were
      beyond the cells when the losses of their column were collected. */
  datatype View = View(rowq: seq<Group>, colq: seq<Group>, cells: seq<bool>, base: int,
                       rowGot: seq<set<int>>, colGot: seq<set<int>>, turn: nat,
                       known: set<int>, received: set<int>, ctl: set<set<int>>, span: set<int>,
                       reported: set<int>, missed: set<int>)

  // ---------- rows and columns under one name ----------

  function Queue(v: View, k: Kind): seq<Group> {
    if k.Horiz? then v.rowq else v.colq
  }

  function GotOf(v: View, k: Kind): seq<set<int>> {
    if k.Horiz? then v.rowGot else v.colGot
  }

  function StepOf(cfg: Config, k: Kind): nat {
    if k.Horiz? then 1 else cfg.cols
  }

  function SizeOf(cfg: Config, k: Kind): nat {
    if k.Horiz? then cfg.cols else cfg.rows
  }

  /** How many groups make up one matrix. */
  function PerMatrix(cfg: Config, k: Kind): nat {
    if k.Horiz? then cfg.rows else cfg.cols
  }

  function DropOf(cfg: Config, k: Kind): nat {
    if k.Horiz? then cfg.cols else Matrix(cfg)
  }

  function BaseOf(cfg: Config, k: Kind, base: int, i: nat): int
    requires ValidConfig(cfg)
  {
    if k.Horiz? then RowBase(cfg, base, i) else ColBase(cfg, base, i)
  }

  function IxOf(cfg: Config, k: Kind, base: int, x: int): int
    requires ValidConfig(cfg)
  {
    if k.Horiz? then RowIx(cfg, base, x) else ColIx(cfg, base, x)
  }

  ghost function MembersOf(cfg: Config, k: Kind, base: int, i: nat): set<int>
    requires ValidConfig(cfg)
  {
    Members(BaseOf(cfg, k, base, i), StepOf(cfg, k), SizeOf(cfg, k))
  }

  lemma Partition(cfg: Config, k: Kind, base: int, x: int, i: nat)
    requires ValidConfig(cfg)
    ensures x in MembersOf(cfg, k, base, i) <==> IxOf(cfg, k, base, x) == i
    ensures IxOf(cfg, k, base, x) >= -1
  {
    if k.Horiz? {
      RowPartition(cfg, base, x, i);
      if x >= base { DivBound(x - base, cfg.cols, 0); }
    } else {
      ColumnPartition(cfg, base, x, i);
      ColIxRange(cfg, base, x);
    }
  }

  lemma ColIxRange(cfg: Config, base: int, x: int)
    requires ValidConfig(cfg)
    ensures ColIx(cfg, base, x) >= -1
  {
    if x >= base {
      ColumnCoordinates(cfg, base, x);
      var r, c := (x - base) / cfg.cols, (x - base) % cfg.cols;
      if r >= StairRow(cfg, c) {
        DivBound(r - StairRow(cfg, c), cfg.rows, 0);
        MulMonotone(0, (r - StairRow(cfg, c)) / cfg.rows, cfg.cols);
      }
    }
  }

  /** After the window moved by one matrix, group i is what group i + PerMatrix was. */
  lemma Shifted(cfg: Config, k: Kind, base: int, i: nat)
    requires ValidConfig(cfg)
    ensures BaseOf(cfg, k, base + Matrix(cfg), i) == BaseOf(cfg, k, base, i + PerMatrix(cfg, k))
    ensures MembersOf(cfg, k, base + Matrix(cfg), i) == MembersOf(cfg, k, base, i + PerMatrix(cfg, k))
  {
    ShiftByMatrices(cfg, base, 1, i);
  }

  lemma ShiftedIndex(cfg: Config, k: Kind, base: int, x: int)
    requires ValidConfig(cfg)
    ensures var i, j := IxOf(cfg, k, base, x), IxOf(cfg, k, base + Matrix(cfg), x);
      j == if i >= PerMatrix(cfg, k) then i - PerMatrix(cfg, k) else -1
  {
    var i, j := IxOf(cfg, k, base, x), IxOf(cfg, k, base + Matrix(cfg), x);
    Partition(cfg, k, base + Matrix(cfg), x, 0);
    if j >= 0 {
      Partition(cfg, k, base + Matrix(cfg), x, j);
      Shifted(cfg, k, base, j);
      Partition(cfg, k, base, x, j + PerMatrix(cfg, k));
    }
    if i >= PerMatrix(cfg, k) {
      Partition(cfg, k, base, x, i);
      Shifted(cfg, k, base, i - PerMatrix(cfg, k));
      Partition(cfg, k, base + Matrix(cfg), x, i - PerMatrix(cfg, k));
    }
  }

  // ---------- the invariant ----------

  predicate Marked(v: View, x: int) {
    v.base <= x < v.base + |v.cells| && v.cells[x - v.base]
  }

  /** Only a name by which proofs pick out one group. */
  ghost predicate Pick(k: Kind, i: int) {
    true
  }

  ghost function FoldedClip(e: Env, k: Kind, base: int, fec: bool, got: set<int>): Clip
    requires ValidConfig(e.cfg)
  {
    var f := FoldOn(e.src, e.cfg.payloadSize, base, StepOf(e.cfg, k), SizeOf(e.cfg, k), got);
    if fec then Xor(f, FoldAll(e.src, e.cfg.payloadSize, base, StepOf(e.cfg, k), SizeOf(e.cfg, k))) else f
  }

  /** A group is where the layout puts it; its clip is the XOR of the members folded in, and of the control
      packet if that has come; it counts exactly those members; and what is folded in is marked. */
  ghost predicate GroupHolds(e: Env, k: Kind, base: int, i: nat, g: Group, got: set<int>)
    requires ValidConfig(e.cfg)
  {
    g.base == BaseOf(e.cfg, k, base, i) && g.step == StepOf(e.cfg, k) && g.drop == DropOf(e.cfg, k)
    && got <= MembersOf(e.cfg, k, base, i) && |got| == g.collected
    && g.clip == FoldedClip(e, k, g.base, g.fec, got)
  }

  ghost predicate GroupOK(e: Env, v: View, k: Kind, i: nat)
    requires ValidConfig(e.cfg) && i < |Queue(v, k)| == |GotOf(v, k)|
  {
    GroupHolds(e, k, v.base, i, Queue(v, k)[i], GotOf(v, k)[i])
    && (forall x :: x in GotOf(v, k)[i] ==> Marked(v, x))
    && (Queue(v, k)[i].fec ==> MembersOf(e.cfg, k, v.base, i) in v.ctl)
    && (Queue(v, k)[i].dismissed ==> Accounted(v, MembersOf(e.cfg, k, v.base, i)))
  }

  /** Each of the numbers is known, or was reported as irrecoverable, or was passed over. */
  ghost predicate Accounted(v: View, members: set<int>) {
    members <= v.known + v.reported + v.missed
  }

  /** What was reported belongs to a dismissed column of the first series, or to none that is still there. */
  ghost predicate ReportedIsOver(cfg: Config, v: View)
    requires ValidConfig(cfg) && |v.colq| >= cfg.cols
  {
    forall x :: x in v.reported ==> IsPastColumn(cfg, v, x)
  }

  predicate IsPastColumn(cfg: Config, v: View, x: int)
    requires ValidConfig(cfg) && |v.colq| >= cfg.cols
  {
    var i := ColIx(cfg, v.base, x);
    i < cfg.cols && (i >= 0 ==> v.colq[i].dismissed)
  }

  /** Closed under peeling: a set that holds all members but one of a group with a control packet holds that one too. */
  ghost predicate Closed(s: set<int>, ctl: set<set<int>>) {
    forall g, t :: g in ctl && t in g && g - {t} <= s ==> t in s
  }

  /** Nothing is known that peeling does not yield from the packets that really arrived. */
  ghost predicate Justified(v: View) {
    forall s: set<int> {:trigger Closed(s, v.ctl)} :: v.received <= s && Closed(s, v.ctl) ==> v.known <= s
  }

  ghost predicate KnownIsMarked(v: View) {
    forall x {:trigger Marked(v, x)} :: Marked(v, x) <==> x in v.known && x >= v.base
  }

  ghost predicate Shape(e: Env, v: View) {
    ValidEnv(e) && |v.rowq| == |v.rowGot| >= 1 && |v.colq| == |v.colGot| >= e.cfg.cols
    && |v.colq| % e.cfg.cols == 0 && v.base == e.isn + v.turn * Matrix(e.cfg)
  }

  ghost predicate Inv(e: Env, v: View) {
    Shape(e, v)
    && (forall k, i {:trigger Pick(k, i)} :: Pick(k, i) && 0 <= i < |Queue(v, k)| ==> GroupOK(e, v, k, i))
    && KnownIsMarked(v) && Justified(v) && ReportedIsOver(e.cfg, v)
    && (forall g :: g in v.ctl ==> g <= v.span)
  }

  // ---------- which packets hang where ----------

  ghost predicate AllMarked(e: Env, v: View, k: Kind, i: nat)
    requires ValidConfig(e.cfg)
  {
    forall x :: x in MembersOf(e.cfg, k, v.base, i) ==> Marked(v, x)
  }

  /** x is folded into its group, or its group is complete, or it belongs to no group. */
  ghost predicate Hangs(e: Env, v: View, k: Kind, x: int)
    requires Shape(e, v)
  {
    var i := IxOf(e.cfg, k, v.base, x);
    i == -1 || (0 <= i < |Queue(v, k)| && (x in GotOf(v, k)[i] || (Queue(v, k)[i].fec && AllMarked(e, v, k, i))))
  }

  ghost predicate Pending(e: Env, v: View, k: Kind, x: int)
    requires Shape(e, v)
  {
    var i := IxOf(e.cfg, k, v.base, x);
    0 <= i < |Queue(v, k)| ==> x !in GotOf(v, k)[i]
  }

  /** Every marked packet hangs in its group, except those in `p`, which have not been folded in yet. */
  ghost predicate Covered(e: Env, v: View, k: Kind, p: set<int>)
    requires Shape(e, v)
  {
    forall x {:trigger Marked(v, x)} :: Marked(v, x) ==> if x in p then Pending(e, v, k, x) else Hangs(e, v, k, x)
  }

  /** Group i of kind k has nothing left to rebuild. */
  ghost predicate Done(e: Env, v: View, k: Kind, i: nat)
    requires Shape(e, v) && i < |Queue(v, k)|
  {
    Queue(v, k)[i].fec && Queue(v, k)[i].collected == SizeOf(e.cfg, k) - 1 ==> AllMarked(e, v, k, i)
  }

  /** Every group but one (none if `si` is -1) has nothing left to rebuild. */
  ghost predicate Settled(e: Env, v: View, sk: Kind, si: int)
    requires Shape(e, v)
  {
    forall k, i {:trigger Pick(k, i)} :: Pick(k, i) && 0 <= i < |Queue(v, k)| && !(k == sk && i == si) ==> Done(e, v, k, i)
  }

  // ---------- marking a cell ----------

  function MarkedCells(cells: seq<bool>, at: nat): (r: seq<bool>)
    ensures at < |r|
  {
    if at < |cells| then cells[at := true] else cells + seq(at - |cells|, _ => false) + [true]
  }

  function Mark(v: View, x: int): View
    requires x >= v.base
  {
    v.(cells := MarkedCells(v.cells, x - v.base), known := v.known + {x})
  }

  lemma MarkMarks(v: View, x: int, y: int)
    requires x >= v.base
    ensures Marked(Mark(v, x), y) <==> Marked(v, y) || y == x
  {
  }

  /** Marking keeps everything that speaks of marked cells and folds; it is the known set that must be justified. */
  lemma MarkKeeps(e: Env, v: View, x: int, v': View, hp: set<int>, vp: set<int>, sk: Kind, si: int)
    requires Inv(e, v) && x >= v.base && !Marked(v, x)
    requires v' == Mark(v, x).(received := v'.received) && Justified(v')
    requires Covered(e, v, Horiz, hp) && Covered(e, v, Vert, vp) && Settled(e, v, sk, si)
    ensures Inv(e, v') && Settled(e, v', sk, si)
    ensures Covered(e, v', Horiz, hp + {x}) && Covered(e, v', Vert, vp + {x})
  {
    assert forall y {:trigger Marked(v', y)} :: Marked(v', y) <==> Marked(v, y) || y == x by {
      forall y {:trigger Marked(v', y)} ensures Marked(v', y) <==> Marked(v, y) || y == x { MarkMarks(v, x, y); }
    }
    forall k, i {:trigger Pick(k, i)} | Pick(k, i) && 0 <= i < |Queue(v', k)|
      ensures GroupOK(e, v', k, i) && (!(k == sk && i == si) ==> Done(e, v', k, i))
    {
      assert Pick(k, i) && GroupOK(e, v, k, i) && (!(k == sk && i == si) ==> Done(e, v, k, i));
    }
    MarkCovers(e, v, x, v', Horiz, hp);
    MarkCovers(e, v, x, v', Vert, vp);
  }

  lemma MarkCovers(e: Env, v: View, x: int, v': View, k: Kind, p: set<int>)
    requires Inv(e, v) && Shape(e, v') && Covered(e, v, k, p) && !Marked(v, x)
    requires v'.base == v.base && Queue(v', k) == Queue(v, k) && GotOf(v', k) == GotOf(v, k)
    requires forall y {:trigger Marked(v', y)} :: Marked(v', y) <==> Marked(v, y) || y == x
    ensures Covered(e, v', k, p + {x})
  {
    forall y {:trigger Marked(v', y)} | Marked(v', y)
      ensures if y in p + {x} then Pending(e, v', k, y) else Hangs(e, v', k, y)
    {
      if y == x {
        var i := IxOf(e.cfg, k, v.base, x);
        if 0 <= i < |Queue(v, k)| {
          assert Pick(k, i);
        }
      } else {
        assert Marked(v, y);
      }
    }
  }

  /** A packet that arrives is known because it is received. */
  lemma ReceivedIsJustified(v: View, v': View, x: int)
    requires Justified(v) && v'.received == v.received + {x} && v'.known == v.known + {x} && v'.ctl == v.ctl
    ensures Justified(v')
  {
    forall s: set<int> {:trigger Closed(s, v'.ctl)} | v'.received <= s && Closed(s, v'.ctl) ensures v'.known <= s {
      assert Closed(s, v.ctl);
    }
  }

  /** A packet that is rebuilt is known because all the other members of a group with a control packet are. */
  lemma RebuiltIsJustified(v: View, v': View, x: int, g: set<int>)
    requires Justified(v) && v'.received == v.received && v'.known == v.known + {x} && v'.ctl == v.ctl
    requires g in v.ctl && x in g && g - {x} <= v.known
    ensures Justified(v')
  {
    forall s: set<int> {:trigger Closed(s, v'.ctl)} | v'.received <= s && Closed(s, v'.ctl) ensures v'.known <= s {
      assert Closed(s, v.ctl) && g - {x} <= s;
    }
  }

  // ---------- changing one group ----------

  function PutGroup(v: View, k: Kind, i: nat, g: Group, got: set<int>): View
    requires i < |Queue(v, k)| && i < |GotOf(v, k)|
  {
    if k.Horiz? then v.(rowq := v.rowq[i := g], rowGot := v.rowGot[i := got])
    else v.(colq := v.colq[i := g], colGot := v.colGot[i := got])
  }

  function Folded(e: Env, v: View, k: Kind, i: nat, x: int): View
    requires i < |Queue(v, k)| && i < |GotOf(v, k)|
  {
    var g := Queue(v, k)[i];
    PutGroup(v, k, i, g.(collected := g.collected + 1, clip := Xor(g.clip, ClipOf(e.src(x), e.cfg.payloadSize))),
             GotOf(v, k)[i] + {x})
  }

  lemma FoldedGroup(e: Env, k: Kind, base: int, i: nat, g: Group, got: set<int>, x: int)
    requires ValidEnv(e) && GroupHolds(e, k, base, i, g, got)
    requires x in MembersOf(e.cfg, k, base, i) && x !in got
    ensures GroupHolds(e, k, base, i,
                       g.(collected := g.collected + 1, clip := Xor(g.clip, ClipOf(e.src(x), e.cfg.payloadSize))), got + {x})
  {
    var cfg := e.cfg;
    FoldInsert(e.src, cfg.payloadSize, g.base, StepOf(cfg, k), SizeOf(cfg, k), got, x);
    if g.fec {
      XorExchange(FoldOn(e.src, cfg.payloadSize, g.base, StepOf(cfg, k), SizeOf(cfg, k), got),
                  FoldAll(e.src, cfg.payloadSize, g.base, StepOf(cfg, k), SizeOf(cfg, k)),
                  ClipOf(e.src(x), cfg.payloadSize));
    }
  }

  /** Folding a marked packet into its group: only that group may now have something to rebuild. */
  lemma FoldKeeps(e: Env, v: View, k: Kind, i: nat, x: int, p: set<int>, p': set<int>)
    requires Inv(e, v) && Covered(e, v, k, p) && Covered(e, v, Cross(k), p') && Settled(e, v, k, -1)
    requires Marked(v, x) && x in p && IxOf(e.cfg, k, v.base, x) == i < |Queue(v, k)|
    ensures var v' := Folded(e, v, k, i, x);
      Inv(e, v') && Covered(e, v', k, p - {x}) && Covered(e, v', Cross(k), p') && Settled(e, v', k, i)
  {
    var v' := Folded(e, v, k, i, x);
    assert Pick(k, i) && Pending(e, v, k, x);
    Partition(e.cfg, k, v.base, x, i);
    FoldedGroup(e, k, v.base, i, Queue(v, k)[i], GotOf(v, k)[i], x);
    OneGroupCovers(e, v, v', k, i, p, x);
    assert GroupOK(e, v', k, i);
    OneGroupChanged(e, v, v', k, i, x);
    OtherKindCovers(e, v, v', Cross(k), p');
  }

  /** A change of one group that keeps it well formed, adds at most x to it, and marks nothing. */
  ghost predicate OneGroupChanges(e: Env, v: View, v': View, k: Kind, i: nat, x: int)
    requires Shape(e, v)
  {
    i < |Queue(v, k)| && |Queue(v', k)| == |GotOf(v', k)| == |Queue(v, k)|
    && v' == PutGroup(v, k, i, Queue(v', k)[i], GotOf(v', k)[i]).(ctl := v'.ctl, span := v'.span)
    && GotOf(v, k)[i] <= GotOf(v', k)[i] <= GotOf(v, k)[i] + {x}
    && (Queue(v, k)[i].fec ==> Queue(v', k)[i].fec) && Queue(v', k)[i].dismissed == Queue(v, k)[i].dismissed
    && (x in GotOf(v', k)[i] ==> IxOf(e.cfg, k, v.base, x) == i)
  }

  lemma OneGroupChanged(e: Env, v: View, v': View, k: Kind, i: nat, x: int)
    requires Inv(e, v) && OneGroupChanges(e, v, v', k, i, x) && Settled(e, v, k, -1)
    requires GroupOK(e, v', k, i) && v.ctl <= v'.ctl && Justified(v') && (forall g :: g in v'.ctl ==> g <= v'.span)
    ensures Inv(e, v') && Settled(e, v', k, i)
  {
    assert Shape(e, v');
    forall k', i' {:trigger Pick(k', i')} | Pick(k', i') && 0 <= i' < |Queue(v', k')| && !(k' == k && i' == i)
      ensures GroupOK(e, v', k', i') && Done(e, v', k', i')
    {
      assert Pick(k', i') && GroupOK(e, v, k', i') && Done(e, v, k', i');
      assert Queue(v', k')[i'] == Queue(v, k')[i'] && GotOf(v', k')[i'] == GotOf(v, k')[i'];
    }
    assert KnownIsMarked(v') by {
      forall y {:trigger Marked(v', y)} ensures Marked(v', y) <==> y in v'.known && y >= v'.base {
        assert Marked(v', y) == Marked(v, y);
      }
    }
  }

  lemma OneGroupCovers(e: Env, v: View, v': View, k: Kind, i: nat, p: set<int>, x: int)
    requires Shape(e, v) && OneGroupChanges(e, v, v', k, i, x) && Covered(e, v, k, p)
    ensures Shape(e, v') && Covered(e, v', k, if x in GotOf(v', k)[i] then p - {x} else p)
  {
    var p' := if x in GotOf(v', k)[i] then p - {x} else p;
    forall y {:trigger Marked(v', y)} | Marked(v', y)
      ensures if y in p' then Pending(e, v', k, y) else Hangs(e, v', k, y)
    {
      assert Marked(v, y);
    }
  }

  lemma OtherKindCovers(e: Env, v: View, v': View, k: Kind, p: set<int>)
    requires Shape(e, v) && Shape(e, v') && Covered(e, v, k, p)
    requires v'.base == v.base && Queue(v', k) == Queue(v, k) && GotOf(v', k) == GotOf(v, k)
    requires v'.cells == v.cells || Grown(v.cells, v'.cells)
    ensures Covered(e, v', k, p)
  {
    forall y {:trigger Marked(v', y)} | Marked(v', y)
      ensures if y in p then Pending(e, v', k, y) else Hangs(e, v', k, y)
    {
      assert Marked(v, y);
    }
  }

  /** The control packet of group i arrives. */
  ghost function WithControl(e: Env, v: View, k: Kind, i: nat): View
    requires ValidConfig(e.cfg) && i < |Queue(v, k)| && i < |GotOf(v, k)|
  {
    var g := Queue(v, k)[i];
    PutGroup(v, k, i, g.(fec := true, clip := Xor(g.clip, FoldAll(e.src, e.cfg.payloadSize, g.base, StepOf(e.cfg, k), SizeOf(e.cfg, k)))),
             GotOf(v, k)[i])
      .(ctl := v.ctl + {MembersOf(e.cfg, k, v.base, i)}, span := v.span + MembersOf(e.cfg, k, v.base, i))
  }

  lemma ControlKeeps(e: Env, v: View, k: Kind, i: nat)
    requires Inv(e, v) && Covered(e, v, k, {}) && Covered(e, v, Cross(k), {}) && Settled(e, v, k, -1)
    requires i < |Queue(v, k)| && !Queue(v, k)[i].fec
    ensures var v' := WithControl(e, v, k, i);
      Inv(e, v') && Covered(e, v', k, {}) && Covered(e, v', Cross(k), {}) && Settled(e, v', k, i)
  {
    var v' := WithControl(e, v, k, i);
    assert Pick(k, i) && GroupOK(e, v, k, i);
    assert Justified(v') by {
      forall s: set<int> {:trigger Closed(s, v'.ctl)} | v'.received <= s && Closed(s, v'.ctl) ensures v'.known <= s {
        assert Closed(s, v.ctl);
      }
    }
    var x := v.base;
    Partition(e.cfg, k, v.base, x, i);
    OneGroupCovers(e, v, v', k, i, {}, x);
    assert GroupOK(e, v', k, i);
    OneGroupChanged(e, v, v', k, i, x);
    OtherKindCovers(e, v, v', Cross(k), {});
  }

  // ---------- rebuilding ----------

  /** A group with its control packet, all members folded in but one, and an unmarked member: that member is the
      missing one, the group's clip is exactly that packet's, and the others are known. */
  lemma RebuiltIsGenuine(e: Env, v: View, k: Kind, i: nat, t: int)
    requires Inv(e, v) && i < |Queue(v, k)|
    requires Queue(v, k)[i].fec && Queue(v, k)[i].collected == SizeOf(e.cfg, k) - 1
    requires t in MembersOf(e.cfg, k, v.base, i) && !Marked(v, t)
    ensures Queue(v, k)[i].clip == ClipOf(e.src(t), e.cfg.payloadSize)
    ensures MembersOf(e.cfg, k, v.base, i) in v.ctl && MembersOf(e.cfg, k, v.base, i) - {t} <= v.known
    ensures forall x :: x in MembersOf(e.cfg, k, v.base, i) && x != t ==> Marked(v, x)
    ensures t in v.span && (t >= v.base ==> t !in v.known)
  {
    assert Pick(k, i) && GroupOK(e, v, k, i);
    var got := GotOf(v, k)[i];
    MissingMember(e.src, e.cfg.payloadSize, Queue(v, k)[i].base, StepOf(e.cfg, k), SizeOf(e.cfg, k), got, t);
    forall x | x in got ensures x in v.known {
      assert Marked(v, x);
    }
  }

  /** A packet that belongs to no group of this kind is not pending there. */
  lemma NoGroupHangs(e: Env, v: View, k: Kind, t: int, p: set<int>)
    requires Shape(e, v) && IxOf(e.cfg, k, v.base, t) == -1 && Covered(e, v, k, p)
    ensures Covered(e, v, k, p - {t})
  {
  }

  /** Once its missing member is marked, the group is complete: the member hangs there. */
  lemma RebuiltHangs(e: Env, v: View, k: Kind, i: nat, t: int, p: set<int>)
    requires Inv(e, v) && i < |Queue(v, k)| && Queue(v, k)[i].fec && AllMarked(e, v, k, i)
    requires IxOf(e.cfg, k, v.base, t) == i && Covered(e, v, k, p + {t}) && t !in p
    ensures Covered(e, v, k, p)
  {
  }

  // ---------- growing and moving the window ----------

  /** From index n on, the groups are fresh ones in their places. */
  ghost predicate FreshFrom(cfg: Config, k: Kind, base: int, q: seq<Group>, got: seq<set<int>>, n: nat)
    requires ValidConfig(cfg)
  {
    |q| == |got|
    && (forall i :: n <= i < |q| ==> q[i] == FreshGroup(cfg, BaseOf(cfg, k, base, i), StepOf(cfg, k), DropOf(cfg, k)))
    && (forall i :: n <= i < |q| ==> got[i] == {})
  }

  lemma AppendCovers(e: Env, v: View, v': View, ck: Kind, p: set<int>)
    requires Inv(e, v) && Covered(e, v, ck, p) && Shape(e, v') && v'.base == v.base && v'.cells == v.cells
    requires Queue(v, ck) <= Queue(v', ck) && GotOf(v, ck) <= GotOf(v', ck)
    requires forall i :: |Queue(v, ck)| <= i < |Queue(v', ck)| ==> GotOf(v', ck)[i] == {}
    ensures Covered(e, v', ck, p)
  {
    forall x {:trigger Marked(v', x)} | Marked(v', x)
      ensures if x in p then Pending(e, v', ck, x) else Hangs(e, v', ck, x)
    {
      assert Marked(v, x);
      var i := IxOf(e.cfg, ck, v.base, x);
      if 0 <= i < |Queue(v, ck)| {
        assert Queue(v', ck)[i] == Queue(v, ck)[i] && GotOf(v', ck)[i] == GotOf(v, ck)[i];
      }
    }
  }

  lemma FreshHolds(e: Env, v: View, k: Kind, i: nat)
    requires Shape(e, v) && i < |Queue(v, k)| && GotOf(v, k)[i] == {}
    requires Queue(v, k)[i] == FreshGroup(e.cfg, BaseOf(e.cfg, k, v.base, i), StepOf(e.cfg, k), DropOf(e.cfg, k))
    ensures GroupOK(e, v, k, i) && Done(e, v, k, i)
  {
    FoldNone(e.src, e.cfg.payloadSize, BaseOf(e.cfg, k, v.base, i), StepOf(e.cfg, k), SizeOf(e.cfg, k));
    assert SizeOf(e.cfg, k) >= 2;
  }

  /** Appending fresh groups. */
  lemma AppendKeeps(e: Env, v: View, v': View, k: Kind, hp: set<int>, vp: set<int>)
    requires Inv(e, v) && Covered(e, v, Horiz, hp) && Covered(e, v, Vert, vp) && Settled(e, v, Horiz, -1)
    requires v' == if k.Horiz? then v.(rowq := v'.rowq, rowGot := v'.rowGot) else v.(colq := v'.colq, colGot := v'.colGot)
    requires Queue(v, k) <= Queue(v', k) && GotOf(v, k) <= GotOf(v', k) && Shape(e, v')
    requires FreshFrom(e.cfg, k, v.base, Queue(v', k), GotOf(v', k), |Queue(v, k)|)
    ensures Inv(e, v') && Covered(e, v', Horiz, hp) && Covered(e, v', Vert, vp) && Settled(e, v', Horiz, -1)
  {
    forall k', i {:trigger Pick(k', i)} | Pick(k', i) && 0 <= i < |Queue(v', k')|
      ensures GroupOK(e, v', k', i) && Done(e, v', k', i)
    {
      assert Pick(k', i);
      if k' == k && i >= |Queue(v, k)| {
        FreshHolds(e, v', k, i);
      } else {
        assert GroupOK(e, v, k', i) && Done(e, v, k', i);
        assert Queue(v', k')[i] == Queue(v, k')[i] && GotOf(v', k')[i] == GotOf(v, k')[i];
      }
    }
    assert KnownIsMarked(v') by {
      forall y {:trigger Marked(v', y)} ensures Marked(v', y) <==> y in v'.known && y >= v'.base {
        assert Marked(v', y) == Marked(v, y);
      }
    }
    assert Justified(v') by {
      forall s: set<int> {:trigger Closed(s, v'.ctl)} | v'.received <= s && Closed(s, v'.ctl) ensures v'.known <= s {
        assert Closed(s, v.ctl);
      }
    }
    AppendCovers(e, v, v', Horiz, hp);
    AppendCovers(e, v, v', Vert, vp);
  }

  /** Dismissing the oldest matrix: its rows, its series of columns and its cells. */
  predicate HasMatrix(cfg: Config, v: View) {
    |v.rowq| == |v.rowGot| >= cfg.rows && |v.colq| == |v.colGot| >= cfg.cols && |v.cells| >= Matrix(cfg)
  }

  function DropMatrix(cfg: Config, v: View): View
    requires HasMatrix(cfg, v)
  {
    v.(rowq := v.rowq[cfg.rows..], rowGot := v.rowGot[cfg.rows..], colq := v.colq[cfg.cols..], colGot := v.colGot[cfg.cols..],
       cells := v.cells[Matrix(cfg)..], base := v.base + Matrix(cfg), turn := v.turn + 1)
  }

  lemma DropMarks(cfg: Config, v: View, x: int)
    requires HasMatrix(cfg, v)
    ensures Marked(DropMatrix(cfg, v), x) <==> Marked(v, x) && x >= v.base + Matrix(cfg)
  {
  }

  lemma DropShape(e: Env, v: View)
    requires Shape(e, v) && |v.rowq| > e.cfg.rows && |v.colq| > e.cfg.cols && |v.cells| >= Matrix(e.cfg)
    ensures Shape(e, DropMatrix(e.cfg, v))
  {
    assert (v.turn + 1) * Matrix(e.cfg) == v.turn * Matrix(e.cfg) + Matrix(e.cfg);
    var q := |v.colq| / e.cfg.cols;
    assert |v.colq| == q * e.cfg.cols;
    DivModShift(|v.colq|, e.cfg.cols, -1);
    if q <= 1 {
      MulMonotone(q, 1, e.cfg.cols);
    }
    MulMonotone(2, q, e.cfg.cols);
  }

  /** A group that survives the dismissal holds as before, under its new index. */
  lemma DropGroup(e: Env, v: View, k: Kind, i: nat)
    requires Inv(e, v) && |v.rowq| > e.cfg.rows && |v.colq| > e.cfg.cols && |v.cells| >= Matrix(e.cfg)
    requires i + PerMatrix(e.cfg, k) < |Queue(v, k)| && Done(e, v, k, i + PerMatrix(e.cfg, k))
    requires Shape(e, DropMatrix(e.cfg, v))
    ensures GroupOK(e, DropMatrix(e.cfg, v), k, i) && Done(e, DropMatrix(e.cfg, v), k, i)
  {
    var v', j := DropMatrix(e.cfg, v), i + PerMatrix(e.cfg, k);
    assert Pick(k, j) && GroupOK(e, v, k, j);
    assert Queue(v', k)[i] == Queue(v, k)[j] && GotOf(v', k)[i] == GotOf(v, k)[j];
    Shifted(e.cfg, k, v.base, i);
    forall x | x in MembersOf(e.cfg, k, v'.base, i) ensures Marked(v', x) <==> Marked(v, x) {
      DropMarks(e.cfg, v, x);
      MemberAtOrAfterBase(e.cfg, k, v'.base, i, x);
    }
  }

  lemma MemberAtOrAfterBase(cfg: Config, k: Kind, base: int, i: nat, x: int)
    requires ValidConfig(cfg) && x in MembersOf(cfg, k, base, i)
    ensures x >= base
  {
    Partition(cfg, k, base, x, i);
  }

  lemma DropKeeps(e: Env, v: View, hp: set<int>, vp: set<int>)
    requires Inv(e, v) && Covered(e, v, Horiz, hp) && Covered(e, v, Vert, vp) && Settled(e, v, Horiz, -1)
    requires |v.rowq| > e.cfg.rows && |v.colq| > e.cfg.cols && |v.cells| >= Matrix(e.cfg)
    ensures var v' := DropMatrix(e.cfg, v);
      Inv(e, v') && Covered(e, v', Horiz, hp) && Covered(e, v', Vert, vp) && Settled(e, v', Horiz, -1)
  {
    var v' := DropMatrix(e.cfg, v);
    DropShape(e, v);
    forall k, i {:trigger Pick(k, i)} | Pick(k, i) && 0 <= i < |Queue(v', k)|
      ensures GroupOK(e, v', k, i) && Done(e, v', k, i)
    {
      assert Pick(k, i + PerMatrix(e.cfg, k));
      DropGroup(e, v, k, i);
    }
    forall x {:trigger Marked(v', x)} ensures Marked(v', x) <==> x in v'.known && x >= v'.base {
      DropMarks(e.cfg, v, x);
    }
    assert Justified(v') by {
      forall s: set<int> {:trigger Closed(s, v'.ctl)} | v'.received <= s && Closed(s, v'.ctl) ensures v'.known <= s {
        assert Closed(s, v.ctl);
      }
    }
    DropCovers(e, v, Horiz, hp);
    DropCovers(e, v, Vert, vp);
    forall x | x in v.reported ensures IsPastColumn(e.cfg, v', x) {
      assert IsPastColumn(e.cfg, v, x);
      ShiftedIndex(e.cfg, Vert, v.base, x);
    }
  }

  lemma DropCovers(e: Env, v: View, k: Kind, p: set<int>)
    requires Inv(e, v) && Covered(e, v, k, p)
    requires |v.rowq| > e.cfg.rows && |v.colq| > e.cfg.cols && |v.cells| >= Matrix(e.cfg)
    requires Shape(e, DropMatrix(e.cfg, v))
    ensures Covered(e, DropMatrix(e.cfg, v), k, p)
  {
    var v' := DropMatrix(e.cfg, v);
    forall x {:trigger Marked(v', x)} | Marked(v', x)
      ensures if x in p then Pending(e, v', k, x) else Hangs(e, v', k, x)
    {
      DropMarks(e.cfg, v, x);
      DropHangs(e, v, k, x);
    }
  }

  lemma DropHangs(e: Env, v: View, k: Kind, x: int)
    requires Inv(e, v) && |v.rowq| > e.cfg.rows && |v.colq| > e.cfg.cols && |v.cells| >= Matrix(e.cfg)
    requires Shape(e, DropMatrix(e.cfg, v))
    ensures Pending(e, v, k, x) ==> Pending(e, DropMatrix(e.cfg, v), k, x)
    ensures Hangs(e, v, k, x) ==> Hangs(e, DropMatrix(e.cfg, v), k, x)
  {
    var v', u := DropMatrix(e.cfg, v), PerMatrix(e.cfg, k);
    var j := IxOf(e.cfg, k, v.base, x);
    ShiftedIndex(e.cfg, k, v.base, x);
    if u <= j < |Queue(v, k)| {
      var i := j - u;
      assert Queue(v', k)[i] == Queue(v, k)[j] && GotOf(v', k)[i] == GotOf(v, k)[j];
      Shifted(e.cfg, k, v.base, i);
      forall y | y in MembersOf(e.cfg, k, v'.base, i) ensures Marked(v', y) <==> Marked(v, y) {
        DropMarks(e.cfg, v, y);
        MemberAtOrAfterBase(e.cfg, k, v'.base, i, y);
      }
    }
  }

  /** Starting over at a later matrix, with nothing marked. */
  lemma FreshStart(e: Env, v: View)
    requires Shape(e, v) && (forall j :: 0 <= j < |v.cells| ==> !v.cells[j]) && FreshFrom(e.cfg, Horiz, v.base, v.rowq, v.rowGot, 0)
    requires FreshFrom(e.cfg, Vert, v.base, v.colq, v.colGot, 0)
    requires (forall x :: x in v.known ==> x < v.base) && Justified(v) && (forall g :: g in v.ctl ==> g <= v.span)
    requires ReportedIsOver(e.cfg, v)
    ensures Inv(e, v) && Covered(e, v, Horiz, {}) && Covered(e, v, Vert, {}) && Settled(e, v, Horiz, -1)
  {
    forall k, i {:trigger Pick(k, i)} | Pick(k, i) && 0 <= i < |Queue(v, k)|
      ensures GroupOK(e, v, k, i) && Done(e, v, k, i)
    {
      FreshHolds(e, v, k, i);
    }
  }

  // ---------- how far the window reaches ----------

  /** The row, counted from the base, of the last member of column group i. */
  function LastRow(cfg: Config, i: nat): nat
    requires ValidConfig(cfg)
  {
    StairRow(cfg, i % cfg.cols) + (i / cfg.cols) * cfg.rows + cfg.rows - 1
  }

  /** Rows and columns with a control packet reach at most to the end of series 2. */
  ghost predicate Bounded(e: Env, v: View)
    requires Shape(e, v)
  {
    |v.rowq| <= 4 * e.cfg.rows - 1
    && forall i {:trigger Pick(Vert, i)} :: Pick(Vert, i) && 0 <= i < |v.colq| && v.colq[i].fec ==> LastRow(e.cfg, i) <= 4 * e.cfg.rows - 2
  }

  /** What CheckLargeDrop leaves: x is at most in series 2 of its column. */
  predicate Near(cfg: Config, base: int, x: int)
    requires ValidConfig(cfg)
  {
    RowIx(cfg, base, x) <= 4 * cfg.rows - 2 && ColIx(cfg, base, x) < 3 * cfg.cols
  }

  lemma StairRowBelow(cfg: Config, c: nat)
    requires ValidConfig(cfg)
    ensures StairRow(cfg, c) < cfg.rows
  {
  }

  /** A member's row is at most its group's last row; a packet before its column is in the first matrix. */
  lemma RowOfMember(cfg: Config, base: int, x: int, i: int)
    requires ValidConfig(cfg) && x >= base && i == ColIx(cfg, base, x)
    ensures i < 0 ==> RowIx(cfg, base, x) <= cfg.rows
    ensures i >= 0 ==> RowIx(cfg, base, x) <= LastRow(cfg, i)
  {
    ColumnCoordinates(cfg, base, x);
    var r, c := (x - base) / cfg.cols, (x - base) % cfg.cols;
    var d := StairRow(cfg, c);
    StairRowBelow(cfg, c);
    if r >= d {
      var s := (r - d) / cfg.rows;
      DivBound(r - d, cfg.rows, 0);
      MulMonotone(0, s, cfg.cols);
      DivModUnique(i, cfg.cols, s, c);
      assert r - d == s * cfg.rows + (r - d) % cfg.rows;
    }
  }

  /** Rows up to 4 * rows - 2 meet only column groups up to series 3. */
  lemma ColumnOfRow(cfg: Config, base: int, x: int)
    requires ValidConfig(cfg) && RowIx(cfg, base, x) <= 4 * cfg.rows - 2
    ensures ColIx(cfg, base, x) < 4 * cfg.cols <= cfg.rows * cfg.cols * 2
  {
    MulMonotone(2, cfg.rows, cfg.cols);
    if x >= base {
      ColumnCoordinates(cfg, base, x);
      var r, c := (x - base) / cfg.cols, (x - base) % cfg.cols;
      var d := StairRow(cfg, c);
      if r >= d {
        DivBound(r - d, cfg.rows, 4);
        MulMonotone((r - d) / cfg.rows, 3, cfg.cols);
      }
    }
  }

  lemma DistanceOfRow(cfg: Config, base: int, x: int)
    requires ValidConfig(cfg) && RowIx(cfg, base, x) <= 4 * cfg.rows - 2 && x >= base
    ensures x - base < 4 * Matrix(cfg)
  {
    var r, c := (x - base) / cfg.cols, (x - base) % cfg.cols;
    assert x - base == r * cfg.cols + c;
    MulStrict(r, 4 * cfg.rows, cfg.cols);
    MulAssociates(4, cfg.rows, cfg.cols);
  }

  /** The test of CheckLargeDrop, in terms of rows and series. */
  lemma NearWhenInSeries2(cfg: Config, base: int, x: int)
    requires ValidConfig(cfg) && x >= base
    requires var off := x - (base + ColOffset(cfg, (x - base) % cfg.cols)); Matrix(cfg) > 0 && (off < 0 || off / Matrix(cfg) <= 2)
    ensures Near(cfg, base, x)
  {
    var c := (x - base) % cfg.cols;
    var off := x - (base + ColOffset(cfg, c));
    MatrixPositive(cfg);
    RowOfMember(cfg, base, x, ColIx(cfg, base, x));
    if off >= 0 {
      var s := off / Matrix(cfg);
      DivBound(off, Matrix(cfg), 0);
      MulMonotone(s, 2, cfg.cols);
      MulMonotone(0, s, cfg.cols);
      MulMonotone(s, 2, cfg.rows);
      DivModUnique(c + s * cfg.cols, cfg.cols, s, c);
      StairRowBelow(cfg, c);
    }
  }

  lemma DropKeepsBounds(e: Env, v: View)
    requires Shape(e, v) && Bounded(e, v)
    requires |v.rowq| > e.cfg.rows && |v.colq| > e.cfg.cols && |v.cells| >= Matrix(e.cfg)
    ensures Shape(e, DropMatrix(e.cfg, v)) && Bounded(e, DropMatrix(e.cfg, v))
  {
    DropShape(e, v);
    var v' := DropMatrix(e.cfg, v);
    forall i {:trigger Pick(Vert, i)} | Pick(Vert, i) && 0 <= i < |v'.colq| && v'.colq[i].fec
      ensures LastRow(e.cfg, i) <= 4 * e.cfg.rows - 2
    {
      assert Pick(Vert, i + e.cfg.cols) && v'.colq[i] == v.colq[i + e.cfg.cols];
      DivModShift(i, e.cfg.cols, 1);
      assert (i / e.cfg.cols + 1) * e.cfg.rows == (i / e.cfg.cols) * e.cfg.rows + e.cfg.rows;
    }
  }

  // ---------- control packets meet the groups they were made for ----------

  lemma ShiftedByTurns(cfg: Config, k: Kind, base: int, turn: nat, i: nat)
    requires ValidConfig(cfg)
    ensures turn * PerMatrix(cfg, k) >= 0
    ensures BaseOf(cfg, k, base + turn * Matrix(cfg), i) == BaseOf(cfg, k, base, i + turn * PerMatrix(cfg, k))
  {
    MulMonotone(0, turn, PerMatrix(cfg, k));
    ShiftByMatrices(cfg, base, turn, i);
  }

  /** The group that the receiver finds for a sequence number is the group that the sender had it in. */
  lemma SameGroupAsSender(e: Env, v: View, k: Kind, x: int, i: nat, sent: nat)
    requires Shape(e, v) && IxOf(e.cfg, k, v.base, x) == i && x in MembersOf(e.cfg, k, e.isn, sent)
    ensures BaseOf(e.cfg, k, v.base, i) == BaseOf(e.cfg, k, e.isn, sent)
  {
    ShiftedByTurns(e.cfg, k, e.isn, v.turn, i);
    Partition(e.cfg, k, v.base, x, i);
    Partition(e.cfg, k, e.isn, x, sent);
    Partition(e.cfg, k, e.isn, x, i + v.turn * PerMatrix(e.cfg, k));
  }

  // ---------- the states between the steps of the decoder ----------

  /** Nothing is left to rebuild; the packets in `hp` and `vp` are marked but not yet folded into row and column. */
  ghost predicate Steady(e: Env, v: View, hp: set<int>, vp: set<int>) {
    Inv(e, v) && Covered(e, v, Horiz, hp) && Covered(e, v, Vert, vp) && Settled(e, v, Horiz, -1) && Bounded(e, v)
  }

  /** The same, except that group i of kind k may have something to rebuild. */
  ghost predicate Active(e: Env, v: View, k: Kind, i: nat, hp: set<int>, vp: set<int>) {
    Inv(e, v) && Covered(e, v, Horiz, hp) && Covered(e, v, Vert, vp) && Settled(e, v, k, i) && Bounded(e, v)
    && i < |Queue(v, k)|
  }

  /** Nothing to rebuild in the one group that was open. */
  lemma ActiveIsSteady(e: Env, v: View, k: Kind, i: nat, hp: set<int>, vp: set<int>)
    requires Active(e, v, k, i, hp, vp) && Done(e, v, k, i)
    ensures Steady(e, v, hp, vp)
  {
  }

  /** Group i has its control packet and lacks one packet, t. */
  ghost predicate Lacks(e: Env, v: View, k: Kind, i: nat, t: int)
    requires Shape(e, v) && i < |Queue(v, k)|
  {
    Queue(v, k)[i].fec && Queue(v, k)[i].collected == SizeOf(e.cfg, k) - 1
    && t in MembersOf(e.cfg, k, v.base, i) && !Marked(v, t)
  }

  /** Marking the packet that a group lacks completes the group. */
  lemma RebuiltIsActive(e: Env, v: View, k: Kind, i: nat, t: int, vp: set<int>)
    requires Active(e, v, k, i, {}, vp) && Lacks(e, v, k, i, t)
    ensures t >= v.base && IxOf(e.cfg, k, v.base, t) == i
    ensures Active(e, Mark(v, t), k, i, {t}, vp + {t}) && AllMarked(e, Mark(v, t), k, i)
  {
    RebuiltIsGenuine(e, v, k, i, t);
    MemberAtOrAfterBase(e.cfg, k, v.base, i, t);
    var v' := Mark(v, t);
    Partition(e.cfg, k, v.base, t, i);
    RebuiltIsJustified(v, v', t, MembersOf(e.cfg, k, v.base, i));
    MarkKeeps(e, v, t, v', {}, vp, k, i);
    assert {} + {t} == {t};
    forall x | x in MembersOf(e.cfg, k, v.base, i) ensures Marked(v', x) {
      MarkMarks(v, t, x);
    }
  }

  /** A rebuilt packet has been marked: its group is complete, and only its other group has to take it. */
  lemma RebuiltIsSteady(e: Env, v: View, k: Kind, i: nat, t: int, vp: set<int>)
    requires Active(e, v, k, i, {t}, vp + {t}) && Queue(v, k)[i].fec && AllMarked(e, v, k, i)
    requires IxOf(e.cfg, k, v.base, t) == i && t !in vp
    ensures Steady(e, v, if k.Vert? then {t} else {}, if k.Horiz? then vp + {t} else vp)
  {
    assert {} + {t} == {t};
    RebuiltHangs(e, v, k, i, t, if k.Horiz? then {} else vp);
    ActiveIsSteady(e, v, k, i, if k.Vert? then {t} else {}, if k.Horiz? then vp + {t} else vp);
  }

  lemma SteadyIsActive(e: Env, v: View, k: Kind, i: nat, hp: set<int>, vp: set<int>)
    requires Steady(e, v, hp, vp) && i < |Queue(v, k)|
    ensures Active(e, v, k, i, hp, vp)
  {
  }

  /** What is pending has been marked, unless the window has moved past it. */
  ghost predicate PendingIsMarked(v: View, p: set<int>) {
    forall x :: x in p ==> Marked(v, x) || x < v.base
  }

  /** A pending packet finds room in its group: the test "collected > size - 1" never holds. */
  lemma PendingFindsRoom(e: Env, v: View, k: Kind, i: nat, x: int, p: set<int>)
    requires Inv(e, v) && Covered(e, v, k, p) && x in p && Marked(v, x)
    requires IxOf(e.cfg, k, v.base, x) == i < |Queue(v, k)|
    ensures Queue(v, k)[i].collected <= SizeOf(e.cfg, k) - 1
  {
    assert Pick(k, i) && Pending(e, v, k, x);
    Partition(e.cfg, k, v.base, x, i);
    var members := MembersOf(e.cfg, k, v.base, i);
    SubsetSize(GotOf(v, k)[i], members - {x});
    MembersCount(BaseOf(e.cfg, k, v.base, i), StepOf(e.cfg, k), SizeOf(e.cfg, k));
  }

  /** Folding a pending packet into its group, from one steady state to the next active one. */
  lemma FoldIsActive(e: Env, v: View, k: Kind, i: nat, x: int, hp: set<int>, vp: set<int>)
    requires Steady(e, v, hp, vp) && Marked(v, x) && x in (if k.Horiz? then hp else vp)
    requires IxOf(e.cfg, k, v.base, x) == i < |Queue(v, k)|
    ensures Active(e, Folded(e, v, k, i, x), k, i, if k.Horiz? then hp - {x} else hp, if k.Vert? then vp - {x} else vp)
  {
    var p, p' := if k.Horiz? then hp else vp, if k.Horiz? then vp else hp;
    assert Settled(e, v, k, -1);
    FoldKeeps(e, v, k, i, x, p, p');
    var v' := Folded(e, v, k, i, x);
    forall j {:trigger Pick(Vert, j)} | Pick(Vert, j) && 0 <= j < |v'.colq| && v'.colq[j].fec
      ensures LastRow(e.cfg, j) <= 4 * e.cfg.rows - 2
    {
      assert v.colq[j].fec;
    }
  }

  /** The control packet of a group arrives, in a state in which nothing is pending. */
  lemma ControlIsActive(e: Env, v: View, k: Kind, i: nat)
    requires Steady(e, v, {}, {}) && i < |Queue(v, k)| && !Queue(v, k)[i].fec
    requires k.Vert? ==> LastRow(e.cfg, i) <= 4 * e.cfg.rows - 2
    ensures Active(e, WithControl(e, v, k, i), k, i, {}, {})
  {
    assert Settled(e, v, k, -1);
    ControlKeeps(e, v, k, i);
    var v' := WithControl(e, v, k, i);
    forall j {:trigger Pick(Vert, j)} | Pick(Vert, j) && 0 <= j < |v'.colq| && v'.colq[j].fec
      ensures LastRow(e.cfg, j) <= 4 * e.cfg.rows - 2
    {
      assert (k == Vert && j == i) || v.colq[j].fec;
    }
  }

  /** Only the dismissed flags of some groups differ: they play no role in decoding. */
  ghost predicate SameButDismissed(q: seq<Group>, q': seq<Group>) {
    |q| == |q'| && forall i :: 0 <= i < |q| ==> q'[i] == q[i].(dismissed := q'[i].dismissed)
  }

  lemma DismissedFlagsKeep(e: Env, v: View, v': View, hp: set<int>, vp: set<int>)
    requires Steady(e, v, hp, vp) && SameButDismissed(v.colq, v'.colq)
    requires v' == v.(colq := v'.colq, reported := v'.reported, missed := v'.missed)
    requires v.reported <= v'.reported && v.missed <= v'.missed && ReportedIsOver(e.cfg, v')
    requires forall i :: 0 <= i < |v'.colq| && v'.colq[i].dismissed && !v.colq[i].dismissed ==>
               Accounted(v', MembersOf(e.cfg, Vert, v.base, i))
    ensures Steady(e, v', hp, vp)
  {
    forall k, i {:trigger Pick(k, i)} | Pick(k, i) && 0 <= i < |Queue(v', k)|
      ensures GroupOK(e, v', k, i) && Done(e, v', k, i)
    {
      assert Pick(k, i) && GroupOK(e, v, k, i) && Done(e, v, k, i);
    }
    OtherKindCovers(e, v, v', Horiz, hp);
    forall x {:trigger Marked(v', x)} | Marked(v', x)
      ensures if x in vp then Pending(e, v', Vert, x) else Hangs(e, v', Vert, x)
    {
      assert Marked(v, x);
    }
    forall x {:trigger Marked(v', x)} ensures Marked(v', x) <==> x in v'.known && x >= v'.base {
      assert Marked(v', x) == Marked(v, x);
    }
    assert Justified(v') by {
      forall s: set<int> {:trigger Closed(s, v'.ctl)} | v'.received <= s && Closed(s, v'.ctl) ensures v'.known <= s {
        assert Closed(s, v.ctl);
      }
    }
    forall i {:trigger Pick(Vert, i)} | Pick(Vert, i) && 0 <= i < |v'.colq| && v'.colq[i].fec
      ensures LastRow(e.cfg, i) <= 4 * e.cfg.rows - 2
    {
      assert v.colq[i].fec;
    }
  }

  /** More cells, none of the new ones marked. */
  ghost predicate Grown(cells: seq<bool>, cells': seq<bool>) {
    cells <= cells' && forall j :: |cells| <= j < |cells'| ==> !cells'[j]
  }

  lemma GrownKeeps(e: Env, v: View, v': View, k: Kind, i: nat, hp: set<int>, vp: set<int>)
    requires Active(e, v, k, i, hp, vp) && v' == v.(cells := v'.cells) && Grown(v.cells, v'.cells)
    ensures Active(e, v', k, i, hp, vp) && forall x {:trigger Marked(v', x)} :: Marked(v', x) <==> Marked(v, x)
  {
    assert Shape(e, v') && KnownIsMarked(v') by {
      assert forall x {:trigger Marked(v', x)} :: Marked(v', x) <==> Marked(v, x);
    }
    forall j, m {:trigger Pick(j, m)} | Pick(j, m) && 0 <= m < |Queue(v', j)|
      ensures GroupOK(e, v', j, m)
    {
      assert Pick(j, m) && GroupOK(e, v, j, m);
    }
    forall j, m {:trigger Pick(j, m)} | Pick(j, m) && 0 <= m < |Queue(v', j)| && !(j == k && m == i)
      ensures Done(e, v', j, m)
    {
      assert Pick(j, m) && Done(e, v, j, m);
    }
    OtherKindCovers(e, v, v', Horiz, hp);
    OtherKindCovers(e, v, v', Vert, vp);
    forall s: set<int> {:trigger Closed(s, v'.ctl)} | v'.received <= s && Closed(s, v'.ctl) ensures v'.known <= s {
      assert Closed(s, v.ctl);
    }
  }

  // ---------- what it all means ----------

  /** Peeling is maximal: in a settled state no live group that holds its control packet
      has exactly one unmarked member. */
  lemma PeelingIsMaximal(e: Env, v: View, k: Kind, i: nat, t: int)
    requires Inv(e, v) && Covered(e, v, k, {}) && Settled(e, v, Horiz, -1)
    requires i < |Queue(v, k)| && Queue(v, k)[i].fec && t in MembersOf(e.cfg, k, v.base, i) && !Marked(v, t)
    ensures exists u :: u in MembersOf(e.cfg, k, v.base, i) && u != t && !Marked(v, u)
  {
    var members := MembersOf(e.cfg, k, v.base, i);
    if forall u :: u in members && u != t ==> Marked(v, u) {
      assert Pick(k, i) && GroupOK(e, v, k, i) && Done(e, v, k, i);
      forall u | u in members - {t} ensures u in GotOf(v, k)[i] {
        Partition(e.cfg, k, v.base, u, i);
        assert Marked(v, u) && Hangs(e, v, k, u);
      }
      assert t !in GotOf(v, k)[i];
      assert GotOf(v, k)[i] == members - {t};
      MembersCount(BaseOf(e.cfg, k, v.base, i), StepOf(e.cfg, k), SizeOf(e.cfg, k));
      assert false;
    }
  }

  /** Every control packet that came belongs to a group that is in the window. */
  ghost predicate ControlsInWindow(e: Env, v: View)
    requires ValidConfig(e.cfg)
  {
    forall g :: g in v.ctl ==> InWindow(e, v, g)
  }

  ghost predicate InWindow(e: Env, v: View, g: set<int>)
    requires ValidConfig(e.cfg)
  {
    exists k, i {:trigger Pick(k, i)} :: Pick(k, i) && 0 <= i < |Queue(v, k)| && Queue(v, k)[i].fec && g == MembersOf(e.cfg, k, v.base, i)
  }

  /** A decoder that has nothing left to rebuild knows all that peeling yields. */
  lemma PeeledIsClosed(e: Env, v: View)
    requires Steady(e, v, {}, {}) && ControlsInWindow(e, v)
    ensures Closed(v.known, v.ctl)
  {
    forall g, t | g in v.ctl && t in g && g - {t} <= v.known ensures t in v.known {
      assert InWindow(e, v, g);
      var k, i :| Pick(k, i) && 0 <= i < |Queue(v, k)| && Queue(v, k)[i].fec && g == MembersOf(e.cfg, k, v.base, i);
      if !Marked(v, t) {
        PeelingIsMaximal(e, v, k, i, t);
        var u :| u in g && u != t && !Marked(v, u);
        Partition(e.cfg, k, v.base, u, i);
        MemberAtOrAfterBase(e.cfg, k, v.base, i, u);
      }
    }
  }

  /** Two decoders that were given the same data packets and the same control packets, all still in their windows, and that
      both have nothing left to rebuild, know the same packets, whatever the order of arrival was. */
  lemma OrderDoesNotMatter(e: Env, v: View, w: View)
    requires Steady(e, v, {}, {}) && Steady(e, w, {}, {}) && ControlsInWindow(e, v) && ControlsInWindow(e, w)
    requires v.received == w.received && v.ctl == w.ctl && v.received <= v.known && w.received <= w.known
    ensures v.known == w.known
  {
    PeeledIsClosed(e, v);
    PeeledIsClosed(e, w);
    assert v.known <= w.known;
    assert w.known <= v.known by { assert Closed(v.known, w.ctl); }
  }
}
