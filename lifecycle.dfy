/** Attaching and detaching the device: the resources probe acquires one after another, the
    goto-unwind that gives them back when a step fails, and the teardown of remove. Held
    resources form a stack; the log of acquisitions and releases is replayed against it. */
module Lifecycle {

  import opened Types
  import AsicDiag

  datatype Resource = PciEnabled | Regions | IoMap | EventFifo | IrqLine | DebugfsDir

  /** The order in which probe acquires resources. */
  const ACQUIRE_ORDER: seq<Resource> :=
    [PciEnabled, Regions, IoMap, EventFifo, IrqLine, DebugfsDir]

  datatype Action = Acquired(r: Resource) | Released(r: Resource)

  function Acquisitions(rs: seq<Resource>): (t: seq<Action>)
    ensures |t| == |rs|
    ensures forall i | 0 <= i < |rs| :: t[i] == Acquired(rs[i])
  {
    if rs == [] then [] else [Acquired(rs[0])] + Acquisitions(rs[1..])
  }

  function Releases(rs: seq<Resource>): (t: seq<Action>)
    ensures |t| == |rs|
    ensures forall i | 0 <= i < |rs| :: t[i] == Released(rs[i])
  {
    if rs == [] then [] else [Released(rs[0])] + Releases(rs[1..])
  }

  function Reverse(rs: seq<Resource>): (r: seq<Resource>)
    ensures |r| == |rs|
    ensures forall i | 0 <= i < |rs| :: r[i] == rs[|rs| - 1 - i]
  {
    if rs == [] then [] else Reverse(rs[1..]) + [rs[0]]
  }

  /** Reversing a sequence with one more element at the end puts that element first. */
  lemma ReverseSnoc(front: seq<Resource>, last: Resource)
    ensures Reverse(front + [last]) == [last] + Reverse(front)
  {
    var r := Reverse(front + [last]);
    assert forall i | 0 <= i < |r| :: r[i] == ([last] + Reverse(front))[i];
  }

  /** The releases of the first k resources in reverse order: the k-th first, then the rest. */
  lemma ReleasesOfPrefix(k: nat)
    requires 1 <= k <= |ACQUIRE_ORDER|
    ensures ACQUIRE_ORDER[..k] == ACQUIRE_ORDER[..k - 1] + [ACQUIRE_ORDER[k - 1]]
    ensures Releases(Reverse(ACQUIRE_ORDER[..k]))
            == [Released(ACQUIRE_ORDER[k - 1])] + Releases(Reverse(ACQUIRE_ORDER[..k - 1]))
  {
    assert ACQUIRE_ORDER[..k] == ACQUIRE_ORDER[..k - 1] + [ACQUIRE_ORDER[k - 1]];
    ReverseSnoc(ACQUIRE_ORDER[..k - 1], ACQUIRE_ORDER[k - 1]);
    var rs := [ACQUIRE_ORDER[k - 1]] + Reverse(ACQUIRE_ORDER[..k - 1]);
    assert rs[0] == ACQUIRE_ORDER[k - 1] && rs[1..] == Reverse(ACQUIRE_ORDER[..k - 1]);
  }

  /** One action against the stack of held resources: acquiring something already held, or
      releasing anything but the most recently acquired resource, is a fault. */
  function Step(held: seq<Resource>, a: Action): (next: Option<seq<Resource>>)
  {
    match a
    case Acquired(r) => if r in held then None else Some(held + [r])
    case Released(r) =>
      if held != [] && held[|held| - 1] == r then Some(held[..|held| - 1]) else None
  }

  /** The resources held after a log of actions, or None when the log breaks the discipline. */
  function Replay(held: seq<Resource>, trace: seq<Action>): (final: Option<seq<Resource>>)
    decreases |trace|
  {
    if trace == [] then Some(held)
    else match Step(held, trace[0])
      case None => None
      case Some(h) => Replay(h, trace[1..])
  }

  /** Replaying two logs one after the other is replaying their concatenation. */
  lemma {:induction false} ReplayAppend(held: seq<Resource>, t: seq<Action>, u: seq<Action>)
    ensures Replay(held, t + u) ==
            match Replay(held, t) case None => None case Some(h) => Replay(h, u)
    decreases |t|
  {
    if t == [] {
      assert t + u == u;
    } else {
      assert (t + u)[0] == t[0];
      assert (t + u)[1..] == t[1..] + u;
      match Step(held, t[0])
      case None =>
      case Some(h) => ReplayAppend(h, t[1..], u);
    }
  }

  lemma ReplayOne(held: seq<Resource>, t: seq<Action>, a: Action)
    ensures Replay(held, t + [a]) ==
            match Replay(held, t) case None => None case Some(h) => Step(h, a)
  {
    ReplayAppend(held, t, [a]);
    match Replay(held, t)
    case None =>
    case Some(h) => assert Replay(h, [a]) == Step(h, a) by {
      assert [a][1..] == [];
    }
  }

  predicate Distinct(rs: seq<Resource>) {
    forall i, j | 0 <= i < j < |rs| :: rs[i] != rs[j]
  }

  /** Acquiring fresh resources pushes them in order. */
  lemma {:induction false} AcquireAll(held: seq<Resource>, rs: seq<Resource>)
    requires Distinct(held + rs)
    ensures Replay(held, Acquisitions(rs)) == Some(held + rs)
    decreases |rs|
  {
    if rs == [] {
      assert held + rs == held;
    } else {
      forall i | 0 <= i < |held|
        ensures held[i] != rs[0]
      {
        assert (held + rs)[i] == held[i] && (held + rs)[|held|] == rs[0];
      }
      assert (held + [rs[0]]) + rs[1..] == held + rs;
      AcquireAll(held + [rs[0]], rs[1..]);
    }
  }

  /** Releasing in reverse order pops them all again. */
  lemma {:induction false} ReleaseAll(held: seq<Resource>, rs: seq<Resource>)
    ensures Replay(held + rs, Releases(Reverse(rs))) == Some(held)
    decreases |rs|
  {
    if rs == [] {
      assert held + rs == held;
    } else {
      var last := rs[|rs| - 1];
      var front := rs[..|rs| - 1];
      assert rs == front + [last];
      assert Reverse(rs) == [last] + Reverse(front);
      assert Releases(Reverse(rs)) == [Released(last)] + Releases(Reverse(front));
      assert held + rs == (held + front) + [last];
      assert Step(held + rs, Released(last)) == Some(held + front);
      ReleaseAll(held, front);
    }
  }

  /** Acquiring resources and releasing them in reverse order leaves the stack as it was and
      respects the discipline at every step. */
  lemma Unwind(held: seq<Resource>, rs: seq<Resource>)
    requires Distinct(held + rs)
    ensures Replay(held, Acquisitions(rs) + Releases(Reverse(rs))) == Some(held)
  {
    ReplayAppend(held, Acquisitions(rs), Releases(Reverse(rs)));
    AcquireAll(held, rs);
    ReleaseAll(held, rs);
  }

  /** What the kernel calls made by probe return: allocating the device structure, enabling
      the device, reserving its regions, mapping its registers, allocating the FIFO, requesting
      the interrupt line, and creating the debugfs directory. A nonzero int is a failure. */
  datatype ProbeEnv = ProbeEnv(
    allocOk: bool, enableRet: int, regionsRet: int, iomapOk: bool,
    fifoRet: int, irqRet: int, debugfsOk: bool)

  /** How many resources probe acquires before its first failing step (6: none fails). */
  function Acquirable(env: ProbeEnv): (k: nat)
    ensures k <= |ACQUIRE_ORDER|
  {
    if env.enableRet != 0 then 0
    else if env.regionsRet != 0 then 1
    else if !env.iomapOk then 2
    else if env.fifoRet != 0 then 3
    else if env.irqRet != 0 then 4
    else if !env.debugfsOk then 5
    else 6
  }

  /** The value probe returns: zero exactly when every step succeeds, -ENOMEM when the
      allocation, the register mapping or the debugfs directory fails, and otherwise the
      failing call's own code. */
  function ProbeReturn(env: ProbeEnv): (ret: int)
    ensures ret == 0 <==> env.allocOk && Acquirable(env) == |ACQUIRE_ORDER|
    ensures !env.allocOk ==> ret == -ENOMEM
    ensures env.allocOk && Acquirable(env) == 2 ==> ret == -ENOMEM
    ensures env.allocOk && Acquirable(env) == 5 ==> ret == -ENOMEM
  {
    if !env.allocOk then -ENOMEM
    else match Acquirable(env)
      case 0 => env.enableRet
      case 1 => env.regionsRet
      case 2 => -ENOMEM
      case 3 => env.fifoRet
      case 4 => env.irqRet
      case 5 => -ENOMEM
      case _ => 0
  }

  /** The actions probe performs: the acquisitions that succeed and, after a failure, their
      releases in reverse order. */
  function ProbeTrace(env: ProbeEnv): (t: seq<Action>)
    ensures ProbeReturn(env) == 0 ==> t == Acquisitions(ACQUIRE_ORDER)
    ensures ProbeReturn(env) != 0 ==>
              |t| == 2 * (if env.allocOk then Acquirable(env) else 0)
              && forall i | 0 <= i < |t| / 2 ::
                   t[i] == Acquired(ACQUIRE_ORDER[i]) && t[|t| - 1 - i] == Released(ACQUIRE_ORDER[i])
  {
    if !env.allocOk then []
    else
      var acquired := ACQUIRE_ORDER[..Acquirable(env)];
      if |acquired| == |ACQUIRE_ORDER| then Acquisitions(acquired)
      else Acquisitions(acquired) + Releases(Reverse(acquired))
  }

  /** The actions remove performs. */
  function RemoveTrace(): (t: seq<Action>)
    ensures |t| == |ACQUIRE_ORDER|
    ensures forall i | 0 <= i < |t| :: t[i] == Released(ACQUIRE_ORDER[|ACQUIRE_ORDER| - 1 - i])
  {
    Releases(Reverse(ACQUIRE_ORDER))
  }

  /** The position of a resource in the acquisition order. */
  function Rank(r: Resource): (n: nat)
  {
    match r
    case PciEnabled => 0
    case Regions => 1
    case IoMap => 2
    case EventFifo => 3
    case IrqLine => 4
    case DebugfsDir => 5
  }

  lemma RankOfOrder(i: nat)
    requires i < |ACQUIRE_ORDER|
    ensures Rank(ACQUIRE_ORDER[i]) == i
  {
  }

  lemma DistinctPrefix(k: nat)
    requires k <= |ACQUIRE_ORDER|
    ensures Distinct([] + ACQUIRE_ORDER[..k])
  {
    var p := ACQUIRE_ORDER[..k];
    assert [] + p == p;
    forall i, j | 0 <= i < j < |p|
      ensures p[i] != p[j]
    {
      RankOfOrder(i);
      RankOfOrder(j);
    }
  }

  /** A successful probe holds every resource in acquisition order; a failed one holds none,
      having released each acquired resource, most recent first. */
  lemma ProbeBalanced(env: ProbeEnv)
    ensures ProbeReturn(env) == 0 ==> Replay([], ProbeTrace(env)) == Some(ACQUIRE_ORDER)
    ensures ProbeReturn(env) != 0 ==> Replay([], ProbeTrace(env)) == Some([])
  {
    if env.allocOk {
      var k := Acquirable(env);
      var acquired := ACQUIRE_ORDER[..k];
      DistinctPrefix(k);
      assert [] + acquired == acquired;
      if k == |ACQUIRE_ORDER| {
        AcquireAll([], acquired);
        assert acquired == ACQUIRE_ORDER;
      } else {
        Unwind([], acquired);
      }
    }
  }

  /** Remove gives back everything a successful probe acquired, most recent first. */
  lemma RemoveBalanced()
    ensures Replay(ACQUIRE_ORDER, RemoveTrace()) == Some([])
  {
    ReleaseAll([], ACQUIRE_ORDER);
    assert [] + ACQUIRE_ORDER == ACQUIRE_ORDER;
  }

  /** The interrupt handler may run while the IRQ line is requested, and it uses the FIFO. */
  predicate IrqNeedsFifo(held: seq<Resource>) {
    IrqLine in held ==> EventFifo in held
  }

  /** At every point of the log the FIFO is held whenever the IRQ line is. */
  predicate IrqCoveredThroughout(held: seq<Resource>, trace: seq<Action>)
    decreases |trace|
  {
    IrqNeedsFifo(held) &&
    (trace != [] ==>
      match Step(held, trace[0])
      case None => false
      case Some(h) => IrqCoveredThroughout(h, trace[1..]))
  }

  /** Every prefix of the acquisition order holds the FIFO whenever it holds the IRQ line. */
  lemma PrefixCovered(k: nat)
    requires k <= |ACQUIRE_ORDER|
    ensures IrqNeedsFifo(ACQUIRE_ORDER[..k])
  {
    if IrqLine in ACQUIRE_ORDER[..k] {
      assert k > 4 by {
        var i :| 0 <= i < k && ACQUIRE_ORDER[..k][i] == IrqLine;
      }
      assert ACQUIRE_ORDER[..k][3] == EventFifo;
    }
  }

  lemma {:induction false} CoveredAppend(held: seq<Resource>, t: seq<Action>, u: seq<Action>, mid: seq<Resource>)
    requires IrqCoveredThroughout(held, t)
    requires Replay(held, t) == Some(mid)
    requires IrqCoveredThroughout(mid, u)
    ensures IrqCoveredThroughout(held, t + u)
    decreases |t|
  {
    if t == [] {
      assert t + u == u;
    } else {
      assert (t + u)[0] == t[0];
      assert (t + u)[1..] == t[1..] + u;
      var h :| Step(held, t[0]) == Some(h);
      CoveredAppend(h, t[1..], u, mid);
    }
  }

  /** Acquiring in order from any prefix never holds the IRQ line without the FIFO. */
  lemma {:induction false} CoveredAcquisitions(j: nat, k: nat)
    requires j <= k <= |ACQUIRE_ORDER|
    ensures IrqCoveredThroughout(ACQUIRE_ORDER[..j], Acquisitions(ACQUIRE_ORDER[j..k]))
    decreases k - j
  {
    PrefixCovered(j);
    if j < k {
      var t := Acquisitions(ACQUIRE_ORDER[j..k]);
      assert t[0] == Acquired(ACQUIRE_ORDER[j]);
      assert t[1..] == Acquisitions(ACQUIRE_ORDER[j + 1..k]);
      assert ACQUIRE_ORDER[j] !in ACQUIRE_ORDER[..j];
      assert ACQUIRE_ORDER[..j] + [ACQUIRE_ORDER[j]] == ACQUIRE_ORDER[..j + 1];
      CoveredAcquisitions(j + 1, k);
    }
  }

  /** Releasing a prefix most recent first never holds the IRQ line without the FIFO. */
  lemma {:induction false} CoveredReleases(k: nat)
    requires k <= |ACQUIRE_ORDER|
    ensures IrqCoveredThroughout(ACQUIRE_ORDER[..k], Releases(Reverse(ACQUIRE_ORDER[..k])))
  {
    PrefixCovered(k);
    if k > 0 {
      ReleasesOfPrefix(k);
      CoveredReleases(k - 1);
    }
  }

  /** Remove frees the IRQ line before the FIFO, so no interrupt can reach a freed FIFO. */
  lemma RemoveKeepsIrqCovered()
    ensures IrqCoveredThroughout(ACQUIRE_ORDER, RemoveTrace())
  {
    CoveredReleases(|ACQUIRE_ORDER|);
    assert ACQUIRE_ORDER[..|ACQUIRE_ORDER|] == ACQUIRE_ORDER;
  }

  /** Acquiring the first k resources and then releasing them, most recent first, never holds
      the IRQ line without the FIFO. */
  lemma UnwindCovered(k: nat)
    requires k <= |ACQUIRE_ORDER|
    ensures IrqCoveredThroughout([], Acquisitions(ACQUIRE_ORDER[..k]))
    ensures IrqCoveredThroughout([], Acquisitions(ACQUIRE_ORDER[..k]) + Releases(Reverse(ACQUIRE_ORDER[..k])))
  {
    var acquired := ACQUIRE_ORDER[..k];
    CoveredAcquisitions(0, k);
    assert ACQUIRE_ORDER[..0] == [] && ACQUIRE_ORDER[0..k] == acquired;
    DistinctPrefix(k);
    assert [] + acquired == acquired;
    AcquireAll([], acquired);
    CoveredReleases(k);
    CoveredAppend([], Acquisitions(acquired), Releases(Reverse(acquired)), acquired);
  }

  /** Neither the acquisitions of probe nor its unwinding ever hold the IRQ line without the
      FIFO. */
  lemma ProbeKeepsIrqCovered(env: ProbeEnv)
    ensures IrqCoveredThroughout([], ProbeTrace(env))
  {
    if !env.allocOk {
      PrefixCovered(0);
    } else {
      UnwindCovered(Acquirable(env));
    }
  }

  /** Acquiring the next resource in order extends the log of acquisitions by one. */
  lemma AcquireNext(t0: seq<Action>, k: nat)
    requires k < |ACQUIRE_ORDER|
    ensures ACQUIRE_ORDER[..k] + [ACQUIRE_ORDER[k]] == ACQUIRE_ORDER[..k + 1]
    ensures (t0 + Acquisitions(ACQUIRE_ORDER[..k])) + [Acquired(ACQUIRE_ORDER[k])]
            == t0 + Acquisitions(ACQUIRE_ORDER[..k + 1])
  {
    assert ACQUIRE_ORDER[..k] + [ACQUIRE_ORDER[k]] == ACQUIRE_ORDER[..k + 1];
    assert Acquisitions(ACQUIRE_ORDER[..k + 1])
        == Acquisitions(ACQUIRE_ORDER[..k]) + [Acquired(ACQUIRE_ORDER[k])];
  }

  /** The log of a probe that has acquired the first k resources and then fails. */
  lemma FailAt(t0: seq<Action>, env: ProbeEnv, k: nat)
    requires env.allocOk && Acquirable(env) == k < |ACQUIRE_ORDER|
    ensures (t0 + Acquisitions(ACQUIRE_ORDER[..k])) + Releases(Reverse(ACQUIRE_ORDER[..k]))
            == t0 + ProbeTrace(env)
  {
  }

  /** Releasing the most recent of the first k resources leaves the releases of the rest. */
  lemma ReleaseTop(t0: seq<Action>, k: nat)
    requires 1 <= k <= |ACQUIRE_ORDER|
    ensures ACQUIRE_ORDER[..k][k - 1] == ACQUIRE_ORDER[k - 1]
    ensures ACQUIRE_ORDER[..k][..k - 1] == ACQUIRE_ORDER[..k - 1]
    ensures (t0 + [Released(ACQUIRE_ORDER[k - 1])]) + Releases(Reverse(ACQUIRE_ORDER[..k - 1]))
            == t0 + Releases(Reverse(ACQUIRE_ORDER[..k]))
  {
    ReleasesOfPrefix(k);
  }

  /** The bus-side record of one PCI device: the resources the driver holds on it and the log
      of every acquisition and release. */
  class PciDev {
    var held: seq<Resource>
    var trace: seq<Action>

    ghost predicate Valid()
      reads this
    {
      Replay([], trace) == Some(held)
    }

    constructor ()
      ensures Valid() && held == [] && trace == []
    {
      held := [];
      trace := [];
    }

    method Acquire(r: Resource)
      requires Valid() && r !in held
      modifies this
      ensures Valid()
      ensures held == old(held) + [r] && trace == old(trace) + [Acquired(r)]
    {
      ReplayOne([], trace, Acquired(r));
      held := held + [r];
      trace := trace + [Acquired(r)];
    }

    /** Only the most recently acquired resource that is still held may be released. */
    method Release(r: Resource)
      requires Valid() && held != [] && held[|held| - 1] == r
      modifies this
      ensures Valid()
      ensures held == old(held)[..|old(held)| - 1] && trace == old(trace) + [Released(r)]
    {
      ReplayOne([], trace, Released(r));
      held := held[..|held| - 1];
      trace := trace + [Released(r)];
    }

    /** asic_diag_probe. The register window is what pci_iomap maps. */
    method Probe(env: ProbeEnv, window: map<nat, U32>) returns (ret: int, dev: AsicDiag.Device?)
      requires Valid() && held == []
      modifies this
      ensures Valid()
      ensures ret == ProbeReturn(env)
      ensures trace == old(trace) + ProbeTrace(env)
      ensures held == if ret == 0 then ACQUIRE_ORDER else []
      ensures (dev != null) == (ret == 0)
      ensures dev != null ==>
                fresh(dev) && dev.Valid() && dev.regs == window && dev.fifo == [] && !dev.isOpen
    {
      if !env.allocOk {
        return -ENOMEM, null;
      }
      ghost var t0 := trace;
      assert ACQUIRE_ORDER[..0] == [];
      ret := env.enableRet;
      if ret != 0 {
        return ret, null;
      }
      AcquireNext(t0, 0);
      Acquire(PciEnabled);
      ret := MapRegisters(env, t0);
      if ret != 0 {
        return ret, null;
      }
      dev := new AsicDiag.Device(window);
    }

    /** asic_diag_probe once the device is enabled: its regions and its register mapping,
        then the rest of probe. */
    method MapRegisters(env: ProbeEnv, ghost t0: seq<Action>) returns (ret: int)
      requires Valid() && env.allocOk && Acquirable(env) >= 1
      requires held == ACQUIRE_ORDER[..1] && trace == t0 + Acquisitions(ACQUIRE_ORDER[..1])
      modifies this
      ensures Valid()
      ensures ret == ProbeReturn(env)
      ensures trace == t0 + ProbeTrace(env)
      ensures held == if ret == 0 then ACQUIRE_ORDER else []
    {
      ret := env.regionsRet;
      if ret != 0 {
        ErrDisable();
        FailAt(t0, env, 1);
        return ret;
      }
      AcquireNext(t0, 1);
      Acquire(Regions);
      if !env.iomapOk {
        ErrRelease();
        FailAt(t0, env, 2);
        return -ENOMEM;
      }
      AcquireNext(t0, 2);
      Acquire(IoMap);
      ret := SetUpEvents(env, t0);
    }

    /** asic_diag_probe once the registers are mapped: the FIFO, the interrupt line and the
        debugfs directory, unwinding everything on failure. */
    method SetUpEvents(env: ProbeEnv, ghost t0: seq<Action>) returns (ret: int)
      requires Valid() && env.allocOk && Acquirable(env) >= 3
      requires held == ACQUIRE_ORDER[..3] && trace == t0 + Acquisitions(ACQUIRE_ORDER[..3])
      modifies this
      ensures Valid()
      ensures ret == ProbeReturn(env)
      ensures trace == t0 + ProbeTrace(env)
      ensures held == if ret == 0 then ACQUIRE_ORDER else []
    {
      ret := env.fifoRet;
      if ret != 0 {
        ErrUnmap();
        FailAt(t0, env, 3);
        return ret;
      }
      AcquireNext(t0, 3);
      Acquire(EventFifo);
      ret := env.irqRet;
      if ret != 0 {
        ErrFifo();
        FailAt(t0, env, 4);
        return ret;
      }
      AcquireNext(t0, 4);
      Acquire(IrqLine);
      if !env.debugfsOk {
        ErrIrq();
        FailAt(t0, env, 5);
        return -ENOMEM;
      }
      AcquireNext(t0, 5);
      Acquire(DebugfsDir);
      assert ACQUIRE_ORDER[..6] == ACQUIRE_ORDER;
      return 0;
    }

    // The error labels of probe. Each releases one resource and falls through to the next.

    /** err_irq: free_irq. */
    method ErrIrq()
      requires Valid() && held == ACQUIRE_ORDER[..5]
      modifies this
      ensures Valid() && held == []
      ensures trace == old(trace) + Releases(Reverse(ACQUIRE_ORDER[..5]))
    {
      ReleaseTop(trace, 5);
      Release(IrqLine);
      ErrFifo();
    }

    /** err_fifo: kfifo_free. */
    method ErrFifo()
      requires Valid() && held == ACQUIRE_ORDER[..4]
      modifies this
      ensures Valid() && held == []
      ensures trace == old(trace) + Releases(Reverse(ACQUIRE_ORDER[..4]))
    {
      ReleaseTop(trace, 4);
      Release(EventFifo);
      ErrUnmap();
    }

    /** err_unmap: pci_iounmap. */
    method ErrUnmap()
      requires Valid() && held == ACQUIRE_ORDER[..3]
      modifies this
      ensures Valid() && held == []
      ensures trace == old(trace) + Releases(Reverse(ACQUIRE_ORDER[..3]))
    {
      ReleaseTop(trace, 3);
      Release(IoMap);
      ErrRelease();
    }

    /** err_release: pci_release_regions. */
    method ErrRelease()
      requires Valid() && held == ACQUIRE_ORDER[..2]
      modifies this
      ensures Valid() && held == []
      ensures trace == old(trace) + Releases(Reverse(ACQUIRE_ORDER[..2]))
    {
      ReleaseTop(trace, 2);
      Release(Regions);
      ErrDisable();
    }

    /** err_disable: pci_disable_device. */
    method ErrDisable()
      requires Valid() && held == ACQUIRE_ORDER[..1]
      modifies this
      ensures Valid() && held == []
      ensures trace == old(trace) + Releases(Reverse(ACQUIRE_ORDER[..1]))
    {
      ReleaseTop(trace, 1);
      Release(PciEnabled);
    }

    /** asic_diag_remove, after a successful probe. */
    method Remove()
      requires Valid() && held == ACQUIRE_ORDER
      modifies this
      ensures Valid() && held == []
      ensures trace == old(trace) + RemoveTrace()
    {
      assert ACQUIRE_ORDER[..6] == ACQUIRE_ORDER;
      ReleaseTop(trace, 6);
      Release(DebugfsDir);
      ReleaseTop(trace, 5);
      Release(IrqLine);
      ReleaseTop(trace, 4);
      Release(EventFifo);
      ReleaseTop(trace, 3);
      Release(IoMap);
      ReleaseTop(trace, 2);
      Release(Regions);
      ReleaseTop(trace, 1);
      Release(PciEnabled);
      assert ACQUIRE_ORDER[..0] == [];
    }
  }
}
