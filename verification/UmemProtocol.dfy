/** The life of the packet frames as a step system of the receive loop and the kernel. */
module UmemProtocol {
  import EchoReply

  const NUM_FRAMES: nat := 4096
  const FRAME_SIZE: nat := 4096
  const RX_BATCH_SIZE: nat := 64
  const FILL_SIZE: nat := 2048
  const RX_SIZE: nat := 2048
  const INVALID_UMEM_FRAME: nat := 0xFFFF_FFFF_FFFF_FFFF

  /** An RX descriptor; the address may point behind a headroom inside the frame. */
  datatype Desc = Desc(addr: nat, len: nat)

  /** A descriptor that was processed, and whether an echo reply went out for it. */
  datatype Handled = Handled(desc: Desc, sent: bool)

  /** Where handle_receive_packets stands between two ring operations. */
  datatype Pc =
    | Polling
    | Peeked(rcvd: nat)
    | Stocking(rcvd: nat, stock: nat)
    | Retrying(rcvd: nat, stock: nat, taken: nat)
    | Filling(rcvd: nat, stock: nat, filled: nat)
    | Processing(rcvd: nat, done: nat)
    | Completing
    | AssertFailed

  datatype Stats = Stats(rxPackets: nat, rxBytes: nat, txPackets: nat, txBytes: nat)

  datatype State = State(
    /** umem_frame_addr[..umem_frame_free]. */
    stack: seq<nat>,
    /** Submitted fill ring entries the kernel has not taken. */
    fill: seq<nat>,
    /** Fill ring entries written after a reserve and not submitted yet. */
    written: seq<nat>,
    /** Frames the kernel holds. */
    kernel: seq<nat>,
    /** The RX ring up to the consumer's release. */
    rx: seq<Desc>,
    /** Frames queued for transmission or in the completion ring. */
    tx: seq<nat>,
    /** Free fill ring slots the user side knows of; the kernel may have freed more. */
    known: nat,
    outstanding: nat,
    pc: Pc,
    stats: Stats,
    log: seq<Handled>)

  datatype Action =
    | Peek(n: nat)
    | NbFree(v: nat)
    | Reserve(v: nat)
    | RetryReserve(v: nat)
    | WriteFill
    | Submit
    | Process(sent: bool)
    | Release
    | Complete(n: nat)
    | KernelTake
    | KernelDeliver(k: nat, offset: nat, len: nat)

  // ----- steps

  /** Fill ring slots that are reserved and not yet submitted. */
  function Reserved(s: State): nat {
    match s.pc
    case Filling(_, stock, _) => stock
    case Retrying(_, _, taken) => taken
    case _ => 0
  }

  function FreeSlots(s: State): int {
    FILL_SIZE - |s.fill| - Reserved(s)
  }

  /** The RX descriptors whose frames have not been given back yet. */
  function Unprocessed(s: State): seq<Desc> {
    match s.pc
    case Processing(_, done) => if done <= |s.rx| then s.rx[done..] else []
    case _ => s.rx
  }

  /** A ring query for `nb` slots answers from the cached number if that suffices;
      else it refreshes, perhaps stalely. */
  predicate MayKnow(s: State, nb: nat, v: nat) {
    if s.known >= nb then v == s.known else s.known <= v <= FreeSlots(s)
  }

  predicate Enabled(s: State, a: Action) {
    match a
    case Peek(n) => s.pc.Polling? && n <= RX_BATCH_SIZE && n <= |s.rx|
    case NbFree(v) => s.pc.Peeked? && MayKnow(s, |s.stack|, v)
    case Reserve(v) => s.pc.Stocking? && MayKnow(s, s.pc.stock, v)
    case RetryReserve(v) => s.pc.Retrying? && MayKnow(s, s.pc.rcvd, v)
    case WriteFill => s.pc.Filling? && s.pc.filled < s.pc.stock
    case Submit => s.pc.Filling? && s.pc.filled == s.pc.stock
    case Process(_) => s.pc.Processing? && s.pc.done < s.pc.rcvd && s.pc.done < |s.rx|
    case Release => s.pc.Processing? && s.pc.done == s.pc.rcvd && s.pc.rcvd <= |s.rx|
    case Complete(n) => s.pc.Completing? && n <= |s.tx|
    case KernelTake => |s.fill| > 0 && |s.kernel| + |s.rx| < RX_SIZE
    case KernelDeliver(k, offset, len) =>
      k < |s.kernel| && |s.rx| < RX_SIZE && offset + EchoReply.HEADERS <= FRAME_SIZE && offset + len <= FRAME_SIZE
  }

  /** xsk_alloc_umem_frame. */
  function Pop(stack: seq<nat>): (nat, seq<nat>) {
    if |stack| == 0 then (INVALID_UMEM_FRAME, stack) else (stack[|stack| - 1], stack[..|stack| - 1])
  }

  function Count(st: Stats, d: Desc, sent: bool): Stats {
    st.(rxBytes := st.rxBytes + d.len,
        txPackets := st.txPackets + (if sent then 1 else 0),
        txBytes := st.txBytes + (if sent then d.len else 0))
  }

  function Do(s: State, a: Action): State
    requires Enabled(s, a)
  {
    match a
    case Peek(n) => if n == 0 then s else s.(pc := Peeked(n))
    case NbFree(v) => s.(known := v, pc := if v > 0 then Stocking(s.pc.rcvd, v) else Processing(s.pc.rcvd, 0))
    case Reserve(v) =>
      if v >= s.pc.stock then s.(known := v - s.pc.stock, pc := Filling(s.pc.rcvd, s.pc.stock, 0))
      else s.(known := v, pc := Retrying(s.pc.rcvd, s.pc.stock, 0))
    case RetryReserve(v) =>
      if v < s.pc.rcvd then s.(known := v)
      else if s.pc.rcvd == s.pc.stock then s.(known := v - s.pc.rcvd, pc := Filling(s.pc.rcvd, s.pc.stock, 0))
      else s.(known := v - s.pc.rcvd, pc := Retrying(s.pc.rcvd, s.pc.stock, s.pc.taken + s.pc.rcvd))
    case WriteFill =>
      var (frame, stack) := Pop(s.stack);
      s.(stack := stack, written := s.written + [frame], pc := Filling(s.pc.rcvd, s.pc.stock, s.pc.filled + 1))
    case Submit => s.(fill := s.fill + s.written, written := [], pc := Processing(s.pc.rcvd, 0))
    case Process(sent) =>
      if |s.stack| >= NUM_FRAMES then s.(pc := AssertFailed)
      else
        var d := s.rx[s.pc.done];
        s.(stack := s.stack + [d.addr], stats := Count(s.stats, d, sent), log := s.log + [Handled(d, sent)],
           pc := Processing(s.pc.rcvd, s.pc.done + 1))
    case Release =>
      s.(rx := s.rx[s.pc.rcvd..], stats := s.stats.(rxPackets := s.stats.rxPackets + s.pc.rcvd), pc := Completing)
    case Complete(n) =>
      if s.outstanding == 0 || n == 0 then s.(pc := Polling)
      else if |s.stack| + n > NUM_FRAMES then s.(pc := AssertFailed)
      else s.(stack := s.stack + s.tx[..n], tx := s.tx[n..], pc := Polling,
              outstanding := s.outstanding - if n < s.outstanding then n else s.outstanding)
    case KernelTake => s.(fill := s.fill[1..], kernel := s.kernel + [s.fill[0]])
    case KernelDeliver(k, offset, len) =>
      s.(kernel := s.kernel[..k] + s.kernel[k + 1..],
         rx := s.rx + [Desc(s.kernel[k] / FRAME_SIZE * FRAME_SIZE + offset, len)])
  }

  /** The addresses of the first `n` frames. */
  function Ascending(n: nat): (r: seq<nat>)
    ensures |r| == n
  {
    seq(n, i requires 0 <= i < n => i * FRAME_SIZE)
  }

  /** The addresses of the last `n` frames, last one first: the order in which they are popped. */
  function Descending(n: nat): (r: seq<nat>)
    requires n <= NUM_FRAMES
    ensures |r| == n
  {
    seq(n, i requires 0 <= i < n => (NUM_FRAMES - 1 - i) * FRAME_SIZE)
  }

  /** The state xsk_configure_socket leaves: half of the frames are on the fill ring. */
  function Initial(): State {
    State(Ascending(NUM_FRAMES - FILL_SIZE), Descending(FILL_SIZE), [], [], [], [], 0, 0, Polling,
          Stats(0, 0, 0, 0), [])
  }

  // ----- frames

  function FrameSeq(l: seq<nat>): seq<nat> {
    seq(|l|, i requires 0 <= i < |l| => l[i] / FRAME_SIZE)
  }

  function Addrs(l: seq<Desc>): seq<nat> {
    seq(|l|, i requires 0 <= i < |l| => l[i].addr)
  }

  /** The frames a list of addresses refers to. */
  function Frames(l: seq<nat>): multiset<nat> {
    multiset(FrameSeq(l))
  }

  function AllFrames(): multiset<nat> {
    multiset(Ids(NUM_FRAMES))
  }

  /** Every frame, with the number of places that hold it. */
  function Held(s: State): multiset<nat> {
    Frames(s.stack) + Frames(s.fill) + Frames(s.written) + Frames(s.kernel) + Frames(Addrs(Unprocessed(s)))
      + Frames(s.tx)
  }

  lemma FramesOfConcat(a: seq<nat>, b: seq<nat>)
    ensures Frames(a + b) == Frames(a) + Frames(b)
  {
    assert FrameSeq(a + b) == FrameSeq(a) + FrameSeq(b);
  }

  lemma FramesOfOne(x: nat)
    ensures Frames([x]) == multiset{x / FRAME_SIZE}
  {
    assert FrameSeq([x]) == [x / FRAME_SIZE];
  }

  lemma AddrsOfConcat(a: seq<Desc>, b: seq<Desc>)
    ensures Addrs(a + b) == Addrs(a) + Addrs(b)
  {
  }

  // ----- statistics

  function Bytes(log: seq<Handled>): nat {
    if log == [] then 0 else Bytes(log[..|log| - 1]) + log[|log| - 1].desc.len
  }

  function Sent(log: seq<Handled>): nat {
    if log == [] then 0 else Sent(log[..|log| - 1]) + if log[|log| - 1].sent then 1 else 0
  }

  function SentBytes(log: seq<Handled>): nat {
    if log == [] then 0 else SentBytes(log[..|log| - 1]) + if log[|log| - 1].sent then log[|log| - 1].desc.len else 0
  }

  /** Descriptors processed in the current batch and not released yet. */
  function InBatch(s: State): nat {
    match s.pc
    case Processing(_, done) => done
    case _ => 0
  }

  ghost predicate StatsInv(s: State) {
    && s.stats.rxPackets + InBatch(s) == |s.log|
    && s.stats.rxBytes == Bytes(s.log)
    && s.stats.txPackets == Sent(s.log)
    && s.stats.txBytes == SentBytes(s.log)
  }

  // ----- the invariant

  ghost predicate PcInv(s: State) {
    match s.pc
    case Polling => s.written == []
    case Peeked(r) => s.written == [] && 0 < r <= RX_BATCH_SIZE && r <= |s.rx|
    case Stocking(r, stock) =>
      s.written == [] && 0 < r <= RX_BATCH_SIZE && r <= |s.rx| && 0 < stock <= s.known && stock <= |s.stack|
    case Retrying(_, _, _) => false
    case Filling(r, stock, filled) =>
      && 0 < r <= RX_BATCH_SIZE && r <= |s.rx|
      && |s.written| == filled <= stock && stock - filled <= |s.stack|
    case Processing(r, done) => s.written == [] && done <= r <= RX_BATCH_SIZE && r <= |s.rx|
    case Completing => s.written == []
    case AssertFailed => false
  }

  /** Every received packet lies inside its frame and leaves room for the headers. */
  ghost predicate RxFits(rx: seq<Desc>) {
    forall i :: 0 <= i < |rx| ==>
      && rx[i].addr % FRAME_SIZE + EchoReply.HEADERS <= FRAME_SIZE
      && rx[i].addr % FRAME_SIZE + rx[i].len <= FRAME_SIZE
  }

  /** Everything but the partition: ring bounds, the progress of the loop, the counters. */
  ghost predicate Shape(s: State) {
    && s.tx == [] && s.outstanding == 0
    && s.known <= FreeSlots(s)
    && |s.kernel| + |s.rx| <= RX_SIZE
    && PcInv(s) && StatsInv(s) && RxFits(s.rx)
  }

  ghost predicate Inv(s: State) {
    Held(s) == AllFrames() && Shape(s)
  }

  /** All frames are somewhere, so the places together hold NUM_FRAMES entries. */
  lemma PlacesAddUp(s: State)
    requires Held(s) == AllFrames()
    ensures |s.stack| + |s.fill| + |s.written| + |s.kernel| + |Unprocessed(s)| + |s.tx| == NUM_FRAMES
  {
    assert |Held(s)| == |AllFrames()|;
  }

  function Ids(n: nat): seq<nat> {
    seq(n, i requires 0 <= i < n => i)
  }

  /** Moving `n` frames from the full stack to the fill ring one by one loses none. */
  lemma {:induction false} PoppedFrames(n: nat)
    requires n <= NUM_FRAMES
    ensures Frames(Ascending(NUM_FRAMES - n)) + Frames(Descending(n)) == AllFrames()
  {
    if n == 0 {
      assert FrameSeq(Ascending(NUM_FRAMES)) == Ids(NUM_FRAMES);
      assert FrameSeq(Descending(0)) == [];
    } else {
      PoppedFrames(n - 1);
      var x := (NUM_FRAMES - n) * FRAME_SIZE;
      assert Ascending(NUM_FRAMES - (n - 1)) == Ascending(NUM_FRAMES - n) + [x];
      assert Descending(n) == Descending(n - 1) + [x];
      FramesOfConcat(Ascending(NUM_FRAMES - n), [x]);
      FramesOfConcat(Descending(n - 1), [x]);
    }
  }

  lemma InitialInv()
    ensures Inv(Initial())
  {
    hide Ascending, Descending;
    PoppedFrames(FILL_SIZE);
    assert Frames([]) == multiset{};
    assert Addrs([]) == [];
  }

  lemma {:induction false} IdsOnce(n: nat, f: nat)
    ensures multiset(Ids(n))[f] == if f < n then 1 else 0
  {
    if n > 0 {
      IdsOnce(n - 1, f);
      assert Ids(n) == Ids(n - 1) + [n - 1];
    }
  }

  // ----- every step keeps the invariant

  lemma OneFewerDescriptor(d: Desc, l: seq<Desc>)
    ensures Frames(Addrs([d] + l)) == multiset{d.addr / FRAME_SIZE} + Frames(Addrs(l))
  {
    AddrsOfConcat([d], l);
    assert Addrs([d]) == [d.addr];
    FramesOfConcat([d.addr], Addrs(l));
    FramesOfOne(d.addr);
  }

  lemma StatsAfterProcess(s: State, d: Desc, sent: bool)
    requires StatsInv(s) && s.pc.Processing?
    ensures var log := s.log + [Handled(d, sent)];
            StatsInv(s.(stats := Count(s.stats, d, sent), log := log, pc := Processing(s.pc.rcvd, s.pc.done + 1)))
  {
    var log := s.log + [Handled(d, sent)];
    assert log[..|s.log|] == s.log;
  }

  lemma SameStats(s: State, s': State)
    requires StatsInv(s) && s'.stats == s.stats && s'.log == s.log && InBatch(s') == InBatch(s)
    ensures StatsInv(s')
  {
  }

  /** Taking one address out of a list takes out its frame. */
  lemma FramesWithout(l: seq<nat>, k: nat)
    requires k < |l|
    ensures Frames(l) == Frames(l[..k] + l[k + 1..]) + multiset{l[k] / FRAME_SIZE}
  {
    hide Frames;
    assert l == l[..k] + ([l[k]] + l[k + 1..]);
    FramesOfConcat(l[..k], [l[k]] + l[k + 1..]);
    FramesOfConcat([l[k]], l[k + 1..]);
    FramesOfConcat(l[..k], l[k + 1..]);
    FramesOfOne(l[k]);
  }

  lemma OneMoreDescriptor(l: seq<Desc>, d: Desc)
    ensures Frames(Addrs(l + [d])) == Frames(Addrs(l)) + multiset{d.addr / FRAME_SIZE}
  {
    AddrsOfConcat(l, [d]);
    assert Addrs([d]) == [d.addr];
    FramesOfConcat(Addrs(l), [d.addr]);
    FramesOfOne(d.addr);
  }

  /** An address inside a frame names that frame, whatever the headroom. */
  lemma SameFrame(x: nat, offset: nat)
    requires offset < FRAME_SIZE
    ensures (x / FRAME_SIZE * FRAME_SIZE + offset) / FRAME_SIZE == x / FRAME_SIZE
  {
  }

  lemma NbFreeKeeps(s: State, v: nat)
    requires Inv(s) && Enabled(s, NbFree(v))
    ensures Inv(Do(s, NbFree(v)))
    ensures v <= |s.stack|
  {
    hide Frames;
    PlacesAddUp(s);
    assert s.rx[0..] == s.rx;
  }

  lemma WriteFillHeld(s: State)
    requires Shape(s) && Enabled(s, WriteFill)
    ensures Held(Do(s, WriteFill)) == Held(s)
  {
    hide Frames, Addrs, StatsInv;
    var n := |s.stack| - 1;
    FramesWithout(s.stack, n);
    assert s.stack[..n] + s.stack[n + 1..] == s.stack[..n];
    FramesOfConcat(s.written, [s.stack[n]]);
    FramesOfOne(s.stack[n]);
  }

  lemma SubmitHeld(s: State)
    requires Shape(s) && Enabled(s, Submit)
    ensures Held(Do(s, Submit)) == Held(s)
  {
    FramesOfConcat(s.fill, s.written);
    hide Frames, Addrs, StatsInv;
    FramesOfNone();
    assert s.rx[0..] == s.rx;
  }

  lemma FramesOfNone()
    ensures Frames([]) == multiset{}
  {
  }

  /** What processing the next descriptor does to the state. */
  lemma ProcessStep(s: State)
    requires s.pc.Processing? && s.pc.done < s.pc.rcvd && s.pc.done < |s.rx| && |s.stack| < NUM_FRAMES
    ensures forall sent :: Enabled(s, Process(sent)) && Do(s, Process(sent)) ==
              var d := s.rx[s.pc.done];
              s.(stack := s.stack + [d.addr], stats := Count(s.stats, d, sent), log := s.log + [Handled(d, sent)],
                 pc := Processing(s.pc.rcvd, s.pc.done + 1))
  {
  }

  lemma ProcessHeld(s: State, sent: bool)
    requires Shape(s) && Enabled(s, Process(sent)) && |s.stack| < NUM_FRAMES
    ensures Held(Do(s, Process(sent))) == Held(s)
  {
    hide Frames, Addrs, StatsInv;
    var d, rest := s.rx[s.pc.done], s.rx[s.pc.done + 1..];
    assert Unprocessed(s) == [d] + rest;
    OneFewerDescriptor(d, rest);
    FramesOfConcat(s.stack, [d.addr]);
    FramesOfOne(d.addr);
    assert Unprocessed(Do(s, Process(sent))) == rest;
  }

  lemma ProcessShape(s: State, sent: bool)
    requires Shape(s) && Enabled(s, Process(sent)) && |s.stack| < NUM_FRAMES
    ensures Shape(Do(s, Process(sent)))
  {
    hide StatsInv;
    StatsAfterProcess(s, s.rx[s.pc.done], sent);
    var s' := Do(s, Process(sent));
    var t := s.(stats := s'.stats, log := s'.log, pc := s'.pc);
    assert StatsInv(t);
    SameStats(t, s');
  }

  lemma ProcessKeeps(s: State, sent: bool)
    requires Inv(s) && Enabled(s, Process(sent))
    ensures Inv(Do(s, Process(sent)))
    ensures |s.stack| < NUM_FRAMES
  {
    PlacesAddUp(s);
    hide Held, StatsInv;
    ProcessHeld(s, sent);
    ProcessShape(s, sent);
  }

  lemma KernelTakeHeld(s: State)
    requires Enabled(s, KernelTake)
    ensures Held(Do(s, KernelTake)) == Held(s)
  {
    hide Frames, Addrs;
    FramesWithout(s.fill, 0);
    assert s.fill[..0] + s.fill[1..] == s.fill[1..];
    FramesOfConcat(s.kernel, [s.fill[0]]);
    FramesOfOne(s.fill[0]);
  }

  lemma KernelTakeShape(s: State)
    requires Shape(s) && Enabled(s, KernelTake)
    ensures Shape(Do(s, KernelTake))
  {
    hide StatsInv;
    SameStats(s, Do(s, KernelTake));
  }

  lemma KernelDeliverHeld(s: State, k: nat, offset: nat, len: nat)
    requires Enabled(s, KernelDeliver(k, offset, len)) && (s.pc.Processing? ==> s.pc.done <= |s.rx|)
    ensures Held(Do(s, KernelDeliver(k, offset, len))) == Held(s)
  {
    hide Frames, Addrs;
    var d := Desc(s.kernel[k] / FRAME_SIZE * FRAME_SIZE + offset, len);
    FramesWithout(s.kernel, k);
    assert Unprocessed(Do(s, KernelDeliver(k, offset, len))) == Unprocessed(s) + [d];
    OneMoreDescriptor(Unprocessed(s), d);
    SameFrame(s.kernel[k], offset);
  }

  lemma KernelDeliverShape(s: State, k: nat, offset: nat, len: nat)
    requires Shape(s) && Enabled(s, KernelDeliver(k, offset, len))
    ensures Shape(Do(s, KernelDeliver(k, offset, len)))
  {
    hide StatsInv;
    SameStats(s, Do(s, KernelDeliver(k, offset, len)));
    OffsetInFrame(s.kernel[k], offset);
  }

  lemma OffsetInFrame(x: nat, offset: nat)
    requires offset < FRAME_SIZE
    ensures (x / FRAME_SIZE * FRAME_SIZE + offset) % FRAME_SIZE == offset
  {
  }

  lemma OtherStepsKeep(s: State, a: Action)
    requires Inv(s) && Enabled(s, a) && (a.Peek? || a.Reserve? || a.RetryReserve? || a.Release? || a.Complete?)
    ensures Inv(Do(s, a))
  {
    hide Frames, Addrs;
    if a.Release? {
      assert s.rx[s.pc.rcvd..] == Unprocessed(s);
    }
  }

  lemma StepKeepsInv(s: State, a: Action)
    requires Inv(s) && Enabled(s, a)
    ensures Inv(Do(s, a))
  {
    hide Held, Shape;
    match a
    case NbFree(v) => NbFreeKeeps(s, v);
    case WriteFill =>
      WriteFillHeld(s);
      WriteFillShape(s);
    case Submit =>
      SubmitHeld(s);
      SubmitShape(s);
    case Process(sent) => ProcessKeeps(s, sent);
    case KernelTake =>
      KernelTakeHeld(s);
      KernelTakeShape(s);
    case KernelDeliver(k, offset, len) =>
      ShapeOfPc(s);
      KernelDeliverHeld(s, k, offset, len);
      KernelDeliverShape(s, k, offset, len);
    case _ => OtherStepsKeep(s, a);
  }

  lemma ShapeOfPc(s: State)
    requires Shape(s)
    ensures s.pc.Processing? ==> s.pc.done <= |s.rx|
  {
  }

  lemma WriteFillShape(s: State)
    requires Shape(s) && Enabled(s, WriteFill)
    ensures Shape(Do(s, WriteFill))
  {
  }

  lemma SubmitShape(s: State)
    requires Shape(s) && Enabled(s, Submit)
    ensures Shape(Do(s, Submit))
  {
  }

  /** What the user side can notice of kernel steps: the fill ring drains and the RX ring grows at its end. */
  ghost predicate KernelOnly(was: State, now: State) {
    now == was.(fill := now.fill, kernel := now.kernel, rx := now.rx) && was.rx <= now.rx
  }

  lemma KnownBound(s: State)
    requires Inv(s)
    ensures s.known <= FreeSlots(s)
    ensures s.pc.Stocking? ==> s.pc.stock <= s.known
  {
  }

  lemma BatchIsThere(s: State)
    requires Inv(s) && s.pc.Processing?
    ensures s.pc.rcvd <= |s.rx|
  {
  }

  lemma NothingOutstanding(s: State)
    requires Inv(s)
    ensures s.tx == [] && s.outstanding == 0 && |s.stack| <= NUM_FRAMES
  {
    PlacesAddUp(s);
  }

  /** The headers of a received packet lie inside the packet memory. */
  lemma DescriptorFits(s: State, i: nat)
    requires Inv(s) && s.pc.Processing? && s.pc.done == i < s.pc.rcvd
    ensures i < |s.rx| && |s.stack| < NUM_FRAMES
    ensures s.rx[i].addr + EchoReply.HEADERS <= NUM_FRAMES * FRAME_SIZE
  {
    PlacesAddUp(s);
    var d := s.rx[i];
    assert Addrs(Unprocessed(s))[0] == d.addr;
    FrameOfMember(Addrs(Unprocessed(s)), d.addr);
    assert d.addr / FRAME_SIZE in Held(s);
    EveryFrameOnce(d.addr / FRAME_SIZE);
  }

  /** Frames the kernel holds are frames of the packet memory. */
  lemma KernelFrame(s: State, k: nat)
    requires Inv(s) && k < |s.kernel|
    ensures s.kernel[k] / FRAME_SIZE < NUM_FRAMES
  {
    FrameOfMember(s.kernel, s.kernel[k]);
    assert s.kernel[k] / FRAME_SIZE in Held(s);
    EveryFrameOnce(s.kernel[k] / FRAME_SIZE);
  }

  // ----- whole runs

  ghost predicate Runs(s: State, run: seq<Action>)
    decreases |run|
  {
    run == [] || (Enabled(s, run[0]) && Runs(Do(s, run[0]), run[1..]))
  }

  ghost function After(s: State, run: seq<Action>): State
    requires Runs(s, run)
    decreases |run|
  {
    if run == [] then s else After(Do(s, run[0]), run[1..])
  }

  lemma {:induction false} RunKeepsInv(s: State, run: seq<Action>)
    requires Inv(s) && Runs(s, run)
    ensures Inv(After(s, run))
    decreases |run|
  {
    if run != [] {
      StepKeepsInv(s, run[0]);
      RunKeepsInv(Do(s, run[0]), run[1..]);
    }
  }

  // ----- the program order of the user steps

  predicate IsKernel(a: Action) {
    a.KernelTake? || a.KernelDeliver?
  }

  /** The run with the kernel's steps left out. */
  function UserSteps(run: seq<Action>): seq<Action> {
    if run == [] then []
    else UserSteps(run[..|run| - 1]) + if IsKernel(run[|run| - 1]) then [] else [run[|run| - 1]]
  }

  lemma UserStepsExtend(run: seq<Action>, a: Action)
    ensures UserSteps(run + [a]) == UserSteps(run) + if IsKernel(a) then [] else [a]
  {
    assert (run + [a])[..|run|] == run;
  }

  /** One call of handle_receive_packets: what was received, refilled and sent. */
  datatype Batch = Batch(rcvd: nat, stock: nat, reserved: nat, sents: seq<bool>, completed: nat)

  function RefillSteps(b: Batch): seq<Action> {
    if b.stock == 0 then [] else [Reserve(b.reserved)] + FillSteps(b.stock) + [Submit]
  }

  function FillSteps(n: nat): seq<Action> {
    if n == 0 then [] else FillSteps(n - 1) + [WriteFill]
  }

  function ProcessSteps(sents: seq<bool>): seq<Action> {
    if sents == [] then [] else ProcessSteps(sents[..|sents| - 1]) + [Process(sents[|sents| - 1])]
  }

  /** The steps of one call, in program order: nothing but a peek when nothing has arrived. */
  function StepsOf(b: Batch): seq<Action> {
    if b.rcvd == 0 then [Peek(0)]
    else [Peek(b.rcvd), NbFree(b.stock)] + RefillSteps(b) + ProcessSteps(b.sents) + [Release, Complete(b.completed)]
  }

  function StepsOfAll(bs: seq<Batch>): seq<Action> {
    if bs == [] then [] else StepsOfAll(bs[..|bs| - 1]) + StepsOf(bs[|bs| - 1])
  }

  lemma {:induction false} RunExtends(s: State, run: seq<Action>, a: Action)
    requires Runs(s, run) && Enabled(After(s, run), a)
    ensures Runs(s, run + [a]) && After(s, run + [a]) == Do(After(s, run), a)
    decreases |run|
  {
    if run == [] {
      assert [a][1..] == [];
      assert run + [a] == [a];
    } else {
      RunExtends(Do(s, run[0]), run[1..], a);
      assert (run + [a])[1..] == run[1..] + [a];
    }
  }

  lemma ReachableInv(run: seq<Action>)
    requires Runs(Initial(), run)
    ensures Inv(After(Initial(), run))
  {
    InitialInv();
    RunKeepsInv(Initial(), run);
  }

  /** In every reachable state each of the frames is in exactly one place, once. */
  lemma NoFrameLostOrDuplicated(run: seq<Action>, f: nat)
    requires Runs(Initial(), run)
    ensures Held(After(Initial(), run))[f] == if f < NUM_FRAMES then 1 else 0
  {
    hide Shape, Held, AllFrames, Initial, Runs, After;
    ReachableInv(run);
    EveryFrameOnce(f);
  }

  lemma EveryFrameOnce(f: nat)
    ensures AllFrames()[f] == if f < NUM_FRAMES then 1 else 0
  {
    IdsOnce(NUM_FRAMES, f);
  }

  /** No reachable fill ring entry, submitted or being written, is INVALID_UMEM_FRAME: each names a real frame. */
  lemma FillRingHoldsFrames(run: seq<Action>, x: nat)
    requires Runs(Initial(), run)
    requires x in After(Initial(), run).fill || x in After(Initial(), run).written
    ensures x / FRAME_SIZE < NUM_FRAMES && x != INVALID_UMEM_FRAME
  {
    var s := After(Initial(), run);
    NoFrameLostOrDuplicated(run, x / FRAME_SIZE);
    if x in s.fill {
      FrameOfMember(s.fill, x);
    } else {
      FrameOfMember(s.written, x);
    }
  }

  lemma FrameOfMember(l: seq<nat>, x: nat)
    requires x in l
    ensures x / FRAME_SIZE in Frames(l)
  {
    var i :| 0 <= i < |l| && l[i] == x;
    assert FrameSeq(l)[i] == x / FRAME_SIZE;
  }

  /** Whatever the ring answers, a refill never asks for more frames than are free, and its first reserve succeeds. */
  lemma RefillAlwaysCovered(run: seq<Action>, v: nat)
    requires Runs(Initial(), run) && Enabled(After(Initial(), run), NbFree(v))
    ensures var s := After(Initial(), run);
            && v <= |s.stack|
            && forall w :: v > 0 && Enabled(Do(s, NbFree(v)), Reserve(w)) ==>
                 Do(Do(s, NbFree(v)), Reserve(w)).pc.Filling?
  {
    ReachableInv(run);
    NbFreeKeeps(After(Initial(), run), v);
  }

  /** The retry loop is never entered and the assertion of xsk_free_umem_frame never fails. */
  lemma NeverStuckNeverFails(run: seq<Action>)
    requires Runs(Initial(), run)
    ensures var s := After(Initial(), run);
            && !s.pc.Retrying? && !s.pc.AssertFailed?
            && (s.pc.Processing? && s.pc.done < s.pc.rcvd ==> |s.stack| < NUM_FRAMES)
            && s.outstanding == 0 && s.tx == []
  {
    ReachableInv(run);
    PlacesAddUp(After(Initial(), run));
  }

  /** The counters are the totals over all descriptors handled so far; transmission is at most one batch ahead. */
  lemma StatsAreTotals(run: seq<Action>)
    requires Runs(Initial(), run)
    ensures var s := After(Initial(), run);
            && StatsInv(s)
            && s.stats.txPackets <= s.stats.rxPackets + RX_BATCH_SIZE
            && s.stats.txBytes <= s.stats.rxBytes
            && (!s.pc.Processing? ==> s.stats.rxPackets == |s.log| && s.stats.txPackets <= s.stats.rxPackets)
  {
    ReachableInv(run);
    SentAtMostAll(After(Initial(), run).log);
  }

  lemma {:induction false} SentAtMostAll(log: seq<Handled>)
    ensures Sent(log) <= |log| && SentBytes(log) <= Bytes(log)
  {
    if log != [] {
      SentAtMostAll(log[..|log| - 1]);
    }
  }
}
