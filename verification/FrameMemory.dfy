/** The packet memory, cut into frames: who may write where, and what the waiting packets hold. */
module FrameMemory {
  import opened Bits
  import opened UmemProtocol
  import EchoReply

  /** Where the frame that `addr` lies in ends. */
  function FrameEnd(addr: nat): (end: nat)
    ensures addr < end
  {
    (addr / FRAME_SIZE + 1) * FRAME_SIZE
  }

  /** `addr` leaves room for the headers in a frame of the memory. */
  ghost predicate InMemory(mem: seq<Byte>, addr: nat) {
    addr + EchoReply.HEADERS <= FrameEnd(addr) <= |mem|
  }

  /** The memory from a packet's address to the end of its frame. */
  function Packet(mem: seq<Byte>, addr: nat): seq<Byte>
    requires FrameEnd(addr) <= |mem|
  {
    mem[addr..FrameEnd(addr)]
  }

  /** The memory outside some frames has not been written. */
  ghost predicate SameOutside(mem: seq<Byte>, mem': seq<Byte>, frames: multiset<nat>) {
    |mem'| == |mem| && forall j :: 0 <= j < |mem| && j / FRAME_SIZE !in frames ==> mem'[j] == mem[j]
  }

  lemma PacketKept(mem: seq<Byte>, mem': seq<Byte>, frames: multiset<nat>, addr: nat)
    requires SameOutside(mem, mem', frames) && addr / FRAME_SIZE !in frames && FrameEnd(addr) <= |mem|
    ensures Packet(mem', addr) == Packet(mem, addr)
  {
    forall j | addr <= j < FrameEnd(addr) ensures mem'[j] == mem[j] {
      SameFrameUpTo(addr, j);
    }
  }

  lemma SameFrameUpTo(addr: nat, j: nat)
    requires addr <= j < FrameEnd(addr)
    ensures j / FRAME_SIZE == addr / FRAME_SIZE
  {
  }

  lemma SameOutsideTrans(a: seq<Byte>, b: seq<Byte>, c: seq<Byte>, f: multiset<nat>, g: multiset<nat>, h: multiset<nat>)
    requires SameOutside(a, b, f) && SameOutside(b, c, g) && f <= h && g <= h
    ensures SameOutside(a, c, h)
  {
    forall j | 0 <= j < |a| && j / FRAME_SIZE !in h ensures c[j] == a[j] {
      assert j / FRAME_SIZE !in f && j / FRAME_SIZE !in g;
    }
  }

  /** The frames the kernel may write: it holds them or can take them from the fill ring. */
  ghost function KernelSide(s: State): multiset<nat> {
    Frames(s.fill) + Frames(s.kernel)
  }

  // ----- the partition keeps packets apart

  lemma {:induction false} TwiceCounted(l: seq<nat>, i: nat, j: nat)
    requires i < j < |l| && l[i] == l[j]
    ensures multiset(l)[l[i]] >= 2
  {
    assert l == l[..j] + l[j..];
    assert l[..j][i] == l[i] && l[j..][0] == l[i];
  }

  lemma HeldOnce(s: State, f: nat)
    requires Inv(s)
    ensures f in Frames(s.stack) ==> f !in KernelSide(s) && f !in Frames(Addrs(Unprocessed(s)))
    ensures f in Frames(Addrs(Unprocessed(s))) ==> f !in KernelSide(s) && f < NUM_FRAMES
    ensures Frames(Addrs(Unprocessed(s)))[f] <= 1
  {
    hide Frames, AllFrames;
    EveryFrameOnce(f);
    assert Held(s)[f] <= 1;
  }

  lemma OnlyOnce(u: seq<Desc>, i: nat, j: nat)
    requires i < |u| && j < |u| && i != j && Frames(Addrs(u))[u[i].addr / FRAME_SIZE] <= 1
    ensures u[j].addr / FRAME_SIZE != u[i].addr / FRAME_SIZE
  {
    var l := FrameSeq(Addrs(u));
    if l[i] == l[j] {
      TwiceCounted(l, if i < j then i else j, if i < j then j else i);
    }
  }

  /** A packet that waits is in a frame of its own, which the kernel does not have. */
  lemma WaitingApart(s: State, i: nat)
    requires Inv(s) && InBatch(s) <= i < |s.rx|
    ensures var f := s.rx[i].addr / FRAME_SIZE;
            && f !in KernelSide(s) && f !in Frames(s.stack) && f < NUM_FRAMES
            && forall j :: InBatch(s) <= j < |s.rx| && j != i ==> s.rx[j].addr / FRAME_SIZE != f
  {
    hide KernelSide, Frames, Inv, Addrs;
    var f, done, u := s.rx[i].addr / FRAME_SIZE, InBatch(s), Unprocessed(s);
    assert u == s.rx[done..];
    OneFrameOf(u, i - done);
    HeldOnce(s, f);
    forall j | done <= j < |s.rx| && j != i ensures s.rx[j].addr / FRAME_SIZE != f {
      assert u[j - done] == s.rx[j];
      OnlyOnce(u, i - done, j - done);
    }
  }

  lemma OneFrameOf(u: seq<Desc>, i: nat)
    requires i < |u|
    ensures u[i].addr / FRAME_SIZE in Frames(Addrs(u))
  {
    assert Addrs(u)[i] == u[i].addr;
    FrameOfMember(Addrs(u), u[i].addr);
  }

  /** A frame on the free stack is not the kernel's. */
  lemma StackApart(s: State, k: nat)
    requires Inv(s) && k < |s.stack|
    ensures s.stack[k] / FRAME_SIZE !in KernelSide(s)
  {
    FrameOfMember(s.stack, s.stack[k]);
    HeldOnce(s, s.stack[k] / FRAME_SIZE);
  }

  lemma SameOutsideItself(mem: seq<Byte>, frames: multiset<nat>)
    ensures SameOutside(mem, mem, frames)
  {
  }

  lemma TakeOnKernelSide(s: State)
    requires |s.fill| > 0
    ensures KernelSide(s.(fill := s.fill[1..], kernel := s.kernel + [s.fill[0]])) == KernelSide(s)
  {
    hide Frames;
    assert s.fill == [s.fill[0]] + s.fill[1..];
    FramesOfConcat([s.fill[0]], s.fill[1..]);
    FramesOfConcat(s.kernel, [s.fill[0]]);
  }

  lemma DeliverFromKernelSide(s: State, k: nat, offset: nat, len: nat)
    requires k < |s.kernel| && Enabled(s, KernelDeliver(k, offset, len))
    ensures KernelSide(Do(s, KernelDeliver(k, offset, len))) <= KernelSide(s)
    ensures s.kernel[k] / FRAME_SIZE in KernelSide(s)
  {
    hide Frames;
    FramesWithout(s.kernel, k);
  }

  lemma InFrame(frame: nat, i: nat)
    requires i < FRAME_SIZE
    ensures (frame * FRAME_SIZE + i) / FRAME_SIZE == frame
    ensures FrameEnd(frame * FRAME_SIZE + i) == (frame + 1) * FRAME_SIZE
  {
  }

  // ----- the packets that wait

  /** A packet the kernel delivered, and what its frame held from the packet's address on. */
  datatype Delivery = Delivery(desc: Desc, bytes: seq<Byte>)

  /** The RX ring lists the latest deliveries in order; those from `done` on still hold what was delivered. */
  ghost predicate Waiting(mem: seq<Byte>, rx: seq<Desc>, deliveries: seq<Delivery>, released: nat, done: nat) {
    && released + |rx| == |deliveries|
    && (forall i :: 0 <= i < |rx| ==> deliveries[released + i].desc == rx[i])
    && forall i :: done <= i < |rx| ==>
         InMemory(mem, rx[i].addr) && Packet(mem, rx[i].addr) == deliveries[released + i].bytes
  }

  /** Writing outside the waiting packets' frames. */
  lemma StillWaiting(mem: seq<Byte>, mem': seq<Byte>, frames: multiset<nat>, rx: seq<Desc>, deliveries: seq<Delivery>,
                     released: nat, done: nat, done': nat)
    requires Waiting(mem, rx, deliveries, released, done) && SameOutside(mem, mem', frames) && done <= done'
    requires forall i :: done' <= i < |rx| ==> rx[i].addr / FRAME_SIZE !in frames
    ensures Waiting(mem', rx, deliveries, released, done')
  {
    hide Packet, FrameEnd;
    forall i | done' <= i < |rx|
      ensures InMemory(mem', rx[i].addr) && Packet(mem', rx[i].addr) == deliveries[released + i].bytes
    {
      PacketKept(mem, mem', frames, rx[i].addr);
    }
  }

  lemma OneMoreWaiting(mem: seq<Byte>, rx: seq<Desc>, deliveries: seq<Delivery>, released: nat, done: nat, d: Desc)
    requires Waiting(mem, rx, deliveries, released, done) && InMemory(mem, d.addr)
    ensures Waiting(mem, rx + [d], deliveries + [Delivery(d, Packet(mem, d.addr))], released, done)
  {
    hide Packet, FrameEnd;
  }

  lemma WaitingAfterRelease(mem: seq<Byte>, rx: seq<Desc>, deliveries: seq<Delivery>, released: nat, n: nat)
    requires Waiting(mem, rx, deliveries, released, n) && n <= |rx|
    ensures Waiting(mem, rx[n..], deliveries, released + n, 0)
  {
    hide Packet, FrameEnd;
    forall i | 0 <= i < |rx| - n
      ensures deliveries[released + n + i].desc == rx[n..][i] && InMemory(mem, rx[n..][i].addr)
      ensures Packet(mem, rx[n..][i].addr) == deliveries[released + n + i].bytes
    {
      assert rx[n..][i] == rx[n + i];
    }
  }

  // ----- the packets that have been answered

  /** A delivered packet has been processed where it lies. */
  ghost predicate DoneIn(mem: seq<Byte>, d: Delivery) {
    && InMemory(mem, d.desc.addr) && |d.bytes| >= EchoReply.HEADERS
    && EchoReply.Processed(d.bytes, d.desc.len, Packet(mem, d.desc.addr))
  }

  ghost predicate AnsweredAt(mem: seq<Byte>, stack: seq<nat>, deliveries: seq<Delivery>, first: nat, n: nat, j: nat)
    requires j < n <= |stack| && first + n <= |deliveries|
  {
    stack[|stack| - n + j] == deliveries[first + j].desc.addr && DoneIn(mem, deliveries[first + j])
  }

  /** `n` deliveries from `first` on have been processed, and their frames are on top of the stack in this order. */
  ghost predicate Answered(mem: seq<Byte>, stack: seq<nat>, deliveries: seq<Delivery>, first: nat, n: nat) {
    && n <= |stack| && first + n <= |deliveries|
    && forall j :: 0 <= j < n ==> AnsweredAt(mem, stack, deliveries, first, n, j)
  }

  /** Writing outside the frames on the stack leaves the answers alone. */
  lemma StillAnswered(mem: seq<Byte>, mem': seq<Byte>, frames: multiset<nat>, stack: seq<nat>,
                      deliveries: seq<Delivery>, deliveries': seq<Delivery>, first: nat, n: nat)
    requires Answered(mem, stack, deliveries, first, n) && SameOutside(mem, mem', frames) && deliveries <= deliveries'
    requires forall k :: 0 <= k < |stack| ==> stack[k] / FRAME_SIZE !in frames
    ensures Answered(mem', stack, deliveries', first, n)
  {
    hide Packet, FrameEnd, EchoReply.Processed, SameOutside;
    forall j | 0 <= j < n ensures AnsweredAt(mem', stack, deliveries', first, n, j) {
      assert AnsweredAt(mem, stack, deliveries, first, n, j);
      var d := deliveries[first + j];
      assert deliveries'[first + j] == d && stack[|stack| - n + j] == d.desc.addr;
      PacketKept(mem, mem', frames, d.desc.addr);
      assert |mem'| == |mem| by { SameLength(mem, mem', frames); }
    }
  }

  lemma SameLength(mem: seq<Byte>, mem': seq<Byte>, frames: multiset<nat>)
    requires SameOutside(mem, mem', frames)
    ensures |mem'| == |mem|
  {
  }

  lemma OneMoreAnswered(mem: seq<Byte>, stack: seq<nat>, deliveries: seq<Delivery>, first: nat, n: nat)
    requires Answered(mem, stack, deliveries, first, n) && first + n < |deliveries|
    requires DoneIn(mem, deliveries[first + n])
    ensures Answered(mem, stack + [deliveries[first + n].desc.addr], deliveries, first, n + 1)
  {
    hide DoneIn;
    var stack', n' := stack + [deliveries[first + n].desc.addr], n + 1;
    forall j | 0 <= j < n' ensures AnsweredAt(mem, stack', deliveries, first, n', j) {
      if j < n {
        assert AnsweredAt(mem, stack, deliveries, first, n, j);
      }
    }
  }

  /** process_packet writes inside the packet's frame only, and its result depends on that frame only. */
  lemma ProcessedWithin(mem: seq<Byte>, mem': seq<Byte>, addr: nat, len: nat)
    requires InMemory(mem, addr) && |mem'| == |mem| && mem'[..addr] == mem[..addr]
    requires EchoReply.Processed(mem[addr..], len, mem'[addr..])
    ensures EchoReply.Processed(Packet(mem, addr), len, Packet(mem', addr))
    ensures EchoReply.Accepts(Packet(mem, addr), len) <==> EchoReply.Accepts(mem[addr..], len)
    ensures SameOutside(mem, mem', multiset{addr / FRAME_SIZE})
  {
    var n := FrameEnd(addr) - addr;
    EchoReply.ProcessedInFrame(mem[addr..], len, mem'[addr..], n);
    hide EchoReply.Processed, EchoReply.Accepts;
    assert mem[addr..][..n] == Packet(mem, addr) && mem'[addr..][..n] == Packet(mem', addr);
    forall j | 0 <= j < |mem| && j / FRAME_SIZE !in multiset{addr / FRAME_SIZE} ensures mem'[j] == mem[j] {
      if j < addr {
        assert mem'[..addr][j] == mem[..addr][j];
      } else {
        BehindFrame(addr, j);
        assert mem'[addr..][n..][j - addr - n] == mem[addr..][n..][j - addr - n];
      }
    }
  }

  lemma BehindFrame(addr: nat, j: nat)
    requires addr <= j && j / FRAME_SIZE != addr / FRAME_SIZE
    ensures j >= FrameEnd(addr)
  {
  }

  /** The kernel writes into a frame it holds: no waiting packet is there. */
  lemma WaitingOutside(s: State, mem: seq<Byte>, mem': seq<Byte>, frame: nat, deliveries: seq<Delivery>, released: nat)
    requires Inv(s) && frame in KernelSide(s) && SameOutside(mem, mem', multiset{frame})
    requires Waiting(mem, s.rx, deliveries, released, InBatch(s))
    ensures Waiting(mem', s.rx, deliveries, released, InBatch(s))
  {
    hide Inv, KernelSide, SameOutside, Waiting;
    forall i | InBatch(s) <= i < |s.rx| ensures s.rx[i].addr / FRAME_SIZE !in multiset{frame} {
      WaitingApart(s, i);
    }
    StillWaiting(mem, mem', multiset{frame}, s.rx, deliveries, released, InBatch(s), InBatch(s));
  }

  lemma AnsweredAreDelivered(mem: seq<Byte>, stack: seq<nat>, deliveries: seq<Delivery>, first: nat, n: nat)
    requires Answered(mem, stack, deliveries, first, n)
    ensures first + n <= |deliveries|
  {
  }

  /** The kernel does not touch the frames on the stack, so what has been answered stays as it is. */
  lemma AnswersKept(s: State, mem: seq<Byte>, mem': seq<Byte>, deliveries: seq<Delivery>, deliveries': seq<Delivery>,
                    first: nat, n: nat)
    requires Inv(s) && Answered(mem, s.stack, deliveries, first, n)
    requires SameOutside(mem, mem', KernelSide(s)) && deliveries <= deliveries'
    ensures Answered(mem', s.stack, deliveries', first, n)
  {
    hide Inv, KernelSide, SameOutside, Answered;
    forall k | 0 <= k < |s.stack| ensures s.stack[k] / FRAME_SIZE !in KernelSide(s) {
      StackApart(s, k);
    }
    StillAnswered(mem, mem', KernelSide(s), s.stack, deliveries, deliveries', first, n);
  }

  /** The packet that is next is where its descriptor says, as it was delivered. */
  lemma NextWaiting(mem: seq<Byte>, rx: seq<Desc>, deliveries: seq<Delivery>, released: nat, i: nat)
    requires Waiting(mem, rx, deliveries, released, i) && i < |rx|
    ensures released + i < |deliveries| && deliveries[released + i].desc == rx[i] && InMemory(mem, rx[i].addr)
    ensures deliveries[released + i].bytes == Packet(mem, rx[i].addr)
    ensures IsRequest(deliveries[released + i]) <==> EchoReply.Accepts(Packet(mem, rx[i].addr), rx[i].len)
  {
  }

  /** An echo request, as far as process_packet looks. */
  ghost predicate IsRequest(d: Delivery) {
    |d.bytes| >= EchoReply.HEADERS && EchoReply.Accepts(d.bytes, d.desc.len)
  }

  /** After the next packet has been processed one more is answered, and the others still wait. */
  lemma NextAnswered(s: State, i: nat, mem: seq<Byte>, mem': seq<Byte>, deliveries: seq<Delivery>, released: nat)
    requires Inv(s) && s.pc.Processing? && s.pc.done == i < |s.rx|
    requires Waiting(mem, s.rx, deliveries, released, i) && Answered(mem, s.stack, deliveries, released, i)
    requires InMemory(mem, s.rx[i].addr) && InMemory(mem', s.rx[i].addr)
    requires SameOutside(mem, mem', multiset{s.rx[i].addr / FRAME_SIZE})
    requires EchoReply.Processed(Packet(mem, s.rx[i].addr), s.rx[i].len, Packet(mem', s.rx[i].addr))
    ensures Waiting(mem', s.rx, deliveries, released, i + 1)
    ensures Answered(mem', s.stack + [s.rx[i].addr], deliveries, released, i + 1)
  {
    hide Inv, KernelSide, SameOutside, Answered, Waiting, EchoReply.Processed, Frames;
    var frames := multiset{s.rx[i].addr / FRAME_SIZE};
    NextWaiting(mem, s.rx, deliveries, released, i);
    WaitingApart(s, i);
    StillWaiting(mem, mem', frames, s.rx, deliveries, released, i, i + 1);
    forall k | 0 <= k < |s.stack| ensures s.stack[k] / FRAME_SIZE !in frames {
      FrameOfMember(s.stack, s.stack[k]);
    }
    StillAnswered(mem, mem', frames, s.stack, deliveries, deliveries, released, i);
    OneMoreAnswered(mem', s.stack, deliveries, released, i);
  }
}
