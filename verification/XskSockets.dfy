/** The client's AF_XDP socket: xsk_utils.c and xsk_receive.c, run by run inside the step system of the frames. */
module XskSockets {
  import opened UmemProtocol
  import opened FrameMemory
  import EchoReply
  import opened Bits

  class XskSocket {
    const umemFrameAddr: array<nat>
    var umemFrameFree: nat
    var outstandingTx: nat
    var rxPackets: nat
    var rxBytes: nat
    var txPackets: nat
    var txBytes: nat
    /** The packet memory all frames lie in. */
    const buffer: array<Byte>

    // The rings, and what the kernel has taken out of them.
    var fill: seq<nat>
    var written: seq<nat>
    var kernel: seq<nat>
    var rx: seq<Desc>
    var cq: seq<nat>
    var known: nat

    /** The steps taken so far by user and kernel, and the state of the step system they lead to. */
    ghost var run: seq<Action>
    ghost var sigma: State
    /** All packets the kernel has delivered so far. */
    ghost var deliveries: seq<Delivery>

    /** Free-stack slots at or above `umem_frame_free` hold INVALID_UMEM_FRAME. */
    ghost predicate Slots()
      reads this`umemFrameFree, umemFrameAddr
    {
      && umemFrameAddr.Length == NUM_FRAMES && umemFrameFree <= NUM_FRAMES
      && forall i :: umemFrameFree <= i < NUM_FRAMES ==> umemFrameAddr[i] == INVALID_UMEM_FRAME
    }

    ghost function Stack(): seq<nat>
      requires Slots()
      reads this`umemFrameFree, umemFrameAddr
    {
      umemFrameAddr[..umemFrameFree]
    }

    ghost predicate Reached()
      reads this`run, this`sigma
    {
      Runs(Initial(), run) && After(Initial(), run) == sigma
    }

    /** The socket is in the state its run leads to. */
    ghost predicate Valid()
      reads this, umemFrameAddr, buffer
    {
      && Slots() && Reached() && buffer.Length == NUM_FRAMES * FRAME_SIZE
      && sigma.stack == Stack() && sigma.fill == fill && sigma.written == written && sigma.kernel == kernel
      && sigma.rx == rx && sigma.tx == cq && sigma.known == known && sigma.outstanding == outstandingTx
      && sigma.stats == Stats(rxPackets, rxBytes, txPackets, txBytes)
      && Waiting(buffer[..], rx, deliveries, rxPackets, InBatch(sigma))
    }

    /** What kernel steps leave as it is: the memory of all frames it does not have, and the past. */
    twostate predicate KernelOnlyWrites()
      reads this, buffer
    {
      && SameOutside(old(buffer[..]), buffer[..], KernelSide(old(sigma)))
      && old(deliveries) <= deliveries
    }

    // ----- the free stack

    /** xsk_alloc_umem_frame. */
    method AllocUmemFrame() returns (frame: nat)
      requires Slots()
      modifies this`umemFrameFree, umemFrameAddr
      ensures Slots() && (frame, Stack()) == Pop(old(Stack()))
      ensures if old(Stack()) == [] then frame == INVALID_UMEM_FRAME && Stack() == []
              else old(Stack()) == Stack() + [frame] && umemFrameAddr[umemFrameFree] == INVALID_UMEM_FRAME
    {
      if umemFrameFree == 0 {
        assert Stack() == [];
        return INVALID_UMEM_FRAME;
      }
      umemFrameFree := umemFrameFree - 1;
      frame := umemFrameAddr[umemFrameFree];
      umemFrameAddr[umemFrameFree] := INVALID_UMEM_FRAME;
      assert Stack() == old(Stack())[..umemFrameFree];
    }

    /** xsk_free_umem_frame; the precondition is its assertion. */
    method FreeUmemFrame(frame: nat)
      requires Slots() && umemFrameFree < NUM_FRAMES
      modifies this`umemFrameFree, umemFrameAddr
      ensures Slots() && Stack() == old(Stack()) + [frame]
    {
      umemFrameAddr[umemFrameFree] := frame;
      umemFrameFree := umemFrameFree + 1;
    }

    /** xsk_configure_socket from the frame initialisation on: half of the frames go to the fill ring. */
    constructor (buffer: array<Byte>)
      requires buffer.Length == NUM_FRAMES * FRAME_SIZE
      ensures Valid() && fresh(umemFrameAddr) && this.buffer == buffer && run == [] && sigma == Initial()
      ensures |fill| == 2048 && forall i :: 0 <= i < 2048 ==> fill[i] == (4095 - i) * 4096
      ensures |Stack()| == 2048 && forall i :: 0 <= i < 2048 ==> Stack()[i] == i * 4096
      ensures written == [] && kernel == [] && rx == [] && cq == [] && deliveries == []
      ensures outstandingTx == 0 && rxPackets == rxBytes == txPackets == txBytes == 0 && sigma.pc.Polling?
    {
      this.buffer := buffer;
      umemFrameAddr := new nat[NUM_FRAMES];
      umemFrameFree, outstandingTx := 0, 0;
      rxPackets, rxBytes, txPackets, txBytes := 0, 0, 0, 0;
      fill, written, kernel, rx, cq, known := [], [], [], [], [], FILL_SIZE;
      run, sigma, deliveries := [], Initial(), [];
      new;
      InitFrames();
      known := known - FILL_SIZE;
      FirstFill();
      fill, written := fill + written, [];
    }

    /** All frames start on the free stack. */
    method InitFrames()
      requires umemFrameAddr.Length == NUM_FRAMES
      modifies this`umemFrameFree, umemFrameAddr
      ensures Slots() && Stack() == Ascending(NUM_FRAMES)
    {
      for i := 0 to NUM_FRAMES
        modifies umemFrameAddr
        invariant forall j :: 0 <= j < i ==> umemFrameAddr[j] == j * FRAME_SIZE
      {
        umemFrameAddr[i] := i * FRAME_SIZE;
      }
      umemFrameFree := NUM_FRAMES;
      assert Stack() == Ascending(NUM_FRAMES);
    }

    /** The receive path is stuffed with one fill ring's worth of buffers. */
    method FirstFill()
      requires Slots() && Stack() == Ascending(NUM_FRAMES) && written == []
      modifies this`umemFrameFree, this`written, umemFrameAddr
      ensures Slots() && Stack() == Ascending(NUM_FRAMES - FILL_SIZE) && written == Descending(FILL_SIZE)
    {
      hide Ascending, Descending;
      NothingPopped();
      for i := 0 to FILL_SIZE
        invariant Slots() && Stack() == Ascending(NUM_FRAMES - i) && written == Descending(i)
      {
        var frame := AllocUmemFrame();
        NextPopped(i, frame, Stack());
        written := written + [frame];
      }
    }

    static lemma NothingPopped()
      ensures Descending(0) == []
    {
    }

    static lemma NextPopped(i: nat, frame: nat, stack: seq<nat>)
      requires i < FILL_SIZE && (frame, stack) == Pop(Ascending(NUM_FRAMES - i))
      ensures stack == Ascending(NUM_FRAMES - (i + 1)) && Descending(i) + [frame] == Descending(i + 1)
    {
    }

    // ----- the kernel, between any two ring operations

    ghost method Advance(a: Action)
      requires Reached() && Enabled(sigma, a)
      modifies this`run, this`sigma
      ensures Reached() && sigma == Do(old(sigma), a) && run == old(run) + [a]
      ensures UserSteps(run) == old(UserSteps(run)) + if IsKernel(a) then [] else [a]
    {
      hide UserSteps;
      RunExtends(Initial(), run, a);
      UserStepsExtend(run, a);
      sigma := Do(sigma, a);
      run := run + [a];
    }

    method KernelTakes()
      requires Valid() && |fill| > 0 && |kernel| + |rx| < RX_SIZE
      modifies this`fill, this`kernel, this`run, this`sigma
      ensures Valid() && KernelOnly(old(sigma), sigma) && UserSteps(run) == old(UserSteps(run))
      ensures KernelSide(sigma) == KernelSide(old(sigma))
    {
      hide Inv, Runs, After, Initial, UserSteps, Waiting, KernelSide;
      TakeOnKernelSide(sigma);
      ghost var mem := buffer[..];
      fill, kernel := fill[1..], kernel + [fill[0]];
      Advance(KernelTake);
      assert buffer[..] == mem;
    }

    /** A packet of `len` bytes arrives in the `k`-th frame the kernel holds, and nothing else is written. */
    method KernelDelivers(k: nat, offset: nat, len: nat)
      requires Valid() && k < |kernel| && |rx| < RX_SIZE
      requires offset + EchoReply.HEADERS <= FRAME_SIZE && offset + len <= FRAME_SIZE
      modifies this`kernel, this`rx, this`run, this`sigma, this`deliveries, buffer
      ensures Valid() && KernelOnly(old(sigma), sigma) && UserSteps(run) == old(UserSteps(run))
      ensures SameOutside(old(buffer[..]), buffer[..], multiset{old(kernel)[k] / FRAME_SIZE})
      ensures KernelSide(sigma) <= KernelSide(old(sigma)) && old(kernel)[k] / FRAME_SIZE in KernelSide(old(sigma))
      ensures old(deliveries) <= deliveries
    {
      hide Inv, Runs, After, Initial, UserSteps, Waiting, KernelSide, Packet;
      ReachableInv(run);
      KernelFrame(sigma, k);
      DeliverFromKernelSide(sigma, k, offset, len);
      var frame := kernel[k] / FRAME_SIZE;
      var addr := frame * FRAME_SIZE + offset;
      ghost var mem := buffer[..];
      WritePacket(frame, offset, len);
      WaitingOutside(sigma, mem, buffer[..], frame, deliveries, rxPackets);
      ghost var d := Desc(addr, len);
      OneMoreWaiting(buffer[..], rx, deliveries, rxPackets, InBatch(sigma), d);
      deliveries := deliveries + [Delivery(d, Packet(buffer[..], addr))];
      kernel, rx := kernel[..k] + kernel[k + 1..], rx + [Desc(addr, len)];
      Advance(KernelDeliver(k, offset, len));
    }

    /** Whatever arrives is written into one frame. */
    method WritePacket(frame: nat, offset: nat, len: nat)
      requires frame < NUM_FRAMES && buffer.Length == NUM_FRAMES * FRAME_SIZE
      requires offset + EchoReply.HEADERS <= FRAME_SIZE && offset + len <= FRAME_SIZE
      modifies buffer
      ensures SameOutside(old(buffer[..]), buffer[..], multiset{frame})
      ensures InMemory(buffer[..], frame * FRAME_SIZE + offset)
    {
      var addr := frame * FRAME_SIZE + offset;
      for j := 0 to len
        modifies buffer
        invariant SameOutside(old(buffer[..]), buffer[..], multiset{frame})
      {
        var b :| 0 <= b < 0x100;
        InFrame(frame, offset + j);
        buffer[addr + j] := b;
      }
      InFrame(frame, offset);
    }

    /** Any number of kernel steps in any order. */
    method KernelMay()
      requires Valid()
      modifies this`fill, this`kernel, this`rx, this`run, this`sigma, this`deliveries, buffer
      ensures Valid() && KernelOnly(old(sigma), sigma) && UserSteps(run) == old(UserSteps(run))
      ensures KernelOnlyWrites()
    {
      hide Inv, Runs, After, Initial, UserSteps, Waiting, KernelSide, SameOutside;
      var steps: nat :| 0 <= steps;
      ghost var mem, frames := buffer[..], KernelSide(sigma);
      SameOutsideItself(mem, frames);
      while steps > 0
        invariant Valid() && KernelOnly(old(sigma), sigma) && UserSteps(run) == old(UserSteps(run))
        invariant SameOutside(mem, buffer[..], frames) && KernelSide(sigma) <= frames && old(deliveries) <= deliveries
      {
        ghost var now := buffer[..];
        if {
          case |fill| > 0 && |kernel| + |rx| < RX_SIZE =>
            KernelTakes();
            assert buffer[..] == now;
          case |kernel| > 0 && |rx| < RX_SIZE =>
            var k :| 0 <= k < |kernel|;
            var offset :| 0 <= offset <= FRAME_SIZE - EchoReply.HEADERS;
            var len :| 0 <= len <= FRAME_SIZE - offset;
            ghost var f := multiset{kernel[k] / FRAME_SIZE};
            KernelDelivers(k, offset, len);
            SameOutsideTrans(mem, now, buffer[..], frames, f, frames);
          case true =>
        }
        steps := steps - 1;
      }
    }

    // ----- ring operations

    /** xsk_ring_cons__peek on the RX ring: any number of the descriptors there, up to a batch. */
    method RxPeek() returns (rcvd: nat)
      requires Valid() && sigma.pc.Polling?
      modifies this`fill, this`kernel, this`rx, this`run, this`sigma, this`deliveries, buffer
      ensures Valid() && old(deliveries) <= deliveries && UserSteps(run) == old(UserSteps(run)) + [Peek(rcvd)]
      ensures sigma.pc == if rcvd == 0 then Polling else Peeked(rcvd)
    {
      hide Inv, Runs, After, Initial, UserSteps, Waiting;
      KernelMay();
      rcvd :| 0 <= rcvd <= RX_BATCH_SIZE && rcvd <= |rx|;
      Advance(Peek(rcvd));
    }

    /** xsk_prod_nb_free on the fill ring. */
    method ProdNbFree(nb: nat) returns (v: nat)
      requires Valid() && sigma.pc.Peeked? && nb == umemFrameFree
      modifies this`fill, this`kernel, this`rx, this`known, this`run, this`sigma, this`deliveries, buffer
      ensures Valid() && old(deliveries) <= deliveries && UserSteps(run) == old(UserSteps(run)) + [NbFree(v)]
      ensures v <= umemFrameFree
      ensures sigma.pc == if v > 0 then Stocking(old(sigma).pc.rcvd, v) else Processing(old(sigma).pc.rcvd, 0)
    {
      hide Inv, Runs, After, Initial, UserSteps, Waiting;
      KernelMay();
      ReachableInv(run);
      KnownBound(sigma);
      v :| known <= v <= FILL_SIZE - |fill| && (known >= nb ==> v == known);
      NbFreeKeeps(sigma, v);
      known := v;
      Advance(NbFree(v));
    }

    /** xsk_ring_prod__reserve on the fill ring: `n` slots or none. */
    method ProdReserve(n: nat) returns (ret: nat, ghost v: nat)
      requires Valid() && sigma.pc.Stocking? && n == sigma.pc.stock
      modifies this`fill, this`kernel, this`rx, this`known, this`run, this`sigma, this`deliveries, buffer
      ensures Valid() && old(deliveries) <= deliveries && UserSteps(run) == old(UserSteps(run)) + [Reserve(v)]
      ensures ret == n && sigma.pc == Filling(old(sigma).pc.rcvd, n, 0)
    {
      hide Inv, Runs, After, Initial, UserSteps, Waiting;
      KernelMay();
      ReachableInv(run);
      KnownBound(sigma);
      var seen :| known <= seen <= FILL_SIZE - |fill| && (known >= n ==> seen == known);
      v := seen;
      ret, known := 0, seen;
      if seen >= n {
        ret, known := n, seen - n;
      }
      Advance(Reserve(v));
    }

    /** One fill ring slot is written: `*fill_addr(idx++) = xsk_alloc_umem_frame(xsk)`. */
    method WriteFillAddr()
      requires Valid() && sigma.pc.Filling? && sigma.pc.filled < sigma.pc.stock
      modifies this`fill, this`kernel, this`rx, this`written, this`umemFrameFree, umemFrameAddr, this`run,
               this`sigma, this`deliveries, buffer
      ensures Valid() && old(deliveries) <= deliveries && UserSteps(run) == old(UserSteps(run)) + [WriteFill]
      ensures sigma.pc == Filling(old(sigma).pc.rcvd, old(sigma).pc.stock, old(sigma).pc.filled + 1)
    {
      hide Inv, Runs, After, Initial, UserSteps, Waiting;
      KernelMay();
      var frame := AllocUmemFrame();
      written := written + [frame];
      Advance(WriteFill);
    }

    method ProdSubmit()
      requires Valid() && sigma.pc.Filling? && sigma.pc.filled == sigma.pc.stock
      modifies this`fill, this`kernel, this`rx, this`written, this`run, this`sigma, this`deliveries, buffer
      ensures Valid() && old(deliveries) <= deliveries && UserSteps(run) == old(UserSteps(run)) + [Submit]
               && sigma.pc == Processing(old(sigma).pc.rcvd, 0)
    {
      hide Inv, Runs, After, Initial, UserSteps, Waiting;
      KernelMay();
      fill, written := fill + written, [];
      Advance(Submit);
    }

    /** process_packet with the transmission counters; whether sendto succeeds is up to the network. */
    method SendReply(addr: nat, len: nat) returns (transmit: bool, sent: bool)
      requires InMemory(buffer[..], addr)
      modifies buffer, this`txBytes, this`txPackets
      ensures !transmit && (sent ==> EchoReply.Accepts(old(Packet(buffer[..], addr)), len))
      ensures txBytes == old(txBytes) + (if sent then len else 0)
      ensures txPackets == old(txPackets) + (if sent then 1 else 0)
      ensures SameOutside(old(buffer[..]), buffer[..], multiset{addr / FRAME_SIZE}) && InMemory(buffer[..], addr)
      ensures EchoReply.Processed(old(Packet(buffer[..], addr)), len, Packet(buffer[..], addr))
    {
      hide EchoReply.Accepts, EchoReply.IsReply, FrameEnd, Packet;
      ghost var mem := buffer[..];
      assert mem[addr..] == buffer[addr..] && mem[..addr] == buffer[..addr];
      var sendOk: bool :| true;
      transmit, sent := EchoReply.ProcessPacket(buffer, addr, len, sendOk);
      ghost var mem' := buffer[..];
      assert mem'[addr..] == buffer[addr..] && mem'[..addr] == buffer[..addr];
      ProcessedWithin(mem, mem', addr, len);
      if sent {
        txBytes := txBytes + len;
        txPackets := txPackets + 1;
      }
    }

    /** The body of the processing loop: the packet is processed where it lies and its frame given back. */
    method ProcessNext(i: nat) returns (ghost replied: bool)
      requires Valid() && sigma.pc.Processing? && sigma.pc.done == i < sigma.pc.rcvd
      requires Answered(buffer[..], sigma.stack, deliveries, rxPackets, i)
      modifies this, umemFrameAddr, buffer
      ensures Valid() && UserSteps(run) == old(UserSteps(run)) + [Process(replied)]
      ensures sigma.pc == Processing(old(sigma).pc.rcvd, i + 1)
      ensures old(deliveries) <= deliveries && rxPackets == old(rxPackets)
      ensures Answered(buffer[..], sigma.stack, deliveries, rxPackets, i + 1)
      ensures replied ==> IsRequest(deliveries[rxPackets + i])
      ensures var len := deliveries[rxPackets + i].desc.len;
              && rxBytes == old(rxBytes) + len
              && txPackets == old(txPackets) + (if replied then 1 else 0)
              && txBytes == old(txBytes) + (if replied then len else 0)
    {
      hide Inv, Runs, After, Initial, UserSteps, Waiting, Answered, SameOutside, KernelSide, IsRequest;
      ReachableInv(run);
      ghost var s, mem, was := sigma, buffer[..], deliveries;
      KernelMay();
      AnswersKept(s, mem, buffer[..], was, deliveries, rxPackets, i);
      replied := ProcessDescriptor(i);
    }

    /** One iteration of the loop, from the descriptor to the byte counter. */
    method ProcessDescriptor(i: nat) returns (ghost replied: bool)
      requires Valid() && sigma.pc.Processing? && sigma.pc.done == i < sigma.pc.rcvd
      requires Answered(buffer[..], sigma.stack, deliveries, rxPackets, i)
      modifies this, umemFrameAddr, buffer
      ensures Valid() && UserSteps(run) == old(UserSteps(run)) + [Process(replied)]
      ensures sigma.pc == Processing(old(sigma).pc.rcvd, i + 1)
      ensures deliveries == old(deliveries) && rxPackets == old(rxPackets)
      ensures Answered(buffer[..], sigma.stack, deliveries, rxPackets, i + 1)
      ensures replied ==> IsRequest(deliveries[rxPackets + i])
      ensures var len := deliveries[rxPackets + i].desc.len;
              && rxBytes == old(rxBytes) + len
              && txPackets == old(txPackets) + (if replied then 1 else 0)
              && txBytes == old(txBytes) + (if replied then len else 0)
    {
      hide Inv, Runs, After, Initial, UserSteps, Waiting, Answered, IsRequest, Do, Enabled;
      ReachableInv(run);
      DescriptorFits(sigma, i);
      ProcessStep(sigma);
      var addr, len := rx[i].addr, rx[i].len;
      var transmit, sent := AnswerNext(i);
      ghost var mem := buffer[..];
      if !transmit {
        FreeUmemFrame(addr);
      }
      assert buffer[..] == mem;
      rxBytes := rxBytes + len;
      replied := sent;
      Advance(Process(sent));
    }

    /** process_packet on the next packet, as it was delivered. */
    method AnswerNext(i: nat) returns (transmit: bool, sent: bool)
      requires Valid() && sigma.pc.Processing? && sigma.pc.done == i < |rx|
      requires Answered(buffer[..], sigma.stack, deliveries, rxPackets, i)
      modifies buffer, this`txBytes, this`txPackets
      ensures !transmit && rxPackets + i < |deliveries| && deliveries[rxPackets + i].desc == rx[i]
      ensures sent ==> IsRequest(deliveries[rxPackets + i])
      ensures txBytes == old(txBytes) + (if sent then rx[i].len else 0)
      ensures txPackets == old(txPackets) + (if sent then 1 else 0)
      ensures Waiting(buffer[..], rx, deliveries, rxPackets, i + 1)
      ensures Answered(buffer[..], sigma.stack + [rx[i].addr], deliveries, rxPackets, i + 1)
    {
      hide Inv, Runs, After, Initial, UserSteps, Waiting, Answered, SameOutside, KernelSide, EchoReply.Accepts;
      hide EchoReply.Processed, InMemory, Packet, IsRequest;
      ReachableInv(run);
      NextWaiting(buffer[..], rx, deliveries, rxPackets, i);
      ghost var mem := buffer[..];
      transmit, sent := SendReply(rx[i].addr, rx[i].len);
      NextAnswered(sigma, i, mem, buffer[..], deliveries, rxPackets);
    }

    method RxRelease(rcvd: nat)
      requires Valid() && sigma.pc == Processing(rcvd, rcvd)
      modifies this`fill, this`kernel, this`rx, this`rxPackets, this`run, this`sigma, this`deliveries, buffer
      ensures Valid() && UserSteps(run) == old(UserSteps(run)) + [Release] && sigma.pc.Completing?
      ensures rxPackets == old(rxPackets) + rcvd && sigma.stack == old(sigma).stack && KernelOnlyWrites()
    {
      hide Inv, Runs, After, Initial, UserSteps, Waiting, SameOutside, KernelSide;
      KernelMay();
      ReachableInv(run);
      BatchIsThere(sigma);
      WaitingAfterRelease(buffer[..], rx, deliveries, rxPackets, rcvd);
      rx := rx[rcvd..];
      rxPackets := rxPackets + rcvd;
      Advance(Release);
    }

    /** complete_tx: the completed frames, up to a ring's worth, go back to the free stack in order. */
    method CompleteTx() returns (ghost completed: nat)
      requires Slots() && umemFrameFree + |cq| <= NUM_FRAMES
      modifies this`umemFrameFree, umemFrameAddr, this`cq, this`outstandingTx
      ensures Slots() && completed <= |old(cq)| && (old(outstandingTx) == 0 ==> completed == 0)
      ensures Stack() == old(Stack()) + old(cq)[..completed] && cq == old(cq)[completed..]
      ensures outstandingTx == if completed < old(outstandingTx) then old(outstandingTx) - completed else 0
    {
      completed := 0;
      assert Stack() + cq[..0] == Stack() && cq[0..] == cq;
      if outstandingTx == 0 {
        return;
      }
      var n :| 0 <= n <= RX_SIZE && n <= |cq|;
      completed := n;
      assert cq[..0] == [] && cq[0..] == cq;
      if n <= 0 {
        return;
      }
      for i := 0 to n
        modifies this`umemFrameFree, umemFrameAddr
        invariant Slots() && umemFrameFree == old(umemFrameFree) + i && Stack() == old(Stack()) + cq[..i]
      {
        FreeUmemFrame(cq[i]);
        assert cq[..i + 1] == cq[..i] + [cq[i]];
      }
      cq := cq[n..];
      outstandingTx := outstandingTx - (if n < outstandingTx then n else outstandingTx);
    }

    /** complete_tx at the end of a batch: nothing is outstanding, so nothing moves. */
    method FinishBatch() returns (ghost n: nat)
      requires Valid() && sigma.pc.Completing?
      modifies this, umemFrameAddr, buffer
      ensures Valid() && UserSteps(run) == old(UserSteps(run)) + [Complete(n)] && sigma.pc.Polling?
      ensures rxPackets == old(rxPackets) && sigma.stack == old(sigma).stack && KernelOnlyWrites()
    {
      hide Inv, Runs, After, Initial, UserSteps, Waiting, SameOutside, KernelSide;
      KernelMay();
      ReachableInv(run);
      NothingOutstanding(sigma);
      n := CompleteTx();
      Advance(Complete(n));
    }

    /** The refill of the fill ring; in `b` the numbers of the batch. */
    method Refill(rcvd: nat) returns (ghost b: Batch)
      requires Valid() && sigma.pc == Peeked(rcvd)
      modifies this, umemFrameAddr, buffer
      ensures Valid() && sigma.pc == Processing(rcvd, 0)
      ensures UserSteps(run) == old(UserSteps(run)) + [NbFree(b.stock)] + RefillSteps(b)
      ensures old(deliveries) <= deliveries && rxPackets == old(rxPackets)
    {
      hide Inv, Runs, After, Initial, UserSteps, XskSocket.Valid;
      b := Batch(rcvd, 0, 0, [], 0);
      var stock := ProdNbFree(umemFrameFree);
      if stock > 0 {
        var ret;
        ghost var v;
        ret, v := ProdReserve(stock);
        if ret != stock {
          assert false;  // the retry loop is not reached
        }
        b := Batch(rcvd, stock, v, [], 0);
        FillReserved(rcvd, stock);
        ProdSubmit();
      }
    }

    /** The loop that writes the reserved slots. */
    method FillReserved(rcvd: nat, stock: nat)
      requires Valid() && sigma.pc == Filling(rcvd, stock, 0)
      modifies this, umemFrameAddr, buffer
      ensures Valid() && sigma.pc == Filling(rcvd, stock, stock)
      ensures UserSteps(run) == old(UserSteps(run)) + FillSteps(stock)
      ensures old(deliveries) <= deliveries && rxPackets == old(rxPackets)
    {
      hide Inv, Runs, After, Initial, UserSteps, XskSocket.Valid;
      for i := 0 to stock
        invariant Valid() && sigma.pc == Filling(rcvd, stock, i)
        invariant UserSteps(run) == old(UserSteps(run)) + FillSteps(i)
        invariant old(deliveries) <= deliveries && rxPackets == old(rxPackets)
      {
        WriteFillAddr();
      }
    }

    /** The loop over the received descriptors: each delivered packet is answered where it lies; in `sents` which of
        them got a reply. */
    method ProcessBatch(rcvd: nat) returns (ghost sents: seq<bool>)
      requires Valid() && sigma.pc == Processing(rcvd, 0)
      modifies this, umemFrameAddr, buffer
      ensures Valid() && sigma.pc == Processing(rcvd, rcvd) && |sents| == rcvd
      ensures UserSteps(run) == old(UserSteps(run)) + ProcessSteps(sents)
      ensures old(deliveries) <= deliveries && rxPackets == old(rxPackets)
      ensures Answered(buffer[..], sigma.stack, deliveries, rxPackets, rcvd)
      ensures forall i :: 0 <= i < rcvd && sents[i] ==> IsRequest(deliveries[rxPackets + i])
    {
      hide Inv, Runs, After, Initial, UserSteps, XskSocket.Valid, AnsweredAt, IsRequest;
      sents := [];
      NothingAnswered();
      for i := 0 to rcvd
        invariant Valid() && sigma.pc == Processing(rcvd, i) && |sents| == i
        invariant UserSteps(run) == old(UserSteps(run)) + ProcessSteps(sents)
        invariant old(deliveries) <= deliveries && rxPackets == old(rxPackets)
        invariant Answered(buffer[..], sigma.stack, deliveries, rxPackets, i)
        invariant forall j :: 0 <= j < i && sents[j] ==> IsRequest(deliveries[rxPackets + j])
      {
        ghost var replied := ProcessNext(i);
        sents := sents + [replied];
        assert sents[..i] + [replied] == sents;
      }
    }

    lemma NothingAnswered()
      requires Valid()
      ensures Answered(buffer[..], sigma.stack, deliveries, rxPackets, 0)
    {
    }

    /** handle_receive_packets: with the kernel acting in between, it takes exactly the steps of one batch in order. The
        packets it handles are the next ones the kernel delivered; in the end each of them has been processed, and
        its frame lies on the stack. */
    method HandleReceivePackets() returns (ghost b: Batch)
      requires Valid() && sigma.pc.Polling?
      modifies this, umemFrameAddr, buffer
      ensures Valid() && sigma.pc.Polling?
      ensures |b.sents| == b.rcvd && UserSteps(run) == old(UserSteps(run)) + StepsOf(b)
      ensures old(deliveries) <= deliveries && rxPackets == old(rxPackets) + b.rcvd
      ensures Answered(buffer[..], sigma.stack, deliveries, old(rxPackets), b.rcvd)
      ensures forall i :: 0 <= i < b.rcvd && b.sents[i] ==> IsRequest(deliveries[old(rxPackets) + i])
    {
      hide Inv, Runs, After, Initial, UserSteps, ProcessSteps, RefillSteps, XskSocket.Valid, Answered, IsRequest;
      var rcvd := RxPeek();
      b := Batch(0, 0, 0, [], 0);
      NothingAnswered();
      if rcvd == 0 {
        return;
      }
      ghost var refill := Refill(rcvd);
      ghost var sents := ProcessBatch(rcvd);
      AnsweredAreDelivered(buffer[..], sigma.stack, deliveries, rxPackets, rcvd);
      ghost var n := EndBatch(rcvd);
      b := Batch(rcvd, refill.stock, refill.reserved, sents, n);
      SameRefill(b, refill);
    }

    /** The end of a batch: what has been answered stays as it is. */
    method EndBatch(rcvd: nat) returns (ghost n: nat)
      requires Valid() && sigma.pc == Processing(rcvd, rcvd)
      requires Answered(buffer[..], sigma.stack, deliveries, rxPackets, rcvd)
      modifies this, umemFrameAddr, buffer
      ensures Valid() && sigma.pc.Polling?
      ensures UserSteps(run) == old(UserSteps(run)) + [Release, Complete(n)]
      ensures old(deliveries) <= deliveries && rxPackets == old(rxPackets) + rcvd
      ensures Answered(buffer[..], sigma.stack, deliveries, old(rxPackets), rcvd)
    {
      hide Inv, Runs, After, Initial, UserSteps, Waiting, Answered, SameOutside, KernelSide;
      ghost var s, mem, was := sigma, buffer[..], deliveries;
      ReachableInv(run);
      RxRelease(rcvd);
      AnswersKept(s, mem, buffer[..], was, deliveries, old(rxPackets), rcvd);
      s, mem, was := sigma, buffer[..], deliveries;
      ReachableInv(run);
      n := FinishBatch();
      AnswersKept(s, mem, buffer[..], was, deliveries, old(rxPackets), rcvd);
    }

    static lemma SameRefill(b: Batch, c: Batch)
      requires b.stock == c.stock && b.reserved == c.reserved
      ensures RefillSteps(b) == RefillSteps(c)
    {
    }

    static lemma OneMorePoll(polls: seq<int>, n: nat)
      requires n < |polls|
      ensures multiset(polls[..n + 1])[1] == multiset(polls[..n])[1] + if polls[n] == 1 then 1 else 0
    {
      assert polls[..n + 1] == polls[..n] + [polls[n]];
    }

    /** rx_and_process: `polls` are the results of poll() until the exit flag is set; a result of 1 starts a batch. */
    method RxAndProcess(polls: seq<int>) returns (ghost batches: seq<Batch>)
      requires Valid() && sigma.pc.Polling?
      modifies this, umemFrameAddr, buffer
      ensures Valid() && sigma.pc.Polling?
      ensures UserSteps(run) == old(UserSteps(run)) + StepsOfAll(batches) && |batches| == multiset(polls)[1]
      ensures Inv(sigma) && rxPackets == |sigma.log| && txPackets <= rxPackets && outstandingTx == 0
    {
      hide Inv, Runs, After, Initial, UserSteps, StepsOf, Answered, IsRequest, Waiting;
      batches := [];
      for n := 0 to |polls|
        invariant Valid() && sigma.pc.Polling?
        invariant UserSteps(run) == old(UserSteps(run)) + StepsOfAll(batches) && |batches| == multiset(polls[..n])[1]
      {
        OneMorePoll(polls, n);
        if polls[n] <= 0 || polls[n] > 1 {
          continue;
        }
        ghost var b := HandleReceivePackets();
        batches := batches + [b];
        assert batches[..|batches| - 1] + [b] == batches;
      }
      assert polls[..|polls|] == polls;
      ReachableInv(run);
      NothingOutstanding(sigma);
      StatsAreTotals(run);
    }
  }
}
