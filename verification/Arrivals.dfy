/** What a client that starts from the configured socket can receive. */
module Arrivals {
  import opened UmemProtocol

  // ----- before the first refill

  /** The packets the kernel delivers in a run. */
  function Delivered(run: seq<Action>): nat {
    if run == [] then 0 else Delivered(run[..|run| - 1]) + if run[|run| - 1].KernelDeliver? then 1 else 0
  }

  lemma {:induction false} DeliveredFromFront(run: seq<Action>)
    requires run != []
    ensures Delivered(run) == (if run[0].KernelDeliver? then 1 else 0) + Delivered(run[1..])
  {
    if |run| > 1 {
      var init := run[..|run| - 1];
      DeliveredFromFront(init);
      assert run[1..][..|run| - 2] == init[1..];
    }
  }

  /** Without a refill every packet takes a frame that is on the fill ring or with the kernel. */
  lemma {:induction false} DeliveriesUseFill(s: State, run: seq<Action>)
    requires Runs(s, run) && Submit !in run
    ensures var s' := After(s, run); Delivered(run) + |s'.fill| + |s'.kernel| == |s.fill| + |s.kernel|
    decreases |run|
  {
    if run != [] {
      DeliveredFromFront(run);
      assert run[0] in run && forall a :: a in run[1..] ==> a in run;
      DeliveriesUseFill(Do(s, run[0]), run[1..]);
    }
  }

  /** From the configured socket on, at most 2048 packets arrive before the first refill is submitted. */
  lemma DeliveredBeforeRefill(run: seq<Action>)
    requires Runs(Initial(), run) && Submit !in run
    ensures Delivered(run) <= 2048
  {
    DeliveriesUseFill(Initial(), run);
  }

  /** Any number of packets up to 2048 can arrive before. */
  lemma {:induction false} AllCanArrive(n: nat) returns (run: seq<Action>)
    requires n <= 2048
    ensures Runs(Initial(), run) && Submit !in run && Delivered(run) == n
    ensures var s := After(Initial(), run); |s.fill| == 2048 - n && s.kernel == [] && |s.rx| == n && s.pc.Polling?
  {
    hide Ascending, Descending;
    if n == 0 {
      run := [];
    } else {
      hide Initial, Runs, After;
      run := AllCanArrive(n - 1);
      var r := run + [KernelTake];
      RunExtends(Initial(), run, KernelTake);
      RunExtends(Initial(), r, KernelDeliver(0, 0, 0));
      assert r[..|run|] == run;
      run := r + [KernelDeliver(0, 0, 0)];
      assert run[..|r|] == r;
    }
  }

  /** A batch can hold any number of packets up to 64, and never more. */
  lemma BatchSize(n: nat)
    ensures n <= 64 <==> exists run :: Runs(Initial(), run) && Enabled(After(Initial(), run), Peek(n))
  {
    hide Initial, Runs, After;
    if n <= 64 {
      var run := AllCanArrive(n);
      assert Enabled(After(Initial(), run), Peek(n));
    }
  }

  // ----- with refills

  /** Between two batches: the fill ring is full and nothing is on its way. */
  ghost predicate Ready(s: State) {
    && s.pc.Polling? && |s.fill| == FILL_SIZE && |s.stack| == NUM_FRAMES - FILL_SIZE
    && s.written == [] && s.kernel == [] && s.rx == [] && s.tx == [] && s.known == 0 && s.outstanding == 0
  }

  /** A packet arrives and is seen by the client. */
  function Arrive(len: nat): seq<Action> { [KernelTake, KernelDeliver(0, 0, len), Peek(1)] }

  /** The client puts one free frame on the fill ring. */
  const REFILL: seq<Action> := [NbFree(1), Reserve(1), WriteFill, Submit]

  /** The packet is handled and the batch ends. */
  function Handle(sent: bool): seq<Action> { [Process(sent), Release, Complete(0)] }

  lemma StepThen(s: State, a: Action, rest: seq<Action>)
    requires Enabled(s, a) && Runs(Do(s, a), rest)
    ensures Runs(s, [a] + rest) && After(s, [a] + rest) == After(Do(s, a), rest)
  {
    assert ([a] + rest)[1..] == rest;
  }

  lemma {:induction false} RunThen(s: State, run: seq<Action>, rest: seq<Action>)
    requires Runs(s, run) && Runs(After(s, run), rest)
    ensures Runs(s, run + rest) && After(s, run + rest) == After(After(s, run), rest)
    decreases |run|
  {
    hide Do, Enabled;
    if run == [] {
      assert run + rest == rest;
    } else {
      RunThen(Do(s, run[0]), run[1..], rest);
      StepThen(s, run[0], run[1..] + rest);
      assert [run[0]] + (run[1..] + rest) == run + rest;
    }
  }

  lemma ThreeSteps(s: State, a: Action, b: Action, c: Action)
    requires Enabled(s, a) && Enabled(Do(s, a), b) && Enabled(Do(Do(s, a), b), c)
    ensures Runs(s, [a, b, c]) && After(s, [a, b, c]) == Do(Do(Do(s, a), b), c)
  {
    hide Do, Enabled;
    StepThen(Do(Do(s, a), b), c, []);
    StepThen(Do(s, a), b, [c]);
    StepThen(s, a, [b, c]);
    assert [c] + [] == [c] && [b] + [c] == [b, c] && [a] + [b, c] == [a, b, c];
  }

  lemma ArriveRuns(s: State, len: nat)
    requires Ready(s) && len <= FRAME_SIZE
    ensures Runs(s, Arrive(len))
    ensures var s' := After(s, Arrive(len));
            && s'.pc == Peeked(1) && |s'.rx| == 1 && s'.rx[0].len == len
            && s' == s.(fill := s.fill[1..], rx := s'.rx, pc := Peeked(1))
  {
    ThreeSteps(s, KernelTake, KernelDeliver(0, 0, len), Peek(1));
  }

  lemma RefillRuns(s: State)
    requires s.pc == Peeked(1) && |s.fill| == FILL_SIZE - 1 && s.known == 0
    requires |s.stack| == NUM_FRAMES - FILL_SIZE && s.written == []
    ensures Runs(s, REFILL)
    ensures var s' := After(s, REFILL);
            && |s'.fill| == FILL_SIZE && |s'.stack| == |s.stack| - 1
            && s' == s.(fill := s'.fill, stack := s'.stack, pc := Processing(1, 0))
  {
    var s1 := Do(s, NbFree(1));
    assert s1 == s.(known := 1, pc := Stocking(1, 1));
    ThreeSteps(s1, Reserve(1), WriteFill, Submit);
    StepThen(s, NbFree(1), [Reserve(1), WriteFill, Submit]);
    assert [NbFree(1)] + [Reserve(1), WriteFill, Submit] == REFILL;
  }

  lemma HandleRuns(s: State, sent: bool)
    requires s.pc == Processing(1, 0) && |s.rx| == 1 && |s.stack| < NUM_FRAMES && s.outstanding == 0
    ensures Runs(s, Handle(sent))
    ensures var s' := After(s, Handle(sent));
            && |s'.stack| == |s.stack| + 1 && s'.log == s.log + [Handled(s.rx[0], sent)]
            && s' == s.(stack := s'.stack, rx := [], stats := s'.stats, log := s'.log, pc := Polling)
  {
    ThreeSteps(s, Process(sent), Release, Complete(0));
  }

  function Cycle(len: nat, sent: bool): seq<Action> { Arrive(len) + (REFILL + Handle(sent)) }

  /** A packet arrives, is handled, and everything is as it was before. */
  lemma CycleRuns(s: State, len: nat, sent: bool)
    requires Ready(s) && len <= FRAME_SIZE
    ensures Runs(s, Cycle(len, sent)) && Ready(After(s, Cycle(len, sent)))
    ensures var log := After(s, Cycle(len, sent)).log;
            |log| == |s.log| + 1 && log[..|s.log|] == s.log && log[|s.log|].desc.len == len && log[|s.log|].sent == sent
  {
    hide Do, Enabled, Runs, After;
    ArriveRuns(s, len);
    var s1 := After(s, Arrive(len));
    RefillRuns(s1);
    var s2 := After(s1, REFILL);
    HandleRuns(s2, sent);
    RunThen(s1, REFILL, Handle(sent));
    RunThen(s, Arrive(len), REFILL + Handle(sent));
  }

  /** The client never starves: any number of packets, of any lengths and whatever becomes of the replies, can arrive
      and be handled one after the other. */
  lemma {:induction false} AllCanBeHandled(lens: seq<nat>, sents: seq<bool>) returns (run: seq<Action>)
    requires |lens| == |sents| && forall i :: 0 <= i < |lens| ==> lens[i] <= FRAME_SIZE
    ensures Runs(Initial(), run) && Ready(After(Initial(), run))
    ensures var log := After(Initial(), run).log;
            |log| == |lens| && forall i :: 0 <= i < |log| ==> log[i].desc.len == lens[i] && log[i].sent == sents[i]
  {
    if lens == [] {
      run := [];
    } else {
      hide Initial, Runs, After, Ready;
      var n := |lens| - 1;
      var before := AllCanBeHandled(lens[..n], sents[..n]);
      var s := After(Initial(), before);
      CycleRuns(s, lens[n], sents[n]);
      RunThen(Initial(), before, Cycle(lens[n], sents[n]));
      run := before + Cycle(lens[n], sents[n]);
      var log := After(Initial(), run).log;
      assert forall i :: 0 <= i < n ==> log[i] == log[..n][i] == s.log[i];
    }
  }
}
