/** The interpreter of power sequences, hal/HalPwrSeqCmd.c, against any device. */
module PowerSequence {
  import opened Bytes
  import opened Words

  const MAX_POLLING_CNT: nat := 5000

  datatype Command = Read | Write | Polling | Delay | End | Unknown

  /** `WLAN_PWR_CFG`: one step of a sequence, and for which fabs, cuts and interfaces it is meant. */
  datatype Cfg = Cfg(offset: nat, cutMask: bv8, fabMask: bv8, intfMask: bv8, base: nat, cmd: Command, mask: bv8, value: bv8)

  datatype Chip = Chip(cut: bv8, fab: bv8, intf: bv8)

  predicate Matches(chip: Chip, c: Cfg) {
    c.fabMask & chip.fab != 0 && c.cutMask & chip.cut != 0 && c.intfMask & chip.intf != 0
  }

  predicate Share(m: bv8, v: bv8) {
    m & 1 == v & 1 == 1 || m & 2 == v & 2 == 2 || m & 4 == v & 4 == 4 || m & 8 == v & 8 == 8 ||
    m & 16 == v & 16 == 16 || m & 32 == v & 32 == 32 || m & 64 == v & 64 == 64 || m & 128 == v & 128 == 128
  }

  /** A step is meant for a chip whose fab, cut and interface each share a bit with the step's own mask. */
  lemma MatchesIff(chip: Chip, c: Cfg)
    ensures Matches(chip, c) <==> Share(c.fabMask, chip.fab) && Share(c.cutMask, chip.cut) && Share(c.intfMask, chip.intf)
  {
  }

  predicate Ends(chip: Chip, c: Cfg) {
    Matches(chip, c) && c.cmd == End
  }

  predicate HasEnd(chip: Chip, cmds: seq<Cfg>) {
    exists i :: 0 <= i < |cmds| && Ends(chip, cmds[i])
  }

  /** What the device sees.  Register `offset` of the address space `base` is read to be changed, written, or
      polled; in between time passes. */
  datatype Event = Fetched(base: nat, offset: nat, value: bv8)
                 | Stored(base: nat, offset: nat, value: bv8)
                 | Polled(base: nat, offset: nat, value: bv8)
                 | Waited(us: nat)

  /** How a sequence ends, and what happened on the way. */
  datatype Outcome = Outcome(ok: bool, trace: seq<Event>)

  function After(trace: seq<Event>, o: Outcome): Outcome {
    Outcome(o.ok, trace + o.trace)
  }

  /** The octet written back. */
  function Merged(v: bv8, c: Cfg): bv8 {
    (v & !c.mask) | (c.value & c.mask)
  }

  predicate Reached(v: bv8, c: Cfg) {
    v & c.mask == c.value & c.mask
  }

  /** A polling loop: its reads begin with number `n` of the device's answers, and `count` polls have been
      made before.  The counter is compared after every read, whatever the read brought. */
  function Poll(answers: nat -> bv8, n: nat, count: nat, c: Cfg): (r: (Outcome, nat, nat))
    requires count <= MAX_POLLING_CNT + 1
    ensures r.1 == n + |r.0.trace| && r.2 == count + |r.0.trace| && r.2 <= MAX_POLLING_CNT + 2
    ensures r.0.ok <==> r.2 <= MAX_POLLING_CNT + 1
    decreases MAX_POLLING_CNT + 2 - count
  {
    var e := Polled(c.base, c.offset, answers(n));
    if count > MAX_POLLING_CNT then (Outcome(false, [e]), n + 1, count + 1)
    else if Reached(answers(n), c) then (Outcome(true, [e]), n + 1, count + 1)
    else
      var p := Poll(answers, n + 1, count + 1, c);
      (After([e], p.0), p.1, p.2)
  }

  function Duration(c: Cfg): nat {
    if c.value == 0 then c.offset else c.offset * 1000
  }

  lemma AfterAfter(t: seq<Event>, w: seq<Event>, o: Outcome)
    ensures After(t, After(w, o)) == After(t + w, o) && After([], o) == o
  {
    assert t + (w + o.trace) == (t + w) + o.trace;
    assert [] + o.trace == o.trace;
  }

  /** One step of a sequence: whether it goes on, and if not, with what result. */
  function Stepped(chip: Chip, c: Cfg, answers: nat -> bv8, n: nat, count: nat): (r: (bool, bool, seq<Event>, nat, nat))
    requires count <= MAX_POLLING_CNT + 1
    ensures r.0 ==> !Ends(chip, c) && r.4 <= MAX_POLLING_CNT + 1
  {
    if !Matches(chip, c) then (true, true, [], n, count)
    else
      match c.cmd
      case Read => (true, true, [], n, count)
      case Write => (true, true, [Fetched(c.base, c.offset, answers(n)), Stored(c.base, c.offset, Merged(answers(n), c))], n + 1, count)
      case Polling =>
        var p := Poll(answers, n, count, c);
        (p.0.ok, p.0.ok, p.0.trace, p.1, p.2)
      case Delay => (true, true, [Waited(Duration(c))], n, count)
      case End => (false, true, [], n, count)
      case Unknown => (true, true, [], n, count)
  }

  /** The meaning of a sequence. */
  function Run(chip: Chip, cmds: seq<Cfg>, answers: nat -> bv8, n: nat, count: nat): (o: Outcome)
    requires HasEnd(chip, cmds) && count <= MAX_POLLING_CNT + 1
    decreases |cmds|
  {
    var (goOn, ok, step, n', count') := Stepped(chip, cmds[0], answers, n, count);
    if !goOn then Outcome(ok, step)
    else
      EndLater(chip, cmds);
      After(step, Run(chip, cmds[1..], answers, n', count'))
  }

  lemma EndLater(chip: Chip, cmds: seq<Cfg>)
    requires HasEnd(chip, cmds) && !Ends(chip, cmds[0])
    ensures HasEnd(chip, cmds[1..])
  {
    var i :| 0 <= i < |cmds| && Ends(chip, cmds[i]);
    assert cmds[1..][i - 1] == cmds[i];
  }

  // ----- what a chip sees of a sequence

  /** The steps meant for the chip, up to the first end. */
  function Selected(chip: Chip, cmds: seq<Cfg>): (s: seq<Cfg>)
    requires HasEnd(chip, cmds)
    ensures HasEnd(chip, s) && |s| <= |cmds| && forall i :: 0 <= i < |s| ==> Matches(chip, s[i])
    ensures forall i :: 0 <= i < |s| ==> (s[i].cmd == End <==> i == |s| - 1)
  {
    if Ends(chip, cmds[0]) then
      assert Ends(chip, [cmds[0]][0]);
      [cmds[0]]
    else
      EndLater(chip, cmds);
      if Matches(chip, cmds[0]) then
        var s := Selected(chip, cmds[1..]);
        assert Ends(chip, ([cmds[0]] + s)[|s|]);
        [cmds[0]] + s
      else Selected(chip, cmds[1..])
  }

  /** A chip behaves as on the steps meant for it alone. */
  lemma {:induction false} RunsSelected(chip: Chip, cmds: seq<Cfg>, answers: nat -> bv8, n: nat, count: nat)
    requires HasEnd(chip, cmds) && count <= MAX_POLLING_CNT + 1
    ensures Run(chip, cmds, answers, n, count) == Run(chip, Selected(chip, cmds), answers, n, count)
    decreases |cmds|
  {
    var (goOn, ok, step, n', count') := Stepped(chip, cmds[0], answers, n, count);
    if goOn {
      EndLater(chip, cmds);
      RunsSelected(chip, cmds[1..], answers, n', count');
      if Matches(chip, cmds[0]) {
        assert Selected(chip, cmds)[1..] == Selected(chip, cmds[1..]);
      } else {
        AfterAfter([], [], Run(chip, cmds[1..], answers, n, count));
      }
    }
  }

  // ----- polling

  function Polls(trace: seq<Event>): nat {
    if trace == [] then 0 else (if trace[0].Polled? then 1 else 0) + Polls(trace[1..])
  }

  lemma {:induction false} PollsAppend(a: seq<Event>, b: seq<Event>)
    ensures Polls(a + b) == Polls(a) + Polls(b)
  {
    if a == [] {
      assert a + b == b;
    } else {
      assert (a + b)[1..] == a[1..] + b;
      PollsAppend(a[1..], b);
    }
  }

  lemma {:induction false} PollIsAllPolls(answers: nat -> bv8, n: nat, count: nat, c: Cfg)
    requires count <= MAX_POLLING_CNT + 1
    ensures Polls(Poll(answers, n, count, c).0.trace) == |Poll(answers, n, count, c).0.trace|
    decreases MAX_POLLING_CNT + 2 - count
  {
    if count <= MAX_POLLING_CNT && !Reached(answers(n), c) {
      PollIsAllPolls(answers, n + 1, count + 1, c);
      var t := Poll(answers, n + 1, count + 1, c).0.trace;
      assert ([Polled(c.base, c.offset, answers(n))] + t)[1..] == t;
    }
  }

  lemma StepPolls(chip: Chip, c: Cfg, answers: nat -> bv8, n: nat, count: nat)
    requires count <= MAX_POLLING_CNT + 1
    ensures var (goOn, ok, step, n', count') := Stepped(chip, c, answers, n, count);
            count + Polls(step) == count' && (!goOn ==> (ok <==> count' <= MAX_POLLING_CNT + 1) && count' <= MAX_POLLING_CNT + 2)
  {
    PollIsAllPolls(answers, n, count, c);
    var w := [Fetched(c.base, c.offset, answers(n)), Stored(c.base, c.offset, Merged(answers(n), c))];
    assert w[1..] == [w[1]] && Polls(w) == Polls([w[1]]) == 0;
    assert Polls([Waited(Duration(c))]) == 0;
  }

  /** The counter is never reset: a sequence polls 5002 times at most in all, and fails exactly when it does
      so as often as that. */
  lemma {:induction false} PollingBudget(chip: Chip, cmds: seq<Cfg>, answers: nat -> bv8, n: nat, count: nat)
    requires HasEnd(chip, cmds) && count <= MAX_POLLING_CNT + 1
    ensures var o := Run(chip, cmds, answers, n, count);
            count + Polls(o.trace) <= MAX_POLLING_CNT + 2 && (o.ok <==> count + Polls(o.trace) < MAX_POLLING_CNT + 2)
    decreases |cmds|
  {
    StepPolls(chip, cmds[0], answers, n, count);
    var (goOn, ok, step, n', count') := Stepped(chip, cmds[0], answers, n, count);
    if goOn {
      EndLater(chip, cmds);
      PollingBudget(chip, cmds[1..], answers, n', count');
      PollsAppend(step, Run(chip, cmds[1..], answers, n', count').trace);
    }
  }

  // ----- what the device has to answer

  /** Answer number `j` is the first from number `n` on that has the value waited for. */
  predicate FirstReached(answers: nat -> bv8, n: nat, j: nat, c: Cfg) {
    n <= j && Reached(answers(j), c) && forall i :: n <= i < j ==> !Reached(answers(i), c)
  }

  /** A polling loop succeeds exactly if the value comes while the counter is below the limit; the poll that
      brings the counter to the limit fails whatever it reads. */
  lemma {:induction false} PollMeetsIff(answers: nat -> bv8, n: nat, count: nat, c: Cfg)
    requires count <= MAX_POLLING_CNT + 1
    ensures Poll(answers, n, count, c).0.ok
            <==> exists j: nat :: n <= j <= n + MAX_POLLING_CNT - count && Reached(answers(j), c)
    decreases MAX_POLLING_CNT + 2 - count
  {
    if count <= MAX_POLLING_CNT && !Reached(answers(n), c) {
      PollMeetsIff(answers, n + 1, count + 1, c);
    }
  }

  /** After the first answer that has the value, as many polls have been made as it took. */
  lemma {:induction false} PollStops(answers: nat -> bv8, n: nat, count: nat, c: Cfg, j: nat)
    requires count <= MAX_POLLING_CNT + 1 && FirstReached(answers, n, j, c) && j - n <= MAX_POLLING_CNT - count
    ensures var p := Poll(answers, n, count, c); p.0.ok && p.1 == j + 1 && p.2 == count + (j + 1 - n)
    decreases j - n
  {
    if n < j {
      PollStops(answers, n + 1, count + 1, c, j);
    }
  }

  lemma {:induction false} LeastReached(answers: nat -> bv8, n: nat, k: nat, c: Cfg) returns (j: nat)
    requires n <= k && Reached(answers(k), c)
    ensures j <= k && FirstReached(answers, n, j, c)
    decreases k - n
  {
    if Reached(answers(n), c) {
      j := n;
    } else {
      j := LeastReached(answers, n + 1, k, c);
    }
  }

  lemma OneFirst(answers: nat -> bv8, n: nat, i: nat, j: nat, c: Cfg)
    requires FirstReached(answers, n, i, c) && FirstReached(answers, n, j, c)
    ensures i == j
  {
    assert i < j ==> !Reached(answers(i), c);
    assert j < i ==> !Reached(answers(j), c);
  }

  /** The device answers as the sequence needs it: every polling step gets its value, and all of them together
      with at most `budget` polls. */
  ghost predicate Meets(chip: Chip, cmds: seq<Cfg>, answers: nat -> bv8, n: nat, budget: nat)
    requires HasEnd(chip, cmds)
    decreases |cmds|
  {
    var c := cmds[0];
    if Ends(chip, c) then true
    else
      EndLater(chip, cmds);
      if !Matches(chip, c) then Meets(chip, cmds[1..], answers, n, budget)
      else if c.cmd == Write then Meets(chip, cmds[1..], answers, n + 1, budget)
      else if c.cmd == Polling then
        exists j: nat :: FirstReached(answers, n, j, c) && j + 1 - n <= budget
                         && Meets(chip, cmds[1..], answers, j + 1, budget - (j + 1 - n))
      else Meets(chip, cmds[1..], answers, n, budget)
  }

  /** A sequence succeeds exactly if the device answers so within 5001 polls. */
  lemma {:induction false} SucceedsIff(chip: Chip, cmds: seq<Cfg>, answers: nat -> bv8, n: nat, count: nat)
    requires HasEnd(chip, cmds) && count <= MAX_POLLING_CNT + 1
    ensures Run(chip, cmds, answers, n, count).ok <==> Meets(chip, cmds, answers, n, MAX_POLLING_CNT + 1 - count)
    decreases |cmds|
  {
    var c := cmds[0];
    if !Ends(chip, c) {
      EndLater(chip, cmds);
      var (goOn, ok, step, n', count') := Stepped(chip, c, answers, n, count);
      if goOn {
        SucceedsIff(chip, cmds[1..], answers, n', count');
      }
      if Matches(chip, c) && c.cmd == Polling {
        PollingSucceedsIff(chip, cmds, answers, n, count);
      }
    }
  }

  lemma PollingSucceedsIff(chip: Chip, cmds: seq<Cfg>, answers: nat -> bv8, n: nat, count: nat)
    requires HasEnd(chip, cmds) && count <= MAX_POLLING_CNT + 1
    requires Matches(chip, cmds[0]) && cmds[0].cmd == Polling && HasEnd(chip, cmds[1..])
    requires var p := Poll(answers, n, count, cmds[0]);
             p.0.ok ==> (Run(chip, cmds[1..], answers, p.1, p.2).ok
                         <==> Meets(chip, cmds[1..], answers, p.1, MAX_POLLING_CNT + 1 - p.2))
    ensures Run(chip, cmds, answers, n, count).ok <==> Meets(chip, cmds, answers, n, MAX_POLLING_CNT + 1 - count)
  {
    var c, budget := cmds[0], MAX_POLLING_CNT + 1 - count;
    PollMeetsIff(answers, n, count, c);
    if Poll(answers, n, count, c).0.ok {
      var k: nat :| n <= k <= n + MAX_POLLING_CNT - count && Reached(answers(k), c);
      var j := LeastReached(answers, n, k, c);
      PollStops(answers, n, count, c, j);
      forall i: nat | FirstReached(answers, n, i, c) ensures i == j {
        OneFirst(answers, n, i, j, c);
      }
    }
  }

  /** A value that comes with the very last poll comes too late. */
  lemma LastPollFails(chip: Chip, c: Cfg, end: Cfg, answers: nat -> bv8, n: nat, count: nat)
    requires count <= MAX_POLLING_CNT + 1 && Matches(chip, c) && c.cmd == Polling && Ends(chip, end)
    requires FirstReached(answers, n, n + MAX_POLLING_CNT + 1 - count, c)
    ensures HasEnd(chip, [c, end])
    ensures var o := Run(chip, [c, end], answers, n, count);
            !o.ok && |o.trace| == MAX_POLLING_CNT + 2 - count
            && o.trace[|o.trace| - 1] == Polled(c.base, c.offset, answers(n + MAX_POLLING_CNT + 1 - count))
  {
    assert Ends(chip, [c, end][1]);
    PollMeetsIff(answers, n, count, c);
    LastPoll(answers, n, count, c);
  }

  lemma {:induction false} LastPoll(answers: nat -> bv8, n: nat, count: nat, c: Cfg)
    requires count <= MAX_POLLING_CNT + 1 && !Poll(answers, n, count, c).0.ok
    ensures var t := Poll(answers, n, count, c).0.trace;
            |t| == MAX_POLLING_CNT + 2 - count
            && t[|t| - 1] == Polled(c.base, c.offset, answers(n + MAX_POLLING_CNT + 1 - count))
    decreases MAX_POLLING_CNT + 2 - count
  {
    if count <= MAX_POLLING_CNT {
      LastPoll(answers, n + 1, count + 1, c);
    }
  }

  // ----- writing

  /** The write comes right after a read of the same register and changes only what its step masks. */
  predicate WrittenFor(chip: Chip, c: Cfg, before: Event, e: Event) {
    && Matches(chip, c) && c.cmd == Write && e.Stored? && before.Fetched?
    && before.base == e.base == c.base && before.offset == e.offset == c.offset
    && OnlyMasked(c, before.value, e.value)
  }

  predicate OnlyMasked(c: Cfg, v: bv8, m: bv8) {
    m & !c.mask == v & !c.mask && m & c.mask == c.value & c.mask
  }

  /** Every write of the trace is of that kind. */
  predicate Careful(chip: Chip, cmds: seq<Cfg>, trace: seq<Event>) {
    forall i :: 0 <= i < |trace| && trace[i].Stored? ==>
      i > 0 && exists k :: 0 <= k < |cmds| && WrittenFor(chip, cmds[k], trace[i - 1], trace[i])
  }

  lemma CarefulAfter(chip: Chip, cmds: seq<Cfg>, first: seq<Event>, rest: seq<Event>)
    requires cmds != [] && Careful(chip, cmds, first) && Careful(chip, cmds[1..], rest)
    ensures Careful(chip, cmds, first + rest)
  {
    var t := first + rest;
    forall i | 0 <= i < |t| && t[i].Stored?
      ensures i > 0 && exists k :: 0 <= k < |cmds| && WrittenFor(chip, cmds[k], t[i - 1], t[i])
    {
      if i < |first| {
        assert t[i] == first[i];
      } else {
        var j := i - |first|;
        var k :| 0 <= k < |cmds[1..]| && WrittenFor(chip, cmds[1..][k], rest[j - 1], rest[j]);
        assert cmds[1..][k] == cmds[k + 1] && t[i - 1] == rest[j - 1];
      }
    }
  }

  predicate AllPolled(t: seq<Event>) {
    forall i :: 0 <= i < |t| ==> t[i].Polled?
  }

  lemma {:induction false} PollOnlyPolls(answers: nat -> bv8, n: nat, count: nat, c: Cfg)
    requires count <= MAX_POLLING_CNT + 1
    ensures AllPolled(Poll(answers, n, count, c).0.trace)
    decreases MAX_POLLING_CNT + 2 - count
  {
    if count <= MAX_POLLING_CNT && !Reached(answers(n), c) {
      PollOnlyPolls(answers, n + 1, count + 1, c);
    }
  }

  lemma StepIsCareful(chip: Chip, cmds: seq<Cfg>, answers: nat -> bv8, n: nat, count: nat)
    requires cmds != [] && count <= MAX_POLLING_CNT + 1
    ensures Careful(chip, cmds, Stepped(chip, cmds[0], answers, n, count).2)
  {
    var c := cmds[0];
    PollOnlyPolls(answers, n, count, c);
    if Matches(chip, c) && c.cmd == Write {
      MergedBits(answers(n), c);
      WriteIsCareful(chip, cmds, answers(n), Merged(answers(n), c));
    }
  }

  lemma WriteIsCareful(chip: Chip, cmds: seq<Cfg>, v: bv8, m: bv8)
    requires cmds != [] && Matches(chip, cmds[0]) && cmds[0].cmd == Write && OnlyMasked(cmds[0], v, m)
    ensures var c := cmds[0]; Careful(chip, cmds, [Fetched(c.base, c.offset, v), Stored(c.base, c.offset, m)])
  {
    var c := cmds[0];
    PairIsCareful(chip, cmds, Fetched(c.base, c.offset, v), Stored(c.base, c.offset, m));
  }

  lemma PairIsCareful(chip: Chip, cmds: seq<Cfg>, before: Event, e: Event)
    requires cmds != [] && WrittenFor(chip, cmds[0], before, e)
    ensures Careful(chip, cmds, [before, e])
  {
    var w := [before, e];
    assert WrittenFor(chip, cmds[0], w[0], w[1]);
  }

  lemma MergedBits(v: bv8, c: Cfg)
    ensures OnlyMasked(c, v, Merged(v, c))
  {
  }

  /** Over the whole sequence every write changes only masked bits of what was just read. */
  lemma {:induction false} WritesOnlyMaskedBits(chip: Chip, cmds: seq<Cfg>, answers: nat -> bv8, n: nat, count: nat)
    requires HasEnd(chip, cmds) && count <= MAX_POLLING_CNT + 1
    ensures Careful(chip, cmds, Run(chip, cmds, answers, n, count).trace)
    decreases |cmds|
  {
    StepIsCareful(chip, cmds, answers, n, count);
    var (goOn, ok, step, n', count') := Stepped(chip, cmds[0], answers, n, count);
    if goOn {
      EndLater(chip, cmds);
      WritesOnlyMaskedBits(chip, cmds[1..], answers, n', count');
      CarefulAfter(chip, cmds, step, Run(chip, cmds[1..], answers, n', count').trace);
    }
  }

  // ----- what a run does, step for step

  /** `PWRSEQ_DELAY_US`; anything else counts milliseconds. */
  const DELAY_US: bv8 := 0

  predicate AllPolls(c: Cfg, seg: seq<Event>) {
    seg != [] && forall i :: 0 <= i < |seg| ==> seg[i].Polled? && seg[i].base == c.base && seg[i].offset == c.offset
  }

  /** What a step that has been carried out looks like: a write reads its register and stores it with only the
      masked bits changed, a delay waits its microseconds or milliseconds, and polling goes on until the value is
      there. */
  predicate SegmentOf(c: Cfg, seg: seq<Event>) {
    match c.cmd
    case Write =>
      && |seg| == 2 && seg[0].Fetched? && seg[1].Stored?
      && seg[0].base == seg[1].base == c.base && seg[0].offset == seg[1].offset == c.offset
      && OnlyMasked(c, seg[0].value, seg[1].value)
    case Polling =>
      && AllPolls(c, seg) && Reached(seg[|seg| - 1].value, c)
      && forall i :: 0 <= i < |seg| - 1 ==> !Reached(seg[i].value, c)
    case Delay =>
      |seg| == 1 && seg[0].Waited? && seg[0].us == if c.value == DELAY_US then c.offset else c.offset * 1000
    case _ => seg == []
  }

  /** A polling step that gave up. */
  predicate GaveUp(c: Cfg, seg: seq<Event>) {
    c.cmd == Polling && AllPolls(c, seg) && forall i :: 0 <= i < |seg| - 1 ==> !Reached(seg[i].value, c)
  }

  function Flat(segs: seq<seq<Event>>): seq<Event> {
    if segs == [] then [] else segs[0] + Flat(segs[1..])
  }

  /** The trace falls into one segment for each of the steps `steps`, in order; a run that fails ends with the
      polling step that gave up. */
  predicate Performs(steps: seq<Cfg>, o: Outcome, segs: seq<seq<Event>>) {
    && Flat(segs) == o.trace && |segs| <= |steps|
    && if o.ok then |segs| == |steps| && forall i :: 0 <= i < |segs| ==> SegmentOf(steps[i], segs[i])
       else
         && segs != [] && GaveUp(steps[|segs| - 1], segs[|segs| - 1])
         && forall i :: 0 <= i < |segs| - 1 ==> SegmentOf(steps[i], segs[i])
  }

  lemma {:induction false} PollIsSegment(answers: nat -> bv8, n: nat, count: nat, c: Cfg)
    requires count <= MAX_POLLING_CNT + 1 && c.cmd == Polling
    ensures var p := Poll(answers, n, count, c).0;
            AllPolls(c, p.trace) && if p.ok then SegmentOf(c, p.trace) else GaveUp(c, p.trace)
    decreases MAX_POLLING_CNT + 2 - count
  {
    if count <= MAX_POLLING_CNT && !Reached(answers(n), c) {
      PollIsSegment(answers, n + 1, count + 1, c);
      var t := Poll(answers, n + 1, count + 1, c).0.trace;
      var all := [Polled(c.base, c.offset, answers(n))] + t;
      assert forall i :: 0 < i < |all| ==> all[i] == t[i - 1];
    }
  }

  lemma WriteIsSegment(c: Cfg, v: bv8, step: seq<Event>)
    requires c.cmd == Write && step == [Fetched(c.base, c.offset, v), Stored(c.base, c.offset, Merged(v, c))]
    ensures SegmentOf(c, step)
  {
    MergedBits(v, c);
  }

  lemma DelayIsSegment(c: Cfg, step: seq<Event>)
    requires c.cmd == Delay && step == [Waited(Duration(c))]
    ensures SegmentOf(c, step)
  {
  }

  lemma StepIsSegment(chip: Chip, c: Cfg, answers: nat -> bv8, n: nat, count: nat)
    requires count <= MAX_POLLING_CNT + 1
    ensures var (goOn, ok, step, n', count') := Stepped(chip, c, answers, n, count);
            && (!Matches(chip, c) ==> goOn && step == [])
            && (Matches(chip, c) && (goOn || ok) ==> SegmentOf(c, step))
            && (!goOn ==> Matches(chip, c) && (ok <==> Ends(chip, c)))
            && (!goOn && !ok ==> GaveUp(c, step))
  {
    var step := Stepped(chip, c, answers, n, count).2;
    if Matches(chip, c) {
      match c.cmd
      case Polling => PollIsSegment(answers, n, count, c);
      case Write => WriteIsSegment(c, answers(n), step);
      case Delay => DelayIsSegment(c, step);
      case _ => assert SegmentOf(c, []);
    }
  }

  /** Every run does what its selected steps say, each once and in order, up to the end or to a polling step that
      gives up. */
  lemma {:induction false} RunPerforms(chip: Chip, cmds: seq<Cfg>, answers: nat -> bv8, n: nat, count: nat)
    returns (segs: seq<seq<Event>>)
    requires HasEnd(chip, cmds) && count <= MAX_POLLING_CNT + 1
    ensures Performs(Selected(chip, cmds), Run(chip, cmds, answers, n, count), segs)
    decreases |cmds|
  {
    StepIsSegment(chip, cmds[0], answers, n, count);
    var (goOn, ok, step, n', count') := Stepped(chip, cmds[0], answers, n, count);
    var sel := Selected(chip, cmds);
    if !goOn {
      segs := [step];
      assert Flat([step]) == step + [] == step;
      FirstSelected(chip, cmds);
    } else {
      EndLater(chip, cmds);
      segs := RunPerforms(chip, cmds[1..], answers, n', count');
      var o := Run(chip, cmds[1..], answers, n', count');
      if Matches(chip, cmds[0]) {
        PerformsMore(cmds[0], step, Selected(chip, cmds[1..]), o, segs);
        segs := [step] + segs;
      } else {
        AfterAfter([], [], o);
      }
    }
  }

  lemma FirstSelected(chip: Chip, cmds: seq<Cfg>)
    requires HasEnd(chip, cmds) && Matches(chip, cmds[0])
    ensures Selected(chip, cmds)[0] == cmds[0] && (Ends(chip, cmds[0]) ==> |Selected(chip, cmds)| == 1)
  {
  }

  lemma PerformsMore(c: Cfg, step: seq<Event>, steps: seq<Cfg>, o: Outcome, segs: seq<seq<Event>>)
    requires SegmentOf(c, step) && Performs(steps, o, segs)
    ensures Performs([c] + steps, After(step, o), [step] + segs)
  {
    var all, list := [step] + segs, [c] + steps;
    assert all[1..] == segs;
    assert forall i :: 0 < i < |all| ==> all[i] == segs[i - 1] && list[i] == steps[i - 1];
  }

  // ----- what is changed and waited for

  /** The writes of a trace, each with the event before it. */
  function Changes(trace: seq<Event>): seq<(Event, Event)> {
    if |trace| < 2 then []
    else (if trace[1].Stored? then [(trace[0], trace[1])] else []) + Changes(trace[1..])
  }

  function Waits(trace: seq<Event>): seq<nat> {
    if trace == [] then [] else (if trace[0].Waited? then [trace[0].us] else []) + Waits(trace[1..])
  }

  function StepsOf(steps: seq<Cfg>, cmd: Command): seq<Cfg> {
    if steps == [] then [] else (if steps[0].cmd == cmd then [steps[0]] else []) + StepsOf(steps[1..], cmd)
  }

  lemma {:induction false} ChangesAppend(a: seq<Event>, b: seq<Event>)
    requires b != [] ==> !b[0].Stored?
    ensures Changes(a + b) == Changes(a) + Changes(b)
  {
    if a == [] {
      assert a + b == b;
    } else if |a| == 1 {
      assert (a + b)[1..] == b;
      if b != [] {
        assert (a + b)[1] == b[0];
      }
    } else {
      assert (a + b)[1..] == a[1..] + b && (a + b)[1] == a[1];
      ChangesAppend(a[1..], b);
      Regrouped(if a[1].Stored? then [(a[0], a[1])] else [], Changes(a[1..]), Changes(b));
    }
  }

  lemma {:induction false} WaitsAppend(a: seq<Event>, b: seq<Event>)
    ensures Waits(a + b) == Waits(a) + Waits(b)
  {
    if a == [] {
      assert a + b == b;
    } else {
      assert (a + b)[1..] == a[1..] + b;
      WaitsAppend(a[1..], b);
      Regrouped(if a[0].Waited? then [a[0].us] else [], Waits(a[1..]), Waits(b));
    }
  }

  lemma {:induction false} PollsChangeNothing(c: Cfg, seg: seq<Event>)
    requires AllPolls(c, seg)
    ensures Changes(seg) == [] && Waits(seg) == []
  {
    if |seg| >= 2 {
      PollsChangeNothing(c, seg[1..]);
    } else {
      assert Waits(seg) == Waits(seg[1..]);
    }
  }

  /** The writes `w` are those of the steps, one for one and in order. */
  predicate WrittenBy(steps: seq<Cfg>, w: seq<(Event, Event)>) {
    |w| == |steps| && forall i :: 0 <= i < |w| ==> ChangedBy(steps[i], w[i].0, w[i].1)
  }

  predicate ChangedBy(c: Cfg, before: Event, e: Event) {
    && before.Fetched? && e.Stored? && before.base == e.base == c.base && before.offset == e.offset == c.offset
    && OnlyMasked(c, before.value, e.value)
  }

  predicate WaitedBy(steps: seq<Cfg>, us: seq<nat>) {
    |us| == |steps| && forall i :: 0 <= i < |us| ==> us[i] == if steps[i].value == DELAY_US then steps[i].offset else steps[i].offset * 1000
  }

  /** The writes and the delays of a trace are those of the steps. */
  predicate Matched(steps: seq<Cfg>, trace: seq<Event>) {
    WrittenBy(StepsOf(steps, Write), Changes(trace)) && WaitedBy(StepsOf(steps, Delay), Waits(trace))
  }

  lemma SegmentChanges(c: Cfg, seg: seq<Event>)
    requires SegmentOf(c, seg)
    ensures seg != [] ==> !seg[0].Stored?
    ensures Matched([c], seg)
  {
    if c.cmd == Polling {
      PollsChangeNothing(c, seg);
    } else if c.cmd == Write {
      assert seg[1..] == [seg[1]] && Changes(seg[1..]) == [];
      assert Waits([seg[1]]) == [];
    } else if c.cmd == Delay {
      assert seg[1..] == [];
    }
  }

  lemma {:induction false} StepsAppend(a: seq<Cfg>, b: seq<Cfg>, cmd: Command)
    ensures StepsOf(a + b, cmd) == StepsOf(a, cmd) + StepsOf(b, cmd)
  {
    if a == [] {
      assert a + b == b;
    } else {
      assert (a + b)[1..] == a[1..] + b;
      StepsAppend(a[1..], b, cmd);
      Regrouped(if a[0].cmd == cmd then [a[0]] else [], StepsOf(a[1..], cmd), StepsOf(b, cmd));
    }
  }

  /** Segment by segment. */
  lemma {:induction false} FlatChanges(steps: seq<Cfg>, segs: seq<seq<Event>>)
    requires Segments(steps, segs)
    ensures Flat(segs) != [] ==> !Flat(segs)[0].Stored?
    ensures Matched(steps, Flat(segs))
  {
    if segs != [] {
      var c, rest, seg, more := steps[0], steps[1..], segs[0], segs[1..];
      SegmentsTail(steps, segs);
      FlatChanges(rest, more);
      SegmentChanges(c, seg);
      JoinsFlat(c, rest, seg, Flat(more));
      assert steps == [c] + rest;
    }
  }

  predicate Segments(steps: seq<Cfg>, segs: seq<seq<Event>>) {
    |segs| == |steps| && forall i :: 0 <= i < |segs| ==> SegmentOf(steps[i], segs[i])
  }

  lemma SegmentsTail(steps: seq<Cfg>, segs: seq<seq<Event>>)
    requires segs != [] && Segments(steps, segs)
    ensures SegmentOf(steps[0], segs[0]) && Segments(steps[1..], segs[1..])
  {
  }

  lemma JoinsFlat(c: Cfg, steps: seq<Cfg>, seg: seq<Event>, rest: seq<Event>)
    requires Matched([c], seg) && Matched(steps, rest) && (rest != [] ==> !rest[0].Stored?)
    ensures Matched([c] + steps, seg + rest)
    ensures seg + rest != [] && (seg != [] ==> !seg[0].Stored?) ==> !(seg + rest)[0].Stored?
  {
    ChangesAppend(seg, rest);
    WaitsAppend(seg, rest);
    StepsAppend([c], steps, Write);
    StepsAppend([c], steps, Delay);
    WrittenJoin(StepsOf([c], Write), Changes(seg), StepsOf(steps, Write), Changes(rest));
    WaitedJoin(StepsOf([c], Delay), Waits(seg), StepsOf(steps, Delay), Waits(rest));
  }

  lemma WrittenJoin(a: seq<Cfg>, u: seq<(Event, Event)>, b: seq<Cfg>, v: seq<(Event, Event)>)
    requires WrittenBy(a, u) && WrittenBy(b, v)
    ensures WrittenBy(a + b, u + v)
  {
  }

  lemma WaitedJoin(a: seq<Cfg>, u: seq<nat>, b: seq<Cfg>, v: seq<nat>)
    requires WaitedBy(a, u) && WaitedBy(b, v)
    ensures WaitedBy(a + b, u + v)
  {
  }

  lemma {:induction false} FlatAppend(a: seq<seq<Event>>, b: seq<seq<Event>>)
    ensures Flat(a + b) == Flat(a) + Flat(b)
  {
    if a == [] {
      assert a + b == b;
    } else {
      assert (a + b)[1..] == a[1..] + b;
      FlatAppend(a[1..], b);
      Regrouped(a[0], Flat(a[1..]), Flat(b));
    }
  }

  /** A run that succeeds makes exactly the writes and the delays of its selected steps, in order; one that fails
      those in front of a polling step. */
  lemma WritesAndWaits(chip: Chip, cmds: seq<Cfg>, answers: nat -> bv8, n: nat, count: nat) returns (k: nat)
    requires HasEnd(chip, cmds) && count <= MAX_POLLING_CNT + 1
    ensures var sel, o := Selected(chip, cmds), Run(chip, cmds, answers, n, count);
            && k <= |sel| && (if o.ok then k == |sel| else k < |sel| && sel[k].cmd == Polling)
            && WrittenBy(StepsOf(sel[..k], Write), Changes(o.trace)) && WaitedBy(StepsOf(sel[..k], Delay), Waits(o.trace))
  {
    var sel, o := Selected(chip, cmds), Run(chip, cmds, answers, n, count);
    var segs := RunPerforms(chip, cmds, answers, n, count);
    if o.ok {
      k := |sel|;
      assert sel[..k] == sel;
      FlatChanges(sel, segs);
    } else {
      k := |segs| - 1;
      GaveUpChanges(sel, segs, k);
    }
  }

  lemma GaveUpChanges(steps: seq<Cfg>, segs: seq<seq<Event>>, k: nat)
    requires k < |segs| <= |steps| && k == |segs| - 1 && GaveUp(steps[k], segs[k])
    requires forall i :: 0 <= i < k ==> SegmentOf(steps[i], segs[i])
    ensures Matched(steps[..k], Flat(segs))
  {
    var front, last := segs[..k], segs[k];
    FlatChanges(steps[..k], front);
    assert segs == front + [last];
    FlatAppend(front, [last]);
    assert Flat([last]) == last + [] == last;
    PollsAdd(steps[k], steps[..k], Flat(front), last);
  }

  lemma PollsAdd(c: Cfg, steps: seq<Cfg>, trace: seq<Event>, seg: seq<Event>)
    requires AllPolls(c, seg) && Matched(steps, trace)
    ensures Matched(steps, trace + seg)
  {
    PollsChangeNothing(c, seg);
    ChangesAppend(trace, seg);
    WaitsAppend(trace, seg);
    assert Changes(trace) + [] == Changes(trace) && Waits(trace) + [] == Waits(trace);
  }

  // ----- what is read

  function Reads(trace: seq<Event>): seq<bv8> {
    if trace == [] then []
    else (if trace[0].Fetched? || trace[0].Polled? then [trace[0].value] else []) + Reads(trace[1..])
  }

  lemma {:induction false} ReadsAppend(a: seq<Event>, b: seq<Event>)
    ensures Reads(a + b) == Reads(a) + Reads(b)
  {
    if a == [] {
      assert a + b == b;
    } else {
      assert (a + b)[1..] == a[1..] + b;
      ReadsAppend(a[1..], b);
      Regrouped(if a[0].Fetched? || a[0].Polled? then [a[0].value] else [], Reads(a[1..]), Reads(b));
    }
  }

  predicate AnswersFrom(answers: nat -> bv8, n: nat, vs: seq<bv8>) {
    forall i :: 0 <= i < |vs| ==> vs[i] == answers(n + i)
  }

  lemma {:induction false} PollReads(answers: nat -> bv8, n: nat, count: nat, c: Cfg)
    requires count <= MAX_POLLING_CNT + 1
    ensures var p := Poll(answers, n, count, c); AnswersFrom(answers, n, Reads(p.0.trace)) && n + |Reads(p.0.trace)| == p.1
    decreases MAX_POLLING_CNT + 2 - count
  {
    var e := Polled(c.base, c.offset, answers(n));
    assert Reads([e]) == [answers(n)];
    if count <= MAX_POLLING_CNT && !Reached(answers(n), c) {
      var t := Poll(answers, n + 1, count + 1, c).0.trace;
      PollReads(answers, n + 1, count + 1, c);
      ReadsAppend([e], t);
      AnswersJoin(answers, n, Reads(t));
    }
  }

  lemma AnswersJoin(answers: nat -> bv8, n: nat, vs: seq<bv8>)
    requires AnswersFrom(answers, n + 1, vs)
    ensures AnswersFrom(answers, n, [answers(n)] + vs)
  {
  }

  /** The device is asked one read after the other, and none of its answers is skipped. */
  lemma {:induction false} ReadsAreAnswers(chip: Chip, cmds: seq<Cfg>, answers: nat -> bv8, n: nat, count: nat)
    requires HasEnd(chip, cmds) && count <= MAX_POLLING_CNT + 1
    ensures AnswersFrom(answers, n, Reads(Run(chip, cmds, answers, n, count).trace))
    decreases |cmds|
  {
    var c := cmds[0];
    var (goOn, ok, step, n', count') := Stepped(chip, c, answers, n, count);
    StepReads(chip, c, answers, n, count);
    if goOn {
      EndLater(chip, cmds);
      ReadsAreAnswers(chip, cmds[1..], answers, n', count');
      var rest := Run(chip, cmds[1..], answers, n', count').trace;
      ReadsAppend(step, rest);
      AnswersAppend(answers, n, Reads(step), Reads(rest));
    }
  }

  lemma AnswersAppend(answers: nat -> bv8, n: nat, vs: seq<bv8>, more: seq<bv8>)
    requires AnswersFrom(answers, n, vs) && AnswersFrom(answers, n + |vs|, more)
    ensures AnswersFrom(answers, n, vs + more)
  {
    forall i | |vs| <= i < |vs + more| ensures (vs + more)[i] == answers(n + i) {
      assert more[i - |vs|] == answers(n + |vs| + (i - |vs|));
    }
  }

  lemma StepReads(chip: Chip, c: Cfg, answers: nat -> bv8, n: nat, count: nat)
    requires count <= MAX_POLLING_CNT + 1
    ensures var (goOn, ok, step, n', count') := Stepped(chip, c, answers, n, count);
            AnswersFrom(answers, n, Reads(step)) && n + |Reads(step)| == n'
  {
    if Matches(chip, c) && c.cmd == Polling {
      PollReads(answers, n, count, c);
    }
    var w := [Fetched(c.base, c.offset, answers(n)), Stored(c.base, c.offset, Merged(answers(n), c))];
    assert w[1..] == [w[1]] && Reads([w[1]]) == [];
    assert Reads([Waited(Duration(c))]) == [];
  }

  // ----- the interpreter

  /** The inner loop, one poll at a time. */
  method PollLoop(answers: nat -> bv8, n: nat, count: nat, c: Cfg) returns (ok: bool, trace: seq<Event>, pollingCount: nat)
    requires count <= MAX_POLLING_CNT + 1
    ensures (Outcome(ok, trace), n + |trace|, pollingCount) == Poll(answers, n, count, c)
  {
    ghost var all := PollStarts(answers, n, count, c);
    ok, trace, pollingCount := PollUntil(answers, n, count, c, all);
  }

  method PollUntil(answers: nat -> bv8, n: nat, count: nat, c: Cfg, ghost all: (Outcome, nat, nat))
    returns (ok: bool, trace: seq<Event>, pollingCount: nat)
    requires ToCome(all, [], answers, n, count, c)
    ensures (Outcome(ok, trace), n + |trace|, pollingCount) == all
  {
    trace, pollingCount, ok := [], count, false;
    var at: nat := n;
    while !ok
      invariant at == n + |trace| && pollingCount <= MAX_POLLING_CNT + 1
      invariant !ok ==> ToCome(all, trace, answers, at, pollingCount, c)
      invariant ok ==> all == (Outcome(true, trace), at, pollingCount)
      decreases !ok, MAX_POLLING_CNT + 2 - pollingCount
    {
      var e := Polled(c.base, c.offset, answers(at));
      PollOnce(all, trace, e, answers, at, pollingCount, c);
      ok := Reached(answers(at), c);
      trace := trace + [e];
      at := at + 1;
      pollingCount := pollingCount + 1;
      if pollingCount - 1 > MAX_POLLING_CNT {
        ok := false;
        return;
      }
    }
  }

  /** What is still to come of `all` behind `trace` are the polls from here; folded, to keep the recursion out
      of the loop. */
  ghost predicate ToCome(all: (Outcome, nat, nat), trace: seq<Event>, answers: nat -> bv8, at: nat, count: nat, c: Cfg) {
    && count <= MAX_POLLING_CNT + 1
    && forall k {:trigger Look(k)} :: Look(k) ==> Continues(all, trace, Poll(answers, at, count, c))
  }

  lemma PollStarts(answers: nat -> bv8, n: nat, count: nat, c: Cfg) returns (all: (Outcome, nat, nat))
    requires count <= MAX_POLLING_CNT + 1
    ensures all == Poll(answers, n, count, c) && ToCome(all, [], answers, n, count, c)
  {
    all := Poll(answers, n, count, c);
    assert [] + all.0.trace == all.0.trace;
  }

  lemma PollOnce(all: (Outcome, nat, nat), trace: seq<Event>, e: Event, answers: nat -> bv8, at: nat, count: nat, c: Cfg)
    requires ToCome(all, trace, answers, at, count, c) && e == Polled(c.base, c.offset, answers(at))
    ensures if count > MAX_POLLING_CNT then all == (Outcome(false, trace + [e]), at + 1, count + 1)
            else if Reached(answers(at), c) then all == (Outcome(true, trace + [e]), at + 1, count + 1)
            else ToCome(all, trace + [e], answers, at + 1, count + 1, c)
  {
    assert Look(0);
    if count <= MAX_POLLING_CNT && !Reached(answers(at), c) {
      ContinuesMore(all, trace, e, Poll(answers, at + 1, count + 1, c));
    }
  }

  /** `p` is what is still to come of `all` behind `trace`. */
  predicate Continues(all: (Outcome, nat, nat), trace: seq<Event>, p: (Outcome, nat, nat)) {
    all.0 == After(trace, p.0) && all.1 == p.1 && all.2 == p.2
  }

  lemma ContinuesMore(all: (Outcome, nat, nat), trace: seq<Event>, e: Event, p: (Outcome, nat, nat))
    ensures Continues(all, trace, (After([e], p.0), p.1, p.2)) ==> Continues(all, trace + [e], p)
  {
    AfterAfter(trace, [e], p.0);
  }

  /** `HalPwrSeqCmdParsing` */
  method HalPwrSeqCmdParsing(chip: Chip, cmds: seq<Cfg>, answers: nat -> bv8) returns (ok: bool, trace: seq<Event>)
    requires HasEnd(chip, cmds)
    ensures Outcome(ok, trace) == Run(chip, cmds, answers, 0, 0)
  {
    trace := [];
    var aryIdx: nat, n: nat, pollingCount: nat := 0, 0, 0;
    AfterAfter([], [], Run(chip, cmds, answers, 0, 0));
    assert cmds[0..] == cmds;
    while true
      invariant aryIdx <= |cmds| && HasEnd(chip, cmds[aryIdx..]) && pollingCount <= MAX_POLLING_CNT + 1
      invariant Run(chip, cmds, answers, 0, 0) == After(trace, Run(chip, cmds[aryIdx..], answers, n, pollingCount))
      decreases |cmds| - aryIdx
    {
      ghost var todo, t0, n0, count0 := cmds[aryIdx..], trace, n, pollingCount;
      var c := cmds[aryIdx];
      assert todo[0] == c && cmds[aryIdx + 1..] == todo[1..];
      var goOn, ok', step;
      goOn, ok', step, n, pollingCount := Step(chip, c, answers, n, pollingCount);
      trace := trace + step;
      if !goOn {
        return ok', trace;
      }
      EndLater(chip, todo);
      AfterAfter(t0, step, Run(chip, todo[1..], answers, n, pollingCount));
      aryIdx := aryIdx + 1;
    }
  }

  /** The body of the outer loop. */
  method Step(chip: Chip, c: Cfg, answers: nat -> bv8, n: nat, count: nat)
    returns (goOn: bool, ok: bool, step: seq<Event>, next: nat, pollingCount: nat)
    requires count <= MAX_POLLING_CNT + 1
    ensures (goOn, ok, step, next, pollingCount) == Stepped(chip, c, answers, n, count)
  {
    goOn, ok, step, next, pollingCount := true, true, [], n, count;
    if Matches(chip, c) {
      match c.cmd {
        case Read =>
        case Write =>
          var value := answers(n);
          next := n + 1;
          step := [Fetched(c.base, c.offset, value), Stored(c.base, c.offset, (value & !c.mask) | (c.value & c.mask))];
        case Polling =>
          ok, step, pollingCount := PollLoop(answers, n, count, c);
          next := n + |step|;
          goOn := ok;
        case Delay =>
          if c.value == 0 {
            step := [Waited(c.offset)];
          } else {
            step := [Waited(c.offset * 1000)];
          }
        case End =>
          goOn := false;
        case Unknown =>
      }
    }
  }
}
