/** How a text reaches the ring in buffer loads, and what a load that did not go through leaves behind. */
module RttLoads {
  import opened Arithmetic
  import opened Memory
  import opened RttGeometry
  import opened RttProtocol
  import opened RttUpRing

  const SEGGER_RTT_PRINTF_BUFFER_SIZE: nat := 64

  /** The length of the full buffer loads of a text. */
  function Loads(n: nat): (m: nat)
    ensures m <= n
  {
    n - n % SEGGER_RTT_PRINTF_BUFFER_SIZE
  }

  lemma LoadsGrow(sent: nat, n: nat, more: nat)
    requires sent % SEGGER_RTT_PRINTF_BUFFER_SIZE == 0
    ensures sent + SEGGER_RTT_PRINTF_BUFFER_SIZE <= n ==> sent + SEGGER_RTT_PRINTF_BUFFER_SIZE <= Loads(n)
    ensures Loads(n) <= Loads(n + more)
  {
    NextMultiple(sent / SEGGER_RTT_PRINTF_BUFFER_SIZE, n);
    NextMultiple(n / SEGGER_RTT_PRINTF_BUFFER_SIZE - 1, n + more);
  }

  lemma NextMultiple(k: int, n: nat)
    ensures var size := SEGGER_RTT_PRINTF_BUFFER_SIZE;
      k * size + size <= n ==> k * size + size <= Loads(n) == n / size * size
  {
    Division(n, SEGGER_RTT_PRINTF_BUFFER_SIZE);
  }

  lemma LoadsSent(sent: nat, rest: nat)
    requires sent % SEGGER_RTT_PRINTF_BUFFER_SIZE == 0 && rest < SEGGER_RTT_PRINTF_BUFFER_SIZE
    ensures Loads(sent + rest) == sent
  {
  }

  /** How much of a block of `n` bytes a mode takes that does not wait, with `free` slots. */
  function Taken(flags: nat, n: nat, free: int): int {
    if flags == MODE_NO_BLOCK_SKIP then (if n <= free then n else 0)
    else if flags == MODE_NO_BLOCK_TRIM then Min(n, free)
    else 0
  }

  /**
   * After a load that was refused: `sent` is what the ring holds of the text, `again` what a second offer of
   * the same load has put behind it, `count` what the buffer counts. The ring had no room for all full
   * loads when the call began. Outside trim mode nothing is ever stored twice, and the text is cut at the
   * end of a load; in trim mode it is cut inside the load that stays in the buffer, whose front comes again.
   */
  ghost predicate Stuck(flags: nat, room: int, sent: seq<Byte>, again: seq<Byte>, full: seq<Byte>, load: seq<Byte>,
                        count: nat) {
    && flags != MODE_BLOCK_IF_FIFO_FULL && |load| == SEGGER_RTT_PRINTF_BUFFER_SIZE
    && sent <= full && (count == 0 || count == |load|) && 0 < Loads(|full|)
    && (flags <= MODE_NO_BLOCK_TRIM ==> room < Loads(|full|))
    && (flags > MODE_BLOCK_IF_FIFO_FULL ==> sent == [])
    && (if flags == MODE_NO_BLOCK_TRIM then
          && sent < sent[..Loads(|sent|)] + load <= full && again <= load
        else
          && again == [] && |sent| % |load| == 0 && (count == |load| ==> sent + load <= full))
  }

  lemma StuckIsFront(flags: nat, room: int, sent: seq<Byte>, again: seq<Byte>, full: seq<Byte>, load: seq<Byte>,
                     count: nat)
    requires Stuck(flags, room, sent, again, full, load, count)
    ensures sent <= full && flags != MODE_BLOCK_IF_FIFO_FULL
  {
  }

  /** The first refusal. */
  lemma StuckFirst(flags: nat, room: int, sent: seq<Byte>, load: seq<Byte>, n: nat)
    requires |load| == SEGGER_RTT_PRINTF_BUFFER_SIZE && |sent| % |load| == 0 && n < |load|
    requires flags != MODE_BLOCK_IF_FIFO_FULL && (flags != MODE_NO_BLOCK_TRIM ==> n == 0)
    requires flags <= MODE_NO_BLOCK_TRIM ==> room < |sent| + |load|
    requires flags > MODE_BLOCK_IF_FIFO_FULL ==> sent == []
    ensures Stuck(flags, room, sent + load[..n], [], sent + load, load, |load|)
  {
    LoadsGrow(|sent|, |sent| + |load|, 0);
    LoadsSent(|sent|, n);
    assert (sent + load[..n])[..|sent|] == sent;
    assert sent + load[..0] == sent;
  }

  /** The same load offered again. */
  lemma StuckAgain(flags: nat, room: int, sent: seq<Byte>, full: seq<Byte>, load: seq<Byte>, n: nat)
    requires Stuck(flags, room, sent, [], full, load, |load|)
    requires n == |load| || n == 0 || (flags == MODE_NO_BLOCK_TRIM && n < |load|)
    requires flags > MODE_BLOCK_IF_FIFO_FULL ==> n == 0
    ensures var count := if n == |load| then 0 else |load|;
      if flags == MODE_NO_BLOCK_TRIM then Stuck(flags, room, sent, load[..n], full, load, count)
      else Stuck(flags, room, sent + load[..n], [], full, load, count)
  {
    assert load[..|load|] == load && sent + load[..0] == sent;
  }

  /** More text does not matter any more. */
  lemma StuckMore(flags: nat, room: int, sent: seq<Byte>, again: seq<Byte>, full: seq<Byte>, load: seq<Byte>,
                  count: nat, text: seq<Byte>)
    requires Stuck(flags, room, sent, again, full, load, count)
    ensures Stuck(flags, room, sent, again, full + text, load, count)
  {
    LoadsGrow(0, |full|, |text|);
  }

  /** What comes again continues where the load that was cut began. */
  lemma AgainIsLoad(flags: nat, room: int, sent: seq<Byte>, again: seq<Byte>, full: seq<Byte>, load: seq<Byte>,
                    count: nat)
    requires Stuck(flags, room, sent, again, full, load, count)
    ensures Loads(|sent|) <= |full| && again <= full[Loads(|sent|)..]
    ensures flags == MODE_NO_BLOCK_TRIM ==> |sent| < |full|
  {
    if flags == MODE_NO_BLOCK_TRIM {
      assert full[Loads(|sent|)..][..|load|] == load;
    }
  }

  // The course of a call, from the free slots its loads find.

  /** Load `k` of a text. */
  function Load(text: seq<Byte>, k: nat): (load: seq<Byte>)
    requires SEGGER_RTT_PRINTF_BUFFER_SIZE * (k + 1) <= |text|
    ensures |load| == SEGGER_RTT_PRINTF_BUFFER_SIZE
  {
    text[SEGGER_RTT_PRINTF_BUFFER_SIZE * k..SEGGER_RTT_PRINTF_BUFFER_SIZE * (k + 1)]
  }

  predicate Refused(flags: nat, free: int) {
    Taken(flags, SEGGER_RTT_PRINTF_BUFFER_SIZE, free) < SEGGER_RTT_PRINTF_BUFFER_SIZE
  }

  predicate Accepted(flags: nat, frees: seq<nat>, k: nat)
    requires k <= |frees|
  {
    forall i :: 0 <= i < k ==> !Refused(flags, frees[i])
  }

  lemma OneMoreAccepted(flags: nat, frees: seq<nat>, free: nat)
    requires Accepted(flags, frees, |frees|) && !Refused(flags, free)
    ensures flags <= MODE_NO_BLOCK_TRIM && Accepted(flags, frees + [free], |frees + [free]|)
  {
    assert forall i :: 0 <= i < |frees| ==> (frees + [free])[i] == frees[i];
  }

  /** Load `k` is refused, and offered once more if `twice`; `frees` are the free slots found by each offer. */
  predicate Course(flags: nat, n: nat, k: nat, twice: bool, frees: seq<nat>) {
    && SEGGER_RTT_PRINTF_BUFFER_SIZE * (k + 1) <= n && |frees| == k + 1 + (if twice then 1 else 0)
    && Accepted(flags, frees, k) && Refused(flags, frees[k])
  }

  /** What the ring has then got of the loads. */
  function CourseStored(flags: nat, text: seq<Byte>, k: nat, twice: bool, frees: seq<nat>): seq<Byte>
    requires Course(flags, |text|, k, twice, frees)
  {
    var load := Load(text, k);
    text[..SEGGER_RTT_PRINTF_BUFFER_SIZE * k]
    + load[..Taken(flags, |load|, frees[k])]
    + if twice then load[..Taken(flags, |load|, frees[k + 1])] else []
  }

  /** The books of a refusal: the load that was refused, whether it was offered again, and the bytes stored. */
  ghost predicate Halted(flags: nat, stored: seq<Byte>, full: seq<Byte>, load: seq<Byte>, k: nat, twice: bool,
                         frees: seq<nat>) {
    && Course(flags, |full|, k, twice, frees) && load == Load(full, k)
    && stored == CourseStored(flags, full, k, twice, frees)
  }

  lemma HaltedFirst(flags: nat, sent: seq<Byte>, load: seq<Byte>, frees: seq<nat>, free: nat)
    requires |load| == SEGGER_RTT_PRINTF_BUFFER_SIZE && |sent| == SEGGER_RTT_PRINTF_BUFFER_SIZE * |frees|
    requires Accepted(flags, frees, |frees|) && Refused(flags, free)
    ensures Halted(flags, sent + load[..Taken(flags, |load|, free)], sent + load, load, |frees|, false, frees + [free])
  {
    var full, k := sent + load, |frees|;
    assert full[..|sent|] == sent && full[|sent|..] == load && Load(full, k) == load;
    assert sent + load[..Taken(flags, |load|, free)] + [] == sent + load[..Taken(flags, |load|, free)];
    assert forall i :: 0 <= i < k ==> (frees + [free])[i] == frees[i];
  }

  lemma HaltedAgain(flags: nat, stored: seq<Byte>, full: seq<Byte>, load: seq<Byte>, k: nat, frees: seq<nat>, free: nat)
    requires Halted(flags, stored, full, load, k, false, frees)
    ensures 0 <= Taken(flags, |load|, free) <= |load|
    ensures Halted(flags, stored + load[..Taken(flags, |load|, free)], full, load, k, true, frees + [free])
  {
    var once := full[..SEGGER_RTT_PRINTF_BUFFER_SIZE * k] + load[..Taken(flags, |load|, frees[k])];
    assert stored == once + [] == once;
    assert forall i :: 0 <= i <= k ==> (frees + [free])[i] == frees[i];
  }

  lemma HaltedMore(flags: nat, stored: seq<Byte>, full: seq<Byte>, load: seq<Byte>, k: nat, twice: bool,
                   frees: seq<nat>, text: seq<Byte>)
    requires Halted(flags, stored, full, load, k, twice, frees)
    ensures Halted(flags, stored, full + text, load, k, twice, frees)
  {
    var n := SEGGER_RTT_PRINTF_BUFFER_SIZE * k;
    assert Load(full + text, k) == Load(full, k) && (full + text)[..n] == full[..n];
  }

  /** The slots free behind offers that have found `frees`, and `room` before the first, as long as nobody reads. */
  function LeftAfter(flags: nat, room: int, frees: seq<nat>): int {
    if frees == [] then room
    else frees[|frees| - 1] - Taken(flags, SEGGER_RTT_PRINTF_BUFFER_SIZE, frees[|frees| - 1])
  }

  /** What a row of offers finds in a ring: the probe only makes more slots free, and there are `size` in all. */
  predicate Found(flags: nat, size: nat, room: int, frees: seq<nat>) {
    forall i :: 0 <= i < |frees| ==> LeftAfter(flags, room, frees[..i]) <= frees[i] < size
  }

  lemma FoundMore(flags: nat, size: nat, room: int, frees: seq<nat>, free: nat)
    requires Found(flags, size, room, frees) && LeftAfter(flags, room, frees) <= free < size
    ensures Found(flags, size, room, frees + [free])
    ensures LeftAfter(flags, room, frees + [free]) == free - Taken(flags, SEGGER_RTT_PRINTF_BUFFER_SIZE, free)
  {
    assert forall i :: 0 <= i <= |frees| ==> (frees + [free])[..i] == frees[..i];
    assert frees[..|frees|] == frees;
  }

  // Every course can be met.

  ghost function Stores(n: nat): (steps: seq<Step>)
    ensures |steps| == n
  {
    if n == 0 then [] else Stores(n - 1) + [Store]
  }

  /** The steps of a write that stores `data` at once. */
  ghost function WriteSteps(data: seq<Byte>): seq<Step> {
    [Sample] + [Give(data)] + Stores(|data|) + [Step.Publish]
  }

  lemma {:induction false} RunConcat(s: State, a: seq<Step>, b: seq<Step>)
    requires AllEnabled(s, a) && AllEnabled(Run(s, a), b)
    ensures AllEnabled(s, a + b) && Run(s, a + b) == Run(Run(s, a), b)
    decreases a
  {
    if a == [] {
      assert a + b == b;
    } else {
      RunConcat(Apply(s, a[0]), a[1..], b);
      assert (a + b)[1..] == a[1..] + b;
    }
  }

  lemma StoredStep(s: State, t: State, n: nat)
    requires Inv(t) && StoredSome(s, t, n) && n < |s.rest| && t.room > 0
    ensures Enabled(t, Store) && StoredSome(s, Apply(t, Store), n + 1)
  {
    WriterNeverStuck(t);
    hide Inv;
  }

  lemma {:induction false} StoresRun(s: State, n: nat)
    requires Inv(s) && n <= |s.rest| && n <= s.room
    ensures AllEnabled(s, Stores(n)) && Inv(Run(s, Stores(n))) && StoredSome(s, Run(s, Stores(n)), n)
    ensures Run(s, Stores(n)).gone == s.gone
  {
    if n == 0 {
      StoredNone(s);
    } else {
      StoresRun(s, n - 1);
      hide Inv, AllEnabled, Run;
      var t := Run(s, Stores(n - 1));
      StoredStep(s, t, n - 1);
      RunAppend(s, Stores(n - 1), Store);
      StepKeepsInv(t, Store);
    }
  }

  ghost predicate AtRest(s: State) {
    Inv(s) && s.pending == 0 && s.rest == []
  }

  /** A write at once, step by step. */
  lemma WriteRuns(s: State, data: seq<Byte>)
    requires AtRest(s) && s.Bounded() && |data| <= Free(s.rd, s.wr, |s.ring|)
    ensures AllEnabled(s, WriteSteps(data))
    ensures var t := Run(s, WriteSteps(data));
      AtRest(t) && t.published == s.published + data && t.gone == s.gone && |t.ring| == |s.ring|
  {
    hide AllEnabled, Run, Inv;
    NoSteps(s);
    RunAppend(s, [], Sample);
    assert [] + [Sample] == [Sample];
    SampleNow(s);
    StepKeepsInv(s, Sample);
    var s1 := Apply(s, Sample);
    RunAppend(s, [Sample], Give(data));
    Given(s1, data);
    StepKeepsInv(s1, Give(data));
    var s2 := Apply(s1, Give(data));
    StoresRun(s2, |data|);
    RunConcat(s, [Sample] + [Give(data)], Stores(|data|));
    var s3 := Run(s2, Stores(|data|));
    Announced(s2, s3, |data|);
    RunAppend(s, [Sample] + [Give(data)] + Stores(|data|), Step.Publish);
    StepKeepsInv(s3, Step.Publish);
    assert data[..|data|] == data && data[|data|..] == [];
  }

  lemma NoSteps(s: State)
    ensures AllEnabled(s, []) && Run(s, []) == s
  {
  }

  /** The probe reads until `free` slots are free, then a trimming write of `load` finds them. */
  ghost function OfferSteps(s: State, load: seq<Byte>, free: nat): seq<Step>
    requires s.Bounded() && free >= Free(s.rd, s.wr, |s.ring|)
  {
    [Read(free - Free(s.rd, s.wr, |s.ring|))] + WriteSteps(load[..Min(|load|, free)])
  }

  lemma OfferRuns(s: State, load: seq<Byte>, free: nat)
    requires AtRest(s) && s.Bounded() && Free(s.rd, s.wr, |s.ring|) <= free < |s.ring|
    ensures AllEnabled(s, OfferSteps(s, load, free))
    ensures var t := Run(s, OfferSteps(s, load, free));
      && AtRest(t) && t.Bounded() && t.published == s.published + load[..Min(|load|, free)] && |t.ring| == |s.ring|
      && Free(t.rd, t.wr, |t.ring|) == free - Min(|load|, free)
  {
    hide AllEnabled, Run, Inv;
    var x, part := free - Free(s.rd, s.wr, |s.ring|), load[..Min(|load|, free)];
    FreeAccount(s);
    NoSteps(s);
    RunAppend(s, [], Read(x));
    assert [] + [Read(x)] == [Read(x)];
    StepKeepsInv(s, Read(x));
    var r := Apply(s, Read(x));
    FreeAccount(r);
    WriteRuns(r, part);
    RunConcat(s, [Read(x)], WriteSteps(part));
    FreeAccount(Run(r, WriteSteps(part)));
  }

  /** Free slots as a ring of `size` slots can show them: between two offers they only become more. */
  predicate Possible(size: nat, free: int, loads: seq<seq<Byte>>, frees: seq<nat>)
    requires |loads| == |frees|
    decreases loads
  {
    loads == []
    || (free <= frees[0] < size && Possible(size, frees[0] - Min(|loads[0]|, frees[0]), loads[1..], frees[1..]))
  }

  lemma LeftAfterTail(flags: nat, room: int, frees: seq<nat>, i: nat)
    requires 0 < i <= |frees|
    ensures LeftAfter(flags, room, frees[..i])
      == LeftAfter(flags, LeftAfter(flags, room, frees[..1]), frees[1..][..i - 1])
  {
    assert frees[1..][..i - 1] == frees[..i][1..];
  }

  /** Full loads can be offered so exactly if that is what a row of offers finds. */
  lemma {:induction false} PossibleIff(size: nat, room: int, loads: seq<seq<Byte>>, frees: seq<nat>)
    requires |loads| == |frees| && forall load | load in loads :: |load| == SEGGER_RTT_PRINTF_BUFFER_SIZE
    ensures Possible(size, room, loads, frees) <==> Found(MODE_NO_BLOCK_TRIM, size, room, frees)
    decreases loads
  {
    if loads == [] {
    } else {
      var left := LeftAfter(MODE_NO_BLOCK_TRIM, room, frees[..1]);
      assert |loads[0]| == SEGGER_RTT_PRINTF_BUFFER_SIZE;
      PossibleIff(size, left, loads[1..], frees[1..]);
      FoundTail(MODE_NO_BLOCK_TRIM, size, room, frees);
    }
  }

  lemma FoundTail(flags: nat, size: nat, room: int, frees: seq<nat>)
    requires frees != []
    ensures Found(flags, size, room, frees)
      <==> room <= frees[0] < size && Found(flags, size, LeftAfter(flags, room, frees[..1]), frees[1..])
  {
    var left := LeftAfter(flags, room, frees[..1]);
    assert frees[..0] == [];
    forall i | 0 < i < |frees|
      ensures LeftAfter(flags, room, frees[..i]) == LeftAfter(flags, left, frees[1..][..i - 1])
      ensures frees[1..][i - 1] == frees[i]
    {
      LeftAfterTail(flags, room, frees, i);
    }
    if room <= frees[0] < size && Found(flags, size, left, frees[1..]) {
      forall i | 0 <= i < |frees|
        ensures LeftAfter(flags, room, frees[..i]) <= frees[i] < size
      {
        if i > 0 {
          assert LeftAfter(flags, left, frees[1..][..i - 1]) <= frees[1..][i - 1] < size;
        }
      }
    }
  }

  /** The offers one after the other, each of which finds as many free slots as is said. */
  ghost predicate Plays(s: State, loads: seq<seq<Byte>>, frees: seq<nat>, steps: seq<Step>)
    requires |loads| == |frees|
    decreases loads
  {
    if loads == [] then steps == [] else
      && s.Bounded() && frees[0] >= Free(s.rd, s.wr, |s.ring|)
      && var first := OfferSteps(s, loads[0], frees[0]);
         first <= steps && AllEnabled(s, first) && Plays(Run(s, first), loads[1..], frees[1..], steps[|first|..])
  }

  function TakenOf(loads: seq<seq<Byte>>, frees: seq<nat>): seq<Byte>
    requires |loads| == |frees|
    decreases loads
  {
    if loads == [] then [] else loads[0][..Min(|loads[0]|, frees[0])] + TakenOf(loads[1..], frees[1..])
  }

  /** Whatever free slots are possible, the protocol can show them to a call. */
  lemma {:induction false} PlaysAny(s: State, loads: seq<seq<Byte>>, frees: seq<nat>) returns (steps: seq<Step>)
    requires |loads| == |frees| && AtRest(s) && s.Bounded()
    requires Possible(|s.ring|, Free(s.rd, s.wr, |s.ring|), loads, frees)
    ensures AllEnabled(s, steps) && Plays(s, loads, frees, steps)
    ensures AtRest(Run(s, steps)) && Run(s, steps).published == s.published + TakenOf(loads, frees)
    decreases loads
  {
    hide AllEnabled, Run, Inv, OfferSteps, AtRest;
    if loads == [] {
      steps := [];
      NoSteps(s);
      assert s.published + [] == s.published;
    } else {
      OfferRuns(s, loads[0], frees[0]);
      var first := OfferSteps(s, loads[0], frees[0]);
      var t := Run(s, first);
      var rest := PlaysAny(t, loads[1..], frees[1..]);
      hide Plays, Possible;
      RunConcat(s, first, rest);
      steps := first + rest;
      PlaysMore(s, loads, frees, rest);
      Regroup(s.published, loads[0][..Min(|loads[0]|, frees[0])], TakenOf(loads[1..], frees[1..]));
    }
  }

  lemma PlaysMore(s: State, loads: seq<seq<Byte>>, frees: seq<nat>, rest: seq<Step>)
    requires |loads| == |frees| && loads != [] && s.Bounded() && frees[0] >= Free(s.rd, s.wr, |s.ring|)
    requires AllEnabled(s, OfferSteps(s, loads[0], frees[0]))
    requires Plays(Run(s, OfferSteps(s, loads[0], frees[0])), loads[1..], frees[1..], rest)
    ensures Plays(s, loads, frees, OfferSteps(s, loads[0], frees[0]) + rest)
  {
    hide AllEnabled, Run, OfferSteps;
    var first := OfferSteps(s, loads[0], frees[0]);
    assert (first + rest)[|first|..] == rest;
  }

  /** The loads offered in a course. */
  function Offers(text: seq<Byte>, k: nat, twice: bool): (loads: seq<seq<Byte>>)
    requires SEGGER_RTT_PRINTF_BUFFER_SIZE * (k + 1) <= |text|
    ensures |loads| == k + 1 + if twice then 1 else 0
  {
    seq(k, i requires 0 <= i < k => Load(text, i)) + [Load(text, k)] + if twice then [Load(text, k)] else []
  }

  lemma {:induction false} TakenOfConcat(a: seq<seq<Byte>>, b: seq<seq<Byte>>, f: seq<nat>, g: seq<nat>)
    requires |a| == |f| && |b| == |g|
    ensures TakenOf(a + b, f + g) == TakenOf(a, f) + TakenOf(b, g)
    decreases a
  {
    if a == [] {
      assert a + b == b && f + g == g;
    } else {
      TakenOfConcat(a[1..], b, f[1..], g);
      assert (a + b)[1..] == a[1..] + b && (f + g)[1..] == f[1..] + g;
    }
  }

  lemma TakenOfOne(load: seq<Byte>, free: nat)
    ensures TakenOf([load], [free]) == load[..Min(|load|, free)]
  {
    assert TakenOf([load][1..], [free][1..]) == [];
  }

  lemma {:induction false} TakenOfFullLoads(text: seq<Byte>, k: nat, frees: seq<nat>)
    requires SEGGER_RTT_PRINTF_BUFFER_SIZE * k <= |text| && |frees| == k && Accepted(MODE_NO_BLOCK_TRIM, frees, k)
    ensures TakenOf(seq(k, i requires 0 <= i < k => Load(text, i)), frees) == text[..SEGGER_RTT_PRINTF_BUFFER_SIZE * k]
  {
    if k == 0 {
      assert text[..0] == [];
    } else {
      var loads := seq(k, i requires 0 <= i < k => Load(text, i));
      var front := seq(k - 1, i requires 0 <= i < k - 1 => Load(text, i));
      assert loads == front + [Load(text, k - 1)] && frees == frees[..k - 1] + [frees[k - 1]];
      TakenOfFullLoads(text, k - 1, frees[..k - 1]);
      TakenOfConcat(front, [Load(text, k - 1)], frees[..k - 1], [frees[k - 1]]);
      TakenOfOne(Load(text, k - 1), frees[k - 1]);
      assert !Refused(MODE_NO_BLOCK_TRIM, frees[k - 1]);
    }
  }

  /** What the offers of a course take is what the ring has got of it. */
  lemma TakenOfCourse(text: seq<Byte>, k: nat, twice: bool, frees: seq<nat>)
    requires Course(MODE_NO_BLOCK_TRIM, |text|, k, twice, frees)
    ensures TakenOf(Offers(text, k, twice), frees) == CourseStored(MODE_NO_BLOCK_TRIM, text, k, twice, frees)
  {
    var full, load := seq(k, i requires 0 <= i < k => Load(text, i)), Load(text, k);
    var first, front := [frees[k]], frees[..k];
    assert Accepted(MODE_NO_BLOCK_TRIM, front, k);
    TakenOfFullLoads(text, k, front);
    TakenOfConcat(full, [load], front, first);
    TakenOfOne(load, frees[k]);
    hide TakenOf;
    if twice {
      TakenOfConcat(full + [load], [load], front + first, [frees[k + 1]]);
      TakenOfOne(load, frees[k + 1]);
      assert frees == front + first + [frees[k + 1]];
    } else {
      assert frees == front + first && full + [load] + [] == full + [load];
    }
  }

  /** Every course that offers can find in a ring is met by a run of the protocol, whenever the writer is at rest. */
  lemma CourseIsMet(s: State, text: seq<Byte>, k: nat, twice: bool, frees: seq<nat>) returns (steps: seq<Step>)
    requires AtRest(s) && s.Bounded() && Course(MODE_NO_BLOCK_TRIM, |text|, k, twice, frees)
    requires Found(MODE_NO_BLOCK_TRIM, |s.ring|, Free(s.rd, s.wr, |s.ring|), frees)
    ensures AllEnabled(s, steps) && Plays(s, Offers(text, k, twice), frees, steps)
    ensures Run(s, steps).published == s.published + CourseStored(MODE_NO_BLOCK_TRIM, text, k, twice, frees)
  {
    TakenOfCourse(text, k, twice, frees);
    PossibleIff(|s.ring|, Free(s.rd, s.wr, |s.ring|), Offers(text, k, twice), frees);
    hide *;
    steps := PlaysAny(s, Offers(text, k, twice), frees);
  }
}
