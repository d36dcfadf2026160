/**
 * The protocol between a target that writes an RTT ring and the debug probe that reads it, step by
 * step (segger/SEGGER_RTT.c:335-448). The probe may read at any point, also between two bytes the
 * target stores, so the read offset the target works with can be stale.
 */
module RttProtocol {
  import opened Memory
  import opened RttGeometry

  /**
   * `room` is how many bytes the writer still believes it may store, from the last `RdOff` it saw;
   * `pending` bytes are stored but not announced through `wr`; `rest` is what it has still to store.
   * `given` is all the writer was ever handed, `published` all it has announced, `gone` all that has
   * left the ring at the reading end. `starved` counts the looks at `RdOff` that found no free slot.
   */
  datatype State = State(ring: seq<Byte>, rd: nat, wr: nat, room: int, pending: nat, rest: seq<Byte>,
                         given: seq<Byte>, published: seq<Byte>, gone: seq<Byte>, starved: nat)
  {
    ghost predicate Bounded() {
      rd < |ring| && wr < |ring|
    }

    ghost function Unread(): seq<Byte>
      requires Bounded()
    {
      RttGeometry.Unread(ring, rd, wr)
    }

    /** Where the next byte goes, and the offset a publication announces. */
    function Local(): nat {
      Wrap(wr + pending, |ring|)
    }

    /** The writer looks and sees `free` slots in all. */
    function Seen(free: int): State {
      this.(room := free - pending, starved := starved + if free <= pending then 1 else 0)
    }
  }

  datatype Step = Read(k: nat) | Give(data: seq<Byte>) | Sample | Store | Publish

  ghost predicate Enabled(s: State, step: Step) {
    s.Bounded() &&
    match step
    case Read(k) => k <= Used(s.rd, s.wr, |s.ring|)
    case Give(_) => true
    case Sample => true
    case Store => s.room > 0 && s.rest != [] && s.Local() < |s.ring|
    case Publish => s.Local() < |s.ring|
  }

  ghost function Apply(s: State, step: Step): State
    requires Enabled(s, step)
  {
    match step
    case Read(k) => s.(rd := Wrap(s.rd + k, |s.ring|), gone := s.gone + s.Unread()[..k])
    case Give(data) => s.(rest := s.rest + data, given := s.given + data)
    case Sample => s.Seen(Free(s.rd, s.wr, |s.ring|))
    case Store =>
      s.(ring := s.ring[s.Local() := s.rest[0]], rest := s.rest[1..], pending := s.pending + 1, room := s.room - 1)
    case Publish =>
      s.(wr := s.Local(), pending := 0, published := s.published + RttGeometry.Unread(s.ring, s.wr, s.Local()))
  }

  /** What holds between any two steps. */
  ghost predicate Inv(s: State) {
    && s.Bounded()
    && s.room >= 0 && s.pending + s.room <= Free(s.rd, s.wr, |s.ring|)
    && s.published == s.gone + s.Unread()
    && s.given == s.published + RttGeometry.Unread(s.ring, s.wr, s.Local()) + s.rest
  }

  ghost function Start(ring: seq<Byte>): (s: State)
    requires ring != []
    ensures Inv(s)
  {
    State(ring, 0, 0, 0, 0, [], [], [], [], 0)
  }

  lemma StepKeepsInv(s: State, step: Step)
    requires Inv(s) && Enabled(s, step)
    ensures Inv(Apply(s, step))
  {
    hide *;
    match step
    case Read(k) => ReadKeepsInv(s, k);
    case Give(data) => GiveKeepsInv(s, data);
    case Sample => SampleKeepsInv(s);
    case Store => StoreKeepsInv(s);
    case Publish => PublishKeepsInv(s);
  }

  lemma ReadKeepsInv(s: State, k: nat)
    requires Inv(s) && Enabled(s, Read(k))
    ensures Inv(Apply(s, Read(k)))
  {
    hide RttGeometry.Unread;
    TakeFront(s.ring, s.rd, s.wr, k);
    var all := s.Unread();
    assert all == all[..k] + all[k..];
    Regroup(s.gone, all[..k], all[k..]);
  }

  lemma GiveKeepsInv(s: State, data: seq<Byte>)
    requires Inv(s) && Enabled(s, Give(data))
    ensures Inv(Apply(s, Give(data)))
  {
    Regroup(s.published + RttGeometry.Unread(s.ring, s.wr, s.Local()), s.rest, data);
  }

  lemma SampleKeepsInv(s: State)
    requires Inv(s) && Enabled(s, Sample)
    ensures Inv(Apply(s, Sample))
  {
  }

  lemma StoreKeepsInv(s: State)
    requires Inv(s) && Enabled(s, Store)
    ensures Inv(Apply(s, Store))
  {
    hide RttGeometry.Unread;
    StoreFree(s.ring, s.rd, s.wr, s.pending, s.rest[0]);
    var stored, b := RttGeometry.Unread(s.ring, s.wr, s.Local()), s.rest[0];
    assert s.rest == [b] + s.rest[1..];
    Regroup(s.published + stored, [b], s.rest[1..]);
    Regroup(s.published, stored, [b]);
  }

  lemma PublishKeepsInv(s: State)
    requires Inv(s) && Enabled(s, Step.Publish)
    ensures Inv(Apply(s, Step.Publish))
  {
    RttGeometry.Publish(s.ring, s.rd, s.wr, s.pending);
    var stored := RttGeometry.Unread(s.ring, s.wr, s.Local());
    hide RttGeometry.Unread;
    Regroup(s.gone, s.Unread(), stored);
    PublishedNothing(s.ring, s.Local());
    assert s.published + stored + [] == s.published + stored;
  }

  lemma PublishedNothing(ring: seq<Byte>, at: nat)
    requires at < |ring|
    ensures RttGeometry.Unread(ring, at, at) == []
  {
  }

  /** The guards of the writer's steps hide no case of its code: the slots it computes always exist. */
  lemma WriterNeverStuck(s: State)
    requires Inv(s)
    ensures Enabled(s, Sample) && Free(s.rd, s.wr, |s.ring|) - s.pending >= 0
    ensures Enabled(s, Step.Publish)
    ensures s.room > 0 && s.rest != [] ==> Enabled(s, Store)
  {
  }

  ghost predicate AllEnabled(s: State, steps: seq<Step>)
    decreases steps
  {
    steps == [] || (Enabled(s, steps[0]) && AllEnabled(Apply(s, steps[0]), steps[1..]))
  }

  ghost function Run(s: State, steps: seq<Step>): State
    requires AllEnabled(s, steps)
    decreases steps
  {
    if steps == [] then s else Run(Apply(s, steps[0]), steps[1..])
  }

  lemma {:induction false} RunKeepsInv(s: State, steps: seq<Step>)
    requires Inv(s) && AllEnabled(s, steps)
    ensures Inv(Run(s, steps))
    decreases steps
  {
    if steps == [] {
    } else {
      StepKeepsInv(s, steps[0]);
      RunKeepsInv(Apply(s, steps[0]), steps[1..]);
    }
  }

  /**
   * Under every interleaving of probe and writer steps, from an empty ring on: what the probe has
   * read, followed by what it can still read, is exactly a prefix of what the writer was given, and
   * all of it once nothing is left to store or announce. One slot always stays free.
   */
  lemma EveryInterleavingIsFifo(ring: seq<Byte>, steps: seq<Step>)
    requires ring != [] && AllEnabled(Start(ring), steps)
    ensures var s := Run(Start(ring), steps);
      && s.Bounded()
      && s.gone + s.Unread() <= s.given
      && (s.rest == [] && s.pending == 0 ==> s.gone + s.Unread() == s.given)
      && Used(s.rd, s.wr, |s.ring|) < |s.ring|
  {
    RunKeepsInv(Start(ring), steps);
  }

  /**
   * No step of the writer touches an unread byte or takes one back: the unread bytes before a step
   * are still there after it, in front of any newly announced ones, and announcing something never
   * makes the write offset meet the read offset.
   */
  lemma WriterLeavesUnread(s: State, step: Step)
    requires Inv(s) && Enabled(s, step) && !step.Read?
    ensures var after := Apply(s, step);
      && after.Bounded() && after.gone == s.gone && after.rd == s.rd
      && s.Unread() <= after.Unread()
      && (after.wr != s.wr ==> after.wr != after.rd)
  {
    match step
    case Store => StoreFree(s.ring, s.rd, s.wr, s.pending, s.rest[0]);
    case Publish => RttGeometry.Publish(s.ring, s.rd, s.wr, s.pending);
    case _ =>
  }

  lemma {:induction false} RunAppend(s: State, steps: seq<Step>, last: Step)
    requires AllEnabled(s, steps) && Enabled(Run(s, steps), last)
    ensures AllEnabled(s, steps + [last]) && Run(s, steps + [last]) == Apply(Run(s, steps), last)
    decreases steps
  {
    if steps == [] {
      assert [last][1..] == [];
    } else {
      RunAppend(Apply(s, steps[0]), steps[1..], last);
      assert (steps + [last])[1..] == steps[1..] + [last];
    }
  }

  /** With nothing pending and nothing left to store, all that was given is published. */
  lemma QuietGiven(s: State)
    requires Inv(s) && s.pending == 0 && s.rest == []
    ensures s.given == s.published
  {
    PublishedNothing(s.ring, s.wr);
  }

  /** `t` comes after `s` by storing `n` bytes, with the probe reading as it likes meanwhile. */
  ghost predicate StoredSome(s: State, t: State, n: nat) {
    && n <= |s.rest|
    && t.rest == s.rest[n..] && t.pending == s.pending + n && t.room == s.room - n
    && t.wr == s.wr && t.given == s.given && t.published == s.published && |t.ring| == |s.ring|
    && s.gone <= t.gone && t.starved == s.starved
  }

  lemma StoredNone(s: State)
    ensures StoredSome(s, s, 0)
  {
  }

  /** One more byte of a block: the probe reads, then the byte goes into its slot, `n` after the first. */
  lemma StoredOneMore(s: State, t: State, at: nat, data: seq<Byte>, n: nat, k: nat)
    requires Inv(s) && Inv(t) && StoredSome(s, t, n) && Enabled(t, Read(k))
    requires data <= s.rest && n < |data| <= s.room && at == s.Local() && at + |data| <= |s.ring|
    ensures var u := Apply(t, Read(k));
      && u.ring == t.ring && u.room > 0 && u.rest != [] && u.rest[0] == data[n] && u.Local() == at + n < |u.ring|
      && StoredSome(s, u, n)
      && Enabled(u, Store) && Apply(u, Store).ring == t.ring[at + n := data[n]]
      && StoredSome(s, Apply(u, Store), n + 1)
  {
    hide RttGeometry.Unread, Inv;
    InvBounds(s);
    InvBounds(t);
    assert t.gone <= Apply(t, Read(k)).gone;
  }

  lemma InvBounds(s: State)
    requires Inv(s)
    ensures s.Bounded() && s.pending + s.room < |s.ring| && s.room >= 0
  {
  }

  lemma StoredThenRead(s: State, t: State, n: nat, k: nat)
    requires StoredSome(s, t, n) && Enabled(t, Read(k))
    ensures StoredSome(s, Apply(t, Read(k)), n)
  {
  }

  lemma StoredBoth(s: State, t: State, u: State, m: nat, n: nat)
    requires StoredSome(s, t, m) && StoredSome(t, u, n)
    ensures StoredSome(s, u, m + n)
  {
  }

  /** A quiet writer is handed `data`. */
  lemma Given(s: State, data: seq<Byte>)
    requires Inv(s) && s.pending == 0 && s.rest == []
    ensures Enabled(s, Give(data))
    ensures Apply(s, Give(data)) == s.(rest := data, given := s.given + data)
    ensures Apply(s, Give(data)).Local() == s.wr < |s.ring| && s.room >= 0
  {
    assert [] + data == data;
  }

  /** Announcing `n` stored bytes: they are published, and nothing else. */
  lemma Announced(s: State, t: State, n: nat)
    requires Inv(s) && s.pending == 0 && Inv(t) && StoredSome(s, t, n)
    ensures Enabled(t, Step.Publish) && t.Local() == Wrap(s.wr + n, |s.ring|)
    ensures var u := Apply(t, Step.Publish);
      && u.pending == 0 && u.rest == s.rest[n..] && u.given == s.given && u.room == s.room - n && u.room >= 0
      && u.published == s.published + s.rest[..n] && s.gone <= u.gone && u.ring == t.ring
      && u.starved == s.starved
  {
    var u := Apply(t, Step.Publish);
    PublishKeepsInv(t);
    PublishedNothing(s.ring, s.wr);
    PublishedNothing(u.ring, u.wr);
    hide RttGeometry.Unread;
    assert s.rest == s.rest[..n] + s.rest[n..];
    Regroup(s.published, s.rest[..n], s.rest[n..]);
    assert s.published + [] == s.published && u.published + [] == u.published;
    SameFront(u.published, s.published + s.rest[..n], s.rest[n..]);
  }

  lemma SameFront(a: seq<Byte>, b: seq<Byte>, tail: seq<Byte>)
    requires a + tail == b + tail
    ensures a == b
  {
    assert |a + tail| == |b + tail|;
    assert a == (a + tail)[..|a|] && b == (b + tail)[..|a|];
  }

  lemma ReadKeepsRing(s: State, k: nat)
    requires Enabled(s, Read(k))
    ensures Apply(s, Read(k)).ring == s.ring
  {
  }

  /** After a block up to the wrap-around, the rest of the data starts at slot zero. */
  lemma HalfStored(s: State, t: State, data: seq<Byte>, n: nat)
    requires s.rest == data && n <= |data| && s.Bounded() && s.pending == 0 && s.wr + n == |s.ring|
    requires StoredSome(s, t, n)
    ensures t.rest == data[n..] && t.room == s.room - n && t.Local() == 0 && t.wr == s.wr && |t.ring| == |s.ring|
  {
  }

  /** What the writer read of `RdOff` stays a safe bound: the probe only ever makes room. */
  lemma SampledRoom(s: State, k: nat)
    requires Inv(s) && s.pending == 0 && Enabled(s, Read(k))
    ensures var t := Apply(s, Read(k));
      && Enabled(t, Sample) && t.rd < |s.ring| && t.wr == s.wr < |s.ring|
      && Apply(t, Sample) == t.Seen(Free(t.rd, t.wr, |t.ring|))
      && t == s.(rd := t.rd, gone := t.gone) && s.gone <= t.gone && |t.ring| == |s.ring|
      && Free(t.rd, t.wr, |t.ring|) >= Free(s.rd, s.wr, |s.ring|) >= 0
  {
    TakeFront(s.ring, s.rd, s.wr, k);
  }

  lemma RoomIsFree(s: State)
    requires Inv(s)
    ensures s.Bounded() && 0 <= s.room <= Free(s.rd, s.wr, |s.ring|)
  {
  }

  /** The books of the ring: what is free is what is neither published nor gone again. */
  lemma FreeAccount(s: State)
    requires Inv(s)
    ensures s.Bounded() && 0 <= Free(s.rd, s.wr, |s.ring|) == |s.ring| - 1 - |s.published| + |s.gone|
  {
  }

  lemma ReadKeepsRoom(s: State, k: nat)
    requires Enabled(s, Read(k))
    ensures var t := Apply(s, Read(k));
      t == s.(rd := t.rd, gone := t.gone) && s.gone <= t.gone
  {
  }

  lemma SampleNow(s: State)
    requires Inv(s) && s.pending == 0
    ensures Enabled(s, Sample) && Apply(s, Sample) == s.Seen(Free(s.rd, s.wr, |s.ring|))
  {
  }
}
