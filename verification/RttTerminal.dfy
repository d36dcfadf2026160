/** Virtual terminals over up-buffer 0: segger/SEGGER_RTT.c:463-469 and 1618-1741. */
module RttTerminalStream {
  import opened RttGeometry

  const TERMINALS: nat := 16
  const ESCAPE: Byte := 0xFF

  /** The byte that names a terminal: a hexadecimal digit. */
  function IdOf(t: nat): Byte
    requires t < TERMINALS
  {
    if t < 10 then 0x30 + t else 0x41 + (t - 10)
  }

  /** The terminal a byte names; a byte that names none leaves `current`. */
  function TerminalOf(b: Byte, current: nat): nat {
    if 0x30 <= b <= 0x39 then b - 0x30 else if 0x41 <= b <= 0x46 then b - 0x41 + 10 else current
  }

  /** The reading end: which terminal is current, whether an escape byte was just seen, and what went where. */
  datatype Demux = Demux(current: nat, escaped: bool, out: seq<(nat, Byte)>)

  function Feed(d: Demux, b: Byte): Demux {
    if d.escaped then Demux(TerminalOf(b, d.current), false, d.out)
    else if b == ESCAPE then d.(escaped := true)
    else d.(out := d.out + [(d.current, b)])
  }

  function FeedAll(d: Demux, s: seq<Byte>): Demux {
    if s == [] then d else Feed(FeedAll(d, s[..|s| - 1]), s[|s| - 1])
  }

  /** One completed call: a plain write, a change of terminal, or a write to one terminal. */
  datatype Event = Plain(bytes: seq<Byte>) | Select(t: nat) | Out(t: nat, text: seq<Byte>)

  predicate ValidEvent(e: Event) {
    match e
    case Plain(_) => true
    case Select(t) => t < TERMINALS
    case Out(t, _) => t < TERMINALS
  }

  predicate ValidLog(log: seq<Event>) {
    forall e | e in log :: ValidEvent(e)
  }

  /** No payload contains the escape byte. */
  predicate Clean(log: seq<Event>) {
    forall e | e in log :: (e.Plain? ==> ESCAPE !in e.bytes) && (e.Out? ==> ESCAPE !in e.text)
  }

  function Switch(t: nat): (s: seq<Byte>)
    requires t < TERMINALS
    ensures |s| == 2
  {
    [ESCAPE, IdOf(t)]
  }

  /** The terminal plain writes go to after the calls of `log`. */
  function Active(log: seq<Event>): (t: nat)
    requires ValidLog(log)
    ensures t < TERMINALS
  {
    if log == [] then 0
    else if log[|log| - 1].Select? then
      assert log[|log| - 1] in log;
      log[|log| - 1].t
    else Active(log[..|log| - 1])
  }

  /** What one call puts into the stream. */
  function Frame(e: Event, active: nat): seq<Byte>
    requires ValidEvent(e) && active < TERMINALS
  {
    match e
    case Plain(bytes) => bytes
    case Select(t) => Switch(t)
    case Out(t, text) => Switch(t) + text + Switch(active)
  }

  function Wire(log: seq<Event>): seq<Byte>
    requires ValidLog(log)
  {
    if log == [] then [] else Wire(log[..|log| - 1]) + Frame(log[|log| - 1], Active(log[..|log| - 1]))
  }

  function Tagged(t: nat, s: seq<Byte>): seq<(nat, Byte)> {
    seq(|s|, i requires 0 <= i < |s| => (t, s[i]))
  }

  /** What should come out: each text on its own terminal, each plain byte on the active one. */
  function Intended(log: seq<Event>): seq<(nat, Byte)>
    requires ValidLog(log)
  {
    if log == [] then [] else
      Intended(log[..|log| - 1]) +
      match log[|log| - 1]
      case Plain(bytes) => Tagged(Active(log[..|log| - 1]), bytes)
      case Select(_) => []
      case Out(t, text) => Tagged(t, text)
  }

  lemma {:induction false} FeedConcat(d: Demux, a: seq<Byte>, b: seq<Byte>)
    ensures FeedAll(d, a + b) == FeedAll(FeedAll(d, a), b)
  {
    if b == [] {
      assert a + b == a;
    } else {
      FeedConcat(d, a, b[..|b| - 1]);
      assert (a + b)[..|a + b| - 1] == a + b[..|b| - 1];
    }
  }

  lemma {:induction false} FeedPayload(d: Demux, s: seq<Byte>)
    requires !d.escaped && ESCAPE !in s
    ensures FeedAll(d, s) == d.(out := d.out + Tagged(d.current, s))
  {
    if s == [] {
      assert d.out + Tagged(d.current, s) == d.out;
    } else {
      FeedPayload(d, s[..|s| - 1]);
      assert Tagged(d.current, s) == Tagged(d.current, s[..|s| - 1]) + [(d.current, s[|s| - 1])];
    }
  }

  lemma FeedSwitch(d: Demux, t: nat)
    requires !d.escaped && t < TERMINALS
    ensures FeedAll(d, Switch(t)) == d.(current := t)
  {
    assert Switch(t)[..1] == [ESCAPE];
    assert [ESCAPE][..0] == [];
    assert FeedAll(d, [ESCAPE]) == d.(escaped := true);
  }

  lemma FeedFrame(d: Demux, e: Event)
    requires !d.escaped && d.current < TERMINALS && ValidEvent(e) && Clean([e])
    ensures FeedAll(d, Frame(e, d.current)) ==
      match e
      case Plain(bytes) => d.(out := d.out + Tagged(d.current, bytes))
      case Select(t) => d.(current := t)
      case Out(t, text) => d.(out := d.out + Tagged(t, text))
  {
    assert e in [e];
    match e
    case Plain(bytes) => FeedPayload(d, bytes);
    case Select(t) => FeedSwitch(d, t);
    case Out(t, text) =>
      FeedConcat(d, Switch(t) + text, Switch(d.current));
      FeedConcat(d, Switch(t), text);
      FeedSwitch(d, t);
      FeedPayload(d.(current := t), text);
      FeedSwitch(FeedAll(d.(current := t), text), d.current);
  }

  /**
   * For every run of calls with payloads free of the escape byte, the reading end puts every byte on
   * the terminal it was meant for, and ends up on the writer's active terminal.
   */
  lemma {:induction false} DemuxRecovers(log: seq<Event>)
    requires ValidLog(log) && Clean(log)
    ensures FeedAll(Demux(0, false, []), Wire(log)) == Demux(Active(log), false, Intended(log))
  {
    if log == [] {
    } else {
      var front, last := log[..|log| - 1], log[|log| - 1];
      DemuxRecovers(front);
      FeedConcat(Demux(0, false, []), Wire(front), Frame(last, Active(front)));
      assert Clean([last]);
      FeedFrame(Demux(Active(front), false, Intended(front)), last);
      assert Intended(front) + [] == Intended(front);
    }
  }

  /** In the middle of a call, too, the reading end has put out nothing that it would not put out at the end. */
  lemma {:induction false} DemuxOfPrefix(d: Demux, a: seq<Byte>, b: seq<Byte>)
    ensures FeedAll(d, a).out <= FeedAll(d, a + b).out
  {
    if b == [] {
      assert a + b == a;
    } else {
      DemuxOfPrefix(d, a, b[..|b| - 1]);
      assert (a + b)[..|a + b| - 1] == a + b[..|b| - 1];
    }
  }

  /** The character of a terminal, from the source's table. */
  const NAMES: seq<Byte> := [0x30, 0x31, 0x32, 0x33, 0x34, 0x35, 0x36, 0x37, 0x38, 0x39,
                             0x41, 0x42, 0x43, 0x44, 0x45, 0x46]

  lemma SwitchBytes(t: nat)
    requires t < 16
    ensures Switch(t) == [0xFF, NAMES[t]]
  {
  }

  lemma FrameBytes(t: nat, text: seq<Byte>, active: nat)
    requires t < 16 && active < 16
    ensures Frame(Out(t, text), active) == [0xFF, NAMES[t]] + text + [0xFF, NAMES[active]]
  {
    SwitchBytes(t);
    SwitchBytes(active);
    hide Switch;
  }

  lemma LogOneMore(log: seq<Event>, e: Event)
    requires ValidLog(log) && ValidEvent(e)
    ensures ValidLog(log + [e]) && Wire(log + [e]) == Wire(log) + Frame(e, Active(log))
    ensures Active(log + [e]) == if e.Select? then e.t else Active(log)
  {
    assert (log + [e])[..|log|] == log;
  }
}

module RttTerminal {
  import opened Arithmetic
  import opened RttGeometry
  import opened RttProtocol
  import opened RttTerminalStream
  import opened RttUpRing

  class Terminal {
    const ring: UpRing
    var activeTerminal: nat
    /** The calls completed so far, with the payload they really stored. */
    ghost var Log: seq<Event>

    /** Between calls: the stream is what the log says, and `activeTerminal` is where its reader stands. */
    ghost predicate Valid()
      reads this, ring, ring.buffer
    {
      && ring.Quiet() && ValidLog(Log)
      && ring.Now.published == Wire(Log) && activeTerminal == Active(Log)
    }

    ghost function Avail(): int
      reads ring
    {
      Free(ring.rdOff, ring.wrOff, ring.buffer.Length)
    }

    constructor (ring: UpRing)
      requires ring.Quiet() && ring.Now.published == []
      ensures Valid() && this.ring == ring && Log == []
    {
      this.ring := ring;
      activeTerminal := 0;
      Log := [];
    }

    ghost method Record(e: Event)
      requires ValidLog(Log) && ValidEvent(e)
      modifies this`Log
      ensures Log == old(Log) + [e] && ValidLog(Log)
      ensures Wire(Log) == Wire(old(Log)) + Frame(e, Active(old(Log)))
      ensures Active(Log) == if e.Select? then e.t else Active(old(Log))
    {
      LogOneMore(Log, e);
      Log := Log + [e];
    }

    /** `SEGGER_RTT_Write` on buffer 0; in blocking mode the call may still be waiting. */
    method Write(data: seq<Byte>, patience: nat) returns (status: nat, returned: bool)
      requires Valid() && patience > 0
      modifies this`Log, ring`wrOff, ring`rdOff, ring`Now, ring`History, ring.buffer
      ensures returned ==> Valid() && status <= |data| && Log == old(Log) + [Plain(data[..status])]
      ensures !returned ==> ring.flags == MODE_BLOCK_IF_FIFO_FULL && ring.Now.published <= old(Wire(Log)) + data
      ensures ring.flags == 0 ==> status == if |data| <= old(Avail()) then |data| else 0
      ensures ring.flags == 1 ==> status == Min(|data|, old(Avail()))
      ensures ring.flags == 2 ==> (returned <==> status == |data|)
      ensures ring.flags == 2 && |data| <= old(Avail()) && patience >= 2 ==> returned
      ensures ring.flags > 2 ==> status == 0
    {
      status := ring.WriteNoLock(data, patience);
      returned := !(ring.flags == MODE_BLOCK_IF_FIFO_FULL && status < |data|);
      if returned {
        Record(Plain(data[..status]));
      }
    }

    /** `mode` is the flags under the mode mask. */
    function Mode(): nat
      reads ring
    {
      ring.flags % 4
    }

    /** Makes `t` the active terminal; the switch is stored whole or, outside blocking mode, not at all. */
    method SetTerminal(t: Byte, patience: nat) returns (r: int, returned: bool)
      requires Valid() && patience > 0
      modifies this, ring`wrOff, ring`rdOff, ring`Now, ring`History, ring.buffer
      ensures returned ==> Valid()
      ensures returned <== Mode() != MODE_BLOCK_IF_FIFO_FULL
      ensures returned ==>
        r == if t < TERMINALS && (Mode() == MODE_BLOCK_IF_FIFO_FULL || old(Avail()) >= 2) then 0 else -1
      ensures returned ==> Log == old(Log) + if r == 0 then [Select(t)] else []
      ensures !returned ==> t < TERMINALS && ring.Now.published <= old(Wire(Log)) + Switch(t)
      ensures t >= 16 || (ring.flags % 4 != 2 && old(Avail()) < 2) ==>
        r == -1 && ring.Now.published == old(ring.Now.published) && activeTerminal == old(activeTerminal)
      ensures returned && t < 16 && (ring.flags % 4 == 2 || old(Avail()) >= 2) ==>
        r == 0 && ring.Now.published == old(ring.Now.published) + [0xFF, NAMES[t]] && activeTerminal == t
    {
      hide Wire, Active, Inv, Run, AllEnabled, Placed;
      r, returned := 0, true;
      if t < TERMINALS {
        if Mode() == MODE_BLOCK_IF_FIFO_FULL {
          activeTerminal := t;
          var n := ring.WriteBlocking(Switch(t), patience);
          returned := n == 2;
        } else {
          var avail := ring.GetAvailWriteSpace();
          if avail >= 2 {
            activeTerminal := t;
            ring.WriteNoCheck(Switch(t));
          } else {
            r := -1;
          }
        }
      } else {
        r := -1;
      }
      if r == 0 && returned {
        assert Switch(t)[..2] == Switch(t) && Switch(t)[2..] == [];
        SwitchBytes(t);
        Record(Select(t));
      }
    }

    /**
     * Switch, text, switch back: three blocking writes. With room for all of it each of them is done
     * after at most two rounds, whatever the probe does.
     */
    method Framed(t: nat, text: seq<Byte>, patience: nat) returns (status: nat, returned: bool)
      requires Valid() && t < TERMINALS && patience >= 2
      modifies this`Log, ring`wrOff, ring`rdOff, ring`Now, ring`History, ring.buffer
      ensures returned ==> Valid() && status == |text| && Log == old(Log) + [Out(t, text)]
      ensures old(Avail()) >= |text| + 4 ==> returned
      ensures !returned ==> ring.Now.published <= old(Wire(Log)) + Frame(Out(t, text), activeTerminal)
    {
      hide Wire, Active, Switch, Inv, Run, AllEnabled;
      returned := false;
      status := 0;
      ghost var w, there, back := Wire(Log), Switch(t), Switch(activeTerminal);
      Whole(there);
      Whole(text);
      Whole(back);
      var n := ring.WriteBlocking(Switch(t), patience);
      FrontOf(w, there, text + back, n);
      if n == 2 {
        status := ring.WriteBlocking(text, patience);
        FrontOf(w + there, text, back, status);
        if status == |text| {
          n := ring.WriteBlocking(Switch(activeTerminal), patience);
          FrontOf(w + there + text, back, [], n);
          if n == 2 {
            returned := true;
            Record(Out(t, text));
          }
        }
      }
      Grouped(w, there, text, back);
    }

    /** Writes a text to terminal `t` and leaves the active terminal as it was. */
    method TerminalOut(t: Byte, s: seq<Byte>, patience: nat) returns (status: int, returned: bool)
      requires Valid() && patience >= 2
      modifies this`Log, ring`wrOff, ring`rdOff, ring`Now, ring`History, ring.buffer
      ensures returned ==> Valid()
      ensures returned <== Mode() != MODE_BLOCK_IF_FIFO_FULL
      ensures returned && t < TERMINALS && old(Accepts(s)) ==>
        && status == (if Mode() == MODE_NO_BLOCK_TRIM then Min(|s|, old(Avail()) - 4) else |s|)
        && Log == old(Log) + [Out(t, s[..status])]
      ensures returned && (t >= TERMINALS || !old(Accepts(s))) ==>
        Log == old(Log) && status == if t < TERMINALS && Mode() == MODE_NO_BLOCK_SKIP then 0 else -1
      ensures !returned ==> t < TERMINALS && ring.Now.published <= old(Wire(Log)) + Frame(Out(t, s), activeTerminal)
      ensures t >= 16 || ring.flags % 4 == 3 || (ring.flags % 4 == 1 && old(Avail()) < 4) ==>
        returned && status == -1 && ring.Now.published == old(ring.Now.published)
      ensures t < 16 && ring.flags % 4 == 0 && old(Avail()) < |s| + 4 ==>
        returned && status == 0 && ring.Now.published == old(ring.Now.published)
      ensures returned && t < 16 && ring.flags % 4 == 0 && old(Avail()) >= |s| + 4 ==>
        && status == |s|
        && ring.Now.published == old(ring.Now.published) + ([0xFF, NAMES[t]] + s + [0xFF, NAMES[activeTerminal]])
      ensures returned && t < 16 && ring.flags % 4 == 1 && old(Avail()) >= 4 ==>
        && status == Min(|s|, old(Avail()) - 4)
        && ring.Now.published
           == old(ring.Now.published) + ([0xFF, NAMES[t]] + s[..status] + [0xFF, NAMES[activeTerminal]])
      ensures returned && t < 16 && ring.flags % 4 == 2 ==>
        && status == |s|
        && ring.Now.published == old(ring.Now.published) + ([0xFF, NAMES[t]] + s + [0xFF, NAMES[activeTerminal]])
      ensures activeTerminal == old(activeTerminal)
    {
      hide Wire, Active, Frame, Switch;
      status, returned := -1, true;
      assert s[..|s|] == s;
      if t < TERMINALS {
        var avail := ring.GetAvailWriteSpace();
        if Mode() == MODE_NO_BLOCK_SKIP {
          if avail < |s| + 4 {
            status := 0;
          } else {
            status, returned := Framed(t, s, patience);
          }
        } else if Mode() == MODE_NO_BLOCK_TRIM {
          if avail >= 4 {
            status, returned := Framed(t, s[..if |s| < avail - 4 then |s| else avail - 4], patience);
          }
        } else if Mode() == MODE_BLOCK_IF_FIFO_FULL {
          status, returned := Framed(t, s, patience);
        }
      }
      if returned && Log != old(Log) {
        LogOneMore(old(Log), Out(t, s[..status]));
        FrameBytes(t, s[..status], activeTerminal);
      }
    }

    /**
     * What the stream of all calls so far, demultiplexed, comes to: every byte on its own terminal, and
     * the reader where `activeTerminal` says. What the probe has read up to now gives the front of that.
     */
    lemma StreamIsSorted()
      requires Valid() && Clean(Log)
      ensures FeedAll(Demux(0, false, []), ring.Now.published) == Demux(activeTerminal, false, Intended(Log))
      ensures FeedAll(Demux(0, false, []), ring.Now.gone).out <= Intended(Log)
    {
      DemuxRecovers(Log);
      DemuxOfPrefix(Demux(0, false, []), ring.Now.gone, ring.Contents());
    }

    /** Whether the mode and the free space let a text of this length out at all. */
    ghost predicate Accepts(s: seq<Byte>)
      reads ring
    {
      || (Mode() == MODE_NO_BLOCK_SKIP && Avail() >= |s| + 4)
      || (Mode() == MODE_NO_BLOCK_TRIM && Avail() >= 4)
      || Mode() == MODE_BLOCK_IF_FIFO_FULL
    }
  }

  lemma Whole(s: seq<Byte>)
    ensures s[..|s|] == s && s[|s|..] == []
  {
  }

  lemma FrontOf(w: seq<Byte>, a: seq<Byte>, more: seq<Byte>, n: nat)
    requires n <= |a|
    ensures w + a[..n] <= w + a + more
  {
  }

  lemma Grouped(w: seq<Byte>, a: seq<Byte>, b: seq<Byte>, c: seq<Byte>)
    ensures w + a + (b + c) == w + (a + b + c) && w + a + b + c == w + (a + b + c)
    ensures w + a + b + c + [] == w + (a + b + c)
  {
  }
}
