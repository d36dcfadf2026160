/**
 * The buffered formatter of segger/SEGGER_RTT_printf.c, writing to an up-buffer in any mode, and its use in
 * modules/rtt.c.
 */
module RttPrintf {
  import opened Arithmetic
  import opened Memory
  import opened RttDigits
  import opened RttFormat
  import opened RttFormatString
  import opened RttGeometry
  import opened RttLoads
  import opened RttPrecision
  import opened RttProtocol
  import opened RttRepeats
  import opened RttTrim
  import opened RttUpRing
  import opened Words

  lemma PartOf(base: seq<Byte>, sent: seq<Byte>, load: seq<Byte>, n: nat)
    requires n <= |load|
    ensures base + sent + load[..n] <= base + (sent + load)
  {
  }

  lemma NothingSentYet(base: seq<Byte>, n: seq<Byte>)
    ensures base + [] + [] == base && [] + n[..0] == []
  {
  }

  class PrintfDesc {
    const buffer: array<Byte>
    const ring: UpRing
    /** How many rounds of a blocking write are watched. */
    const patience: nat
    var cnt: nat
    var returnValue: int
    /** A blocking write has not come back; nothing happens any more. */
    var waiting: bool
    /**
     * What this call has put into the ring, first of the text and then of a load offered again, and the
     * whole text it is meant to put out so far.
     */
    ghost var Sent: seq<Byte>
    ghost var Again: seq<Byte>
    ghost var Full: seq<Byte>
    /** The free slots each offer of a full load has found, the load that was refused, and whether it came twice. */
    ghost var Frees: seq<nat>
    ghost var K: nat
    ghost var Twice: bool
    /** The stream before this call, what had left the ring by then, and what was free. */
    ghost const Base: seq<Byte>
    ghost const Gone: seq<Byte>
    ghost const Room: int

    ghost predicate Shaped()
      reads this, ring
    {
      && buffer.Length == SEGGER_RTT_PRINTF_BUFFER_SIZE && buffer != ring.buffer && patience > 0
      && Gone <= ring.Now.gone && Room == ring.buffer.Length - 1 - |Base| + |Gone|
    }

    /** All loads have gone through so far. */
    ghost predicate Goes()
      reads this, buffer, ring
      requires Shaped()
    {
      && |Sent| % SEGGER_RTT_PRINTF_BUFFER_SIZE == 0 && Again == []
      && cnt < buffer.Length && Sent + buffer[..cnt] == Full && returnValue == |Full|
      && (ring.flags > MODE_BLOCK_IF_FIFO_FULL ==> Sent == [])
      && (ring.flags != MODE_BLOCK_IF_FIFO_FULL ==>
            |Sent| == SEGGER_RTT_PRINTF_BUFFER_SIZE * |Frees| && Accepted(ring.flags, Frees, |Frees|))
    }

    /** A load has been refused. */
    ghost predicate Fails()
      reads this, buffer, ring
      requires Shaped()
    {
      && Stuck(ring.flags, Room, Sent, Again, Full, buffer[..], cnt)
      && Halted(ring.flags, Sent + Again, Full, buffer[..], K, Twice, Frees)
      && (Again != [] ==> Twice)
    }

    /** The free slots, as the books show them. */
    ghost function Slots(): int
      reads this, ring
    {
      ring.buffer.Length - 1 - |ring.Now.published| + |ring.Now.gone|
    }

    /** The offers have found what they can find in this ring. */
    ghost predicate Finds()
      reads this, ring
    {
      && Found(ring.flags, ring.buffer.Length, Room, Frees)
      && LeftAfter(ring.flags, Room, Frees) <= Slots()
    }

    /** The load that was refused has been offered once, and is still in the buffer. */
    ghost predicate Once()
      reads this
    {
      cnt == buffer.Length && Again == [] && !Twice
    }

    /** How long the text was at the refusal. */
    ghost function RefusedAt(): nat
      reads this
    {
      SEGGER_RTT_PRINTF_BUFFER_SIZE * (K + 1)
    }

    /** A refusal, if there was one, came in the text behind `from`. */
    ghost predicate RefusedAfter(from: nat)
      reads this
    {
      returnValue < 0 && !waiting ==> from < RefusedAt() <= |Full|
    }

    /** So it did behind `from`, and the load came twice exactly if it ends on a digit that padding follows. */
    ghost predicate RefusedOn(flags: Flags, sign: nat, digits: nat, pad: nat, from: nat)
      reads this
    {
      && RefusedAfter(from)
      && (returnValue < 0 && !waiting ==> (Twice <==> OnLeftDigit(flags, sign, digits, pad, RefusedAt() - from)))
    }

    /** A blocking write is under way for ever, as far as can be seen. */
    ghost predicate Hangs()
      reads this, buffer, ring, ring.buffer
      requires Shaped()
    {
      && ring.flags == MODE_BLOCK_IF_FIFO_FULL && ring.Valid() && returnValue < 0 && cnt == buffer.Length
      && Again == [] && ring.Now.published <= Base + Full
    }

    /** The books of the call: what has gone into the ring, and of which text. */
    ghost predicate Tracks()
      reads this, buffer, ring, ring.buffer
    {
      && Shaped()
      && if waiting then Hangs() else
           && ring.Quiet() && ring.Now.published == Base + Sent + Again
           && (if returnValue >= 0 then Goes() else Fails())
           && (ring.flags != MODE_BLOCK_IF_FIFO_FULL ==> Finds())
    }

    constructor (ring: UpRing, patience: nat)
      requires ring.Quiet() && patience > 0
      ensures Tracks() && fresh(buffer) && this.ring == ring && !waiting
      ensures returnValue == 0 && Full == Sent == [] && Frees == [] && Base == ring.Now.published && cnt == 0
      ensures Gone == ring.Now.gone && Room == ring.Image().Free()
    {
      FreeAccount(ring.Now);
      NothingSentYet(ring.Now.published, []);
      buffer := new Byte[SEGGER_RTT_PRINTF_BUFFER_SIZE](_ => 0);
      this.ring, this.patience := ring, patience;
      cnt, returnValue, waiting := 0, 0, false;
      Sent, Again, Full := [], [], [];
      Frees, K, Twice := [], 0, false;
      Base, Gone, Room := ring.Now.published, ring.Now.gone, ring.Image().Free();
    }

    /**
     * Hands a full buffer over. What is taken of it depends on the mode; `ReturnValue` turns negative
     * exactly when it is not all. A blocking write takes all of it when it comes back.
     */
    method HandOver() returns (ghost n: nat)
      requires ring.Quiet() && !waiting && patience > 0
      requires buffer.Length == SEGGER_RTT_PRINTF_BUFFER_SIZE == cnt && buffer != ring.buffer
      requires ring.flags != MODE_BLOCK_IF_FIFO_FULL ==> Finds()
      modifies this`cnt, this`returnValue, this`waiting, this`Frees
      modifies ring`wrOff, ring`rdOff, ring`Now, ring`History, ring.buffer
      ensures n <= buffer.Length && ring.Now.published == old(ring.Now.published) + buffer[..n]
      ensures old(ring.Now.gone) <= ring.Now.gone
      ensures if n == buffer.Length then cnt == 0 && returnValue == old(returnValue)
              else cnt == old(cnt) && returnValue == -1
      ensures waiting <==> ring.flags == MODE_BLOCK_IF_FIFO_FULL && n < buffer.Length
      ensures if waiting then ring.Valid() else ring.Quiet()
      ensures old(ring.Image().Free()) >= 0 && Frees == old(Frees) + [old(ring.Image().Free())]
      ensures ring.flags != MODE_BLOCK_IF_FIFO_FULL ==>
        n == Taken(ring.flags, buffer.Length, old(ring.Image().Free())) && Finds()
    {
      hide Inv, AllEnabled, Run, Found;
      RoomIsFree(ring.Now);
      FreeAccount(ring.Now);
      ghost var free := ring.Image().Free();
      if ring.flags != MODE_BLOCK_IF_FIFO_FULL {
        FoundMore(ring.flags, ring.buffer.Length, Room, Frees, free);
      }
      Frees := Frees + [free];
      var load := buffer[..cnt];
      assert load == buffer[..];
      var taken := ring.WriteNoLock(load, patience);
      assert load[..taken] == buffer[..taken];
      if taken != cnt {
        returnValue := -1;
        waiting := ring.flags == MODE_BLOCK_IF_FIFO_FULL;
      } else {
        assert load[taken..] == [];
        cnt := 0;
      }
      n := taken;
    }

    /**
     * Adds a character to the buffer, and hands the buffer over when it is full. Once a buffer load
     * could not be handed over, a further call stores nothing but tries that load again.
     */
    method StoreChar(c: Byte)
      requires Tracks() && (returnValue >= 0 || Once())
      modifies this, buffer, ring`wrOff, ring`rdOff, ring`Now, ring`History, ring.buffer
      ensures Tracks()
      ensures Full == old(Full) + if old(returnValue) >= 0 then [c] else []
      ensures old(returnValue) < 0 ==> returnValue < 0 && K == old(K) && (!waiting ==> Twice) && waiting == old(waiting)
      ensures old(returnValue) >= 0 && returnValue < 0 ==> Once() && RefusedAfter(|old(Full)|)
    {
      hide Inv, AllEnabled, Run, Stuck, Halted, Accepted, Found, LeftAfter;
      if waiting {
        return;
      }
      if cnt + 1 <= buffer.Length {
        Full := Full + [c];
        Regroup(Sent, buffer[..cnt], [c]);
        buffer[cnt] := c;
        assert buffer[..cnt + 1] == buffer[..cnt] + [c];
        cnt := cnt + 1;
        returnValue := returnValue + 1;
      }
      if cnt == buffer.Length {
        assert buffer[..cnt] == buffer[..];
        if returnValue >= 0 {
          OfferFirst();
        } else {
          OfferAgain();
        }
      }
    }

    /** The first offer of a full buffer. */
    method OfferFirst()
      requires Shaped() && ring.Quiet() && !waiting && returnValue == |Full| && cnt == buffer.Length && Again == []
      requires |Sent| % SEGGER_RTT_PRINTF_BUFFER_SIZE == 0 && Sent + buffer[..] == Full
      requires ring.flags > MODE_BLOCK_IF_FIFO_FULL ==> Sent == []
      requires ring.flags != MODE_BLOCK_IF_FIFO_FULL ==>
        |Sent| == SEGGER_RTT_PRINTF_BUFFER_SIZE * |Frees| && Accepted(ring.flags, Frees, |Frees|)
      requires ring.Now.published == Base + Sent && (ring.flags != MODE_BLOCK_IF_FIFO_FULL ==> Finds())
      modifies this`cnt, this`returnValue, this`waiting, this`Sent, this`Frees, this`K, this`Twice
      modifies ring`wrOff, ring`rdOff, ring`Now, ring`History, ring.buffer
      ensures Tracks() && Again == []
      ensures returnValue < 0 ==> Once() && (!waiting ==> RefusedAt() == |Full|)
    {
      hide Inv, AllEnabled, Run, Stuck, Halted, Accepted, Taken, Found, LeftAfter;
      FreeAccount(ring.Now);
      ghost var load, before, free := buffer[..], Sent, ring.Image().Free();
      ghost var n := HandOver();
      Regroup(Base, before, load[..n]);
      K, Twice := |old(Frees)|, false;
      if waiting {
        PartOf(Base, before, load, n);
      } else {
        Sent := before + load[..n];
        assert Base + Sent + [] == Base + Sent;
        if n == |load| {
          assert load[..n] == load && Sent + buffer[..0] == Sent;
          if ring.flags != MODE_BLOCK_IF_FIFO_FULL {
            OneMoreAccepted(ring.flags, old(Frees), free);
          }
        } else {
          FirstRefusal(before, load, n, old(Frees), free);
        }
      }
    }

    lemma FirstRefusal(before: seq<Byte>, load: seq<Byte>, n: nat, frees: seq<nat>, free: nat)
      requires ring.flags != MODE_BLOCK_IF_FIFO_FULL && |load| == SEGGER_RTT_PRINTF_BUFFER_SIZE && n < |load|
      requires n == Taken(ring.flags, |load|, free)
      requires |before| == SEGGER_RTT_PRINTF_BUFFER_SIZE * |frees| && Accepted(ring.flags, frees, |frees|)
      requires ring.flags <= MODE_NO_BLOCK_TRIM ==> Room <= |before| + free
      requires ring.flags > MODE_BLOCK_IF_FIFO_FULL ==> before == []
      ensures Stuck(ring.flags, Room, before + load[..n], [], before + load, load, |load|)
      ensures Halted(ring.flags, before + load[..n] + [], before + load, load, |frees|, false, frees + [free])
    {
      hide Stuck, Halted, Accepted;
      StuckFirst(ring.flags, Room, before, load, n);
      HaltedFirst(ring.flags, before, load, frees, free);
      assert before + load[..n] + [] == before + load[..n];
    }

    /** The same buffer once more. */
    method OfferAgain()
      requires Tracks() && returnValue < 0 && !waiting && Once()
      modifies this`cnt, this`returnValue, this`waiting, this`Sent, this`Again, this`Frees, this`Twice
      modifies ring`wrOff, ring`rdOff, ring`Now, ring`History, ring.buffer
      ensures Tracks() && returnValue < 0 && Twice && !waiting
    {
      hide Inv, AllEnabled, Run, Halted, Found, LeftAfter, Stuck;
      FreeAccount(ring.Now);
      ghost var load, before, free := buffer[..], Sent, ring.Image().Free();
      assert Base + before + [] == Base + before && before + [] == before;
      StuckIsFront(ring.flags, Room, before, [], Full, load, cnt);
      HaltedAgain(ring.flags, before, Full, load, K, Frees, free);
      ghost var n := HandOver();
      StuckAgain(ring.flags, Room, before, Full, load, n);
      Twice := true;
      if ring.flags == MODE_NO_BLOCK_TRIM {
        Again := load[..n];
      } else {
        Sent := before + load[..n];
        Regroup(Base, before, load[..n]);
        assert Base + Sent + [] == Base + Sent && Sent + [] == Sent;
      }
    }

    /** In the modes that store nothing no load goes through. */
    lemma NoLoadLost()
      requires Tracks()
      ensures returnValue >= 0 && ring.flags > MODE_BLOCK_IF_FIFO_FULL ==> Sent == []
      ensures returnValue < 0 && !waiting ==> Fails()
      ensures !waiting && ring.flags != MODE_BLOCK_IF_FIFO_FULL ==> Found(ring.flags, ring.buffer.Length, Room, Frees)
      ensures returnValue >= 0 && ring.flags != MODE_BLOCK_IF_FIFO_FULL ==>
        |Sent| == SEGGER_RTT_PRINTF_BUFFER_SIZE * |Frees| && Accepted(ring.flags, Frees, |Frees|)
      ensures !waiting ==> |ring.Now.published| == |Base| + |Sent| + |Again|
      ensures Gone <= ring.Now.gone && Room == ring.buffer.Length - 1 - |Base| + |Gone|
    {
    }

    /** After a failed store the rest of the text is not even tried. */
    ghost method Abandon(text: seq<Byte>)
      requires Tracks() && returnValue < 0
      modifies this`Full
      ensures Tracks() && Full == old(Full) + text
    {
      hide Stuck, Halted;
      if waiting {
        Regroup(Base, Full, text);
      } else {
        StuckMore(ring.flags, Room, Sent, Again, Full, buffer[..], cnt, text);
        HaltedMore(ring.flags, Sent + Again, Full, buffer[..], K, Twice, Frees, text);
      }
      Full := Full + text;
    }

    /** Characters up to a field width, stopping at a failed store. */
    method Pad(width: nat, fieldWidth: nat, c: Byte) returns (rest: nat)
      requires Tracks() && (returnValue >= 0 || Once())
      modifies this, buffer, ring`wrOff, ring`rdOff, ring`Now, ring`History, ring.buffer
      ensures Tracks()
      ensures Full == old(Full) + if old(returnValue) >= 0 then Repeat(c, Padding(width, fieldWidth)) else []
      ensures old(returnValue) < 0 ==> returnValue < 0 && K == old(K) && waiting == old(waiting)
      ensures old(returnValue) < 0 && !waiting ==> (Twice <==> Padding(width, fieldWidth) > 0)
      ensures old(returnValue) >= 0 && returnValue < 0 ==> Once() && RefusedAfter(|old(Full)|)
      ensures returnValue >= 0 ==> rest == Min(width, fieldWidth)
    {
      hide Tracks, Repeat;
      rest := fieldWidth;
      RepeatMore(c, 0);
      ghost var pad := Padding(width, fieldWidth);
      assert old(Full) + [] == old(Full);
      while rest != 0 && width < rest
        invariant Tracks() && rest <= fieldWidth && (rest == fieldWidth || rest >= width)
        invariant old(returnValue) >= 0 ==> returnValue >= 0 && Full == old(Full) + Repeat(c, fieldWidth - rest)
        invariant old(returnValue) < 0 ==>
          returnValue < 0 && rest == fieldWidth && Full == old(Full) && Once() && K == old(K) && waiting == old(waiting)
        decreases rest
      {
        rest := rest - 1;
        RepeatMore(c, fieldWidth - rest - 1);
        Regroup(old(Full), Repeat(c, fieldWidth - rest - 1), [c]);
        StoreChar(c);
        if returnValue < 0 {
          break;
        }
      }
      if returnValue < 0 && old(returnValue) >= 0 {
        ghost var missing := pad - (fieldWidth - rest);
        RepeatSum(c, fieldWidth - rest, missing);
        Regroup(old(Full), Repeat(c, fieldWidth - rest), Repeat(c, missing));
        Abandon(Repeat(c, missing));
      }
    }

    /** The weight of the leading digit, which wraps in one 32-bit word when the precision is too much for it. */
    method LeadingDigit(v: nat, base: nat, numDigits: nat) returns (digit: nat)
      requires (base == 10 || base == 16) && v < WORD32 && LeadingWeight(v, base, numDigits, 0).Defined?
      ensures Defined(digit) == LeadingWeight(v, base, numDigits, 0) && 0 < digit < WORD32
      ensures numDigits <= MaxDigits(base) ==> digit == Pow(base, Width(v, base, numDigits) - 1)
    {
      hide Pow, Width;
      var n := numDigits;
      ghost var k := 0;
      digit := 1;
      PowOne(base);
      while true
        invariant digit == Weight(base, k)
        invariant LeadingWeight(v, base, n, k) == LeadingWeight(v, base, numDigits, 0)
        decreases n, if k < 32 then 32 - k else 0
      {
        if n > 1 {
          n := n - 1;
        } else {
          if v / digit < base {
            break;
          }
          if k >= 32 {
            WeightVanishes(base, k);
          }
        }
        WeightNext(base, k);
        digit := digit * base % WORD32;
        k := k + 1;
      }
      if numDigits <= MaxDigits(base) {
        WidthPositive(v, base, numDigits);
        WeightIsExact(v, base, numDigits, numDigits, 0);
      }
    }

    /** Puts out the digits of `v` from weight `top` down. */
    method EmitDigits(v: nat, top: nat, base: nat)
      requires Tracks() && returnValue >= 0 && base > 1 && top > 0 && Emitted(v, top, base).Defined?
      modifies this, buffer, ring`wrOff, ring`rdOff, ring`Now, ring`History, ring.buffer
      ensures Tracks() && Full == old(Full) + Emitted(v, top, base).value
      ensures returnValue < 0 ==> Once() && RefusedAfter(|old(Full)|)
    {
      hide Tracks;
      var rest: nat, digit: nat := v, top;
      ghost var text, done := Emitted(v, top, base).value, [];
      assert old(Full) + [] == old(Full) && [] + text == text;
      while true
        invariant Tracks() && returnValue >= 0 && digit > 0
        invariant Emitted(rest, digit, base).Defined? && text == done + Emitted(rest, digit, base).value
        invariant Full == old(Full) + done
        decreases digit
      {
        var div := rest / digit;
        EmittedStep(rest, digit, base, done);
        rest := rest - div * digit;
        StoreChar(DigitChar(div));
        Regroup(old(Full), done, [DigitChar(div)]);
        done := done + [DigitChar(div)];
        digit := digit / base;
        if returnValue < 0 || digit == 0 {
          break;
        }
      }
      if digit != 0 {
        Regroup(old(Full), done, Emitted(rest, digit, base).value);
        Abandon(Emitted(rest, digit, base).value);
      }
    }

    /** The field width actually needed for the digits; a negative number counts for one. */
    method ActualWidth(v: int, base: nat, numDigits: nat) returns (width: nat)
      requires base > 1
      ensures width == if v < 0 then Max(numDigits, 1) else Width(v, base, numDigits)
    {
      var number := v;
      width := 1;
      while number >= base
        invariant v < 0 ==> number < 0 && width == 1
        invariant v >= 0 ==> number >= 0 && width - 1 + DigitCount(number, base) == DigitCount(v, base)
        decreases number
      {
        QuotientShrinks(number, base);
        number := number / base;
        width := width + 1;
      }
      if numDigits > width {
        width := numDigits;
      }
    }

    /** The precondition excludes a division by zero and a digit that is none, nothing else. */
    method PrintUnsigned(v: nat, base: nat, numDigits: nat, fieldWidth: nat, flags: Flags)
      requires Tracks() && returnValue >= 0 && (base == 10 || base == 16) && v < WORD32
      requires Printable(v, base, numDigits)
      modifies this, buffer, ring`wrOff, ring`rdOff, ring`Now, ring`History, ring.buffer
      ensures UnsignedOutput(v, base, numDigits, fieldWidth, flags).Defined?
      ensures Tracks() && Full == old(Full) + UnsignedOutput(v, base, numDigits, fieldWidth, flags).value
      ensures RefusedOn(flags, 0, |MachineDigits(v, base, numDigits).value|,
                        Padding(Width(v, base, numDigits), fieldWidth), |old(Full)|)
      ensures numDigits <= MaxDigits(base) ==> Full == old(Full) + UnsignedText(v, base, numDigits, fieldWidth, flags)
    {
      hide Tracks, Pow, Width, Repeat, Emitted, LeadingWeight, UnsignedText, Printable;
      PrintableIff(v, base, numDigits);
      UnsignedOutputIff(v, base, numDigits, fieldWidth, flags);
      var width := ActualWidth(v, base, numDigits);
      var field := fieldWidth;
      ghost var digits := MachineDigits(v, base, numDigits).value;
      RepeatMore(SPACE, 0);
      ghost var before: seq<Byte> := [];
      assert old(Full) + [] == old(Full) && [] + digits == digits && digits + [] == digits;
      if !flags.left {
        if field != 0 {
          var c := if flags.zero && numDigits == 0 then ZERO else SPACE;
          before := Repeat(c, Padding(width, field));
          field := Pad(width, field, c);
        } else {
          RepeatMore(ZERO, 0);
        }
      }
      assert Full == old(Full) + before;
      Regroup(old(Full), before, digits);
      if returnValue >= 0 {
        var digit := LeadingDigit(v, base, numDigits);
        EmitDigits(v, digit, base);
        if flags.left {
          if field != 0 {
            ghost var failed := returnValue < 0;
            field := Pad(width, field, SPACE);
            if failed {
              Abandon(Repeat(SPACE, Padding(width, fieldWidth)));
            }
            Regroup(old(Full), digits, Repeat(SPACE, Padding(width, fieldWidth)));
          }
        }
      } else {
        Abandon(digits);
      }
    }

    method PrintInt(v: int, base: nat, numDigits: nat, fieldWidth: nat, flags: Flags)
      requires Tracks() && returnValue >= 0 && (base == 10 || base == 16) && -0x8000_0000 <= v < 0x8000_0000
      requires Printable(Abs(v), base, numDigits)
      modifies this, buffer, ring`wrOff, ring`rdOff, ring`Now, ring`History, ring.buffer
      ensures IntOutput(v, base, numDigits, fieldWidth, flags).Defined?
      ensures Tracks() && Full == old(Full) + IntOutput(v, base, numDigits, fieldWidth, flags).value
      ensures RefusedOn(flags, |SignText(v, flags)|, |MachineDigits(Abs(v), base, numDigits).value|,
                        Padding(Width(Abs(v), base, numDigits), FieldAfterSign(v, fieldWidth, flags)), |old(Full)|)
      ensures numDigits <= MaxDigits(base) && (v == -0x8000_0000 ==> LeastFits(base, numDigits, fieldWidth, flags)) ==>
        Full == old(Full) + IntText(v, base, numDigits, fieldWidth, flags)
    {
      hide Tracks, Pow, Width, Repeat, UnsignedText, IntText, MachineDigits, Field, Printable, LeastFits, FromSign,
        UnsignedOutput, OnLeftDigit, RefusedOn, SignText;
      PrintableIff(Abs(v), base, numDigits);
      ghost var sign, digits := |SignText(v, flags)|, |MachineDigits(Abs(v), base, numDigits).value|;
      ghost var pad := Padding(Width(Abs(v), base, numDigits), FieldAfterSign(v, fieldWidth, flags));
      IntOutputIff(v, base, numDigits, fieldWidth, flags);
      var number := if v < 0 then SignedWord(-v) else v;
      var width := ActualWidth(number, base, numDigits);
      var field := fieldWidth;
      if field > 0 && (v < 0 || flags.sign) {
        field := field - 1;
      }
      assert field == FieldAfterSign(v, fieldWidth, flags);
      hide FieldAfterSign, LeadingSpaces, FieldLeft;
      ghost var spaces := LeadingSpaces(v, width, numDigits, fieldWidth, flags);
      ghost var rest := FromSign(v, base, width, numDigits, fieldWidth, flags);
      field := PadBeforeSign(v, width, numDigits, fieldWidth, field, flags);
      Regroup(old(Full), spaces, rest);
      if returnValue >= 0 {
        ghost var from := |Full|;
        PrintFromSign(v, base, width, numDigits, fieldWidth, field, flags);
        CountedEarlier(flags, sign, digits, pad, from, 0, pad, |old(Full)|);
      } else {
        Abandon(rest);
        OnSpace(flags, sign, digits, pad, |old(Full)|);
      }
    }

    /** The spaces before the sign; `left` is what is left of the field width. */
    method PadBeforeSign(v: int, width: nat, numDigits: nat, ghost fieldWidth: nat, field: nat, flags: Flags)
      returns (left: nat)
      requires Tracks() && returnValue >= 0 && field == FieldAfterSign(v, fieldWidth, flags)
      modifies this, buffer, ring`wrOff, ring`rdOff, ring`Now, ring`History, ring.buffer
      ensures Tracks() && Full == old(Full) + LeadingSpaces(v, width, numDigits, fieldWidth, flags)
      ensures returnValue < 0 ==> !flags.left && Once() && RefusedAfter(|old(Full)|)
      ensures returnValue >= 0 ==>
        left == if flags.left || (flags.zero && numDigits == 0) then field else FieldLeft(v, width, fieldWidth, flags)
      ensures flags.left ==> Full == old(Full)
    {
      hide Tracks, Repeat;
      RepeatMore(SPACE, 0);
      assert Full + [] == Full;
      left := field;
      if (!flags.zero || numDigits != 0) && !flags.left {
        if left != 0 {
          left := Pad(width, left, SPACE);
        }
      }
    }

    lemma CountedEarlier(
        flags: Flags, sign: nat, digits: nat, pad: nat, from: nat, more: nat, room: nat, earlier: nat)
      requires RefusedOn(flags, sign, digits, pad, from) && earlier <= from
      requires flags.left ==> pad == room && from == earlier + more
      ensures RefusedOn(flags, more + sign, digits, room, earlier)
    {
    }

    lemma OnSign(flags: Flags, sign: nat, digits: nat, pad: nat, from: nat)
      requires RefusedAfter(from) && Once() && (waiting || RefusedAt() <= from + sign)
      ensures RefusedOn(flags, sign, digits, pad, from)
    {
    }

    lemma OnSpace(flags: Flags, sign: nat, digits: nat, pad: nat, from: nat)
      requires RefusedAfter(from) && Once() && !flags.left
      ensures RefusedOn(flags, sign, digits, pad, from)
    {
    }

    /** Sign, zeros and number; `field` is what is left of the field width. */
    method PrintFromSign(
        v: int, base: nat, width: nat, numDigits: nat, ghost fieldWidth: nat, field: nat, flags: Flags)
      requires Tracks() && returnValue >= 0 && (base == 10 || base == 16)
      requires -0x8000_0000 <= v < 0x8000_0000
      requires MachineDigits(Abs(v), base, numDigits).Defined? && Printable(Abs(v), base, numDigits)
      requires field == if flags.left || (flags.zero && numDigits == 0) then FieldAfterSign(v, fieldWidth, flags)
                        else FieldLeft(v, width, fieldWidth, flags)
      modifies this, buffer, ring`wrOff, ring`rdOff, ring`Now, ring`History, ring.buffer
      ensures Tracks() && Full == old(Full) + FromSign(v, base, width, numDigits, fieldWidth, flags)
      ensures RefusedOn(flags, |SignText(v, flags)|, |MachineDigits(Abs(v), base, numDigits).value|,
                        Padding(Width(Abs(v), base, numDigits), FieldAfterSign(v, fieldWidth, flags)), |old(Full)|)
    {
      hide Tracks, Repeat, MachineDigits, Field, Printable, Width, RefusedOn, SignText;
      ghost var sign, digits := |SignText(v, flags)|, |MachineDigits(Abs(v), base, numDigits).value|;
      ghost var pad := Padding(Width(Abs(v), base, numDigits), FieldAfterSign(v, fieldWidth, flags));
      ghost var zeros := LeadingZeros(v, width, numDigits, fieldWidth, flags);
      ghost var rest := UnsignedOutput(Abs(v), base, numDigits, FieldLeft(v, width, fieldWidth, flags), flags).value;
      var left := field;
      RepeatMore(ZERO, 0);
      PrintSign(v, flags);
      var number := if v < 0 then SignedWord(-v) else v;
      Regroup(old(Full), SignText(v, flags), zeros + rest);
      if returnValue >= 0 {
        ghost var signed := Full;
        assert Full + [] == Full;
        if flags.zero && !flags.left && numDigits == 0 {
          if left != 0 {
            left := Pad(width, left, ZERO);
          }
        }
        Regroup(signed, zeros, rest);
        if returnValue >= 0 {
          ghost var from := |Full|;
          PrintUnsigned(number % WORD32, base, numDigits, left, flags);
          CountedEarlier(flags, 0, digits, Padding(Width(Abs(v), base, numDigits), left), from, sign, pad, |old(Full)|);
        } else {
          Abandon(rest);
          OnSpace(flags, sign, digits, pad, |old(Full)|);
        }
      } else {
        Abandon(zeros + rest);
        OnSign(flags, sign, digits, pad, |old(Full)|);
      }
    }

    method PrintSign(v: int, flags: Flags)
      requires Tracks() && returnValue >= 0
      modifies this, buffer, ring`wrOff, ring`rdOff, ring`Now, ring`History, ring.buffer
      ensures Tracks() && Full == old(Full) + SignText(v, flags)
      ensures returnValue < 0 ==> Once() && RefusedAfter(|old(Full)|)
    {
      hide Tracks;
      assert Full + [] == Full;
      if v < 0 {
        StoreChar(MINUS);
      } else if flags.sign {
        StoreChar(PLUS);
      }
    }

    method PrintString(s: seq<Byte>)
      requires Tracks() && returnValue >= 0
      modifies this, buffer, ring`wrOff, ring`rdOff, ring`Now, ring`History, ring.buffer
      ensures Tracks() && Full == old(Full) + s
      ensures returnValue < 0 ==> Once() && RefusedAfter(|old(Full)|)
    {
      hide Tracks;
      var i := 0;
      assert old(Full) + s[..0] == old(Full);
      while i < |s|
        invariant Tracks() && returnValue >= 0 && i <= |s| && Full == old(Full) + s[..i]
        decreases |s| - i
      {
        StoreChar(s[i]);
        i := i + 1;
        assert s[..i] == s[..i - 1] + [s[i - 1]];
        Regroup(old(Full), s[..i - 1], [s[i - 1]]);
        if returnValue < 0 {
          break;
        }
      }
      assert s == s[..i] + s[i..];
      Regroup(old(Full), s[..i], s[i..]);
      if returnValue < 0 {
        Abandon(s[i..]);
      } else {
        assert s[..i] == s;
      }
    }

    /** One conversion, by its last character. */
    method Convert(spec: Spec, c: Byte, args: seq<Arg>)
      requires Tracks() && returnValue >= 0 && Suits(spec, c, args)
      modifies this, buffer, ring`wrOff, ring`rdOff, ring`Now, ring`History, ring.buffer
      ensures Tracks() && Full == old(Full) + ConversionText(spec, c, args)
      ensures c == 0x73 ==> Full == old(Full) + args[0].s
      ensures c == 0x63 ==> Full == old(Full) + [args[0].v % 0x100]
      ensures c == 0x25 ==> Full == old(Full) + [0x25]
      ensures c == 0x64 ==>
        IntOutput(args[0].v, 10, spec.numDigits, spec.fieldWidth, spec.flags) == Defined(Full[|old(Full)|..])
      ensures c == 0x75 ==>
        UnsignedOutput(args[0].v % 0x1_0000_0000, 10, spec.numDigits, spec.fieldWidth, spec.flags)
        == Defined(Full[|old(Full)|..])
      ensures c == 0x78 || c == 0x58 ==>
        UnsignedOutput(args[0].v % 0x1_0000_0000, 16, spec.numDigits, spec.fieldWidth, spec.flags)
        == Defined(Full[|old(Full)|..])
      ensures c == 0x70 ==> var s := Full[|old(Full)|..];
        && |s| == 8 && Value(s, 16, 0) == args[0].v % 0x1_0000_0000
        && forall k :: 0 <= k < 8 ==> IsDigit(s[k], 16)
      ensures c !in {0x25, 0x58, 0x63, 0x64, 0x70, 0x73, 0x75, 0x78} ==> Full == old(Full)
      ensures RefusedAfter(|old(Full)|)
      ensures returnValue < 0 && !waiting ==> (Twice <==> OnDigit(spec, c, args, RefusedAt() - |old(Full)|))
    {
      hide Tracks, UnsignedText, IntText, UnsignedOutput, IntOutput, MachineDigits, Width, Printable;
      assert Full + [] == Full;
      if c == 0x63 {
        StoreChar(args[0].v % 0x100);
      } else if c == 0x64 {
        PrintInt(args[0].v, 10, spec.numDigits, spec.fieldWidth, spec.flags);
      } else if c == 0x75 {
        PrintUnsigned(args[0].v % WORD32, 10, spec.numDigits, spec.fieldWidth, spec.flags);
      } else if c == 0x78 || c == 0x58 {
        PrintUnsigned(args[0].v % WORD32, 16, spec.numDigits, spec.fieldWidth, spec.flags);
      } else if c == 0x73 {
        PrintString(args[0].s);
      } else if c == 0x70 {
        PrintableIff(args[0].v % WORD32, 16, 8);
        PointerText(args[0].v % WORD32);
        PrintUnsigned(args[0].v % WORD32, 16, 8, 8, Flags(false, false, false, false));
      } else if c == PERCENT {
        StoreChar(PERCENT);
      }
    }

    /** How much of a last load of `n` bytes goes in when there are `free` slots. */
    ghost function Flushed(n: nat, free: int): int
      reads ring
    {
      if ring.flags == MODE_BLOCK_IF_FIFO_FULL then n else Taken(ring.flags, n, free)
    }

    /** What is left in the buffer goes out at the end, unless a store has failed. */
    method Flush()
      requires Tracks()
      modifies ring`wrOff, ring`rdOff, ring`Now, ring`History, ring.buffer, this`Sent, this`waiting
      ensures Gone <= ring.Now.gone && old(ring.Now.gone) <= ring.Now.gone && (old(waiting) ==> waiting)
      ensures if waiting then ring.flags == MODE_BLOCK_IF_FIFO_FULL && ring.Valid() && ring.Now.published <= Base + Full
              else ring.Quiet() && ring.Now.published == Base + Sent + Again && old(Sent) <= Sent <= Full
      ensures returnValue < 0 ==> Sent == old(Sent)
      ensures returnValue >= 0 ==> returnValue == |Full| && cnt == |Full| - Loads(|Full|) && Again == []
      ensures returnValue >= 0 && !waiting ==>
        |Sent| == |old(Sent)| + Flushed(cnt, old(ring.Image().Free()))
      ensures returnValue >= 0 ==> |old(Sent)| == Loads(|Full|)
    {
      hide Inv, AllEnabled, Run, Loads, Stuck;
      RoomIsFree(ring.Now);
      if waiting {
        return;
      }
      if returnValue >= 0 {
        LoadsSent(|Sent|, cnt);
        assert Sent <= Sent + buffer[..cnt];
      } else {
        StuckIsFront(ring.flags, Room, Sent, Again, Full, buffer[..], cnt);
      }
      if returnValue > 0 {
        if cnt != 0 {
          SendRest();
        }
      }
    }

    /** The last, partial load. */
    method SendRest()
      requires ring.Quiet() && !waiting && 0 < cnt < buffer.Length && buffer != ring.buffer && patience > 0
      requires ring.Now.published == Base + Sent + Again && Again == []
      modifies ring`wrOff, ring`rdOff, ring`Now, ring`History, ring.buffer, this`Sent, this`waiting
      ensures old(ring.Now.gone) <= ring.Now.gone && old(Sent) <= Sent <= old(Sent) + buffer[..cnt]
      ensures waiting ==>
        && ring.flags == MODE_BLOCK_IF_FIFO_FULL && ring.Valid()
        && ring.Now.published <= Base + (old(Sent) + buffer[..cnt])
      ensures !waiting ==> ring.Quiet() && ring.Now.published == Base + Sent + Again
      ensures !waiting ==> |Sent| == |old(Sent)| + Flushed(cnt, old(ring.Image().Free()))
    {
      hide Inv, AllEnabled, Run;
      RoomIsFree(ring.Now);
      ghost var before := Sent;
      var load := buffer[..cnt];
      assert Base + before + [] == Base + before;
      var n := ring.WriteNoLock(load, patience);
      Regroup(Base, before, load[..n]);
      PartOf(Base, before, load, n);
      if ring.flags == MODE_BLOCK_IF_FIFO_FULL && n < cnt {
        waiting := true;
      } else {
        assert n == |load| ==> load[n..] == [];
        Sent := before + load[..n];
        assert Base + Sent + [] == Base + Sent;
      }
    }
  }

  /** Takes the longest run of flags; a flag is set exactly if its character occurs in it. */
  method ReadFlags(format: seq<Byte>, start: nat) returns (flags: Flags, i: nat)
    requires start <= |format|
    ensures (flags, i) == ScanFlags(format, start, Flags(false, false, false, false))
    ensures start <= i <= |format| && flags == FlagsOf(format[start..i])
    ensures (forall k :: start <= k < i ==> IsFlag(format[k])) && (i < |format| ==> !IsFlag(format[i]))
    ensures var run := format[start..i]; flags == Flags(0x2D in run, 0x30 in run, 0x2B in run, 0x23 in run)
    ensures forall k :: start <= k < i ==> format[k] in {0x2D, 0x30, 0x2B, 0x23}
    ensures i < |format| ==> format[i] !in {0x2D, 0x30, 0x2B, 0x23}
  {
    flags, i := Flags(false, false, false, false), start;
    FlagsFound(format, start, flags);
    NoFlagJoins(FlagsOf(format[start..ScanFlags(format, start, flags).1]));
    hide Joined;
    while i < |format| && IsFlag(format[i])
      invariant i <= |format|
      invariant ScanFlags(format, i, flags) == ScanFlags(format, start, Flags(false, false, false, false))
      decreases |format| - i
    {
      flags, i := WithFlag(flags, format[i]), i + 1;
    }
  }

  /** Takes the longest run of digits and what it stands for, in one word. */
  method ReadNumber(format: seq<Byte>, start: nat) returns (number: nat, i: nat)
    requires start <= |format|
    ensures (number, i) == ScanNumber(format, start, 0)
    ensures start <= i <= |format| && number == Value(format[start..], 10, 0) % WORD32
    ensures (forall k :: start <= k < i ==> IsDecimal(format[k])) && (i < |format| ==> !IsDecimal(format[i]))
    ensures forall k :: start <= k < i ==> 0x30 <= format[k] <= 0x39
    ensures i < |format| ==> !(0x30 <= format[i] <= 0x39)
  {
    number, i := 0, start;
    NumberFound(format, start, 0);
    hide Value;
    while i < |format| && IsDecimal(format[i])
      invariant i <= |format|
      invariant ScanNumber(format, i, number) == ScanNumber(format, start, 0)
      decreases |format| - i
    {
      number, i := (number * 10 + (format[i] - ZERO)) % WORD32, i + 1;
    }
  }

  /** Whatever specification is written out at `start` is the one read. */
  method ReadSpec(format: seq<Byte>, start: nat) returns (spec: Spec)
    requires start <= |format|
    ensures spec == ScanSpec(format, start)
    ensures forall a: nat, b: nat, c: nat, d: nat, fieldWidth: nat, numDigits: nat |
      Writes(format, start, a, b, c, d, fieldWidth, numDigits) ::
      spec == Spec(FlagsOf(format[start..a]), fieldWidth % WORD32, numDigits % WORD32, d)
  {
    hide Value, Writes;
    var flags, i := ReadFlags(format, start);
    hide FlagsOf;
    var fieldWidth, numDigits := 0, 0;
    fieldWidth, i := ReadNumber(format, i);
    if i < |format| && format[i] == POINT {
      numDigits, i := ReadNumber(format, i + 1);
    }
    ghost var l := i;
    while i < |format| && IsLength(format[i])
      invariant i <= |format| && ScanLength(format, i) == ScanLength(format, l)
      decreases |format| - i
    {
      i := i + 1;
    }
    spec := Spec(flags, fieldWidth, numDigits, i);
    AnySpecReadsBack(format, start);
  }

  /** The loop over the format string. A refused load comes again exactly if it ends on a digit padding follows. */
  method FormatAll(desc: PrintfDesc, format: seq<Byte>, args: seq<Arg>)
    requires desc.Tracks() && desc.returnValue >= 0 && desc.Full == []
    requires 0 !in format && WellFormed(format, 0, args)
    modifies desc, desc.buffer
    modifies desc.ring`wrOff, desc.ring`rdOff, desc.ring`Now, desc.ring`History, desc.ring.buffer
    ensures desc.Tracks() && desc.Full == Text(format, 0, args)
    ensures desc.returnValue < 0 && !desc.waiting ==> (desc.Twice <==> Retries(format, 0, args, 0, desc.RefusedAt()))
  {
    hide ConversionText, Suits, ScanSpec, Text, WellFormed, PrintfDesc.Tracks, DecidedFrom, Retries, OnDigit, Writes,
      IntOutput, UnsignedOutput, Value, IsDigit;
    DecidedAtStart(format, args);
    var i, rest := 0, args;
    ghost var whole := Text(format, 0, args);
    assert [] + whole == whole;
    while i < |format|
      invariant desc.Tracks() && desc.returnValue >= 0
      invariant i <= |format| && WellFormed(format, i, rest) && desc.Full + Text(format, i, rest) == whole
      invariant DecidedFrom(format, args, i, rest, |desc.Full|)
      decreases |format| - i
    {
      var c := format[i];
      ghost var before := desc.Full;
      if c == PERCENT {
        var spec := ReadSpec(format, i + 1);
        TextOfConversion(format, i, rest, spec);
        DecidedPastConversion(format, args, i, rest, |before|, spec);
        c := format[spec.at];
        desc.Convert(spec, c, rest);
        Regroup(before, ConversionText(spec, c, rest), Text(format, spec.at + 1, rest[Consumed(c)..]));
        rest := rest[Consumed(c)..];
        i := spec.at + 1;
      } else {
        TextOfChar(format, i, rest);
        DecidedPastChar(format, args, i, rest, |before|);
        desc.StoreChar(c);
        Regroup(before, [c], Text(format, i + 1, rest));
        i := i + 1;
      }
      if desc.returnValue < 0 {
        desc.Abandon(Text(format, i, rest));
        break;
      }
    }
    if desc.returnValue >= 0 {
      TextAtEnd(format, rest);
      assert desc.Full + [] == desc.Full;
    }
  }

  /** What a call that came back has done to the ring, from its mode, its text, and the room and reads it met. */
  ghost predicate Stored(flags: nat, text: seq<Byte>, free: int, read: int, r: int, sent: seq<Byte>, again: seq<Byte>) {
    var n := |text|;
    && sent <= text && (r < 0 || r == n + (n - Loads(n)))
    && (again != [] ==>
          flags == MODE_NO_BLOCK_TRIM && r < 0 && Loads(|sent|) <= n && again <= text[Loads(|sent|)..])
    && (flags == MODE_BLOCK_IF_FIFO_FULL ==> r >= 0 && sent == text)
    && (flags == MODE_NO_BLOCK_SKIP ==> sent == text || |sent| % SEGGER_RTT_PRINTF_BUFFER_SIZE == 0)
    && (flags > MODE_BLOCK_IF_FIFO_FULL ==> sent == [] && (r < 0 <==> Loads(n) > 0))
    && (flags <= MODE_NO_BLOCK_TRIM ==>
          && (free >= Loads(n) ==> r >= 0) && (r >= 0 ==> free + read >= Loads(n))
          && (free >= n ==> sent == text) && (sent == text ==> free + read >= n)
          && (r >= 0 ==> (r == |sent| <==> n == Loads(n))))
  }

  /**
   * How the full loads went: each offer has found `frees` slots, and either all went through, or load `k` was
   * refused, and offered again exactly if it ends on a digit of a left-justified number that padding follows.
   */
  ghost predicate Went(flags: nat, format: seq<Byte>, args: seq<Arg>, size: nat, free: int, r: int,
                       sent: seq<Byte>, again: seq<Byte>, k: nat, frees: seq<nat>)
    requires WellFormed(format, 0, args)
  {
    && Found(flags, size, free, frees)
    && if r < 0 then
         && Refusal(flags, format, args, k, frees) && sent + again == RefusalStored(flags, format, args, k, frees)
         && (again != [] ==> CutOnDigit(format, args, k))
       else
         && SEGGER_RTT_PRINTF_BUFFER_SIZE * |frees| == Loads(|Text(format, 0, args)|)
         && Accepted(flags, frees, |frees|)
  }

  /**
   * Whatever the probe does, the bytes one call adds to the ring are a prefix of the formatted text in every
   * mode but one; in trim mode the front of the refused load comes again behind it if the load is cut on a digit
   * of a left-justified number that padding follows, and never else. In skip mode the text is cut, if at all,
   * at the end of a 64-byte load. In both these modes room for all full loads when the call begins is enough for
   * it to succeed, room for the whole text for all of it to be stored; and room is needed, together with what
   * the probe reads meanwhile. The number returned is that of the bytes stored exactly when the text is made of
   * full loads. In blocking mode a call that comes back has stored everything.
   */
  method Vprintf(ring: UpRing, format: seq<Byte>, args: seq<Arg>, patience: nat)
    returns (r: int, returned: bool, ghost sent: seq<Byte>, ghost again: seq<Byte>, ghost k: nat, ghost frees: seq<nat>)
    requires ring.Quiet() && patience > 0
    requires 0 !in format && WellFormed(format, 0, args)
    modifies ring`wrOff, ring`rdOff, ring`Now, ring`History, ring.buffer
    ensures old(ring.Now.gone) <= ring.Now.gone
    ensures returned <== ring.flags != MODE_BLOCK_IF_FIFO_FULL
    ensures !returned ==> ring.Valid() && ring.Now.published <= old(ring.Now.published) + Text(format, 0, args)
    ensures returned ==> ring.Quiet() && ring.Now.published == old(ring.Now.published) + sent + again
    ensures returned ==> Stored(ring.flags, Text(format, 0, args), old(ring.Image().Free()),
                                |ring.Now.gone| - |old(ring.Now.gone)|, r, sent, again)
    ensures returned && ring.flags != MODE_BLOCK_IF_FIFO_FULL ==>
      Went(ring.flags, format, args, ring.buffer.Length, old(ring.Image().Free()), r, sent, again, k, frees)
    ensures var text := Text(format, 0, args);
      returned && (ring.flags == 2 || (ring.flags < 2 && old(ring.Image().Free()) >= |text|)) ==>
        r >= 0 && ring.Now.published == old(ring.Now.published) + text
    ensures format == [0x25, 0x73] && args != [] && args[0].Str? && 0 !in args[0].s ==>
      Text(format, 0, args) == args[0].s
  {
    hide Text, WellFormed, Inv, AllEnabled, Run, Stored, Stuck, Halted, Retries, Went;
    var desc := new PrintfDesc(ring, patience);
    FormatAll(desc, format, args);
    r, returned := Finish(desc, format, args);
    sent, again, k, frees := desc.Sent, desc.Again, desc.K, desc.Frees;
    if returned {
      AllStored(ring.flags, Text(format, 0, args), old(ring.Image().Free()), |ring.Now.gone| - |old(ring.Now.gone)|, r,
                sent, again);
      Regroup(old(ring.Now.published), sent, again);
    }
    if format == [0x25, 0x73] && args != [] && args[0].Str? && 0 !in args[0].s {
      assert args == [Str(args[0].s)] + args[1..] && format == [0x25, 0x73] + [] && args[0].s + [] == args[0].s;
      TextOfString(args[0].s, [], args[1..]);
    }
  }

  /** A string as its reader sees it, who stops at a zero. */
  function UpToZero(data: seq<Byte>): (s: seq<Byte>)
    ensures s <= data && 0 !in s && (|s| < |data| ==> data[|s|] == 0)
  {
    if data == [] || data[0] == 0 then [] else [data[0]] + UpToZero(data[1..])
  }

  /**
   * `rtt_print` of modules/rtt.c: a string and the end of its line. In every mode but blocking what is stored is a
   * prefix of that, and with room for it all of it; in blocking mode all of it when the call comes back.
   */
  method RttPrint(ring: UpRing, data: seq<Byte>, patience: nat) returns (r: int, returned: bool)
    requires ring.Quiet() && patience > 0
    modifies ring`wrOff, ring`rdOff, ring`Now, ring`History, ring.buffer
    ensures ring.flags != 2 ==>
      && returned && old(ring.Now.published) <= ring.Now.published
      && ring.Now.published <= old(ring.Now.published) + (UpToZero(data) + [0x0D, 0x0A])
    ensures returned && (ring.flags == 2 || (ring.flags < 2 && old(ring.Image().Free()) >= |UpToZero(data)| + 2)) ==>
      ring.Quiet() && r >= 0 && ring.Now.published == old(ring.Now.published) + (UpToZero(data) + [0x0D, 0x0A])
  {
    hide Text, WellFormed, Inv, AllEnabled, Run, Retries, ScanSpec;
    var str := UpToZero(data);
    var format, args := [0x25, 0x73, 0x0D, 0x0A], [Str(str)];
    assert format == [0x25, 0x73] + [0x0D, 0x0A] && args == [Str(str)] + [];
    TextOfString(str, [0x0D, 0x0A], []);
    forall p: int
      ensures !Retries(format, 0, args, 0, p)
    {
      StringNeverRetries(format, args, p);
    }
    ghost var sent, again, k, frees;
    r, returned, sent, again, k, frees := Vprintf(ring, format, args, patience);
    if returned {
      assert ring.flags != 2 ==> again == [];
    }
  }

  lemma AllStored(flags: nat, text: seq<Byte>, free: int, read: int, r: int, sent: seq<Byte>, again: seq<Byte>)
    requires Stored(flags, text, free, read, r, sent, again)
    ensures flags == 2 || (flags < 2 && free >= |text|) ==> r >= 0 && sent == text && sent + again == text
  {
    assert text + [] == text;
  }

  /** The end of a call: the last load, and the number returned. */
  method Finish(desc: PrintfDesc, ghost format: seq<Byte>, ghost args: seq<Arg>) returns (r: int, returned: bool)
    requires desc.Tracks() && WellFormed(format, 0, args) && desc.Full == Text(format, 0, args)
    requires desc.returnValue < 0 && !desc.waiting ==> (desc.Twice <==> Retries(format, 0, args, 0, desc.RefusedAt()))
    modifies desc`Sent, desc`waiting
    modifies desc.ring`wrOff, desc.ring`rdOff, desc.ring`Now, desc.ring`History, desc.ring.buffer
    ensures desc.Gone <= desc.ring.Now.gone && desc.Room == desc.ring.buffer.Length - 1 - |desc.Base| + |desc.Gone|
    ensures returned <== desc.ring.flags != MODE_BLOCK_IF_FIFO_FULL
    ensures !returned ==> desc.ring.Valid() && desc.ring.Now.published <= desc.Base + desc.Full
    ensures returned ==> desc.ring.Quiet() && desc.ring.Now.published == desc.Base + desc.Sent + desc.Again
    ensures returned ==> Stored(desc.ring.flags, desc.Full, desc.Room,
                                |desc.ring.Now.gone| - |desc.Gone|, r, desc.Sent, desc.Again)
    ensures returned && desc.ring.flags != MODE_BLOCK_IF_FIFO_FULL ==>
      Went(desc.ring.flags, format, args, desc.ring.buffer.Length, desc.Room, r, desc.Sent, desc.Again, desc.K,
           desc.Frees)
  {
    hide Inv, AllEnabled, Run, Stored, Went, Stuck, Halted, Taken, Loads, Accepted, Found, Text, WellFormed, Retries,
      PrintfDesc.Goes, PrintfDesc.Finds;
    ghost var ring, before := desc.ring, desc.Sent;
    desc.NoLoadLost();
    if desc.waiting {
      return desc.returnValue, false;
    }
    FreeAccount(ring.Now);
    ghost var fitted, early := ring.Image().Free(), |ring.Now.gone| - |desc.Gone|;
    desc.Flush();
    r := desc.returnValue;
    if r > 0 {
      r := r + desc.cnt;
    }
    returned := !desc.waiting;
    if returned {
      FreeAccount(ring.Now);
      if desc.returnValue < 0 {
        StuckIsStored(ring.flags, desc.Room, desc.Sent, desc.Again, desc.Full, desc.buffer[..], desc.cnt, r,
                      |ring.Now.gone| - |desc.Gone|, ring.Image().Free());
        HaltedWent(ring.flags, format, args, ring.buffer.Length, desc.Room, r, desc.Sent, desc.Again,
                   desc.buffer[..], desc.K, desc.Twice, desc.Frees);
      } else {
        FlushIsStored(ring.flags, desc.Room, |before|, desc.Sent, desc.Full, desc.cnt, r, early, fitted,
                      |ring.Now.gone| - |desc.Gone|, ring.Image().Free());
        if ring.flags != MODE_BLOCK_IF_FIFO_FULL {
          AllWent(ring.flags, format, args, ring.buffer.Length, desc.Room, r, desc.Sent, desc.K, desc.Frees);
        }
      }
    }
  }

  /** The account of a call in which a load was refused. */
  lemma StuckIsStored(flags: nat, room: int, sent: seq<Byte>, again: seq<Byte>, full: seq<Byte>, load: seq<Byte>,
                      count: nat, r: int, read: nat, free: nat)
    requires Stuck(flags, room, sent, again, full, load, count) && r < 0
    requires free == room - |sent| - |again| + read
    ensures Stored(flags, full, room, read, r, sent, again)
  {
    AgainIsLoad(flags, room, sent, again, full, load, count);
  }

  lemma HaltedWent(flags: nat, format: seq<Byte>, args: seq<Arg>, size: nat, room: int, r: int, sent: seq<Byte>,
                   again: seq<Byte>, load: seq<Byte>, k: nat, twice: bool, frees: seq<nat>)
    requires WellFormed(format, 0, args) && r < 0 && Found(flags, size, room, frees)
    requires Halted(flags, sent + again, Text(format, 0, args), load, k, twice, frees) && (again != [] ==> twice)
    requires twice <==> Retries(format, 0, args, 0, SEGGER_RTT_PRINTF_BUFFER_SIZE * (k + 1))
    ensures Went(flags, format, args, size, room, r, sent, again, k, frees)
  {
    hide WellFormed, Text, Found, Retries, CourseStored;
  }

  lemma AllWent(flags: nat, format: seq<Byte>, args: seq<Arg>, size: nat, room: int, r: int, sent: seq<Byte>,
                k: nat, frees: seq<nat>)
    requires WellFormed(format, 0, args) && r >= 0 && Found(flags, size, room, frees)
    requires SEGGER_RTT_PRINTF_BUFFER_SIZE * |frees| == Loads(|Text(format, 0, args)|)
    requires Accepted(flags, frees, |frees|)
    ensures Went(flags, format, args, size, room, r, sent, [], k, frees)
  {
    hide WellFormed, Text, Found;
  }

  /** The account of a call in which none was: `rest` bytes were flushed, with `fitted` slots free before. */
  lemma FlushIsStored(flags: nat, room: int, loads: nat, sent: seq<Byte>, full: seq<Byte>, rest: nat,
                      r: int, early: nat, fitted: int, read: nat, free: nat)
    requires loads == Loads(|full|) && rest == |full| - loads && sent <= full && r == |full| + rest
    requires |sent| == loads + if flags == MODE_BLOCK_IF_FIFO_FULL then rest else Taken(flags, rest, fitted)
    requires flags > MODE_BLOCK_IF_FIFO_FULL ==> loads == 0
    requires fitted == room - loads + early && 0 <= fitted && early <= read && free == room - |sent| + read
    ensures Stored(flags, full, room, read, r, sent, [])
  {
    LoadsSent(loads, 0);
  }
}
