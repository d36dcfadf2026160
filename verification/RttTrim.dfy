/** When the prefix law of the formatter holds in trim mode, exactly, and a format for which it fails. */
module RttTrim {
  import opened Memory
  import opened RttDigits
  import opened RttFormat
  import opened RttFormatString
  import opened RttGeometry
  import opened RttLoads
  import opened RttPrecision
  import opened RttProtocol
  import opened RttRepeats
  import opened RttUpRing

  /** Load `k` ends on a digit of a left-justified number that padding follows. */
  predicate CutOnDigit(format: seq<Byte>, args: seq<Arg>, k: nat)
    requires WellFormed(format, 0, args)
  {
    Retries(format, 0, args, 0, SEGGER_RTT_PRINTF_BUFFER_SIZE * (k + 1))
  }

  /** Load `k` is refused, and then offered again exactly if it is so cut. */
  predicate Refusal(flags: nat, format: seq<Byte>, args: seq<Arg>, k: nat, frees: seq<nat>)
    requires WellFormed(format, 0, args)
  {
    Course(flags, |Text(format, 0, args)|, k, CutOnDigit(format, args, k), frees)
  }

  function RefusalStored(flags: nat, format: seq<Byte>, args: seq<Arg>, k: nat, frees: seq<nat>): seq<Byte>
    requires WellFormed(format, 0, args) && Refusal(flags, format, args, k, frees)
  {
    CourseStored(flags, Text(format, 0, args), k, CutOnDigit(format, args, k), frees)
  }

  /** In trim mode and a ring of `size` slots, what a call stores is a prefix of its text, whatever its offers find. */
  ghost predicate PrefixLaw(size: nat, format: seq<Byte>, args: seq<Arg>)
    requires WellFormed(format, 0, args)
  {
    forall k: nat, frees: seq<nat> |
      Refusal(MODE_NO_BLOCK_TRIM, format, args, k, frees) && Found(MODE_NO_BLOCK_TRIM, size, 0, frees) ::
      RefusalStored(MODE_NO_BLOCK_TRIM, format, args, k, frees) <= Text(format, 0, args)
  }

  predicate NeverCutAt(format: seq<Byte>, args: seq<Arg>, k: nat)
    requires WellFormed(format, 0, args)
  {
    SEGGER_RTT_PRINTF_BUFFER_SIZE * (k + 1) <= |Text(format, 0, args)| ==> !CutOnDigit(format, args, k)
  }

  /** No load of the text is cut on such a digit. */
  ghost predicate NeverCutOnDigit(format: seq<Byte>, args: seq<Arg>)
    requires WellFormed(format, 0, args)
  {
    forall k: nat :: NeverCutAt(format, args, k)
  }

  lemma OnceIsPrefix(flags: nat, text: seq<Byte>, k: nat, frees: seq<nat>)
    requires Course(flags, |text|, k, false, frees)
    ensures CourseStored(flags, text, k, false, frees) <= text
  {
  }

  /** All loads before load `k` go through; then `first` slots are free for it, and `second` for its second offer. */
  function Frees(k: nat, first: nat, second: nat): (frees: seq<nat>)
    ensures |frees| == k + 2
  {
    seq(k, _ => SEGGER_RTT_PRINTF_BUFFER_SIZE) + [first, second]
  }

  lemma FreesAreCourse(n: nat, k: nat, first: nat, second: nat)
    requires SEGGER_RTT_PRINTF_BUFFER_SIZE * (k + 1) <= n && first < SEGGER_RTT_PRINTF_BUFFER_SIZE
    ensures Course(MODE_NO_BLOCK_TRIM, n, k, true, Frees(k, first, second))
    ensures Frees(k, first, second)[k] == first && Frees(k, first, second)[k + 1] == second
  {
  }

  lemma {:induction false} AllEqual(text: seq<Byte>, a: nat, j: nat)
    requires a + j < |text| && forall i :: a <= i < a + j ==> text[i + 1] == text[i]
    ensures text[a + j] == text[a]
  {
    if j == 0 {
    } else {
      AllEqual(text, a, j - 1);
      assert text[a + (j - 1) + 1] == text[a + (j - 1)];
    }
  }

  /** One byte and then 63 of the same load: as a prefix of the text that makes all of the load one character. */
  lemma OneThenMost(text: seq<Byte>, a: nat)
    requires a + 64 <= |text| && text[..a] + text[a..a + 64][..1] + text[a..a + 64][..63] <= text
    ensures forall i :: a <= i < a + 64 ==> text[i] == text[a]
  {
    var stored := text[..a] + text[a..a + 64][..1] + text[a..a + 64][..63];
    forall i | a <= i < a + 63
      ensures text[i + 1] == text[i]
    {
      assert stored[i + 1] == text[i + 1];
      assert stored[i + 1] == text[a..a + 64][..63][i - a] == text[i];
    }
    forall i | a <= i < a + 64
      ensures text[i] == text[a]
    {
      AllEqual(text, a, i - a);
    }
  }

  /** 63 bytes and then the whole load: as a prefix of the text that makes the load come again, one byte early. */
  lemma MostThenAll(text: seq<Byte>, a: nat, e: nat)
    requires a + 64 <= |text| && text[..a] + text[a..a + 64][..63] + text[a..a + 64][..64] <= text
    requires a + 64 <= e < a + 127
    ensures e < |text| && text[e] == text[e - 63]
  {
    var stored := text[..a] + text[a..a + 64][..63] + text[a..a + 64][..64];
    assert stored[e] == text[e];
    assert stored[e] == text[a..a + 64][..64][e - 63 - a];
  }

  lemma NotBoth(text: seq<Byte>, a: nat, e: nat)
    requires a + 64 <= e < |text| && e < a + 127 && text[a + 63] != SPACE && text[e] == SPACE
    ensures !(text[..a] + text[a..a + 64][..1] + text[a..a + 64][..63] <= text
              && text[..a] + text[a..a + 64][..63] + text[a..a + 64][..64] <= text)
  {
    if text[..a] + text[a..a + 64][..1] + text[a..a + 64][..63] <= text {
      OneThenMost(text, a);
      if text[..a] + text[a..a + 64][..63] + text[a..a + 64][..64] <= text {
        MostThenAll(text, a, e);
      }
    }
  }

  lemma StoredOfFrees(text: seq<Byte>, k: nat, first: nat, second: nat)
    requires SEGGER_RTT_PRINTF_BUFFER_SIZE * (k + 1) <= |text| && first < 64 && second <= 64
    ensures Course(MODE_NO_BLOCK_TRIM, |text|, k, true, Frees(k, first, second))
    ensures var a := 64 * k;
      CourseStored(MODE_NO_BLOCK_TRIM, text, k, true, Frees(k, first, second))
        == text[..a] + text[a..a + 64][..first] + text[a..a + 64][..second]
  {
    FreesAreCourse(|text|, k, first, second);
    hide Frees;
  }

  /** A cut load breaks the law: with one slot free and then 63, or with 63 and then 64. */
  lemma CutBreaksLaw(format: seq<Byte>, args: seq<Arg>, k: nat) returns (first: nat, second: nat)
    requires WellFormed(format, 0, args) && SEGGER_RTT_PRINTF_BUFFER_SIZE * (k + 1) <= |Text(format, 0, args)|
    requires CutOnDigit(format, args, k)
    ensures first < 64 && second <= 64 && Refusal(MODE_NO_BLOCK_TRIM, format, args, k, Frees(k, first, second))
    ensures !(RefusalStored(MODE_NO_BLOCK_TRIM, format, args, k, Frees(k, first, second)) <= Text(format, 0, args))
  {
    var text := Text(format, 0, args);
    var e := SpaceFollows(format, 0, args, 0, SEGGER_RTT_PRINTF_BUFFER_SIZE * (k + 1));
    StoredOfFrees(text, k, 1, 63);
    StoredOfFrees(text, k, 63, 64);
    hide Text, WellFormed, CourseStored, Course, Frees, CutOnDigit;
    NotBoth(text, 64 * k, e);
    if CourseStored(MODE_NO_BLOCK_TRIM, text, k, true, Frees(k, 1, 63)) <= text {
      first, second := 63, 64;
    } else {
      first, second := 1, 63;
    }
  }

  lemma FreesFound(size: nat, k: nat, first: nat, second: nat)
    requires first < size && second < size && (k > 0 ==> size > 64) && first < 64 && second <= 64
    ensures Found(MODE_NO_BLOCK_TRIM, size, 0, Frees(k, first, second))
  {
  }

  /** The first `n` characters are all the same. */
  predicate Uniform(text: seq<Byte>, n: nat) {
    n <= |text| && forall i :: 0 <= i < n ==> text[i] == text[0]
  }

  /** In a ring too small for a load the first one is always refused. */
  lemma FirstIsRefused(flags: nat, n: nat, size: nat, k: nat, twice: bool, frees: seq<nat>)
    requires size <= SEGGER_RTT_PRINTF_BUFFER_SIZE && Course(flags, n, k, twice, frees)
    requires flags == MODE_NO_BLOCK_TRIM && Found(flags, size, 0, frees)
    ensures k == 0
  {
    assert 0 < k ==> !Refused(flags, frees[0]);
  }

  lemma UniformIsPrefix(text: seq<Byte>, m: nat, n: nat, size: nat)
    requires m < size && n < size && size <= 64 <= |text| && Uniform(text, 2 * (size - 1))
    ensures text[..m] + text[..n] <= text
  {
  }

  lemma PrefixIsUniform(text: seq<Byte>, size: nat)
    requires 1 < size <= 64 <= |text|
    requires text[..1] + text[..size - 1] <= text && text[..size - 1] + text[..size - 1] <= text
    ensures Uniform(text, 2 * (size - 1))
  {
    var c: nat := size - 1;
    var stored, twice := text[..1] + text[..c], text[..c] + text[..c];
    forall i | 0 <= i < c
      ensures text[i + 1] == text[i]
    {
      assert stored[i + 1] == text[i];
    }
    forall i | 0 <= i < 2 * c
      ensures text[i] == text[0]
    {
      AllEqual(text, 0, if i < c then i else i - c);
      assert twice[i] == text[if i < c then i else i - c];
    }
  }

  lemma StoredOfFirst(text: seq<Byte>, frees: seq<nat>)
    requires Course(MODE_NO_BLOCK_TRIM, |text|, 0, true, frees) && frees[0] <= 64 && frees[1] <= 64
    ensures CourseStored(MODE_NO_BLOCK_TRIM, text, 0, true, frees) == text[..frees[0]] + text[..frees[1]]
  {
    assert text[..0] + text[0..64][..frees[0]] == text[..frees[0]] && text[0..64][..frees[1]] == text[..frees[1]];
  }

  lemma SmallLawFails(size: nat, format: seq<Byte>, args: seq<Arg>)
    requires WellFormed(format, 0, args) && 1 < size <= SEGGER_RTT_PRINTF_BUFFER_SIZE
    requires !NeverCutAt(format, args, 0) && PrefixLaw(size, format, args)
    ensures Uniform(Text(format, 0, args), 2 * (size - 1))
  {
    hide Text, WellFormed, CutOnDigit;
    var text, trim := Text(format, 0, args), MODE_NO_BLOCK_TRIM;
    var one, all := Frees(0, 1, size - 1), Frees(0, size - 1, size - 1);
    FreesFound(size, 0, 1, size - 1);
    FreesFound(size, 0, size - 1, size - 1);
    FreesAreCourse(|text|, 0, 1, size - 1);
    FreesAreCourse(|text|, 0, size - 1, size - 1);
    StoredOfFirst(text, one);
    StoredOfFirst(text, all);
    hide Frees, Found, CourseStored, Uniform, Course;
    assert RefusalStored(trim, format, args, 0, one) <= text && RefusalStored(trim, format, args, 0, all) <= text;
    PrefixIsUniform(text, size);
  }

  /** In a ring too small for a load. */
  lemma SmallPrefixLawIff(size: nat, format: seq<Byte>, args: seq<Arg>)
    requires WellFormed(format, 0, args) && 0 < size <= SEGGER_RTT_PRINTF_BUFFER_SIZE
    ensures PrefixLaw(size, format, args) <==>
      NeverCutAt(format, args, 0) || Uniform(Text(format, 0, args), 2 * (size - 1))
  {
    hide Text, WellFormed, CutOnDigit, CourseStored, Found;
    var text, trim := Text(format, 0, args), MODE_NO_BLOCK_TRIM;
    if NeverCutAt(format, args, 0) || Uniform(text, 2 * (size - 1)) {
      forall k: nat, frees: seq<nat> | Refusal(trim, format, args, k, frees) && Found(trim, size, 0, frees)
        ensures RefusalStored(trim, format, args, k, frees) <= text
      {
        FirstIsRefused(trim, |text|, size, k, CutOnDigit(format, args, k), frees);
        SmallIsPrefix(size, text, CutOnDigit(format, args, 0), frees);
      }
    } else if size > 1 && PrefixLaw(size, format, args) {
      SmallLawFails(size, format, args);
    }
  }

  lemma SmallIsPrefix(size: nat, text: seq<Byte>, twice: bool, frees: seq<nat>)
    requires 0 < size <= 64 && Course(MODE_NO_BLOCK_TRIM, |text|, 0, twice, frees)
    requires Found(MODE_NO_BLOCK_TRIM, size, 0, frees) && (twice ==> Uniform(text, 2 * (size - 1)))
    ensures CourseStored(MODE_NO_BLOCK_TRIM, text, 0, twice, frees) <= text
  {
    if twice {
      StoredOfFirst(text, frees);
      hide Uniform;
      UniformIsPrefix(text, frees[0], frees[1], size);
    }
  }

  /**
   * In trim mode the prefix law holds for a format and its arguments, whatever the probe does, if and only if no
   * buffer load of the text ends on a digit of a left-justified number that padding follows. In a ring too small
   * for a load only the first one matters, and it may be so cut if the text begins with the same character often
   * enough.
   */
  lemma PrefixLawIff(size: nat, format: seq<Byte>, args: seq<Arg>)
    requires WellFormed(format, 0, args) && size > 0
    ensures PrefixLaw(size, format, args) <==>
      if size > SEGGER_RTT_PRINTF_BUFFER_SIZE then NeverCutOnDigit(format, args)
      else NeverCutAt(format, args, 0) || Uniform(Text(format, 0, args), 2 * (size - 1))
  {
    hide Text, WellFormed, CourseStored, CutOnDigit, Found, Uniform;
    if size <= SEGGER_RTT_PRINTF_BUFFER_SIZE {
      SmallPrefixLawIff(size, format, args);
    } else if NeverCutOnDigit(format, args) {
      forall k: nat, frees: seq<nat> | Refusal(MODE_NO_BLOCK_TRIM, format, args, k, frees)
        ensures RefusalStored(MODE_NO_BLOCK_TRIM, format, args, k, frees) <= Text(format, 0, args)
      {
        assert NeverCutAt(format, args, k);
        OnceIsPrefix(MODE_NO_BLOCK_TRIM, Text(format, 0, args), k, frees);
      }
    } else {
      var k: nat :| !NeverCutAt(format, args, k);
      var first, second := CutBreaksLaw(format, args, k);
      FreesFound(size, k, first, second);
    }
  }

  /** Where the law fails, a run of the protocol from any full ring of that size makes it fail. */
  lemma LawFailsInRun(s: State, format: seq<Byte>, args: seq<Arg>)
    returns (k: nat, frees: seq<nat>, steps: seq<Step>)
    requires AtRest(s) && s.Bounded() && Free(s.rd, s.wr, |s.ring|) == 0
    requires WellFormed(format, 0, args) && !PrefixLaw(|s.ring|, format, args)
    ensures Refusal(MODE_NO_BLOCK_TRIM, format, args, k, frees) && AllEnabled(s, steps)
    ensures Plays(s, Offers(Text(format, 0, args), k, CutOnDigit(format, args, k)), frees, steps)
    ensures Run(s, steps).published == s.published + RefusalStored(MODE_NO_BLOCK_TRIM, format, args, k, frees)
    ensures !(RefusalStored(MODE_NO_BLOCK_TRIM, format, args, k, frees) <= Text(format, 0, args))
  {
    hide Text, WellFormed, CourseStored, CutOnDigit, Found, Plays, AllEnabled, Run, Inv, Offers;
    k, frees :|
      && Refusal(MODE_NO_BLOCK_TRIM, format, args, k, frees) && Found(MODE_NO_BLOCK_TRIM, |s.ring|, 0, frees)
      && !(RefusalStored(MODE_NO_BLOCK_TRIM, format, args, k, frees) <= Text(format, 0, args));
    steps := CourseIsMet(s, Text(format, 0, args), k, CutOnDigit(format, args, k), frees);
  }

  // A format.

  const LETTER: Byte := 0x61
  const UNSIGNED: Byte := 0x75

  function Letters(n: nat): (s: seq<Byte>)
    ensures |s| == n && forall i :: 0 <= i < n ==> s[i] == LETTER
  {
    seq(n, _ => LETTER)
  }

  /** 63 letters and a left-justified number in a field of two characters. */
  function SampleFormat(): (s: seq<Byte>)
    ensures |s| == 67
  {
    Letters(63) + [PERCENT, LEFT, 0x32, UNSIGNED]
  }

  lemma OneDigit(v: nat)
    requires v < 10
    ensures Width(v, 10, 0) == 1 && Digits(v, 10, 0) == [ZERO + v]
  {
    FixedLast(v, 10);
  }

  lemma SampleSpec()
    ensures ScanSpec(SampleFormat(), 64) == Spec(Flags(true, false, false, false), 2, 0, 66)
    ensures SampleFormat()[63] == PERCENT && SampleFormat()[66] == UNSIGNED
  {
    var f := SampleFormat();
    OneDigit(2);
    assert f[64..65] == [LEFT] && f[65..66] == [0x32] == Written(2);
    hide Digits, ScanSpec;
    SpecReadsBack(f, 64, 65, 66, 66, 66, 2, 0);
  }

  /** The number 5 in such a field: its digit, and one space. */
  lemma SampleConversion(spec: Spec)
    requires spec == Spec(Flags(true, false, false, false), 2, 0, 66)
    ensures Suits(spec, UNSIGNED, [Int(5)]) && Consumed(UNSIGNED) == 1
    ensures ConversionText(spec, UNSIGNED, [Int(5)]) == [ZERO + 5, SPACE]
    ensures OnDigit(spec, UNSIGNED, [Int(5)], 1)
  {
    hide MachineDigits, Digits, Width, Printable;
    OneDigit(5);
    PrintableIff(5, 10, 0);
    MachineDigitsIff(5, 10, 0);
    RepeatMore(SPACE, 0);
    assert [Int(5)][0] == Int(5);
    assert Repeat(SPACE, 1) == [SPACE];
  }

  lemma SampleTail()
    ensures WellFormed(SampleFormat(), 63, [Int(5)])
    ensures Text(SampleFormat(), 63, [Int(5)]) == [ZERO + 5, SPACE]
    ensures Retries(SampleFormat(), 63, [Int(5)], 63, 64)
  {
    SampleSpec();
    var spec := ScanSpec(SampleFormat(), 64);
    SampleConversion(spec);
    hide ConversionText, Suits, OnDigit, ScanSpec, SampleFormat, Consumed;
    assert [Int(5)][1..] == [];
    assert WellFormed(SampleFormat(), 67, []) && Text(SampleFormat(), 67, []) == [];
  }

  lemma {:induction false} SampleFrom(i: nat)
    requires i <= 63
    ensures WellFormed(SampleFormat(), i, [Int(5)])
    ensures Text(SampleFormat(), i, [Int(5)]) == Letters(63 - i) + [ZERO + 5, SPACE]
    ensures Retries(SampleFormat(), i, [Int(5)], i, 64)
    decreases 63 - i
  {
    if i == 63 {
      SampleTail();
    } else {
      SampleFrom(i + 1);
      assert SampleFormat()[i] == LETTER;
      hide SampleFormat;
      assert [LETTER] + Letters(63 - (i + 1)) == Letters(63 - i);
      Regroup([LETTER], Letters(63 - (i + 1)), [ZERO + 5, SPACE]);
    }
  }

  /** Its text is cut on the digit, and begins with 63 equal characters. */
  lemma SampleLawIff(size: nat)
    requires size > 0
    ensures WellFormed(SampleFormat(), 0, [Int(5)])
    ensures Text(SampleFormat(), 0, [Int(5)]) == Letters(63) + [ZERO + 5, SPACE]
    ensures PrefixLaw(size, SampleFormat(), [Int(5)]) <==> size <= 32
  {
    SampleFrom(0);
    PrefixLawIff(size, SampleFormat(), [Int(5)]);
    var text := Text(SampleFormat(), 0, [Int(5)]);
    hide PrefixLaw, Text, WellFormed, SampleFormat, Retries;
    assert !NeverCutAt(SampleFormat(), [Int(5)], 0);
    assert text[63] == ZERO + 5 && text[0] == LETTER;
  }

  /**
   * So in trim mode, in any full ring of more than 32 slots, a run of the protocol makes a call with this format
   * store what is no prefix of its text.
   */
  lemma SampleFails(s: State) returns (k: nat, frees: seq<nat>, steps: seq<Step>)
    requires AtRest(s) && s.Bounded() && |s.ring| > 32 && Free(s.rd, s.wr, |s.ring|) == 0
    ensures WellFormed(SampleFormat(), 0, [Int(5)])
    ensures Refusal(MODE_NO_BLOCK_TRIM, SampleFormat(), [Int(5)], k, frees) && AllEnabled(s, steps)
    ensures Plays(s, Offers(Text(SampleFormat(), 0, [Int(5)]), k, CutOnDigit(SampleFormat(), [Int(5)], k)), frees,
                  steps)
    ensures Run(s, steps).published
      == s.published + RefusalStored(MODE_NO_BLOCK_TRIM, SampleFormat(), [Int(5)], k, frees)
    ensures !(RefusalStored(MODE_NO_BLOCK_TRIM, SampleFormat(), [Int(5)], k, frees)
              <= Letters(63) + [ZERO + 5, SPACE])
  {
    SampleLawIff(|s.ring|);
    hide *;
    k, frees, steps := LawFailsInRun(s, SampleFormat(), [Int(5)]);
  }
}
