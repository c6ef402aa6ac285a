/**
 SubRip output (srt.go): the `HH:MM:SS,mmm` timestamp printed for a duration,
 and the numbered four-part blocks `WriteSRT` sends to its writer.
 */
module Srt {
  import opened Outcomes
  import opened Decimal
  import opened Media
  import opened Sequences

  const Millisecond: nat := 1_000_000
  const Second: nat := 1_000_000_000
  const Minute: nat := 60_000_000_000
  const Hour: nat := 3_600_000_000_000

  /** One SubRip entry (`SRTSubtitle`). */
  datatype SrtSubtitle = SrtSubtitle(start: Duration, end: Duration, text: string)

  /** Go's zero `SRTSubtitle`: what an unfilled slot of a result slice holds. */
  const ZeroSubtitle: SrtSubtitle := SrtSubtitle(0, 0, "")

  /** The four numbers `SRTTimestamp.String` prints. */
  datatype ClockFields = ClockFields(hours: nat, minutes: nat, seconds: nat, millis: nat)

  predicate WellFormedClock(c: ClockFields) {
    c.minutes < 60 && c.seconds < 60 && c.millis < 1000
  }

  /** The whole number of milliseconds a clock reading stands for. */
  function ClockMillis(c: ClockFields): nat {
    c.hours * 3_600_000 + c.minutes * 60_000 + c.seconds * 1000 + c.millis
  }

  // ---------------------------------------------------------------------------
  // Division facts the decomposition rests on.

  /** The fields of a duration, stated on its whole number of milliseconds. */
  lemma MillisFields(d: Duration)
    ensures var m := d / Millisecond;
      && d / Second == m / 1000
      && d / Minute == m / 60_000
      && d / Hour == m / 3_600_000
      && d % Second / Millisecond == m % 1000
  {
  }

  lemma ClockDecomposition(m: nat)
    ensures m == (m / 3_600_000) * 3_600_000 + ((m / 60_000) % 60) * 60_000 + ((m / 1000) % 60) * 1000 + m % 1000
  {
    var s := m / 1000;
    assert m == s * 1000 + m % 1000;
    var mi := s / 60;
    assert s == mi * 60 + s % 60;
    assert mi == m / 60_000;
    var h := mi / 60;
    assert mi == h * 60 + mi % 60;
    assert h == m / 3_600_000;
  }

  lemma ClockUnique(m: nat, c: ClockFields)
    requires WellFormedClock(c) && m == ClockMillis(c)
    ensures c.hours == m / 3_600_000 && c.minutes == (m / 60_000) % 60
    ensures c.seconds == (m / 1000) % 60 && c.millis == m % 1000
  {
    assert m / 1000 == c.hours * 3600 + c.minutes * 60 + c.seconds;
    assert m / 60_000 == c.hours * 60 + c.minutes;
  }

  /**
   The four fields `SRTTimestamp.String` computes: whole hours (not wrapped),
   minutes and seconds modulo 60, and milliseconds of the current second.
   */
  function Fields(d: Duration): (c: ClockFields)
    ensures WellFormedClock(c)
    ensures ClockMillis(c) == d / Millisecond
  {
    MillisFields(d);
    ClockDecomposition(d / Millisecond);
    ClockFields(d / Hour, (d / Minute) % 60, (d / Second) % 60, d % Second / Millisecond)
  }

  /** A well-formed clock reading is determined by the milliseconds it stands for. */
  lemma FieldsUnique(d: Duration, c: ClockFields)
    requires WellFormedClock(c) && ClockMillis(c) == d / Millisecond
    ensures c == Fields(d)
  {
    MillisFields(d);
    ClockUnique(d / Millisecond, c);
  }

  // ---------------------------------------------------------------------------
  // Timestamp text.

  /** `%02d:%02d:%02d,%03d` of a clock reading. */
  function ClockText(c: ClockFields): string {
    PadZeros(c.hours, 2) + ":" + PadZeros(c.minutes, 2) + ":" + PadZeros(c.seconds, 2) + "," + PadZeros(c.millis, 3)
  }

  /** `SRTTimestamp.String`: the clock text of the duration's four fields. */
  function Timestamp(d: Duration): string {
    ClockText(Fields(d))
  }

  /**
   Reads a timestamp back: at least two hour digits, then `:MM:SS,mmm`, with
   minutes and seconds below 60. Gives the whole number of milliseconds.
   */
  function ParseTimestamp(s: string): Option<nat> {
    if |s| < 12 then None
    else
      var n := |s|;
      var h, mi, sec, ms := s[..n - 10], s[n - 9..n - 7], s[n - 6..n - 4], s[n - 3..];
      if s[n - 10] == ':' && s[n - 7] == ':' && s[n - 4] == ','
         && AllDigits(h) && AllDigits(mi) && AllDigits(sec) && AllDigits(ms)
         && ValueOf(mi) < 60 && ValueOf(sec) < 60
      then Some(ClockMillis(ClockFields(ValueOf(h), ValueOf(mi), ValueOf(sec), ValueOf(ms))))
      else None
  }

  /** A well-formed clock reading reads back as the milliseconds it stands for. */
  lemma ClockTextRoundTrip(c: ClockFields)
    requires WellFormedClock(c)
    ensures ParseTimestamp(ClockText(c)) == Some(ClockMillis(c))
  {
    DigitsOfSmall(c.minutes);
    DigitsOfSmall(c.seconds);
    DigitsOfSmall(c.millis);
    var h, mi, sec, ms := PadZeros(c.hours, 2), PadZeros(c.minutes, 2), PadZeros(c.seconds, 2), PadZeros(c.millis, 3);
    SevenParts(h, ":", mi, ":", sec, ",", ms);
  }

  /** The printed timestamp is `d` truncated to whole milliseconds, and nothing is lost beyond that. */
  lemma TimestampRoundTrip(d: Duration)
    ensures ParseTimestamp(Timestamp(d)) == Some(d / Millisecond)
  {
    ClockTextRoundTrip(Fields(d));
  }

  /** Distinct millisecond counts print differently. */
  lemma TimestampDistinguishesMillis(d1: Duration, d2: Duration)
    requires d1 / Millisecond != d2 / Millisecond
    ensures Timestamp(d1) != Timestamp(d2)
  {
    TimestampRoundTrip(d1);
    TimestampRoundTrip(d2);
  }

  predicate NoSpace(s: string) {
    forall i :: 0 <= i < |s| ==> s[i] != ' '
  }

  lemma TimestampHasNoSpace(d: Duration)
    ensures NoSpace(Timestamp(d))
  {
    var c := Fields(d);
    var s := Timestamp(d);
    assert forall i :: 0 <= i < |s| ==> IsDigit(s[i]) || s[i] == ':' || s[i] == ',';
  }

  /** The index of the first space in `s`, or `|s|` when there is none. */
  function FirstSpace(s: string): (p: nat)
    ensures p <= |s|
    ensures p < |s| ==> s[p] == ' '
    ensures NoSpace(s[..p])
  {
    if |s| == 0 then 0
    else if s[0] == ' ' then 0
    else
      var p := 1 + FirstSpace(s[1..]);
      assert s[..p] == [s[0]] + s[1..][..p - 1];
      p
  }

  lemma {:induction false} FirstSpaceAfter(a: string, b: string)
    requires NoSpace(a) && |b| >= 1 && b[0] == ' '
    ensures FirstSpace(a + b) == |a|
  {
    if |a| > 0 {
      assert (a + b)[1..] == a[1..] + b;
      FirstSpaceAfter(a[1..], b);
    } else {
      assert a + b == b;
    }
  }

  /** The second line of a block: `Start --> End`. */
  function TimingLine(sub: SrtSubtitle): string {
    Timestamp(sub.start) + " --> " + Timestamp(sub.end)
  }

  /** Reads a timing line back into the start and end milliseconds. */
  function ParseTimingLine(line: string): Option<(nat, nat)> {
    var p := FirstSpace(line);
    if p + 5 <= |line| && line[p..p + 5] == " --> " then
      match (ParseTimestamp(line[..p]), ParseTimestamp(line[p + 5..]))
      case (Some(s), Some(e)) => Some((s, e))
      case _ => None
    else None
  }

  /** A block's timing line carries both display times, truncated to milliseconds. */
  lemma TimingLineRoundTrip(sub: SrtSubtitle)
    ensures ParseTimingLine(TimingLine(sub)) == Some((sub.start / Millisecond, sub.end / Millisecond))
  {
    var a, b := Timestamp(sub.start), Timestamp(sub.end);
    TimestampHasNoSpace(sub.start);
    FirstSpaceAfter(a, " --> " + b);
    AppendAssoc(a, " --> ", b);
    MiddleOf(a, " --> ", b);
    TimestampRoundTrip(sub.start);
    TimestampRoundTrip(sub.end);
  }

  // ---------------------------------------------------------------------------
  // WriteSRT.

  /** The four writes `WriteSRT` issues for the subtitle at position `i`: number, timing line, text, blank line. */
  function BlockWrites(i: nat, sub: SrtSubtitle): seq<string> {
    [Itoa(i + 1) + "\n", TimingLine(sub) + "\n", sub.text + "\n", "\n"]
  }

  /** One SubRip block, numbered `i + 1`: exactly what its four writes spell. */
  function Block(i: nat, sub: SrtSubtitle): (b: string)
    ensures b == Concat(BlockWrites(i, sub))
  {
    ConcatFour(Itoa(i + 1) + "\n", TimingLine(sub) + "\n", sub.text + "\n", "\n");
    TakeAll(BlockWrites(i, sub));
    (Itoa(i + 1) + "\n") + (TimingLine(sub) + "\n") + (sub.text + "\n") + "\n"
  }

  /** The writes of every block of `subs`, numbered consecutively from 1. */
  function Writes(subs: seq<SrtSubtitle>): (ws: seq<seq<string>>)
    ensures |ws| == |subs|
    ensures forall i :: 0 <= i < |subs| ==> ws[i] == BlockWrites(i, subs[i])
  {
    seq(|subs|, i requires 0 <= i < |subs| => BlockWrites(i, subs[i]))
  }

  /** The blocks of `subs`, numbered consecutively from 1. */
  function Blocks(subs: seq<SrtSubtitle>): (bs: seq<string>)
    ensures |bs| == |subs|
    ensures forall i :: 0 <= i < |subs| ==> bs[i] == Block(i, subs[i])
  {
    Joined(Writes(subs))
  }

  /** A whole SubRip file body: the blocks in order. */
  function Document(subs: seq<SrtSubtitle>): string {
    Concat(Blocks(subs))
  }

  /** The text accepted before write `k` fails: the whole blocks before it, then the parts of its own block before it. */
  function WrittenBefore(subs: seq<SrtSubtitle>, k: nat): string
    requires k < 4 * |subs|
  {
    Concat(Blocks(subs)[..k / 4]) + Concat(BlockWrites(k / 4, subs[k / 4])[..k % 4])
  }

  /**
   A write the underlying writer rejects: which write (counted from 0), and how
   many of its characters the writer passed on before failing. An `io.Writer`
   may fail after a short write.
   */
  datatype WriteFault = WriteFault(write: nat, passed: nat)

  /** The part of a rejected write that got through: its first `passed` characters, at most all of them. */
  function Passed(part: string, passed: nat): (r: string)
    ensures r <= part && |r| == if passed < |part| then passed else |part|
  {
    part[..if passed < |part| then passed else |part|]
  }

  /**
   What a writer has accepted when write `k` fails, the whole earlier writes
   and whatever got through of write `k`, is always a prefix of the whole
   document, and extends the text of the earlier writes.
   */
  lemma WrittenBeforeIsPrefix(subs: seq<SrtSubtitle>, k: nat, passed: nat)
    requires k < 4 * |subs|
    ensures WrittenBefore(subs, k) <= Document(subs)
    ensures WrittenBefore(subs, k) + Passed(Writes(subs)[k / 4][k % 4], passed) <= Document(subs)
  {
    var i, j := k / 4, k % 4;
    var parts := BlockWrites(i, subs[i]);
    var before := Concat(Blocks(subs)[..i]);
    PartialIsPrefix(Blocks(subs), i, parts, j);
    PartialIsPrefix(Blocks(subs), i, parts, j + 1);
    ConcatStepAfter(before, parts, j);
    PrefixExtend(before + Concat(parts[..j]), parts[j], Passed(parts[j], passed));
  }

  /** The error a failing write returns: which of the writes (counted from 0) failed. */
  datatype WriteError = WriteFailed(write: nat)

  /** Write `4 * i + j` is part `j` of block `i`. */
  lemma WriteIndex(i: nat, j: nat)
    requires j < 4
    ensures (4 * i + j) / 4 == i && (4 * i + j) % 4 == j
  {
  }

  /**
   The loop of `WriteSRT` over formatted blocks: the four writes of each block in
   turn, stopping at the first write that fails. `fault` is the write the
   underlying writer rejects, if any.
   */
  method WriteBlocks(blocks: seq<seq<string>>, fault: Option<WriteFault>) returns (written: string, err: Option<WriteError>)
    requires forall i :: 0 <= i < |blocks| ==> |blocks[i]| == 4
    ensures fault.None? || fault.value.write >= 4 * |blocks| ==> err.None? && written == Concat(Joined(blocks))
    ensures fault.Some? && fault.value.write < 4 * |blocks| ==>
      var k := fault.value.write;
      && err == Some(WriteFailed(k))
      && written == Concat(Joined(blocks)[..k / 4]) + Concat(blocks[k / 4][..k % 4]) + Passed(blocks[k / 4][k % 4], fault.value.passed)
  {
    written, err := "", None;
    ghost var whole := Joined(blocks);
    for i := 0 to |blocks|
      invariant fault.None? || fault.value.write >= 4 * i
      invariant written == Concat(whole[..i])
    {
      var parts := blocks[i];
      ghost var done := written;
      assert written == done + Concat(parts[..0]);
      for j := 0 to 4
        invariant fault.None? || fault.value.write >= 4 * i + j
        invariant written == done + Concat(parts[..j])
      {
        if fault.Some? && fault.value.write == 4 * i + j {
          WriteIndex(i, j);
          return written + Passed(parts[j], fault.value.passed), Some(WriteFailed(4 * i + j));
        }
        ConcatStepAfter(done, parts, j);
        written := written + parts[j];
      }
      TakeAll(parts);
      ConcatStep(whole, i);
    }
    TakeAll(whole);
  }

  /**
   `WriteSRT`: every subtitle as a numbered block, in order. When the writer
   rejects write `k`, the error names it, and the output is the text of the
   writes before it plus whatever got through of write `k`: a prefix of the
   document.
   */
  method WriteSrt(subtitles: seq<SrtSubtitle>, fault: Option<WriteFault>) returns (written: string, err: Option<WriteError>)
    ensures fault.None? || fault.value.write >= 4 * |subtitles| ==> err.None? && written == Document(subtitles)
    ensures fault.Some? && fault.value.write < 4 * |subtitles| ==>
      var k := fault.value.write;
      && err == Some(WriteFailed(k))
      && written == WrittenBefore(subtitles, k) + Passed(Writes(subtitles)[k / 4][k % 4], fault.value.passed)
      && WrittenBefore(subtitles, k) <= written <= Document(subtitles)
  {
    var ws := Writes(subtitles);
    assert Blocks(subtitles) == Joined(ws);
    written, err := WriteBlocks(ws, fault);
    if fault.Some? && fault.value.write < 4 * |subtitles| {
      var k := fault.value.write;
      assert ws[k / 4] == BlockWrites(k / 4, subtitles[k / 4]);
      assert written == WrittenBefore(subtitles, k) + Passed(ws[k / 4][k % 4], fault.value.passed);
      WrittenBeforeIsPrefix(subtitles, k, fault.value.passed);
    }
  }
}
