/**
 * The voltage window of serialdata_voltage.py: one label, started at
 * `--.- V`, rewritten by every voltage line `update_voltage` reads and
 * set to `Error` when the port raises during a poll.
 */
module VoltageLabel {

  import opened Wrappers
  import opened PyStr
  import opened Numerals
  import opened TagLine
  import opened Serial

  /** The label before the first reading. */
  const InitialLabel: string := "--.- V"

  /** The label after a poll in which the port raised. */
  const ErrorLabel: string := "Error"

  /** `f"{mv / 1000.0:.3f} V"`: the millivolts as volts with three decimals, then ` V`. */
  function VoltageText(mv: nat): (s: string)
    ensures |s| >= 7 && s[|s| - 2..] == " V" && s[..|s| - 2] == FormatMillivolts(mv)
    ensures ParseFloat(s[..|s| - 2]) == Some(mv as real / 1000.0)
  {
    var t := FormatMillivolts(mv);
    ParseFloatOfMillivolts(mv);
    assert (t + " V")[..|t|] == t;
    t + " V"
  }

  /** One line through the loop: a voltage line rewrites the label, any other line leaves it. */
  function ApplyVoltage(text: string, raw: seq<Byte>): string
  {
    match ClassifyVoltage(raw)
    case Some(mv) => VoltageText(mv)
    case None => text
  }

  /** The label after `rs`, read by read, whatever polls they fall into. */
  function FoldVoltage(text: string, rs: seq<Read>): string
  {
    if rs == [] then text
    else
      var before := FoldVoltage(text, rs[..|rs| - 1]);
      match rs[|rs| - 1]
      case Fault => ErrorLabel
      case Line(bytes) => ApplyVoltage(before, bytes)
  }

  /** Reading `a` then `b` is reading `a + b`. */
  lemma {:induction false} FoldVoltageAppend(text: string, a: seq<Read>, b: seq<Read>)
    ensures FoldVoltage(text, a + b) == FoldVoltage(FoldVoltage(text, a), b)
    decreases |b|
  {
    if b == [] {
      assert a + b == a;
    } else {
      assert (a + b)[..|a + b| - 1] == a + b[..|b| - 1];
      assert (a + b)[|a + b| - 1] == b[|b| - 1];
      FoldVoltageAppend(text, a, b[..|b| - 1]);
    }
  }

  /** What the label last reacted to: a voltage reading, or a fault of the port. */
  datatype Event = Reading(mv: nat) | Failed

  /** The last voltage line or fault among `rs`, if any. */
  function LastEvent(rs: seq<Read>): Option<Event>
  {
    if rs == [] then None
    else match rs[|rs| - 1]
      case Fault => Some(Failed)
      case Line(bytes) =>
        match ClassifyVoltage(bytes)
        case Some(mv) => Some(Reading(mv))
        case None => LastEvent(rs[..|rs| - 1])
  }

  /**
   * The label shows the last reading, or `Error` if the port raised after
   * it, and keeps its earlier text when neither happened; other lines and
   * timeouts never change it.
   */
  lemma {:induction false} LastEventWins(text: string, rs: seq<Read>)
    ensures LastEvent(rs).None? ==> FoldVoltage(text, rs) == text
    ensures LastEvent(rs) == Some(Failed) ==> FoldVoltage(text, rs) == ErrorLabel
    ensures LastEvent(rs).Some? && LastEvent(rs).value.Reading? ==> FoldVoltage(text, rs) == VoltageText(LastEvent(rs).value.mv)
  {
    if rs != [] {
      var before := rs[..|rs| - 1];
      LastEventWins(text, before);
      if rs[|rs| - 1].Line? {
        var bytes := rs[|rs| - 1].bytes;
        assert FoldVoltage(text, rs) == ApplyVoltage(FoldVoltage(text, before), bytes);
        assert LastEvent(rs) == if ClassifyVoltage(bytes).Some? then Some(Reading(ClassifyVoltage(bytes).value)) else LastEvent(before);
      }
    }
  }

  /** One more read moves the fold by that read. */
  lemma FoldVoltageStep(text: string, rs: seq<Read>, i: nat)
    requires i < |rs|
    ensures FoldVoltage(text, rs[..i + 1]) == (if rs[i].Fault? then ErrorLabel else ApplyVoltage(FoldVoltage(text, rs[..i]), rs[i].bytes))
  {
    assert rs[..i + 1][..i] == rs[..i];
  }

  /**
   * `update_voltage`: apply lines until a read is empty; a fault sets
   * `Error` and ends the poll too. Returns the label and how many reads
   * the poll consumed.
   */
  method UpdateVoltage(text: string, rs: seq<Read>) returns (r: string, used: nat)
    ensures used == BatchLength(rs)
    ensures r == FoldVoltage(text, rs[..used])
    ensures used >= 1 && rs[used - 1].Fault? ==> r == ErrorLabel
  {
    r := text;
    used := 0;
    while used < |rs| && HasLine(rs[used])
      invariant used <= |rs|
      invariant BatchLength(rs) == used + BatchLength(rs[used..])
      invariant r == FoldVoltage(text, rs[..used])
    {
      assert rs[used..][1..] == rs[used + 1..];
      FoldVoltageStep(text, rs, used);
      r := ApplyVoltage(r, rs[used].bytes);
      used := used + 1;
    }
    if used < |rs| {
      FoldVoltageStep(text, rs, used);
      if rs[used].Fault? {
        r := ErrorLabel;
      } else {
        assert ClassifyVoltage(rs[used].bytes) == None by {
          assert CleanLine([]) == [];
        }
      }
      used := used + 1;
    }
  }

  /** The label after one poll that starts at the head of `rs`. */
  function PollVoltage(text: string, rs: seq<Read>): string
  {
    FoldVoltage(text, rs[..BatchLength(rs)])
  }

  /** Successive polls over all the reads of a run, each starting where the last one stopped. */
  function VoltageSession(text: string, rs: seq<Read>): string
    decreases |rs|
  {
    if rs == [] then text
    else VoltageSession(PollVoltage(text, rs), rs[BatchLength(rs)..])
  }

  /** How the reads fall into polls does not matter to the label. */
  lemma {:induction false} VoltageSessionIsFold(text: string, rs: seq<Read>)
    ensures VoltageSession(text, rs) == FoldVoltage(text, rs)
    decreases |rs|
  {
    if rs != [] {
      var n := BatchLength(rs);
      assert rs == rs[..n] + rs[n..];
      FoldVoltageAppend(text, rs[..n], rs[n..]);
      VoltageSessionIsFold(PollVoltage(text, rs), rs[n..]);
    }
  }

  /** The field `V TAB digits CR LF` as the device sends it shows those millivolts, whatever the label showed. */
  lemma WireVoltageShown(text: string, mv: nat)
    ensures IsAscii("V\t" + NatToString(mv) + "\r\n")
    ensures FoldVoltage(text, [Line(AsciiEncode("V\t" + NatToString(mv) + "\r\n"))]) == VoltageText(mv)
  {
    ClassifyVoltageWire(mv);
    assert [Line(AsciiEncode("V\t" + NatToString(mv) + "\r\n"))][..0] == [];
  }
}
