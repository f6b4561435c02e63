/**
 * The voltage logger of vedirect_console.py: one printed reading per
 * voltage line, in the order the lines arrive. A timeout is skipped and
 * the loop reads on; a fault of the port leaves the loop and ends the
 * program.
 */
module Console {

  import opened Wrappers
  import opened PyStr
  import opened Numerals
  import opened TagLine
  import opened Serial

  /** `f"Voltage: {mv / 1000.0:.3f} V"`, the reading after its timestamp. */
  function ReadingLine(mv: int): string
  {
    "Voltage: " + FormatMillivolts(mv) + " V"
  }

  /** A reading is `Voltage: `, then volts that read back as exactly `mv / 1000`, then ` V`. */
  lemma ReadingLineReadsBack(mv: int)
    ensures |ReadingLine(mv)| >= 16
    ensures ReadingLine(mv)[..9] == "Voltage: " && ReadingLine(mv)[|ReadingLine(mv)| - 2..] == " V"
    ensures ReadingLine(mv)[9..|ReadingLine(mv)| - 2] == FormatMillivolts(mv)
    ensures ParseFloat(ReadingLine(mv)[9..|ReadingLine(mv)| - 2]) == Some(mv as real / 1000.0)
  {
    var s := ReadingLine(mv);
    var f := FormatMillivolts(mv);
    assert s == "Voltage: " + f + " V";
    assert s[..9] == "Voltage: " && s[|s| - 2..] == " V";
    assert s[9..|s| - 2] == f;
    ParseFloatOfMillivolts(mv);
  }

  /** The millivolts a read carries, if it is a voltage line. */
  function VoltageOf(r: Read): Option<nat>
  {
    if r.Line? then ClassifyVoltage(r.bytes) else None
  }

  /** The millivolts of the voltage lines among `rs`, in order, up to the first fault. */
  function Voltages(rs: seq<Read>): (mvs: seq<nat>)
    ensures |mvs| <= |rs|
  {
    if rs == [] || rs[0].Fault? then []
    else (if VoltageOf(rs[0]).Some? then [VoltageOf(rs[0]).value] else []) + Voltages(rs[1..])
  }

  /** What one read prints: a reading for a voltage line, nothing otherwise. */
  function Printed(r: Read): (out: seq<string>)
    ensures |out| <= 1
  {
    if VoltageOf(r).Some? then [ReadingLine(VoltageOf(r).value)] else []
  }

  /** The readings printed for `rs`, timestamps aside. */
  function Readings(rs: seq<Read>): (out: seq<string>)
    ensures |out| <= |rs|
  {
    if rs == [] || rs[0].Fault? then []
    else Printed(rs[0]) + Readings(rs[1..])
  }

  /** `out` holds one reading for each of `mvs`, in the same order. */
  predicate ReadingsFor(out: seq<string>, mvs: seq<nat>)
  {
    |out| == |mvs| && forall i :: 0 <= i < |out| ==> out[i] == ReadingLine(mvs[i])
  }

  /** Exactly one printed reading per voltage line, each for that line's millivolts, in wire order. */
  lemma {:induction false} ReadingsOfVoltages(rs: seq<Read>)
    ensures ReadingsFor(Readings(rs), Voltages(rs))
  {
    if rs != [] && rs[0].Line? {
      var out, mvs := Readings(rs[1..]), Voltages(rs[1..]);
      ReadingsOfVoltages(rs[1..]);
      if VoltageOf(rs[0]).Some? {
        var mv := VoltageOf(rs[0]).value;
        assert Readings(rs) == [ReadingLine(mv)] + out;
        assert Voltages(rs) == [mv] + mvs;
        ReadingsForCons(mv, out, mvs);
      } else {
        assert Readings(rs) == [] + out == out;
        assert Voltages(rs) == [] + mvs == mvs;
      }
    }
  }

  /** One more voltage line in front adds its reading in front. */
  lemma ReadingsForCons(mv: nat, out: seq<string>, mvs: seq<nat>)
    requires ReadingsFor(out, mvs)
    ensures ReadingsFor([ReadingLine(mv)] + out, [mv] + mvs)
  {
    var out', mvs' := [ReadingLine(mv)] + out, [mv] + mvs;
    forall i | 0 <= i < |out'| ensures out'[i] == ReadingLine(mvs'[i]) {
      if i > 0 {
        assert out'[i] == out[i - 1] && mvs'[i] == mvs[i - 1];
      }
    }
  }

  /** No read of `rs` is a fault. */
  predicate NoFault(rs: seq<Read>)
  {
    forall i :: 0 <= i < |rs| ==> rs[i].Line?
  }

  /** A run without faults prints the readings of its first part, then those of the rest. */
  lemma {:induction false} ReadingsAppend(a: seq<Read>, b: seq<Read>)
    requires NoFault(a)
    ensures Readings(a + b) == Readings(a) + Readings(b)
  {
    if a == [] {
      assert a + b == b;
    } else {
      assert (a + b)[0] == a[0];
      assert (a + b)[1..] == a[1..] + b;
      ReadingsAppend(a[1..], b);
    }
  }

  /** A timeout prints nothing: an empty line matches no pattern. */
  lemma TimeoutPrintsNothing()
    ensures Printed(Timeout) == []
  {
    assert CleanLine([]) == [];
  }

  /** A timeout prints nothing and the loop reads on: dropping it changes no output. */
  lemma TimeoutIgnored(a: seq<Read>, b: seq<Read>)
    ensures Readings(a + [Timeout] + b) == Readings(a + b)
  {
    assert a + [Timeout] + b == a + ([Timeout] + b);
    if NoFault(a) {
      ReadingsAppend(a, [Timeout] + b);
      ReadingsAppend(a, b);
      TimeoutThenRest(b);
    } else {
      FaultStops(a, [Timeout] + b);
      FaultStops(a, b);
    }
  }

  /** A timeout followed by `b` prints what `b` prints. */
  lemma TimeoutThenRest(b: seq<Read>)
    ensures Readings([Timeout] + b) == Readings(b)
  {
    TimeoutPrintsNothing();
    assert ([Timeout] + b)[1..] == b;
  }

  /** A fault ends the program: nothing read after it is printed. */
  lemma {:induction false} FaultStops(a: seq<Read>, b: seq<Read>)
    ensures !NoFault(a) ==> Readings(a + b) == Readings(a)
    ensures Readings(a + [Fault] + b) == Readings(a + [Fault])
  {
    if a != [] {
      assert (a + b)[0] == a[0];
      assert (a + b)[1..] == a[1..] + b;
      assert (a + [Fault] + b)[0] == a[0];
      assert (a + [Fault] + b)[1..] == a[1..] + [Fault] + b;
      assert (a + [Fault])[1..] == a[1..] + [Fault];
      FaultStops(a[1..], b);
      if !NoFault(a) && a[0].Line? {
        var i :| 0 <= i < |a| && !a[i].Line?;
        assert !a[1..][i - 1].Line?;
      }
    } else {
      assert a + [Fault] + b == [Fault] + b;
    }
  }

  /** The reads from `i` on print what read `i` prints, then what the rest print, unless read `i` is a fault. */
  lemma ReadingsStep(rs: seq<Read>, i: nat)
    requires i < |rs| && rs[i].Line?
    ensures Readings(rs[i..]) == Printed(rs[i]) + Readings(rs[i + 1..])
  {
    assert rs[i..][0] == rs[i];
    assert rs[i..][1..] == rs[i + 1..];
  }

  /**
   * The reading loop: print a reading for each voltage line, read on
   * after a timeout or any other line, stop at a fault.
   */
  method Listen(rs: seq<Read>) returns (out: seq<string>)
    ensures out == Readings(rs)
  {
    out := [];
    var i := 0;
    assert rs[0..] == rs;
    while i < |rs| && rs[i].Line?
      invariant i <= |rs|
      invariant out + Readings(rs[i..]) == Readings(rs)
    {
      ReadingsStep(rs, i);
      AppendAssoc(out, Printed(rs[i]), Readings(rs[i + 1..]));
      out := out + Printed(rs[i]);
      i := i + 1;
    }
    assert out + [] == out;
  }

  /** The field `V TAB digits CR LF` as the device sends it prints one reading of those millivolts. */
  lemma WireReadingPrinted(mv: nat)
    ensures IsAscii("V\t" + NatToString(mv) + "\r\n")
    ensures Readings([Line(AsciiEncode("V\t" + NatToString(mv) + "\r\n"))]) == [ReadingLine(mv)]
  {
    ClassifyVoltageWire(mv);
    assert [Line(AsciiEncode("V\t" + NatToString(mv) + "\r\n"))][1..] == [];
  }
}
