/**
 * The two line patterns of the serial scripts, applied to a line read
 * from the port after it is decoded as ASCII (dropping other bytes) and
 * stripped:
 *  - the full tag pattern `^([A-Z0-9]{1,4})\t(.+)$` of the monitors, and
 *  - the voltage pattern `^V\t(\d+)$` of the voltage label and console.
 */
module TagLine {

  import opened Wrappers
  import opened PyStr
  import opened Numerals

  /** One character of `[A-Z0-9]`. */
  predicate IsKeyChar(c: char)
  {
    ('A' <= c <= 'Z') || ('0' <= c <= '9')
  }

  /** `[A-Z0-9]{1,4}`: a VE.Direct tag as the scripts accept it. */
  predicate IsKey(k: string)
  {
    1 <= |k| <= 4 && forall i :: 0 <= i < |k| ==> IsKeyChar(k[i])
  }

  /** `.+`: one or more characters other than a newline. */
  predicate IsLineValue(v: string)
  {
    v != [] && '\n' !in v
  }

  /** What a line becomes before any pattern sees it: ASCII-decoded, then stripped. */
  function CleanLine(raw: seq<Byte>): (line: string)
    ensures IsAscii(line) && NoEdgeSpace(line)
  {
    var s := AsciiDecode(raw);
    var line := Strip(s);
    StripIsPadding(s);
    assert forall k :: 0 <= k < |line| ==> line[k] == s[LeadingSpaces(s) + k];
    line
  }

  /**
   * `TAG_PATTERN.match(line)` with `^([A-Z0-9]{1,4})\t(.+)$`: the tag and
   * the value when the line has that shape, `None` otherwise. The tag ends
   * at the first tab, since no tag character is a tab.
   */
  function MatchTagLine(s: string): (r: Option<(string, string)>)
    ensures r.Some? ==> IsKey(r.value.0) && IsLineValue(r.value.1)
    ensures r.Some? ==> BeforeFinalNewline(s) == r.value.0 + "\t" + r.value.1
  {
    var b := BeforeFinalNewline(s);
    var i := IndexOf(b, '\t');
    if i < |b| && IsKey(b[..i]) && IsLineValue(b[i + 1..]) then
      assert b == b[..i] + "\t" + b[i + 1..];
      Some((b[..i], b[i + 1..]))
    else None
  }

  /** Every line of the shape tag, tab, value is matched, with that tag and value. */
  lemma MatchTagLineAccepts(k: string, v: string)
    requires IsKey(k) && IsLineValue(v)
    ensures MatchTagLine(k + "\t" + v) == Some((k, v))
    ensures MatchTagLine(k + "\t" + v + "\n") == Some((k, v))
  {
    var s := k + "\t" + v;
    assert s[|s| - 1] == v[|v| - 1];
    assert BeforeFinalNewline(s) == s;
    assert (s + "\n")[..|s|] == s;
    assert BeforeFinalNewline(s + "\n") == s;
    IndexOfAfter(k, "\t" + v, '\t');
    assert s == k + ("\t" + v);
    assert s[..|k|] == k && s[|k| + 1..] == v;
  }

  /** The first `c` of `a + b` is the first of `b` when `a` has none and `b` starts with `c`. */
  lemma {:induction false} IndexOfAfter(a: string, b: string, c: char)
    requires c !in a && b != [] && b[0] == c
    ensures IndexOf(a + b, c) == |a|
    decreases |a|
  {
    if a != [] {
      assert (a + b)[0] == a[0];
      assert (a + b)[1..] == a[1..] + b;
      IndexOfAfter(a[1..], b, c);
    } else {
      assert a + b == b;
    }
  }

  /**
   * A serial line classified as the full monitors do: `Some((tag, value))`
   * when the cleaned line matches the tag pattern.
   */
  function ClassifyLine(raw: seq<Byte>): (r: Option<(string, string)>)
    ensures r.Some? ==> IsKey(r.value.0) && IsLineValue(r.value.1)
    ensures r.Some? ==> CleanLine(raw) == r.value.0 + "\t" + r.value.1
  {
    var line := CleanLine(raw);
    var r := MatchTagLine(line);
    if r.Some? then
      assert line[|line| - 1] != '\n';
      r
    else r
  }

  /**
   * What the device sends for one field, `tag TAB value CR LF`, is
   * classified back to that field whenever the value is ASCII, holds no
   * newline and does not end in whitespace (stripping would remove it).
   */
  lemma ClassifyWireLine(k: string, v: string)
    requires IsKey(k) && IsLineValue(v) && IsAscii(v) && !IsSpace(v[|v| - 1])
    ensures IsAscii(k + "\t" + v + "\r\n")
    ensures ClassifyLine(AsciiEncode(k + "\t" + v + "\r\n")) == Some((k, v))
  {
    var line := k + "\t" + v;
    assert IsAscii(line + "\r\n") && CleanLine(AsciiEncode(line + "\r\n")) == line by {
      TagLineAscii(k, v);
      TagLineEdges(k, v);
      CleanWireLine(line);
    }
    assert MatchTagLine(line) == Some((k, v)) by {
      MatchTagLineAccepts(k, v);
    }
  }

  /** A tag, a tab and an ASCII value make an ASCII line. */
  lemma TagLineAscii(k: string, v: string)
    requires IsKey(k) && IsAscii(v)
    ensures IsAscii(k + "\t" + v)
  {
    var line := k + "\t" + v;
    forall i | 0 <= i < |line| ensures line[i] as int < 128 {
      if i < |k| {
        assert line[i] == k[i] && IsKeyChar(k[i]);
      } else if i > |k| {
        assert line[i] == v[i - |k| - 1];
      }
    }
  }

  /** A tag line starts with the tag's first character and ends with the value's last. */
  lemma TagLineEdges(k: string, v: string)
    requires k != [] && v != []
    ensures (k + "\t" + v)[0] == k[0]
    ensures (k + "\t" + v)[|k + "\t" + v| - 1] == v[|v| - 1]
  {
  }

  /**
   * A line sent as ASCII and ended with CR LF, as the device ends every
   * field, comes out of `CleanLine` as it was sent when it has no
   * whitespace at either edge.
   */
  lemma CleanWireLine(line: string)
    requires line != [] && IsAscii(line) && NoEdgeSpace(line)
    ensures IsAscii(line + "\r\n")
    ensures CleanLine(AsciiEncode(line + "\r\n")) == line
  {
    var wire := line + "\r\n";
    assert IsAscii(wire) by {
      forall i | 0 <= i < |wire| ensures wire[i] as int < 128 {
        if i < |line| { assert wire[i] == line[i]; }
      }
    }
    AsciiRoundTrip(wire);
    assert AllSpace("\r\n");
    StripPadded([], line, "\r\n");
    assert [] + line + "\r\n" == wire;
  }

  // ---------------------------------------------------------------------
  // The voltage pattern
  // ---------------------------------------------------------------------

  /**
   * `TAG_PATTERN.match(line)` with `^V\t(\d+)$` followed by `int(...)`:
   * the millivolts of a voltage line. The line is ASCII by the time it is
   * matched, so `\d` is an ASCII digit here.
   */
  function MatchVoltageLine(s: string): (r: Option<nat>)
    ensures r.Some? ==> exists ds :: AllDigits(ds) && ds != [] && BeforeFinalNewline(s) == "V\t" + ds && DigitsValue(ds) == r.value
  {
    var b := BeforeFinalNewline(s);
    if |b| >= 3 && b[..2] == "V\t" && AllDigits(b[2..]) then
      assert b == "V\t" + b[2..];
      Some(DigitsValue(b[2..]))
    else None
  }

  /**
   * Any run of digits after `V` and a tab, leading zeros included, reads
   * as the value of those digits, with or without a final newline.
   */
  lemma MatchVoltageLineAccepts(ds: string)
    requires AllDigits(ds) && ds != []
    ensures MatchVoltageLine("V\t" + ds) == Some(DigitsValue(ds))
    ensures MatchVoltageLine("V\t" + ds + "\n") == Some(DigitsValue(ds))
  {
    var s := "V\t" + ds;
    assert s[|s| - 1] == ds[|ds| - 1];
    assert s[..2] == "V\t" && s[2..] == ds;
    assert (s + "\n")[..|s + "\n"| - 1] == s;
  }

  /** A voltage line is also a line of the full tag pattern, with tag `V` and its digits as value. */
  lemma VoltageLineIsTagLine(s: string)
    requires MatchVoltageLine(s).Some?
    ensures MatchTagLine(s).Some? && MatchTagLine(s).value.0 == "V"
    ensures AllDigits(MatchTagLine(s).value.1)
    ensures MatchVoltageLine(s).value == DigitsValue(MatchTagLine(s).value.1)
  {
    var b := BeforeFinalNewline(s);
    var ds := b[2..];
    assert b == "V" + "\t" + ds;
    assert '\n' !in ds;
    assert IsKey("V");
    MatchTagLineAccepts("V", ds);
    if b != s {
      assert s == b + "\n";
    }
  }

  /** A serial line classified as the voltage scripts do: its millivolts, if it is a voltage line. */
  function ClassifyVoltage(raw: seq<Byte>): Option<nat>
  {
    MatchVoltageLine(CleanLine(raw))
  }

  /**
   * A serial line the voltage scripts read as millivolts is one the full
   * monitors read as the `V` field, with a value of digits worth as much.
   */
  lemma ClassifyVoltageIsTagLine(raw: seq<Byte>)
    requires ClassifyVoltage(raw).Some?
    ensures ClassifyLine(raw).Some? && ClassifyLine(raw).value.0 == "V"
    ensures AllDigits(ClassifyLine(raw).value.1) && DigitsValue(ClassifyLine(raw).value.1) == ClassifyVoltage(raw).value
  {
    VoltageLineIsTagLine(CleanLine(raw));
  }

  /** The voltage field `V TAB digits CR LF` as the device sends it is read as its millivolts. */
  lemma ClassifyVoltageWire(mv: nat)
    ensures IsAscii("V\t" + NatToString(mv) + "\r\n")
    ensures ClassifyVoltage(AsciiEncode("V\t" + NatToString(mv) + "\r\n")) == Some(mv)
  {
    var ds := NatToString(mv);
    var line := "V\t" + ds;
    assert IsAscii(line) by {
      forall i | 0 <= i < |line| ensures line[i] as int < 128 {
        if i >= 2 { assert line[i] == ds[i - 2]; }
      }
    }
    assert line[|line| - 1] == ds[|ds| - 1];
    CleanWireLine(line);
    MatchVoltageLineAccepts(NatToString(mv));
  }
}
