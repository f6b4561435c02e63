/**
 * The window of the full monitors (serialdata_full.py and
 * vedirect_raspberry.py): one value label per display tag, started at
 * `--` and rewritten by every matching line `update_values` reads. A poll
 * reads lines until a read comes back empty or the port raises; the next
 * poll is scheduled in either case.
 */
module Monitor {

  import opened Wrappers
  import opened PyStr
  import opened TagLine
  import opened ValueFormat
  import opened Serial

  /** `display_tags`: the rows of the window, top to bottom. */
  const DisplayTags: seq<string> := ["V", "I", "P", "SOC", "CE", "TTG"]

  /** The value labels, `widgets`, by tag. */
  type Display = map<string, Shown>

  /** A display has one label for each display tag and no other. */
  predicate WellFormed(d: Display)
  {
    d.Keys == set t | t in DisplayTags
  }

  /** The labels as the window is built: every display tag shows `--`. */
  function InitialDisplay(): (d: Display)
    ensures WellFormed(d) && |d| == 6
    ensures forall t :: t in d ==> d[t] == Literal(NotAvailable)
  {
    var d := map t | t in DisplayTags :: Literal(NotAvailable);
    assert d.Keys == {"V", "I", "P", "SOC", "CE", "TTG"};
    d
  }

  /**
   * One line through `update_values`: a line that matches the tag pattern
   * with a tag that has a label rewrites that label; any other line is
   * skipped.
   */
  function ApplyLine(d: Display, raw: seq<Byte>): (r: Display)
    ensures r.Keys == d.Keys
  {
    var c := ClassifyLine(raw);
    if c.Some? && c.value.0 in d then d[c.value.0 := Normalise(c.value.0, c.value.1)] else d
  }

  /** A line rewrites the label of its own tag and no other. */
  lemma ApplyLineOthers(d: Display, raw: seq<Byte>, t: string)
    requires t in d
    ensures ClassifyLine(raw).None? || ClassifyLine(raw).value.0 != t ==> ApplyLine(d, raw)[t] == d[t]
    ensures ClassifyLine(raw).Some? && ClassifyLine(raw).value.0 == t ==> ApplyLine(d, raw)[t] == Normalise(t, ClassifyLine(raw).value.1)
  {
  }

  /** The lines of a poll applied in the order they were read. */
  function ApplyLines(d: Display, lines: seq<seq<Byte>>): (r: Display)
    ensures r.Keys == d.Keys
  {
    if lines == [] then d
    else ApplyLine(ApplyLines(d, lines[..|lines| - 1]), lines[|lines| - 1])
  }

  /** The value of the last line among `lines` that matches the tag pattern with tag `t`. */
  function LastValue(lines: seq<seq<Byte>>, t: string): Option<string>
  {
    if lines == [] then None
    else
      var last := ClassifyLine(lines[|lines| - 1]);
      if last.Some? && last.value.0 == t then Some(last.value.1)
      else LastValue(lines[..|lines| - 1], t)
  }

  /**
   * After any lines, each label shows the last line read for its tag,
   * normalised, and keeps its earlier text when no line for it came.
   */
  lemma {:induction false} LastLineWins(d: Display, lines: seq<seq<Byte>>, t: string)
    requires t in d
    ensures LastValue(lines, t).None? ==> ApplyLines(d, lines)[t] == d[t]
    ensures LastValue(lines, t).Some? ==> ApplyLines(d, lines)[t] == Normalise(t, LastValue(lines, t).value)
  {
    if lines != [] {
      LastLineWins(d, lines[..|lines| - 1], t);
      ApplyLineOthers(ApplyLines(d, lines[..|lines| - 1]), lines[|lines| - 1], t);
    }
  }

  /** Lines that do not match, or whose tag has no label, leave every label as it was. */
  lemma {:induction false} IgnoredLines(d: Display, lines: seq<seq<Byte>>)
    requires forall i :: 0 <= i < |lines| ==> ClassifyLine(lines[i]).None? || ClassifyLine(lines[i]).value.0 !in d
    ensures ApplyLines(d, lines) == d
  {
    if lines != [] {
      IgnoredLines(d, lines[..|lines| - 1]);
      assert ClassifyLine(lines[|lines| - 1]).None? || ClassifyLine(lines[|lines| - 1]).value.0 !in d;
    }
  }

  /** Applying `a` then `b` is applying `a + b`. */
  lemma {:induction false} ApplyLinesAppend(d: Display, a: seq<seq<Byte>>, b: seq<seq<Byte>>)
    ensures ApplyLines(d, a + b) == ApplyLines(ApplyLines(d, a), b)
    decreases |b|
  {
    if b == [] {
      assert a + b == a;
    } else {
      assert (a + b)[..|a + b| - 1] == a + b[..|b| - 1];
      assert (a + b)[|a + b| - 1] == b[|b| - 1];
      ApplyLinesAppend(d, a, b[..|b| - 1]);
    }
  }

  /**
   * The field `tag TAB value CR LF` as the device sends it sets that tag's
   * label to the normalised value and nothing else, for an ASCII value
   * without a newline or trailing whitespace.
   */
  lemma WireFieldShown(d: Display, k: string, v: string)
    requires k in d && IsKey(k) && IsLineValue(v) && IsAscii(v) && !IsSpace(v[|v| - 1])
    ensures IsAscii(k + "\t" + v + "\r\n")
    ensures ApplyLine(d, AsciiEncode(k + "\t" + v + "\r\n")) == d[k := Normalise(k, v)]
  {
    var raw := AsciiEncode(k + "\t" + v + "\r\n");
    assert ClassifyLine(raw) == Some((k, v)) by {
      ClassifyWireLine(k, v);
    }
    ApplyMatchedLine(d, raw, k, v);
  }

  /** A line classified as the field `k`, `v` sets the label of `k`. */
  lemma ApplyMatchedLine(d: Display, raw: seq<Byte>, k: string, v: string)
    requires k in d && ClassifyLine(raw) == Some((k, v))
    ensures ApplyLine(d, raw) == d[k := Normalise(k, v)]
  {
  }

  /** The labels after one poll that starts at the head of `rs`. */
  function Poll(d: Display, rs: seq<Read>): (r: Display)
    ensures r.Keys == d.Keys
  {
    ApplyLines(d, Payloads(rs[..BatchLength(rs)]))
  }

  /**
   * `update_values`: read and apply lines until a read is empty or the port
   * raises. Returns the labels and how many reads the poll consumed.
   */
  method UpdateValues(d: Display, rs: seq<Read>) returns (r: Display, used: nat)
    ensures used == BatchLength(rs)
    ensures r.Keys == d.Keys
    ensures r == ApplyLines(d, Payloads(rs[..used]))
  {
    r := d;
    used := 0;
    assert rs[..0] == [];
    while used < |rs| && HasLine(rs[used])
      invariant used <= |rs|
      invariant BatchLength(rs) == used + BatchLength(rs[used..])
      invariant r == ApplyLines(d, Payloads(rs[..used]))
    {
      BatchLengthStep(rs, used);
      ghost var p := Payloads(rs[..used]);
      assert Payloads(rs[..used + 1]) == p + [rs[used].bytes] by {
        PayloadsStep(rs, used);
      }
      ApplyLinesSnoc(d, p, rs[used].bytes);
      r := ApplyLine(r, rs[used].bytes);
      used := used + 1;
    }
    if used < |rs| {
      BatchLengthStep(rs, used);
      PayloadsStep(rs, used);
      used := used + 1;
    } else {
      assert rs[used..] == [];
    }
  }

  /** One more line is applied after the others. */
  lemma ApplyLinesSnoc(d: Display, a: seq<seq<Byte>>, x: seq<Byte>)
    ensures ApplyLines(d, a + [x]) == ApplyLine(ApplyLines(d, a), x)
  {
    assert (a + [x])[..|a|] == a;
  }

  /** One more read adds its line, if it carries one, to the payloads. */
  lemma PayloadsStep(rs: seq<Read>, i: nat)
    requires i < |rs|
    ensures HasLine(rs[i]) ==> Payloads(rs[..i + 1]) == Payloads(rs[..i]) + [rs[i].bytes]
    ensures !HasLine(rs[i]) ==> Payloads(rs[..i + 1]) == Payloads(rs[..i])
  {
    assert rs[..i + 1][..i] == rs[..i];
  }

  /** Successive polls over all the reads of a run, each starting where the last one stopped. */
  function Session(d: Display, rs: seq<Read>): (r: Display)
    ensures r.Keys == d.Keys
    decreases |rs|
  {
    if rs == [] then d
    else Session(Poll(d, rs), rs[BatchLength(rs)..])
  }

  /**
   * How the reads fall into polls does not matter to the window: after a
   * run it shows every line of the run applied in order, timeouts and
   * faults skipped.
   */
  lemma {:induction false} SessionIsFold(d: Display, rs: seq<Read>)
    ensures Session(d, rs) == ApplyLines(d, Payloads(rs))
    decreases |rs|
  {
    if rs != [] {
      var n := BatchLength(rs);
      var p, q := Payloads(rs[..n]), Payloads(rs[n..]);
      assert Payloads(rs) == p + q by {
        assert rs == rs[..n] + rs[n..];
        PayloadsAppend(rs[..n], rs[n..]);
      }
      assert ApplyLines(d, p + q) == ApplyLines(Poll(d, rs), q) by {
        ApplyLinesAppend(d, p, q);
      }
      SessionIsFold(Poll(d, rs), rs[n..]);
      assert Session(d, rs) == Session(Poll(d, rs), rs[n..]);
    }
  }

  /** A well-formed window stays well-formed through a run, and each label shows its tag's last line. */
  lemma SessionShowsLastLine(rs: seq<Read>, t: string)
    requires t in DisplayTags
    ensures WellFormed(Session(InitialDisplay(), rs))
    ensures LastValue(Payloads(rs), t).None? ==> Session(InitialDisplay(), rs)[t] == Literal(NotAvailable)
    ensures LastValue(Payloads(rs), t).Some? ==> Session(InitialDisplay(), rs)[t] == Normalise(t, LastValue(Payloads(rs), t).value)
  {
    SessionIsFold(InitialDisplay(), rs);
    LastLineWins(InitialDisplay(), Payloads(rs), t);
  }
}
