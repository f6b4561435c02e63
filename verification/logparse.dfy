/**
 * The log parser of vedirect_parse.py: read a saved terminal log, cut it
 * into frames at blank lines, find the first frame that carries a `V`
 * field and print its millivolts as volts; when there is none, print the
 * sorted tags of the first three frames instead.
 */
module LogParse {

  import opened Wrappers
  import opened PyStr
  import opened Numerals
  import opened TagLine
  import opened KeyOrder
  import opened LogBlock
  import opened Console

  // ---------------------------------------------------------------------
  // Reading the log
  // ---------------------------------------------------------------------

  /**
   * A file read in text mode with universal newlines: `\r\n` and a lone
   * `\r` each become `\n`.
   */
  function TranslateNewlines(s: string): (r: string)
    ensures '\r' !in r
    decreases |s|
  {
    if s == [] then []
    else if s[0] == '\r' then
      "\n" + TranslateNewlines(if |s| > 1 && s[1] == '\n' then s[2..] else s[1..])
    else [s[0]] + TranslateNewlines(s[1..])
  }

  /** A lone `\r`, one not followed by `\n`, reads as one `\n`. */
  lemma TranslateLoneCr(s: string)
    requires s == [] || s[0] != '\n'
    ensures TranslateNewlines("\r" + s) == "\n" + TranslateNewlines(s)
  {
    assert ("\r" + s)[1..] == s;
  }

  /** A `\r\n` pair reads as one `\n`. */
  lemma TranslateCrLf(s: string)
    ensures TranslateNewlines("\r\n" + s) == "\n" + TranslateNewlines(s)
  {
    assert ("\r\n" + s)[2..] == s;
  }

  /** Any other character reads as itself. */
  lemma TranslateOther(c: char, s: string)
    requires c != '\r'
    ensures TranslateNewlines([c] + s) == [c] + TranslateNewlines(s)
  {
    assert ([c] + s)[1..] == s;
  }

  /** Text without `\r` reads as it is. */
  lemma {:induction false} TranslatePlain(s: string)
    requires '\r' !in s
    ensures TranslateNewlines(s) == s
  {
    if s != [] {
      assert '\r' !in s[1..];
      TranslatePlain(s[1..]);
      assert s == [s[0]] + s[1..];
    }
  }

  /** A stretch without `\r` in front of the rest reads as itself, then the rest as read. */
  lemma {:induction false} TranslatePlainPrefix(l: string, rest: string)
    requires '\r' !in l
    ensures TranslateNewlines(l + rest) == l + TranslateNewlines(rest)
    decreases |l|
  {
    if l == [] {
      assert l + rest == rest;
    } else {
      assert (l + rest)[0] == l[0];
      assert (l + rest)[1..] == l[1..] + rest;
      assert '\r' !in l[1..];
      TranslatePlainPrefix(l[1..], rest);
      AppendAssoc([l[0]], l[1..], TranslateNewlines(rest));
      assert [l[0]] + l[1..] == l;
    }
  }

  /** Lines that a device ended with CR LF read as the same lines ended with LF. */
  lemma {:induction false} TranslateCrLfLines(ls: seq<string>)
    requires forall i :: 0 <= i < |ls| ==> '\r' !in ls[i]
    ensures TranslateNewlines(JoinLines(ls, "\r\n")) == JoinLines(ls, "\n")
  {
    if ls != [] {
      var rest := JoinLines(ls[1..], "\r\n");
      assert JoinLines(ls, "\r\n") == ls[0] + ("\r\n" + rest);
      TranslatePlainPrefix(ls[0], "\r\n" + rest);
      assert ("\r\n" + rest)[0] == '\r' && ("\r\n" + rest)[1] == '\n';
      assert ("\r\n" + rest)[2..] == rest;
      TranslateCrLfLines(ls[1..]);
      assert JoinLines(ls, "\n") == ls[0] + ("\n" + JoinLines(ls[1..], "\n"));
    }
  }

  /** `f.read().replace('\r', '')`: the text of the log once read. */
  function Content(raw: string): (c: string)
    ensures '\r' !in c
  {
    RemoveAll(TranslateNewlines(raw), '\r')
  }

  /** Removing `\r` after a text-mode read removes nothing: none is left by then. */
  lemma ContentIsTranslated(raw: string)
    ensures Content(raw) == TranslateNewlines(raw)
  {
    RemoveAllAbsent(TranslateNewlines(raw), '\r');
  }

  // ---------------------------------------------------------------------
  // Frames
  // ---------------------------------------------------------------------

  /** The pieces that are not blank, in order. */
  function NonBlank(parts: seq<string>): (r: seq<string>)
    ensures |r| <= |parts|
    ensures forall f :: f in r <==> f in parts && Strip(f) != []
  {
    if parts == [] then []
    else
      var rest := NonBlank(parts[1..]);
      assert forall f :: f in parts <==> f == parts[0] || f in parts[1..];
      (if Strip(parts[0]) != [] then [parts[0]] else []) + rest
  }

  /** The pieces of two runs are kept piece by piece, in order. */
  lemma {:induction false} NonBlankAppend(a: seq<string>, b: seq<string>)
    ensures NonBlank(a + b) == NonBlank(a) + NonBlank(b)
    decreases |a|
  {
    if a == [] {
      assert a + b == b;
    } else {
      assert (a + b)[0] == a[0] && (a + b)[1..] == a[1..] + b;
      NonBlankAppend(a[1..], b);
      AppendAssoc(if Strip(a[0]) != [] then [a[0]] else [], NonBlank(a[1..]), NonBlank(b));
    }
  }

  /** One piece is kept exactly when it is not blank. */
  lemma NonBlankOne(p: string)
    ensures NonBlank([p]) == if Strip(p) != [] then [p] else []
  {
    assert [p][1..] == [];
  }

  /** `raw_frames`: the log split at every blank line, blank pieces dropped. */
  function Frames(content: string): (frames: seq<string>)
    ensures forall f :: f in frames <==> f in Split(content, "\n\n") && Strip(f) != []
    ensures forall f :: f in frames ==> !Contains(f, "\n\n")
  {
    NonBlank(Split(content, "\n\n"))
  }

  /** A text that holds no `\n\n` is a single frame, unless it is blank. */
  lemma SingleFrame(content: string)
    requires !Contains(content, "\n\n")
    requires content != [] && !IsSpace(content[0])
    ensures Frames(content) == [content]
  {
    assert Split(content, "\n\n") == [content];
    StripNotBlank(content);
    assert [content][1..] == [];
  }

  /** Non-empty lines, each ended by `\n`, never leave a blank line between them. */
  lemma {:induction false} NoBlankLine(ls: seq<string>)
    requires PlainLines(ls)
    ensures !Contains(JoinLines(ls, "\n"), "\n\n")
  {
    if ls != [] {
      var l := ls[0];
      var rest := JoinLines(ls[1..], "\n");
      var c := JoinLines(ls, "\n");
      assert c == l + "\n" + rest;
      assert PlainLines(ls[1..]) by {
        forall i | 0 <= i < |ls[1..]| ensures ls[1..][i] != [] && NoLineBreak(ls[1..][i]) {
          assert ls[1..][i] == ls[i + 1];
        }
      }
      NoBlankLine(ls[1..]);
      assert l != [] && NoLineBreak(l);
      forall j | 0 <= j <= |c| ensures !OccursAt(c, "\n\n", j) {
        if j + 2 <= |c| {
          if j < |l| {
            assert c[j] == l[j] && !IsLineBreak(l[j]);
            NoPairAt(c, j);
          } else if j == |l| {
            assert rest != [] && ls[1..] != [];
            assert rest == ls[1] + "\n" + JoinLines(ls[2..], "\n");
            assert ls[1] != [] && NoLineBreak(ls[1]);
            assert c[j + 1] == rest[0] == ls[1][0] && !IsLineBreak(ls[1][0]);
            NoPairAt(c, j);
          } else {
            assert c[j..j + 2] == rest[j - |l| - 1..j - |l| + 1];
            assert !OccursAt(rest, "\n\n", j - |l| - 1);
          }
        }
      }
    }
  }

  /** No blank line starts at `j` when one of the two characters there is not a newline. */
  lemma NoPairAt(c: string, j: nat)
    requires j + 2 <= |c| && (c[j] != '\n' || c[j + 1] != '\n')
    ensures !OccursAt(c, "\n\n", j)
  {
    assert c[j..j + 2][0] == c[j] && c[j..j + 2][1] == c[j + 1];
  }

  // ---------------------------------------------------------------------
  // The search for a voltage
  // ---------------------------------------------------------------------

  /** The `V` field of a frame, if its block has one. */
  function FrameVoltage(frame: string): Option<string>
  {
    Lookup(ParseBlock(frame), "V")
  }

  /** The index and content of the first present value, if any. */
  function FirstSome(vs: seq<Option<string>>): (r: Option<(nat, string)>)
    ensures r.Some? ==> r.value.0 < |vs| && vs[r.value.0] == Some(r.value.1)
  {
    if vs == [] then None
    else if vs[0].Some? then Some((0, vs[0].value))
    else match FirstSome(vs[1..])
      case None => None
      case Some(hit) => Some((hit.0 + 1, hit.1))
  }

  /** The search finds nothing only when every value is absent, and no value before the one it finds is present. */
  lemma {:induction false} FirstSomeIsFirst(vs: seq<Option<string>>)
    ensures FirstSome(vs).Some? ==> forall j :: 0 <= j < FirstSome(vs).value.0 ==> vs[j].None?
    ensures FirstSome(vs).None? ==> forall j :: 0 <= j < |vs| ==> vs[j].None?
  {
    if vs != [] && vs[0].None? {
      FirstSomeIsFirst(vs[1..]);
      assert forall j :: 1 <= j < |vs| ==> vs[j] == vs[1..][j - 1];
    }
  }

  /** The first present value is the one the search stops at. */
  lemma {:induction false} FirstSomeAt(vs: seq<Option<string>>, i: nat, v: string)
    requires i < |vs| && vs[i] == Some(v)
    requires forall j :: 0 <= j < i ==> vs[j].None?
    ensures FirstSome(vs) == Some((i, v))
  {
    if i > 0 {
      assert forall j :: 0 <= j < i - 1 ==> vs[1..][j] == vs[j + 1];
      FirstSomeAt(vs[1..], i - 1, v);
    }
  }

  /**
   * Values after the first present one play no part in the search; absent
   * values in front of the others only shift the result.
   */
  lemma FirstSomeAppend(a: seq<Option<string>>, b: seq<Option<string>>)
    ensures FirstSome(a).Some? ==> FirstSome(a + b) == FirstSome(a)
    ensures FirstSome(a).None? && FirstSome(b).None? ==> FirstSome(a + b).None?
    ensures FirstSome(a).None? && FirstSome(b).Some? ==> FirstSome(a + b) == Some((|a| + FirstSome(b).value.0, FirstSome(b).value.1))
  {
    var ab := a + b;
    if FirstSome(a).Some? {
      var hit := FirstSome(a).value;
      assert FirstSome(ab) == Some(hit) by {
        FirstSomeIsFirst(a);
        assert ab[hit.0] == a[hit.0];
        assert forall j :: 0 <= j < hit.0 ==> ab[j] == a[j];
        FirstSomeAt(ab, hit.0, hit.1);
      }
    } else if FirstSome(b).Some? {
      var hit := FirstSome(b).value;
      assert FirstSome(ab) == Some((|a| + hit.0, hit.1)) by {
        FirstSomeIsFirst(a);
        FirstSomeIsFirst(b);
        assert ab[|a| + hit.0] == b[hit.0];
        forall j | 0 <= j < |a| + hit.0 ensures ab[j].None? {
          if j >= |a| {
            assert ab[j] == b[j - |a|];
          } else {
            assert ab[j] == a[j];
          }
        }
        FirstSomeAt(ab, |a| + hit.0, hit.1);
      }
    } else {
      assert FirstSome(ab).None? by {
        FirstSomeIsFirst(a);
        FirstSomeIsFirst(b);
        FirstSomeNone(ab);
      }
    }
  }

  /** With every value absent, the search finds nothing. */
  lemma {:induction false} FirstSomeNone(vs: seq<Option<string>>)
    requires forall j :: 0 <= j < |vs| ==> vs[j].None?
    ensures FirstSome(vs).None?
  {
    if vs != [] {
      assert forall j :: 0 <= j < |vs[1..]| ==> vs[1..][j] == vs[j + 1];
      FirstSomeNone(vs[1..]);
    }
  }

  /** The `V` field of each frame, frame by frame. */
  function VoltageFields(frames: seq<string>): (vs: seq<Option<string>>)
    ensures |vs| == |frames|
  {
    if frames == [] then [] else [FrameVoltage(frames[0])] + VoltageFields(frames[1..])
  }

  /** Entry `i` is the `V` field of frame `i`. */
  lemma {:induction false} VoltageFieldAt(frames: seq<string>, i: nat)
    requires i < |frames|
    ensures VoltageFields(frames)[i] == FrameVoltage(frames[i])
  {
    var tail := VoltageFields(frames[1..]);
    if i > 0 {
      assert VoltageFields(frames)[i] == tail[i - 1];
      assert tail[i - 1] == FrameVoltage(frames[i]) by {
        VoltageFieldAt(frames[1..], i - 1);
        assert frames[1..][i - 1] == frames[i];
      }
    }
  }

  /** The fields of two runs of frames are the fields of each, one after the other. */
  lemma {:induction false} VoltageFieldsAppend(a: seq<string>, b: seq<string>)
    ensures VoltageFields(a + b) == VoltageFields(a) + VoltageFields(b)
  {
    if a == [] {
      assert a + b == b;
    } else {
      assert (a + b)[0] == a[0];
      assert (a + b)[1..] == a[1..] + b;
      VoltageFieldsAppend(a[1..], b);
      AppendAssoc([FrameVoltage(a[0])], VoltageFields(a[1..]), VoltageFields(b));
    }
  }

  /** The index and raw `V` value of the first frame that has a `V` field. */
  function FirstVoltage(frames: seq<string>): Option<(nat, string)>
  {
    FirstSome(VoltageFields(frames))
  }

  /**
   * The search finds a frame with a `V` field and its value, and no frame
   * before it has one; it finds nothing only when no frame has one.
   */
  lemma FirstVoltageIsFirst(frames: seq<string>)
    ensures FirstVoltage(frames).Some? ==>
      var hit := FirstVoltage(frames).value;
      && hit.0 < |frames| && FrameVoltage(frames[hit.0]) == Some(hit.1)
      && forall j :: 0 <= j < hit.0 ==> FrameVoltage(frames[j]).None?
    ensures FirstVoltage(frames).None? ==> forall j :: 0 <= j < |frames| ==> FrameVoltage(frames[j]).None?
  {
    var vs := VoltageFields(frames);
    FirstSomeIsFirst(vs);
    forall j | 0 <= j < |frames| ensures vs[j] == FrameVoltage(frames[j]) {
      VoltageFieldAt(frames, j);
    }
  }

  /** Frames after the first one with a `V` field play no part in the search. */
  lemma FirstVoltageIgnoresLater(a: seq<string>, b: seq<string>)
    requires FirstVoltage(a).Some?
    ensures FirstVoltage(a + b) == FirstVoltage(a)
  {
    var va, vb := VoltageFields(a), VoltageFields(b);
    VoltageFieldsAppend(a, b);
    FirstSomeAppend(va, vb);
    assert FirstVoltage(a + b) == FirstSome(va + vb);
  }

  // ---------------------------------------------------------------------
  // The report
  // ---------------------------------------------------------------------

  /** A line `main` prints, before it is rendered as text. */
  datatype Message =
    | NoFramesFound
    | VoltageReading(mv: int)
    | InvalidVoltage(raw: string)
    | VoltageNotFound
    | KeysHeading
    | FrameKeys(n: nat, keys: seq<string>)

  /** The repr of a Python list of tags; a tag needs neither escapes nor double quotes. */
  function ListRepr(ks: seq<string>): string
  {
    "[" + Join(seq(|ks|, i requires 0 <= i < |ks| => "'" + ks[i] + "'"), ", ") + "]"
  }

  /** The text of a message as printed. */
  function Text(m: Message): string
  {
    match m
    case NoFramesFound => "No frames found in the log."
    case VoltageReading(mv) => ReadingLine(mv)
    case InvalidVoltage(v) => "Invalid raw voltage '" + v + "'"
    case VoltageNotFound => "Voltage ('V') not found in any frame."
    case KeysHeading => "Available keys in frames:"
    case FrameKeys(n, ks) => " Frame " + NatToString(n) + ": " + ListRepr(ks)
  }

  /** `sorted(parsed.keys())`: the tags of a frame in code-point order. */
  function SortedKeys(frame: string): seq<string>
  {
    Sort(Keys(ParseBlock(frame)))
  }

  /** One line per frame, numbered on from `n`. */
  function KeyLines(frames: seq<string>, n: nat): (out: seq<Message>)
    ensures |out| == |frames|
  {
    if frames == [] then [] else [FrameKeys(n, SortedKeys(frames[0]))] + KeyLines(frames[1..], n + 1)
  }

  /** Line `i` lists the sorted tags of frame `i`, numbered `n + i`. */
  lemma {:induction false} KeyLineAt(frames: seq<string>, n: nat, i: nat)
    requires i < |frames|
    ensures KeyLines(frames, n)[i] == FrameKeys(n + i, SortedKeys(frames[i]))
  {
    var tail := KeyLines(frames[1..], n + 1);
    if i > 0 {
      assert KeyLines(frames, n)[i] == tail[i - 1];
      assert tail[i - 1] == FrameKeys(n + i, SortedKeys(frames[i])) by {
        KeyLineAt(frames[1..], n + 1, i - 1);
        assert frames[1..][i - 1] == frames[i];
      }
    }
  }

  /** `enumerate(raw_frames[:3], 1)`: a line for each of at most the first three frames, numbered from 1. */
  function Listing(frames: seq<string>): (out: seq<Message>)
    ensures |out| <= 3 && |out| <= |frames|
    ensures |out| == |frames| || |out| == 3
  {
    KeyLines(if |frames| < 3 then frames else frames[..3], 1)
  }

  /** The listing shows the first frames in order, numbered from 1, each with its sorted tags. */
  lemma ListingShows(frames: seq<string>, i: nat)
    requires i < |Listing(frames)|
    ensures i < |frames| && Listing(frames)[i] == FrameKeys(i + 1, SortedKeys(frames[i]))
  {
    if |frames| < 3 {
      KeyLineAt(frames, 1, i);
    } else {
      var fs := frames[..3];
      assert Listing(frames) == KeyLines(fs, 1);
      KeyLineAt(fs, 1, i);
      assert fs[i] == frames[i];
    }
  }

  /** What is printed when no frame gives a voltage. */
  function NotFoundLines(frames: seq<string>): seq<Message>
  {
    [VoltageNotFound, KeysHeading] + Listing(frames)
  }

  /** How the search ended. */
  datatype Outcome = NoFrames | Volts(mv: int) | Invalid(raw: string) | NotFound

  /** The outcome for the frames of a log. */
  function Decide(frames: seq<string>): (o: Outcome)
    ensures o.NoFrames? <==> frames == []
    ensures o.NotFound? <==> frames != [] && FirstVoltage(frames).None?
    ensures o.Volts? ==> FirstVoltage(frames).Some? && ParseInt(FirstVoltage(frames).value.1) == Some(o.mv)
    ensures o.Invalid? ==> FirstVoltage(frames).Some? && FirstVoltage(frames).value.1 == o.raw && ParseInt(o.raw).None?
  {
    if frames == [] then NoFrames
    else match FirstVoltage(frames)
      case None => NotFound
      case Some(hit) =>
        match ParseInt(hit.1)
        case Some(mv) => Volts(mv)
        case None => Invalid(hit.1)
  }

  /** The lines printed for an outcome. */
  function Lines(frames: seq<string>, o: Outcome): seq<Message>
  {
    match o
    case NoFrames => [NoFramesFound]
    case Volts(mv) => [VoltageReading(mv)]
    case Invalid(v) => [InvalidVoltage(v)] + NotFoundLines(frames)
    case NotFound => NotFoundLines(frames)
  }

  /** Everything `main` prints for a log that could be opened. */
  function Report(raw: string): seq<Message>
  {
    var frames := Frames(Content(raw));
    Lines(frames, Decide(frames))
  }

  /** The loop over the frames: stop at the first present value, or run off the end. */
  method FindFirst(vs: seq<Option<string>>) returns (i: nat)
    ensures i <= |vs|
    ensures i < |vs| ==> vs[i].Some? && FirstSome(vs) == Some((i, vs[i].value))
    ensures i == |vs| ==> FirstSome(vs).None?
  {
    i := 0;
    while i < |vs| && vs[i].None?
      invariant i <= |vs|
      invariant forall j :: 0 <= j < i ==> vs[j].None?
    {
      i := i + 1;
    }
    if i < |vs| {
      FirstSomeAt(vs, i, vs[i].value);
    }
  }

  /**
   * The loop of `main` over the frames: stop at the first with a `V`
   * field and try to read it as millivolts.
   */
  method Search(frames: seq<string>) returns (o: Outcome)
    ensures o == Decide(frames)
  {
    if frames == [] {
      return NoFrames;
    }
    var vs := VoltageFields(frames);
    var i := FindFirst(vs);
    assert FirstVoltage(frames) == FirstSome(vs);
    if i == |frames| {
      o := NotFound;
    } else {
      var v := vs[i].value;
      match ParseInt(v)
      case Some(mv) =>
        o := Volts(mv);
      case None =>
        o := Invalid(v);
    }
  }

  /** `main`: split the log into frames, search them, and print the outcome. */
  method ParseLog(raw: string) returns (out: seq<Message>)
    ensures out == Report(raw)
  {
    var frames := Frames(Content(raw));
    var o := Search(frames);
    out := Lines(frames, o);
  }

  // ---------------------------------------------------------------------
  // Properties of the report
  // ---------------------------------------------------------------------

  /** The lines printed for an outcome, by kind of outcome. */
  lemma LinesShape(frames: seq<string>, o: Outcome)
    requires o.NoFrames? <==> frames == []
    ensures |Lines(frames, o)| == 1 <==> o.NoFrames? || o.Volts?
    ensures o.NoFrames? ==> Lines(frames, o) == [NoFramesFound]
    ensures o.Volts? ==> Lines(frames, o) == [VoltageReading(o.mv)]
    ensures o.NotFound? ==>
      && |Lines(frames, o)| == 2 + |Listing(frames)|
      && Lines(frames, o)[0] == VoltageNotFound && Lines(frames, o)[1] == KeysHeading
      && Lines(frames, o)[2..] == Listing(frames)
    ensures o.Invalid? ==>
      && |Lines(frames, o)| == 3 + |Listing(frames)|
      && Lines(frames, o)[0] == InvalidVoltage(o.raw) && Lines(frames, o)[1] == VoltageNotFound
      && Lines(frames, o)[2] == KeysHeading && Lines(frames, o)[3..] == Listing(frames)
  {
    var l := Listing(frames);
    if frames != [] {
      assert |l| >= 1;
    }
    match o
    case NoFrames =>
    case Volts(_) =>
    case NotFound =>
      PairThen(VoltageNotFound, KeysHeading, l);
    case Invalid(v) =>
      PairThen(VoltageNotFound, KeysHeading, l);
      assert Lines(frames, o) == [InvalidVoltage(v)] + ([VoltageNotFound, KeysHeading] + l);
  }

  /** Two messages in front of a sequence of them. */
  lemma PairThen(a: Message, b: Message, l: seq<Message>)
    ensures |[a, b] + l| == 2 + |l|
    ensures ([a, b] + l)[0] == a && ([a, b] + l)[1] == b && ([a, b] + l)[2..] == l
  {
  }

  /**
   * The report is a single line exactly when there are no frames or the
   * first `V` field is a valid integer, and that line is the voltage or
   * the no-frames message. Otherwise it is the invalid-value line if there
   * is one, the not-found line, the heading and the tag listing of the
   * first three frames.
   */
  lemma ReportShape(raw: string)
    ensures var frames := Frames(Content(raw));
      var o := Decide(frames);
      (|Report(raw)| == 1 <==> o.NoFrames? || o.Volts?)
      && (o.NoFrames? ==> Report(raw) == [NoFramesFound])
      && (o.Volts? ==> Report(raw) == [VoltageReading(o.mv)])
      && (o.NotFound? ==>
            && |Report(raw)| == 2 + |Listing(frames)|
            && Report(raw)[0] == VoltageNotFound && Report(raw)[1] == KeysHeading
            && Report(raw)[2..] == Listing(frames))
      && (o.Invalid? ==>
            && |Report(raw)| == 3 + |Listing(frames)|
            && Report(raw)[0] == InvalidVoltage(o.raw) && Report(raw)[1] == VoltageNotFound
            && Report(raw)[2] == KeysHeading && Report(raw)[3..] == Listing(frames))
  {
    var frames := Frames(Content(raw));
    LinesShape(frames, Decide(frames));
  }

  /**
   * A log that is one frame written as `tag TAB value CR LF` lines, with a
   * `V` field that is a whole number of millivolts, prints exactly that
   * voltage with three decimals.
   */
  lemma OneFrameLog(d: Dict, mv: int)
    requires UniqueKeys(d) && forall i :: 0 <= i < |d| ==> WritableField(d[i])
    requires Lookup(d, "V") == Some(IntToString(mv))
    ensures Report(JoinLines(FieldLines(d), "\r\n")) == [VoltageReading(mv)]
  {
    var raw := JoinLines(FieldLines(d), "\r\n");
    var c := JoinLines(FieldLines(d), "\n");
    var ls := FieldLines(d);
    FieldLinesArePlain(d);
    assert Content(raw) == c by {
      forall i | 0 <= i < |ls| ensures '\r' !in ls[i] {
        assert NoLineBreak(ls[i]);
      }
      TranslateCrLfLines(ls);
      ContentIsTranslated(raw);
    }
    assert Frames(c) == [c] by {
      NoBlankLine(ls);
      assert d != [];
      FieldLineIsPlain(d[0]);
      assert IsKeyChar(d[0].0[0]);
      assert c[0] == ls[0][0];
      SingleFrame(c);
    }
    assert FirstVoltage([c]) == Some((0, IntToString(mv))) by {
      ParseBlockOfFields(d, "\n");
      VoltageFieldAt([c], 0);
      FirstSomeAt(VoltageFields([c]), 0, IntToString(mv));
    }
    assert Decide([c]) == Volts(mv) by {
      ParseIntOfIntToString(mv);
    }
    assert Report(raw) == Lines([c], Volts(mv));
  }

  /** A valid first voltage is reported even when later frames carry other `V` values. */
  lemma FirstFrameDecides(frames: seq<string>, rest: seq<string>, mv: int)
    requires FirstVoltage(frames).Some? && ParseInt(FirstVoltage(frames).value.1) == Some(mv)
    ensures Decide(frames + rest) == Volts(mv)
  {
    FirstVoltageIgnoresLater(frames, rest);
  }

  /** Each listed frame shows its tags in sorted order, each tag once. */
  lemma ListedKeysSorted(frame: string)
    ensures Sorted(SortedKeys(frame))
    ensures forall k :: k in SortedKeys(frame) <==> k in Keys(ParseBlock(frame))
    ensures |SortedKeys(frame)| == |ParseBlock(frame)|
  {
    var ks := SortedKeys(frame);
    SortSorted(Keys(ParseBlock(frame)));
    forall k ensures k in ks <==> k in Keys(ParseBlock(frame)) {
      assert k in ks <==> k in multiset(ks);
      assert k in Keys(ParseBlock(frame)) <==> k in multiset(Keys(ParseBlock(frame)));
    }
    assert |ks| == |multiset(ks)| == |multiset(Keys(ParseBlock(frame)))| == |Keys(ParseBlock(frame))|;
  }
}
