/**
 * `parse_vedirect_block` of vedirect_parse.py: the fields of one frame of
 * a saved log, as an insertion-ordered dictionary from tag to value.
 * Each stripped line is split once at its first run of tabs and spaces;
 * a line without such a run is skipped, and so is a line whose tag is
 * not 1 to 4 of `[A-Z0-9]`. A later line for a tag overwrites the value
 * of an earlier one and keeps that tag's place.
 */
module LogBlock {

  import opened Wrappers
  import opened PyStr
  import opened TagLine

  // ---------------------------------------------------------------------
  // re.split(r"[\t ]+", t, maxsplit=1)
  // ---------------------------------------------------------------------

  /** `[\t ]`: a character of the field separator. */
  predicate IsGap(c: char)
  {
    c == '\t' || c == ' '
  }

  /** `s` holds no separator character. */
  predicate NoGap(s: string)
  {
    forall k :: 0 <= k < |s| ==> !IsGap(s[k])
  }

  /** `s` is made of separator characters only. */
  predicate AllGap(s: string)
  {
    forall k :: 0 <= k < |s| ==> IsGap(s[k])
  }

  /** Index of the first separator character of `t`, or `|t|`. */
  function FirstGap(t: string): (i: nat)
    ensures i <= |t| && NoGap(t[..i])
    ensures i < |t| ==> IsGap(t[i])
  {
    if t == [] || IsGap(t[0]) then 0
    else
      var i := 1 + FirstGap(t[1..]);
      assert t[..i] == [t[0]] + t[1..][..i - 1];
      i
  }

  /** The end of the run of separator characters of `t` that starts at `i`. */
  function GapEnd(t: string, i: nat): (j: nat)
    requires i <= |t|
    ensures i <= j <= |t| && AllGap(t[i..j])
    ensures j < |t| ==> !IsGap(t[j])
    decreases |t| - i
  {
    if i < |t| && IsGap(t[i]) then
      var j := GapEnd(t, i + 1);
      assert t[i..j] == [t[i]] + t[i + 1..j];
      j
    else i
  }

  /**
   * `re.split(r"[\t ]+", t, maxsplit=1)`: `[t]` when `t` has no tab or
   * space; otherwise the text before the first run of them and the text
   * after it, the run being as long as it goes.
   */
  function SplitField(t: string): (parts: seq<string>)
    ensures 1 <= |parts| <= 2
    ensures |parts| == 1 <==> NoGap(t)
    ensures |parts| == 1 ==> parts[0] == t
    ensures |parts| == 2 ==> |parts[0]| + |parts[1]| < |t| && NoGap(parts[0])
    ensures |parts| == 2 ==> t[..|parts[0]|] == parts[0] && t[|t| - |parts[1]|..] == parts[1]
    ensures |parts| == 2 ==> AllGap(t[|parts[0]|..|t| - |parts[1]|])
    ensures |parts| == 2 && parts[1] != [] ==> !IsGap(parts[1][0])
  {
    var i := FirstGap(t);
    if i == |t| then
      assert t[..i] == t;
      [t]
    else
      var j := GapEnd(t, i);
      assert !NoGap(t) by { assert IsGap(t[i]); }
      assert t[|t| - |t[j..]|..] == t[j..];
      assert t[j..] != [] ==> t[j..][0] == t[j];
      [t[..i], t[j..]]
  }

  // ---------------------------------------------------------------------
  // One line
  // ---------------------------------------------------------------------

  /** `VALID_KEY_REGEX.match(key)` with `^[A-Z0-9]{1,4}$`. */
  predicate KeyMatches(key: string)
  {
    IsKey(BeforeFinalNewline(key))
  }

  /** One line of a block: its tag and stripped value when the line is kept. */
  function ParseLine(line: string): (r: Option<(string, string)>)
    ensures r.Some? ==> KeyMatches(r.value.0) && NoEdgeSpace(r.value.1)
  {
    var parts := SplitField(Strip(line));
    if |parts| != 2 then None
    else if KeyMatches(parts[0]) then Some((parts[0], Strip(parts[1])))
    else None
  }

  /**
   * A stripped line without a run of tabs and spaces is dropped; one with
   * such a run is kept exactly when the text in front of it matches the
   * key pattern.
   */
  lemma ParseLineKept(line: string)
    ensures NoGap(Strip(line)) ==> ParseLine(line).None?
    ensures !NoGap(Strip(line)) ==> (ParseLine(line).Some? <==> KeyMatches(SplitField(Strip(line))[0]))
  {
  }

  /**
   * A kept line is its tag, a non-empty run of tabs and spaces, and a rest
   * whose stripped text is the value.
   */
  lemma ParseLineParts(line: string)
    requires ParseLine(line).Some?
    ensures exists g, w ::
      g != [] && AllGap(g) && (w == [] || !IsGap(w[0]))
      && Strip(line) == ParseLine(line).value.0 + g + w && ParseLine(line).value.1 == Strip(w)
  {
    var t := Strip(line);
    var parts := SplitField(t);
    SplitFieldWitness(t);
    assert ParseLine(line).value == (parts[0], Strip(parts[1]));
  }

  /** Two parts of a split are the text in front of a run of tabs and spaces and the text behind it. */
  lemma SplitFieldWitness(t: string)
    requires |SplitField(t)| == 2
    ensures exists g, w ::
      g != [] && AllGap(g) && (w == [] || !IsGap(w[0]))
      && t == SplitField(t)[0] + g + w && Strip(SplitField(t)[1]) == Strip(w)
  {
    var parts := SplitField(t);
    var g := t[|parts[0]|..|t| - |parts[1]|];
    FieldAround(t, parts[0], g, parts[1]);
    FieldWitness(t, parts[0], g, parts[1], Strip(parts[1]));
  }

  /** The tag, run and rest that a kept line is made of. */
  lemma FieldWitness(t: string, k: string, g: string, w: string, v: string)
    requires g != [] && AllGap(g) && (w == [] || !IsGap(w[0]))
    requires t == k + g + w && v == Strip(w)
    ensures exists g', w' :: g' != [] && AllGap(g') && (w' == [] || !IsGap(w'[0])) && t == k + g' + w' && v == Strip(w')
  {
  }

  /** A text is its prefix, the middle and its suffix. */
  lemma FieldAround(t: string, a: string, g: string, b: string)
    requires |a| + |b| <= |t| && t[..|a|] == a && t[|t| - |b|..] == b && g == t[|a|..|t| - |b|]
    ensures t == a + g + b
  {
  }

  /** A line without a line break keeps its tag free of one too, so the tag is 1 to 4 of `[A-Z0-9]`. */
  lemma ParseLineKey(line: string)
    requires NoLineBreak(line) && ParseLine(line).Some?
    ensures IsKey(ParseLine(line).value.0)
  {
    var t := Strip(line);
    StripIsPadding(line);
    var k := ParseLine(line).value.0;
    assert k == t[..|k|];
  }

  /** `tag TAB value` is kept as that tag and value when the value has no whitespace at its edges. */
  lemma ParseLineOfField(k: string, v: string)
    requires IsKey(k) && v != [] && NoEdgeSpace(v)
    ensures ParseLine(k + "\t" + v) == Some((k, v))
  {
    FieldIsStripped(k, v);
    SplitFieldOf(k, v);
    StrippedIsFixed(v);
    KeyMatchesKey(k);
  }

  /** A text without whitespace at its edges is left alone by `strip()`. */
  lemma StrippedIsFixed(v: string)
    requires NoEdgeSpace(v)
    ensures Strip(v) == v
  {
    StripPadded([], v, []);
    assert [] + v + [] == v;
  }

  /** A tag of 1 to 4 of `[A-Z0-9]` matches the key pattern: it does not end in a newline. */
  lemma KeyMatchesKey(k: string)
    requires IsKey(k)
    ensures KeyMatches(k)
  {
    assert IsKeyChar(k[|k| - 1]);
  }

  /** A tag, a tab and a value with no whitespace at its edges is already stripped, and the tag has no separator. */
  lemma FieldIsStripped(k: string, v: string)
    requires IsKey(k) && v != [] && NoEdgeSpace(v)
    ensures Strip(k + "\t" + v) == k + "\t" + v
    ensures NoGap(k)
  {
    var line := k + "\t" + v;
    assert line[0] == k[0] && line[|line| - 1] == v[|v| - 1];
    assert IsKeyChar(k[0]);
    StripPadded([], line, []);
    assert [] + line + [] == line;
    forall i | 0 <= i < |k| ensures !IsGap(k[i]) {
      assert IsKeyChar(k[i]);
    }
  }

  /** A tag, one tab and a value that does not start with a separator split into that tag and value. */
  lemma SplitFieldOf(k: string, v: string)
    requires NoGap(k) && v != [] && !IsGap(v[0])
    ensures SplitField(k + "\t" + v) == [k, v]
  {
    var line := k + "\t" + v;
    assert line == k + ("\t" + v);
    assert line[..|k|] == k;
    FirstGapAt(k, "\t" + v);
    assert line[|k| + 1] == v[0];
    assert GapEnd(line, |k| + 1) == |k| + 1;
    assert GapEnd(line, |k|) == |k| + 1;
    assert line[|k| + 1..] == v;
  }

  /** The first separator of `a + b` is where `b` starts, when `a` has none and `b` starts with one. */
  lemma {:induction false} FirstGapAt(a: string, b: string)
    requires NoGap(a) && b != [] && IsGap(b[0])
    ensures FirstGap(a + b) == |a|
    decreases |a|
  {
    if a != [] {
      assert (a + b)[0] == a[0];
      assert (a + b)[1..] == a[1..] + b;
      FirstGapAt(a[1..], b);
    } else {
      assert a + b == b;
    }
  }

  // ---------------------------------------------------------------------
  // The dictionary
  // ---------------------------------------------------------------------

  /** A Python `dict` from tag to value: its items in insertion order. */
  type Dict = seq<(string, string)>

  /** `d.keys()`, in insertion order. */
  function Keys(d: Dict): (ks: seq<string>)
    ensures |ks| == |d| && forall i :: 0 <= i < |d| ==> ks[i] == d[i].0
  {
    seq(|d|, i requires 0 <= i < |d| => d[i].0)
  }

  /** No tag occurs twice. */
  predicate UniqueKeys(d: Dict)
  {
    forall i, j :: 0 <= i < j < |d| ==> d[i].0 != d[j].0
  }

  /** Index of the first `k` in `ks`, or `|ks|`. */
  function KeyIndex(ks: seq<string>, k: string): (i: nat)
    ensures i <= |ks|
    ensures forall j :: 0 <= j < i ==> ks[j] != k
    ensures i < |ks| ==> ks[i] == k
  {
    if ks == [] || ks[0] == k then 0 else 1 + KeyIndex(ks[1..], k)
  }

  /** The first index of a tag is the same once another tag is appended. */
  lemma KeyIndexAppend(ks: seq<string>, k: string, k': string)
    requires k' != k
    ensures KeyIndex(ks + [k], k') == KeyIndex(ks, k') || (KeyIndex(ks, k') == |ks| && KeyIndex(ks + [k], k') == |ks| + 1)
  {
    var i0 := KeyIndex(ks, k');
    if i0 < |ks| {
      assert (ks + [k])[i0] == k';
    }
  }

  /** `d.get(k)`: the value stored for `k`, if `k` is a tag of `d`. */
  function Lookup(d: Dict, k: string): (r: Option<string>)
    ensures r.None? <==> k !in Keys(d)
  {
    var i := KeyIndex(Keys(d), k);
    if i < |d| then Some(d[i].1) else None
  }

  /** `d[k] = v`: overwrite the value of a tag already present, in place; append a new one. */
  function Put(d: Dict, k: string, v: string): (r: Dict)
    ensures Lookup(r, k) == Some(v)
    ensures forall k' :: k' != k ==> Lookup(r, k') == Lookup(d, k')
    ensures k in Keys(d) ==> Keys(r) == Keys(d)
    ensures k !in Keys(d) ==> Keys(r) == Keys(d) + [k]
    ensures forall i :: 0 <= i < |r| ==> r[i] == (k, v) || (i < |d| && r[i] == d[i])
  {
    var i := KeyIndex(Keys(d), k);
    if i < |d| then
      var r := d[i := (k, v)];
      assert Keys(r) == Keys(d);
      r
    else
      var r := d + [(k, v)];
      assert Keys(r) == Keys(d) + [k];
      forall k' | k' != k ensures Lookup(r, k') == Lookup(d, k') {
        KeyIndexAppend(Keys(d), k, k');
      }
      r
  }

  /** `Put` keeps every tag unique. */
  lemma PutUnique(d: Dict, k: string, v: string)
    requires UniqueKeys(d)
    ensures UniqueKeys(Put(d, k, v))
  {
    var r := Put(d, k, v);
    forall i, j | 0 <= i < j < |r| ensures r[i].0 != r[j].0 {
      assert r[i].0 == Keys(r)[i] && r[j].0 == Keys(r)[j];
    }
  }

  // ---------------------------------------------------------------------
  // A block
  // ---------------------------------------------------------------------

  /** The kept lines of `lines` entered into a dictionary, first to last. */
  function ParseLines(lines: seq<string>): (d: Dict)
    ensures UniqueKeys(d)
    ensures forall i :: 0 <= i < |d| ==> KeyMatches(d[i].0) && NoEdgeSpace(d[i].1)
  {
    if lines == [] then []
    else
      var d := ParseLines(lines[..|lines| - 1]);
      match ParseLine(lines[|lines| - 1])
      case None => d
      case Some(field) =>
        var r := Put(d, field.0, field.1);
        PutUnique(d, field.0, field.1);
        r
  }

  /** `parse_vedirect_block(block)`: the lines of the stripped block, parsed. */
  function ParseBlock(block: string): (d: Dict)
    ensures UniqueKeys(d)
    ensures forall i :: 0 <= i < |d| ==> IsKey(d[i].0) && NoEdgeSpace(d[i].1)
  {
    var lines := SplitLines(Strip(block));
    var d := ParseLines(lines);
    ParseLinesKeys(lines);
    d
  }

  /** Lines without line breaks, as `splitlines()` gives them, give tags of 1 to 4 of `[A-Z0-9]`. */
  lemma {:induction false} ParseLinesKeys(lines: seq<string>)
    requires forall l :: l in lines ==> NoLineBreak(l)
    ensures forall i :: 0 <= i < |ParseLines(lines)| ==> IsKey(ParseLines(lines)[i].0)
  {
    if lines != [] {
      var init := lines[..|lines| - 1];
      var last := lines[|lines| - 1];
      assert forall l :: l in init ==> l in lines;
      ParseLinesKeys(init);
      var d := ParseLines(init);
      match ParseLine(last)
      case None =>
      case Some(field) =>
        ParseLineKey(last);
        PutKeepsKeys(d, field.0, field.1);
    }
  }

  /** Assigning a tag of the key pattern keeps every tag of the dictionary of that pattern. */
  lemma PutKeepsKeys(d: Dict, k: string, v: string)
    requires IsKey(k) && forall i :: 0 <= i < |d| ==> IsKey(d[i].0)
    ensures forall i :: 0 <= i < |Put(d, k, v)| ==> IsKey(Put(d, k, v)[i].0)
  {
  }

  /** The value of the last kept line for tag `k`, if any line for it was kept. */
  function LastField(lines: seq<string>, k: string): Option<string>
  {
    if lines == [] then None
    else
      var f := ParseLine(lines[|lines| - 1]);
      if f.Some? && f.value.0 == k then Some(f.value.1)
      else LastField(lines[..|lines| - 1], k)
  }

  /** Each tag of a block holds the value of its last kept line; later lines overwrite earlier ones. */
  lemma {:induction false} LastFieldWins(lines: seq<string>, k: string)
    ensures Lookup(ParseLines(lines), k) == LastField(lines, k)
  {
    if lines != [] {
      LastFieldWins(lines[..|lines| - 1], k);
    }
  }

  // ---------------------------------------------------------------------
  // Writing a block back
  // ---------------------------------------------------------------------

  /** A field as the device writes it: tag, TAB, value. */
  function FieldLine(f: (string, string)): string
  {
    f.0 + "\t" + f.1
  }

  /** One written line per field, in order. */
  function FieldLines(d: Dict): (lines: seq<string>)
    ensures |lines| == |d| && forall i :: 0 <= i < |d| ==> lines[i] == FieldLine(d[i])
  {
    seq(|d|, i requires 0 <= i < |d| => FieldLine(d[i]))
  }

  /** A field a block can carry: a tag, and a non-empty value on one line without edge whitespace. */
  predicate WritableField(f: (string, string))
  {
    IsKey(f.0) && f.1 != [] && NoEdgeSpace(f.1) && NoLineBreak(f.1)
  }

  /** A written field is one line that neither starts nor ends with whitespace. */
  lemma FieldLineIsPlain(f: (string, string))
    requires WritableField(f)
    ensures FieldLine(f) != [] && NoLineBreak(FieldLine(f)) && NoEdgeSpace(FieldLine(f))
    ensures FieldLine(f)[0] == f.0[0] && FieldLine(f)[|FieldLine(f)| - 1] == f.1[|f.1| - 1]
  {
    var l := FieldLine(f);
    assert IsKeyChar(f.0[0]);
    forall i | 0 <= i < |l| ensures !IsLineBreak(l[i]) {
      if i < |f.0| {
        assert l[i] == f.0[i] && IsKeyChar(f.0[i]);
      } else if i > |f.0| {
        assert l[i] == f.1[i - |f.0| - 1];
      }
    }
  }

  /** Parsing the written lines of distinct writable fields gives the fields back, in order. */
  lemma {:induction false} ParseLinesOfFieldLines(d: Dict)
    requires UniqueKeys(d) && forall i :: 0 <= i < |d| ==> WritableField(d[i])
    ensures ParseLines(FieldLines(d)) == d
  {
    if d != [] {
      var init := d[..|d| - 1];
      var f := d[|d| - 1];
      var ls := FieldLines(d);
      assert ls[..|ls| - 1] == FieldLines(init);
      assert ParseLines(FieldLines(init)) == init by {
        assert forall i :: 0 <= i < |init| ==> init[i] == d[i];
        ParseLinesOfFieldLines(init);
      }
      assert ParseLine(ls[|ls| - 1]) == Some(f) by {
        assert WritableField(f);
        ParseLineOfField(f.0, f.1);
      }
      assert Put(init, f.0, f.1) == d by {
        LastKeyIsNew(d);
        PutNew(init, f.0, f.1);
        FrontLast(d);
      }
    }
  }

  /** With distinct tags, the last tag is not among the earlier ones. */
  lemma LastKeyIsNew(d: Dict)
    requires d != [] && UniqueKeys(d)
    ensures d[|d| - 1].0 !in Keys(d[..|d| - 1])
  {
    var init := d[..|d| - 1];
    forall i | 0 <= i < |init| ensures Keys(init)[i] != d[|d| - 1].0 {
      assert init[i].0 == d[i].0;
    }
  }

  /** `d[k] = v` for a new tag appends the field. */
  lemma PutNew(d: Dict, k: string, v: string)
    requires k !in Keys(d)
    ensures Put(d, k, v) == d + [(k, v)]
  {
    assert KeyIndex(Keys(d), k) == |d|;
  }

  /** The written lines of writable fields are non-empty lines. */
  lemma FieldLinesArePlain(d: Dict)
    requires forall i :: 0 <= i < |d| ==> WritableField(d[i])
    ensures PlainLines(FieldLines(d))
  {
    forall i | 0 <= i < |d| ensures FieldLines(d)[i] != [] && NoLineBreak(FieldLines(d)[i]) {
      FieldLineIsPlain(d[i]);
    }
  }

  /**
   * A block written as one line per field, each ended by the same line
   * terminator, parses back to the fields, for distinct tags and values
   * without line breaks or edge whitespace.
   */
  lemma ParseBlockOfFields(d: Dict, term: string)
    requires IsTerminator(term)
    requires UniqueKeys(d) && forall i :: 0 <= i < |d| ==> WritableField(d[i])
    ensures ParseBlock(JoinLines(FieldLines(d), term)) == d
  {
    ParseLinesOfFieldLines(d);
    FieldBlockLines(d, term);
  }

  /** A block written one field per line splits back into the written lines. */
  lemma FieldBlockLines(d: Dict, term: string)
    requires IsTerminator(term)
    requires forall i :: 0 <= i < |d| ==> WritableField(d[i])
    ensures SplitLines(Strip(JoinLines(FieldLines(d), term))) == FieldLines(d)
  {
    FieldLinesArePlain(d);
    if d == [] {
      assert Strip([]) == [] by { StripPadded([], [], []); }
    } else {
      FieldLineIsPlain(d[0]);
      FieldLineIsPlain(d[|d| - 1]);
      assert IsKeyChar(d[0].0[0]);
      SplitFieldBlock(FieldLines(d), term, d[0].0[0]);
    }
  }

  /** Non-empty lines, each ended by a terminator, split back into those lines once the block is stripped. */
  lemma SplitFieldBlock(ls: seq<string>, term: string, first: char)
    requires IsTerminator(term) && PlainLines(ls) && ls != []
    requires ls[0][0] == first && !IsSpace(first)
    requires NoEdgeSpace(ls[|ls| - 1])
    ensures SplitLines(Strip(JoinLines(ls, term))) == ls
  {
    var init := ls[..|ls| - 1];
    var last := ls[|ls| - 1];
    assert init + [last] == ls;
    JoinLinesSnoc(init, last, term);
    assert PlainLines(init) by {
      forall i | 0 <= i < |init| ensures init[i] != [] && NoLineBreak(init[i]) {
        assert init[i] == ls[i];
      }
    }
    UnterminatedEdges(init, last, term, first);
    StripPadded([], JoinLines(init, term) + last, term);
    assert [] + (JoinLines(init, term) + last) + term == JoinLines(ls, term);
    SplitLinesOfUnterminated(init, last, term);
  }

  /** Lines joined by terminators, the last left open, start and end without whitespace. */
  lemma UnterminatedEdges(init: seq<string>, last: string, term: string, first: char)
    requires PlainLines(init) && last != [] && NoEdgeSpace(last)
    requires (if init == [] then last[0] else init[0][0]) == first && !IsSpace(first)
    ensures NoEdgeSpace(JoinLines(init, term) + last)
  {
    var body := JoinLines(init, term) + last;
    assert body[|body| - 1] == last[|last| - 1];
    if init != [] {
      assert body[0] == init[0][0];
    }
  }
}
