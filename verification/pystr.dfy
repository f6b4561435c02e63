/**
 * The Python string primitives the VE.Direct scripts rely on: decoding a
 * serial line as ASCII with errors ignored, `str.strip()`,
 * `str.splitlines()`, `str.split(sep)`, `str.replace(c, '')`, and `$` of a
 * regular expression without MULTILINE. Strings are sequences of Unicode
 * code points, as in Python 3.
 */
module PyStr {

  import opened Wrappers

  /** One byte of a line returned by `readline()`. */
  type Byte = b: int | 0 <= b < 256

  /** Python's `str.isspace()`: the characters `strip()` removes. */
  predicate IsSpace(c: char)
  {
    var n := c as int;
    || 9 <= n <= 13
    || 28 <= n <= 32
    || n == 0x85 || n == 0xA0 || n == 0x1680
    || 0x2000 <= n <= 0x200A
    || n == 0x2028 || n == 0x2029 || n == 0x202F || n == 0x205F || n == 0x3000
  }

  /** The characters at which `str.splitlines()` breaks a string. */
  predicate IsLineBreak(c: char)
  {
    var n := c as int;
    || 10 <= n <= 13
    || 28 <= n <= 30
    || n == 0x85 || n == 0x2028 || n == 0x2029
  }

  predicate AllSpace(s: string)
  {
    forall k :: 0 <= k < |s| ==> IsSpace(s[k])
  }

  /** `s` neither starts nor ends with whitespace: what `strip()` returns. */
  predicate NoEdgeSpace(s: string)
  {
    s == [] || (!IsSpace(s[0]) && !IsSpace(s[|s| - 1]))
  }

  predicate NoLineBreak(s: string)
  {
    forall k :: 0 <= k < |s| ==> !IsLineBreak(s[k])
  }

  predicate IsAscii(s: string)
  {
    forall k :: 0 <= k < |s| ==> s[k] as int < 128
  }

  // ---------------------------------------------------------------------
  // bytes.decode('ascii', errors='ignore')
  // ---------------------------------------------------------------------

  /** Decodes a line as ASCII, silently dropping every byte above 127. */
  function AsciiDecode(raw: seq<Byte>): (s: string)
    ensures IsAscii(s)
    ensures |s| <= |raw|
    ensures (forall k :: 0 <= k < |raw| ==> raw[k] < 128) ==> |s| == |raw|
  {
    if raw == [] then []
    else (if raw[0] < 128 then [raw[0] as char] else []) + AsciiDecode(raw[1..])
  }

  /** The bytes of an ASCII string, as a device would send them. */
  function AsciiEncode(s: string): (raw: seq<Byte>)
    requires IsAscii(s)
    ensures |raw| == |s|
  {
    if s == [] then [] else [s[0] as int] + AsciiEncode(s[1..])
  }

  /** Decoding undoes encoding for every ASCII string. */
  lemma {:induction false} AsciiRoundTrip(s: string)
    requires IsAscii(s)
    ensures AsciiDecode(AsciiEncode(s)) == s
  {
    if s != [] {
      AsciiRoundTrip(s[1..]);
      assert AsciiEncode(s)[1..] == AsciiEncode(s[1..]);
    }
  }

  /** Decoding works byte by byte, so it distributes over concatenation. */
  lemma {:induction false} AsciiDecodeAppend(a: seq<Byte>, b: seq<Byte>)
    ensures AsciiDecode(a + b) == AsciiDecode(a) + AsciiDecode(b)
  {
    if a != [] {
      assert (a + b)[0] == a[0];
      assert (a + b)[1..] == a[1..] + b;
      AsciiDecodeAppend(a[1..], b);
    } else {
      assert a + b == b;
    }
  }

  /** A byte above 127 anywhere in a line is dropped without a trace. */
  lemma AsciiDecodeIgnoresHighByte(a: seq<Byte>, x: Byte, b: seq<Byte>)
    requires x >= 128
    ensures AsciiDecode(a + [x] + b) == AsciiDecode(a + b)
  {
    AsciiDecodeAppend(a + [x], b);
    AsciiDecodeAppend(a, [x]);
    AsciiDecodeAppend(a, b);
    assert AsciiDecode([x]) == [];
  }

  // ---------------------------------------------------------------------
  // str.strip()
  // ---------------------------------------------------------------------

  /** Number of whitespace characters at the start of `s`. */
  function LeadingSpaces(s: string): (n: nat)
    ensures n <= |s|
    ensures AllSpace(s[..n])
    ensures n < |s| ==> !IsSpace(s[n])
  {
    if s != [] && IsSpace(s[0]) then
      var n := 1 + LeadingSpaces(s[1..]);
      assert s[..n] == [s[0]] + s[1..][..n - 1];
      n
    else 0
  }

  /** Number of whitespace characters at the end of `s`. */
  function TrailingSpaces(s: string): (n: nat)
    ensures n <= |s|
    ensures AllSpace(s[|s| - n..])
    ensures n < |s| ==> !IsSpace(s[|s| - n - 1])
  {
    if s != [] && IsSpace(s[|s| - 1]) then
      var p := s[..|s| - 1];
      var n := 1 + TrailingSpaces(p);
      SuffixOfFront(s, n);
      n
    else 0
  }

  /**
   * Python's `str.strip()` with no argument: the text left once all
   * leading and trailing whitespace is removed.
   */
  function Strip(s: string): (r: string)
    ensures NoEdgeSpace(r)
    ensures |r| <= |s|
  {
    var t := s[LeadingSpaces(s)..];
    var r := t[..|t| - TrailingSpaces(t)];
    assert r == [] || r[0] == t[0];
    r
  }

  /** A text that starts with a non-whitespace character is not blank. */
  lemma StripNotBlank(s: string)
    requires s != [] && !IsSpace(s[0])
    ensures Strip(s) != []
  {
    assert LeadingSpaces(s) == 0;
    assert s[0..] == s;
  }

  /** What Strip removes is whitespace only, in front of and behind its result. */
  lemma StripIsPadding(s: string)
    ensures Padding(s, LeadingSpaces(s), Strip(s))
  {
    var i := LeadingSpaces(s);
    var t := s[i..];
    var n := TrailingSpaces(t);
    var r := Strip(s);
    assert r == t[..|t| - n];
    DropTake(s, i, |r|);
    DropDrop(s, i, |r|);
  }

  /** The last `m` elements are the last `m - 1` of the front, then the last element. */
  lemma SuffixOfFront<T>(s: seq<T>, m: nat)
    requires 1 <= m <= |s|
    ensures s[|s| - m..] == s[..|s| - 1][|s| - m..] + [s[|s| - 1]]
  {
  }

  /** Taking after dropping is slicing. */
  lemma DropTake<T>(s: seq<T>, i: nat, m: nat)
    requires i + m <= |s|
    ensures s[i..][..m] == s[i..i + m]
  {
  }

  /** Dropping twice is dropping once. */
  lemma DropDrop<T>(s: seq<T>, i: nat, j: nat)
    requires i + j <= |s|
    ensures s[i..][j..] == s[i + j..]
  {
  }

  /** `s` is `r` with only whitespace in front (`i` characters) and behind. */
  predicate Padding(s: string, i: nat, r: string)
  {
    && i + |r| <= |s|
    && s[i..i + |r|] == r
    && AllSpace(s[..i])
    && AllSpace(s[i + |r|..])
  }

  /** Strip removes exactly the whitespace padding around a stripped text. */
  lemma StripPadded(w1: string, t: string, w2: string)
    requires AllSpace(w1) && AllSpace(w2) && NoEdgeSpace(t)
    ensures Strip(w1 + t + w2) == t
  {
    var s := w1 + t + w2;
    if t == [] {
      assert s == w1 + w2 + [];
      assert AllSpace(w1 + w2) by {
        assert forall k :: 0 <= k < |w1| ==> (w1 + w2)[k] == w1[k];
        assert forall k :: |w1| <= k < |w1 + w2| ==> (w1 + w2)[k] == w2[k - |w1|];
      }
      LeadingSpacesOf(w1 + w2, []);
      assert s[|s|..] == [];
    } else {
      assert LeadingSpaces(s) == |w1| by {
        assert s == w1 + (t + w2);
        LeadingSpacesOf(w1, t + w2);
      }
      var u := s[|w1|..];
      assert u == t + w2;
      assert TrailingSpaces(u) == |w2| by {
        TrailingSpacesOf(t, w2);
      }
      assert u[..|u| - |w2|] == t;
    }
  }

  /** Leading whitespace ends where the first non-space character is. */
  lemma {:induction false} LeadingSpacesOf(w: string, rest: string)
    requires AllSpace(w)
    requires rest == [] || !IsSpace(rest[0])
    ensures LeadingSpaces(w + rest) == |w|
    decreases |w|
  {
    if w != [] {
      assert (w + rest)[0] == w[0];
      assert (w + rest)[1..] == w[1..] + rest;
      LeadingSpacesOf(w[1..], rest);
    } else {
      assert w + rest == rest;
    }
  }

  /** Trailing whitespace starts after the last non-space character. */
  lemma {:induction false} TrailingSpacesOf(rest: string, w: string)
    requires AllSpace(w)
    requires rest == [] || !IsSpace(rest[|rest| - 1])
    ensures TrailingSpaces(rest + w) == |w|
    decreases |w|
  {
    if w != [] {
      var p := w[..|w| - 1];
      assert (rest + w)[|rest + w| - 1] == w[|w| - 1];
      assert (rest + w)[..|rest + w| - 1] == rest + p;
      TrailingSpacesOf(rest, p);
    } else {
      assert rest + w == rest;
    }
  }

  /** Stripping twice is stripping once. */
  lemma StripIdempotent(s: string)
    ensures Strip(Strip(s)) == Strip(s)
  {
    StripPadded([], Strip(s), []);
    assert [] + Strip(s) + [] == Strip(s);
  }

  // ---------------------------------------------------------------------
  // str.splitlines()
  // ---------------------------------------------------------------------

  /** Index of the first line break in `s`, or `|s|` when there is none. */
  function FirstBreak(s: string): (j: nat)
    ensures j <= |s|
    ensures NoLineBreak(s[..j])
    ensures j < |s| ==> IsLineBreak(s[j])
  {
    if s == [] || IsLineBreak(s[0]) then 0
    else
      var j := 1 + FirstBreak(s[1..]);
      assert s[..j] == [s[0]] + s[1..][..j - 1];
      j
  }

  /**
   * Python's `str.splitlines()`: the lines of `s` without their
   * terminators, where `\r\n` counts as one terminator and a final
   * terminator does not start an empty last line.
   */
  function SplitLines(s: string): (lines: seq<string>)
    ensures forall i :: 0 <= i < |lines| ==> NoLineBreak(lines[i])
    ensures s != [] ==> lines != []
    decreases |s|
  {
    if s == [] then []
    else
      var j := FirstBreak(s);
      if j == |s| then [s]
      else
        var next := if s[j] == '\r' && j + 1 < |s| && s[j + 1] == '\n' then j + 2 else j + 1;
        [s[..j]] + SplitLines(s[next..])
  }

  /** The line terminators a VE.Direct device or a log file may use. */
  predicate IsTerminator(term: string)
  {
    term == "\n" || term == "\r\n" || term == "\r"
  }

  /** Each line followed by the terminator `term`. */
  function JoinLines(lines: seq<string>, term: string): string
  {
    if lines == [] then [] else lines[0] + term + JoinLines(lines[1..], term)
  }

  /** Splitting terminated lines gives the lines back, whatever the terminator. */
  lemma {:induction false} SplitLinesOfJoin(lines: seq<string>, term: string)
    requires IsTerminator(term)
    requires forall l :: l in lines ==> NoLineBreak(l)
    ensures SplitLines(JoinLines(lines, term)) == lines
    decreases |lines|
  {
    if lines != [] {
      assert forall l :: l in lines[1..] ==> NoLineBreak(l) by {
        assert forall l :: l in lines[1..] ==> l in lines;
      }
      SplitLinesOfJoin(lines[1..], term);
      JoinStep(lines, term);
    }
  }

  /** The step of `SplitLinesOfJoin`: the first line splits off in front of the others. */
  lemma JoinStep(lines: seq<string>, term: string)
    requires IsTerminator(term)
    requires lines != [] && forall l :: l in lines ==> NoLineBreak(l)
    requires SplitLines(JoinLines(lines[1..], term)) == lines[1..]
    ensures SplitLines(JoinLines(lines, term)) == lines
  {
    var rest := JoinLines(lines[1..], term);
    assert term == "\r" && rest != [] ==> rest[0] != '\n' by {
      if rest != [] {
        assert rest == lines[1] + term + JoinLines(lines[2..], term);
        if lines[1] == [] {
          assert rest[0] == term[0];
        } else {
          assert rest[0] == lines[1][0];
          assert lines[1] in lines;
        }
      }
    }
    assert NoLineBreak(lines[0]) by {
      assert lines[0] in lines;
    }
    SplitLinesCons(lines[0], term, rest);
    assert JoinLines(lines, term) == lines[0] + term + rest;
    HeadTail(lines);
  }

  /** A non-empty sequence is its head followed by its tail. */
  lemma HeadTail<T>(s: seq<T>)
    requires s != []
    ensures [s[0]] + s[1..] == s
  {
  }

  /** One terminated line in front of `rest` adds that line in front of rest's lines. */
  lemma SplitLinesCons(l: string, term: string, rest: string)
    requires NoLineBreak(l) && IsTerminator(term)
    requires term == "\r" && rest != [] ==> rest[0] != '\n'
    ensures SplitLines(l + term + rest) == [l] + SplitLines(rest)
  {
    var s := l + term + rest;
    var j := |l|;
    assert s == l + (term + rest);
    assert FirstBreak(s) == j by {
      FirstBreakAt(l, term + rest);
    }
    var next := j + |term|;
    assert s[j] == term[0];
    assert s[j] == '\r' && j + 1 < |s| && s[j + 1] == '\n' <==> term == "\r\n" by {
      if term == "\r\n" {
        assert s[j + 1] == '\n';
      } else if term == "\r" {
        assert j + 1 < |s| ==> s[j + 1] == rest[0];
      }
    }
    assert s[..j] == l && s[next..] == rest by {
      Halves(l, term + rest);
      Halves(term, rest);
      DropDrop(s, j, |term|);
    }
    SplitLinesAt(s, j, next);
  }

  /** One step of `SplitLines`: the line up to the first break, then the lines after its terminator. */
  lemma SplitLinesAt(s: string, j: nat, next: nat)
    requires j < |s| && FirstBreak(s) == j
    requires next == if s[j] == '\r' && j + 1 < |s| && s[j + 1] == '\n' then j + 2 else j + 1
    ensures SplitLines(s) == [s[..j]] + SplitLines(s[next..])
  {
    assert s != [] && j != |s|;
  }

  /** The two halves of a concatenation come back out of it. */
  lemma Halves<T>(a: seq<T>, b: seq<T>)
    ensures (a + b)[..|a|] == a && (a + b)[|a|..] == b
  {
  }

  /** The first line break of `l + rest` is where `rest` starts, when it starts with one. */
  lemma {:induction false} FirstBreakAt(l: string, rest: string)
    requires NoLineBreak(l)
    requires rest != [] && IsLineBreak(rest[0])
    ensures FirstBreak(l + rest) == |l|
    decreases |l|
  {
    var s := l + rest;
    if l == [] {
      assert s == rest;
    } else {
      assert s[0] == l[0] && !IsLineBreak(l[0]);
      assert s[1..] == l[1..] + rest;
      assert NoLineBreak(l[1..]) by {
        forall k | 0 <= k < |l[1..]| ensures !IsLineBreak(l[1..][k]) {
          assert l[1..][k] == l[k + 1];
        }
      }
      FirstBreakAt(l[1..], rest);
      assert FirstBreak(s) == 1 + FirstBreak(s[1..]);
    }
  }

  /** A text without line breaks is one line. */
  lemma {:induction false} SplitLinesSingle(l: string)
    requires l != [] && NoLineBreak(l)
    ensures SplitLines(l) == [l]
  {
    FirstBreakNone(l);
  }

  /** A text without line breaks has its first break at its end. */
  lemma {:induction false} FirstBreakNone(l: string)
    requires NoLineBreak(l)
    ensures FirstBreak(l) == |l|
    decreases |l|
  {
    if l != [] {
      assert !IsLineBreak(l[0]);
      FirstBreakNone(l[1..]);
    }
  }

  /** Terminating one more line appends it and the terminator. */
  lemma {:induction false} JoinLinesSnoc(lines: seq<string>, l: string, term: string)
    ensures JoinLines(lines + [l], term) == JoinLines(lines, term) + l + term
    decreases |lines|
  {
    if lines == [] {
      assert [] + [l] == [l];
      assert [l][1..] == [];
    } else {
      assert (lines + [l])[0] == lines[0];
      assert (lines + [l])[1..] == lines[1..] + [l];
      JoinLinesSnoc(lines[1..], l, term);
    }
  }

  /** Every line of `lines` is non-empty and has no line break. */
  predicate PlainLines(lines: seq<string>)
  {
    forall i :: 0 <= i < |lines| ==> lines[i] != [] && NoLineBreak(lines[i])
  }

  /**
   * Lines with terminators between them and none after the last split
   * back into those lines, when every line is non-empty.
   */
  lemma {:induction false} SplitLinesOfUnterminated(init: seq<string>, last: string, term: string)
    requires IsTerminator(term)
    requires PlainLines(init)
    requires last != [] && NoLineBreak(last)
    ensures SplitLines(JoinLines(init, term) + last) == init + [last]
    decreases |init|
  {
    if init == [] {
      assert JoinLines(init, term) + last == last;
      SplitLinesSingle(last);
    } else {
      PlainLinesTail(init);
      SplitLinesOfUnterminated(init[1..], last, term);
      UnterminatedStep(init, last, term);
    }
  }

  /** The lines after the first of plain lines are plain. */
  lemma PlainLinesTail(lines: seq<string>)
    requires lines != [] && PlainLines(lines)
    ensures lines[0] != [] && NoLineBreak(lines[0])
    ensures PlainLines(lines[1..])
  {
    forall i | 0 <= i < |lines[1..]| ensures lines[1..][i] != [] && NoLineBreak(lines[1..][i]) {
      assert lines[1..][i] == lines[i + 1];
    }
  }

  /** The step of `SplitLinesOfUnterminated`: the first line splits off in front of the others. */
  lemma UnterminatedStep(init: seq<string>, last: string, term: string)
    requires IsTerminator(term)
    requires init != [] && init[0] != [] && NoLineBreak(init[0]) && PlainLines(init[1..])
    requires last != [] && NoLineBreak(last)
    requires SplitLines(JoinLines(init[1..], term) + last) == init[1..] + [last]
    ensures SplitLines(JoinLines(init, term) + last) == init + [last]
  {
    var rest := JoinLines(init[1..], term) + last;
    assert JoinLines(init, term) + last == init[0] + term + rest by {
      assert JoinLines(init, term) == init[0] + term + JoinLines(init[1..], term);
      AppendAssoc(init[0] + term, JoinLines(init[1..], term), last);
    }
    assert SplitLines(init[0] + term + rest) == [init[0]] + SplitLines(rest) by {
      UnterminatedStart(init[1..], last, term);
      SplitLinesCons(init[0], term, rest);
    }
    ConsSnoc(init, last);
  }

  /** A non-empty sequence is its front followed by its last element. */
  lemma FrontLast<T>(s: seq<T>)
    requires s != []
    ensures s[..|s| - 1] + [s[|s| - 1]] == s
  {
  }

  /** Putting the head back on the tail, then appending `x`, is appending `x`. */
  lemma ConsSnoc<T>(s: seq<T>, x: T)
    requires s != []
    ensures [s[0]] + (s[1..] + [x]) == s + [x]
  {
  }

  /** Such a text starts with a character that is not a line break. */
  lemma UnterminatedStart(init: seq<string>, last: string, term: string)
    requires PlainLines(init)
    requires last != [] && NoLineBreak(last)
    ensures JoinLines(init, term) + last != []
    ensures !IsLineBreak((JoinLines(init, term) + last)[0])
  {
    if init != [] {
      assert init[0] != [] && NoLineBreak(init[0]);
      assert (JoinLines(init, term) + last)[0] == init[0][0];
    }
  }

  // ---------------------------------------------------------------------
  // str.split(sep), str.replace(c, '')
  // ---------------------------------------------------------------------

  /** `sep` occurs in `s` starting at index `j`. */
  predicate OccursAt(s: string, sep: string, j: int)
  {
    0 <= j && j + |sep| <= |s| && s[j..j + |sep|] == sep
  }

  predicate Contains(s: string, sep: string)
  {
    exists j :: 0 <= j <= |s| && OccursAt(s, sep, j)
  }

  /** The leftmost occurrence of `sep` in `s`. */
  function Find(s: string, sep: string): (r: Option<nat>)
    requires sep != []
    ensures r.Some? ==> OccursAt(s, sep, r.value) && forall j :: 0 <= j < r.value ==> !OccursAt(s, sep, j)
    ensures r.None? ==> !Contains(s, sep)
    decreases |s|
  {
    if |s| < |sep| then None
    else if s[..|sep|] == sep then Some(0)
    else
      match Find(s[1..], sep)
      case None =>
        forall j | 0 < j {
          OccursShift(s, sep, j);
        }
        None
      case Some(i) =>
        OccursShift(s, sep, i + 1);
        forall j | 0 < j < i + 1 {
          OccursShift(s, sep, j);
        }
        Some(i + 1)
  }

  /** An occurrence after the first character is an occurrence in the rest, one place earlier. */
  lemma OccursShift(s: string, sep: string, j: int)
    requires s != [] && 0 < j
    ensures OccursAt(s, sep, j) <==> OccursAt(s[1..], sep, j - 1)
  {
    if j + |sep| <= |s| {
      assert s[1..][j - 1..j - 1 + |sep|] == s[j..j + |sep|];
    }
  }

  /**
   * Python's `str.split(sep)` with an explicit separator: the pieces
   * between the non-overlapping occurrences of `sep`, left to right.
   */
  function Split(s: string, sep: string): (parts: seq<string>)
    requires sep != []
    ensures |parts| >= 1
    ensures forall p :: p in parts ==> !Contains(p, sep)
    ensures forall k :: 0 <= k < |parts| - 1 ==> !Contains(parts[k] + sep[..|sep| - 1], sep)
    decreases |s|
  {
    match Find(s, sep)
    case None => [s]
    case Some(i) =>
      var head := s[..i];
      assert !Contains(head, sep) by {
        forall j | OccursAt(head, sep, j) ensures OccursAt(s, sep, j) {
          assert head[j..j + |sep|] == s[j..j + |sep|];
        }
      }
      LeftmostCut(s, sep, i);
      var rest := Split(s[i + |sep|..], sep);
      var parts := [head] + rest;
      assert forall k :: 1 <= k < |parts| ==> parts[k] == rest[k - 1];
      parts
  }

  /**
   * The cut is leftmost: the piece in front of the first occurrence,
   * followed by all but the last character of the separator, holds no
   * occurrence of it.
   */
  lemma LeftmostCut(s: string, sep: string, i: nat)
    requires sep != [] && Find(s, sep) == Some(i)
    ensures !Contains(s[..i] + sep[..|sep| - 1], sep)
  {
    var t := s[..i] + sep[..|sep| - 1];
    assert t == s[..i + |sep| - 1];
    forall j | 0 <= j <= |t| ensures !OccursAt(t, sep, j) {
      if j + |sep| <= |t| {
        assert j < i;
        assert t[j..j + |sep|] == s[j..j + |sep|];
        assert !OccursAt(s, sep, j);
      }
    }
  }

  /** Python's `sep.join(parts)`. */
  function Join(parts: seq<string>, sep: string): string
  {
    if parts == [] then []
    else if |parts| == 1 then parts[0]
    else parts[0] + sep + Join(parts[1..], sep)
  }

  /** Joining the pieces of a split with the separator restores the text. */
  lemma {:induction false} JoinOfSplit(s: string, sep: string)
    requires sep != []
    ensures Join(Split(s, sep), sep) == s
    decreases |s|
  {
    match Find(s, sep)
    case None =>
      assert Split(s, sep) == [s];
    case Some(i) =>
      var tail := s[i + |sep|..];
      var rest := Split(tail, sep);
      assert Split(s, sep) == [s[..i]] + rest;
      JoinOfSplit(tail, sep);
      assert ([s[..i]] + rest)[1..] == rest;
      assert Join([s[..i]] + rest, sep) == s[..i] + sep + Join(rest, sep);
      assert s[i..i + |sep|] == sep;
      Pieces(s, i, i + |sep|);
  }

  /** A sequence is its pieces before `i`, from `i` to `j` and from `j` on. */
  lemma Pieces<T>(s: seq<T>, i: nat, j: nat)
    requires i <= j <= |s|
    ensures s == s[..i] + s[i..j] + s[j..]
  {
  }

  /** Python's `s.replace(c, '')`. */
  function RemoveAll(s: string, c: char): (r: string)
    ensures c !in r
    ensures |r| <= |s|
    ensures forall x :: x != c ==> (x in r <==> x in s)
    ensures multiset(r) == multiset(s)[c := 0]
  {
    if s == [] then []
    else
      var r := (if s[0] == c then [] else [s[0]]) + RemoveAll(s[1..], c);
      assert s == [s[0]] + s[1..];
      r
  }

  /** Removal works piece by piece, so the kept characters stay in their order. */
  lemma {:induction false} RemoveAllAppend(a: string, b: string, c: char)
    ensures RemoveAll(a + b, c) == RemoveAll(a, c) + RemoveAll(b, c)
    decreases |a|
  {
    if a == [] {
      assert a + b == b;
    } else {
      assert (a + b)[0] == a[0] && (a + b)[1..] == a[1..] + b;
      RemoveAllAppend(a[1..], b, c);
      AppendAssoc(if a[0] == c then [] else [a[0]], RemoveAll(a[1..], c), RemoveAll(b, c));
    }
  }

  /** Removing a character that does not occur changes nothing. */
  lemma {:induction false} RemoveAllAbsent(s: string, c: char)
    requires c !in s
    ensures RemoveAll(s, c) == s
  {
    if s != [] {
      assert c !in s[1..];
      RemoveAllAbsent(s[1..], c);
      assert s == [s[0]] + s[1..];
    }
  }

  // ---------------------------------------------------------------------
  // Regular expressions
  // ---------------------------------------------------------------------

  /**
   * The text a pattern anchored with `^...$` must match in full: without
   * MULTILINE, Python's `$` matches at the end of the string and also just
   * before a newline that ends it.
   */
  function BeforeFinalNewline(s: string): (b: string)
    ensures s == b || s == b + "\n"
    ensures s != [] && s[|s| - 1] == '\n' ==> s == b + "\n"
    ensures s == [] || s[|s| - 1] != '\n' ==> b == s
  {
    if s != [] && s[|s| - 1] == '\n' then s[..|s| - 1] else s
  }

  /** Index of the first occurrence of `c` in `s`, or `|s|`. */
  function IndexOf(s: string, c: char): (i: nat)
    ensures i <= |s|
    ensures c !in s[..i]
    ensures i < |s| ==> s[i] == c
  {
    if s == [] || s[0] == c then 0
    else
      var i := 1 + IndexOf(s[1..], c);
      assert s[..i] == [s[0]] + s[1..][..i - 1];
      i
  }
}
