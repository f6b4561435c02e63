/**
 * What the polling scripts get from `ser.readline()`: a line of bytes
 * (empty when the read timed out with nothing received), or an exception
 * raised by the port. A run of the port is a finite sequence of reads.
 */
module Serial {

  import opened PyStr

  datatype Read =
    | Line(bytes: seq<Byte>)   // what `readline()` returned; `b''` on a timeout
    | Fault                    // `readline()` raised

  /** The read a timeout gives: `readline()` returns `b''`, which is falsy. */
  const Timeout: Read := Line([])

  /** A read that carries a line, the only kind the loops pass on to a pattern. */
  predicate HasLine(r: Read)
  {
    r.Line? && r.bytes != []
  }

  /**
   * How many reads one poll consumes: the reads of lines, up to and
   * including the first read that ends the poll (a timeout ends it with
   * `break`, a fault by leaving the `try`), or all of them when none does.
   */
  function BatchLength(rs: seq<Read>): (n: nat)
    ensures n <= |rs|
    ensures rs != [] ==> n >= 1
    ensures forall j :: 0 <= j < n - 1 ==> HasLine(rs[j])
    ensures (n >= 1 && !HasLine(rs[n - 1])) || (n == |rs| && forall j :: 0 <= j < n ==> HasLine(rs[j]))
  {
    if rs == [] then 0
    else if !HasLine(rs[0]) then 1
    else 1 + BatchLength(rs[1..])
  }

  /** The lines carried by `rs`, in order, with timeouts and faults dropped. */
  function Payloads(rs: seq<Read>): (lines: seq<seq<Byte>>)
    ensures |lines| <= |rs|
    ensures forall i :: 0 <= i < |lines| ==> lines[i] != []
  {
    if rs == [] then []
    else
      var last := rs[|rs| - 1];
      Payloads(rs[..|rs| - 1]) + (if HasLine(last) then [last.bytes] else [])
  }

  /** Reading `a` then `b` carries the lines of `a`, then those of `b`. */
  lemma {:induction false} PayloadsAppend(a: seq<Read>, b: seq<Read>)
    ensures Payloads(a + b) == Payloads(a) + Payloads(b)
    decreases |b|
  {
    if b == [] {
      assert a + b == a;
    } else {
      var b' := b[..|b| - 1];
      assert (a + b)[..|a + b| - 1] == a + b';
      assert (a + b)[|a + b| - 1] == b[|b| - 1];
      PayloadsAppend(a, b');
    }
  }

  /** A poll that reaches read `i` with a line goes on to the next read. */
  lemma BatchLengthStep(rs: seq<Read>, i: nat)
    requires i < |rs|
    ensures HasLine(rs[i]) ==> BatchLength(rs[i..]) == 1 + BatchLength(rs[i + 1..])
    ensures !HasLine(rs[i]) ==> BatchLength(rs[i..]) == 1
  {
    assert rs[i..][0] == rs[i];
    assert rs[i..][1..] == rs[i + 1..];
  }
}
