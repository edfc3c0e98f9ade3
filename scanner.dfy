/**
 * Finding packet bodies in free text.  The source uses
 * `re.findall(r'\(\(<<(.*)>>\)\)', text, flags=re.MULTILINE)`: `.` does not
 * match a newline and `.*` is greedy, so on each line the body is the text
 * between the first "((<<" and the last ">>))" that starts at or after the
 * end of that "((<<"; a packet broken over two lines is not found.
 */
module Scanner {
  import opened Common
  import opened Fields

  const Open: string := "((<<"
  const Close: string := ">>))"

  predicate OccursAt(s: string, pat: string, i: int) {
    0 <= i && i + |pat| <= |s| && s[i..i + |pat|] == pat
  }

  /** The first position at or after `from` where `pat` occurs. */
  function FindFirst(s: string, pat: string, from: nat): (r: Option<nat>)
    ensures r.Some? ==> from <= r.value && OccursAt(s, pat, r.value)
    ensures r.Some? ==> forall k :: from <= k < r.value ==> !OccursAt(s, pat, k)
    ensures r.None? ==> forall k :: from <= k ==> !OccursAt(s, pat, k)
    decreases |s| - from
  {
    if from + |pat| > |s| then None
    else if OccursAt(s, pat, from) then Some(from)
    else FindFirst(s, pat, from + 1)
  }

  /** The last position at or after `from` where `pat` occurs and ends by `end`. */
  function FindLast(s: string, pat: string, from: nat, end: nat): (r: Option<nat>)
    requires end <= |s|
    ensures r.Some? ==> from <= r.value && r.value + |pat| <= end && OccursAt(s, pat, r.value)
    ensures r.Some? ==> forall k :: r.value < k && k + |pat| <= end ==> !OccursAt(s, pat, k)
    ensures r.None? ==> forall k :: from <= k && k + |pat| <= end ==> !OccursAt(s, pat, k)
    decreases end
  {
    if end < from + |pat| then None
    else if OccursAt(s, pat, end - |pat|) then Some(end - |pat|)
    else if end == 0 then None
    else FindLast(s, pat, from, end - 1)
  }

  /** The body one line yields, if it holds a packet. */
  function LineBody(line: string): (r: Option<string>)
    ensures r.Some? ==> exists i :: OccursAt(line, Open, i) &&
                                   i + 8 + |r.value| <= |line| &&
                                   line[i + 4..i + 4 + |r.value|] == r.value &&
                                   OccursAt(line, Close, i + 4 + |r.value|)
    ensures FindFirst(line, Open, 0).None? ==> r.None?
  {
    match FindFirst(line, Open, 0)
    case None => None
    case Some(i) =>
      match FindLast(line, Close, i + 4, |line|)
      case None => None
      case Some(j) => Some(line[i + 4..j])
  }

  function LineBodies(line: string): seq<string> {
    match LineBody(line)
    case None => []
    case Some(b) => [b]
  }

  /** Every packet body in `text`, in the order they occur. */
  function Bodies(text: string): (r: seq<string>)
    ensures forall k :: 0 <= k < |r| ==> NoChar(r[k], '\n')
    decreases |text|
  {
    match FindFirst(text, "\n", 0)
    case None =>
      NoNewlineBefore(text, |text|);
      LineBodiesNoNewline(text);
      LineBodies(text)
    case Some(k) =>
      NoNewlineBefore(text, k);
      LineBodiesNoNewline(text[..k]);
      LineBodies(text[..k]) + Bodies(text[k + 1..])
  }

  lemma NoNewlineBefore(text: string, n: nat)
    requires n <= |text|
    requires forall m :: 0 <= m < n ==> !OccursAt(text, "\n", m)
    ensures NoChar(text[..n], '\n')
  {
    forall m | 0 <= m < n ensures text[..n][m] != '\n' {
      assert text[m..m + 1] == [text[m]];
      assert !OccursAt(text, "\n", m);
      assert text[..n][m] == text[m];
    }
  }

  lemma LineBodiesNoNewline(line: string)
    requires NoChar(line, '\n')
    ensures forall k :: 0 <= k < |LineBodies(line)| ==> NoChar(LineBodies(line)[k], '\n')
  {
    if b :| LineBody(line) == Some(b) {
      var i :| OccursAt(line, Open, i) && i + 8 + |b| <= |line| &&
               line[i + 4..i + 4 + |b|] == b;
      forall m | 0 <= m < |b| ensures b[m] != '\n' {
        assert b[m] == line[i + 4 + m];
      }
    }
  }

  /** A line that is exactly one packet yields exactly that packet's body. */
  lemma PacketLineBody(b: string)
    ensures LineBody(Open + b + Close) == Some(b)
  {
    var line := Open + b + Close;
    assert OccursAt(line, Open, 0) by { assert line[..4] == Open; }
    assert FindFirst(line, Open, 0) == Some(0);
    assert OccursAt(line, Close, |line| - 4) by { assert line[|line| - 4..] == Close; }
    assert FindLast(line, Close, 4, |line|) == Some(|line| - 4);
    assert line[4..|line| - 4] == b;
  }

  /** What the command-line tools write: each packet followed by a blank line. */
  function Transmit(packets: seq<string>): (r: string)
    ensures |packets| == 0 ==> r == ""
  {
    if |packets| == 0 then "" else packets[0] + "\n\n" + Transmit(packets[1..])
  }

  lemma FirstNewline(line: string, rest: string)
    requires NoChar(line, '\n')
    ensures FindFirst(line + rest, "\n", 0) == (if "\n" <= rest then Some(|line|) else FindFirst(line + rest, "\n", 0))
    ensures "\n" <= rest ==> (line + rest)[..|line|] == line && (line + rest)[|line| + 1..] == rest[1..]
  {
    var t := line + rest;
    forall k | 0 <= k < |line| ensures !OccursAt(t, "\n", k) {
      assert t[k..k + 1] == [line[k]];
    }
    if "\n" <= rest {
      assert t[|line|..|line| + 1] == "\n";
      assert OccursAt(t, "\n", |line|);
      assert t[..|line|] == line;
      assert t[|line| + 1..] == rest[1..];
    }
  }

  /** A packet line, a blank line, then more text: the packet's body comes first. */
  lemma PacketThenRest(b: string, rest: string)
    requires NoChar(b, '\n')
    ensures Bodies(Open + b + Close + "\n\n" + rest) == [b] + Bodies(rest)
  {
    var pk := Open + b + Close;
    assert NoChar(pk, '\n') by {
      forall m | 0 <= m < |pk| ensures pk[m] != '\n' {
        if 4 <= m < 4 + |b| { assert pk[m] == b[m - 4]; }
      }
    }
    var text := pk + ("\n\n" + rest);
    assert Open + b + Close + "\n\n" + rest == text;
    FirstNewline(pk, "\n\n" + rest);
    assert "\n" <= "\n\n" + rest;
    assert ("\n\n" + rest)[1..] == "\n" + rest;
    PacketLineBody(b);
    assert Bodies(text) == [b] + Bodies("\n" + rest);
    FirstNewline("", "\n" + rest);
    assert "" + ("\n" + rest) == "\n" + rest;
    assert ("\n" + rest)[1..] == rest;
    assert FindFirst("", Open, 0) == None;
    assert Bodies("\n" + rest) == Bodies(rest);
  }

  /**
   * Transmitted packets, one per line, are extracted as exactly their
   * bodies, in order, whatever the bodies contain besides a newline.
   */
  lemma {:induction false} TransmitBodies(packets: seq<string>, bodies: seq<string>)
    requires |packets| == |bodies|
    requires forall k :: 0 <= k < |packets| ==> packets[k] == Open + bodies[k] + Close
    requires forall k :: 0 <= k < |bodies| ==> NoChar(bodies[k], '\n')
    ensures Bodies(Transmit(packets)) == bodies
    decreases |packets|
  {
    if |packets| == 0 {
      assert FindFirst("", "\n", 0) == None;
      assert FindFirst("", Open, 0) == None;
    } else {
      var rest := Transmit(packets[1..]);
      assert Transmit(packets) == Open + bodies[0] + Close + "\n\n" + rest;
      PacketThenRest(bodies[0], rest);
      TransmitBodies(packets[1..], bodies[1..]);
      assert [bodies[0]] + bodies[1..] == bodies;
    }
  }
}
