/**
 * The string operations the codec applies to a packet body: joining and
 * splitting fields on a separator, deleting white space, and `str.strip()`.
 */
module Fields {

  /** The characters of Python's `string.whitespace`. */
  predicate IsAsciiSpace(c: char) {
    c == ' ' || c == '\t' || c == '\n' || c == '\r' || c == '\U{0B}' || c == '\U{0C}'
  }

  /** The characters `str.strip()` removes: Python's Unicode white space. */
  predicate IsUnicodeSpace(c: char) {
    ('\t' <= c <= '\r') || ('\U{1C}' <= c <= '\U{1F}') || c == ' ' ||
    c == '\U{85}' || c == '\U{A0}' || c == '\U{1680}' ||
    ('\U{2000}' <= c <= '\U{200A}') || c == '\U{2028}' || c == '\U{2029}' ||
    c == '\U{202F}' || c == '\U{205F}' || c == '\U{3000}'
  }

  predicate NoChar(s: string, c: char) {
    forall i :: 0 <= i < |s| ==> s[i] != c
  }

  predicate NoAsciiSpace(s: string) {
    forall i :: 0 <= i < |s| ==> !IsAsciiSpace(s[i])
  }

  /** `sep.join(fields)`. */
  function Join(fields: seq<string>, sep: char): string
    requires |fields| > 0
  {
    if |fields| == 1 then fields[0] else fields[0] + [sep] + Join(fields[1..], sep)
  }

  /** `s.split(sep)`: always at least one field; k separators give k + 1 fields. */
  function Split(s: string, sep: char): (r: seq<string>)
    ensures |r| > 0
    ensures NoChar(s, sep) ==> r == [s]
    decreases |s|
  {
    if |s| == 0 then [""]
    else
      var rest := Split(s[1..], sep);
      if s[0] == sep then [""] + rest
      else
        assert [s[0]] + s[1..] == s;
        [[s[0]] + rest[0]] + rest[1..]
  }

  /** Splitting at a separator preceded by a separator-free field. */
  lemma {:induction false} SplitAtFirst(a: string, sep: char, b: string)
    requires NoChar(a, sep)
    ensures Split(a + [sep] + b, sep) == [a] + Split(b, sep)
    decreases |a|
  {
    if |a| == 0 {
      assert a + [sep] + b == [sep] + b;
      assert ([sep] + b)[1..] == b;
    } else {
      var s := a + [sep] + b;
      assert s[0] == a[0];
      assert s[1..] == a[1..] + [sep] + b;
      SplitAtFirst(a[1..], sep, b);
      assert [a[0]] + a[1..] == a;
    }
  }

  /** Splitting joined separator-free fields gives the fields back. */
  lemma {:induction false} SplitJoin(fields: seq<string>, sep: char)
    requires |fields| > 0
    requires forall k :: 0 <= k < |fields| ==> NoChar(fields[k], sep)
    ensures Split(Join(fields, sep), sep) == fields
    decreases |fields|
  {
    if |fields| > 1 {
      SplitAtFirst(fields[0], sep, Join(fields[1..], sep));
      SplitJoin(fields[1..], sep);
      assert [fields[0]] + fields[1..] == fields;
    }
  }

  /** Joined fields hold a character only if a field does, or it is the separator. */
  lemma {:induction false} JoinNoChar(fields: seq<string>, sep: char, c: char)
    requires |fields| > 0
    requires c != sep
    requires forall k :: 0 <= k < |fields| ==> NoChar(fields[k], c)
    ensures NoChar(Join(fields, sep), c)
    decreases |fields|
  {
    if |fields| > 1 {
      JoinNoChar(fields[1..], sep, c);
      var r := Join(fields, sep);
      var rest := Join(fields[1..], sep);
      forall i | 0 <= i < |r| ensures r[i] != c {
        if i > |fields[0]| { assert r[i] == rest[i - |fields[0]| - 1]; }
      }
    }
  }

  /** Joined fields start with the first field's first character and end with the last field's last one. */
  lemma JoinEnds(fields: seq<string>, sep: char)
    requires |fields| > 0
    requires |fields[0]| > 0 && |fields[|fields| - 1]| > 0
    ensures var r := Join(fields, sep);
            var last := fields[|fields| - 1];
            |r| > 0 && r[0] == fields[0][0] && r[|r| - 1] == last[|last| - 1]
  {
    JoinEndsLast(fields, sep);
  }

  /** Joined fields end with the last field's last character. */
  lemma {:induction false} JoinEndsLast(fields: seq<string>, sep: char)
    requires |fields| > 0
    requires |fields[|fields| - 1]| > 0
    ensures var r := Join(fields, sep);
            var last := fields[|fields| - 1];
            |r| > 0 && r[|r| - 1] == last[|last| - 1]
    decreases |fields|
  {
    if |fields| > 1 {
      var rest := fields[1..];
      JoinEndsLast(rest, sep);
      assert rest[|rest| - 1] == fields[|fields| - 1];
    }
  }

  /** `re.sub("|".join(string.whitespace), "", s)`: every ASCII space deleted. */
  function RemoveSpace(s: string): (r: string)
    ensures |r| <= |s|
    ensures NoAsciiSpace(r)
    ensures NoAsciiSpace(s) ==> r == s
    decreases |s|
  {
    if |s| == 0 then ""
    else (if IsAsciiSpace(s[0]) then "" else [s[0]]) + RemoveSpace(s[1..])
  }

  /** Deleting characters adds none. */
  lemma {:induction false} RemoveSpaceNoChar(s: string, c: char)
    requires NoChar(s, c)
    ensures NoChar(RemoveSpace(s), c)
    decreases |s|
  {
    if |s| > 0 {
      RemoveSpaceNoChar(s[1..], c);
    }
  }

  lemma {:induction false} RemoveSpaceAppend(a: string, b: string)
    ensures RemoveSpace(a + b) == RemoveSpace(a) + RemoveSpace(b)
    decreases |a|
  {
    if |a| > 0 {
      var head := if IsAsciiSpace(a[0]) then "" else [a[0]];
      assert (a + b)[0] == a[0];
      assert (a + b)[1..] == a[1..] + b;
      assert RemoveSpace(a + b) == head + RemoveSpace(a[1..] + b);
      RemoveSpaceAppend(a[1..], b);
      assert head + (RemoveSpace(a[1..]) + RemoveSpace(b)) == (head + RemoveSpace(a[1..])) + RemoveSpace(b);
    } else {
      assert a + b == b;
    }
  }

  /** White space deleted from each field. */
  function RemoveSpaceEach(fields: seq<string>): (r: seq<string>)
    ensures |r| == |fields|
    ensures forall k :: 0 <= k < |fields| ==> r[k] == RemoveSpace(fields[k])
  {
    if |fields| == 0 then [] else [RemoveSpace(fields[0])] + RemoveSpaceEach(fields[1..])
  }

  /** Deleting white space commutes with joining on a non-space separator. */
  lemma {:induction false} RemoveSpaceJoin(fields: seq<string>, sep: char)
    requires |fields| > 0
    requires !IsAsciiSpace(sep)
    ensures RemoveSpace(Join(fields, sep)) == Join(RemoveSpaceEach(fields), sep)
    decreases |fields|
  {
    if |fields| > 1 {
      RemoveSpaceAppend(fields[0] + [sep], Join(fields[1..], sep));
      RemoveSpaceAppend(fields[0], [sep]);
      assert RemoveSpace([sep]) == [sep] by {
        assert [sep][1..] == [];
      }
      RemoveSpaceJoin(fields[1..], sep);
      assert RemoveSpaceEach(fields)[1..] == RemoveSpaceEach(fields[1..]);
    }
  }

  /** Splitting joined separator-free fields after deleting white space gives each field without it. */
  lemma SplitRemoveSpaceJoin(fields: seq<string>, sep: char)
    requires |fields| > 0
    requires !IsAsciiSpace(sep)
    requires forall k :: 0 <= k < |fields| ==> NoChar(fields[k], sep)
    ensures Split(RemoveSpace(Join(fields, sep)), sep) == RemoveSpaceEach(fields)
  {
    RemoveSpaceJoin(fields, sep);
    var m := RemoveSpaceEach(fields);
    forall k | 0 <= k < |m| ensures NoChar(m[k], sep) {
      RemoveSpaceNoChar(fields[k], sep);
    }
    SplitJoin(m, sep);
  }

  /** Only the first field loses white space when the others hold none. */
  lemma RemoveSpaceEachTail(fields: seq<string>)
    requires |fields| > 0
    requires forall k :: 1 <= k < |fields| ==> NoAsciiSpace(fields[k])
    ensures RemoveSpaceEach(fields) == [RemoveSpace(fields[0])] + fields[1..]
  {
    var m := RemoveSpaceEach(fields);
    var clean := [RemoveSpace(fields[0])] + fields[1..];
    forall k | 0 <= k < |fields| ensures m[k] == clean[k] {
      if k > 0 {
        assert clean[k] == fields[k];
      }
    }
  }

  function StripStart(s: string): (r: string)
    ensures |r| <= |s|
    ensures |r| > 0 ==> !IsUnicodeSpace(r[0])
    decreases |s|
  {
    if |s| > 0 && IsUnicodeSpace(s[0]) then StripStart(s[1..]) else s
  }

  function StripEnd(s: string): (r: string)
    ensures |r| <= |s|
    ensures |r| > 0 ==> !IsUnicodeSpace(r[|r| - 1])
    decreases |s|
  {
    if |s| > 0 && IsUnicodeSpace(s[|s| - 1]) then StripEnd(s[..|s| - 1]) else s
  }

  /** `s.strip()`: leading and trailing white space removed. */
  function Strip(s: string): string {
    StripEnd(StripStart(s))
  }

  /** Stripping gives the empty string exactly when every character is white space. */
  lemma StripEmpty(s: string)
    ensures Strip(s) == "" <==> forall i :: 0 <= i < |s| ==> IsUnicodeSpace(s[i])
  {
    var t := StripStart(s);
    StripStartEmpty(s);
    StripEndEmpty(t);
    if |t| > 0 {
      assert !IsUnicodeSpace(t[0]);
    }
  }

  /** A string that starts and ends with a character other than white space is its own strip. */
  lemma StripUnchanged(s: string)
    requires |s| > 0 && !IsUnicodeSpace(s[0]) && !IsUnicodeSpace(s[|s| - 1])
    ensures Strip(s) == s
  {
  }

  lemma {:induction false} StripStartEmpty(s: string)
    ensures StripStart(s) == "" <==> forall i :: 0 <= i < |s| ==> IsUnicodeSpace(s[i])
    decreases |s|
  {
    if |s| > 0 {
      if IsUnicodeSpace(s[0]) {
        StripStartEmpty(s[1..]);
        assert forall i :: 1 <= i < |s| ==> s[i] == s[1..][i - 1];
      }
    }
  }

  lemma {:induction false} StripEndEmpty(s: string)
    ensures StripEnd(s) == "" <==> forall i :: 0 <= i < |s| ==> IsUnicodeSpace(s[i])
    decreases |s|
  {
    if |s| > 0 {
      if IsUnicodeSpace(s[|s| - 1]) {
        StripEndEmpty(s[..|s| - 1]);
        assert forall i :: 0 <= i < |s| - 1 ==> s[i] == s[..|s| - 1][i];
      }
    }
  }
  /** `lstrip` drops exactly a prefix of white space: what remains is the rest of the input. */
  lemma {:induction false} StripStartDrops(s: string)
    ensures var r := StripStart(s);
            var k := |s| - |r|;
            && r == s[k..]
            && forall i :: 0 <= i < k ==> IsUnicodeSpace(s[i])
    decreases |s|
  {
    if |s| > 0 && IsUnicodeSpace(s[0]) {
      var t := s[1..];
      StripStartDrops(t);
      var k := |s| - |StripStart(s)|;
      assert StripStart(s) == StripStart(t);
      assert t[k - 1..] == s[k..];
      forall i | 0 <= i < k ensures IsUnicodeSpace(s[i]) {
        if i > 0 {
          assert s[i] == t[i - 1];
        }
      }
    }
  }

  /** `rstrip` drops exactly a suffix of white space: what remains is the start of the input. */
  lemma {:induction false} StripEndDrops(s: string)
    ensures var r := StripEnd(s);
            && r == s[..|r|]
            && forall i :: |r| <= i < |s| ==> IsUnicodeSpace(s[i])
    decreases |s|
  {
    if |s| > 0 && IsUnicodeSpace(s[|s| - 1]) {
      var t := s[..|s| - 1];
      StripEndDrops(t);
      var r := StripEnd(s);
      assert r == StripEnd(t);
      assert t[..|r|] == s[..|r|];
      forall i | |r| <= i < |s| ensures IsUnicodeSpace(s[i]) {
        if i < |s| - 1 {
          assert s[i] == t[i];
        }
      }
    }
  }
}
