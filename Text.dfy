/** String helpers standing for the handful of Python `str` operations the
    notification engine uses: lower(), upper() of one character, the `in`
    substring test, join, split(sep), strip() and two-digit zero padding.
    Case mapping covers ASCII letters only. */
module Text {

  function LowerChar(c: char): char {
    if 'A' <= c <= 'Z' then (c as int + 32) as char else c
  }

  function UpperChar(c: char): char {
    if 'a' <= c <= 'z' then (c as int - 32) as char else c
  }

  /** Python `s.lower()`. */
  function Lower(s: string): (r: string)
    ensures |r| == |s|
    ensures forall i :: 0 <= i < |s| ==> r[i] == LowerChar(s[i])
  {
    seq(|s|, i requires 0 <= i < |s| => LowerChar(s[i]))
  }

  lemma LowerAppend(a: string, b: string)
    ensures Lower(a + b) == Lower(a) + Lower(b)
  {
  }

  /** p occurs in s starting at offset i. */
  predicate MatchAt(s: string, p: string, i: int) {
    0 <= i && i + |p| <= |s| && s[i..i + |p|] == p
  }

  /** An occurrence in the tail of s is an occurrence in s one place later. */
  lemma MatchAtTail(s: string, p: string, j: int)
    requires s != [] && 0 <= j
    ensures MatchAt(s[1..], p, j) <==> MatchAt(s, p, j + 1)
  {
    if j + |p| <= |s| - 1 {
      assert s[1..][j..j + |p|] == s[j + 1..j + 1 + |p|];
    }
  }

  /** Python `p in s`: p occurs in s at some offset. */
  function Contains(s: string, p: string): (r: bool)
    ensures r <==> exists i :: MatchAt(s, p, i)
    decreases |s|
  {
    if p <= s then
      assert MatchAt(s, p, 0);
      true
    else if |s| <= |p| then
      assert forall i :: !MatchAt(s, p, i);
      false
    else
      var r := Contains(s[1..], p);
      assert forall i :: MatchAt(s, p, i) && i >= 1 ==> MatchAt(s[1..], p, i - 1) by {
        forall i | MatchAt(s, p, i) && i >= 1 ensures MatchAt(s[1..], p, i - 1) {
          MatchAtTail(s, p, i - 1);
        }
      }
      assert !MatchAt(s, p, 0);
      assert r ==> exists i :: MatchAt(s, p, i) by {
        if r {
          var j :| MatchAt(s[1..], p, j);
          MatchAtTail(s, p, j);
        }
      }
      r
  }

  /** The empty string occurs in every string, so an empty filter text keeps everything. */
  lemma ContainsEmpty(s: string)
    ensures Contains(s, "")
  {
    assert MatchAt(s, "", 0);
  }

  /** A string occurs in any concatenation that contains it on either side. */
  lemma ContainsInConcat(a: string, b: string, p: string)
    requires Contains(a, p) || Contains(b, p)
    ensures Contains(a + b, p)
  {
    if Contains(a, p) {
      var i :| MatchAt(a, p, i);
      assert (a + b)[i..i + |p|] == a[i..i + |p|];
      assert MatchAt(a + b, p, i);
    } else {
      var i :| MatchAt(b, p, i);
      assert (a + b)[|a| + i..|a| + i + |p|] == b[i..i + |p|];
      assert MatchAt(a + b, p, |a| + i);
    }
  }

  lemma ContainsSelf(s: string)
    ensures Contains(s, s)
  {
    assert s[0..|s|] == s;
    assert MatchAt(s, s, 0);
  }

  /** Python `sep.join(parts)`. */
  function Join(sep: string, parts: seq<string>): (r: string)
    ensures parts == [] ==> r == ""
    ensures |parts| == 1 ==> r == parts[0]
    ensures |parts| >= 1 ==> parts[0] <= r
  {
    if parts == [] then ""
    else if |parts| == 1 then parts[0]
    else parts[0] + sep + Join(sep, parts[1..])
  }

  /** Joining a concatenation puts one separator between the two joined halves. */
  lemma {:induction false} JoinAppend(sep: string, a: seq<string>, b: seq<string>)
    requires a != [] && b != []
    ensures Join(sep, a + b) == Join(sep, a) + sep + Join(sep, b)
  {
    if |a| == 1 {
      assert (a + b)[1..] == b;
    } else {
      assert (a + b)[1..] == a[1..] + b;
      JoinAppend(sep, a[1..], b);
      calc {
        Join(sep, a + b);
        a[0] + sep + Join(sep, a[1..] + b);
        a[0] + sep + (Join(sep, a[1..]) + sep + Join(sep, b));
        (a[0] + sep + Join(sep, a[1..])) + sep + Join(sep, b);
      }
    }
  }

  /** Every part occurs in the joined string. */
  lemma {:induction false} JoinContainsPart(sep: string, parts: seq<string>, i: int)
    requires 0 <= i < |parts|
    ensures Contains(Join(sep, parts), parts[i])
  {
    if |parts| == 1 {
      ContainsSelf(parts[0]);
    } else if i == 0 {
      ContainsSelf(parts[0]);
      ContainsInConcat(parts[0], sep + Join(sep, parts[1..]), parts[0]);
      assert Join(sep, parts) == parts[0] + (sep + Join(sep, parts[1..]));
    } else {
      JoinContainsPart(sep, parts[1..], i - 1);
      ContainsInConcat(sep, Join(sep, parts[1..]), parts[i]);
      ContainsInConcat(parts[0], sep + Join(sep, parts[1..]), parts[i]);
      assert Join(sep, parts) == parts[0] + (sep + Join(sep, parts[1..]));
    }
  }

  /** No occurrence of sep starts before position k of s. */
  ghost predicate NoMatchBefore(s: string, sep: string, k: int) {
    forall i :: i < k ==> !MatchAt(s, sep, i)
  }

  lemma NoMatchShift(s: string, sep: string, k: int)
    requires s != [] && NoMatchBefore(s, sep, k)
    ensures NoMatchBefore(s[1..], sep, k - 1)
  {
    forall i | i < k - 1 && MatchAt(s[1..], sep, i)
      ensures false
    {
      assert s[1..][i..i + |sep|] == s[i + 1..i + 1 + |sep|];
      assert MatchAt(s, sep, i + 1);
    }
  }

  /** Python `s.split(sep)` for a non-empty separator: scan left to right and
      cut at every non-overlapping occurrence. */
  function Split(s: string, sep: string): (parts: seq<string>)
    requires sep != []
    ensures |parts| >= 1
    ensures Join(sep, parts) == s
    decreases |s|
  {
    if |s| < |sep| then [s]
    else if s[..|sep|] == sep then
      var rest := Split(s[|sep|..], sep);
      assert Join(sep, [""] + rest) == s by {
        assert ([""] + rest)[1..] == rest;
        assert s == s[..|sep|] + s[|sep|..];
      }
      [""] + rest
    else
      var rest := Split(s[1..], sep);
      JoinHead(sep, [s[0]], rest);
      assert s == [s[0]] + s[1..];
      [[s[0]] + rest[0]] + rest[1..]
  }

  /** Gluing text to the front of the first part glues it to the front of
      the joined string. */
  lemma JoinHead(sep: string, c: string, parts: seq<string>)
    requires parts != []
    ensures Join(sep, [c + parts[0]] + parts[1..]) == c + Join(sep, parts)
  {
    var glued := [c + parts[0]] + parts[1..];
    assert glued[1..] == parts[1..];
    if |parts| > 1 {
      assert c + parts[0] + sep + Join(sep, parts[1..]) == c + (parts[0] + sep + Join(sep, parts[1..]));
    }
  }

  /** A string in which sep never occurs is split into itself alone. */
  lemma {:induction false} SplitNoMatch(s: string, sep: string)
    requires sep != []
    requires NoMatchBefore(s, sep, |s|)
    ensures Split(s, sep) == [s]
    decreases |s|
  {
    if |s| >= |sep| {
      assert !MatchAt(s, sep, 0);
      NoMatchShift(s, sep, |s|);
      SplitNoMatch(s[1..], sep);
      assert [s[0]] + s[1..] == s;
    }
  }

  /** The first occurrence of sep, at position k, ends the first piece. */
  lemma {:induction false} SplitFirstAt(s: string, sep: string, k: nat)
    requires sep != [] && k + |sep| <= |s|
    requires s[k..k + |sep|] == sep
    requires NoMatchBefore(s, sep, k)
    ensures Split(s, sep) == [s[..k]] + Split(s[k + |sep|..], sep)
    decreases k
  {
    if k == 0 {
      assert s[..|sep|] == sep;
    } else {
      var tail := s[1..];
      assert s[..|sep|] != sep by {
        assert !MatchAt(s, sep, 0);
      }
      assert tail[k - 1..k - 1 + |sep|] == sep;
      NoMatchShift(s, sep, k);
      SplitFirstAt(tail, sep, k - 1);
      assert tail[k - 1 + |sep|..] == s[k + |sep|..];
      assert [s[0]] + tail[..k - 1] == s[..k];
    }
  }

  /** Two comma-free texts joined by one comma split back into the two. */
  lemma SplitAtComma(a: string, b: string)
    requires forall i :: 0 <= i < |a| ==> a[i] != ','
    requires forall i :: 0 <= i < |b| ==> b[i] != ','
    ensures Split(a + "," + b, ",") == [a, b]
  {
    var s := a + "," + b;
    CharAbsentNoMatch(s, ",", |a|);
    assert s[|a|..|a| + 1] == ",";
    SplitFirstAt(s, ",", |a|);
    assert s[..|a|] == a;
    assert s[|a| + 1..] == b;
    CharAbsentNoMatch(b, ",", |b|);
    SplitNoMatch(b, ",");
  }

  /** When the first character of sep is absent from s[..k], no occurrence of
      sep starts before k. */
  lemma CharAbsentNoMatch(s: string, sep: string, k: int)
    requires sep != [] && 0 <= k <= |s|
    requires forall i :: 0 <= i < k ==> s[i] != sep[0]
    ensures NoMatchBefore(s, sep, k)
  {
    forall i | i < k
      ensures !MatchAt(s, sep, i)
    {
      if 0 <= i && i + |sep| <= |s| {
        assert s[i..i + |sep|][0] == s[i];
      }
    }
  }

  /** The ASCII characters Python's `str.isspace` accepts: space, \t, \n,
      \v, \f, \r and the separators \x1c to \x1f. */
  predicate IsSpace(c: char) {
    c == ' ' || c == '\t' || c == '\n' || c == '\r' || c == '\U{000B}' || c == '\U{000C}'
    || ('\U{001C}' <= c <= '\U{001F}')
  }

  function TrimStart(s: string): (r: string)
    ensures |r| <= |s| && r == s[|s| - |r|..]
    ensures r == [] || !IsSpace(r[0])
    ensures forall i :: 0 <= i < |s| - |r| ==> IsSpace(s[i])
  {
    if s != [] && IsSpace(s[0]) then TrimStart(s[1..]) else s
  }

  function TrimEnd(s: string): (r: string)
    ensures |r| <= |s| && r == s[..|r|]
    ensures r == [] || !IsSpace(r[|r| - 1])
    ensures forall i :: |r| <= i < |s| ==> IsSpace(s[i])
  {
    if s != [] && IsSpace(s[|s| - 1]) then TrimEnd(s[..|s| - 1]) else s
  }

  /** The number of white-space characters at the front of s. */
  function LeadingSpaces(s: string): (n: nat)
    ensures n <= |s|
  {
    |s| - |TrimStart(s)|
  }

  /** Python `s.strip()`: the slice of s left when the white space at both
      ends is cut off; it neither starts nor ends with white space. */
  function Strip(s: string): (r: string)
    ensures LeadingSpaces(s) + |r| <= |s|
    ensures r == s[LeadingSpaces(s)..LeadingSpaces(s) + |r|]
    ensures forall i :: 0 <= i < LeadingSpaces(s) ==> IsSpace(s[i])
    ensures forall i :: LeadingSpaces(s) + |r| <= i < |s| ==> IsSpace(s[i])
    ensures r == [] || (!IsSpace(r[0]) && !IsSpace(r[|r| - 1]))
  {
    var t := TrimStart(s);
    var r := TrimEnd(t);
    StripSlice(s, t, r, LeadingSpaces(s));
    r
  }

  /** Cutting white space off the front of s, then off the back of what is
      left, leaves a slice of s with white space on both sides of it. */
  lemma StripSlice(s: string, t: string, r: string, k: nat)
    requires k <= |s| && t == s[k..] && forall i :: 0 <= i < k ==> IsSpace(s[i])
    requires |r| <= |t| && r == t[..|r|] && forall i :: |r| <= i < |t| ==> IsSpace(t[i])
    ensures k + |r| <= |s| && r == s[k..k + |r|]
    ensures forall i :: 0 <= i < k ==> IsSpace(s[i])
    ensures forall i :: k + |r| <= i < |s| ==> IsSpace(s[i])
  {
    forall i | k + |r| <= i < |s|
      ensures IsSpace(s[i])
    {
      assert s[i] == t[i - k];
    }
  }

  /** A string with no white space at either end is its own strip. */
  lemma StripStripped(s: string)
    requires s == [] || (!IsSpace(s[0]) && !IsSpace(s[|s| - 1]))
    ensures Strip(s) == s
  {
  }

  /** Stripping removes leading blanks in front of a stripped word. */
  lemma StripLeadingSpace(w: string)
    requires w != [] && !IsSpace(w[0]) && !IsSpace(w[|w| - 1])
    ensures Strip(" " + w) == w
  {
    assert (" " + w)[1..] == w;
  }

  function Digit(n: int): char
    requires 0 <= n < 10
  {
    ('0' as int + n) as char
  }

  /** Python `f"{n:02d}"` for 0 <= n < 100. */
  function TwoDigits(n: int): (r: string)
    requires 0 <= n < 100
    ensures |r| == 2 && '0' <= r[0] <= '9' && '0' <= r[1] <= '9'
  {
    [Digit(n / 10), Digit(n % 10)]
  }

  /** Two-digit padding loses nothing: distinct numbers print differently. */
  lemma TwoDigitsInjective(m: int, n: int)
    requires 0 <= m < 100 && 0 <= n < 100
    ensures TwoDigits(m) == TwoDigits(n) <==> m == n
  {
    if TwoDigits(m) == TwoDigits(n) {
      assert TwoDigits(m)[0] == TwoDigits(n)[0];
      assert TwoDigits(m)[1] == TwoDigits(n)[1];
    }
  }
}
