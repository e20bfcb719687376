/**
  The few Python string operations the theme parser relies on: `str.isspace`
  (which is also what the `\s` class of `re` matches on str patterns),
  `\d`, `str.lower`, `str.strip`, `str.find` and `re.sub(r"\s+", "-", s)`.
  Strings are sequences of Unicode code points.
 */
module Text {

  /** Exactly the code points for which Python's `str.isspace()` holds. */
  predicate IsSpace(c: char)
  {
    || ('\t' <= c <= '\r')              // tab, line feed, vertical tab, form feed, carriage return
    || ('\U{1C}' <= c <= '\U{1F}')      // file, group, record and unit separators
    || c == ' '
    || c == '\U{85}' || c == '\U{A0}' || c == '\U{1680}'
    || ('\U{2000}' <= c <= '\U{200A}')
    || c == '\U{2028}' || c == '\U{2029}' || c == '\U{202F}' || c == '\U{205F}' || c == '\U{3000}'
  }

  /**
    The whitespace class takes in ASCII and Unicode spaces and line breaks,
    but not the zero-width space, nor any character the line format gives a
    meaning to: `#`, quotes, `-`, U+0001 and the digits.
   */
  lemma SpaceClass()
    ensures IsSpace(' ') && IsSpace('\t') && IsSpace('\n') && IsSpace('\r') && IsSpace('\U{A0}') && IsSpace('\U{3000}')
    ensures !IsSpace('#') && !IsSpace('-') && !IsSpace('\'') && !IsSpace('"') && !IsSpace('\U{200B}') && !IsSpace('\U{1}')
    ensures forall c | IsDigit(c) :: !IsSpace(c)
  {
  }

  /** An ASCII decimal digit (the model restricts `\d` to these). */
  predicate IsDigit(c: char)
  {
    '0' <= c <= '9'
  }

  function DigitValue(c: char): (d: nat)
    requires IsDigit(c)
    ensures d < 10
  {
    (c as int) - ('0' as int)
  }

  function DigitChar(d: nat): (c: char)
    requires d < 10
    ensures IsDigit(c) && DigitValue(c) == d
  {
    ('0' as int + d) as char
  }

  /** `str.lower()` on one character, restricted to ASCII letters. */
  function LowerChar(c: char): (r: char)
    ensures IsSpace(r) <==> IsSpace(c)
    ensures !('A' <= r <= 'Z')
  {
    if 'A' <= c <= 'Z' then (c as int + 32) as char else c
  }

  predicate AllSpace(s: string)
  {
    forall i | 0 <= i < |s| :: IsSpace(s[i])
  }

  predicate NoSpace(s: string)
  {
    forall i | 0 <= i < |s| :: !IsSpace(s[i])
  }

  predicate AllDigits(s: string)
  {
    forall i | 0 <= i < |s| :: IsDigit(s[i])
  }

  /** True of a string that `str.lower()` leaves unchanged. */
  predicate IsLower(s: string)
  {
    forall i | 0 <= i < |s| :: LowerChar(s[i]) == s[i]
  }

  /** `str.lower()`, restricted to ASCII letters. */
  function Lower(s: string): (r: string)
    ensures |r| == |s| && IsLower(r)
    ensures forall i | 0 <= i < |s| :: r[i] == LowerChar(s[i])
  {
    seq(|s|, i requires 0 <= i < |s| => LowerChar(s[i]))
  }

  /** `s.find(c)`: the first index of `c` in `s`, or -1 when there is none. */
  function Find(s: string, c: char): (i: int)
    ensures -1 <= i < |s|
    ensures i == -1 <==> c !in s
    ensures 0 <= i ==> s[i] == c && c !in s[..i]
  {
    if s == [] then -1
    else if s[0] == c then 0
    else
      var j := Find(s[1..], c);
      if j == -1 then -1
      else
        assert s[..j + 1] == [s[0]] + s[1..][..j];
        j + 1
  }

  lemma {:induction false} FindAt(s: string, c: char, i: nat)
    requires i < |s| && s[i] == c && c !in s[..i]
    ensures Find(s, c) == i
  {
    if i > 0 {
      assert s[0] == s[..i][0];
      assert s[1..][..i - 1] == s[1..i];
      assert s[1..i] == s[..i][1..];
      FindAt(s[1..], c, i - 1);
    }
  }

  /** The length of the longest prefix of `s` made of whitespace. */
  function LeadingSpaces(s: string): (n: nat)
    ensures n <= |s| && AllSpace(s[..n])
    ensures n < |s| ==> !IsSpace(s[n])
  {
    if s == [] || !IsSpace(s[0]) then 0
    else
      var m := LeadingSpaces(s[1..]);
      assert s[..m + 1] == [s[0]] + s[1..][..m];
      m + 1
  }

  /** The length of the longest suffix of `s` made of whitespace. */
  function TrailingSpaces(s: string): (n: nat)
    ensures n <= |s| && forall i | |s| - n <= i < |s| :: IsSpace(s[i])
    ensures n < |s| ==> !IsSpace(s[|s| - n - 1])
  {
    if s == [] || !IsSpace(s[|s| - 1]) then 0
    else
      var p := s[..|s| - 1];
      var m := TrailingSpaces(p);
      assert forall i | |p| - m <= i < |p| :: s[i] == p[i];
      assert m < |p| ==> s[|s| - m - 2] == p[|p| - m - 1];
      m + 1
  }

  /**
    `str.strip()`: `s` without its leading and trailing whitespace. The result is
    the middle of `s` between two all-whitespace margins, and it is empty
    exactly when `s` is all whitespace.
   */
  function Strip(s: string): (r: string)
    ensures r == [] <==> AllSpace(s)
    ensures r != [] ==> !IsSpace(r[0]) && !IsSpace(r[|r| - 1])
    ensures exists a | 0 <= a <= |s| - |r| :: s[a..a + |r|] == r && AllSpace(s[..a]) && AllSpace(s[a + |r|..])
  {
    var a := LeadingSpaces(s);
    var b := TrailingSpaces(s[a..]);
    StripShape(s, a, b);
    s[a..|s| - b]
  }

  /** What the two margins found by `Strip` make of the part between them. */
  lemma StripShape(s: string, a: nat, b: nat)
    requires a <= |s| && AllSpace(s[..a]) && (a < |s| ==> !IsSpace(s[a]))
    requires b <= |s[a..]| && forall i | |s[a..]| - b <= i < |s[a..]| :: IsSpace(s[a..][i])
    requires b < |s[a..]| ==> !IsSpace(s[a..][|s[a..]| - b - 1])
    ensures var r := s[a..|s| - b];
      (r == [] <==> AllSpace(s)) &&
      (r != [] ==> !IsSpace(r[0]) && !IsSpace(r[|r| - 1])) &&
      s[a..a + |r|] == r && AllSpace(s[a + |r|..])
  {
    var t := s[a..];
    var q := s[|s| - b..];
    forall i | 0 <= i < |q|
      ensures IsSpace(q[i])
    {
      assert q[i] == t[|t| - b + i];
    }
    if a == |s| {
      assert s[..a] == s;
    } else {
      assert t[0] == s[a];
      assert s[a..|s| - b][0] == s[a];
      assert s[a..|s| - b][|s| - b - a - 1] == t[|t| - b - 1];
    }
  }

  /** `re.sub(r"\s+", "-", s)`: every maximal run of whitespace becomes one `-`. */
  function CollapseSpaces(s: string): (r: string)
    ensures |r| <= |s|
    ensures r == [] <==> s == []
    ensures NoSpace(r)
    ensures forall i | 0 <= i < |r| :: r[i] == '-' || r[i] in s
    ensures s != [] && !IsSpace(s[0]) ==> r[0] == s[0]
    decreases |s|
  {
    if s == [] then []
    else if IsSpace(s[0]) then
      var n := LeadingSpaces(s);
      var r := ['-'] + CollapseSpaces(s[n..]);
      assert forall i | 1 <= i < |r| :: r[i] == '-' || r[i] in s by {
        forall i | 1 <= i < |r| ensures r[i] == '-' || r[i] in s {
          assert r[i] == '-' || r[i] in s[n..];
        }
      }
      r
    else
      var r := [s[0]] + CollapseSpaces(s[1..]);
      assert forall i | 1 <= i < |r| :: r[i] == '-' || r[i] in s by {
        forall i | 1 <= i < |r| ensures r[i] == '-' || r[i] in s {
          assert r[i] == '-' || r[i] in s[1..];
        }
      }
      r
  }

  lemma {:induction false} LeadingSpacesFramed(p: string, t: string)
    requires AllSpace(p) && (t == [] || !IsSpace(t[0]))
    ensures LeadingSpaces(p + t) == |p|
  {
    if p != [] {
      assert (p + t)[1..] == p[1..] + t;
      LeadingSpacesFramed(p[1..], t);
    }
  }

  lemma {:induction false} TrailingSpacesFramed(t: string, q: string)
    requires AllSpace(q) && t != [] && !IsSpace(t[|t| - 1])
    ensures TrailingSpaces(t + q) == |q|
  {
    if q != [] {
      var s := t + q;
      assert s[..|s| - 1] == t + q[..|q| - 1];
      TrailingSpacesFramed(t, q[..|q| - 1]);
    }
  }

  /** Stripping gives back the middle of any whitespace-framed string whose middle has no whitespace at either end. */
  lemma StripFramed(p: string, m: string, q: string)
    requires AllSpace(p) && AllSpace(q)
    requires m != [] ==> !IsSpace(m[0]) && !IsSpace(m[|m| - 1])
    ensures Strip(p + m + q) == m
  {
    var s := p + m + q;
    if m == [] {
      assert AllSpace(s) by {
        forall i | 0 <= i < |s| ensures IsSpace(s[i]) {
          if i < |p| { assert s[i] == p[i]; } else { assert s[i] == q[i - |p|]; }
        }
      }
    } else {
      assert s == p + (m + q);
      LeadingSpacesFramed(p, m + q);
      assert s[|p|..] == m + q;
      TrailingSpacesFramed(m, q);
      assert (m + q)[..|m|] == m;
    }
  }

  lemma {:induction false} CollapseNoSpace(s: string)
    requires NoSpace(s)
    ensures CollapseSpaces(s) == s
  {
    if s != [] {
      CollapseNoSpace(s[1..]);
    }
  }

  lemma {:induction false} CollapseLastChar(s: string)
    requires s != [] && !IsSpace(s[|s| - 1])
    ensures var r := CollapseSpaces(s); r[|r| - 1] == s[|s| - 1]
  {
    if IsSpace(s[0]) {
      var n := LeadingSpaces(s);
      CollapseLastChar(s[n..]);
    } else if |s| > 1 {
      CollapseLastChar(s[1..]);
    }
  }

  /** A string ending in a non-whitespace character keeps its leading whitespace run whatever follows it. */
  lemma {:induction false} LeadingSpacesPrefix(x: string, y: string)
    requires x != [] && !IsSpace(x[|x| - 1])
    ensures LeadingSpaces(x + y) == LeadingSpaces(x) < |x|
  {
    if IsSpace(x[0]) {
      assert (x + y)[1..] == x[1..] + y;
      LeadingSpacesPrefix(x[1..], y);
    }
  }

  /**
    A maximal whitespace run between two pieces becomes exactly one '-', and
    the pieces on either side are collapsed independently of each other.
   */
  lemma {:induction false} CollapseSplit(a: string, ws: string, b: string)
    requires a == [] || !IsSpace(a[|a| - 1])
    requires ws != [] && AllSpace(ws)
    requires b == [] || !IsSpace(b[0])
    ensures CollapseSpaces(a + ws + b) == CollapseSpaces(a) + ['-'] + CollapseSpaces(b)
    decreases |a|, 1
  {
    if a == [] {
      var s := a + ws + b;
      assert s == ws + b;
      LeadingSpacesFramed(ws, b);
      assert s[|ws|..] == b;
    } else if IsSpace(a[0]) {
      CollapseSplitSpace(a, ws, b);
    } else {
      CollapseSplitWord(a, ws, b);
    }
  }

  /** `CollapseSplit` when `a` opens with whitespace. */
  lemma {:induction false} CollapseSplitSpace(a: string, ws: string, b: string)
    requires a != [] && IsSpace(a[0]) && !IsSpace(a[|a| - 1])
    requires ws != [] && AllSpace(ws)
    requires b == [] || !IsSpace(b[0])
    ensures CollapseSpaces(a + ws + b) == CollapseSpaces(a) + ['-'] + CollapseSpaces(b)
    decreases |a|, 0
  {
    var s := a + ws + b;
    var cb := CollapseSpaces(b);
    var n := LeadingSpaces(a);
    assert s == a + (ws + b);
    LeadingSpacesPrefix(a, ws + b);
    assert s[n..] == a[n..] + ws + b;
    CollapseSplit(a[n..], ws, b);
    var ca := CollapseSpaces(a[n..]);
    assert CollapseSpaces(s) == ['-'] + (ca + ['-'] + cb);
    assert CollapseSpaces(a) == ['-'] + ca;
    AppendRegroup(['-'], ca, ['-'], cb);
  }

  /** `CollapseSplit` when `a` opens with a non-whitespace character. */
  lemma {:induction false} CollapseSplitWord(a: string, ws: string, b: string)
    requires a != [] && !IsSpace(a[0]) && !IsSpace(a[|a| - 1])
    requires ws != [] && AllSpace(ws)
    requires b == [] || !IsSpace(b[0])
    ensures CollapseSpaces(a + ws + b) == CollapseSpaces(a) + ['-'] + CollapseSpaces(b)
    decreases |a|, 0
  {
    var s := a + ws + b;
    var cb := CollapseSpaces(b);
    assert s[1..] == a[1..] + ws + b;
    CollapseSplit(a[1..], ws, b);
    var ca := CollapseSpaces(a[1..]);
    assert CollapseSpaces(s) == [a[0]] + (ca + ['-'] + cb);
    assert CollapseSpaces(a) == [a[0]] + ca;
    AppendRegroup([a[0]], ca, ['-'], cb);
  }

  lemma AppendRegroup(x: string, y: string, z: string, w: string)
    ensures x + (y + z + w) == (x + y) + z + w
  {
  }

  lemma CollapseKeepsLower(s: string)
    requires IsLower(s)
    ensures IsLower(CollapseSpaces(s))
  {
    var r := CollapseSpaces(s);
    forall i | 0 <= i < |r| ensures LowerChar(r[i]) == r[i] {
      if r[i] != '-' {
        var j :| 0 <= j < |s| && s[j] == r[i];
      }
    }
  }

}
