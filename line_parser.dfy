/**
  The per-line theme / channel-list format, shared word for word by
  `channel_list.py` and `theme.py`:

      <digits> <whitespace> <name>        # a comment runs to the end of the line

  A name wrapped in one pair of matching `'` or `"` quotes is kept verbatim;
  any other name is lower-cased with every whitespace run turned into `-`.
  This module holds the pure pieces of that parser and the specification
  functions (`ParseLines`, `ParseFiles`) that the imperative readers in
  `ChannelList` and `ThemeFile` are proved against.
 */
module LineParser {
  import opened Wrappers
  import opened Text
  import opened OrderedDict

  /** `ParserError`, carrying the offending line after comment removal and stripping. */
  datatype ParserError = ParserError(line: string)

  datatype Result<T> = Ok(value: T) | Err(error: ParserError)

  /** The two groups of a successful match of `(\d+)\s+(.+)`. */
  datatype LineMatch = LineMatch(digits: string, rest: string)

  /** What one input line contributes. */
  datatype LineResult = Blank | Assignment(id: nat, name: string) | Malformed(line: string)

  /** A line result as the parser produces it: an assignment always names the channel. */
  type ParsedLine = r: LineResult | !r.Assignment? || r.name != [] witness Blank

  // ---------------------------------------------------------------------------
  // Comments

  /** `s[:s.find(c)]` when `c` occurs in `s`, and `s` itself otherwise. */
  function CutAt(s: string, c: char): (r: string)
    ensures c !in r
    ensures |r| <= |s| && s[..|r|] == r
    ensures |r| < |s| ==> s[|r|] == c
  {
    var i := Find(s, c);
    if i == -1 then s else s[..i]
  }

  /** Everything from the first `#` on is dropped, wherever the `#` stands. */
  function CutComment(line: string): string
  {
    CutAt(line, '#')
  }

  lemma CutCommentOf(body: string, comment: string)
    requires '#' !in body
    requires comment == [] || comment[0] == '#'
    ensures CutComment(body + comment) == body
  {
    var s := body + comment;
    if comment == [] {
      assert s == body;
    } else {
      assert s[..|body|] == body;
      FindAt(s, '#', |body|);
    }
  }

  // ---------------------------------------------------------------------------
  // Channel ids

  function Pow10(n: nat): (p: nat)
    ensures p >= 1
  {
    if n == 0 then 1 else 10 * Pow10(n - 1)
  }

  /**
    `int(ds)` for a run of decimal digits: no bound, leading zeros allowed.
    A run of `n` digits spells a number below 10^n, and at least 10^(n-1)
    unless it starts with `0`.
   */
  function Value(ds: string): (v: nat)
    requires AllDigits(ds)
    ensures v < Pow10(|ds|)
    ensures ds != [] && ds[0] != '0' ==> Pow10(|ds| - 1) <= v
  {
    if ds == [] then 0
    else
      var p := ds[..|ds| - 1];
      assert p != [] ==> p[0] == ds[0];
      10 * Value(p) + DigitValue(ds[|ds| - 1])
  }

  /** `str(n)`: the canonical decimal spelling of `n`. */
  function Decimal(n: nat): (ds: string)
    ensures ds != [] && AllDigits(ds)
  {
    if n < 10 then [DigitChar(n)] else Decimal(n / 10) + [DigitChar(n % 10)]
  }

  /** Every id has a spelling that parses back to it. */
  lemma {:induction false} ValueOfDecimal(n: nat)
    ensures Value(Decimal(n)) == n
  {
    if n >= 10 {
      ValueOfDecimal(n / 10);
      assert Decimal(n)[..|Decimal(n)| - 1] == Decimal(n / 10);
    }
  }

  /** A leading zero does not change the id. */
  lemma {:induction false} ValueLeadingZero(ds: string)
    requires AllDigits(ds)
    ensures Value(['0'] + ds) == Value(ds)
  {
    if ds != [] {
      assert (['0'] + ds)[..|ds|] == ['0'] + ds[..|ds| - 1];
      ValueLeadingZero(ds[..|ds| - 1]);
    }
  }

  // ---------------------------------------------------------------------------
  // The line pattern `(\d+)\s+(.+)`, used with `re.match`

  predicate NoTrailingSpace(line: string)
  {
    line == [] || !IsSpace(line[|line| - 1])
  }

  /** The length of the longest prefix of `s` made of digits. */
  function LeadingDigits(s: string): (n: nat)
    ensures n <= |s|
    ensures forall k | 0 <= k < n :: IsDigit(s[k])
    ensures n < |s| ==> !IsDigit(s[n])
  {
    if s == [] || !IsDigit(s[0]) then 0 else 1 + LeadingDigits(s[1..])
  }

  /** What `.+` takes: the text up to the first line feed. */
  function TakeLine(s: string): string
  {
    CutAt(s, '\n')
  }

  predicate DigitsUpTo(line: string, i: int)
    requires 0 <= i <= |line|
  {
    forall k | 0 <= k < i :: IsDigit(line[k])
  }

  predicate SpacesBetween(line: string, i: int, j: int)
    requires 0 <= i <= j <= |line|
  {
    forall k | i <= k < j :: IsSpace(line[k])
  }

  /** The strings `re.match(r"(\d+)\s+(.+)", line)` succeeds on. */
  ghost predicate LinePattern(line: string)
  {
    exists i, j | 0 < i < j < |line| :: DigitsUpTo(line, i) && SpacesBetween(line, i, j) && line[j] != '\n'
  }

  /**
    The match itself. The reader only matches stripped lines, so the
    whitespace run is always followed by a non-whitespace character and no
    backtracking is ever needed.
   */
  function MatchLine(line: string): (m: Option<LineMatch>)
    requires NoTrailingSpace(line)
    ensures m.Some? ==> m.value.digits != [] && AllDigits(m.value.digits)
    ensures m.Some? ==> m.value.rest != [] && !IsSpace(m.value.rest[0]) && '\n' !in m.value.rest
  {
    var d := LeadingDigits(line);
    var w := LeadingSpaces(line[d..]);
    if d == 0 || w == 0 then None
    else
      assert IsSpace(line[d..][..w][w - 1]);
      assert d + w < |line|;
      assert line[d + w..][0] == line[d..][w];
      Some(LineMatch(line[..d], TakeLine(line[d + w..])))
  }

  /** `MatchLine` succeeds exactly on the lines the regular expression accepts. */
  lemma MatchLineIff(line: string)
    requires NoTrailingSpace(line)
    ensures MatchLine(line).Some? <==> LinePattern(line)
  {
    if MatchLine(line).Some? {
      MatchLineSound(line);
    }
    if LinePattern(line) {
      var i, j :| 0 < i < j < |line| && DigitsUpTo(line, i) && SpacesBetween(line, i, j) && line[j] != '\n';
      MatchLineComplete(line, i, j);
    }
  }

  lemma MatchLineSound(line: string)
    requires NoTrailingSpace(line) && MatchLine(line).Some?
    ensures LinePattern(line)
  {
    var d := LeadingDigits(line);
    var w := LeadingSpaces(line[d..]);
    assert 0 < d < d + w < |line|;
    assert line[d + w] == line[d..][w];
    assert SpacesBetween(line, d, d + w) by {
      forall k | d <= k < d + w ensures IsSpace(line[k]) {
        assert line[k] == line[d..][..w][k - d];
      }
    }
    assert DigitsUpTo(line, d);
    assert line[d + w] != '\n';
  }

  lemma MatchLineComplete(line: string, i: int, j: int)
    requires NoTrailingSpace(line)
    requires 0 < i < j < |line| && DigitsUpTo(line, i) && SpacesBetween(line, i, j)
    ensures MatchLine(line).Some?
  {
    var d := LeadingDigits(line);
    assert IsSpace(line[i]);
    assert d == i;
    assert line[d..][0] == line[i];
  }

  lemma {:induction false} LeadingDigitsFramed(ds: string, t: string)
    requires AllDigits(ds) && t != [] && !IsDigit(t[0])
    ensures LeadingDigits(ds + t) == |ds|
  {
    if ds != [] {
      assert (ds + t)[1..] == ds[1..] + t;
      LeadingDigitsFramed(ds[1..], t);
    }
  }

  // ---------------------------------------------------------------------------
  // Channel names

  predicate IsQuote(c: char)
  {
    c == '\'' || c == '"'
  }

  /**
    What `^(['"])([^\1]+)\1$` accepts on a string without line feeds. Inside
    the brackets `\1` is the octal escape for U+0001, not a back-reference, so
    the interior may hold quote characters but not U+0001.
   */
  predicate IsFullyQuoted(s: string)
  {
    |s| >= 3 && IsQuote(s[0]) && s[|s| - 1] == s[0] && '\U{1}' !in s[1..|s| - 1]
  }

  /**
    Matching quotes of either kind are accepted and may enclose the other
    kind; mismatched quotes, an empty interior and a U+0001 inside are not.
   */
  lemma QuotedExamples()
    ensures IsFullyQuoted("'general'") && IsFullyQuoted("\"general\"") && IsFullyQuoted("\"it's\"")
    ensures !IsFullyQuoted("'general\"") && !IsFullyQuoted("''") && !IsFullyQuoted("'") && !IsFullyQuoted("general")
    ensures !IsFullyQuoted("'a\U{1}b'")
  {
    assert "'a\U{1}b'"[1..4] == "a\U{1}b";
    assert "\"it's\""[1..5] == "it's";
  }

  /** Any text free of U+0001 between two equal quotes is taken as quoted, and the interior is what is stored. */
  lemma QuotedForm(q: char, text: string)
    requires IsQuote(q) && text != [] && '\U{1}' !in text
    ensures IsFullyQuoted([q] + text + [q])
    ensures ChannelName([q] + text + [q]) == text
  {
    var s := [q] + text + [q];
    assert s[1..|s| - 1] == text;
  }

  /** `re.sub(r"\s+", "-", s.lower())`. */
  function Normalize(s: string): (r: string)
    ensures NoSpace(r) && IsLower(r)
    ensures r == [] <==> s == []
  {
    CollapseKeepsLower(Lower(s));
    CollapseSpaces(Lower(s))
  }

  /** Normalising a normalised name changes nothing. */
  lemma NormalizeIdempotent(s: string)
    ensures Normalize(Normalize(s)) == Normalize(s)
  {
    var n := Normalize(s);
    assert Lower(n) == n;
    CollapseNoSpace(n);
  }

  /**
    Each maximal whitespace run becomes one `-` and the words on either side
    are normalised on their own: `Normalize` works word by word.
   */
  lemma NormalizeSplit(a: string, ws: string, b: string)
    requires a == [] || !IsSpace(a[|a| - 1])
    requires ws != [] && AllSpace(ws)
    requires b == [] || !IsSpace(b[0])
    ensures Normalize(a + ws + b) == Normalize(a) + ['-'] + Normalize(b)
  {
    LowerSplit(a, ws, b);
    CollapseSplit(Lower(a), Lower(ws), Lower(b));
  }

  lemma LowerSplit(a: string, ws: string, b: string)
    ensures Lower(a + ws + b) == Lower(a) + Lower(ws) + Lower(b)
  {
  }

  /** `Hello   World` is stored as `hello-world`. */
  lemma NormalizeExample()
    ensures Normalize("Hello   World") == "hello-world"
  {
    ExampleWords();
    NormalizeTwoWords("Hello", "   ", "World");
  }

  lemma ExampleWords()
    ensures NoSpace("Hello") && NoSpace("World") && AllSpace("   ")
    ensures Lower("Hello") == "hello" && Lower("World") == "world"
    ensures "Hello" + "   " + "World" == "Hello   World"
    ensures "hello" + ['-'] + "world" == "hello-world"
  {
  }

  /** A name without whitespace is only lower-cased. */
  lemma NormalizeWord(s: string)
    requires NoSpace(s)
    ensures Normalize(s) == Lower(s)
  {
    CollapseNoSpace(Lower(s));
  }

  /** Two words around a whitespace run become the lower-cased words joined by `-`. */
  lemma NormalizeTwoWords(a: string, ws: string, b: string)
    requires a != [] && NoSpace(a) && b != [] && NoSpace(b)
    requires ws != [] && AllSpace(ws)
    ensures Normalize(a + ws + b) == Lower(a) + ['-'] + Lower(b)
  {
    NormalizeSplit(a, ws, b);
    NormalizeWord(a);
    NormalizeWord(b);
  }

  /** A name that starts and ends with non-whitespace keeps its first and last character, lower-cased. */
  lemma NormalizeEnds(s: string)
    requires s != [] && !IsSpace(s[0]) && !IsSpace(s[|s| - 1])
    ensures var r := Normalize(s); r[0] == LowerChar(s[0]) && r[|r| - 1] == LowerChar(s[|s| - 1])
  {
    CollapseLastChar(Lower(s));
  }

  /** The stored name for the second group of a line match. */
  function ChannelName(rest: string): (name: string)
    requires rest != []
    ensures name != []
    ensures IsFullyQuoted(rest) ==> rest == [rest[0]] + name + [rest[0]]
    ensures !IsFullyQuoted(rest) ==> NoSpace(name) && IsLower(name)
  {
    if IsFullyQuoted(rest) then rest[1..|rest| - 1] else Normalize(rest)
  }

  // ---------------------------------------------------------------------------
  // One line

  /**
    One line of input: cut the comment, strip, skip when blank, otherwise
    match the line pattern (failing with the stripped line) and build the
    (id, name) pair.
   */
  function ParseLine(raw: string): (r: ParsedLine)
    ensures r.Malformed? ==> r.line != [] && !IsSpace(r.line[0]) && !IsSpace(r.line[|r.line| - 1])
  {
    var line := Strip(CutComment(raw));
    if line == [] then Blank
    else
      match MatchLine(line)
      case None => Malformed(line)
      case Some(m) => Assignment(Value(m.digits), ChannelName(m.rest))
  }

  /**
    The body of the reading loop in `read_channel_list` and `read_theme`,
    statement for statement: it rebinds `line` as it cuts the comment and
    strips, then matches and builds the name. The loop itself skips a
    `Blank`, raises on a `Malformed` and assigns an `Assignment`.
   */
  method ReadLine(raw: string) returns (res: LineResult)
    ensures res == ParseLine(raw)
  {
    var line := raw;
    var comment := Find(line, '#');
    if comment != -1 {
      line := line[..comment];
    }
    assert line == CutComment(raw);
    line := Strip(line);
    if line == [] {
      return Blank;
    }
    var m := MatchLine(line);
    if m.None? {
      return Malformed(line);
    }
    var channelId := Value(m.value.digits);
    var rest := m.value.rest;
    if IsFullyQuoted(rest) {
      return Assignment(channelId, rest[1..|rest| - 1]);
    } else {
      var name := Normalize(rest);
      return Assignment(channelId, name);
    }
  }

  /**
    A line is blank exactly when it is all whitespace up to its first `#`, and
    malformed exactly when what remains after stripping does not match the
    line pattern; the error then carries that stripped text.
   */
  lemma ParseLineCases(raw: string)
    ensures ParseLine(raw).Blank? <==> AllSpace(CutComment(raw))
    ensures ParseLine(raw).Malformed? <==> !AllSpace(CutComment(raw)) && !LinePattern(Strip(CutComment(raw)))
    ensures ParseLine(raw).Malformed? ==> ParseLine(raw).line == Strip(CutComment(raw))
  {
    var line := Strip(CutComment(raw));
    if line != [] {
      MatchLineIff(line);
    }
  }

  /** Text from the first `#` on never matters, even inside quotes. */
  lemma CommentIgnored(raw: string)
    ensures ParseLine(raw) == ParseLine(CutComment(raw))
  {
    CutCommentOf(CutComment(raw), []);
    assert CutComment(raw) + [] == CutComment(raw);
  }

  /**
    The shape of every well-formed line: optional indentation, the id's
    digits, whitespace, a name that neither starts nor ends with whitespace,
    optional trailing whitespace and an optional comment. Such a line yields
    exactly the id's value and the name as `ChannelName` stores it.
   */
  lemma LineShape(pre: string, ds: string, ws: string, name: string, post: string, comment: string)
    requires AllSpace(pre) && AllSpace(post)
    requires ds != [] && AllDigits(ds)
    requires ws != [] && AllSpace(ws)
    requires name != [] && !IsSpace(name[0]) && !IsSpace(name[|name| - 1])
    requires '#' !in name && '\n' !in name
    requires comment == [] || comment[0] == '#'
    ensures ParseLine(pre + ds + ws + name + post + comment) == Assignment(Value(ds), ChannelName(name))
  {
    var core := ds + ws + name;
    var raw := pre + ds + ws + name + post + comment;
    NoHashIn(pre, ds, ws, name, post);
    Regroup(pre, ds, ws, name, post, comment);
    CutCommentOf(pre + core + post, comment);
    assert core[|core| - 1] == name[|name| - 1];
    StripFramed(pre, core, post);
    MatchFramed(ds, ws, name);
    ParseMatched(raw, core, LineMatch(ds, name));
  }

  lemma Regroup(pre: string, ds: string, ws: string, name: string, post: string, comment: string)
    ensures pre + ds + ws + name + post + comment == (pre + (ds + ws + name) + post) + comment
  {
  }

  lemma ParseMatched(raw: string, line: string, m: LineMatch)
    requires Strip(CutComment(raw)) == line && line != [] && NoTrailingSpace(line)
    requires MatchLine(line) == Some(m)
    ensures ParseLine(raw) == Assignment(Value(m.digits), ChannelName(m.rest))
  {
  }

  lemma NoHashIn(pre: string, ds: string, ws: string, name: string, post: string)
    requires AllSpace(pre) && AllDigits(ds) && AllSpace(ws) && '#' !in name && AllSpace(post)
    ensures '#' !in pre + (ds + ws + name) + post
  {
    assert !IsSpace('#') && !IsDigit('#');
  }

  lemma MatchFramed(ds: string, ws: string, name: string)
    requires ds != [] && AllDigits(ds)
    requires ws != [] && AllSpace(ws)
    requires name != [] && !IsSpace(name[0]) && !IsSpace(name[|name| - 1]) && '\n' !in name
    ensures NoTrailingSpace(ds + ws + name)
    ensures MatchLine(ds + ws + name) == Some(LineMatch(ds, name))
  {
    var core := ds + ws + name;
    assert core[|core| - 1] == name[|name| - 1];
    assert !IsDigit(ws[0]);
    assert core == ds + (ws + name);
    LeadingDigitsFramed(ds, ws + name);
    assert core[|ds|..] == ws + name;
    LeadingSpacesFramed(ws, name);
    assert core[..|ds|] == ds;
    assert core[|ds| + |ws|..] == name;
    assert TakeLine(name) == name;
  }

  /** `42 "Hello World"`: a fully quoted name is stored verbatim, case and spacing included. */
  lemma QuotedLine(pre: string, ds: string, ws: string, q: char, text: string, post: string, comment: string)
    requires AllSpace(pre) && AllSpace(post)
    requires ds != [] && AllDigits(ds)
    requires ws != [] && AllSpace(ws)
    requires IsQuote(q)
    requires text != [] && '#' !in text && '\n' !in text && '\U{1}' !in text
    requires comment == [] || comment[0] == '#'
    ensures ParseLine(pre + ds + ws + [q] + text + [q] + post + comment) == Assignment(Value(ds), text)
  {
    var name := [q] + text + [q];
    assert name[1..|name| - 1] == text;
    assert pre + ds + ws + [q] + text + [q] + post + comment == pre + ds + ws + name + post + comment;
    LineShape(pre, ds, ws, name, post, comment);
  }

  /** `42 Hello   World`: any other name is lower-cased with whitespace runs turned into `-`. */
  lemma UnquotedLine(pre: string, ds: string, ws: string, name: string, post: string, comment: string)
    requires AllSpace(pre) && AllSpace(post)
    requires ds != [] && AllDigits(ds)
    requires ws != [] && AllSpace(ws)
    requires name != [] && !IsSpace(name[0]) && !IsSpace(name[|name| - 1])
    requires '#' !in name && '\n' !in name && !IsFullyQuoted(name)
    requires comment == [] || comment[0] == '#'
    ensures ParseLine(pre + ds + ws + name + post + comment) == Assignment(Value(ds), Normalize(name))
  {
    LineShape(pre, ds, ws, name, post, comment);
  }

  // ---------------------------------------------------------------------------
  // One file

  predicate NamesNonEmpty(d: Dict)
  {
    forall i | 0 <= i < |d| :: d[i].value != []
  }

  lemma {:induction false} AssignKeepsNames(d: Dict, k: nat, v: string)
    requires NamesNonEmpty(d) && v != []
    ensures NamesNonEmpty(Assign(d, k, v))
  {
    if d != [] && d[0].key != k {
      AssignKeepsNames(d[1..], k, v);
      assert Assign(d, k, v) == [d[0]] + Assign(d[1..], k, v);
    }
  }

  /** `dict.update` with a dict of non-empty names keeps every name non-empty. */
  lemma {:induction false} UpdateKeepsNames(d: Dict, u: Dict)
    ensures NamesNonEmpty(d) && NamesNonEmpty(u) ==> NamesNonEmpty(Update(d, u))
    decreases |u|
  {
    if u != [] && NamesNonEmpty(d) && NamesNonEmpty(u) {
      AssignKeepsNames(d, u[0].key, u[0].value);
      assert NamesNonEmpty(u[1..]) by {
        forall i | 0 <= i < |u| - 1 ensures u[1..][i].value != [] {
          assert u[1..][i] == u[i + 1];
        }
      }
      UpdateKeepsNames(Assign(d, u[0].key, u[0].value), u[1..]);
    }
  }

  /** What each line of a file contributes, in file order. */
  function Classify(lines: seq<string>): (rs: seq<ParsedLine>)
    ensures |rs| == |lines|
  {
    seq(|lines|, j requires 0 <= j < |lines| => ParseLine(lines[j]))
  }

  /** Classifying a file in two parts gives the two parts' results one after the other. */
  lemma ClassifySplit(lines: seq<string>, more: seq<string>)
    ensures Classify(lines + more) == Classify(lines) + Classify(more)
  {
    var all := lines + more;
    forall j | 0 <= j < |all|
      ensures Classify(all)[j] == (Classify(lines) + Classify(more))[j]
    {
      if j < |lines| {
        assert all[j] == lines[j];
      } else {
        assert all[j] == more[j - |lines|];
      }
    }
  }

  /**
    The reading loop from some line on: blank lines are skipped, a malformed
    line stops it with a `ParserError`, and every other line is assigned into
    the dict built so far.
   */
  function Apply(acc: Dict, rs: seq<ParsedLine>): (r: Result<Dict>)
    ensures r.Ok? && Distinct(acc) ==> Distinct(r.value)
    ensures r.Ok? && NamesNonEmpty(acc) ==> NamesNonEmpty(r.value)
    decreases |rs|
  {
    if rs == [] then Ok(acc)
    else
      match rs[0]
      case Blank => Apply(acc, rs[1..])
      case Malformed(line) => Err(ParserError(line))
      case Assignment(id, name) =>
        AssignDistinct(acc, id, name);
        if NamesNonEmpty(acc) then AssignKeepsNames(acc, id, name); Apply(Assign(acc, id, name), rs[1..])
        else Apply(Assign(acc, id, name), rs[1..])
  }

  /** One turn of the reading loop: what result `i` does to the dict built so far. */
  lemma ApplyStep(acc: Dict, rs: seq<ParsedLine>, i: nat)
    requires i < |rs|
    ensures Apply(acc, rs[i..]) ==
      if rs[i].Blank? then Apply(acc, rs[i + 1..])
      else if rs[i].Malformed? then Err(ParserError(rs[i].line))
      else Apply(Assign(acc, rs[i].id, rs[i].name), rs[i + 1..])
  {
    assert rs[i..][0] == rs[i] && rs[i..][1..] == rs[i + 1..];
  }

  /** What `read_channel_list` / `read_theme` return for a file with these lines. */
  function ParseLines(lines: seq<string>): (r: Result<Dict>)
    ensures r.Ok? ==> Distinct(r.value) && NamesNonEmpty(r.value)
  {
    Apply([], Classify(lines))
  }

  /** The (id, name) pairs of the well-formed lines, in file order, repeats included. */
  function Assignments(rs: seq<ParsedLine>): Dict
  {
    if rs == [] then []
    else
      match rs[0]
      case Assignment(id, name) => [Item(id, name)] + Assignments(rs[1..])
      case _ => Assignments(rs[1..])
  }

  /** The index of the first malformed line, or the number of lines when there is none. */
  function FirstMalformed(rs: seq<ParsedLine>): (i: nat)
    ensures i <= |rs|
    ensures forall j | 0 <= j < i :: !rs[j].Malformed?
    ensures i < |rs| ==> rs[i].Malformed?
  {
    if rs == [] || rs[0].Malformed? then 0
    else
      var i := FirstMalformed(rs[1..]);
      assert forall j | 1 <= j <= i :: rs[j] == rs[1..][j - 1];
      i + 1
  }

  /** Reading fails exactly when some line is malformed, and it reports the first such line. */
  lemma {:induction false} ApplyFails(acc: Dict, rs: seq<ParsedLine>)
    ensures Apply(acc, rs).Err? <==> FirstMalformed(rs) < |rs|
    ensures Apply(acc, rs).Err? ==> Apply(acc, rs).error.line == rs[FirstMalformed(rs)].line
    decreases |rs|
  {
    if rs != [] {
      match rs[0]
      case Malformed(_) =>
      case Blank =>
        ApplyFails(acc, rs[1..]);
      case Assignment(id, name) =>
        ApplyFails(Assign(acc, id, name), rs[1..]);
    }
  }

  /** A file fails to read exactly when one of its lines is malformed; the error carries the first one. */
  lemma ParseLinesFails(lines: seq<string>)
    ensures var i := FirstMalformed(Classify(lines));
      (ParseLines(lines).Err? <==> i < |lines|) &&
      (i < |lines| ==> ParseLine(lines[i]).Malformed? && ParseLines(lines).error.line == ParseLine(lines[i]).line) &&
      (forall j | 0 <= j < i :: !ParseLine(lines[j]).Malformed?)
  {
    var rs := Classify(lines);
    ApplyFails([], rs);
    forall j | 0 <= j < FirstMalformed(rs)
      ensures !ParseLine(lines[j]).Malformed?
    {
      assert rs[j] == ParseLine(lines[j]);
    }
  }

  /** A successful read is `dict.update` of the dict built so far with the file's (id, name) pairs. */
  lemma {:induction false} ApplyIsUpdate(acc: Dict, rs: seq<ParsedLine>)
    requires Apply(acc, rs).Ok?
    ensures Apply(acc, rs).value == Update(acc, Assignments(rs))
    decreases |rs|
  {
    if rs != [] {
      match rs[0]
      case Assignment(id, name) =>
        ApplyIsUpdate(Assign(acc, id, name), rs[1..]);
        var u := Assignments(rs);
        assert u == [Item(id, name)] + Assignments(rs[1..]);
        assert u[1..] == Assignments(rs[1..]);
      case Blank =>
        ApplyIsUpdate(acc, rs[1..]);
      case Malformed(_) =>
    }
  }

  lemma {:induction false} ApplySplit(acc: Dict, rs: seq<ParsedLine>, more: seq<ParsedLine>)
    requires Apply(acc, rs + more).Ok?
    ensures Apply(acc, rs).Ok?
    ensures Apply(acc, rs + more) == Apply(Apply(acc, rs).value, more)
    decreases |rs|
  {
    if rs == [] {
      assert rs + more == more;
    } else {
      var all := rs + more;
      assert all[0] == rs[0];
      assert all[1..] == rs[1..] + more;
      match rs[0]
      case Blank => ApplySplit(acc, rs[1..], more);
      case Assignment(id, name) => ApplySplit(Assign(acc, id, name), rs[1..], more);
    }
  }

  /**
    Within one file the last line for an id decides its name, while the id
    keeps the place where it first appeared: reading more lines never moves
    an id that earlier lines produced.
   */
  lemma LastLineWins(lines: seq<string>, more: seq<string>, k: nat)
    requires ParseLines(lines + more).Ok?
    ensures ParseLines(lines).Ok?
    ensures Get(ParseLines(lines + more).value, k) == LastValue(Assignments(Classify(lines + more)), k)
    ensures var early := ParseLines(lines).value;
      |early| <= |ParseLines(lines + more).value| && Keys(ParseLines(lines + more).value)[..|early|] == Keys(early)
  {
    ClassifySplit(lines, more);
    ApplyIsUpdate([], Classify(lines + more));
    UpdateGet([], Assignments(Classify(lines + more)), k);
    ApplySplit([], Classify(lines), Classify(more));
    ApplyIsUpdate(ParseLines(lines).value, Classify(more));
  }

  // ---------------------------------------------------------------------------
  // Several files

  /** Each file read on its own, in argument order. */
  function ReadEach(files: seq<seq<string>>): (parsed: seq<Result<Dict>>)
    ensures |parsed| == |files|
  {
    seq(|files|, i requires 0 <= i < |files| => ParseLines(files[i]))
  }

  /** The files' dicts merged into `acc` with `dict.update` in turn; the first failure stops the merge. */
  function Merge(acc: Dict, parsed: seq<Result<Dict>>): (r: Result<Dict>)
    ensures r.Ok? && Distinct(acc) ==> Distinct(r.value)
    ensures r.Ok? && NamesNonEmpty(acc) && EachNamed(parsed) ==> NamesNonEmpty(r.value)
    ensures r.Ok? ==> |acc| <= |r.value| && Keys(r.value)[..|acc|] == Keys(acc)
    decreases |parsed|
  {
    if parsed == [] then Ok(acc)
    else
      match parsed[0]
      case Err(e) => Err(e)
      case Ok(t) =>
        UpdateKeepsNames(acc, t);
        EachNamedTail(parsed);
        var r := Merge(Update(acc, t), parsed[1..]);
        assert r.Ok? ==> Keys(r.value)[..|acc|] == Keys(r.value)[..|Update(acc, t)|][..|acc|];
        r
  }

  /** What `read_channel_lists` / `read_themes` return for files with these contents. */
  function ParseFiles(files: seq<seq<string>>): (r: Result<Dict>)
    ensures files == [] ==> r == Ok([])
    ensures r.Ok? ==> Distinct(r.value) && NamesNonEmpty(r.value)
  {
    ReadEachNamed(files);
    Merge([], ReadEach(files))
  }

  predicate EachNamed(parsed: seq<Result<Dict>>)
  {
    forall i | 0 <= i < |parsed| && parsed[i].Ok? :: NamesNonEmpty(parsed[i].value)
  }

  lemma EachNamedTail(parsed: seq<Result<Dict>>)
    requires parsed != []
    ensures EachNamed(parsed) ==> EachNamed(parsed[1..]) && (parsed[0].Ok? ==> NamesNonEmpty(parsed[0].value))
  {
    if EachNamed(parsed) {
      forall i | 0 <= i < |parsed| - 1 && parsed[1..][i].Ok?
        ensures NamesNonEmpty(parsed[1..][i].value)
      {
        assert parsed[1..][i] == parsed[i + 1];
      }
    }
  }

  lemma ReadEachNamed(files: seq<seq<string>>)
    ensures EachNamed(ReadEach(files))
  {
    forall i | 0 <= i < |files| && ReadEach(files)[i].Ok?
      ensures NamesNonEmpty(ReadEach(files)[i].value)
    {
      assert ReadEach(files)[i] == ParseLines(files[i]);
    }
  }

  predicate EachDistinct(parsed: seq<Result<Dict>>)
  {
    forall i | 0 <= i < |parsed| && parsed[i].Ok? :: Distinct(parsed[i].value)
  }

  lemma ReadEachDistinct(files: seq<seq<string>>)
    ensures EachDistinct(ReadEach(files))
  {
    forall i | 0 <= i < |files| && ReadEach(files)[i].Ok?
      ensures Distinct(ReadEach(files)[i].value)
    {
      assert ReadEach(files)[i] == ParseLines(files[i]);
    }
  }

  /** The name the last file that mentions `k` gives it. */
  function LastDefinition(parsed: seq<Result<Dict>>, k: nat): Option<string>
  {
    if parsed == [] then None
    else
      var later := LastDefinition(parsed[1..], k);
      if later.Some? then later
      else
        match parsed[0]
        case Ok(t) => Get(t, k)
        case Err(_) => None
  }

  /** Merging is last-write-wins per id across files; ids only earlier dicts define are kept. */
  lemma {:induction false} MergeLastWins(acc: Dict, parsed: seq<Result<Dict>>, k: nat)
    requires EachDistinct(parsed)
    requires Merge(acc, parsed).Ok?
    ensures Get(Merge(acc, parsed).value, k) ==
      if LastDefinition(parsed, k).Some? then LastDefinition(parsed, k) else Get(acc, k)
    decreases |parsed|
  {
    if parsed != [] {
      var t := parsed[0].value;
      assert EachDistinct(parsed[1..]) by {
        forall i | 0 <= i < |parsed[1..]| && parsed[1..][i].Ok?
          ensures Distinct(parsed[1..][i].value)
        {
          assert parsed[1..][i] == parsed[i + 1];
        }
      }
      MergeLastWins(Update(acc, t), parsed[1..], k);
      UpdateGet(acc, t, k);
      LastValueOfDistinct(t, k);
    }
  }

  /** Across the files, each id has the name the last file defining it gives; the result is a dict. */
  lemma FilesLastWins(files: seq<seq<string>>, k: nat)
    requires ParseFiles(files).Ok?
    ensures Get(ParseFiles(files).value, k) == LastDefinition(ReadEach(files), k)
  {
    ReadEachDistinct(files);
    MergeLastWins([], ReadEach(files), k);
  }

  /** Merging fails exactly when one of the dicts failed. */
  lemma {:induction false} MergeFails(acc: Dict, parsed: seq<Result<Dict>>)
    ensures Merge(acc, parsed).Err? <==> exists i | 0 <= i < |parsed| :: parsed[i].Err?
    decreases |parsed|
  {
    if parsed != [] && parsed[0].Ok? {
      MergeFails(Update(acc, parsed[0].value), parsed[1..]);
      forall i | 0 < i < |parsed| ensures parsed[i] == parsed[1..][i - 1] { }
    }
  }

  /** Reading several files fails exactly when one of them has a malformed line. */
  lemma ParseFilesFails(files: seq<seq<string>>)
    ensures ParseFiles(files).Err? <==> exists i | 0 <= i < |files| :: ParseLines(files[i]).Err?
  {
    MergeFails([], ReadEach(files));
    if ParseFiles(files).Err? {
      var i :| 0 <= i < |files| && ReadEach(files)[i].Err?;
      assert ReadEach(files)[i] == ParseLines(files[i]);
    }
    forall i | 0 <= i < |files| && ParseLines(files[i]).Err?
      ensures ReadEach(files)[i].Err?
    {
      assert ReadEach(files)[i] == ParseLines(files[i]);
    }
  }

  /** A failed merge returns the error of the first dict that failed. */
  lemma {:induction false} MergeFirstError(acc: Dict, parsed: seq<Result<Dict>>, i: nat)
    requires i < |parsed| && parsed[i].Err?
    requires forall j | 0 <= j < i :: parsed[j].Ok?
    ensures Merge(acc, parsed) == parsed[i]
    decreases i
  {
    if i > 0 {
      assert forall j | 0 <= j < i - 1 :: parsed[1..][j] == parsed[j + 1];
      MergeFirstError(Update(acc, parsed[0].value), parsed[1..], i - 1);
    }
  }

  /**
   * Reading several files that fail returns the error of the first failing
   * file in argument order: by `ParseLinesFails`, its first malformed line.
   */
  lemma ParseFilesFirstError(files: seq<seq<string>>, i: nat)
    requires i < |files| && ParseLines(files[i]).Err?
    requires forall j | 0 <= j < i :: ParseLines(files[j]).Ok?
    ensures ParseFiles(files) == ParseLines(files[i])
    ensures var m := FirstMalformed(Classify(files[i]));
      m < |files[i]| && ParseFiles(files).error.line == ParseLine(files[i][m]).line
  {
    var parsed := ReadEach(files);
    assert forall j | 0 <= j < i :: parsed[j] == ParseLines(files[j]);
    MergeFirstError([], parsed, i);
    ParseLinesFails(files[i]);
  }

}
