/**
  The report printed after the loop: one line per recorded update, with the
  old names padded to a common width so that the separators line up.
 */
module Summary {

  const Prefix: string := "Updated channel:  "
  const Separator: string := " \U{2502} "

  /** `s.ljust(width)`: `s` padded on the right with spaces to at least `width` characters. */
  function LeftJustify(s: string, width: nat): (r: string)
    ensures |r| == if |s| < width then width else |s|
    ensures r[..|s|] == s
    ensures forall i | |s| <= i < |r| :: r[i] == ' '
  {
    if |s| < width then s + seq(width - |s|, _ => ' ') else s
  }

  /** `max(len(c[0]) for c in channel_updates)`: the length of the longest old name. */
  function MaxOldLength(updates: seq<(string, string)>): (m: nat)
    requires updates != []
    ensures forall i | 0 <= i < |updates| :: |updates[i].0| <= m
    ensures exists i | 0 <= i < |updates| :: |updates[i].0| == m
  {
    if |updates| == 1 then |updates[0].0|
    else
      var rest := MaxOldLength(updates[1..]);
      assert forall i | 1 <= i < |updates| :: updates[i] == updates[1..][i - 1];
      if |updates[0].0| < rest then rest else |updates[0].0|
  }

  /** One report line for the update `(oldName, newName)`, the old name padded to `width`. */
  function SummaryLine(oldName: string, newName: string, width: nat): string
  {
    Prefix + LeftJustify(oldName, width) + Separator + newName
  }

  /** The whole report: nothing when no update was recorded. */
  function SummaryLines(updates: seq<(string, string)>): (lines: seq<string>)
    ensures |lines| == |updates|
    ensures forall i | 0 <= i < |lines| :: |lines[i]| >= |Prefix| + |updates[i].0| + |Separator| + |updates[i].1|
  {
    if updates == [] then []
    else
      var width := MaxOldLength(updates);
      seq(|updates|, i requires 0 <= i < |updates| => SummaryLine(updates[i].0, updates[i].1, width))
  }

  /** The report loop: compute the widest old name, then emit one padded line per update. */
  method Summarize(updates: seq<(string, string)>) returns (lines: seq<string>)
    ensures lines == SummaryLines(updates)
  {
    if |updates| == 0 {
      return [];
    }
    var maxOldLen := MaxOldLength(updates);
    lines := [];
    for i := 0 to |updates|
      invariant |lines| == i
      invariant forall j | 0 <= j < i :: lines[j] == SummaryLine(updates[j].0, updates[j].1, maxOldLen)
    {
      var oldName := LeftJustify(updates[i].0, maxOldLen);
      lines := lines + [Prefix + oldName + Separator + updates[i].1];
    }
  }

  /**
    The layout of the report: one line per update, in order; each starts with
    the fixed prefix, then the old name followed by spaces up to the longest
    old name's length, then the separator, then the new name. The separator
    therefore sits at the same column on every line.
   */
  lemma SummaryLayout(updates: seq<(string, string)>)
    ensures updates == [] ==> SummaryLines(updates) == []
    ensures updates != [] ==>
      var lines := SummaryLines(updates);
      var width := MaxOldLength(updates);
      |lines| == |updates| &&
      forall i | 0 <= i < |updates| ::
        var line := lines[i];
        var oldName := updates[i].0;
        |line| == |Prefix| + width + |Separator| + |updates[i].1| &&
        line[..|Prefix|] == Prefix &&
        line[|Prefix|..|Prefix| + |oldName|] == oldName &&
        (forall k | |Prefix| + |oldName| <= k < |Prefix| + width :: line[k] == ' ') &&
        line[|Prefix| + width..|Prefix| + width + |Separator|] == Separator &&
        line[|Prefix| + width + |Separator|..] == updates[i].1
  {
    if updates != [] {
      var width := MaxOldLength(updates);
      forall i | 0 <= i < |updates|
        ensures var line := SummaryLine(updates[i].0, updates[i].1, width);
          var oldName := updates[i].0;
          |line| == |Prefix| + width + |Separator| + |updates[i].1| &&
          line[..|Prefix|] == Prefix &&
          line[|Prefix|..|Prefix| + |oldName|] == oldName &&
          (forall k | |Prefix| + |oldName| <= k < |Prefix| + width :: line[k] == ' ') &&
          line[|Prefix| + width..|Prefix| + width + |Separator|] == Separator &&
          line[|Prefix| + width + |Separator|..] == updates[i].1
      {
        LineLayout(updates[i].0, updates[i].1, width);
      }
    }
  }

  lemma LineLayout(oldName: string, newName: string, width: nat)
    requires |oldName| <= width
    ensures var line := SummaryLine(oldName, newName, width);
      |line| == |Prefix| + width + |Separator| + |newName| &&
      line[..|Prefix|] == Prefix &&
      line[|Prefix|..|Prefix| + |oldName|] == oldName &&
      (forall k | |Prefix| + |oldName| <= k < |Prefix| + width :: line[k] == ' ') &&
      line[|Prefix| + width..|Prefix| + width + |Separator|] == Separator &&
      line[|Prefix| + width + |Separator|..] == newName
  {
    var padded := LeftJustify(oldName, width);
    var line := SummaryLine(oldName, newName, width);
    assert line == Prefix + padded + Separator + newName;
    assert line[|Prefix|..|Prefix| + |oldName|] == padded[..|oldName|];
    forall k | |Prefix| + |oldName| <= k < |Prefix| + width
      ensures line[k] == ' '
    {
      assert line[k] == padded[k - |Prefix|];
    }
  }

}
