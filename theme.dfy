/**
  `theme.py`: the same line reader as `channel_list.py` under the name
  `Theme`, with a multi-file reader that starts from an empty dict instead
  of from the first file's. Both readers are proved equal to the same
  specification functions, so they agree on every input.
 */
module ThemeFile {
  import opened Text
  import opened OrderedDict
  import opened LineParser

  /** A mapping of channel id to channel name, in insertion order. */
  type Theme = Dict

  /** `read_theme`. */
  method ReadTheme(lines: seq<string>) returns (r: Result<Theme>)
    ensures r == ParseLines(lines)
  {
    assert Classify(lines)[0..] == Classify(lines);
    var resp: Theme := [];
    for i := 0 to |lines|
      invariant ParseLines(lines) == Apply(resp, Classify(lines)[i..])
    {
      ApplyStep(resp, Classify(lines), i);
      var res := ReadLine(lines[i]);
      assert res == Classify(lines)[i];
      if res.Blank? {
        continue;
      }
      if res.Malformed? {
        return Err(ParserError(res.line));
      }
      resp := Assign(resp, res.id, res.name);
    }
    assert Classify(lines)[|lines|..] == [];
    return Ok(resp);
  }

  /** `read_themes`: start from an empty dict and update it with each file's in argument order. */
  method ReadThemes(files: seq<seq<string>>) returns (r: Result<Theme>)
    ensures r == ParseFiles(files)
    ensures files == [] ==> r == Ok([])
    ensures r.Err? <==> exists i | 0 <= i < |files| :: ParseLines(files[i]).Err?
  {
    ParseFilesFails(files);
    var resp: Theme := [];
    assert ReadEach(files)[0..] == ReadEach(files);
    for i := 0 to |files|
      invariant ParseFiles(files) == Merge(resp, ReadEach(files)[i..])
    {
      ghost var parsed := ReadEach(files);
      assert parsed[i..][0] == parsed[i] == ParseLines(files[i]) && parsed[i..][1..] == parsed[i + 1..];
      var next := ReadTheme(files[i]);
      if next.Err? {
        return Err(next.error);
      }
      resp := Update(resp, next.value);
    }
    assert ReadEach(files)[|files|..] == [];
    return Ok(resp);
  }

}
