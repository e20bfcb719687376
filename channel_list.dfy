/**
  `channel_list.py`: the reader the command-line entry point uses. A file is
  given as its lines (reading the file or standard input is not modelled).
  The loop hands each line to `ReadLine`, then skips it, raises, or assigns
  into the dict `resp`.
 */
module ChannelList {
  import opened Text
  import opened OrderedDict
  import opened LineParser

  /** `read_channel_list`: one file's lines into an ordered id-to-name dict, or the first bad line. */
  method ReadChannelList(lines: seq<string>) returns (r: Result<Dict>)
    ensures r == ParseLines(lines)
  {
    assert Classify(lines)[0..] == Classify(lines);
    var resp: Dict := [];
    for i := 0 to |lines|
      invariant ParseLines(lines) == Apply(resp, Classify(lines)[i..])
    {
      ApplyStep(resp, Classify(lines), i);
      var res := ReadLine(lines[i]);
      assert res == Classify(lines)[i];
      if res.Blank? {
        continue;
      }
      if res.Malformed? {
        return Err(ParserError(res.line));
      }
      resp := Assign(resp, res.id, res.name);
    }
    assert Classify(lines)[|lines|..] == [];
    return Ok(resp);
  }

  /**
    `read_channel_lists`: no paths give an empty dict; otherwise the first
    file's dict is updated with each later file's in turn.
   */
  method ReadChannelLists(files: seq<seq<string>>) returns (r: Result<Dict>)
    ensures r == ParseFiles(files)
    ensures files == [] ==> r == Ok([])
    ensures r.Err? <==> exists i | 0 <= i < |files| :: ParseLines(files[i]).Err?
  {
    ParseFilesFails(files);
    if |files| == 0 {
      return Ok([]);
    }
    var first := ReadChannelList(files[0]);
    assert ReadEach(files)[0] == first;
    if first.Err? {
      return Err(first.error);
    }
    var resp := first.value;
    UpdateEmpty(resp);
    for i := 1 to |files|
      invariant ParseFiles(files) == Merge(resp, ReadEach(files)[i..])
    {
      ghost var parsed := ReadEach(files);
      assert parsed[i..][0] == parsed[i] == ParseLines(files[i]) && parsed[i..][1..] == parsed[i + 1..];
      var next := ReadChannelList(files[i]);
      if next.Err? {
        return Err(next.error);
      }
      resp := Update(resp, next.value);
    }
    assert ReadEach(files)[|files|..] == [];
    return Ok(resp);
  }

}
