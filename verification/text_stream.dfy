/** `QTextStream::readLine` called until `atEnd`, as the file loaders of
    the program read their input. The text stream's UTF-8 codec is left
    out: a file is the sequence of characters it decodes to. */
module TextStream {
  import Seqs

  /** One '\r' at the end of a line is not part of it. */
  function DropReturn(line: string): (r: string)
    ensures r == line || line == r + "\r"
    ensures line != [] && line[|line| - 1] == '\r' ==> |r| == |line| - 1
  {
    if line != [] && line[|line| - 1] == '\r' then line[..|line| - 1] else line
  }

  /** The lines of `text`: each ends at '\n', and a '\r' right before the
      '\n' is dropped with it. The unterminated last line loses a final
      '\r' as well: `readLine` does not make a '\r' at the end of the data
      part of the line. */
  function ReadLines(text: string): (lines: seq<string>)
    ensures text == [] <==> lines == []
    ensures forall i :: 0 <= i < |lines| ==> '\n' !in lines[i]
    ensures forall i :: 0 <= i < |lines| ==> |lines[i]| <= |text|
    decreases |text|
  {
    if text == [] then []
    else
      var i := Seqs.IndexOf(text, '\n');
      if i == |text| then [DropReturn(text)]
      else
        var line := text[..i];
        assert forall c :: c in line ==> c != '\n';
        [DropReturn(line)] + ReadLines(text[i + 1..])
  }

  /** A line without a newline and not ending in '\r', followed by '\n',
      reads back as that line. */
  lemma ReadLinesStep(line: string, rest: string)
    requires '\n' !in line
    requires line == [] || line[|line| - 1] != '\r'
    ensures ReadLines(line + "\n" + rest) == [line] + ReadLines(rest)
  {
    var text := line + "\n" + rest;
    Seqs.IndexOfAfter(line, '\n', rest);
    assert text[..|line|] == line;
    assert text[|line| + 1..] == rest;
  }

  /** A line ended by "\r\n" reads like the same line ended by '\n'. */
  lemma ReadLinesCrlf(line: string, rest: string)
    requires '\n' !in line
    requires line == [] || line[|line| - 1] != '\r'
    ensures ReadLines(line + "\r\n" + rest) == ReadLines(line + "\n" + rest)
  {
    var text := line + "\r\n" + rest;
    Seqs.IndexOfAfter(line + "\r", '\n', rest);
    assert text == line + "\r" + "\n" + rest;
    assert text[..|line| + 1] == line + "\r";
    assert text[|line| + 2..] == rest;
    ReadLinesStep(line, rest);
  }

  /** The last line, with no newline after it, drops a final '\r' too:
      "ab\r" reads as "ab". */
  lemma ReadLinesLast(line: string)
    requires line != [] && '\n' !in line
    ensures ReadLines(line) == [DropReturn(line)]
    ensures line[|line| - 1] == '\r' ==> ReadLines(line) == [line[..|line| - 1]]
  {
  }
}
