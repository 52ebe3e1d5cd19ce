/** The record reader (six_frame_aminoacid.py:88-96): a loop over the input
    lines that keeps the current identifier `ID` and the dictionary
    `seqdict` from identifier to sequence. A line starting with '>' names a
    record and (re)starts its sequence; any other line is appended to the
    current record. Reading a sequence line before any header fails, because
    `ID` is still unbound. */
module Records {
  import opened Wrappers
  import opened PyStrings

  /** The NameError raised on `seqdict[ID]` when no header has been read. */
  datatype ParseError = SequenceBeforeHeader

  /** The loop's state: the current identifier, if any, and `seqdict`. */
  datatype ParseState = ParseState(current: Option<string>, records: map<string, string>)

  /** The current identifier always has an entry. */
  predicate Consistent(st: ParseState) {
    st.current.Some? ==> st.current.value in st.records
  }

  predicate IsHeader(line: string) {
    |line| > 0 && line[0] == '>'
  }

  /** `curline.strip(">").strip('\n')`: two strips in that order. */
  function HeaderId(line: string): string {
    Strip(Strip(line, '>'), '\n')
  }

  /** `curline.strip('\n')`. */
  function DataOf(line: string): string {
    Strip(line, '\n')
  }

  /** One iteration of the loop. */
  function Step(st: ParseState, line: string): (r: Result<ParseState, ParseError>)
    requires Consistent(st)
    ensures r.Ok? ==> Consistent(r.value)
    ensures r.Err? <==> !IsHeader(line) && st.current.None?
  {
    if IsHeader(line) then
      var id := HeaderId(line);
      Ok(ParseState(Some(id), st.records[id := ""]))
    else if st.current.None? then
      Err(SequenceBeforeHeader)
    else
      var id := st.current.value;
      Ok(ParseState(st.current, st.records[id := st.records[id] + DataOf(line)]))
  }

  /** The state after the loop has consumed `lines`, or the error that
      stopped it. */
  function Run(lines: seq<string>): (r: Result<ParseState, ParseError>)
    ensures r.Ok? ==> Consistent(r.value)
  {
    if lines == [] then Ok(ParseState(None, map[]))
    else
      match Run(lines[..|lines| - 1])
      case Err(e) => Err(e)
      case Ok(st) => Step(st, lines[|lines| - 1])
  }

  /** The dictionary the reader builds. */
  function Parse(lines: seq<string>): Result<map<string, string>, ParseError> {
    match Run(lines)
    case Err(e) => Err(e)
    case Ok(st) => Ok(st.records)
  }

  /** Lines 88-96: the loop over the lines, updating `seqdict` and `ID`. */
  method ParseRecords(lines: seq<string>) returns (result: Result<map<string, string>, ParseError>)
    ensures result == Parse(lines)
  {
    var seqdict: map<string, string> := map[];
    var id: Option<string> := None;
    for i := 0 to |lines|
      invariant Run(lines[..i]) == Ok(ParseState(id, seqdict))
    {
      var curline := lines[i];
      assert lines[..i + 1][..i] == lines[..i];
      if |curline| > 0 && curline[0] == '>' {
        curline := Strip(Strip(curline, '>'), '\n');
        id := Some(curline);
        seqdict := seqdict[curline := ""];
      } else {
        curline := Strip(curline, '\n');
        if id.None? {
          ErrorPersists(lines, i + 1);
          assert lines[..|lines|] == lines;
          return Err(SequenceBeforeHeader);
        }
        seqdict := seqdict[id.value := seqdict[id.value] + curline];
      }
    }
    assert lines[..|lines|] == lines;
    return Ok(seqdict);
  }

  /** Once the loop has failed, reading more lines does not recover. */
  lemma {:induction false} ErrorPersists(lines: seq<string>, n: nat)
    requires n <= |lines| && Run(lines[..n]).Err?
    ensures Run(lines) == Err(SequenceBeforeHeader)
    decreases |lines| - n
  {
    if n < |lines| {
      assert lines[..n + 1][..n] == lines[..n];
      ErrorPersists(lines, n + 1);
    } else {
      assert lines[..n] == lines;
      assert Run(lines).error.SequenceBeforeHeader?;
    }
  }

  /** Reading fails exactly when the first line is not a header; after a
      header has been read there always is a current identifier. */
  lemma {:induction false} ParseFailsIffLeadingData(lines: seq<string>)
    ensures Parse(lines).Err? <==> |lines| > 0 && !IsHeader(lines[0])
    ensures Run(lines).Ok? && |lines| > 0 ==> Run(lines).value.current.Some?
  {
    if |lines| > 0 {
      var init := lines[..|lines| - 1];
      ParseFailsIffLeadingData(init);
      if |lines| > 1 {
        assert init[0] == lines[0];
      }
    }
  }

  /** The identifiers named by the header lines. */
  function HeaderIds(lines: seq<string>): set<string> {
    set i | 0 <= i < |lines| && IsHeader(lines[i]) :: HeaderId(lines[i])
  }

  lemma HeaderIdsSnoc(init: seq<string>, line: string)
    ensures HeaderIds(init + [line]) ==
      HeaderIds(init) + (if IsHeader(line) then {HeaderId(line)} else {})
  {
    var lines := init + [line];
    forall id | id in HeaderIds(lines)
      ensures id in HeaderIds(init) || (IsHeader(line) && id == HeaderId(line))
    {
      var i :| 0 <= i < |lines| && IsHeader(lines[i]) && HeaderId(lines[i]) == id;
      if i < |init| {
        assert init[i] == lines[i];
      }
    }
    forall id | id in HeaderIds(init)
      ensures id in HeaderIds(lines)
    {
      var i :| 0 <= i < |init| && IsHeader(init[i]) && HeaderId(init[i]) == id;
      assert lines[i] == init[i];
    }
    if IsHeader(line) {
      assert lines[|init|] == line;
    }
  }

  /** Reading one more line is one more step of the loop. */
  lemma RunSnoc(init: seq<string>, line: string)
    ensures Run(init + [line]) ==
      if Run(init).Err? then Err(SequenceBeforeHeader) else Step(Run(init).value, line)
  {
    assert (init + [line])[..|init|] == init;
  }

  lemma StepKeys(st: ParseState, line: string)
    requires Consistent(st) && Step(st, line).Ok?
    ensures Step(st, line).value.records.Keys ==
      st.records.Keys + (if IsHeader(line) then {HeaderId(line)} else {})
  {
  }

  /** A successful read has one entry per distinct header identifier and no
      other. */
  lemma {:induction false} ParsedIds(lines: seq<string>)
    requires Run(lines).Ok?
    ensures Run(lines).value.records.Keys == HeaderIds(lines)
  {
    if lines != [] {
      var init, line := lines[..|lines| - 1], lines[|lines| - 1];
      assert lines == init + [line];
      RunSnoc(init, line);
      ParsedIds(init);
      StepKeys(Run(init).value, line);
      HeaderIdsSnoc(init, line);
    }
  }

  /** The sequence carried by a run of non-header lines. */
  function SequenceOf(data: seq<string>): string {
    if data == [] then [] else SequenceOf(data[..|data| - 1]) + DataOf(data[|data| - 1])
  }

  /** A header followed by sequence lines leaves exactly those lines'
      concatenation under its identifier and changes no other entry: a
      repeated identifier keeps only the data after its last header. */
  lemma {:induction false} LastHeaderWins(before: seq<string>, header: string, data: seq<string>)
    requires Run(before).Ok? && IsHeader(header)
    requires forall i :: 0 <= i < |data| ==> !IsHeader(data[i])
    ensures Run(before + [header] + data) == Ok(ParseState(Some(HeaderId(header)),
      Run(before).value.records[HeaderId(header) := SequenceOf(data)]))
    decreases |data|
  {
    if data == [] {
      assert before + [header] + data == before + [header];
      RunSnoc(before, header);
    } else {
      var init, last := data[..|data| - 1], data[|data| - 1];
      LastHeaderWins(before, header, init);
      var prefix := before + [header] + init;
      SnocOfAppend(before + [header], data);
      RunSnoc(prefix, last);
      var id, r := HeaderId(header), Run(before).value.records;
      var st := Run(prefix).value;
      assert st.records[id] == SequenceOf(init);
      assert !IsHeader(last);
      assert Step(st, last).value.records == r[id := SequenceOf(init)][id := SequenceOf(init) + DataOf(last)];
      assert SequenceOf(data) == SequenceOf(init) + DataOf(last);
      assert r[id := SequenceOf(init)][id := SequenceOf(data)] == r[id := SequenceOf(data)];
      assert Step(st, last) == Ok(ParseState(Some(id), r[id := SequenceOf(data)]));
    }
  }

  lemma SnocOfAppend(a: seq<string>, b: seq<string>)
    requires b != []
    ensures a + b == (a + b[..|b| - 1]) + [b[|b| - 1]]
  {
  }

  lemma HeaderIdExamples()
    ensures HeaderId(">seq1\n") == "seq1"
    ensures HeaderId(">>a>\n") == "a>"
  {
    assert ">seq1\n"[1..] == "seq1\n";
    assert TrimStart(">seq1\n", '>') == "seq1\n";
    assert TrimStart("seq1\n", '\n') == "seq1\n";
    assert "seq1\n"[..4] == "seq1";
    assert TrimEnd("seq1\n", '\n') == "seq1";
    assert ">>a>\n"[1..] == ">a>\n" && ">a>\n"[1..] == "a>\n";
    assert TrimStart(">>a>\n", '>') == "a>\n";
    assert TrimStart("a>\n", '\n') == "a>\n";
    assert "a>\n"[..2] == "a>";
    assert TrimEnd("a>\n", '\n') == "a>";
  }
}
