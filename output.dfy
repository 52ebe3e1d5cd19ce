/** What the script writes (six_frame_aminoacid.py:98-106, 126-148): the six
    output file names derived from the input path, and for every record and
    frame a header line followed by the translation wrapped at 80 symbols a
    line. Only the text is modelled; opening and writing the files is not. */
module Output {
  import opened Wrappers
  import opened PyStrings
  import opened Chunking
  import opened CodonTable
  import opened Translator
  import opened Frames
  import opened Records

  /** The line width of the output (the `80` passed to split_input). */
  const LineWidth: nat := 80

  /** "_frameN" for the frame number N. */
  function FrameLabel(n: nat): string
    requires 1 <= n <= 6
  {
    "_frame" + [('0' as int + n) as char]
  }

  /** `">" + k + "_frameN" + "\n"`. */
  function HeaderLine(id: string, n: nat): string
    requires 1 <= n <= 6
  {
    ">" + id + FrameLabel(n) + "\n"
  }

  /** The text of `for chunk in ...: write(chunk + "\n")`. */
  function WrapLines(chunks: seq<string>): string {
    if chunks == [] then [] else chunks[0] + "\n" + WrapLines(chunks[1..])
  }

  /** Everything written for one record in one frame. */
  function RecordText(id: string, n: nat, aa: string): string
    requires 1 <= n <= 6
  {
    HeaderLine(id, n) + WrapLines(Chunks(aa, LineWidth))
  }

  /** The six texts written for one record, in frame order, one per output
      file. */
  function RecordOutputs(id: string, raw: string): (texts: seq<string>)
    ensures |texts| == 6
  {
    FrameTexts(id, SixFrames(raw))
  }

  /** The texts for six translations, in order. */
  function FrameTexts(id: string, aas: seq<string>): seq<string>
    requires |aas| == 6
  {
    seq(6, i requires 0 <= i < 6 => RecordText(id, i + 1, aas[i]))
  }

  /** `infile.split('.')[0] + "_frameN.fa"`. */
  function OutputName(infile: string, n: nat): string
    requires 1 <= n <= 6
  {
    FirstField(infile, '.') + FrameLabel(n) + ".fa"
  }

  function RemoveNewlines(s: string): string {
    if s == [] then [] else (if s[0] == '\n' then [] else [s[0]]) + RemoveNewlines(s[1..])
  }

  function NewlineCount(s: string): nat {
    if s == [] then 0 else (if s[0] == '\n' then 1 else 0) + NewlineCount(s[1..])
  }

  lemma {:induction false} RemoveNewlinesAppend(a: string, b: string)
    ensures RemoveNewlines(a + b) == RemoveNewlines(a) + RemoveNewlines(b)
    ensures NewlineCount(a + b) == NewlineCount(a) + NewlineCount(b)
  {
    if a == [] {
      assert a + b == b;
    } else {
      assert (a + b)[1..] == a[1..] + b;
      RemoveNewlinesAppend(a[1..], b);
    }
  }

  lemma {:induction false} NoNewlines(s: string)
    requires '\n' !in s
    ensures RemoveNewlines(s) == s && NewlineCount(s) == 0
  {
    if s != [] {
      NoNewlines(s[1..]);
    }
  }

  /** The written lines hold the chunks and nothing else, one line per
      chunk. */
  lemma {:induction false} WrapLinesContent(chunks: seq<string>)
    requires forall i :: 0 <= i < |chunks| ==> '\n' !in chunks[i]
    ensures RemoveNewlines(WrapLines(chunks)) == Concat(chunks)
    ensures NewlineCount(WrapLines(chunks)) == |chunks|
  {
    if chunks != [] {
      var c, rest := chunks[0], chunks[1..];
      WrapLinesContent(rest);
      NoNewlines(c);
      LineBreak(c, WrapLines(rest));
      assert WrapLines(chunks) == c + "\n" + WrapLines(rest);
      assert Concat(chunks) == c + Concat(rest);
    }
  }

  lemma LineBreak(c: string, tail: string)
    ensures RemoveNewlines(c + "\n" + tail) == RemoveNewlines(c) + RemoveNewlines(tail)
    ensures NewlineCount(c + "\n" + tail) == NewlineCount(c) + 1 + NewlineCount(tail)
  {
    var nl := "\n";
    assert nl[1..] == [];
    assert RemoveNewlines(nl) == [] && NewlineCount(nl) == 1;
    RemoveNewlinesAppend(c, nl);
    RemoveNewlinesAppend(c + nl, tail);
  }

  /** The body of a record gives back the translation once the line breaks
      are removed, and has ceil(|aa| / 80) lines of at most 80 symbols; an
      empty translation writes no line at all. */
  lemma RecordBody(aa: string)
    requires '\n' !in aa
    ensures RemoveNewlines(WrapLines(Chunks(aa, LineWidth))) == aa
    ensures NewlineCount(WrapLines(Chunks(aa, LineWidth))) == CeilDiv(|aa|, LineWidth)
    ensures forall i :: 0 <= i < |Chunks(aa, LineWidth)| ==> |Chunks(aa, LineWidth)[i]| <= LineWidth
  {
    var cs := Chunks(aa, LineWidth);
    ChunksJoin(aa, LineWidth);
    ChunksCount(aa, LineWidth);
    ChunksShape(aa, LineWidth);
    forall i | 0 <= i < |cs|
      ensures '\n' !in cs[i]
    {
      ChunkHasNoNewline(aa, i);
    }
    WrapLinesContent(cs);
  }

  lemma ChunkHasNoNewline(aa: string, i: nat)
    requires '\n' !in aa && i < |Chunks(aa, LineWidth)|
    ensures '\n' !in Chunks(aa, LineWidth)[i]
  {
    ChunkAt(aa, LineWidth, i);
    var c := Chunks(aa, LineWidth)[i];
    forall j | 0 <= j < |c|
      ensures c[j] in aa
    {
      assert c[j] == aa[LineWidth * i + j];
    }
  }

  /** For an empty translation only the header line is written. */
  lemma RecordTextEmpty(id: string, n: nat)
    requires 1 <= n <= 6
    ensures RecordText(id, n, []) == HeaderLine(id, n)
  {
    assert HeaderLine(id, n) + [] == HeaderLine(id, n);
  }

  /** Translations are made of table symbols, so they never contain a line
      break and wrap cleanly. */
  lemma TranslationHasNoNewline(s: string)
    ensures '\n' !in Translation(s)
  {
    TranslateCodonsSymbols(Chunks(s, 3));
    assert '\n' !in AaDict;
  }

  /** The output base name is the input path up to its first '.', and the six
      names differ from each other. */
  lemma OutputNames(infile: string, n: nat, m: nat)
    requires 1 <= n <= 6 && 1 <= m <= 6
    ensures var base := FirstField(infile, '.');
      infile[..|base|] == base && '.' !in base &&
      (|base| < |infile| ==> infile[|base|] == '.') &&
      OutputName(infile, n) == base + "_frame" + [('0' as int + n) as char] + ".fa"
    ensures n != m ==> OutputName(infile, n) != OutputName(infile, m)
  {
    var base := FirstField(infile, '.');
    var a, b := OutputName(infile, n), OutputName(infile, m);
    assert a[|base| + 6] == ('0' as int + n) as char;
    assert b[|base| + 6] == ('0' as int + m) as char;
  }

  /** A one-record input `>seq1` / `ATGAAATAG` reads as that record. */
  lemma ParseExample()
    ensures Parse([">seq1\n", "ATGAAATAG\n"]) == Ok(map["seq1" := "ATGAAATAG"])
  {
    var lines := [">seq1\n", "ATGAAATAG\n"];
    var data := ["ATGAAATAG\n"];
    HeaderIdExamples();
    DataExample();
    assert Run([]) == Ok(ParseState(None, map[]));
    assert lines == [] + [">seq1\n"] + data;
    LastHeaderWins([], ">seq1\n", data);
    assert data[..0] == [];
    assert SequenceOf(data) == "ATGAAATAG";
    var m: map<string, string> := map[];
    assert m["seq1" := "ATGAAATAG"] == map["seq1" := "ATGAAATAG"];
    assert Run(lines) == Ok(ParseState(Some("seq1"), map["seq1" := "ATGAAATAG"]));
  }

  lemma DataExample()
    ensures DataOf("ATGAAATAG\n") == "ATGAAATAG"
  {
    assert TrimStart("ATGAAATAG\n", '\n') == "ATGAAATAG\n";
    assert "ATGAAATAG\n"[..9] == "ATGAAATAG";
  }

  /** Its frame 1 and frame 4 texts (the translations "MK-" and "LFH", see
      SixFramesExample) are one header line and one sequence line each. */
  lemma RecordTextExample()
    ensures RecordText("seq1", 1, "MK-") == ">seq1_frame1\nMK-\n"
    ensures RecordText("seq1", 4, "LFH") == ">seq1_frame4\nLFH\n"
  {
    HeaderExample();
    FrameText("seq1", 1, "MK-");
    FrameText("seq1", 4, "LFH");
    assert ">seq1_frame1\n" + "MK-" + "\n" == ">seq1_frame1\nMK-\n";
    assert ">seq1_frame4\n" + "LFH" + "\n" == ">seq1_frame4\nLFH\n";
  }

  /** Frame k of the record's outputs is the text for the translation of
      strand k. */
  lemma RecordOutputsAt(id: string, raw: string, k: nat)
    requires k < 6
    ensures RecordOutputs(id, raw)[k] == RecordText(id, k + 1, SixFrames(raw)[k])
  {
    var aas := SixFrames(raw);
    assert RecordOutputs(id, raw) == FrameTexts(id, aas);
    FrameTextAt(id, aas, k);
  }

  lemma FrameTextAt(id: string, aas: seq<string>, k: nat)
    requires |aas| == 6 && k < 6
    ensures FrameTexts(id, aas)[k] == RecordText(id, k + 1, aas[k])
  {
  }

  lemma HeaderExample()
    ensures HeaderLine("seq1", 1) == ">seq1_frame1\n"
    ensures HeaderLine("seq1", 4) == ">seq1_frame4\n"
  {
  }

  lemma FrameText(id: string, n: nat, aa: string)
    requires 1 <= n <= 6 && 0 < |aa| <= LineWidth
    ensures RecordText(id, n, aa) == HeaderLine(id, n) + aa + "\n"
  {
    assert Chunks(aa, LineWidth) == [aa];
    assert WrapLines([aa]) == aa + "\n" + WrapLines([]);
  }
}
