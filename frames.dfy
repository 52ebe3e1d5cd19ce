/** The per-record frame derivation (six_frame_aminoacid.py:111-124): the
    upper-cased sequence read from offsets 0, 1 and 2 (frames 1-3), and its
    reverse complement read from offsets 0, 1 and 2 (frames 4-6, the minus
    frames), each passed to `translate`. */
module Frames {
  import opened PyStrings
  import opened CodonTable
  import opened Nucleotides
  import opened Translator

  /** The six strands s1..s6 of lines 111-117, in frame order. */
  function FrameStrands(raw: string): seq<string> {
    var s1 := Upper(raw);
    var s4 := ReverseComplement(s1);
    [s1, Slice(s1, 1, |s1|), Slice(s1, 2, |s1|), s4, Slice(s4, 1, |s4|), Slice(s4, 2, |s4|)]
  }

  /** The six amino-acid strings aa1..aa6 of lines 119-124. */
  function SixFrames(raw: string): (aas: seq<string>)
    ensures |aas| == 6
  {
    var fs := FrameStrands(raw);
    [Translation(fs[0]), Translation(fs[1]), Translation(fs[2]),
     Translation(fs[3]), Translation(fs[4]), Translation(fs[5])]
  }

  /** Frame k + 1 reads the upper-cased sequence from offset k, and frame
      k + 4 is the reverse complement of the sequence without its last k
      characters; both are as long as the sequence minus k, and a sequence
      shorter than the offset gives two empty strands, not an error. The
      minus strands hold only A, C, G, T. */
  lemma {:induction false} FrameStrandsShape(raw: string, k: nat)
    requires k < 3
    ensures |FrameStrands(raw)| == 6
    ensures k <= |raw| ==> FrameStrands(raw)[k] == Upper(raw)[k..]
    ensures k <= |raw| ==> FrameStrands(raw)[3 + k] == ReverseComplement(Upper(raw)[..|raw| - k])
    ensures |raw| < k ==> FrameStrands(raw)[k] == [] && FrameStrands(raw)[3 + k] == []
    ensures |FrameStrands(raw)[3 + k]| == |FrameStrands(raw)[k]|
    ensures AllBases(FrameStrands(raw)[3 + k])
  {
    var s1 := Upper(raw);
    var s4 := ReverseComplement(s1);
    if k <= |s1| {
      ReverseComplementDrop(s1, k);
      assert Slice(s4, k, |s4|) == s4[k..];
    }
  }

  /** Lines 111-124: derive the six strands and translate each of them. */
  method TranslateFrames(raw: string) returns (frames: seq<string>)
    ensures frames == SixFrames(raw)
  {
    var s1 := Upper(raw);
    var s2 := Slice(s1, 1, |s1|);
    var s3 := Slice(s1, 2, |s1|);
    var s4 := Complement(Reverse(s1));
    var s5 := Slice(s4, 1, |s4|);
    var s6 := Slice(s4, 2, |s4|);
    var aa1 := Translate(s1);
    var aa2 := Translate(s2);
    var aa3 := Translate(s3);
    var aa4 := Translate(s4);
    var aa5 := Translate(s5);
    var aa6 := Translate(s6);
    frames := [aa1, aa2, aa3, aa4, aa5, aa6];
    SixFramesAre(raw, s1, s4);
  }

  lemma SixFramesAre(raw: string, s1: string, s4: string)
    requires s1 == Upper(raw) && s4 == Complemented(Reverse(s1))
    ensures SixFrames(raw) ==
      [Translation(s1), Translation(Slice(s1, 1, |s1|)), Translation(Slice(s1, 2, |s1|)),
       Translation(s4), Translation(Slice(s4, 1, |s4|)), Translation(Slice(s4, 2, |s4|))]
  {
  }

  /** Upper-casing comes first, and the reverse complement of ATGAAATAG is
      CTATTTCAT. */
  lemma StrandsExample()
    ensures FrameStrands("atgaaatag") == FrameStrands("ATGAAATAG")
    ensures FrameStrands("ATGAAATAG")[0] == "ATGAAATAG"
    ensures FrameStrands("ATGAAATAG")[3] == "CTATTTCAT"
  {
    UpperExample();
    ReverseComplementExample();
  }

  /** Frame 1 of ATGAAATAG reads "MK-" and frame 4 reads "LFH". */
  lemma SixFramesExample()
    ensures SixFrames("ATGAAATAG")[0] == "MK-"
    ensures SixFrames("ATGAAATAG")[3] == "LFH"
  {
    StrandsExample();
    var fs := FrameStrands("ATGAAATAG");
    assert SixFrames("ATGAAATAG")[0] == Translation(fs[0]);
    assert SixFrames("ATGAAATAG")[3] == Translation(fs[3]);
    TranslationExampleForward();
    TranslationExampleMinus();
  }

  lemma UpperExample()
    ensures Upper("atgaaatag") == "ATGAAATAG"
    ensures Upper("ATGAAATAG") == "ATGAAATAG"
  {
    var s := "ATGAAATAG";
    assert forall i :: 0 <= i < 9 ==> Upper("atgaaatag")[i] == s[i];
    assert forall i :: 0 <= i < 9 ==> Upper(s)[i] == s[i];
  }

  lemma ReverseComplementExample()
    ensures ReverseComplement("ATGAAATAG") == "CTATTTCAT"
  {
    var r := ReverseComplement("ATGAAATAG");
    assert forall i :: 0 <= i < 9 ==> r[i] == "CTATTTCAT"[i];
  }
}
