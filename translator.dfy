/** `translate` (six_frame_aminoacid.py:55-68): cut the strand into codons
    of three characters (the last one possibly shorter), look every codon up
    in the table and append the symbols found, in codon order. */
module Translator {
  import opened PyStrings
  import opened Chunking
  import opened CodonTable

  /** The symbols of a list of codons, in order; codons the table does not
      hold contribute nothing. */
  function TranslateCodons(codons: seq<string>): (aa: string)
    ensures |aa| <= |codons|
  {
    if codons == [] then [] else Emit(codons[0]) + TranslateCodons(codons[1..])
  }

  /** The amino-acid string of a strand read from its first character. */
  function Translation(s: string): string {
    TranslateCodons(Chunks(s, 3))
  }

  /** translate: the codon loop (lines 59-63, the same loop as split_input
      with chunk size 3), then the lookup of every codon in order. */
  method Translate(s: string) returns (aaString: string)
    ensures aaString == Translation(s)
  {
    aaString := "";
    var codonList := SplitInput(s, 3);
    for i := 0 to |codonList|
      invariant aaString == TranslateCodons(codonList[..i])
    {
      var symbols := LookupCodon(codonList[i]);
      aaString := aaString + symbols;
      assert codonList[..i + 1] == codonList[..i] + [codonList[i]];
      TranslateCodonsSnoc(codonList[..i], codonList[i]);
    }
    assert codonList[..|codonList|] == codonList;
  }

  /** The inner loop of `translate` (lines 65-67): visit every key of the
      table in the dictionary's iteration order and append it when the codon
      is in its list. */
  method LookupCodon(codon: string) returns (symbols: string)
    ensures symbols == Emit(codon)
  {
    KeyOrderEnumeratesDict();
    symbols := "";
    for j := 0 to |KeyOrder|
      invariant AllKeys(KeyOrder[..j])
      invariant symbols == Scan(KeyOrder[..j], codon)
    {
      var k := KeyOrder[j];
      ScanStep(KeyOrder, j, codon);
      if codon in AaDict[k] {
        symbols := symbols + [k];
      }
    }
    assert KeyOrder[..|KeyOrder|] == KeyOrder;
    ScanIsEmit(KeyOrder, codon);
  }

  /** Only the dictionary's keys ever appear in a translation. */
  lemma {:induction false} TranslateCodonsSymbols(codons: seq<string>)
    ensures forall i :: 0 <= i < |TranslateCodons(codons)| ==> TranslateCodons(codons)[i] in AaDict
  {
    if codons != [] {
      var c := codons[0];
      TranslateCodonsSymbols(codons[1..]);
      if IsCodon(c) {
        EveryCodonListed(c);
      }
    }
  }

  lemma {:induction false} TranslateCodonsAppend(a: seq<string>, b: seq<string>)
    ensures TranslateCodons(a + b) == TranslateCodons(a) + TranslateCodons(b)
  {
    if a == [] {
      assert a + b == b;
    } else {
      assert (a + b)[1..] == a[1..] + b;
      TranslateCodonsAppend(a[1..], b);
    }
  }

  /** One more codon read by the loop of `translate`. */
  lemma TranslateCodonsSnoc(codons: seq<string>, c: string)
    ensures TranslateCodons(codons + [c]) == TranslateCodons(codons) + Emit(c)
  {
    TranslateCodonsAppend(codons, [c]);
    assert TranslateCodons([c]) == Emit(c) + TranslateCodons([]);
  }

  /** Translation distributes over a concatenation whose left part is a whole
      number of codons. */
  lemma TranslationAppend(a: string, b: string)
    requires |a| % 3 == 0
    ensures Translation(a + b) == Translation(a) + Translation(b)
  {
    ChunksAppend(a, b, 3);
    TranslateCodonsAppend(Chunks(a, 3), Chunks(b, 3));
  }

  /** A codon at a codon boundary contributes exactly its own lookup, in place:
      its symbol when it is one of the 64 codons, nothing otherwise. */
  lemma TranslationAtCodon(a: string, c: string, b: string)
    requires |a| % 3 == 0 && |c| == 3
    ensures Translation(a + c + b) == Translation(a) + Emit(c) + Translation(b)
  {
    TranslationAppend(a + c, b);
    TranslationAppend(a, c);
    assert Chunks(c, 3) == [c];
    assert TranslateCodons([c]) == Emit(c) + TranslateCodons([]);
  }

  /** A trailing ragged codon of one or two characters adds nothing. */
  lemma TranslationDropsRaggedTail(a: string, r: string)
    requires |a| % 3 == 0 && |r| < 3
    ensures Translation(a + r) == Translation(a)
  {
    TranslationAppend(a, r);
    if r != [] {
      assert Chunks(r, 3) == [r];
      assert TranslateCodons([r]) == Emit(r) + TranslateCodons([]);
    }
  }

  /** At most one symbol per codon, the last ragged one included. */
  lemma TranslationLength(s: string)
    ensures |Translation(s)| <= CeilDiv(|s|, 3)
  {
    ChunksCount(s, 3);
  }

  /** A strand over A, C, G, T made of whole codons translates to exactly one
      symbol per codon. */
  lemma {:induction false} TranslationExactLength(s: string)
    requires AllBases(s) && |s| % 3 == 0
    ensures |Translation(s)| == |s| / 3
    decreases |s|
  {
    if s != [] {
      var c, rest := s[..3], s[3..];
      assert s == [] + c + rest;
      TranslationAtCodon([], c, rest);
      assert IsCodon(c);
      TranslationExactLength(rest);
    }
  }

  lemma TranslationEmpty()
    ensures Translation([]) == []
  {
  }

  /** Reading from the front: the first codon's lookup, then the rest. */
  lemma TranslationCons(c: string, rest: string)
    requires |c| == 3
    ensures Translation(c + rest) == Emit(c) + Translation(rest)
  {
    TranslationEmpty();
    assert [] + c + rest == c + rest;
    TranslationAtCodon([], c, rest);
  }

  lemma EmitExamples()
    ensures Emit("ATG") == "M" && Emit("AAA") == "K" && Emit("TAG") == "-"
    ensures Emit("CTA") == "L" && Emit("TTT") == "F" && Emit("CAT") == "H"
  {
  }

  /** Three whole codons translate to their three lookups, in order. */
  lemma TranslationOfThree(a: string, b: string, c: string)
    requires |a| == 3 && |b| == 3 && |c| == 3
    ensures Translation(a + b + c) == Emit(a) + Emit(b) + Emit(c)
  {
    TranslationEmpty();
    assert c == c + [];
    TranslationCons(c, []);
    TranslationCons(b, c);
    assert a + b + c == a + (b + c);
    TranslationCons(a, b + c);
  }

  lemma TranslationExampleForward()
    ensures Translation("ATGAAATAG") == "MK-"
  {
    EmitExamples();
    assert "ATGAAATAG" == "ATG" + "AAA" + "TAG";
    TranslationOfThree("ATG", "AAA", "TAG");
  }

  lemma TranslationExampleRagged()
    ensures Translation("ATGAAAT") == "MK"
  {
    EmitExamples();
    assert "ATGAAAT" == "ATGAAA" + "T";
    TranslationDropsRaggedTail("ATGAAA", "T");
    TranslationEmpty();
    assert "AAA" == "AAA" + [];
    TranslationCons("AAA", []);
    assert "ATGAAA" == "ATG" + "AAA";
    TranslationCons("ATG", "AAA");
  }

  lemma TranslationExampleMinus()
    ensures Translation("CTATTTCAT") == "LFH"
  {
    EmitExamples();
    assert "CTATTTCAT" == "CTA" + "TTT" + "CAT";
    TranslationOfThree("CTA", "TTT", "CAT");
  }
}
