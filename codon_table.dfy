/** The codon table `aa_dict` (six_frame_aminoacid.py:20-42): each of the 21
    symbols (20 amino acids and the stop symbol '-') mapped to the list of
    codons that encode it. `translate` looks a codon up by scanning every key
    and testing list membership; `SymbolFor` is the same table inverted once
    into a direct codon -> symbol function, written from the standard genetic
    code by base position, and proved to agree with the scan. */
module CodonTable {
  import opened Wrappers

  predicate IsBase(c: char) {
    c == 'A' || c == 'C' || c == 'G' || c == 'T'
  }

  /** A 3-letter string over {A, C, G, T}: one of the 64 codons. */
  predicate IsCodon(s: string) {
    |s| == 3 && IsBase(s[0]) && IsBase(s[1]) && IsBase(s[2])
  }

  predicate AllBases(s: string) {
    forall i :: 0 <= i < |s| ==> IsBase(s[i])
  }

  const AaDict: map<char, seq<string>> := map[
    'F' := ["TTT", "TTC"],
    'L' := ["TTA", "TTG", "CTT", "CTC", "CTA", "CTG"],
    'I' := ["ATT", "ATC", "ATA"],
    'M' := ["ATG"],
    'V' := ["GTT", "GTC", "GTA", "GTG"],
    'S' := ["TCT", "TCC", "TCA", "TCG", "AGT", "AGC"],
    'P' := ["CCT", "CCC", "CCA", "CCG"],
    'T' := ["ACT", "ACC", "ACA", "ACG"],
    'A' := ["GCT", "GCC", "GCA", "GCG"],
    'Y' := ["TAT", "TAC"],
    'H' := ["CAT", "CAC"],
    'Q' := ["CAA", "CAG"],
    'N' := ["AAT", "AAC"],
    'K' := ["AAA", "AAG"],
    'D' := ["GAT", "GAC"],
    'E' := ["GAA", "GAG"],
    'C' := ["TGT", "TGC"],
    'W' := ["TGG"],
    'R' := ["CGT", "CGC", "CGA", "CGG", "AGA", "AGG"],
    'G' := ["GGT", "GGC", "GGA", "GGG"],
    '-' := ["TAA", "TAG", "TGA"]
  ]

  /** The dictionary's keys in the order they are listed in the source. */
  const KeyOrder: string := "FLIMVSPTAYHQNKDECWRG-"

  /** The standard genetic code, indexed by the three bases of a codon. */
  function Code(b1: char, b2: char, b3: char): char
    requires IsBase(b1) && IsBase(b2) && IsBase(b3)
  {
    var pyrimidine := b3 == 'T' || b3 == 'C';
    match (b1, b2)
    case ('T', 'T') => if pyrimidine then 'F' else 'L'
    case ('T', 'C') => 'S'
    case ('T', 'A') => if pyrimidine then 'Y' else '-'
    case ('T', 'G') => if pyrimidine then 'C' else if b3 == 'A' then '-' else 'W'
    case ('C', 'T') => 'L'
    case ('C', 'C') => 'P'
    case ('C', 'A') => if pyrimidine then 'H' else 'Q'
    case ('C', 'G') => 'R'
    case ('A', 'T') => if b3 == 'G' then 'M' else 'I'
    case ('A', 'C') => 'T'
    case ('A', 'A') => if pyrimidine then 'N' else 'K'
    case ('A', 'G') => if pyrimidine then 'S' else 'R'
    case ('G', 'T') => 'V'
    case ('G', 'C') => 'A'
    case ('G', 'A') => if pyrimidine then 'D' else 'E'
    case ('G', 'G') => 'G'
  }

  /** The inverted table: the symbol of a codon, or None for anything that is
      not one of the 64 codons (wrong length, lower case, other letters). */
  function SymbolFor(codon: string): Option<char> {
    if IsCodon(codon) then Some(Code(codon[0], codon[1], codon[2])) else None
  }

  /** What looking up one codon contributes to a translation: its symbol, or
      nothing. */
  function Emit(codon: string): (r: string)
    ensures |r| <= 1
    ensures |r| == 1 <==> IsCodon(codon)
  {
    match SymbolFor(codon)
    case Some(a) => [a]
    case None => []
  }

  /** Every listed codon is one of the 64 codons, and the inverted table
      gives it back the symbol it is listed under. */
  lemma ListedCodonsAgree(k: char, c: string)
    requires k in AaDict && c in AaDict[k]
    ensures IsCodon(c) && SymbolFor(c) == Some(k)
  {
    if k == 'F' || k == 'L' || k == 'I' || k == 'M' || k == 'V' {
      ListedAgreeFLIMV(k, c);
    } else if k == 'S' || k == 'P' || k == 'T' || k == 'A' || k == 'Y' {
      ListedAgreeSPTAY(k, c);
    } else if k == 'H' || k == 'Q' || k == 'N' || k == 'K' || k == 'D' {
      ListedAgreeHQNKD(k, c);
    } else {
      ListedAgreeECWRG(k, c);
    }
  }

  lemma ListedAgreeFLIMV(k: char, c: string)
    requires (k == 'F' || k == 'L' || k == 'I' || k == 'M' || k == 'V') && c in AaDict[k]
    ensures IsCodon(c) && SymbolFor(c) == Some(k)
  {
  }

  lemma ListedAgreeSPTAY(k: char, c: string)
    requires (k == 'S' || k == 'P' || k == 'T' || k == 'A' || k == 'Y') && c in AaDict[k]
    ensures IsCodon(c) && SymbolFor(c) == Some(k)
  {
  }

  lemma ListedAgreeHQNKD(k: char, c: string)
    requires (k == 'H' || k == 'Q' || k == 'N' || k == 'K' || k == 'D') && c in AaDict[k]
    ensures IsCodon(c) && SymbolFor(c) == Some(k)
  {
  }

  lemma ListedAgreeECWRG(k: char, c: string)
    requires (k == 'E' || k == 'C' || k == 'W' || k == 'R' || k == 'G' || k == '-') && c in AaDict[k]
    ensures IsCodon(c) && SymbolFor(c) == Some(k)
  {
  }

  /** Every one of the 64 codons is listed, under the symbol the inverted
      table gives it. */
  lemma EveryCodonListed(c: string)
    requires IsCodon(c)
    ensures SymbolFor(c).Some? && SymbolFor(c).value in AaDict
    ensures c in AaDict[SymbolFor(c).value]
  {
    assert c == [c[0], c[1], c[2]];
  }

  /** Membership in a key's list and the inverted table say the same thing;
      hence no codon is listed under two keys. */
  lemma LookupAgreesWithDict(k: char, c: string)
    requires k in AaDict
    ensures c in AaDict[k] <==> SymbolFor(c) == Some(k)
  {
    if c in AaDict[k] {
      ListedCodonsAgree(k, c);
    }
    if SymbolFor(c) == Some(k) {
      EveryCodonListed(c);
    }
  }

  predicate AllKeys(keys: string) {
    forall i :: 0 <= i < |keys| ==> keys[i] in AaDict
  }

  predicate Distinct(keys: string) {
    forall i, j :: 0 <= i < j < |keys| ==> keys[i] != keys[j]
  }

  /** The lookup loop of `translate` (lines 65-67) for one codon: for each key
      in iteration order, append the key when the codon is in its list. */
  function Scan(keys: string, codon: string): string
    requires AllKeys(keys)
  {
    if keys == [] then []
    else
      var k := keys[|keys| - 1];
      Scan(keys[..|keys| - 1], codon) + (if codon in AaDict[k] then [k] else [])
  }

  /** One more key visited by the lookup loop. */
  lemma ScanStep(keys: string, j: nat, codon: string)
    requires AllKeys(keys) && j < |keys|
    ensures AllKeys(keys[..j]) && AllKeys(keys[..j + 1])
    ensures Scan(keys[..j + 1], codon) ==
      Scan(keys[..j], codon) + (if codon in AaDict[keys[j]] then [keys[j]] else [])
  {
    assert keys[..j + 1][..j] == keys[..j];
  }

  /** Scanning any list of distinct keys yields the codon's symbol if that
      symbol is among the keys, and nothing otherwise. */
  lemma {:induction false} ScanFindsOwner(keys: string, codon: string)
    requires AllKeys(keys) && Distinct(keys)
    ensures Scan(keys, codon) ==
      if SymbolFor(codon).Some? && SymbolFor(codon).value in keys then [SymbolFor(codon).value] else []
  {
    if keys != [] {
      var init, k := keys[..|keys| - 1], keys[|keys| - 1];
      ScanFindsOwner(init, codon);
      LookupAgreesWithDict(k, codon);
      assert keys == init + [k];
      if SymbolFor(codon) == Some(k) {
        assert k !in init;
      }
    }
  }

  /** Whatever order the dictionary's keys are visited in, the scan appends
      exactly what the inverted table gives: one symbol for each of the 64
      codons and nothing for any other string. */
  lemma ScanIsEmit(keys: string, codon: string)
    requires AllKeys(keys) && Distinct(keys)
    requires forall k :: k in AaDict ==> k in keys
    ensures Scan(keys, codon) == Emit(codon)
  {
    ScanFindsOwner(keys, codon);
    if SymbolFor(codon).Some? {
      EveryCodonListed(codon);
    }
  }

  /** The source listing order visits each of the 21 keys exactly once. */
  lemma KeyOrderEnumeratesDict()
    ensures |KeyOrder| == 21 && AllKeys(KeyOrder) && Distinct(KeyOrder)
    ensures forall k :: k in AaDict ==> k in KeyOrder
  {
    KeyOrderKeys();
    KeyOrderDistinct();
    KeyOrderCovers();
  }

  lemma KeyOrderKeys()
    ensures |KeyOrder| == 21 && AllKeys(KeyOrder)
  {
  }

  lemma KeyOrderDistinct()
    ensures Distinct(KeyOrder)
  {
  }

  lemma KeyOrderCovers()
    ensures forall k :: k in AaDict ==> k in KeyOrder
  {
  }
}
