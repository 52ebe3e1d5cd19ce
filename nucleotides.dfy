/** `complement` (six_frame_aminoacid.py:70-82) and the reverse complement
    used for the minus frames (line 115). */
module Nucleotides {
  import opened PyStrings
  import opened CodonTable

  /** The source's substitution: A -> T, T -> A, C -> G, and every other
      character (G, but also N, lower case, anything) -> C. */
  function ComplementBase(c: char): (r: char)
    ensures IsBase(r)
    ensures !IsBase(c) ==> r == 'C'
  {
    if c == 'A' then 'T' else if c == 'T' then 'A' else if c == 'C' then 'G' else 'C'
  }

  /** The string `complement` builds: the same length, position by position
      the complement of the input, and only A, C, G, T in it. */
  function Complemented(s: string): (r: string)
    ensures |r| == |s|
    ensures forall i :: 0 <= i < |s| ==> r[i] == ComplementBase(s[i])
    ensures forall i :: 0 <= i < |r| ==> IsBase(r[i])
  {
    if s == [] then [] else Complemented(s[..|s| - 1]) + [ComplementBase(s[|s| - 1])]
  }

  /** complement: the source's character loop growing `compstr`. */
  method Complement(s: string) returns (compstr: string)
    ensures compstr == Complemented(s)
  {
    compstr := "";
    for i := 0 to |s|
      invariant compstr == Complemented(s[..i])
    {
      var nuc := s[i];
      if nuc == 'A' {
        compstr := compstr + "T";
      } else if nuc == 'T' {
        compstr := compstr + "A";
      } else if nuc == 'C' {
        compstr := compstr + "G";
      } else {
        compstr := compstr + "C";
      }
      assert s[..i + 1][..i] == s[..i];
    }
    assert s[..|s|] == s;
  }

  /** Complementing twice gives back exactly the strings over A, C, G, T; any
      other character does not survive (N becomes C, then G). */
  lemma {:induction false} ComplementTwice(s: string)
    ensures Complemented(Complemented(s)) == s <==> AllBases(s)
  {
    var r := Complemented(Complemented(s));
    if AllBases(s) {
      assert forall i :: 0 <= i < |s| ==> r[i] == s[i];
    } else {
      var i :| 0 <= i < |s| && !IsBase(s[i]);
      assert r[i] == 'G' != s[i];
    }
  }

  lemma ComplementTwiceCounterexample()
    ensures Complemented(Complemented("N")) == "G"
  {
    assert Complemented("N") == "C";
  }

  /** The strand the minus frames read: `complement(s[::-1])`. */
  function ReverseComplement(s: string): (r: string)
    ensures |r| == |s| && AllBases(r)
    ensures forall i :: 0 <= i < |s| ==> r[i] == ComplementBase(s[|s| - 1 - i])
  {
    Complemented(Reverse(s))
  }

  /** Over A, C, G, T the reverse complement is an involution. */
  lemma {:induction false} ReverseComplementTwice(s: string)
    requires AllBases(s)
    ensures ReverseComplement(ReverseComplement(s)) == s
  {
    var r := ReverseComplement(ReverseComplement(s));
    assert forall i :: 0 <= i < |s| ==> r[i] == s[i];
  }

  /** Dropping the first k characters of the reverse complement is the reverse
      complement of the strand without its last k characters. */
  lemma {:induction false} ReverseComplementDrop(s: string, k: nat)
    requires k <= |s|
    ensures ReverseComplement(s)[k..] == ReverseComplement(s[..|s| - k])
  {
    var a, b := ReverseComplement(s)[k..], ReverseComplement(s[..|s| - k]);
    assert forall i :: 0 <= i < |a| ==> a[i] == b[i];
  }
}
