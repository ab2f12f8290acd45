/** The fixed-width binary encodings of nucleotide and protein sequences
    that are handed to the nearest-neighbour indices
    (`_base_to_binary`, `nucleotides_to_binary`, `_base_to_binary_array`,
    `nucleotides_to_binary_array`, `_aa_to_binary`, `protein_to_binary`). */
module Encoding {
  import opened Text

  // ----- nucleotides -----

  /** Where a base puts its single one inside its five-wide block:
      A, T, C, G, and every other character in the fifth place. */
  function BaseSlot(x: char): (k: nat)
    ensures k < 5
  {
    if x == 'A' then 0 else if x == 'T' then 1 else if x == 'C' then 2 else if x == 'G' then 3 else 4
  }

  /** `_base_to_binary`: the block of one base as space-separated digits. */
  function BaseToBinary(x: char): string
  {
    if x == 'A' then "1 0 0 0 0"
    else if x == 'T' then "0 1 0 0 0"
    else if x == 'C' then "0 0 1 0 0"
    else if x == 'G' then "0 0 0 1 0"
    else "0 0 0 0 1"
  }

  /** `nucleotides_to_binary`: the blocks of all bases, joined by single spaces. */
  function NucleotidesToBinary(s: string): string
  {
    Join(" ", seq(|s|, i requires 0 <= i < |s| => BaseToBinary(s[i])))
  }

  /** `_base_to_binary_array`: the block of one base as a list of bits. */
  function BaseToBinaryArray(x: char): seq<int>
  {
    if x == 'A' then [1, 0, 0, 0, 0]
    else if x == 'T' then [0, 1, 0, 0, 0]
    else if x == 'C' then [0, 0, 1, 0, 0]
    else if x == 'G' then [0, 0, 0, 1, 0]
    else [0, 0, 0, 0, 1]
  }

  /** `nucleotides_to_binary_array`: the blocks of all bases, chained into one list. */
  function NucleotidesToBinaryArray(s: string): seq<int>
  {
    Flatten(seq(|s|, i requires 0 <= i < |s| => BaseToBinaryArray(s[i])))
  }

  /** The digit that the string variant writes for one bit. */
  function BitDigit(b: int): char
  {
    if b == 1 then '1' else '0'
  }

  function BitToken(b: int): string
  {
    [BitDigit(b)]
  }

  function BitTokens(bits: seq<int>): (t: seq<string>)
    ensures |t| == |bits|
  {
    seq(|bits|, j requires 0 <= j < |bits| => BitToken(bits[j]))
  }

  function BitTokensEach(arrays: seq<seq<int>>): (t: seq<seq<string>>)
    ensures |t| == |arrays|
  {
    seq(|arrays|, i requires 0 <= i < |arrays| => BitTokens(arrays[i]))
  }

  /** Bit `k` of a one-hot block whose one is at `slot`. */
  function OneHot(slot: nat, k: nat): int
  {
    if k == slot then 1 else 0
  }

  /** A base's block is five bits, one at `BaseSlot` and zero elsewhere. */
  lemma BaseBlockOneHot(x: char)
    ensures |BaseToBinaryArray(x)| == 5
    ensures forall k :: 0 <= k < 5 ==> BaseToBinaryArray(x)[k] == OneHot(BaseSlot(x), k)
  {
  }

  /** The two variants of one block spell the same bits. */
  lemma BaseVariantsAgree(x: char)
    ensures BaseToBinary(x) == Join(" ", BitTokens(BaseToBinaryArray(x)))
  {
    BlockText(BaseToBinaryArray(x));
  }

  /** Five bits as the string variant writes them. */
  lemma BlockText(b: seq<int>)
    requires |b| == 5
    ensures Join(" ", BitTokens(b)) ==
      [BitDigit(b[0]), ' ', BitDigit(b[1]), ' ', BitDigit(b[2]), ' ', BitDigit(b[3]), ' ', BitDigit(b[4])]
  {
    var t := BitTokens(b);
    assert t == [[BitDigit(b[0])], [BitDigit(b[1])], [BitDigit(b[2])], [BitDigit(b[3])], [BitDigit(b[4])]];
    JoinFive(" ", t[0], t[1], t[2], t[3], t[4]);
  }

  /** Converting every bit to a digit commutes with chaining the blocks. */
  lemma {:induction false} BitTokensFlatten(arrays: seq<seq<int>>)
    ensures Flatten(BitTokensEach(arrays)) == BitTokens(Flatten(arrays))
  {
    if |arrays| > 0 {
      BitTokensFlatten(arrays[1..]);
      assert BitTokensEach(arrays)[1..] == BitTokensEach(arrays[1..]);
      assert BitTokens(Flatten(arrays)) == BitTokens(arrays[0]) + BitTokens(Flatten(arrays[1..]));
    }
  }

  /** `nucleotides_to_binary_array(s)` has five bits per base, and the block
      of base `i` has its single one at `BaseSlot(s[i])`: A, T, C, G, other. */
  lemma NucleotideArrayOneHot(s: string)
    ensures |NucleotidesToBinaryArray(s)| == 5 * |s|
    ensures forall i, k :: 0 <= i < |s| && 0 <= k < 5 ==>
      NucleotidesToBinaryArray(s)[5 * i + k] == OneHot(BaseSlot(s[i]), k)
  {
    var blocks := seq(|s|, i requires 0 <= i < |s| => BaseToBinaryArray(s[i]));
    assert NucleotidesToBinaryArray(s) == Flatten(blocks);
    forall i | 0 <= i < |s| ensures |blocks[i]| == 5 {
      BaseBlockOneHot(s[i]);
    }
    FlattenLength(blocks, 5);
    forall i, k | 0 <= i < |s| && 0 <= k < 5
      ensures NucleotidesToBinaryArray(s)[5 * i + k] == OneHot(BaseSlot(s[i]), k)
    {
      FlattenAt(blocks, 5, i, k);
      BaseBlockOneHot(s[i]);
    }
  }

  /** `nucleotides_to_binary(s)` lists exactly the digits of
      `nucleotides_to_binary_array(s)`, separated by single spaces. */
  lemma NucleotideVariantsAgree(s: string)
    ensures NucleotidesToBinary(s) == Join(" ", BitTokens(NucleotidesToBinaryArray(s)))
  {
    var arrays := seq(|s|, i requires 0 <= i < |s| => BaseToBinaryArray(s[i]));
    var blocks := BitTokensEach(arrays);
    forall i | 0 <= i < |s| ensures |blocks[i]| > 0 {
      BaseBlockOneHot(s[i]);
    }
    forall i | 0 <= i < |s| ensures BaseToBinary(s[i]) == JoinEach(" ", blocks)[i] {
      BaseVariantsAgree(s[i]);
    }
    assert seq(|s|, i requires 0 <= i < |s| => BaseToBinary(s[i])) == JoinEach(" ", blocks);
    JoinOfJoins(" ", blocks);
    BitTokensFlatten(arrays);
    assert NucleotidesToBinaryArray(s) == Flatten(arrays);
  }

  // ----- proteins -----

  /** The 22 residues of the protein encoding, in the order of `_aa_to_binary`. */
  const AminoAcids: string := "WHQMKGAIFSLYTDERPVNC-X"

  /** One digit per listed residue: '1' where it equals `x`, '0' elsewhere. */
  function AaTokens(x: char): (t: seq<string>)
    ensures |t| == 22
  {
    seq(22, k requires 0 <= k < 22 => if AminoAcids[k] == x then "1" else "0")
  }

  /** `_aa_to_binary`: the 22 digits of one residue joined by single spaces. */
  function AaToBinary(x: char): string
  {
    Join(" ", AaTokens(x))
  }

  /** `protein_to_binary`: the blocks of all residues joined by single spaces. */
  function ProteinToBinary(s: string): string
  {
    Join(" ", seq(|s|, i requires 0 <= i < |s| => AaToBinary(s[i])))
  }

  /** Every digit of the protein encoding, in order. */
  function ProteinTokens(s: string): seq<string>
  {
    Flatten(seq(|s|, i requires 0 <= i < |s| => AaTokens(s[i])))
  }

  /** No residue is listed twice. */
  lemma AminoAcidsDistinct()
    ensures |AminoAcids| == 22
    ensures forall i, j :: 0 <= i < j < 22 ==> AminoAcids[i] != AminoAcids[j]
  {
  }

  /** A listed residue has its single '1' at its own position; any other
      character gives 22 zeros (no error is raised). */
  lemma AaBlockOneHot(x: char)
    ensures x in AminoAcids ==>
      exists k :: 0 <= k < 22 && AminoAcids[k] == x &&
        (forall j :: 0 <= j < 22 ==> (AaTokens(x)[j] == "1" <==> j == k))
    ensures x !in AminoAcids ==> forall j :: 0 <= j < 22 ==> AaTokens(x)[j] == "0"
  {
    AminoAcidsDistinct();
    if x in AminoAcids {
      var k :| 0 <= k < 22 && AminoAcids[k] == x;
      assert forall j :: 0 <= j < 22 ==> (AaTokens(x)[j] == "1" <==> j == k);
    }
  }

  /** `protein_to_binary(s)` is 22 space-separated digits per residue; digit
      `k` of residue `i` is '1' exactly when residue `i` is the `k`-th listed one. */
  lemma ProteinEncoding(s: string)
    ensures ProteinToBinary(s) == Join(" ", ProteinTokens(s))
    ensures |ProteinTokens(s)| == 22 * |s|
    ensures forall i, k :: 0 <= i < |s| && 0 <= k < 22 ==>
      ProteinTokens(s)[22 * i + k] == if AminoAcids[k] == s[i] then "1" else "0"
  {
    var blocks := seq(|s|, i requires 0 <= i < |s| => AaTokens(s[i]));
    assert ProteinTokens(s) == Flatten(blocks);
    assert seq(|s|, i requires 0 <= i < |s| => AaToBinary(s[i])) == JoinEach(" ", blocks);
    JoinOfJoins(" ", blocks);
    FlattenLength(blocks, 22);
    forall i, k | 0 <= i < |s| && 0 <= k < 22
      ensures ProteinTokens(s)[22 * i + k] == if AminoAcids[k] == s[i] then "1" else "0"
    {
      FlattenAt(blocks, 22, i, k);
    }
  }
}
