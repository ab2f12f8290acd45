/** `nucleotides_to_protein`: translation of a nucleotide sequence codon by
    codon with the Standard Code (NCBI translation table 1), as Biopython's
    `standard_dna_table.forward_table` gives it. */
module Translation {
  import opened Text

  /** The bases in the order in which the NCBI tables list codons. */
  const Bases: string := "TCAG"

  /** The amino acids of NCBI translation table 1, one row of sixteen per
      first base in TCAG order; within a row the second and third bases run
      through TCAG (TTT, TTC, TTA, TTG, TCT, ...). '*' marks a stop. */
  const TableRows: seq<string> := [
    "FFLLSSSSYY**CC*W",
    "LLLLPPPPHHQQRRRR",
    "IIIMTTTTNNKKSSRR",
    "VVVVAAAADDEEGGGG"
  ]

  /** Three upper-case bases from T, C, A, G. */
  predicate IsTriplet(c: string)
  {
    |c| == 3 && c[0] in Bases && c[1] in Bases && c[2] in Bases
  }

  function BaseIndex(b: char): (k: nat)
    requires b in Bases
    ensures k < 4 && Bases[k] == b
  {
    if b == 'T' then 0 else if b == 'C' then 1 else if b == 'A' then 2 else 3
  }

  /** What the NCBI table lists for a triplet: an amino acid or '*'. */
  function TableEntry(c: string): char
    requires IsTriplet(c)
  {
    TableRows[BaseIndex(c[0])][4 * BaseIndex(c[1]) + BaseIndex(c[2])]
  }

  /** The 64 triplets. */
  const Triplets: set<string> := set x, y, z | x in Bases && y in Bases && z in Bases :: [x, y, z]

  /** A triplet that the table does not mark as a stop. */
  predicate IsSenseCodon(c: string)
  {
    IsTriplet(c) && TableEntry(c) != '*'
  }

  lemma TripletsAreTriplets(c: string)
    ensures c in Triplets <==> IsTriplet(c)
  {
    if IsTriplet(c) {
      assert c == [c[0], c[1], c[2]];
    }
  }

  /** The forward table of the Standard Code, built as Biopython builds it
      from the NCBI table: every triplet that is not a stop, mapped to its
      amino acid. Upper case only. */
  const CodonTable: map<string, char> :=
    map c | c in Triplets && (TripletsAreTriplets(c); TableEntry(c) != '*') ::
      (TripletsAreTriplets(c); TableEntry(c))

  /** What one window becomes: the gap codon gives a gap, a sense codon the
      amino acid the NCBI table lists for it, and anything else (a stop
      codon, an ambiguity code, a lower-case base, a window shorter than
      three bases) gives 'X'. */
  function TranslateCodon(codon: string): char
  {
    if codon == "---" then '-'
    else if IsSenseCodon(codon) then TableEntry(codon)
    else 'X'
  }

  /** Window `j` of `s`: `s[3*j:3*j+3]`, which Python clips at the end. */
  function Codon(s: string, j: nat): string
    requires 3 * j < |s|
  {
    if 3 * j + 3 <= |s| then s[3 * j..3 * j + 3] else s[3 * j..]
  }

  /** The windows `range(0, len(s), 3)` visits: ceil(|s| / 3) of them, the
      last one shorter than three bases when |s| is not a multiple of three. */
  function Windows(s: string): (w: seq<string>)
    ensures |w| == (|s| + 2) / 3
  {
    seq((|s| + 2) / 3, j requires 0 <= j < (|s| + 2) / 3 => Codon(s, j))
  }

  /** Each window translated on its own, in order. */
  function TranslateEach(ws: seq<string>): (p: string)
    ensures |p| == |ws|
  {
    seq(|ws|, j requires 0 <= j < |ws| => TranslateCodon(ws[j]))
  }

  /** The translation of `s`: one residue per window. */
  function Translated(s: string): (p: string)
    ensures |p| == (|s| + 2) / 3
  {
    TranslateEach(Windows(s))
  }

  /** `nucleotides_to_protein`: one residue appended per window of
      `range(0, len(seq), 3)`, by the gap test, the table lookup and the
      'X' fallback in that order. */
  method NucleotidesToProtein(s: string) returns (protein: string)
    ensures protein == Translated(s)
  {
    ghost var full := Translated(s);
    var aas: seq<char> := [];
    var i := 0;
    while i < |s|
      invariant i == 3 * |aas| && |aas| <= |full|
      invariant aas == full[..|aas|]
    {
      WindowCount(|s|, |aas|);
      var codon := s[i..if i + 3 <= |s| then i + 3 else |s|];
      var aa := LookUpCodon(codon);
      assert codon == Codon(s, |aas|);
      PrefixStep(full, aas, aa);
      aas := aas + [aa];
      i := i + 3;
    }
    WindowCount(|s|, |aas|);
    protein := aas;
  }

  /** The body of the loop of `nucleotides_to_protein` for one window: the
      gap test, the lookup in the forward table, the 'X' fallback. */
  method LookUpCodon(codon: string) returns (aa: char)
    ensures aa == TranslateCodon(codon)
  {
    if codon == "---" {
      aa := '-';
    } else if codon in CodonTable {
      aa := CodonTable[codon];
    } else {
      aa := 'X';
    }
    TranslateCodonLooksUp(codon);
  }

  /** Window `k` exists exactly when it starts inside the sequence. */
  lemma WindowCount(n: nat, k: nat)
    ensures 3 * k < n <==> k < (n + 2) / 3
  {
  }

  /** The keys of the table are exactly the sense codons, and each maps to
      the amino acid that the NCBI table lists for it. */
  lemma CodonTableKeys(c: string)
    ensures c in CodonTable <==> IsSenseCodon(c)
    ensures c in CodonTable ==> CodonTable[c] == TableEntry(c) && CodonTable[c] != '*'
  {
    TripletsAreTriplets(c);
  }

  /** Only the first row has stops, at its 11th, 12th and 15th places. */
  lemma StopPlaces(r: nat, k: nat)
    requires r < 4 && k < 16
    ensures TableRows[r][k] == '*' <==> r == 0 && (k == 10 || k == 11 || k == 14)
  {
  }

  /** TAA, TAG and TGA are the only triplets outside the table. */
  lemma StopCodonsAreTheNonKeys(c: string)
    requires IsTriplet(c)
    ensures c !in CodonTable <==> (c == "TAA" || c == "TAG" || c == "TGA")
  {
    CodonTableKeys(c);
    StopEntries(c);
    TripletLiteral(c, 'T', 'A', 'A');
    TripletLiteral(c, 'T', 'A', 'G');
    TripletLiteral(c, 'T', 'G', 'A');
    assert "TAA" == ['T', 'A', 'A'] && "TAG" == ['T', 'A', 'G'] && "TGA" == ['T', 'G', 'A'];
  }

  /** The stars of the table sit at TAA, TAG and TGA. */
  lemma StopEntries(c: string)
    requires IsTriplet(c)
    ensures TableEntry(c) == '*' <==>
      c[0] == 'T' && ((c[1] == 'A' && c[2] == 'A') || (c[1] == 'A' && c[2] == 'G') || (c[1] == 'G' && c[2] == 'A'))
  {
    var b0, b1, b2 := BaseIndex(c[0]), BaseIndex(c[1]), BaseIndex(c[2]);
    StopPlaces(b0, 4 * b1 + b2);
    SlotArithmetic(b1, b2);
    assert TableEntry(c) == '*' <==> b0 == 0 && ((b1 == 2 && b2 == 2) || (b1 == 2 && b2 == 3) || (b1 == 3 && b2 == 2));
    BaseIndexValues(c[0]);
    BaseIndexValues(c[1]);
    BaseIndexValues(c[2]);
  }

  lemma BaseIndexValues(b: char)
    requires b in Bases
    ensures BaseIndex(b) == 0 <==> b == 'T'
    ensures BaseIndex(b) == 2 <==> b == 'A'
    ensures BaseIndex(b) == 3 <==> b == 'G'
  {
    assert Bases == ['T', 'C', 'A', 'G'];
  }

  lemma SlotArithmetic(b1: nat, b2: nat)
    requires b1 < 4 && b2 < 4
    ensures 4 * b1 + b2 == 10 <==> b1 == 2 && b2 == 2
    ensures 4 * b1 + b2 == 11 <==> b1 == 2 && b2 == 3
    ensures 4 * b1 + b2 == 14 <==> b1 == 3 && b2 == 2
  {
  }

  lemma TripletLiteral(c: string, x: char, y: char, z: char)
    requires |c| == 3
    ensures c == [x, y, z] <==> c[0] == x && c[1] == y && c[2] == z
  {
    if c[0] == x && c[1] == y && c[2] == z {
      assert c == [c[0], c[1], c[2]];
    }
  }

  /** A window translates as the gap test, the lookup in the forward table
      and the 'X' fallback give it, in that order. */
  lemma TranslateCodonLooksUp(codon: string)
    ensures TranslateCodon(codon) ==
      if codon == "---" then '-' else if codon in CodonTable then CodonTable[codon] else 'X'
  {
    CodonTableKeys(codon);
  }

  /** A sequence whose length is not a multiple of three keeps its 1-2 base
      remainder as a last window, which gives 'X'. */
  lemma {:induction false} TrailingRemainderGivesX(s: string)
    requires |s| % 3 != 0
    ensures |Translated(s)| == |s| / 3 + 1
    ensures Translated(s)[|s| / 3] == 'X'
  {
    var j := |s| / 3;
    assert 3 * j < |s| < 3 * j + 3;
  }

  /** Residue `j` of the translation is window `j` translated. */
  lemma TranslatedAt(s: string, j: nat)
    requires j < |Translated(s)|
    ensures 3 * j < |s| && Translated(s)[j] == TranslateCodon(Codon(s, j))
  {
  }

  /** A sequence of exactly three bases is one window. */
  lemma OneWindow(c: string)
    requires |c| == 3
    ensures Translated(c) == [TranslateCodon(c)]
  {
    assert Codon(c, 0) == c;
    assert Windows(c) == [c];
  }

  /** Windows are aligned to the start of the sequence. */
  lemma WindowsConcat(a: string, b: string)
    requires |a| % 3 == 0
    ensures Windows(a + b) == Windows(a) + Windows(b)
  {
    var n := |a| / 3;
    assert 3 * n == |a|;
    var w, wa, wb := Windows(a + b), Windows(a), Windows(b);
    assert |wa| == n && |w| == n + |wb|;
    forall j | 0 <= j < |w|
      ensures w[j] == (wa + wb)[j]
    {
      if j < n {
        assert (wa + wb)[j] == wa[j];
        CodonOfPrefix(a, b, j);
      } else {
        assert (wa + wb)[j] == wb[j - n];
        CodonAfterPrefix(a, b, j - n);
      }
    }
  }

  /** A window inside `a` is the same window of `a + b`. */
  lemma CodonOfPrefix(a: string, b: string, j: nat)
    requires |a| % 3 == 0 && 3 * j < |a|
    ensures Codon(a + b, j) == Codon(a, j)
  {
    assert (a + b)[3 * j..3 * j + 3] == a[3 * j..3 * j + 3];
  }

  /** Window `j` of `b` is window `|a| / 3 + j` of `a + b`. */
  lemma CodonAfterPrefix(a: string, b: string, j: nat)
    requires |a| % 3 == 0 && 3 * j < |b|
    ensures 3 * (|a| / 3 + j) < |a + b| && Codon(a + b, |a| / 3 + j) == Codon(b, j)
  {
    var k := 3 * j;
    assert 3 * (|a| / 3 + j) == |a| + k;
    if k + 3 <= |b| {
      assert (a + b)[|a| + k..|a| + k + 3] == b[k..k + 3];
    } else {
      assert (a + b)[|a| + k..] == b[k..];
    }
  }

  lemma TranslateEachConcat(x: seq<string>, y: seq<string>)
    ensures TranslateEach(x + y) == TranslateEach(x) + TranslateEach(y)
  {
    var t, tx, ty := TranslateEach(x + y), TranslateEach(x), TranslateEach(y);
    forall j | 0 <= j < |t|
      ensures t[j] == (tx + ty)[j]
    {
      if j < |x| {
        assert (x + y)[j] == x[j];
      } else {
        assert (x + y)[j] == y[j - |x|];
      }
    }
  }

  /** A sequence whose length is a multiple of three translates
      independently of what follows it. */
  lemma TranslatedConcat(a: string, b: string)
    requires |a| % 3 == 0
    ensures Translated(a + b) == Translated(a) + Translated(b)
  {
    WindowsConcat(a, b);
    TranslateEachConcat(Windows(a), Windows(b));
  }

  /** The stop codons translate to 'X'. */
  lemma StopCodonGivesX(c: string)
    requires c == "TAA" || c == "TAG" || c == "TGA"
    ensures Translated(c) == "X"
  {
    assert c == [c[0], c[1], c[2]];
    StopCodonsAreTheNonKeys(c);
    OneWindow(c);
  }

  /** The start codon gives methionine. */
  lemma StartCodonExample()
    ensures Translated("ATG") == "M"
  {
    var c := "ATG";
    assert c[0] == 'A' && c[1] == 'T' && c[2] == 'G';
    assert TableRows[2] == "IIIMTTTTNNKKSSRR";
    assert TableEntry(c) == TableRows[2][3] == 'M';
    CodonTableKeys(c);
    assert TranslateCodon(c) == 'M' by {
      assert c != "---" by { assert c[0] != '-'; }
    }
    OneWindow(c);
  }

  /** The gap codon gives a gap and an ambiguity code gives 'X'. */
  lemma GapAndAmbiguityExamples()
    ensures Translated("---") == "-"
    ensures Translated("NNN") == "X"
  {
    OneWindow("---");
    OneWindow("NNN");
  }

  /** A trailing single base is kept as a window of its own, which gives 'X'. */
  lemma TrailingBaseExample()
    ensures Translated("ATGA") == "MX"
  {
    StartCodonExample();
    TranslatedConcat("ATG", "A");
    assert "ATG" + "A" == "ATGA";
    assert Codon("A", 0) == "A";
  }
}
