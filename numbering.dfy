/** The numbering passes of `create_from_otu_table`: the first scan over the
    sorted OTU observations that gives every row its marker and sequence
    numbers, the second scan that keeps one markers row per marker and one
    nucleotides row per (marker, sequence), and the pass that writes a
    protein row per nucleotides row. The tables are the rows the passes
    write before sqlite3 imports them. */
module Numbering {
  import opened Wrappers
  import opened Text
  import opened Runs
  import opened Translation

  /** One line of the sorted OTU table as the csv reader splits it:
      marker, sequence, sample_name, count, coverage, taxonomy. */
  datatype SortedRow = SortedRow(
    marker: string, sequence: string, sampleName: string,
    count: string, coverage: string, taxonomy: string)

  /** A row of the numbered otus table:
      (id, sample_name, num_hits, coverage, taxonomy, marker_id, sequence_id). */
  datatype OtuRow = OtuRow(
    id: nat, sampleName: string, numHits: string, coverage: string,
    taxonomy: string, markerId: nat, sequenceId: nat)

  /** A row of the intermediate marker-and-sequence file:
      (marker_index, sequence_index, marker, sequence). */
  datatype MarkerSequenceRow = MarkerSequenceRow(markerId: nat, sequenceId: nat, marker: string, sequence: string)

  /** A row of the markers table: (id, marker). */
  datatype MarkerRow = MarkerRow(id: nat, marker: string)

  /** A row of the nucleotides table: (id, marker_id, sequence, marker_wise_id). */
  datatype NucleotideRow = NucleotideRow(id: nat, markerId: nat, sequence: string, markerWiseId: nat)

  /** A row of the proteins table under its declared column names
      (id, marker_id, nucleotide_id, sequence). */
  datatype ProteinRow = ProteinRow(id: nat, markerId: nat, nucleotideId: nat, sequence: string)

  // ----- first scan -----

  /** The marker of every row. */
  function MarkerKeys(rows: seq<SortedRow>): (k: seq<string>)
    ensures |k| == |rows|
  {
    seq(|rows|, i requires 0 <= i < |rows| => rows[i].marker)
  }

  /** The (marker, sequence) pair of every row. */
  function PairKeys(rows: seq<SortedRow>): (k: seq<(string, string)>)
    ensures |k| == |rows|
  {
    seq(|rows|, i requires 0 <= i < |rows| => (rows[i].marker, rows[i].sequence))
  }

  /** `marker_index` after row `i`: how many times the marker has changed. */
  function MarkerIndex(rows: seq<SortedRow>, i: nat): nat
    requires i < |rows|
  {
    RunNumber(MarkerKeys(rows), i)
  }

  /** `sequence_index` after row `i`: how many times the marker or the
      sequence has changed. */
  function SequenceIndex(rows: seq<SortedRow>, i: nat): nat
    requires i < |rows|
  {
    RunNumber(PairKeys(rows), i)
  }

  /** The otus table the first scan writes: one row per input row. */
  function NumberedOtus(rows: seq<SortedRow>): (otus: seq<OtuRow>)
    ensures |otus| == |rows|
  {
    seq(|rows|, i requires 0 <= i < |rows| =>
      OtuRow(i + 1, rows[i].sampleName, rows[i].count, rows[i].coverage, rows[i].taxonomy,
             MarkerIndex(rows, i), SequenceIndex(rows, i)))
  }

  /** The marker-and-sequence file the first scan writes: one row per input row. */
  function NumberedPairs(rows: seq<SortedRow>): (pairs: seq<MarkerSequenceRow>)
    ensures |pairs| == |rows|
  {
    seq(|rows|, i requires 0 <= i < |rows| =>
      MarkerSequenceRow(MarkerIndex(rows, i), SequenceIndex(rows, i), rows[i].marker, rows[i].sequence))
  }

  /** The first scan: `last_marker` and `last_sequence` start as None, a new
      marker bumps both counters, a new sequence of the same marker bumps
      `sequence_index` only, and every row is written to both files. */
  method FirstScan(rows: seq<SortedRow>) returns (otus: seq<OtuRow>, pairs: seq<MarkerSequenceRow>)
    ensures otus == NumberedOtus(rows)
    ensures pairs == NumberedPairs(rows)
  {
    ghost var allOtus, allPairs := NumberedOtus(rows), NumberedPairs(rows);
    var markerIndex: nat, sequenceIndex: nat := 0, 0;
    var lastMarker: Option<string> := None;
    var lastSequence: Option<string> := None;
    otus, pairs := [], [];
    var i := 0;
    while i < |rows|
      invariant 0 <= i <= |rows| && |otus| == |pairs| == i
      invariant otus == allOtus[..i] && pairs == allPairs[..i]
      invariant i == 0 ==> lastMarker == None && markerIndex == 0 && sequenceIndex == 0
      invariant i > 0 ==> lastMarker == Some(rows[i - 1].marker) && lastSequence == Some(rows[i - 1].sequence)
      invariant i > 0 ==> markerIndex == MarkerIndex(rows, i - 1) && sequenceIndex == SequenceIndex(rows, i - 1)
    {
      var row := rows[i];
      if lastMarker != Some(row.marker) {
        lastMarker := Some(row.marker);
        markerIndex := markerIndex + 1;
        lastSequence := Some(row.sequence);
        sequenceIndex := sequenceIndex + 1;
      } else if lastSequence != Some(row.sequence) {
        lastSequence := Some(row.sequence);
        sequenceIndex := sequenceIndex + 1;
      }
      assert markerIndex == MarkerIndex(rows, i) && sequenceIndex == SequenceIndex(rows, i);
      var otu := OtuRow(i + 1, row.sampleName, row.count, row.coverage, row.taxonomy, markerIndex, sequenceIndex);
      var pair := MarkerSequenceRow(markerIndex, sequenceIndex, row.marker, row.sequence);
      PrefixStep(allOtus, otus, otu);
      PrefixStep(allPairs, pairs, pair);
      otus := otus + [otu];
      pairs := pairs + [pair];
      i := i + 1;
    }
  }

  // ----- second scan -----

  /** The marker id of every row of the marker-and-sequence file. */
  function MarkerIdKeys(p: seq<MarkerSequenceRow>): (k: seq<nat>)
    ensures |k| == |p|
  {
    seq(|p|, j requires 0 <= j < |p| => p[j].markerId)
  }

  /** The (marker id, sequence id) of every row of the marker-and-sequence file. */
  function PairIdKeys(p: seq<MarkerSequenceRow>): (k: seq<(nat, nat)>)
    ensures |k| == |p|
  {
    seq(|p|, j requires 0 <= j < |p| => (p[j].markerId, p[j].sequenceId))
  }

  /** `last_marker_wise_sequence_id` when row `j` is read: reset to 1 on a
      new marker id and incremented after every row, written or not. */
  function MarkerWiseId(p: seq<MarkerSequenceRow>, j: nat): nat
    requires j < |p|
  {
    1 + RunOffset(MarkerIdKeys(p), j)
  }

  /** The markers row that row `j` would give. */
  function MarkerCandidates(p: seq<MarkerSequenceRow>): (m: seq<MarkerRow>)
    ensures |m| == |p|
  {
    seq(|p|, j requires 0 <= j < |p| => MarkerRow(p[j].markerId, p[j].marker))
  }

  /** The nucleotides row that row `j` would give. */
  function NucleotideCandidates(p: seq<MarkerSequenceRow>): (n: seq<NucleotideRow>)
    ensures |n| == |p|
  {
    seq(|p|, j requires 0 <= j < |p| =>
      NucleotideRow(p[j].sequenceId, p[j].markerId, p[j].sequence, MarkerWiseId(p, j)))
  }

  /** The markers table: one row where the marker id changes. */
  function MarkerTable(p: seq<MarkerSequenceRow>): seq<MarkerRow>
  {
    AtRunStarts(MarkerIdKeys(p), MarkerCandidates(p), |p|)
  }

  /** The nucleotides table: one row where the marker id or the sequence id changes. */
  function NucleotideTable(p: seq<MarkerSequenceRow>): seq<NucleotideRow>
  {
    AtRunStarts(PairIdKeys(p), NucleotideCandidates(p), |p|)
  }

  /** The second scan: a new marker id writes a markers row and a
      nucleotides row with marker-wise id 1; a new sequence id of the same
      marker writes a nucleotides row; the marker-wise id then goes up by
      one whatever was written. */
  method SecondScan(p: seq<MarkerSequenceRow>) returns (markers: seq<MarkerRow>, nucleotides: seq<NucleotideRow>)
    ensures markers == MarkerTable(p)
    ensures nucleotides == NucleotideTable(p)
  {
    ghost var mk, pk := MarkerIdKeys(p), PairIdKeys(p);
    ghost var mc, nc := MarkerCandidates(p), NucleotideCandidates(p);
    var lastMarkerId: Option<nat> := None;
    var lastSequenceId: Option<nat> := None;
    var lastMarkerWiseId: Option<nat> := None;
    markers, nucleotides := [], [];
    var j := 0;
    while j < |p|
      invariant 0 <= j <= |p|
      invariant markers == AtRunStarts(mk, mc, j)
      invariant nucleotides == AtRunStarts(pk, nc, j)
      invariant j == 0 ==> lastMarkerId == None && lastMarkerWiseId == None
      invariant j > 0 ==> lastMarkerId == Some(p[j - 1].markerId) && lastSequenceId == Some(p[j - 1].sequenceId)
      invariant j > 0 ==> lastMarkerWiseId == Some(MarkerWiseId(p, j - 1) + 1)
    {
      var row := p[j];
      if lastMarkerId != Some(row.markerId) {
        lastMarkerWiseId := Some(1);
        markers := markers + [MarkerRow(row.markerId, row.marker)];
        nucleotides := nucleotides + [NucleotideRow(row.sequenceId, row.markerId, row.sequence, lastMarkerWiseId.value)];
        lastMarkerId := Some(row.markerId);
        lastSequenceId := Some(row.sequenceId);
      } else if lastSequenceId != Some(row.sequenceId) {
        nucleotides := nucleotides + [NucleotideRow(row.sequenceId, row.markerId, row.sequence, lastMarkerWiseId.value)];
        lastSequenceId := Some(row.sequenceId);
      }
      lastMarkerWiseId := Some(lastMarkerWiseId.value + 1);
      j := j + 1;
    }
  }

  // ----- protein rows -----

  /** The proteins file: row `i` of the nucleotides table gives
      `(i, nucleotide id, marker id, translation)`, which the import stores
      under the columns (id, marker_id, nucleotide_id, sequence), so the
      column named marker_id holds the nucleotide id and nucleotide_id holds
      the marker id. */
  function ProteinTable(nucleotides: seq<NucleotideRow>): (r: seq<ProteinRow>)
    ensures |r| == |nucleotides|
  {
    seq(|nucleotides|, i requires 0 <= i < |nucleotides| =>
      ProteinRow(i, nucleotides[i].id, nucleotides[i].markerId, Translated(nucleotides[i].sequence)))
  }

  /** Row `i` of the proteins table. */
  lemma ProteinTableAt(nucleotides: seq<NucleotideRow>, i: nat)
    requires i < |nucleotides|
    ensures ProteinTable(nucleotides)[i] ==
      ProteinRow(i, nucleotides[i].id, nucleotides[i].markerId, Translated(nucleotides[i].sequence))
  {
  }

  /** The pass over the nucleotides file that writes the proteins file. */
  method ProteinRows(nucleotides: seq<NucleotideRow>) returns (proteins: seq<ProteinRow>)
    ensures proteins == ProteinTable(nucleotides)
  {
    ghost var all := ProteinTable(nucleotides);
    proteins := [];
    var i := 0;
    while i < |nucleotides|
      invariant 0 <= i <= |nucleotides| && |proteins| == i
      invariant proteins == all[..i]
    {
      var row := nucleotides[i];
      var protein := NucleotidesToProtein(row.sequence);
      PrefixStep(all, proteins, ProteinRow(i, row.id, row.markerId, protein));
      proteins := proteins + [ProteinRow(i, row.id, row.markerId, protein)];
      i := i + 1;
    }
  }

  // ----- what the numbering means -----

  /** The markers table built from the sorted rows. */
  function MarkersOf(rows: seq<SortedRow>): seq<MarkerRow>
  {
    MarkerTable(NumberedPairs(rows))
  }

  /** The nucleotides table built from the sorted rows. */
  function NucleotidesOf(rows: seq<SortedRow>): seq<NucleotideRow>
  {
    NucleotideTable(NumberedPairs(rows))
  }

  /** The counters of the first scan: both are 1 on the first row; later,
      `marker_index` goes up by one exactly when the marker differs from
      the previous row's, `sequence_index` exactly when the marker or the
      sequence does, and otherwise neither changes. */
  lemma FirstScanCounters(rows: seq<SortedRow>, i: nat)
    requires i < |rows|
    ensures i == 0 ==> MarkerIndex(rows, i) == 1 && SequenceIndex(rows, i) == 1
    ensures i > 0 ==> (MarkerIndex(rows, i) ==
      MarkerIndex(rows, i - 1) + (if rows[i].marker != rows[i - 1].marker then 1 else 0))
    ensures i > 0 ==> (SequenceIndex(rows, i) == SequenceIndex(rows, i - 1) +
      (if rows[i].marker != rows[i - 1].marker || rows[i].sequence != rows[i - 1].sequence then 1 else 0))
  {
    if i > 0 {
      assert PairKeys(rows)[i] == (rows[i].marker, rows[i].sequence);
      assert PairKeys(rows)[i - 1] == (rows[i - 1].marker, rows[i - 1].sequence);
    }
  }

  /** On sorted input the numbers identify what they number: two rows have
      the same `marker_index` exactly when they have the same marker, and
      the same `sequence_index` exactly when they have the same marker and
      sequence. */
  lemma FirstScanIdentifies(rows: seq<SortedRow>, i: nat, j: nat)
    requires Contiguous(MarkerKeys(rows)) && Contiguous(PairKeys(rows))
    requires i < |rows| && j < |rows|
    ensures MarkerIndex(rows, i) == MarkerIndex(rows, j) <==> rows[i].marker == rows[j].marker
    ensures SequenceIndex(rows, i) == SequenceIndex(rows, j) <==>
      rows[i].marker == rows[j].marker && rows[i].sequence == rows[j].sequence
  {
    var a, b := if i <= j then i else j, if i <= j then j else i;
    RunNumberIdentifies(MarkerKeys(rows), a, b);
    RunNumberIdentifies(PairKeys(rows), a, b);
  }

  /** On sorted input `marker_index` at row `i` is the number of distinct
      markers among rows 0..i, and `sequence_index` the number of distinct
      (marker, sequence) pairs. */
  lemma FirstScanCountsDistinct(rows: seq<SortedRow>, i: nat)
    requires Contiguous(MarkerKeys(rows)) && Contiguous(PairKeys(rows))
    requires i < |rows|
    ensures MarkerIndex(rows, i) == |Distinct(MarkerKeys(rows), i + 1)|
    ensures SequenceIndex(rows, i) == |Distinct(PairKeys(rows), i + 1)|
  {
    RunNumberCountsDistinct(MarkerKeys(rows), i);
    RunNumberCountsDistinct(PairKeys(rows), i);
  }

  /** The second scan sees a new marker id exactly where the first saw a new
      marker, and a new (marker id, sequence id) exactly where it saw a new
      (marker, sequence). */
  lemma PairsStartWithRows(rows: seq<SortedRow>)
    ensures forall j :: 0 <= j < |rows| ==>
      (StartsRun(MarkerIdKeys(NumberedPairs(rows)), j) <==> StartsRun(MarkerKeys(rows), j))
    ensures forall j :: 0 <= j < |rows| ==>
      (StartsRun(PairIdKeys(NumberedPairs(rows)), j) <==> StartsRun(PairKeys(rows), j))
  {
    var p, mk, pk := NumberedPairs(rows), MarkerKeys(rows), PairKeys(rows);
    forall j | 0 <= j < |rows|
      ensures StartsRun(MarkerIdKeys(p), j) <==> StartsRun(mk, j)
      ensures StartsRun(PairIdKeys(p), j) <==> StartsRun(pk, j)
    {
      if j > 0 {
        assert pk[j] == (rows[j].marker, rows[j].sequence);
        assert pk[j - 1] == (rows[j - 1].marker, rows[j - 1].sequence);
        assert MarkerIdKeys(p)[j] == RunNumber(mk, j) && MarkerIdKeys(p)[j - 1] == RunNumber(mk, j - 1);
        assert PairIdKeys(p)[j] == (RunNumber(mk, j), RunNumber(pk, j));
        assert PairIdKeys(p)[j - 1] == (RunNumber(mk, j - 1), RunNumber(pk, j - 1));
      }
    }
  }

  /** The markers table is taken at the places where the marker of the
      sorted rows changes. */
  lemma MarkersOfAtStarts(rows: seq<SortedRow>)
    ensures MarkersOf(rows) == AtRunStarts(MarkerKeys(rows), MarkerCandidates(NumberedPairs(rows)), |rows|)
  {
    PairsStartWithRows(rows);
    AtRunStartsSameStarts(MarkerIdKeys(NumberedPairs(rows)), MarkerKeys(rows), MarkerCandidates(NumberedPairs(rows)), |rows|);
  }

  /** On input sorted by marker the markers table has one row per distinct
      marker, numbered 1, 2, ... in order. */
  lemma {:induction false} MarkersOfNumbered(rows: seq<SortedRow>)
    requires Contiguous(MarkerKeys(rows))
    ensures |MarkersOf(rows)| == |Distinct(MarkerKeys(rows), |rows|)|
    ensures forall k :: 0 <= k < |MarkersOf(rows)| ==> MarkersOf(rows)[k].id == k + 1
  {
    var mk, mc, n := MarkerKeys(rows), MarkerCandidates(NumberedPairs(rows)), |rows|;
    var markers := MarkersOf(rows);
    MarkersOfAtStarts(rows);
    if n == 0 {
      assert Distinct(mk, 0) == {};
    } else {
      AtRunStartsLength(mk, mc, n);
      RunNumberCountsDistinct(mk, n - 1);
      forall k | 0 <= k < |markers|
        ensures markers[k].id == k + 1
      {
        var j := AtRunStartsFrom(mk, mc, n, k);
      }
    }
  }

  /** On input sorted by marker no two markers rows name the same marker. */
  lemma {:induction false} MarkersOfDistinct(rows: seq<SortedRow>, k: nat, l: nat)
    requires Contiguous(MarkerKeys(rows))
    requires k < l < |MarkersOf(rows)|
    ensures MarkersOf(rows)[k].marker != MarkersOf(rows)[l].marker
  {
    var mk, mc, n := MarkerKeys(rows), MarkerCandidates(NumberedPairs(rows)), |rows|;
    MarkersOfAtStarts(rows);
    var jk := AtRunStartsFrom(mk, mc, n, k);
    var jl := AtRunStartsFrom(mk, mc, n, l);
    var a, b := if jk <= jl then jk else jl, if jk <= jl then jl else jk;
    RunNumberIdentifies(mk, a, b);
  }

  /** The `marker_id` of every otus row points at the markers row of its
      own marker. */
  lemma {:induction false} MarkersOfReferenced(rows: seq<SortedRow>, i: nat)
    requires i < |rows|
    ensures MarkerIndex(rows, i) <= |MarkersOf(rows)|
    ensures MarkersOf(rows)[MarkerIndex(rows, i) - 1].marker == rows[i].marker
    ensures MarkersOf(rows)[MarkerIndex(rows, i) - 1].id == MarkerIndex(rows, i)
  {
    var mk, mc, n := MarkerKeys(rows), MarkerCandidates(NumberedPairs(rows)), |rows|;
    MarkersOfAtStarts(rows);
    var s := RunStartOf(mk, i);
    AtRunStartsAt(mk, mc, n, s);
  }

  /** The nucleotides table is taken at the places where the (marker,
      sequence) of the sorted rows changes. */
  lemma NucleotidesOfAtStarts(rows: seq<SortedRow>)
    ensures NucleotidesOf(rows) == AtRunStarts(PairKeys(rows), NucleotideCandidates(NumberedPairs(rows)), |rows|)
  {
    PairsStartWithRows(rows);
    AtRunStartsSameStarts(PairIdKeys(NumberedPairs(rows)), PairKeys(rows), NucleotideCandidates(NumberedPairs(rows)), |rows|);
  }

  /** On sorted input the nucleotides table has one row per distinct
      (marker, sequence), numbered 1, 2, ... in order. */
  lemma {:induction false} NucleotidesOfNumbered(rows: seq<SortedRow>)
    requires Contiguous(PairKeys(rows))
    ensures |NucleotidesOf(rows)| == |Distinct(PairKeys(rows), |rows|)|
    ensures forall k :: 0 <= k < |NucleotidesOf(rows)| ==> NucleotidesOf(rows)[k].id == k + 1
  {
    var pk, nc, n := PairKeys(rows), NucleotideCandidates(NumberedPairs(rows)), |rows|;
    var nucs := NucleotidesOf(rows);
    NucleotidesOfAtStarts(rows);
    if n == 0 {
      assert Distinct(pk, 0) == {};
    } else {
      AtRunStartsLength(pk, nc, n);
      RunNumberCountsDistinct(pk, n - 1);
      forall k | 0 <= k < |nucs|
        ensures nucs[k].id == k + 1
      {
        var j := AtRunStartsFrom(pk, nc, n, k);
      }
    }
  }

  /** On sorted input no two nucleotides rows have the same marker id and
      sequence. */
  lemma {:induction false} NucleotidesOfDistinct(rows: seq<SortedRow>, k: nat, l: nat)
    requires Contiguous(MarkerKeys(rows)) && Contiguous(PairKeys(rows))
    requires k < l < |NucleotidesOf(rows)|
    ensures NucleotidesOf(rows)[k].markerId != NucleotidesOf(rows)[l].markerId ||
      NucleotidesOf(rows)[k].sequence != NucleotidesOf(rows)[l].sequence
  {
    var pk, nc, n := PairKeys(rows), NucleotideCandidates(NumberedPairs(rows)), |rows|;
    NucleotidesOfAtStarts(rows);
    var jk := AtRunStartsFrom(pk, nc, n, k);
    var jl := AtRunStartsFrom(pk, nc, n, l);
    FirstScanIdentifies(rows, jk, jl);
  }

  /** A scan that has not bumped `sequence_index` between two rows has not
      bumped `marker_index` either. */
  lemma {:induction false} SameSequenceIndexSameMarkerIndex(rows: seq<SortedRow>, s: nat, i: nat)
    requires s <= i < |rows| && SequenceIndex(rows, s) == SequenceIndex(rows, i)
    ensures MarkerIndex(rows, s) == MarkerIndex(rows, i)
  {
    var mk, pk := MarkerKeys(rows), PairKeys(rows);
    RunNumberMonotone(pk, s, i);
    forall k | s < k <= i
      ensures !StartsRun(mk, k)
    {
      assert !StartsRun(pk, k);
      assert pk[k] == (mk[k], rows[k].sequence) && pk[k - 1] == (mk[k - 1], rows[k - 1].sequence);
    }
    RunNumberMonotone(mk, s, i);
  }

  /** The `sequence_id` of every otus row points at the nucleotides row of
      its own marker and sequence. */
  lemma {:induction false} NucleotidesOfReferenced(rows: seq<SortedRow>, i: nat)
    requires i < |rows|
    ensures SequenceIndex(rows, i) <= |NucleotidesOf(rows)|
    ensures NucleotidesOf(rows)[SequenceIndex(rows, i) - 1].markerId == MarkerIndex(rows, i)
    ensures NucleotidesOf(rows)[SequenceIndex(rows, i) - 1].sequence == rows[i].sequence
    ensures NucleotidesOf(rows)[SequenceIndex(rows, i) - 1].id == SequenceIndex(rows, i)
  {
    var pk, nc, n := PairKeys(rows), NucleotideCandidates(NumberedPairs(rows)), |rows|;
    NucleotidesOfAtStarts(rows);
    var s := RunStartOf(pk, i);
    AtRunStartsAt(pk, nc, n, s);
    assert pk[s] == (rows[s].marker, rows[s].sequence) && pk[i] == (rows[i].marker, rows[i].sequence);
    SameSequenceIndexSameMarkerIndex(rows, s, i);
    NucleotideCandidateAt(rows, s);
    ElementOfEqual(NucleotidesOf(rows), AtRunStarts(pk, nc, n), RunNumber(pk, s) - 1, nc[s]);
  }

  lemma ElementOfEqual<T>(a: seq<T>, b: seq<T>, k: nat, x: T)
    requires a == b && k < |b| && b[k] == x
    ensures a[k] == x
  {
  }

  /** The nucleotides row that row `j` of the sorted input would give. */
  lemma NucleotideCandidateAt(rows: seq<SortedRow>, j: nat)
    requires j < |rows|
    ensures NucleotideCandidates(NumberedPairs(rows))[j] ==
      NucleotideRow(SequenceIndex(rows, j), MarkerIndex(rows, j), rows[j].sequence, MarkerWiseId(NumberedPairs(rows), j))
  {
  }

  /** Every nucleotides row comes from the first row `i` of its (marker,
      sequence), and its `marker_wise_id` is 1 plus the number of rows of
      the same marker before row `i`: 1 exactly for the marker's first
      sequence, and skipping values where a sequence is repeated. */
  lemma {:induction false} MarkerWiseIdOf(rows: seq<SortedRow>, k: nat) returns (i: nat)
    requires Contiguous(MarkerKeys(rows)) && Contiguous(PairKeys(rows))
    requires k < |NucleotidesOf(rows)|
    ensures i < |rows| && StartsRun(PairKeys(rows), i) && SequenceIndex(rows, i) == k + 1
    ensures NucleotidesOf(rows)[k].sequence == rows[i].sequence
    ensures NucleotidesOf(rows)[k].markerWiseId == 1 + Occurrences(MarkerKeys(rows), i, rows[i].marker)
    ensures NucleotidesOf(rows)[k].markerWiseId == 1 <==> StartsRun(MarkerKeys(rows), i)
  {
    var p, mk, pk := NumberedPairs(rows), MarkerKeys(rows), PairKeys(rows);
    var nc, n := NucleotideCandidates(p), |rows|;
    PairsStartWithRows(rows);
    NucleotidesOfAtStarts(rows);
    i := AtRunStartsFrom(pk, nc, n, k);
    RunOffsetSameStarts(MarkerIdKeys(p), mk, i);
    RunOffsetCountsEarlier(mk, i);
  }

  /** Within one marker, later nucleotides rows have larger marker-wise ids. */
  lemma {:induction false} MarkerWiseIdIncreasing(rows: seq<SortedRow>, k: nat, l: nat)
    requires Contiguous(MarkerKeys(rows)) && Contiguous(PairKeys(rows))
    requires k < l < |NucleotidesOf(rows)|
    requires NucleotidesOf(rows)[k].markerId == NucleotidesOf(rows)[l].markerId
    ensures NucleotidesOf(rows)[k].markerWiseId < NucleotidesOf(rows)[l].markerWiseId
  {
    var p, mk, pk := NumberedPairs(rows), MarkerKeys(rows), PairKeys(rows);
    var nc, n := NucleotideCandidates(p), |rows|;
    PairsStartWithRows(rows);
    NucleotidesOfAtStarts(rows);
    var ik := AtRunStartsFrom(pk, nc, n, k);
    var il := AtRunStartsFrom(pk, nc, n, l);
    if il <= ik {
      RunNumberMonotone(pk, il, ik);
    }
    assert ik < il;
    RunNumberIdentifies(mk, ik, il);
    RunOffsetWithinRun(mk, ik, il);
    RunOffsetSameStarts(MarkerIdKeys(p), mk, ik);
    RunOffsetSameStarts(MarkerIdKeys(p), mk, il);
  }

  /** A marker seen as AAA in two samples and then as CCC: two nucleotides
      rows, with marker-wise ids 1 and 3, since the repeated AAA row also
      bumps the counter. */
  lemma MarkerWiseIdSkipExample()
    ensures var rows := [
        SortedRow("m", "AAA", "s1", "1", "1.0", "t"),
        SortedRow("m", "AAA", "s2", "1", "1.0", "t"),
        SortedRow("m", "CCC", "s1", "1", "1.0", "t")];
      MarkersOf(rows) == [MarkerRow(1, "m")] &&
      NucleotidesOf(rows) == [NucleotideRow(1, 1, "AAA", 1), NucleotideRow(2, 1, "CCC", 3)]
  {
    var rows := [
        SortedRow("m", "AAA", "s1", "1", "1.0", "t"),
        SortedRow("m", "AAA", "s2", "1", "1.0", "t"),
        SortedRow("m", "CCC", "s1", "1", "1.0", "t")];
    var mk, pk := MarkerKeys(rows), PairKeys(rows);
    assert mk == ["m", "m", "m"];
    assert pk == [("m", "AAA"), ("m", "AAA"), ("m", "CCC")];
    assert "AAA" != "CCC" by { assert "AAA"[0] != "CCC"[0]; }
    assert RunNumber(mk, 0) == 1 && RunNumber(mk, 1) == 1 && RunNumber(mk, 2) == 1;
    assert RunNumber(pk, 0) == 1 && RunNumber(pk, 1) == 1 && RunNumber(pk, 2) == 2;
    var p := NumberedPairs(rows);
    assert p == [MarkerSequenceRow(1, 1, "m", "AAA"), MarkerSequenceRow(1, 1, "m", "AAA"),
                 MarkerSequenceRow(1, 2, "m", "CCC")];
    var mik := MarkerIdKeys(p);
    assert mik == [1, 1, 1];
    assert PairIdKeys(p) == [(1, 1), (1, 1), (1, 2)];
    assert RunOffset(mik, 0) == 0 && RunOffset(mik, 1) == 1 && RunOffset(mik, 2) == 2;
    assert MarkerCandidates(p)[0] == MarkerRow(1, "m");
    assert NucleotideCandidates(p)[0] == NucleotideRow(1, 1, "AAA", 1);
    assert NucleotideCandidates(p)[2] == NucleotideRow(2, 1, "CCC", 3);
  }
}
