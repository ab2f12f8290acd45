/** `create_from_otu_table` from the sorted rows on: the two numbering
    scans, the proteins table, the nmslib indices, re-opening the new
    database with `acquire` and building its annoy indices. */
module Creation {
  import opened Wrappers
  import opened Text
  import opened Runs
  import opened Numbering
  import opened IndexFeeding
  import opened Loader

  /** The tables and index files of a new database. */
  datatype BuiltDatabase = BuiltDatabase(
    otus: seq<OtuRow>,
    markers: seq<MarkerRow>,
    nucleotides: seq<NucleotideRow>,
    proteins: seq<ProteinRow>,
    nucleotideIndexes: seq<NmslibIndexFile>,
    proteinIndexes: seq<NmslibIndexFile>,
    annoyIndexes: seq<AnnoyIndexFile>)

  datatype CreationError = AcquireFailed(reason: AcquireError) | AnnoyFailed(cause: AnnoyError)

  /** The contents file a new database is given. */
  const NewContents: map<string, int> := map[VersionKey := Version]

  function Paths(files: seq<NmslibIndexFile>): (p: seq<string>)
    ensures |p| == |files|
  {
    seq(|files|, k requires 0 <= k < |files| => files[k].path)
  }

  /** A non-empty input has at least one marker. */
  lemma MarkersOfNonEmpty(rows: seq<SortedRow>)
    ensures |MarkersOf(rows)| > 0 <==> |rows| > 0
  {
    if |rows| > 0 {
      var p := NumberedPairs(rows);
      AtRunStartsLength(MarkerIdKeys(p), MarkerCandidates(p), |p|);
    }
  }

  /** A non-empty input has at least one nucleotides row. */
  lemma NucleotidesOfNonEmpty(rows: seq<SortedRow>)
    ensures |NucleotidesOf(rows)| > 0 <==> |rows| > 0
  {
    if |rows| > 0 {
      var p := NumberedPairs(rows);
      AtRunStartsLength(PairIdKeys(p), NucleotideCandidates(p), |p|);
    }
  }

  /** The tables of a new database: the otus table and the markers,
      nucleotides and proteins tables derived from it. */
  method BuildTables(rows: seq<SortedRow>)
    returns (otus: seq<OtuRow>, markers: seq<MarkerRow>, nucleotides: seq<NucleotideRow>, proteins: seq<ProteinRow>)
    ensures otus == NumberedOtus(rows) && markers == MarkersOf(rows) && nucleotides == NucleotidesOf(rows)
    ensures proteins == ProteinTable(NucleotidesOf(rows))
    ensures |markers| > 0 <==> |rows| > 0
    ensures |nucleotides| > 0 <==> |rows| > 0
  {
    var pairs;
    otus, pairs := FirstScan(rows);
    markers, nucleotides := SecondScan(pairs);
    proteins := ProteinRows(nucleotides);
    MarkersOfNonEmpty(rows);
    NucleotidesOfNonEmpty(rows);
  }

  lemma NewContentsAccepted(files: seq<string>)
    ensures ContentsCheck(Some(NewContents), files) == if |files| == 0 then Fail(NoNucleotideIndexFiles) else Pass
  {
    assert FirstMissing(RequiredKeys[Version], NewContents).None?;
  }

  /** `acquire` on a database just written: its contents file holds
      version 4, so only the index files decide. */
  method AcquireNew(registry: MarkerRegistry, dbPath: string, indexFiles: seq<string>)
    returns (r: Result<SequenceDatabase, AcquireError>)
    modifies registry
    ensures r.Failure? <==> |indexFiles| == 0
    ensures r.Failure? ==> r.error == NoNucleotideIndexFiles && registry.files == old(registry.files)
    ensures r.Success? ==>
      (r.value.baseDirectory == dbPath &&
       registry.files == Registrations(old(registry.files), MarkerNames(indexFiles), indexFiles, |indexFiles|))
  {
    NewContentsAccepted(indexFiles);
    r := Acquire(registry, dbPath, Some(NewContents), indexFiles);
  }

  /** The directory of the nmslib nucleotide indices. */
  function NucleotideIndexDir(dbPath: string): string
  {
    PathJoin(dbPath, "nucleotide_indices")
  }

  /** The nmslib nucleotide file written for each markers row. */
  function NucleotideIndexPaths(dbPath: string, markers: seq<MarkerRow>): (p: seq<string>)
    ensures |p| == |markers|
  {
    seq(|markers|, k requires 0 <= k < |markers| => IndexPath(NucleotideIndexDir(dbPath), markers[k].marker, ".nmslib_index"))
  }

  /** The written files that `acquire`'s glob then lists. */
  function ListedNucleotideIndexes(dbPath: string, rows: seq<SortedRow>): seq<string>
  {
    GlobListing(NucleotideIndexDir(dbPath), NucleotideIndexPaths(dbPath, MarkersOf(rows)))
  }

  /** The file of a marker without '/' is listed exactly when the marker
      name neither is empty nor starts with '.'. */
  lemma MarkerFileListed(dbPath: string, rows: seq<SortedRow>, k: nat)
    requires k < |MarkersOf(rows)| && '/' !in MarkersOf(rows)[k].marker
    ensures NucleotideIndexPaths(dbPath, MarkersOf(rows))[k] in ListedNucleotideIndexes(dbPath, rows) <==>
      VisibleName(MarkersOf(rows)[k].marker)
  {
    var paths := NucleotideIndexPaths(dbPath, MarkersOf(rows));
    WrittenFileListed(NucleotideIndexDir(dbPath), MarkersOf(rows)[k].marker);
    GlobListingMembers(NucleotideIndexDir(dbPath), paths, paths[k]);
  }

  /** When every marker name is empty or starts with '.', the glob lists no
      index file, so creating the database fails. */
  lemma HiddenMarkersListNothing(dbPath: string, rows: seq<SortedRow>)
    requires forall k :: 0 <= k < |MarkersOf(rows)| ==>
      '/' !in MarkersOf(rows)[k].marker && !VisibleName(MarkersOf(rows)[k].marker)
    ensures ListedNucleotideIndexes(dbPath, rows) == []
  {
    var paths := NucleotideIndexPaths(dbPath, MarkersOf(rows));
    var listed := ListedNucleotideIndexes(dbPath, rows);
    if |listed| > 0 {
      GlobListingMembers(NucleotideIndexDir(dbPath), paths, listed[0]);
      assert listed[0] in paths;
      var k :| 0 <= k < |paths| && paths[k] == listed[0];
      MarkerFileListed(dbPath, rows, k);
      assert false;
    }
  }

  /** The nmslib nucleotide files of distinct, indexable marker names,
      once acquired, register every marker under its own file. */
  lemma IndexesRegistered(m: map<string, string>, dbPath: string, markers: seq<MarkerRow>, k: nat)
    requires k < |markers|
    requires forall i :: 0 <= i < |markers| ==> SuffixFreeName(markers[i].marker)
    requires forall i, j :: 0 <= i < j < |markers| ==> markers[i].marker != markers[j].marker
    ensures var paths := NucleotideIndexPaths(dbPath, markers);
      markers[k].marker in Registrations(m, MarkerNames(paths), paths, |paths|) &&
      Registrations(m, MarkerNames(paths), paths, |paths|)[markers[k].marker] == paths[k]
  {
    var dir := NucleotideIndexDir(dbPath);
    var names := seq(|markers|, i requires 0 <= i < |markers| => markers[i].marker);
    assert NucleotideIndexPaths(dbPath, markers) ==
      seq(|names|, i requires 0 <= i < |names| => PathJoin(dir, names[i] + IndexSuffix));
    BuiltIndexesRegistered(m, dir, names, k);
  }

  /** Every file written for indexable marker names is listed. */
  lemma IndexableListed(dbPath: string, markers: seq<MarkerRow>)
    requires forall i :: 0 <= i < |markers| ==> IndexableName(markers[i].marker)
    ensures GlobListing(NucleotideIndexDir(dbPath), NucleotideIndexPaths(dbPath, markers)) == NucleotideIndexPaths(dbPath, markers)
  {
    var dir := NucleotideIndexDir(dbPath);
    var paths := NucleotideIndexPaths(dbPath, markers);
    forall i | 0 <= i < |paths|
      ensures GlobListed(dir, paths[i])
    {
      WrittenFileListed(dir, markers[i].marker);
    }
    GlobListingAll(dir, paths);
  }

  /** Over a contiguous input whose marker names are indexable, the glob
      lists every written file, and acquiring registers every marker of the
      new database under its own nmslib nucleotide file: with the registry
      that `CreateFromSortedRows` leaves, `get_nucleotide_index` finds every
      marker. */
  lemma AllIndexesRegistered(m: map<string, string>, dbPath: string, rows: seq<SortedRow>)
    requires Contiguous(MarkerKeys(rows))
    requires forall i :: 0 <= i < |MarkersOf(rows)| ==> IndexableName(MarkersOf(rows)[i].marker)
    ensures ListedNucleotideIndexes(dbPath, rows) == NucleotideIndexPaths(dbPath, MarkersOf(rows))
    ensures var listed := ListedNucleotideIndexes(dbPath, rows);
      forall k :: 0 <= k < |MarkersOf(rows)| ==>
        (MarkersOf(rows)[k].marker in Registrations(m, MarkerNames(listed), listed, |listed|) &&
         Registrations(m, MarkerNames(listed), listed, |listed|)[MarkersOf(rows)[k].marker] == listed[k])
  {
    var markers := MarkersOf(rows);
    IndexableListed(dbPath, markers);
    forall a, b | 0 <= a < b < |markers|
      ensures markers[a].marker != markers[b].marker
    {
      MarkersOfDistinct(rows, a, b);
    }
    forall k | 0 <= k < |markers|
      ensures var paths := NucleotideIndexPaths(dbPath, markers);
        markers[k].marker in Registrations(m, MarkerNames(paths), paths, |paths|) &&
        Registrations(m, MarkerNames(paths), paths, |paths|)[markers[k].marker] == paths[k]
    {
      IndexesRegistered(m, dbPath, markers, k);
    }
  }

  /** The database built from sorted rows. `acquire` then finds the nmslib
      nucleotide files its glob lists; it raises when there are none: on an
      empty input, or when every marker name is empty or starts with '.'. */
  method CreateFromSortedRows(registry: MarkerRegistry, dbPath: string, rows: seq<SortedRow>)
    returns (r: Result<BuiltDatabase, CreationError>)
    modifies registry
    ensures r.Failure? <==> |ListedNucleotideIndexes(dbPath, rows)| == 0
    ensures |rows| == 0 ==> r.Failure?
    ensures r.Failure? ==> r.error == AcquireFailed(NoNucleotideIndexFiles) && registry.files == old(registry.files)
    ensures r.Success? ==>
      (|MarkersOf(rows)| > 0 && |NucleotidesOf(rows)| > 0 &&
       r.value.otus == NumberedOtus(rows) &&
       r.value.markers == MarkersOf(rows) &&
       r.value.nucleotides == NucleotidesOf(rows) &&
       r.value.proteins == ProteinTable(NucleotidesOf(rows)) &&
       |r.value.nucleotideIndexes| == |r.value.proteinIndexes| == |r.value.annoyIndexes| == |MarkersOf(rows)|)
    ensures r.Success? ==> forall k :: 0 <= k < |r.value.markers| ==>
      (r.value.nucleotideIndexes[k].path == NucleotideIndexPaths(dbPath, r.value.markers)[k] &&
       r.value.nucleotideIndexes[k].points == NucleotidePoints(r.value.nucleotides, r.value.markers[k].id) &&
       r.value.annoyIndexes[k].items == AnnoyItems(r.value.nucleotides, r.value.markers[k].id) &&
       r.value.annoyIndexes[k].ndim == 5 * |r.value.nucleotides[0].sequence| &&
       r.value.annoyIndexes[k].ntrees == TreeCount(|AnnoyItems(r.value.nucleotides, r.value.markers[0].id)|))
    ensures r.Success? ==> forall k :: 0 <= k < |r.value.markers| ==>
      (set q | q in r.value.proteinIndexes[k].points) == ProteinPoints(r.value.proteins, r.value.markers[k].id)
    ensures r.Success? ==> forall k :: 0 <= k < |r.value.markers| ==>
      (r.value.proteinIndexes[k].path == IndexPath(PathJoin(dbPath, "protein_indices"), r.value.markers[k].marker, ".nmslib_index") &&
       r.value.annoyIndexes[k].path == IndexPath(PathJoin(dbPath, "nucleotide_indices_annoy"), r.value.markers[k].marker, ".annoy_index"))
    ensures r.Success? ==>
      registry.files == Registrations(old(registry.files), MarkerNames(ListedNucleotideIndexes(dbPath, rows)),
                                      ListedNucleotideIndexes(dbPath, rows), |ListedNucleotideIndexes(dbPath, rows)|)
  {
    var otus, markers, nucleotides, proteins := BuildTables(rows);
    var nucleotideIndexes := BuildNucleotideIndexes(dbPath, markers, nucleotides);
    var proteinIndexes := BuildProteinIndexes(dbPath, markers, proteins);
    assert Paths(nucleotideIndexes) == NucleotideIndexPaths(dbPath, markers);
    var listed := GlobListing(NucleotideIndexDir(dbPath), Paths(nucleotideIndexes));
    var acquired := AcquireNew(registry, dbPath, listed);
    match acquired {
      case Failure(e) =>
        return Failure(AcquireFailed(e));
      case Success(db) =>
        var annoy := CreateAnnoyNucleotideIndexes(db.baseDirectory, markers, nucleotides, None);
        match annoy {
          case Failure(e) =>
            return Failure(AnnoyFailed(e));
          case Success(annoyIndexes) =>
            return Success(BuiltDatabase(otus, markers, nucleotides, proteins, nucleotideIndexes, proteinIndexes, annoyIndexes));
        }
    }
  }
}
