/** What `create_from_otu_table` and `create_annoy_nucleotide_indexes` hand
    to the nearest-neighbour indices: for every markers row, the nmslib
    nucleotide index, the nmslib protein index and the annoy nucleotide
    index, each seen as the file it is saved to and the points added to it. */
module IndexFeeding {
  import opened Wrappers
  import opened Text
  import opened Encoding
  import opened Translation
  import opened Runs
  import opened Numbering

  /** A data point: the key the index stores and the encoded sequence. */
  datatype Point<V> = Point(key: nat, vector: V)

  /** An nmslib index with the points added to it, saved under `path`. */
  datatype NmslibIndexFile = NmslibIndexFile(path: string, points: seq<Point<string>>)

  /** An annoy index of `ndim` dimensions built with `ntrees` trees, saved under `path`. */
  datatype AnnoyIndexFile = AnnoyIndexFile(path: string, ndim: nat, ntrees: int, items: seq<Point<seq<int>>>)

  /** `create_annoy_nucleotide_indexes` reads the sequence of the first
      nucleotides row; on an empty table `first()` gives None and the
      subscript raises. */
  datatype AnnoyError = EmptyNucleotidesTable

  /** `os.path.join(dir, name + suffix)`. */
  function IndexPath(dir: string, name: string, suffix: string): string
  {
    PathJoin(dir, name + suffix)
  }

  /** The nmslib key of a nucleotides row: its global id. */
  function GlobalId(row: NucleotideRow): nat
  {
    row.id
  }

  /** The annoy key of a nucleotides row: its marker-wise id. */
  function MarkerWiseKey(row: NucleotideRow): nat
  {
    row.markerWiseId
  }

  /** The points that the first `n` nucleotides rows of marker `markerId`
      give, in table order, keyed by `key` and encoded by `enc`. */
  function PointsOf<V>(nucleotides: seq<NucleotideRow>, n: nat, markerId: nat,
                       key: NucleotideRow -> nat, enc: string -> V): (r: seq<Point<V>>)
    requires n <= |nucleotides|
    ensures |r| <= n
  {
    if n == 0 then []
    else
      var row := nucleotides[n - 1];
      PointsOf(nucleotides, n - 1, markerId, key, enc) +
        (if row.markerId == markerId then [Point(key(row), enc(row.sequence))] else [])
  }

  /** A point is fed exactly when some nucleotides row of the marker gives it. */
  lemma {:induction false} PointsOfMembers<V>(nucleotides: seq<NucleotideRow>, n: nat, markerId: nat,
                                              key: NucleotideRow -> nat, enc: string -> V, q: Point<V>)
    requires n <= |nucleotides|
    ensures q in PointsOf(nucleotides, n, markerId, key, enc) <==>
      exists i :: 0 <= i < n && nucleotides[i].markerId == markerId &&
        q == Point(key(nucleotides[i]), enc(nucleotides[i].sequence))
  {
    if n > 0 {
      PointsOfMembers(nucleotides, n - 1, markerId, key, enc, q);
    }
  }

  /** Points `a < b` come from rows `i < j` of the marker: the feeding keeps
      table order. */
  lemma {:induction false} PointsOfOrigins<V>(nucleotides: seq<NucleotideRow>, n: nat, markerId: nat,
                                              key: NucleotideRow -> nat, enc: string -> V, a: nat, b: nat)
    returns (i: nat, j: nat)
    requires n <= |nucleotides| && a < b < |PointsOf(nucleotides, n, markerId, key, enc)|
    ensures i < j < n && nucleotides[i].markerId == markerId && nucleotides[j].markerId == markerId
    ensures PointsOf(nucleotides, n, markerId, key, enc)[a] == Point(key(nucleotides[i]), enc(nucleotides[i].sequence))
    ensures PointsOf(nucleotides, n, markerId, key, enc)[b] == Point(key(nucleotides[j]), enc(nucleotides[j].sequence))
  {
    var prev := PointsOf(nucleotides, n - 1, markerId, key, enc);
    if b < |prev| {
      i, j := PointsOfOrigins(nucleotides, n - 1, markerId, key, enc, a, b);
    } else {
      j := n - 1;
      assert PointsOf(nucleotides, n, markerId, key, enc)[a] == prev[a];
      var q := prev[a];
      assert q in prev;
      PointsOfMembers(nucleotides, n - 1, markerId, key, enc, q);
      i :| 0 <= i < n - 1 && nucleotides[i].markerId == markerId &&
        q == Point(key(nucleotides[i]), enc(nucleotides[i].sequence));
    }
  }

  /** The points of the nmslib nucleotide index of a marker: global id and
      the space-separated encoding. */
  function NucleotidePoints(nucleotides: seq<NucleotideRow>, markerId: nat): seq<Point<string>>
  {
    PointsOf(nucleotides, |nucleotides|, markerId, GlobalId, NucleotidesToBinary)
  }

  /** The items of the annoy index of a marker: marker-wise id and the bit list. */
  function AnnoyItems(nucleotides: seq<NucleotideRow>, markerId: nat): seq<Point<seq<int>>>
  {
    PointsOf(nucleotides, |nucleotides|, markerId, MarkerWiseKey, NucleotidesToBinaryArray)
  }

  /** The loop that feeds one index: every nucleotides row of the marker is
      added, and `count` says how many were. */
  method FeedMarker<V>(nucleotides: seq<NucleotideRow>, markerId: nat,
                       key: NucleotideRow -> nat, enc: string -> V)
    returns (points: seq<Point<V>>, count: nat)
    ensures points == PointsOf(nucleotides, |nucleotides|, markerId, key, enc)
    ensures count == |points|
  {
    points, count := [], 0;
    var j := 0;
    while j < |nucleotides|
      invariant 0 <= j <= |nucleotides|
      invariant points == PointsOf(nucleotides, j, markerId, key, enc) && count == |points|
    {
      var row := nucleotides[j];
      if row.markerId == markerId {
        points := points + [Point(key(row), enc(row.sequence))];
        count := count + 1;
      }
      j := j + 1;
    }
  }

  /** The nmslib nucleotide indices: one file per markers row, in
      `nucleotide_indices/<marker>.nmslib_index`, holding the marker's
      nucleotides keyed by global id. */
  method BuildNucleotideIndexes(dbPath: string, markers: seq<MarkerRow>, nucleotides: seq<NucleotideRow>)
    returns (files: seq<NmslibIndexFile>)
    ensures |files| == |markers|
    ensures forall k :: 0 <= k < |markers| ==>
      (files[k] == NmslibIndexFile(IndexPath(PathJoin(dbPath, "nucleotide_indices"), markers[k].marker, ".nmslib_index"),
                                   NucleotidePoints(nucleotides, markers[k].id)))
  {
    var dir := PathJoin(dbPath, "nucleotide_indices");
    files := [];
    var k := 0;
    while k < |markers|
      invariant 0 <= k <= |markers| && |files| == k
      invariant forall l :: 0 <= l < k ==>
        (files[l] == NmslibIndexFile(IndexPath(dir, markers[l].marker, ".nmslib_index"), NucleotidePoints(nucleotides, markers[l].id)))
    {
      var points, count := FeedMarker(nucleotides, markers[k].id, GlobalId, NucleotidesToBinary);
      files := files + [NmslibIndexFile(IndexPath(dir, markers[k].marker, ".nmslib_index"), points)];
      k := k + 1;
    }
  }

  // ----- protein indices -----

  /** The query `select sequence, min(id) ... group by sequence where
      marker_id = m` over the first `n` proteins rows: each distinct
      sequence among the rows whose marker_id column is `m`, with the
      smallest id among them. */
  function ProteinGroups(proteins: seq<ProteinRow>, n: nat, m: nat): map<string, nat>
    requires n <= |proteins|
  {
    if n == 0 then map[]
    else
      var g := ProteinGroups(proteins, n - 1, m);
      var row := proteins[n - 1];
      if row.markerId != m then g
      else if row.sequence in g && g[row.sequence] <= row.id then g
      else g[row.sequence := row.id]
  }

  /** The query groups exactly the sequences of the selected rows, and
      gives each the smallest id among its rows. */
  lemma {:induction false} ProteinGroupsMeaning(proteins: seq<ProteinRow>, n: nat, m: nat, s: string)
    requires n <= |proteins|
    ensures s in ProteinGroups(proteins, n, m) <==>
      exists i :: 0 <= i < n && proteins[i].markerId == m && proteins[i].sequence == s
    ensures s in ProteinGroups(proteins, n, m) ==>
      (exists i :: 0 <= i < n && proteins[i].markerId == m && proteins[i].sequence == s &&
        proteins[i].id == ProteinGroups(proteins, n, m)[s]) &&
      (forall i :: 0 <= i < n && proteins[i].markerId == m && proteins[i].sequence == s ==>
        ProteinGroups(proteins, n, m)[s] <= proteins[i].id)
  {
    if n > 0 {
      ProteinGroupsMeaning(proteins, n - 1, m, s);
    }
  }

  /** The points of the protein index of marker id `m`. */
  function ProteinPoints(proteins: seq<ProteinRow>, m: nat): set<Point<string>>
  {
    var g := ProteinGroups(proteins, |proteins|, m);
    GroupPoints(g, g.Keys)
  }

  /** The points that the groups with sequences in `keys` give. */
  function GroupPoints(g: map<string, nat>, keys: set<string>): set<Point<string>>
    requires keys <= g.Keys
  {
    set s | s in keys :: Point(g[s], ProteinToBinary(s))
  }

  lemma SingleGroupPoints(proteins: seq<ProteinRow>, m: nat, s: string, v: nat)
    requires ProteinGroups(proteins, |proteins|, m) == map[s := v]
    ensures ProteinPoints(proteins, m) == {Point(v, ProteinToBinary(s))}
  {
    assert ProteinGroups(proteins, |proteins|, m).Keys == {s};
  }

  lemma NoGroupPoints(proteins: seq<ProteinRow>, m: nat)
    requires ProteinGroups(proteins, |proteins|, m) == map[]
    ensures ProteinPoints(proteins, m) == {}
  {
  }

  lemma GroupPointsAdd(g: map<string, nat>, keys: set<string>, s: string)
    requires keys <= g.Keys && s in g
    ensures GroupPoints(g, keys + {s}) == GroupPoints(g, keys) + {Point(g[s], ProteinToBinary(s))}
  {
  }

  lemma ElementsAppend<T>(xs: seq<T>, x: T)
    ensures (set q | q in xs + [x]) == (set q | q in xs) + {x}
  {
  }

  /** The loop over the query's rows: one point per group, in whatever order
      the query gives them, `count` of them. */
  method FeedProteinGroups(proteins: seq<ProteinRow>, m: nat) returns (points: seq<Point<string>>, count: nat)
    ensures (set q | q in points) == ProteinPoints(proteins, m)
    ensures count == |points| == |ProteinGroups(proteins, |proteins|, m)|
  {
    var g := ProteinGroups(proteins, |proteins|, m);
    var remaining := g.Keys;
    ghost var done: set<string> := {};
    points, count := [], 0;
    while remaining != {}
      invariant done <= g.Keys && remaining == g.Keys - done
      invariant (set q | q in points) == GroupPoints(g, done)
      invariant count == |points| == |done|
      decreases |remaining|
    {
      var s :| s in remaining;
      GroupPointsAdd(g, done, s);
      ElementsAppend(points, Point(g[s], ProteinToBinary(s)));
      points := points + [Point(g[s], ProteinToBinary(s))];
      count := count + 1;
      done := done + {s};
      remaining := remaining - {s};
    }
    assert done == g.Keys;
  }

  /** The nmslib protein indices: one file per markers row, in
      `protein_indices/<marker>.nmslib_index`. */
  method BuildProteinIndexes(dbPath: string, markers: seq<MarkerRow>, proteins: seq<ProteinRow>)
    returns (files: seq<NmslibIndexFile>)
    ensures |files| == |markers|
    ensures forall k :: 0 <= k < |markers| ==>
      files[k].path == IndexPath(PathJoin(dbPath, "protein_indices"), markers[k].marker, ".nmslib_index") &&
      (set q | q in files[k].points) == ProteinPoints(proteins, markers[k].id)
  {
    var dir := PathJoin(dbPath, "protein_indices");
    files := [];
    var k := 0;
    while k < |markers|
      invariant 0 <= k <= |markers| && |files| == k
      invariant forall l :: 0 <= l < k ==>
        files[l].path == IndexPath(dir, markers[l].marker, ".nmslib_index") &&
        (set q | q in files[l].points) == ProteinPoints(proteins, markers[l].id)
    {
      var points, count := FeedProteinGroups(proteins, markers[k].id);
      files := files + [NmslibIndexFile(IndexPath(dir, markers[k].marker, ".nmslib_index"), points)];
      k := k + 1;
    }
  }

  /** Because the proteins rows carry the nucleotide id in the column named
      marker_id, the protein index of markers row `m` does not hold that
      marker's proteins: over a nucleotides table numbered 1, 2, ... it
      holds just one point, the translation of nucleotides row `m` (of
      whatever marker) under protein id `m - 1`, and nothing for an `m`
      beyond the table. */
  lemma ProteinIndexHoldsNucleotideM(nucleotides: seq<NucleotideRow>, n: nat, m: nat)
    requires n <= |nucleotides|
    requires forall k :: 0 <= k < |nucleotides| ==> nucleotides[k].id == k + 1
    ensures ProteinGroups(ProteinTable(nucleotides), n, m) ==
      if 1 <= m <= n then map[Translated(nucleotides[m - 1].sequence) := m - 1] else map[]
  {
    ProteinTableKeyed(nucleotides);
    GroupsOfKeyedRows(ProteinTable(nucleotides), n, m);
    if 1 <= m <= n {
      ProteinTableAt(nucleotides, m - 1);
    }
  }

  /** The query over rows whose marker_id column is 1, 2, ... in order
      selects row `m - 1` alone. */
  lemma {:induction false} GroupsOfKeyedRows(proteins: seq<ProteinRow>, n: nat, m: nat)
    requires n <= |proteins|
    requires forall k :: 0 <= k < |proteins| ==> proteins[k].markerId == k + 1
    ensures ProteinGroups(proteins, n, m) ==
      if 1 <= m <= n then map[proteins[m - 1].sequence := proteins[m - 1].id] else map[]
  {
    if n > 0 {
      GroupsOfKeyedRows(proteins, n - 1, m);
    }
  }

  // ----- annoy indices -----

  /** The default tree count: `int(count / 10)`, raised to 1 if below,
      that is max(1, count / 10). */
  function TreeCount(count: nat): (t: nat)
    ensures t >= 1 && t >= count / 10 && (t == 1 || t == count / 10)
    ensures count < 10 ==> t == 1
    ensures count >= 10 ==> t == count / 10
  {
    if count / 10 < 1 then 1 else count / 10
  }

  /** The tree count of every annoy index: the caller's `ntrees`, or else
      the default computed from the first marker's count, since `ntrees`
      is no longer None once the first marker has set it. */
  function TreesFor(ntrees: Option<int>, markers: seq<MarkerRow>, nucleotides: seq<NucleotideRow>): int
    requires |markers| > 0
  {
    if ntrees.Some? then ntrees.value else TreeCount(|AnnoyItems(nucleotides, markers[0].id)|)
  }

  /** `create_annoy_nucleotide_indexes`: `ndim` is five times the length of
      the first nucleotides row's sequence, for every marker; one annoy
      index per markers row in `nucleotide_indices_annoy/<marker>.annoy_index`
      holding the marker's nucleotides keyed by marker-wise id; fails when
      the nucleotides table is empty. */
  method CreateAnnoyNucleotideIndexes(baseDirectory: string, markers: seq<MarkerRow>,
                                      nucleotides: seq<NucleotideRow>, ntreesArg: Option<int>)
    returns (r: Result<seq<AnnoyIndexFile>, AnnoyError>)
    ensures r.Failure? <==> |nucleotides| == 0
    ensures r.Success? ==> |r.value| == |markers|
    ensures r.Success? ==> forall k :: 0 <= k < |markers| ==>
      (r.value[k] == AnnoyIndexFile(IndexPath(PathJoin(baseDirectory, "nucleotide_indices_annoy"), markers[k].marker, ".annoy_index"),
                                    5 * |nucleotides[0].sequence|, TreesFor(ntreesArg, markers, nucleotides),
                                    AnnoyItems(nucleotides, markers[k].id)))
  {
    if |nucleotides| == 0 {
      return Failure(EmptyNucleotidesTable);
    }
    var exampleSeq := nucleotides[0].sequence;
    var ndim := |exampleSeq| * 5;
    var dir := PathJoin(baseDirectory, "nucleotide_indices_annoy");
    var ntrees := ntreesArg;
    var files: seq<AnnoyIndexFile> := [];
    var k := 0;
    while k < |markers|
      invariant 0 <= k <= |markers| && |files| == k
      invariant k == 0 ==> ntrees == ntreesArg
      invariant k > 0 ==> ntrees == Some(TreesFor(ntreesArg, markers, nucleotides))
      invariant forall l :: 0 <= l < k ==>
        (files[l] == AnnoyIndexFile(IndexPath(dir, markers[l].marker, ".annoy_index"), ndim,
                                    TreesFor(ntreesArg, markers, nucleotides), AnnoyItems(nucleotides, markers[l].id)))
    {
      var items, count := FeedMarker(nucleotides, markers[k].id, MarkerWiseKey, NucleotidesToBinaryArray);
      if ntrees.None? {
        var t := count / 10;
        if t < 1 {
          t := 1;
        }
        ntrees := Some(t);
      }
      files := files + [AnnoyIndexFile(IndexPath(dir, markers[k].marker, ".annoy_index"), ndim, ntrees.value, items)];
      k := k + 1;
    }
    return Success(files);
  }

  /** When every sequence has the length of the first, every annoy item is a
      vector of exactly `ndim` bits. */
  lemma AnnoyItemsFitDimension(nucleotides: seq<NucleotideRow>, markerId: nat, q: Point<seq<int>>)
    requires |nucleotides| > 0
    requires forall i :: 0 <= i < |nucleotides| ==> |nucleotides[i].sequence| == |nucleotides[0].sequence|
    requires q in AnnoyItems(nucleotides, markerId)
    ensures |q.vector| == 5 * |nucleotides[0].sequence|
  {
    PointsOfMembers(nucleotides, |nucleotides|, markerId, MarkerWiseKey, NucleotidesToBinaryArray, q);
    var i :| 0 <= i < |nucleotides| && nucleotides[i].markerId == markerId &&
      q == Point(MarkerWiseKey(nucleotides[i]), NucleotidesToBinaryArray(nucleotides[i].sequence));
    NucleotideArrayOneHot(nucleotides[i].sequence);
  }

  // ----- the indices of a database built from sorted rows -----

  /** Within one marker the nmslib keys strictly increase, so no two points
      of an nmslib nucleotide index share a key. */
  lemma NucleotideKeysIncreasing(rows: seq<SortedRow>, markerId: nat, a: nat, b: nat)
    requires Contiguous(PairKeys(rows))
    requires a < b < |NucleotidePoints(NucleotidesOf(rows), markerId)|
    ensures NucleotidePoints(NucleotidesOf(rows), markerId)[a].key < NucleotidePoints(NucleotidesOf(rows), markerId)[b].key
  {
    var nucs := NucleotidesOf(rows);
    var i, j := PointsOfOrigins(nucs, |nucs|, markerId, GlobalId, NucleotidesToBinary, a, b);
    NucleotidesOfNumbered(rows);
  }

  /** Within one marker the annoy keys (marker-wise ids) strictly increase,
      so no item of an annoy index overwrites another. */
  lemma AnnoyKeysIncreasing(rows: seq<SortedRow>, markerId: nat, a: nat, b: nat)
    requires Contiguous(MarkerKeys(rows)) && Contiguous(PairKeys(rows))
    requires a < b < |AnnoyItems(NucleotidesOf(rows), markerId)|
    ensures AnnoyItems(NucleotidesOf(rows), markerId)[a].key < AnnoyItems(NucleotidesOf(rows), markerId)[b].key
  {
    var nucs := NucleotidesOf(rows);
    var i, j := PointsOfOrigins(nucs, |nucs|, markerId, MarkerWiseKey, NucleotidesToBinaryArray, a, b);
    MarkerWiseIdIncreasing(rows, i, j);
  }

  /** Over a nucleotides table numbered 1, 2, ..., the protein index of
      markers row `m` holds one point, the translation of nucleotides row
      `m` under key `m - 1`, or none when the table is shorter than `m`. */
  lemma ProteinPointsOfNumbered(nucleotides: seq<NucleotideRow>, m: nat)
    requires forall k :: 0 <= k < |nucleotides| ==> nucleotides[k].id == k + 1
    ensures ProteinPoints(ProteinTable(nucleotides), m) ==
      if 1 <= m <= |nucleotides|
      then {Point(m - 1, ProteinToBinary(Translated(nucleotides[m - 1].sequence)))}
      else {}
  {
    ProteinTableKeyed(nucleotides);
    KeyedRowPoints(ProteinTable(nucleotides), m);
    if 1 <= m <= |nucleotides| {
      ProteinTableAt(nucleotides, m - 1);
      SamePoint(ProteinTable(nucleotides)[m - 1], m - 1, Translated(nucleotides[m - 1].sequence));
    }
  }

  lemma SamePoint(row: ProteinRow, id: nat, s: string)
    requires row.id == id && row.sequence == s
    ensures {Point(row.id, ProteinToBinary(row.sequence))} == {Point(id, ProteinToBinary(s))}
  {
  }

  lemma ProteinTableKeyed(nucleotides: seq<NucleotideRow>)
    requires forall k :: 0 <= k < |nucleotides| ==> nucleotides[k].id == k + 1
    ensures forall k :: 0 <= k < |nucleotides| ==> ProteinTable(nucleotides)[k].markerId == k + 1
  {
  }

  /** The protein index of markers row `m` over rows whose marker_id column
      is 1, 2, ... in order: the point of row `m - 1` alone. */
  lemma KeyedRowPoints(proteins: seq<ProteinRow>, m: nat)
    requires forall k :: 0 <= k < |proteins| ==> proteins[k].markerId == k + 1
    ensures ProteinPoints(proteins, m) ==
      if 1 <= m <= |proteins|
      then {Point(proteins[m - 1].id, ProteinToBinary(proteins[m - 1].sequence))}
      else {}
  {
    GroupsOfKeyedRows(proteins, |proteins|, m);
    if 1 <= m <= |proteins| {
      SingleGroupPoints(proteins, m, proteins[m - 1].sequence, proteins[m - 1].id);
    } else {
      NoGroupPoints(proteins, m);
    }
  }

  /** The protein index of markers row `m` of a built database. */
  lemma BuiltProteinIndex(rows: seq<SortedRow>, m: nat)
    requires Contiguous(PairKeys(rows))
    ensures ProteinPoints(ProteinTable(NucleotidesOf(rows)), m) ==
      if 1 <= m <= |NucleotidesOf(rows)|
      then {Point(m - 1, ProteinToBinary(Translated(NucleotidesOf(rows)[m - 1].sequence)))}
      else {}
  {
    NucleotidesOfNumbered(rows);
    ProteinPointsOfNumbered(NucleotidesOf(rows), m);
  }
}
