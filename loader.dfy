/** Opening an existing database (`SequenceDatabase.acquire`), the marker
    to index-file registry it fills (`add_nucleotide_db`,
    `get_nucleotide_index`) and the `_grouper` helper. The contents file,
    the directory listing and the index files are inputs: the model sees
    the parsed contents (or their absence) and the paths the glob found. */
module Loader {
  import opened Wrappers
  import opened Text

  /** The database format this code reads and writes. */
  const Version: int := 4
  const SqliteDbName: string := "otus.sqlite3"
  const ContentsFileName: string := "CONTENTS.json"
  const VersionKey: string := "singlem_database_version"
  /** The keys the contents file must hold, per version. */
  const RequiredKeys: map<int, seq<string>> := map[4 := [VersionKey]]
  const IndexSuffix: string := ".nmslib_index"

  /** Why `acquire` raises. */
  datatype AcquireError =
    | MissingContentsFile
    | MissingVersionKey
    | UnexpectedVersion(found: int)
    | MissingRequiredKey(key: string)
    | NoNucleotideIndexFiles

  /** The first of `keys` that `contents` lacks. */
  function FirstMissing(keys: seq<string>, contents: map<string, int>): (r: Option<string>)
    ensures r.None? <==> forall k :: k in keys ==> k in contents
    ensures r.Some? ==> r.value in keys && r.value !in contents
  {
    if |keys| == 0 then None
    else if keys[0] !in contents then Some(keys[0])
    else FirstMissing(keys[1..], contents)
  }

  /** The loop over the required keys. */
  method FindMissingKey(keys: seq<string>, contents: map<string, int>) returns (missing: Option<string>)
    ensures missing == FirstMissing(keys, contents)
  {
    var i := 0;
    while i < |keys|
      invariant 0 <= i <= |keys|
      invariant FirstMissing(keys, contents) == FirstMissing(keys[i..], contents)
    {
      assert keys[i..][1..] == keys[i + 1..];
      if keys[i] !in contents {
        return Some(keys[i]);
      }
      i := i + 1;
    }
    return None;
  }

  /** The outcome of the checks `acquire` makes, in the order it makes them. */
  function ContentsCheck(contents: Option<map<string, int>>, indexFiles: seq<string>): Outcome<AcquireError>
  {
    if contents.None? then Fail(MissingContentsFile)
    else if VersionKey !in contents.value then Fail(MissingVersionKey)
    else if contents.value[VersionKey] != Version then Fail(UnexpectedVersion(contents.value[VersionKey]))
    else if FirstMissing(RequiredKeys[Version], contents.value).Some? then
      Fail(MissingRequiredKey(FirstMissing(RequiredKeys[Version], contents.value).value))
    else if |indexFiles| == 0 then Fail(NoNucleotideIndexFiles)
    else Pass
  }

  /** `acquire` accepts exactly a contents file whose version is 4 together
      with at least one index file; since the only required key is the
      version key itself, the required-key check never fails. */
  lemma ContentsCheckAccepts(contents: Option<map<string, int>>, indexFiles: seq<string>)
    ensures ContentsCheck(contents, indexFiles).Pass? <==>
      contents.Some? && VersionKey in contents.value && contents.value[VersionKey] == 4 && |indexFiles| > 0
    ensures ContentsCheck(contents, indexFiles).Fail? ==> !ContentsCheck(contents, indexFiles).error.MissingRequiredKey?
  {
  }

  /** The marker an index file is registered under:
      `os.path.basename(g).replace('.nmslib_index', '')`. */
  function MarkerName(indexFile: string): string
  {
    RemoveAll(Basename(indexFile), IndexSuffix)
  }

  /** The base name of a path ending in `/b`, or of `b` itself, is `b`. */
  lemma BasenameOfSuffix(p: string, b: string)
    requires '/' !in b
    requires |p| == 0 || p[|p| - 1] == '/'
    ensures Basename(p + b) == b
  {
    var s := p + b;
    var r := Basename(s);
    assert forall k :: |p| <= k < |s| ==> s[k] == b[k - |p|];
    assert |p| > 0 ==> s[|p| - 1] == '/';
    assert |r| == |b|;
    assert s[|p|..] == b;
  }

  /** `os.path.join(dir, b)` has base name `b` when `b` is a non-empty name
      without a '/'. */
  lemma BasenameOfJoin(dir: string, b: string)
    requires '/' !in b && |b| > 0
    ensures Basename(PathJoin(dir, b)) == b
  {
    if |dir| == 0 || dir[|dir| - 1] == '/' {
      BasenameOfSuffix(dir, b);
    } else {
      assert dir + "/" + b == (dir + "/") + b;
      BasenameOfSuffix(dir + "/", b);
    }
  }

  /** A marker name that survives the trip through an index file name:
      no '/', and `.nmslib_index` occurring neither in it nor across its
      end. */
  predicate SuffixFreeName(marker: string)
  {
    '/' !in marker &&
    forall i :: 0 <= i < |marker| ==> !OccursAt(marker + IndexSuffix, IndexSuffix, i)
  }

  /** A marker name whose index file the glob also lists (see
      `VisibleName`). */
  predicate IndexableName(marker: string)
  {
    SuffixFreeName(marker) && VisibleName(marker)
  }

  /** A marker whose index file name does not start with '.'. */
  predicate VisibleName(marker: string)
  {
    |marker| > 0 && marker[0] != '.'
  }

  // Whether the glob of `acquire`, the pattern `<path>/nucleotide_indices/`
  // followed by `*.nmslib_index`, lists the file at `p`, for `dir` the
  // `nucleotide_indices` directory: the file lies directly in `dir` and its
  // name ends in `.nmslib_index` and does not start with '.', since a
  // wildcard never matches a leading '.'.
  predicate GlobListed(dir: string, p: string)
  {
    var name := Basename(p);
    p == PathJoin(dir, name) && |name| >= |IndexSuffix| && name[0] != '.' &&
    name[|name| - |IndexSuffix|..] == IndexSuffix
  }

  /** The elements of `xs` that `keep` holds of, in order. */
  function Filter<T>(keep: T -> bool, xs: seq<T>): (r: seq<T>)
    ensures |r| <= |xs|
  {
    if |xs| == 0 then []
    else (if keep(xs[0]) then [xs[0]] else []) + Filter(keep, xs[1..])
  }

  /** `Filter` keeps exactly the elements `keep` holds of. */
  lemma {:induction false} FilterMembers<T>(keep: T -> bool, xs: seq<T>, x: T)
    ensures x in Filter(keep, xs) <==> x in xs && keep(x)
  {
    if |xs| > 0 {
      FilterMembers(keep, xs[1..], x);
      assert x in xs <==> x == xs[0] || x in xs[1..] by {
        assert xs == [xs[0]] + xs[1..];
      }
    }
  }

  /** When `keep` holds of every element, `Filter` keeps them all. */
  lemma {:induction false} FilterAll<T>(keep: T -> bool, xs: seq<T>)
    requires forall i :: 0 <= i < |xs| ==> keep(xs[i])
    ensures Filter(keep, xs) == xs
  {
    if |xs| > 0 {
      FilterAll(keep, xs[1..]);
      assert [xs[0]] + xs[1..] == xs;
    }
  }

  /** The files of `paths` that the glob lists, in the order given. */
  function GlobListing(dir: string, paths: seq<string>): (listed: seq<string>)
    ensures |listed| <= |paths|
  {
    Filter(p => GlobListed(dir, p), paths)
  }

  /** The glob lists exactly the given files that match. */
  lemma GlobListingMembers(dir: string, paths: seq<string>, p: string)
    ensures p in GlobListing(dir, paths) <==> p in paths && GlobListed(dir, p)
  {
    FilterMembers(q => GlobListed(dir, q), paths, p);
  }

  /** When every file matches, the glob lists them all. */
  lemma GlobListingAll(dir: string, paths: seq<string>)
    requires forall i :: 0 <= i < |paths| ==> GlobListed(dir, paths[i])
    ensures GlobListing(dir, paths) == paths
  {
    FilterAll(q => GlobListed(dir, q), paths);
  }

  /** The index file written for a marker without '/' is listed exactly
      when its name does not start with '.': the empty marker and a marker
      starting with '.' are skipped. */
  lemma WrittenFileListed(dir: string, marker: string)
    requires '/' !in marker
    ensures GlobListed(dir, PathJoin(dir, marker + IndexSuffix)) <==> VisibleName(marker)
  {
    var name := marker + IndexSuffix;
    assert '/' !in name;
    BasenameOfJoin(dir, name);
    assert name[|name| - |IndexSuffix|..] == IndexSuffix;
    assert name[0] == if |marker| > 0 then marker[0] else '.';
  }

  /** The index file that building writes for a marker is registered back
      under that marker's name. */
  lemma MarkerNameRoundTrip(dir: string, marker: string)
    requires SuffixFreeName(marker)
    ensures MarkerName(PathJoin(dir, marker + IndexSuffix)) == marker
  {
    assert '/' !in IndexSuffix;
    assert '/' !in marker + IndexSuffix;
    BasenameOfJoin(dir, marker + IndexSuffix);
    RemoveAllTrailing(marker, IndexSuffix);
  }

  /** `replace` removes an occurrence anywhere in the base name: a leading
      `.nmslib_index` vanishes as well. */
  lemma {:induction false} LeadingSuffixRemoved(name: string)
    ensures RemoveAll(IndexSuffix + name, IndexSuffix) == RemoveAll(name, IndexSuffix)
  {
    var s := IndexSuffix + name;
    assert s[..|IndexSuffix|] == IndexSuffix;
    assert s[|IndexSuffix|..] == name;
  }

  /** The marker name of every index file the glob found. */
  function MarkerNames(indexFiles: seq<string>): (names: seq<string>)
    ensures |names| == |indexFiles|
  {
    seq(|indexFiles|, i requires 0 <= i < |indexFiles| => MarkerName(indexFiles[i]))
  }

  /** The registry after the first `n` of the `add_nucleotide_db(names[i],
      paths[i])` calls over `m`. */
  function Registrations(m: map<string, string>, names: seq<string>, paths: seq<string>, n: nat): map<string, string>
    requires |names| == |paths| && n <= |paths|
  {
    if n == 0 then m
    else Registrations(m, names, paths, n - 1)[names[n - 1] := paths[n - 1]]
  }

  /** One more registration. */
  lemma RegistrationsStep(m: map<string, string>, names: seq<string>, paths: seq<string>, n: nat)
    requires |names| == |paths| && n < |paths|
    ensures Registrations(m, names, paths, n + 1) == Registrations(m, names, paths, n)[names[n] := paths[n]]
  {
  }

  /** After registration a marker is known exactly when it was known before
      or some file carries its name. */
  lemma {:induction false} RegisteredMarkers(m: map<string, string>, names: seq<string>, paths: seq<string>, n: nat, k: string)
    requires |names| == |paths| && n <= |paths|
    ensures k in Registrations(m, names, paths, n) <==> k in m || exists i :: 0 <= i < n && names[i] == k
  {
    if n > 0 {
      RegisteredMarkers(m, names, paths, n - 1, k);
    }
  }

  /** A marker that no file names keeps its old path. */
  lemma {:induction false} UnnamedMarkerKept(m: map<string, string>, names: seq<string>, paths: seq<string>, n: nat, k: string)
    requires |names| == |paths| && n <= |paths| && k in m
    requires forall i :: 0 <= i < n ==> names[i] != k
    ensures k in Registrations(m, names, paths, n) && Registrations(m, names, paths, n)[k] == m[k]
  {
    if n > 0 {
      UnnamedMarkerKept(m, names, paths, n - 1, k);
    }
  }

  /** The last file that carries a marker's name is the one registered. */
  lemma {:induction false} LastFileWins(m: map<string, string>, names: seq<string>, paths: seq<string>, n: nat, i: nat)
    requires |names| == |paths| && i < n <= |paths|
    requires forall j :: i < j < n ==> names[j] != names[i]
    ensures names[i] in Registrations(m, names, paths, n)
    ensures Registrations(m, names, paths, n)[names[i]] == paths[i]
  {
    if i < n - 1 {
      LastFileWins(m, names, paths, n - 1, i);
    }
  }

  /** Acquiring a directory whose index files are the ones building wrote
      for distinct, well-formed marker names registers every marker under
      its own file. */
  lemma {:induction false} BuiltIndexesRegistered(m: map<string, string>, dir: string, markers: seq<string>, k: nat)
    requires forall i :: 0 <= i < |markers| ==> SuffixFreeName(markers[i])
    requires forall i, j :: 0 <= i < j < |markers| ==> markers[i] != markers[j]
    requires k < |markers|
    ensures var files := seq(|markers|, i requires 0 <= i < |markers| => PathJoin(dir, markers[i] + IndexSuffix));
      markers[k] in Registrations(m, MarkerNames(files), files, |files|) &&
      Registrations(m, MarkerNames(files), files, |files|)[markers[k]] == files[k]
  {
    var files := seq(|markers|, i requires 0 <= i < |markers| => PathJoin(dir, markers[i] + IndexSuffix));
    var names := MarkerNames(files);
    forall i | 0 <= i < |markers|
      ensures names[i] == markers[i]
    {
      MarkerNameRoundTrip(dir, markers[i]);
    }
    LastFileWins(m, names, files, |files|, k);
  }

  /** A first character that cannot start `.nmslib_index` is kept. */
  lemma KeptHead(c: char, rest: string)
    requires c != '.'
    ensures RemoveAll([c] + rest, IndexSuffix) == [c] + RemoveAll(rest, IndexSuffix)
  {
    var t := [c] + rest;
    if |t| >= |IndexSuffix| {
      assert t[..|IndexSuffix|][0] == c;
      assert t[1..] == rest;
    } else {
      assert RemoveAll(rest, IndexSuffix) == rest;
    }
  }

  /** A marker whose own name ends in `.nmslib_index` is registered under a
      shorter name: the file building writes for "x.nmslib_index" is
      registered as "x". */
  lemma DoubledSuffixExample(dir: string)
    ensures MarkerName(PathJoin(dir, "x" + IndexSuffix + IndexSuffix)) == "x"
  {
    var b := "x" + IndexSuffix + IndexSuffix;
    assert '/' !in b;
    BasenameOfJoin(dir, b);
    assert b == ['x'] + (IndexSuffix + IndexSuffix);
    KeptHead('x', IndexSuffix + IndexSuffix);
    LeadingSuffixRemoved(IndexSuffix);
    LeadingSuffixRemoved("");
    assert IndexSuffix + "" == IndexSuffix;
  }

  /** What `loadIndex` is given: the file of the marker's index. */
  datatype LoadedIndex = LoadedIndex(path: string)

  /** The class-level dict `_marker_to_nucleotide_index_file`: one object
      that every database instance refers to. */
  class MarkerRegistry {
    var files: map<string, string>

    constructor ()
      ensures files == map[]
    {
      files := map[];
    }
  }

  class SequenceDatabase {
    /** Shared by all instances, as a class attribute is. */
    const registry: MarkerRegistry
    var baseDirectory: string
    var sqliteFile: string
    var contents: map<string, int>

    constructor (registry: MarkerRegistry)
      ensures this.registry == registry
      ensures baseDirectory == "" && sqliteFile == "" && contents == map[]
    {
      this.registry := registry;
      baseDirectory, sqliteFile, contents := "", "", map[];
    }

    /** `add_nucleotide_db`: the marker now maps to `dbPath`, in the
        registry every instance sees. */
    method AddNucleotideDb(markerName: string, dbPath: string)
      modifies registry
      ensures registry.files == old(registry.files)[markerName := dbPath]
    {
      registry.files := registry.files[markerName := dbPath];
    }

    /** The loop at the end of `acquire`: every index file is registered
        under its marker name, in the order the glob listed them. */
    method RegisterIndexFiles(indexFiles: seq<string>)
      modifies registry
      ensures registry.files == Registrations(old(registry.files), MarkerNames(indexFiles), indexFiles, |indexFiles|)
    {
      var n := 0;
      while n < |indexFiles|
        invariant 0 <= n <= |indexFiles|
        invariant registry.files == Registrations(old(registry.files), MarkerNames(indexFiles), indexFiles, n)
      {
        var g := indexFiles[n];
        var marker := MarkerName(g);
        RegistrationsStep(old(registry.files), MarkerNames(indexFiles), indexFiles, n);
        AddNucleotideDb(marker, g);
        n := n + 1;
      }
    }

    /** `get_nucleotide_index`: the index file registered for the marker is
        loaded (afresh on every call), or None when the marker is unknown. */
    method GetNucleotideIndex(markerName: string) returns (index: Option<LoadedIndex>)
      ensures index.Some? <==> markerName in registry.files
      ensures index.Some? ==> index.value.path == registry.files[markerName]
    {
      if markerName in registry.files {
        var indexPath := registry.files[markerName];
        index := Some(LoadedIndex(indexPath));
      } else {
        index := None;
      }
    }
  }

  /** `acquire`: the checks of `ContentsCheck`, then one registration per
      index file the glob found. A failing check leaves the registry as it
      was; a new database refers to the shared registry. */
  method Acquire(registry: MarkerRegistry, path: string, contentsFile: Option<map<string, int>>, indexFiles: seq<string>)
    returns (r: Result<SequenceDatabase, AcquireError>)
    modifies registry
    ensures r.Failure? <==> ContentsCheck(contentsFile, indexFiles).Fail?
    ensures r.Failure? ==> r.error == ContentsCheck(contentsFile, indexFiles).error
    ensures r.Failure? ==> registry.files == old(registry.files)
    ensures r.Success? ==>
      (fresh(r.value) && r.value.registry == registry &&
       r.value.baseDirectory == path && r.value.sqliteFile == PathJoin(path, SqliteDbName) &&
       r.value.contents == contentsFile.value &&
       registry.files == Registrations(old(registry.files), MarkerNames(indexFiles), indexFiles, |indexFiles|))
  {
    var db := new SequenceDatabase(registry);
    db.baseDirectory := path;
    if contentsFile.None? {
      return Failure(MissingContentsFile);
    }
    db.contents := contentsFile.value;
    if VersionKey !in db.contents {
      return Failure(MissingVersionKey);
    }
    var foundVersion := db.contents[VersionKey];
    if foundVersion == 4 {
      var missing := FindMissingKey(RequiredKeys[foundVersion], db.contents);
      match missing {
        case Some(key) => return Failure(MissingRequiredKey(key));
        case None =>
      }
    } else {
      return Failure(UnexpectedVersion(foundVersion));
    }
    db.sqliteFile := PathJoin(path, SqliteDbName);
    if |indexFiles| == 0 {
      return Failure(NoNucleotideIndexFiles);
    }
    db.RegisterIndexFiles(indexFiles);
    return Success(db);
  }

  // ----- _grouper -----

  /** `n` padding values. */
  function Nones<T>(n: nat): (r: seq<Option<T>>)
    ensures |r| == n && forall i :: 0 <= i < n ==> r[i] == None
  {
    seq(n, i => None)
  }

  function Somes<T>(xs: seq<T>): (r: seq<Option<T>>)
    ensures |r| == |xs| && forall i :: 0 <= i < |xs| ==> r[i] == Some(xs[i])
  {
    seq(|xs|, i requires 0 <= i < |xs| => Some(xs[i]))
  }

  /** `_grouper(iterable, n)`: `zip_longest` over `n` copies of one
      iterator, so consecutive `n`-tuples with the last one padded by None.
      With `n <= 0` there is nothing to zip and nothing comes out. */
  function Grouper<T>(xs: seq<T>, n: int): seq<seq<Option<T>>>
    decreases |xs|
  {
    if n <= 0 || |xs| == 0 then []
    else if |xs| <= n then [Somes(xs) + Nones(n - |xs|)]
    else [Somes(xs[..n])] + Grouper(xs[n..], n)
  }

  /** The values that are not padding, in order. */
  function Present<T>(ys: seq<Option<T>>): seq<T>
  {
    if |ys| == 0 then []
    else (if ys[0].Some? then [ys[0].value] else []) + Present(ys[1..])
  }

  lemma {:induction false} PresentConcat<T>(a: seq<Option<T>>, b: seq<Option<T>>)
    ensures Present(a + b) == Present(a) + Present(b)
  {
    if |a| > 0 {
      var head: seq<T> := if a[0].Some? then [a[0].value] else [];
      assert (a + b)[0] == a[0];
      assert (a + b)[1..] == a[1..] + b;
      PresentConcat(a[1..], b);
      assert Present(a + b) == head + Present(a[1..] + b);
      assert Present(a) == head + Present(a[1..]);
    } else {
      assert a + b == b;
    }
  }

  lemma {:induction false} PresentSomes<T>(xs: seq<T>)
    ensures Present(Somes(xs)) == xs
  {
    if |xs| > 0 {
      assert Somes(xs)[1..] == Somes(xs[1..]);
      PresentSomes(xs[1..]);
    }
  }

  lemma {:induction false} PresentNones<T>(k: nat)
    ensures Present(Nones<T>(k)) == []
  {
    if k > 0 {
      assert Nones<T>(k)[1..] == Nones<T>(k - 1);
      PresentNones<T>(k - 1);
    }
  }

  /** For `n >= 1` every tuple has `n` entries and there are ceil(|xs| / n)
      of them. */
  lemma {:induction false} GrouperCount<T>(xs: seq<T>, n: int)
    requires n >= 1
    ensures |xs| <= n * |Grouper(xs, n)| < |xs| + n
    ensures forall k :: 0 <= k < |Grouper(xs, n)| ==> |Grouper(xs, n)[k]| == n
    decreases |xs|
  {
    if |xs| > n {
      var g, gr := Grouper(xs, n), Grouper(xs[n..], n);
      GrouperCount(xs[n..], n);
      assert g == [Somes(xs[..n])] + gr;
      assert n * |g| == n * |gr| + n;
      forall k | 0 <= k < |g| ensures |g[k]| == n {
        if k > 0 {
          assert g[k] == gr[k - 1];
        }
      }
    }
  }

  /** Only the last tuple holds padding. */
  lemma {:induction false} GrouperFullTuples<T>(xs: seq<T>, n: int, k: nat)
    requires n >= 1 && k + 1 < |Grouper(xs, n)|
    ensures forall t :: t in Grouper(xs, n)[k] ==> t.Some?
    decreases |xs|
  {
    var g, gr := Grouper(xs, n), Grouper(xs[n..], n);
    assert g == [Somes(xs[..n])] + gr;
    if k > 0 {
      GrouperFullTuples(xs[n..], n, k - 1);
      assert g[k] == gr[k - 1];
    }
  }

  /** Chaining the tuples gives `xs` followed by the padding, fewer than `n`
      Nones of it. */
  lemma {:induction false} GrouperFlatten<T>(xs: seq<T>, n: int)
    requires n >= 1
    ensures 0 <= n * |Grouper(xs, n)| - |xs| < n
    ensures Flatten(Grouper(xs, n)) == Somes(xs) + Nones(n * |Grouper(xs, n)| - |xs|)
    decreases |xs|
  {
    GrouperCount(xs, n);
    var g := Grouper(xs, n);
    if |xs| == 0 {
    } else if |xs| <= n {
      assert g == [Somes(xs) + Nones(n - |xs|)];
      assert Flatten(g) == g[0] + Flatten(g[1..]);
    } else {
      var rest := xs[n..];
      GrouperFlatten(rest, n);
      var gr := Grouper(rest, n);
      assert g == [Somes(xs[..n])] + gr;
      assert g[1..] == gr;
      var pad := n * |gr| - |rest|;
      assert n * |g| - |xs| == pad by {
        assert n * |g| == n * |gr| + n;
      }
      assert Flatten(g) == Somes(xs[..n]) + Flatten(gr);
      SomesSplit(xs, n);
      assert Flatten(g) == Somes(xs[..n]) + (Somes(rest) + Nones(pad));
      assert Somes(xs[..n]) + (Somes(rest) + Nones(pad)) == (Somes(xs[..n]) + Somes(rest)) + Nones(pad);
    }
  }

  lemma SomesSplit<T>(xs: seq<T>, n: nat)
    requires n <= |xs|
    ensures Somes(xs[..n]) + Somes(xs[n..]) == Somes(xs)
  {
    var a, b := Somes(xs[..n]), Somes(xs[n..]);
    forall i | 0 <= i < |xs|
      ensures (a + b)[i] == Somes(xs)[i]
    {
      if i < n {
        assert (a + b)[i] == a[i];
      } else {
        assert (a + b)[i] == b[i - n];
      }
    }
    assert a + b == Somes(xs);
  }

  /** Dropping the padding gives back the input. */
  lemma GrouperPresent<T>(xs: seq<T>, n: int)
    requires n >= 1
    ensures Present(Flatten(Grouper(xs, n))) == xs
  {
    GrouperFlatten(xs, n);
    var pad := n * |Grouper(xs, n)| - |xs|;
    PresentConcat(Somes(xs), Nones<T>(pad));
    PresentSomes(xs);
    PresentNones<T>(pad);
  }

  /** With no positive width nothing comes out. */
  lemma GrouperNonPositive<T>(xs: seq<T>, n: int)
    requires n <= 0
    ensures Grouper(xs, n) == []
  {
  }
}
