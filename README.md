# singlem sequence database and OTU table entry, in Dafny

This project models two parts of singlem.

The first part is the `SequenceDatabase` of `singlem/sequence_database.py`. It covers:

- building a SingleM database from an OTU table (`create_from_otu_table`): the two numbering scans over the sorted OTU observations, the proteins table, and the points fed to the nmslib and annoy indices;
- opening a database (`acquire`), and the marker to index-file registry it fills (`add_nucleotide_db`, `get_nucleotide_index`);
- the `_grouper` helper;
- the sequence encoders and the codon translator.

The second part is `OtuTableEntry` of `singlem/otu_table_entry.py`: its tab-separated text form, its list form and the taxonomy-prefix test.

Modules:

- `Wrappers`: `Option`, `Result` and `Outcome`.
- `Text`: Python's `str.join` and `str.split` on one character, `str` of an integer, `os.path.basename`, `os.path.join` and `str.replace(pat, '')`.
- `Encoding`: `_base_to_binary`, `nucleotides_to_binary`, `_base_to_binary_array`, `nucleotides_to_binary_array`, `_aa_to_binary` and `protein_to_binary`.
- `Translation`: `nucleotides_to_protein`.
  - Its table is the Standard Code (NCBI translation table 1) as Biopython's `standard_dna_table.forward_table` gives it: 61 sense codons, with the stop codons TAA, TAG and TGA not among the keys.
- `Runs`: generic facts about a sequence of keys whose equal keys are contiguous. The GNU sort run before the scans (singlem/sequence_database.py:171) supplies this under bytewise collation (the C locale); it runs in the caller's locale, and under other collations the model does not claim rows of one marker end up together.
- `Numbering`: the first scan (otus rows and marker/sequence rows), the second scan (markers and nucleotides tables, `marker_wise_id`) and the protein rows.
- `IndexFeeding`: the (key, vector) points each nmslib nucleotide, nmslib protein and annoy index receives, plus `ndim` and `ntrees`.
- `Loader`: the contents checks of `acquire`, marker names from index file names, the registry, and `_grouper`.
- `Creation`: `create_from_otu_table` from the sorted rows to the re-opened database and its annoy indices.
- `OtuTable`: `OtuTableEntry.__str__`, `to_list` and `within_taxonomy`. The function `TaxonomyUtils.split_taxonomy` is a parameter.

The registry `_marker_to_nucleotide_index_file` is a class-level dict. Every `SequenceDatabase` instance shares it, and `add_nucleotide_db` mutates it. The model therefore has one `MarkerRegistry` object. Every `SequenceDatabase` refers to that object, and the methods that register files modify it.

The model follows the code in these places, where the code is easy to misread:

- An amino-acid residue outside the 22 listed symbols gives a block of 22 `0` tokens. It is not an error.
- A trailing remainder of one or two bases is not dropped. It is looked up, misses the table and gives `X`.
- `marker_wise_id` is 1 plus the number of the marker's input rows before the sequence's first row. The counter is incremented on every row, so the ids of a marker increase strictly but skip values when a sequence repeats.
- The protein rows are written as `(i, nucleotide_id, marker_id, protein)` with a 0-based `i`. They are imported into columns declared `(id, marker_id, nucleotide_id, sequence)`, so the middle two fields are swapped.
  - The protein-index query filters on the `marker_id` column, which holds nucleotide ids.
  - So the protein index of markers row `m` holds one point: the translation of nucleotides row `m`, under key `m - 1`.
- `ndim` is five times the length of the first nucleotides row of the whole table, for every marker.
- `ntrees` is computed from the first marker's count only, and then reused for every later marker.

## Model

| member | source | states |
|---|---|---|
| Encoding.BaseBlockOneHot | singlem/sequence_database.py:427-437 | `_base_to_binary_array(x)` has five entries with a single 1, at A 0, T 1, C 2, G 3 and any other character 4 |
| Encoding.BaseVariantsAgree | singlem/sequence_database.py:410-437 | `_base_to_binary(x)` is the digits of `_base_to_binary_array(x)` separated by single spaces |
| Encoding.NucleotideArrayOneHot | singlem/sequence_database.py:440-441 | `nucleotides_to_binary_array(s)` has 5·\|s\| entries, and entry 5i+k is 1 exactly when k is the slot of base i |
| Encoding.NucleotideVariantsAgree | singlem/sequence_database.py:423-441 | `nucleotides_to_binary(s)` lists the same digits as `nucleotides_to_binary_array(s)`, separated by single spaces |
| Encoding.AminoAcidsDistinct | singlem/sequence_database.py:446-467 | the residue list has 22 pairwise distinct symbols |
| Encoding.AaBlockOneHot | singlem/sequence_database.py:444-468 | a listed residue gives 22 tokens with a single `1` at its listed position; any other residue gives 22 `0` tokens |
| Encoding.ProteinEncoding | singlem/sequence_database.py:471-472 | `protein_to_binary(s)` is 22·\|s\| space-separated tokens, and token 22i+k is `1` exactly when residue i is the k-th listed symbol |
| Encoding.BaseToBinary | singlem/sequence_database.py:410-420 | `_base_to_binary`; its meaning is stated by Encoding.BaseVariantsAgree with Encoding.BaseBlockOneHot |
| Encoding.NucleotidesToBinary | singlem/sequence_database.py:423-424 | `nucleotides_to_binary`; its meaning is stated by Encoding.NucleotideVariantsAgree |
| Encoding.BaseToBinaryArray | singlem/sequence_database.py:427-437 | `_base_to_binary_array`; its meaning is stated by Encoding.BaseBlockOneHot |
| Encoding.NucleotidesToBinaryArray | singlem/sequence_database.py:440-441 | `nucleotides_to_binary_array`; its meaning is stated by Encoding.NucleotideArrayOneHot |
| Encoding.AaToBinary | singlem/sequence_database.py:444-468 | `_aa_to_binary`; its meaning is stated by Encoding.AaBlockOneHot and Encoding.ProteinEncoding |
| Encoding.ProteinToBinary | singlem/sequence_database.py:471-472 | `protein_to_binary`; its meaning is stated by Encoding.ProteinEncoding |
| Translation.TranslateCodon | singlem/sequence_database.py:479-485 | the translation of one window; Translation.TranslateCodonLooksUp and Translation.StopCodonsAreTheNonKeys state what it gives |
| Translation.NucleotidesToProtein | singlem/sequence_database.py:475-486 | the loop over codon windows builds exactly the translation `Translated(s)` |
| Translation.LookUpCodon | singlem/sequence_database.py:479-485 | the branch on `---`, then table membership, then `X`, gives the codon's translation |
| Translation.Translated | singlem/sequence_database.py:475-486 | the protein has ⌈\|s\|/3⌉ residues |
| Translation.CodonTableKeys | singlem/sequence_database.py:477 | a codon is a key of the table exactly when it is a sense codon of the Standard Code, and its value is that code's amino acid, never a stop |
| Translation.StopCodonsAreTheNonKeys | singlem/sequence_database.py:477 | the only triplets over T, C, A, G missing from the table are TAA, TAG and TGA |
| Translation.TranslateCodonLooksUp | singlem/sequence_database.py:480-485 | the codon's translation is `-` for `---`, the table value for a key, and `X` otherwise |
| Translation.TrailingRemainderGivesX | singlem/sequence_database.py:478-485 | a trailing one- or two-base remainder adds one final `X` |
| Translation.TranslatedConcat | singlem/sequence_database.py:478-486 | when the first part is a whole number of codons, translating a concatenation translates each part |
| Translation.StopCodonGivesX | singlem/sequence_database.py:482-485 | each stop codon translates to `X` |
| Translation.StartCodonExample | singlem/sequence_database.py:482-483 | `ATG` translates to `M` |
| Translation.GapAndAmbiguityExamples | singlem/sequence_database.py:480-485 | `---` gives `-` and `NNN` gives `X` |
| Translation.TrailingBaseExample | singlem/sequence_database.py:478-485 | `ATGA` gives `MX` |
| Runs.RunNumberMonotone | singlem/sequence_database.py:199-207 | a run counter never decreases, and two rows share a number exactly when no run starts between them |
| Runs.RunNumberIdentifies | singlem/sequence_database.py:199-207 | over contiguous keys, two rows share a run number exactly when their keys are equal |
| Runs.RunNumberCountsDistinct | singlem/sequence_database.py:199-207 | over contiguous keys, the run number of row j is the number of distinct keys among rows 0..j |
| Runs.RunOffsetCountsEarlier | singlem/sequence_database.py:229-239 | over contiguous keys, a row's offset in its run is the number of earlier rows with its key |
| Runs.AtRunStartsLength | singlem/sequence_database.py:229-238 | keeping one row per run keeps as many rows as there are runs |
| Runs.AtRunStartsAt | singlem/sequence_database.py:229-238 | the kept row for run r is the value at that run's first row |
| Numbering.NumberedOtus | singlem/sequence_database.py:199-208 | the otus rows of the first scan, one per input row; Numbering.FirstScan computes it and Numbering.FirstScanCounters states its counters |
| Numbering.NumberedPairs | singlem/sequence_database.py:199-209 | the marker/sequence rows of the first scan, one per input row |
| Numbering.MarkerTable | singlem/sequence_database.py:229-234 | the markers rows the second scan writes; Numbering.MarkersOfNumbered and Numbering.MarkersOfDistinct state them |
| Numbering.NucleotideTable | singlem/sequence_database.py:229-239 | the nucleotides rows the second scan writes; Numbering.NucleotidesOfNumbered, Numbering.NucleotidesOfDistinct and Numbering.MarkerWiseIdOf state them |
| Numbering.ProteinTable | singlem/sequence_database.py:284-285 | one protein row per nucleotides row; the swap's effect is stated by IndexFeeding.ProteinIndexHoldsNucleotideM |
| Numbering.FirstScan | singlem/sequence_database.py:189-209 | the scan writes, for every input row i, the otus row (i+1, sample, count, coverage, taxonomy, marker_index, sequence_index) and the marker/sequence row (marker_index, sequence_index, marker, sequence) |
| Numbering.FirstScanCounters | singlem/sequence_database.py:199-207 | on the first row both counters are 1; `marker_index` rises by exactly 1 when the marker differs from the previous row; `sequence_index` rises by exactly 1 when the marker or the sequence differs; otherwise neither changes |
| Numbering.FirstScanIdentifies | singlem/sequence_database.py:199-207 | over contiguous input, two rows share `marker_index` exactly when they share a marker, and `sequence_index` exactly when they share marker and sequence |
| Numbering.FirstScanCountsDistinct | singlem/sequence_database.py:199-207 | over contiguous input, the counters of row i count the distinct markers and the distinct (marker, sequence) pairs among rows 0..i |
| Numbering.SecondScan | singlem/sequence_database.py:222-239 | the scan writes one markers row at each change of marker id and one nucleotides row at each change of sequence id, with `marker_wise_id` the within-marker row offset plus 1 |
| Numbering.ProteinRows | singlem/sequence_database.py:279-285 | row i of the proteins table is (i, nucleotide id, marker id, translation), read under the declared columns (id, marker_id, nucleotide_id, sequence) |
| Numbering.MarkersOfNumbered | singlem/sequence_database.py:229-234 | over contiguous input the markers table has one row per distinct marker, with ids 1, 2, ... in order |
| Numbering.MarkersOfDistinct | singlem/sequence_database.py:229-234 | over contiguous input no two markers rows name the same marker |
| Numbering.MarkersOfReferenced | singlem/sequence_database.py:199-232 | the `marker_index` given to any input row names a markers row whose id is that index and whose marker is that row's marker |
| Numbering.NucleotidesOfNumbered | singlem/sequence_database.py:229-238 | over contiguous input the nucleotides table has one row per distinct (marker, sequence), with ids 1, 2, ... in order |
| Numbering.NucleotidesOfDistinct | singlem/sequence_database.py:229-238 | over contiguous input no two nucleotides rows hold the same (marker id, sequence) |
| Numbering.NucleotidesOfReferenced | singlem/sequence_database.py:199-238 | the `sequence_index` given to any input row names a nucleotides row whose id is that index, with that row's marker id and sequence |
| Numbering.MarkerWiseIdOf | singlem/sequence_database.py:229-239 | the `marker_wise_id` of a nucleotides row is 1 plus the number of the marker's input rows before the sequence's first row, and it is 1 exactly for a marker's first sequence |
| Numbering.MarkerWiseIdIncreasing | singlem/sequence_database.py:229-239 | within a marker, `marker_wise_id` increases strictly in table order |
| Numbering.MarkerWiseIdSkipExample | singlem/sequence_database.py:236-239 | a marker whose first sequence occurs on two rows gets the ids 1 and 3 |
| IndexFeeding.PointsOf | singlem/sequence_database.py:313-315 | the points of one marker, at most one per row; IndexFeeding.PointsOfMembers and IndexFeeding.PointsOfOrigins state them |
| IndexFeeding.NucleotidePoints | singlem/sequence_database.py:313-315 | the nmslib nucleotide points of a marker: global id and string encoding |
| IndexFeeding.AnnoyItems | singlem/sequence_database.py:372-374 | the annoy items of a marker: marker-wise id and list encoding |
| IndexFeeding.ProteinGroups | singlem/sequence_database.py:338 | the group-by-sequence query with the least id; IndexFeeding.ProteinGroupsMeaning states it |
| IndexFeeding.ProteinPoints | singlem/sequence_database.py:338-340 | the protein points of a marker: each group's least id and protein encoding |
| IndexFeeding.TreesFor | singlem/sequence_database.py:378-381 | the tree count of every annoy index: the argument, or the default from the first marker's count |
| IndexFeeding.PointsOfMembers | singlem/sequence_database.py:313-315 | a point is fed exactly when it comes from a nucleotides row of the marker, keyed and encoded as the index demands |
| IndexFeeding.PointsOfOrigins | singlem/sequence_database.py:313-315 | the points are fed in table order |
| IndexFeeding.FeedMarker | singlem/sequence_database.py:311-316 | the query loop hands the marker's rows to the index in table order, and `count` is the number of points |
| IndexFeeding.BuildNucleotideIndexes | singlem/sequence_database.py:301-325 | one nmslib file per markers row, at `nucleotide_indices/<marker>.nmslib_index`, holding the marker's nucleotides keyed by global id with the string encoding |
| IndexFeeding.ProteinGroupsMeaning | singlem/sequence_database.py:338 | a sequence is grouped exactly when some proteins row with that marker_id column holds it, and its key is the least id among those rows |
| IndexFeeding.FeedProteinGroups | singlem/sequence_database.py:336-341 | the points fed are one per grouped sequence, its least id with the protein encoding, and `count` is the number of groups |
| IndexFeeding.BuildProteinIndexes | singlem/sequence_database.py:328-350 | one nmslib file per markers row, at `protein_indices/<marker>.nmslib_index`, holding that marker's protein groups |
| IndexFeeding.ProteinIndexHoldsNucleotideM | singlem/sequence_database.py:285-293 | because of the swapped columns, markers row m's protein query groups only the translation of nucleotides row m (under id m-1), or nothing when m is beyond the table |
| IndexFeeding.ProteinPointsOfNumbered | singlem/sequence_database.py:285-340 | markers row m's protein index holds the single point (m-1, encoded translation of nucleotides row m) |
| IndexFeeding.BuiltProteinIndex | singlem/sequence_database.py:279-340 | the same, over the nucleotides table built from contiguous input |
| IndexFeeding.TreeCount | singlem/sequence_database.py:378-381 | the default tree count is max(1, ⌊count/10⌋): 1 below 10 points, ⌊count/10⌋ from 10 on |
| IndexFeeding.CreateAnnoyNucleotideIndexes | singlem/sequence_database.py:356-387 | fails exactly on an empty nucleotides table; otherwise one annoy file per markers row, with `ndim` from the first nucleotides row, one tree count for all markers taken from the first marker, and the marker's rows keyed by marker-wise id with the list encoding |
| IndexFeeding.AnnoyItemsFitDimension | singlem/sequence_database.py:357-374 | when all sequences have the first row's length, every annoy vector has `ndim` entries |
| IndexFeeding.NucleotideKeysIncreasing | singlem/sequence_database.py:313-315 | over contiguous input the nmslib nucleotide keys of a marker increase strictly |
| IndexFeeding.AnnoyKeysIncreasing | singlem/sequence_database.py:372-374 | over contiguous input the annoy keys of a marker increase strictly |
| Loader.ContentsCheck | singlem/sequence_database.py:96-123 | the checks of `acquire` in order; Loader.ContentsCheckAccepts states when they pass |
| Loader.MarkerName | singlem/sequence_database.py:125 | `os.path.basename(g).replace('.nmslib_index', '')`; Loader.MarkerNameRoundTrip and Loader.DoubledSuffixExample state it |
| Loader.Registrations | singlem/sequence_database.py:124-126 | the registry after the registration loop; Loader.RegisteredMarkers, Loader.UnnamedMarkerKept and Loader.LastFileWins state it |
| Loader.Grouper | singlem/sequence_database.py:129-132 | `_grouper`; Loader.GrouperCount, Loader.GrouperFlatten and Loader.GrouperPresent state it |
| Loader.FirstMissing | singlem/sequence_database.py:111-115 | None exactly when every required key is present; otherwise a required key that is absent |
| Loader.FindMissingKey | singlem/sequence_database.py:111-115 | the loop over the required keys finds the first missing one |
| Loader.ContentsCheckAccepts | singlem/sequence_database.py:96-123 | the checks pass exactly for a contents file with version key 4 and at least one index file; the required-key check never fails |
| Loader.MarkerNameRoundTrip | singlem/sequence_database.py:123-125 | the marker name of the file written for a marker without `/` or `.nmslib_index` in its name (empty and `.`-led names included) is that marker |
| Loader.DoubledSuffixExample | singlem/sequence_database.py:125 | `replace` removes every occurrence: `x.nmslib_index.nmslib_index` is registered as `x` |
| Loader.RegisteredMarkers | singlem/sequence_database.py:124-126 | after the loop, the registered markers are the earlier ones plus the names of the files |
| Loader.UnnamedMarkerKept | singlem/sequence_database.py:124-126 | a marker no file names keeps its earlier file |
| Loader.LastFileWins | singlem/sequence_database.py:124-126 | a marker named by several files is registered under the last of them |
| Loader.GlobListing | singlem/sequence_database.py:121 | the files the glob lists, in the order given, no more than were given; Loader.GlobListingMembers states which |
| Loader.GlobListingMembers | singlem/sequence_database.py:121 | the listing holds exactly the given files that lie directly in the directory and whose names end in `.nmslib_index` and do not start with `.` |
| Loader.GlobListingAll | singlem/sequence_database.py:121 | when every file matches, the glob lists them all |
| Loader.WrittenFileListed | singlem/sequence_database.py:121-123 | the file written for a marker without `/` is listed exactly when the marker name is not empty and does not start with `.` |
| Loader.BuiltIndexesRegistered | singlem/sequence_database.py:121-126 | the files written for distinct markers without `/` or `.nmslib_index` in their names register every marker under its own file |
| Loader.SequenceDatabase.AddNucleotideDb | singlem/sequence_database.py:39-40 | the shared registry maps the marker to the path, and nothing else changes |
| Loader.SequenceDatabase.RegisterIndexFiles | singlem/sequence_database.py:124-126 | the shared registry is the old one with each file registered under its marker name, in listing order |
| Loader.SequenceDatabase.GetNucleotideIndex | singlem/sequence_database.py:42-51 | a marker's index is loaded from its registered path exactly when it is registered, and is None otherwise |
| Loader.Acquire | singlem/sequence_database.py:91-127 | fails, leaving the registry unchanged, exactly when a check fails, with that check's error; otherwise it gives a new database at the path, with the sqlite path and the contents, and every index file registered |
| Loader.GrouperCount | singlem/sequence_database.py:129-132 | for n ≥ 1, every tuple has n entries, and there are ⌈\|xs\|/n⌉ of them, the fewest that cover the input |
| Loader.GrouperFullTuples | singlem/sequence_database.py:129-132 | for n ≥ 1, every tuple but the last holds no padding |
| Loader.GrouperFlatten | singlem/sequence_database.py:129-132 | the tuples, run together, are the input followed by fewer than n `None`s |
| Loader.GrouperPresent | singlem/sequence_database.py:129-132 | dropping the padding gives back the input |
| Loader.GrouperNonPositive | singlem/sequence_database.py:129-132 | for n ≤ 0 there are no tuples |
| Creation.BuildTables | singlem/sequence_database.py:188-285 | the otus, markers, nucleotides and proteins tables of the input, non-empty exactly when the input is |
| Creation.AcquireNew | singlem/sequence_database.py:152-157 | the new database's contents pass the checks, so re-opening it fails exactly when its glob lists no index file |
| Creation.AllIndexesRegistered | singlem/sequence_database.py:301-352 | over contiguous input with indexable marker names (no `/`, not empty, not starting with `.`, no `.nmslib_index` inside), the glob lists every written nucleotide file and re-opening registers every marker under its own file |
| Creation.MarkerFileListed | singlem/sequence_database.py:121-123 | the file written for a marker without `/` is listed by the glob exactly when the marker name is not empty and does not start with `.` |
| Creation.HiddenMarkersListNothing | singlem/sequence_database.py:121-123 | when every marker name is empty or starts with `.`, the glob lists nothing, so `acquire` raises at line 123 |
| Creation.IndexableListed | singlem/sequence_database.py:121-123 | the glob lists every file written for indexable marker names |
| Creation.CreateFromSortedRows | singlem/sequence_database.py:135-352 | fails exactly when `acquire`'s glob lists none of the written nucleotide files, in particular on empty input; otherwise gives all tables, the nucleotide, protein and annoy indices as above (each at `<db>/<kind>/<marker><suffix>`), and a registry holding the listed nucleotide files |
| OtuTable.ToString | singlem/otu_table_entry.py:27-29 | `__str__`; OtuTable.ToStringJoinsList and OtuTable.SplitRecoversFields state it |
| OtuTable.ToList | singlem/otu_table_entry.py:31-33 | `to_list`; OtuTable.ToStringJoinsList states it |
| OtuTable.WithinTaxonomy | singlem/otu_table_entry.py:16-25 | `within_taxonomy`; OtuTable.WithinTaxonomyIsPrefix states it |
| OtuTable.ToStringJoinsList | singlem/otu_table_entry.py:27-33 | `to_list` has six values in the order marker, sample name, sequence, count, coverage, taxonomy, and `__str__` is their tab-join with `str` applied |
| OtuTable.NoTabInInteger | singlem/otu_table_entry.py:29 | `str` of an integer holds no tab |
| OtuTable.SplitRecoversFields | singlem/otu_table_entry.py:27-29 | when no field holds a tab, splitting `__str__` on tabs gives back the six rendered fields |
| OtuTable.WithinTaxonomyIsPrefix | singlem/otu_table_entry.py:16-25 | `within_taxonomy(t)` holds exactly when t is a prefix of the taxonomy's levels |
| OtuTable.WithinTaxonomyEdges | singlem/otu_table_entry.py:25 | every entry lies within the empty target, and none lies within a target longer than its levels |
| OtuTable.WithinTaxonomyCoarser | singlem/otu_table_entry.py:25 | lying within a target implies lying within every prefix of it |
| Text.SplitJoin | singlem/otu_table_entry.py:28-29 | splitting a join of separator-free parts on the separator gives back the parts |
| Text.RemoveAllTrailing | singlem/sequence_database.py:125 | removing every occurrence of the suffix from a name that does not hold parts of it, followed by the suffix, gives back the name |

## Left out

- The GNU sort subprocess and its locale are not modelled. The scans take its output as a sequence of rows, and where a property needs sortedness it requires that equal markers and equal (marker, sequence) pairs are contiguous.
- The sqlite3 imports are not modelled, and neither are `CREATE INDEX`, the filesystem, `os.makedirs`, temporary files or the overwrite check. The tables are the row sequences the scans write.
- The model compares ids as numbers. The second scan compares the ids it reads back from text, as strings; the two agree because each id has one decimal rendering.
- `json.load` is not modelled. The contents file is a parsed `Option<map<string, int>>` (None when the file is absent). So a version written as the float 4.0, which Python compares equal to 4, is not modelled.
- The glob is modelled only as a filter over the files written: a file is listed when it lies directly in `nucleotide_indices`, and its name ends in `.nmslib_index` and does not start with `.` (Loader.GlobListing). Files already present in the directory are not modelled. Listed paths keep the order and the spelling `os.path.join` gives them; the real glob's order is arbitrary, and it spells paths from its pattern, which differs when the database path ends in `/`. The database path is taken literally: glob's wildcards `*`, `?` and `[` in it are not interpreted.
- Creation.CreateFromSortedRows: its failure condition leaves out three ways the source can behave otherwise. Annoy raises when a marker's sequences differ in length from the first nucleotides row (annoy's vector-length check is not modelled). Writing an index file can fail when a marker name holds `/`, since no directory is made for it. A database path holding glob wildcards changes what `acquire` lists: `db[1]` matches no written file, so the source raises where the model succeeds, and `db*` can also list another database's files.
- The queries over the `markers` and `nucleotides` tables (singlem/sequence_database.py:305, 312, 330, 357, 365 and 371) ask for no order. They are modelled as returning rows in id order, the order the scans wrote them. So the order of the points fed to each index, the first nucleotides row that sets `ndim`, and the first marker, whose count sets the default annoy `ntrees`, all rest on that row order.
- The internals of nmslib and annoy are not modelled: index construction, tree building, saving, loading and annoy's own vector-length check. Each index is the list of points handed to it (for the protein index, the set of them, since the query's row order is not fixed).
- The `count` variable of the nmslib loops only feeds log messages. It is modelled as the number of points.
- The `pregenerated_sqlite3_db` branch of `create_from_otu_table` is not modelled.
- `dump`, the query builder, logging and `numba` are not modelled.
- Floats are not modelled. Coverage is the text `str` gives for it. `int(count / 10)` is modelled as integer division, which agrees for non-negative counts.
- The csv reader and writer are not modelled. Fields are taken as tab-free text.
- Translation.Translated: only upper-case T, C, A, G codons are in the table. This matches Biopython's `standard_dna_table.forward_table` keys; other Biopython tables are not modelled.
- Loader.SequenceDatabase.GetNucleotideIndex: loading is represented by the path the index is read from. It reloads on every call, and nothing is memoised.
- `TaxonomyUtils.split_taxonomy` is a function parameter of `WithinTaxonomy`; its own behaviour is not part of this model.
- singlem/trim_package_hmms.py is not part of this model: it only runs external aligners and builders.
