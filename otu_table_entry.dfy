/** One row of an OTU table (`OtuTableEntry`): its tab-separated text form,
    its list form and the taxonomy-prefix test. How a taxonomy string is
    split into levels (`TaxonomyUtils.split_taxonomy`) is a parameter. */
module OtuTable {
  import opened Text

  /** A numeric field: an integer, or a float given by the text Python's
      `str` writes for it. */
  datatype Number = Int(i: int) | Float(text: string)

  /** A value of `to_list`. */
  datatype Field = Str(s: string) | Num(n: Number)

  datatype OtuTableEntry = OtuTableEntry(
    marker: string,
    sampleName: string,
    sequence: string,
    count: int,
    coverage: Number,
    taxonomy: string)

  /** Python's `str` of a number. */
  function NumberText(n: Number): string
  {
    match n
    case Int(i) => IntToString(i)
    case Float(t) => t
  }

  /** `str` of a field of `to_list`. */
  function Render(f: Field): string
  {
    match f
    case Str(s) => s
    case Num(n) => NumberText(n)
  }

  function RenderAll(fs: seq<Field>): (r: seq<string>)
    ensures |r| == |fs|
  {
    seq(|fs|, i requires 0 <= i < |fs| => Render(fs[i]))
  }

  /** `__str__`. */
  function ToString(e: OtuTableEntry): string
  {
    Join("\t", [e.marker, e.sampleName, e.sequence, IntToString(e.count), NumberText(e.coverage), e.taxonomy])
  }

  /** `to_list`: the raw values, count and coverage not converted to text. */
  function ToList(e: OtuTableEntry): seq<Field>
  {
    [Str(e.marker), Str(e.sampleName), Str(e.sequence), Num(Int(e.count)), Num(e.coverage), Str(e.taxonomy)]
  }

  /** `__str__` is the tab-join of `to_list` with `str` applied to every
      value: six fields in the order marker, sample name, sequence, count,
      coverage, taxonomy. */
  lemma ToStringJoinsList(e: OtuTableEntry)
    ensures |ToList(e)| == 6
    ensures ToString(e) == Join("\t", RenderAll(ToList(e)))
    ensures ToList(e)[0] == Str(e.marker) && ToList(e)[1] == Str(e.sampleName) && ToList(e)[2] == Str(e.sequence)
    ensures ToList(e)[3] == Num(Int(e.count)) && ToList(e)[4] == Num(e.coverage) && ToList(e)[5] == Str(e.taxonomy)
  {
    var r := RenderAll(ToList(e));
    assert r == [e.marker, e.sampleName, e.sequence, IntToString(e.count), NumberText(e.coverage), e.taxonomy];
  }

  /** A rendered integer never holds a tab. */
  lemma NoTabInInteger(i: int)
    ensures '\t' !in IntToString(i)
  {
    var s := IntToString(i);
    assert forall k :: 0 <= k < |s| ==> s[k] != '\t';
  }

  /** When no field holds a tab, splitting `__str__` on tabs gives back the
      six rendered fields. */
  lemma SplitRecoversFields(e: OtuTableEntry)
    requires '\t' !in e.marker && '\t' !in e.sampleName && '\t' !in e.sequence && '\t' !in e.taxonomy
    requires '\t' !in NumberText(e.coverage)
    ensures Split(ToString(e), '\t') == RenderAll(ToList(e))
    ensures |Split(ToString(e), '\t')| == 6
  {
    ToStringJoinsList(e);
    NoTabInInteger(e.count);
    var r := RenderAll(ToList(e));
    assert r == [e.marker, e.sampleName, e.sequence, IntToString(e.count), NumberText(e.coverage), e.taxonomy];
    assert "\t" == ['\t'];
    SplitJoin(r, '\t');
  }

  /** `within_taxonomy`: the taxonomy's levels, cut to the length of the
      target (a Python slice stops at the end), equal the target. */
  function WithinTaxonomy(e: OtuTableEntry, splitTaxonomy: string -> seq<string>, target: seq<string>): bool
  {
    var levels := splitTaxonomy(e.taxonomy);
    (if |target| <= |levels| then levels[..|target|] else levels) == target
  }

  /** The entry lies within a target exactly when the target is a prefix of
      its taxonomy's levels. */
  lemma WithinTaxonomyIsPrefix(e: OtuTableEntry, splitTaxonomy: string -> seq<string>, target: seq<string>)
    ensures WithinTaxonomy(e, splitTaxonomy, target) <==> target <= splitTaxonomy(e.taxonomy)
  {
    var levels := splitTaxonomy(e.taxonomy);
    if |target| > |levels| {
      assert |levels| != |target|;
    }
  }

  /** Every entry lies within the empty target; none lies within a target
      with more levels than its taxonomy. */
  lemma WithinTaxonomyEdges(e: OtuTableEntry, splitTaxonomy: string -> seq<string>, target: seq<string>)
    ensures WithinTaxonomy(e, splitTaxonomy, [])
    ensures |target| > |splitTaxonomy(e.taxonomy)| ==> !WithinTaxonomy(e, splitTaxonomy, target)
  {
    WithinTaxonomyIsPrefix(e, splitTaxonomy, []);
    WithinTaxonomyIsPrefix(e, splitTaxonomy, target);
  }

  /** Lying within a target implies lying within every coarser target. */
  lemma WithinTaxonomyCoarser(e: OtuTableEntry, splitTaxonomy: string -> seq<string>, target: seq<string>, coarser: seq<string>)
    requires WithinTaxonomy(e, splitTaxonomy, target) && coarser <= target
    ensures WithinTaxonomy(e, splitTaxonomy, coarser)
  {
    WithinTaxonomyIsPrefix(e, splitTaxonomy, target);
    WithinTaxonomyIsPrefix(e, splitTaxonomy, coarser);
  }
}
