/** The string and list operations of Python that the rest of the model
    relies on: `str.join`, `str.split`, `itertools.chain`, `str(int)`,
    `str.replace(pat, '')`, `os.path.basename` and `os.path.join`. */
module Text {

  /** Python's `sep.join(parts)`. */
  function Join(sep: string, parts: seq<string>): string
  {
    if |parts| == 0 then ""
    else if |parts| == 1 then parts[0]
    else parts[0] + sep + Join(sep, parts[1..])
  }

  /** Five parts joined. */
  lemma JoinFive(sep: string, a: string, b: string, c: string, d: string, e: string)
    ensures Join(sep, [a, b, c, d, e]) == a + sep + b + sep + c + sep + d + sep + e
  {
    assert [a, b, c, d, e][1..] == [b, c, d, e];
    assert [b, c, d, e][1..] == [c, d, e];
    assert [c, d, e][1..] == [d, e];
    assert [d, e][1..] == [e];
    assert Join(sep, [d, e]) == d + sep + e;
    assert Join(sep, [c, d, e]) == c + sep + (d + sep + e);
    assert Join(sep, [b, c, d, e]) == b + sep + (c + sep + (d + sep + e));
  }

  /** Joining two non-empty lists of parts is joining their joins. */
  lemma {:induction false} JoinConcat(sep: string, a: seq<string>, b: seq<string>)
    requires |a| > 0 && |b| > 0
    ensures Join(sep, a + b) == Join(sep, a) + sep + Join(sep, b)
    decreases |a|
  {
    if |a| == 1 {
      assert (a + b)[1..] == b;
    } else {
      assert (a + b)[1..] == a[1..] + b;
      JoinConcat(sep, a[1..], b);
    }
  }

  /** Appending the next element of `full` to a prefix of it gives the next
      prefix: the step of every loop below that builds a list by `append`. */
  lemma PrefixStep<T>(full: seq<T>, prefix: seq<T>, x: T)
    requires |prefix| < |full| && prefix == full[..|prefix|] && x == full[|prefix|]
    ensures prefix + [x] == full[..|prefix| + 1]
  {
  }

  /** Python's `list(itertools.chain(*blocks))`. */
  function Flatten<T>(blocks: seq<seq<T>>): seq<T>
  {
    if |blocks| == 0 then [] else blocks[0] + Flatten(blocks[1..])
  }

  /** Flattening blocks of one width `w` gives `w` elements per block. */
  lemma {:induction false} FlattenLength<T>(blocks: seq<seq<T>>, w: nat)
    requires forall i :: 0 <= i < |blocks| ==> |blocks[i]| == w
    ensures |Flatten(blocks)| == w * |blocks|
  {
    if |blocks| > 0 {
      FlattenLength(blocks[1..], w);
      assert w * |blocks| == w + w * (|blocks| - 1);
    }
  }

  /** Flattening blocks of one width `w` puts element `k` of block `i` at `w * i + k`. */
  lemma {:induction false} FlattenAt<T>(blocks: seq<seq<T>>, w: nat, i: nat, k: nat)
    requires forall j :: 0 <= j < |blocks| ==> |blocks[j]| == w
    requires i < |blocks| && k < w
    ensures w * i + k < |Flatten(blocks)|
    ensures Flatten(blocks)[w * i + k] == blocks[i][k]
  {
    FlattenLength(blocks, w);
    if i > 0 {
      FlattenAt(blocks[1..], w, i - 1, k);
      assert w * i + k == w + (w * (i - 1) + k);
    }
  }

  /** Each block joined on its own, in order. */
  function JoinEach(sep: string, blocks: seq<seq<string>>): (r: seq<string>)
    ensures |r| == |blocks|
  {
    seq(|blocks|, i requires 0 <= i < |blocks| => Join(sep, blocks[i]))
  }

  /** Joining the joins of non-empty blocks is joining all their parts at once. */
  lemma {:induction false} JoinOfJoins(sep: string, blocks: seq<seq<string>>)
    requires forall i :: 0 <= i < |blocks| ==> |blocks[i]| > 0
    ensures Join(sep, JoinEach(sep, blocks)) == Join(sep, Flatten(blocks))
  {
    if |blocks| == 1 {
      assert Flatten(blocks) == blocks[0] + Flatten(blocks[1..]);
      assert Flatten(blocks[1..]) == [];
      assert Flatten(blocks) == blocks[0];
    } else if |blocks| > 1 {
      var rest := blocks[1..];
      JoinOfJoins(sep, rest);
      assert JoinEach(sep, blocks) == [Join(sep, blocks[0])] + JoinEach(sep, rest);
      assert JoinEach(sep, blocks)[1..] == JoinEach(sep, rest);
      assert |Flatten(rest)| > 0 by {
        assert Flatten(rest) == rest[0] + Flatten(rest[1..]);
      }
      JoinConcat(sep, blocks[0], Flatten(rest));
    }
  }

  /** Python's `s.split(d)` for a one-character separator `d`. */
  function Split(s: string, d: char): (parts: seq<string>)
    ensures |parts| > 0
  {
    if |s| == 0 then [""]
    else
      var rest := Split(s[1..], d);
      if s[0] == d then [""] + rest else [[s[0]] + rest[0]] + rest[1..]
  }

  lemma {:induction false} SplitNoSeparator(p: string, d: char)
    requires d !in p
    ensures Split(p, d) == [p]
  {
    if |p| > 0 {
      SplitNoSeparator(p[1..], d);
      assert [p[0]] + p[1..] == p;
    }
  }

  lemma {:induction false} SplitAtSeparator(p: string, d: char, q: string)
    requires d !in p
    ensures Split(p + [d] + q, d) == [p] + Split(q, d)
  {
    var s := p + [d] + q;
    if |p| == 0 {
      assert s[1..] == q;
    } else {
      assert s[1..] == p[1..] + [d] + q;
      SplitAtSeparator(p[1..], d, q);
      assert [p[0]] + p[1..] == p;
    }
  }

  /** Splitting a join on its one-character separator gives the parts back,
      provided that no part contains the separator. */
  lemma {:induction false} SplitJoin(parts: seq<string>, d: char)
    requires |parts| > 0
    requires forall i :: 0 <= i < |parts| ==> d !in parts[i]
    ensures Split(Join([d], parts), d) == parts
  {
    if |parts| == 1 {
      SplitNoSeparator(parts[0], d);
    } else {
      SplitJoin(parts[1..], d);
      SplitAtSeparator(parts[0], d, Join([d], parts[1..]));
      assert [parts[0]] + parts[1..] == parts;
    }
  }

  function DigitChar(d: nat): (c: char)
    requires d < 10
    ensures '0' <= c <= '9'
  {
    (('0' as int) + d) as char
  }

  /** Python's `str(n)` for a non-negative integer: its decimal digits. */
  function NatToString(n: nat): (s: string)
    ensures |s| > 0
    ensures forall i :: 0 <= i < |s| ==> '0' <= s[i] <= '9'
  {
    if n < 10 then [DigitChar(n)] else NatToString(n / 10) + [DigitChar(n % 10)]
  }

  /** Python's `str(n)` for an integer: a minus sign for a negative one, then the digits. */
  function IntToString(n: int): (s: string)
    ensures forall i :: 0 <= i < |s| ==> s[i] == '-' || '0' <= s[i] <= '9'
  {
    if n < 0 then "-" + NatToString(-n) else NatToString(n)
  }

  /** Python's `os.path.basename(p)`: the longest suffix of `p` without a '/'. */
  function Basename(p: string): (b: string)
    ensures '/' !in b
    ensures |b| <= |p| && b == p[|p| - |b|..]
    ensures |b| < |p| ==> p[|p| - |b| - 1] == '/'
  {
    if |p| == 0 || p[|p| - 1] == '/' then "" else Basename(p[..|p| - 1]) + [p[|p| - 1]]
  }

  /** Python's `os.path.join(a, b)` for two components. */
  function PathJoin(a: string, b: string): string
  {
    if |b| > 0 && b[0] == '/' then b
    else if |a| == 0 || a[|a| - 1] == '/' then a + b
    else a + "/" + b
  }

  /** Python's `s.replace(pat, '')`: every occurrence of `pat` found by a
      left-to-right scan for non-overlapping matches is removed. */
  function RemoveAll(s: string, pat: string): (r: string)
    requires |pat| > 0
    ensures |r| <= |s|
    decreases |s|
  {
    if |s| < |pat| then s
    else if s[..|pat|] == pat then RemoveAll(s[|pat|..], pat)
    else [s[0]] + RemoveAll(s[1..], pat)
  }

  /** `pat` occurs in `s` at offset `i`. */
  predicate OccursAt(s: string, pat: string, i: nat)
  {
    i + |pat| <= |s| && s[i..i + |pat|] == pat
  }

  /** When `pat` occurs in `name + pat` only as that suffix, removing every
      occurrence leaves exactly `name`. */
  lemma {:induction false} RemoveAllTrailing(name: string, pat: string)
    requires |pat| > 0
    requires forall i :: 0 <= i < |name| ==> !OccursAt(name + pat, pat, i)
    ensures RemoveAll(name + pat, pat) == name
  {
    var s := name + pat;
    if |name| == 0 {
      assert s[..|pat|] == pat;
      assert s[|pat|..] == "";
    } else {
      assert !OccursAt(s, pat, 0);
      assert s[..|pat|] != pat by {
        assert s[0..0 + |pat|] == s[..|pat|];
      }
      var t := name[1..];
      assert s[1..] == t + pat;
      forall i | 0 <= i < |t|
        ensures !OccursAt(t + pat, pat, i)
      {
        assert !OccursAt(s, pat, i + 1);
        assert (t + pat)[i..i + |pat|] == s[i + 1..i + 1 + |pat|];
      }
      RemoveAllTrailing(t, pat);
      assert [name[0]] + t == name;
    }
  }
}
