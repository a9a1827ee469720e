/**
  Output-path resolution (`AudioNormalizer.get_output_filename`) and the
  split the output-path label uses to colour the suffix
  (`OutputPathWidget.setup_ui`).
*/
module Output {
  import opened Wrappers
  import opened Text
  import opened Paths
  import opened Presets

  /** What `get_output_filename` returns instead of a path when it has none. */
  const NoOverrideFolder: string := "No override folder selected"

  /** Every output is written as WAV, whatever the input container was. */
  const OutputExtension: string := ".wav"

  /** Non-empty suffixes of the presets at `keys`, in the order of `keys`. */
  function SuffixesAt(t: Table, keys: seq<int>): seq<string>
  {
    if keys == [] then []
    else if SuffixOf(t, keys[0]) == [] then SuffixesAt(t, keys[1..])
    else [SuffixOf(t, keys[0])] + SuffixesAt(t, keys[1..])
  }

  lemma {:induction false} SuffixesAtMembers(t: Table, keys: seq<int>)
    ensures forall s :: s in SuffixesAt(t, keys) ==> s != []
    ensures forall k :: k in keys && SuffixOf(t, k) != [] ==> SuffixOf(t, k) in SuffixesAt(t, keys)
    ensures forall s :: s in SuffixesAt(t, keys) ==> exists k :: k in keys && SuffixOf(t, k) == s
  {
    if keys != [] {
      SuffixesAtMembers(t, keys[1..]);
      assert forall k :: k in keys ==> k == keys[0] || k in keys[1..];
    }
  }

  /**
    The suffixes that may be stripped from an input's name: exactly the
    table's non-empty preset suffixes, listed in ascending order of the
    preset's loudness key (`FirstKnownSuffixIsLowestKey` states the order).
  */
  function KnownSuffixes(t: Table): (r: seq<string>)
    ensures forall s :: s in r ==> s != []
    ensures forall k :: k in t && t[k].suffix != [] ==> t[k].suffix in r
    ensures forall s :: s in r ==> exists k :: k in t && t[k].suffix == s
  {
    SuffixesAtMembers(t, LufsValues(t));
    SuffixesAt(t, LufsValues(t))
  }

  predicate Matches(base: string, candidate: string) {
    candidate != [] && EndsWith(base, candidate)
  }

  function FirstMatchFrom(base: string, cands: seq<string>, i: nat): (r: Option<nat>)
    requires i <= |cands|
    ensures r.Some? ==> i <= r.value < |cands| && Matches(base, cands[r.value])
    ensures r.Some? ==> forall j :: i <= j < r.value ==> !Matches(base, cands[j])
    ensures r.None? ==> forall j :: i <= j < |cands| ==> !Matches(base, cands[j])
    decreases |cands| - i
  {
    if i == |cands| then None
    else if Matches(base, cands[i]) then Some(i)
    else FirstMatchFrom(base, cands, i + 1)
  }

  /** Index of the first candidate, in list order, that `base` ends with. */
  function FirstMatch(base: string, cands: seq<string>): (r: Option<nat>)
    ensures r.Some? ==> r.value < |cands| && Matches(base, cands[r.value])
    ensures r.Some? ==> forall j :: 0 <= j < r.value ==> !Matches(base, cands[j])
    ensures r.None? ==> forall j :: 0 <= j < |cands| ==> !Matches(base, cands[j])
  {
    FirstMatchFrom(base, cands, 0)
  }

  /**
    `kept` is `base` with its first matching candidate (in list order)
    removed, or `base` itself when no candidate matches.
  */
  predicate StripsFirstMatch(base: string, cands: seq<string>, kept: string) {
    || (kept == base && forall j :: 0 <= j < |cands| ==> !Matches(base, cands[j]))
    || (exists i :: 0 <= i < |cands| && Matches(base, cands[i]) && kept + cands[i] == base
         && forall j :: 0 <= j < i ==> !Matches(base, cands[j]))
  }

  /** Only one string is `base` with its first matching candidate removed. */
  lemma StripsFirstMatchUnique(base: string, cands: seq<string>, k1: string, k2: string)
    requires StripsFirstMatch(base, cands, k1) && StripsFirstMatch(base, cands, k2)
    ensures k1 == k2
  {
    var m := FirstMatch(base, cands);
    if m.Some? {
      var i1 :| 0 <= i1 < |cands| && Matches(base, cands[i1]) && k1 + cands[i1] == base
                && forall j :: 0 <= j < i1 ==> !Matches(base, cands[j]);
      var i2 :| 0 <= i2 < |cands| && Matches(base, cands[i2]) && k2 + cands[i2] == base
                && forall j :: 0 <= j < i2 ==> !Matches(base, cands[j]);
      assert i1 == m.value && i2 == m.value;
      assert k1 == base[..|base| - |cands[i1]|];
      assert k2 == base[..|base| - |cands[i2]|];
    }
  }

  /**
    Removes at most one suffix: the first candidate the base ends with. A base
    that ends with none of them is returned as it is.
  */
  function StripKnownSuffix(base: string, cands: seq<string>): (r: string)
    ensures StripsFirstMatch(base, cands, r)
  {
    match FirstMatch(base, cands)
    case None => base
    case Some(i) =>
      var s := cands[i];
      assert base == base[..|base| - |s|] + s;
      base[..|base| - |s|]
  }

  /** The file name an input is written under, before a folder is chosen. */
  function FinalName(filepath: string, suffixText: string, t: Table): (r: string)
    ensures EndsWith(r, OutputExtension)
    ensures exists kept :: r == kept + Strip(suffixText) + OutputExtension
                           && StripsFirstMatch(Stem(filepath), KnownSuffixes(t), kept)
  {
    StripKnownSuffix(Stem(filepath), KnownSuffixes(t)) + Strip(suffixText) + OutputExtension
  }

  /**
    `get_output_filename`: the output path for `filepath`, or the sentinel
    text when the override folder is enabled but none was chosen.
  */
  function OutputFilename(filepath: string, suffixText: string, t: Table,
                          useOverride: bool, folder: string): (r: string)
    ensures r == NoOverrideFolder <==> useOverride && folder == []
    ensures useOverride && folder != [] ==> r == Join(folder, FinalName(filepath, suffixText, t))
    ensures !useOverride ==> r == Join(Dirname(filepath), FinalName(filepath, suffixText, t))
    ensures r != NoOverrideFolder ==> EndsWith(r, FinalName(filepath, suffixText, t))
  {
    var name := FinalName(filepath, suffixText, t);
    if useOverride && folder == [] then NoOverrideFolder
    else
      var r := if useOverride then Join(folder, name) else Join(Dirname(filepath), name);
      EndsWithTransitive(r, name, OutputExtension);
      assert !EndsWith(NoOverrideFolder, OutputExtension);
      r
  }

  lemma EndsWithTransitive(a: string, b: string, c: string)
    requires EndsWith(a, b) && EndsWith(b, c)
    ensures EndsWith(a, c)
  {
    assert a[|a| - |c|..] == b[|b| - |c|..];
  }

  /** One unfolding of `SuffixesAt`, for concrete tables. */
  lemma SuffixesAtCons(t: Table, k: int, rest: seq<int>)
    ensures SuffixesAt(t, [k] + rest)
            == (if SuffixOf(t, k) == [] then [] else [SuffixOf(t, k)]) + SuffixesAt(t, rest)
  {
    assert ([k] + rest)[1..] == rest;
  }

  /**
    Entry `i` of the candidates comes from key `keys[p]`, and every earlier
    key's suffix is empty or already listed before entry `i`.
  */
  predicate SourcedAt(t: Table, keys: seq<int>, cands: seq<string>, i: nat, p: nat) {
    && p < |keys| && i < |cands|
    && SuffixOf(t, keys[p]) == cands[i]
    && forall q :: 0 <= q < p ==> SuffixOf(t, keys[q]) == [] || SuffixOf(t, keys[q]) in cands[..i]
  }

  /** Every candidate has a source key, and the candidates keep the keys' order. */
  lemma {:induction false} SuffixSource(t: Table, keys: seq<int>, i: nat) returns (p: nat)
    requires i < |SuffixesAt(t, keys)|
    ensures SourcedAt(t, keys, SuffixesAt(t, keys), i, p)
    decreases |keys|
  {
    var r := SuffixesAt(t, keys);
    var rest := SuffixesAt(t, keys[1..]);
    if SuffixOf(t, keys[0]) == [] {
      assert r == rest;
      var p' := SuffixSource(t, keys[1..], i);
      p := p' + 1;
      forall q | 0 <= q < p
        ensures SuffixOf(t, keys[q]) == [] || SuffixOf(t, keys[q]) in r[..i]
      {
        if q > 0 {
          assert keys[q] == keys[1..][q - 1];
        }
      }
    } else if i == 0 {
      p := 0;
    } else {
      assert r == [SuffixOf(t, keys[0])] + rest;
      var p' := SuffixSource(t, keys[1..], i - 1);
      p := p' + 1;
      assert r[..i] == [SuffixOf(t, keys[0])] + rest[..i - 1];
      forall q | 0 <= q < p
        ensures SuffixOf(t, keys[q]) == [] || SuffixOf(t, keys[q]) in r[..i]
      {
        if q > 0 {
          assert keys[q] == keys[1..][q - 1];
        }
      }
    }
  }

  /** In an ascending sequence, a smaller entry sits at a smaller index. */
  lemma AscendingIndex(s: seq<int>, a: nat, b: nat)
    requires StrictlyAscending(s)
    requires a < |s| && b < |s| && s[a] < s[b]
    ensures a < b
  {
  }

  /** A key before the source of the first match has no matching suffix. */
  lemma EarlierKeyDoesNotMatch(base: string, t: Table, keys: seq<int>, cands: seq<string>,
                               i: nat, p: nat, q: nat)
    requires SourcedAt(t, keys, cands, i, p)
    requires forall j :: 0 <= j < i ==> !Matches(base, cands[j])
    requires q < p
    ensures !Matches(base, SuffixOf(t, keys[q]))
  {
    if SuffixOf(t, keys[q]) != [] {
      assert SuffixOf(t, keys[q]) in cands[..i];
      var j :| 0 <= j < i && cands[..i][j] == SuffixOf(t, keys[q]);
      assert cands[j] == SuffixOf(t, keys[q]);
    }
  }

  /**
    `k` is the lowest loudness key of the table whose suffix is non-empty
    and ends the base.
  */
  predicate LowestMatchingKey(base: string, t: Table, k: int) {
    && k in t
    && Matches(base, t[k].suffix)
    && forall k' :: k' in t && k' < k ==> !Matches(base, t[k'].suffix)
  }

  /**
    The suffix stripped from a name is that of the lowest-keyed preset whose
    non-empty suffix ends the name, and nothing is stripped exactly when no
    preset's suffix ends it.
  */
  lemma FirstKnownSuffixIsLowestKey(base: string, t: Table)
    ensures FirstMatch(base, KnownSuffixes(t)).Some? ==>
              exists k :: LowestMatchingKey(base, t, k)
                          && KnownSuffixes(t)[FirstMatch(base, KnownSuffixes(t)).value] == t[k].suffix
    ensures FirstMatch(base, KnownSuffixes(t)).None? <==> forall k :: k in t ==> !Matches(base, t[k].suffix)
  {
    var cands := KnownSuffixes(t);
    var keys := LufsValues(t);
    var m := FirstMatch(base, cands);
    if m.Some? {
      var i := m.value;
      var p := SuffixSource(t, keys, i);
      var k := keys[p];
      assert k in t && cands[i] == t[k].suffix;
      forall k' | k' in t && k' < k
        ensures !Matches(base, t[k'].suffix)
      {
        var q :| 0 <= q < |keys| && keys[q] == k';
        AscendingIndex(keys, q, p);
        EarlierKeyDoesNotMatch(base, t, keys, cands, i, p, q);
      }
      assert LowestMatchingKey(base, t, k);
    }
  }

  /** There is only one lowest matching key. */
  lemma LowestMatchingKeyUnique(base: string, t: Table, k1: int, k2: int)
    requires LowestMatchingKey(base, t, k1) && LowestMatchingKey(base, t, k2)
    ensures k1 == k2
  {
  }

  /** With the lowest matching key `k`, the kept base is the name without that preset's suffix. */
  lemma StripsLowestKeySuffix(base: string, t: Table, k: int)
    requires LowestMatchingKey(base, t, k)
    ensures StripKnownSuffix(base, KnownSuffixes(t)) + t[k].suffix == base
  {
    var cands := KnownSuffixes(t);
    FirstKnownSuffixIsLowestKey(base, t);
    var m := FirstMatch(base, cands);
    assert m.Some?;
    var k2 :| LowestMatchingKey(base, t, k2) && cands[m.value] == t[k2].suffix;
    LowestMatchingKeyUnique(base, t, k, k2);
    StripsFoundCandidate(base, cands, m.value);
  }

  /** The candidate `FirstMatch` finds is the one stripped. */
  lemma StripsFoundCandidate(base: string, cands: seq<string>, i: nat)
    requires FirstMatch(base, cands) == Some(i)
    ensures StripKnownSuffix(base, cands) + cands[i] == base
  {
    assert EndsWith(base, cands[i]);
  }

  /** The root of `root.wav`, when the root has a character other than a dot. */
  lemma RootOfWav(root: string, nondot: nat)
    requires Sep !in root
    requires nondot < |root| && root[nondot] != '.'
    ensures SplitExt(root + OutputExtension).root == root
  {
    var name := root + OutputExtension;
    assert Sep !in name;
    LastCharAt(name, '.', |root|);
    assert name[..|root|][nondot] != '.';
    assert name[..|root|] == root;
  }

  /** The stem of `dir/<root>.wav` is `root`. */
  lemma StemOfWavPath(dir: string, root: string, nondot: nat)
    requires dir != [] && dir[|dir| - 1] != Sep
    requires Sep !in root
    requires nondot < |root| && root[nondot] != '.'
    ensures Stem(dir + [Sep] + (root + OutputExtension)) == root
    ensures Dirname(dir + [Sep] + (root + OutputExtension)) == dir
  {
    assert Sep !in root + OutputExtension;
    SplitPath(dir, root + OutputExtension);
    RootOfWav(root, nondot);
  }

  /** The first matching candidate `d` is the one stripped from `x + d`. */
  lemma StripsFirstMatchingSuffix(x: string, d: string, cands: seq<string>, i: nat)
    requires i < |cands| && cands[i] == d && d != []
    requires forall j :: 0 <= j < i ==> !EndsWith(x + d, cands[j])
    ensures StripKnownSuffix(x + d, cands) == x
  {
    assert EndsWith(x + d, d) by {
      assert (x + d)[|x + d| - |d|..] == d;
    }
    var m := FirstMatch(x + d, cands);
    assert m.Some? && m.value <= i;
    assert m.value == i;
    assert (x + d)[..|x + d| - |d|] == x;
  }

  /** A suffix text that is already stripped is used as it is. */
  lemma FinalNameOfTrimmed(p: string, s: string, t: Table)
    requires Trimmed(s)
    ensures FinalName(p, s, t) == StripKnownSuffix(Stem(p), KnownSuffixes(t)) + s + OutputExtension
  {
    StripOfTrimmed(s);
  }

  /** The file name part of the re-normalisation below. */
  lemma ReplacedName(dir: string, x: string, d: string, s: string,
                     t: Table, cands: seq<string>, i: nat)
    requires dir != [] && dir[|dir| - 1] != Sep
    requires Sep !in x && Sep !in d
    requires '.' !in d
    requires KnownSuffixes(t) == cands
    requires i < |cands| && cands[i] == d
    requires forall j :: 0 <= j < i ==> !EndsWith(x + d, cands[j])
    requires Trimmed(s)
    ensures Dirname(dir + [Sep] + (x + d + OutputExtension)) == dir
    ensures FinalName(dir + [Sep] + (x + d + OutputExtension), s, t) == x + s + OutputExtension
  {
    assert d in cands;
    assert d[0] in d && (x + d)[|x|] == d[0];
    StemOfWavPath(dir, x + d, |x|);
    StripsFirstMatchingSuffix(x, d, cands, i);
    FinalNameOfTrimmed(dir + [Sep] + (x + d + OutputExtension), s, t);
  }

  /**
    Re-normalising a file whose stem ends with a known suffix `d` (the first
    one tried that matches) replaces `d` by the new suffix instead of
    appending to it: `dir/x<d>.wav` is written as `dir/x<s>.wav`.
  */
  lemma ReplacesFirstKnownSuffix(dir: string, x: string, d: string, s: string,
                                  t: Table, cands: seq<string>, i: nat)
    requires dir != [] && dir[|dir| - 1] != Sep
    requires Sep !in x && Sep !in d && Sep !in s
    requires '.' !in d
    requires KnownSuffixes(t) == cands
    requires i < |cands| && cands[i] == d
    requires forall j :: 0 <= j < i ==> !EndsWith(x + d, cands[j])
    requires Trimmed(s)
    ensures OutputFilename(dir + [Sep] + (x + d + OutputExtension), s, t, false, [])
            == dir + [Sep] + (x + s + OutputExtension)
  {
    ReplacedName(dir, x, d, s, t, cands, i);
    var out := x + s + OutputExtension;
    assert out[0] != Sep by {
      if x != [] {
        assert out[0] == x[0] && x[0] in x;
      } else if s != [] {
        assert out[0] == s[0] && s[0] in s;
      }
    }
  }

  /** The three pieces the output label shows, the suffix in colour. */
  datatype Highlight = Highlight(name: string, suffix: string, ext: string)

  /**
    The label's split of a file name at the LAST occurrence of the suffix;
    `None` when the suffix is empty or does not occur.
  */
  function SplitHighlight(filename: string, suffix: string): (r: Option<Highlight>)
    ensures r.None? <==> suffix == [] || !Contains(filename, suffix)
    ensures r.Some? ==> r.value.name + r.value.suffix + r.value.ext == filename
    ensures r.Some? ==> r.value.suffix == suffix
    ensures r.Some? ==> OccursAt(filename, suffix, |r.value.name|)
    ensures r.Some? ==> forall j :: |r.value.name| < j ==> !OccursAt(filename, suffix, j)
  {
    if suffix != [] && Contains(filename, suffix) then
      var pos := LastIndexOf(filename, suffix).value;
      var h := Highlight(filename[..pos], filename[pos..pos + |suffix|], filename[pos + |suffix|..]);
      assert h.name + h.suffix + h.ext == filename;
      Some(h)
    else None
  }

  /** What the output-path cell of a table row shows. */
  datatype PathLabel =
    | MissingFolderLabel
    | NoPathLabel
    | PlainLabel(path: string)
    | HighlightedLabel(prefix: string, suffix: string, ext: string)

  /**
    `OutputPathWidget.setup_ui`: the sentinel and the empty path get their
    own warnings; otherwise the suffix is coloured where it last occurs in
    the file name, and the rest of the path is shown around it.
  */
  function OutputLabel(filepath: string, suffix: string): (r: PathLabel)
    ensures filepath == NoOverrideFolder ==> r == MissingFolderLabel
    ensures filepath == [] ==> r == NoPathLabel
    ensures r.HighlightedLabel? ==>
              && r.suffix == suffix
              && EndsWith(Basename(filepath), r.suffix + r.ext)
    ensures r.PlainLabel? ==> r.path == filepath
    ensures filepath != NoOverrideFolder && filepath != [] ==>
              (r.HighlightedLabel? <==> suffix != [] && Contains(Basename(filepath), suffix))
  {
    if filepath == NoOverrideFolder then MissingFolderLabel
    else if filepath == [] then NoPathLabel
    else
      var filename := Basename(filepath);
      match SplitHighlight(filename, suffix)
      case None => PlainLabel(filepath)
      case Some(h) =>
        assert filename == h.name + (h.suffix + h.ext);
        HighlightedLabel(Join(Dirname(filepath), h.name), h.suffix, h.ext)
  }

  /**
    The label finds the suffix the resolver just appended, provided the
    suffix has no dot and is not made only of letters of `wav`: then its last
    occurrence in `kept + suffix + ".wav"` is the appended one.
  */
  lemma HighlightFindsAppendedSuffix(kept: string, suffix: string)
    requires suffix != []
    requires '.' !in suffix
    requires exists i :: 0 <= i < |suffix| && suffix[i] !in "wav"
    ensures SplitHighlight(kept + suffix + OutputExtension, suffix)
            == Some(Highlight(kept, suffix, OutputExtension))
  {
    var name := kept + suffix + OutputExtension;
    var n := |kept|;
    assert name[n..n + |suffix|] == suffix;
    assert OccursAt(name, suffix, n);
    var dot := n + |suffix|;
    assert name[dot..] == OutputExtension;
    forall j | n < j ensures !OccursAt(name, suffix, j) {
      if j + |suffix| <= |name| {
        if j <= dot {
          assert name[j..j + |suffix|][dot - j] == '.';
          assert suffix[dot - j] in suffix;
        } else {
          var i :| 0 <= i < |suffix| && suffix[i] !in "wav";
          assert name[j..j + |suffix|][i] == OutputExtension[j + i - dot];
          assert OutputExtension[j + i - dot] in "wav";
        }
      }
    }
    var h := SplitHighlight(name, suffix).value;
    assert |h.name| == n;
    assert h.name == name[..n] == kept;
    assert h.ext == name[n + |suffix|..] == OutputExtension;
  }
}
