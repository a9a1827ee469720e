/**
  Concrete instances of the output-path rule: the default presets and a
  table with overlapping suffixes.
*/
module OutputExamples {
  import opened Text
  import opened Paths
  import opened Presets
  import opened Output

  lemma DefaultSuffixesAt2()
    ensures SuffixesAt(DefaultTable, [-14, -12]) == ["_MSC", "_SFX"]
  {
    SuffixesAtCons(DefaultTable, -12, []);
    SuffixesAtCons(DefaultTable, -14, [-12]);
  }

  lemma DefaultSuffixesAt4()
    ensures SuffixesAt(DefaultTable, [-18, -16, -14, -12]) == ["_UI", "_DLG", "_MSC", "_SFX"]
  {
    DefaultSuffixesAt2();
    SuffixesAtCons(DefaultTable, -16, [-14, -12]);
    SuffixesAtCons(DefaultTable, -18, [-16, -14, -12]);
  }

  /** The default presets' suffixes in the order they are tried. */
  lemma DefaultKnownSuffixes()
    ensures KnownSuffixes(DefaultTable) == ["_AMB", "_UI", "_DLG", "_MSC", "_SFX"]
  {
    DefaultLufsValues();
    DefaultSuffixesAt5();
  }

  lemma DefaultSuffixesAt5()
    ensures SuffixesAt(DefaultTable, [-20, -18, -16, -14, -12])
            == ["_AMB", "_UI", "_DLG", "_MSC", "_SFX"]
  {
    DefaultSuffixesAt4();
    SuffixesAtCons(DefaultTable, -20, [-18, -16, -14, -12]);
    assert [-20] + [-18, -16, -14, -12] == [-20, -18, -16, -14, -12];
  }

  lemma DefaultSuffixCharacters()
    ensures Sep !in "_DLG" && Sep !in "_SFX" && '.' !in "_DLG"
  {
  }

  lemma SfxIsTrimmed()
    ensures Trimmed("_SFX")
  {
  }

  lemma DlgNotMatchedEarlier(x: string, cands: seq<string>)
    requires cands == ["_AMB", "_UI", "_DLG", "_MSC", "_SFX"]
    ensures 2 < |cands| && cands[2] == "_DLG"
    ensures forall j :: 0 <= j < 2 ==> !EndsWith(x + "_DLG", cands[j])
  {
    var base := x + "_DLG";
    assert base[|base| - 1] == 'G';
    forall j | 0 <= j < 2 ensures !EndsWith(base, cands[j]) {
      assert cands[j][|cands[j]| - 1] != 'G';
    }
  }

  /**
    The case the program was written for, for every directory and stem:
    under any table that tries the default suffixes in the default order
    (`DefaultKnownSuffixes` shows the default table does), `x_DLG.wav`
    normalised with the suffix `_SFX` becomes `x_SFX.wav`, not
    `x_DLG_SFX.wav`.
  */
  lemma NoSuffixAccumulation(dir: string, x: string, t: Table)
    requires dir != [] && dir[|dir| - 1] != Sep
    requires Sep !in x
    requires KnownSuffixes(t) == ["_AMB", "_UI", "_DLG", "_MSC", "_SFX"]
    ensures OutputFilename(dir + [Sep] + (x + "_DLG" + OutputExtension), "_SFX", t, false, [])
            == dir + [Sep] + (x + "_SFX" + OutputExtension)
  {
    DefaultSuffixCharacters();
    SfxIsTrimmed();
    DlgNotMatchedEarlier(x, KnownSuffixes(t));
    ReplacesFirstKnownSuffix(dir, x, "_DLG", "_SFX", t, KnownSuffixes(t), 2);
  }

  /** A table whose `_X` preset sorts before its `_Y_X` preset. */
  const OverlappingTable: Table :=
    map[-20 := Preset("_X", "X", FallbackColor), -10 := Preset("_Y_X", "YX", FallbackColor)]

  lemma OverlappingKnownSuffixes()
    ensures KnownSuffixes(OverlappingTable) == ["_X", "_Y_X"]
  {
    OverlappingLufsValues();
    OverlappingSuffixesAt();
  }

  lemma OverlappingLufsValues()
    ensures LufsValues(OverlappingTable) == [-20, -10]
  {
    LufsValuesUnique(OverlappingTable, [-20, -10]);
  }

  lemma OverlappingSuffixesAt()
    ensures SuffixesAt(OverlappingTable, [-20, -10]) == ["_X", "_Y_X"]
  {
    SuffixesAtCons(OverlappingTable, -10, []);
    SuffixesAtCons(OverlappingTable, -20, [-10]);
    assert [-20] + [-10] == [-20, -10];
  }

  lemma OverlappingSuffixCharacters(x: string)
    requires Sep !in x
    ensures Sep !in x + "_Y" && Sep !in "_X" && '.' !in "_X"
    ensures x + "_Y_X" == (x + "_Y") + "_X"
  {
  }

  /**
    The first matching suffix in key order is stripped even when a longer
    one also matches: with `_X` tried before `_Y_X` (as in
    `OverlappingTable`), `x_Y_X.wav` keeps its `_Y`.
  */
  lemma FirstMatchIsNotLongestMatch(dir: string, x: string, s: string, t: Table)
    requires dir != [] && dir[|dir| - 1] != Sep
    requires Sep !in x && Sep !in s && Trimmed(s)
    requires KnownSuffixes(t) == ["_X", "_Y_X"]
    ensures OutputFilename(dir + [Sep] + (x + "_Y_X" + OutputExtension), s, t, false, [])
            == dir + [Sep] + (x + "_Y" + s + OutputExtension)
  {
    OverlappingSuffixCharacters(x);
    ReplacesFirstKnownSuffix(dir, x + "_Y", "_X", s, t, ["_X", "_Y_X"], 0);
  }
}
