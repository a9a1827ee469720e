/**
  What the file table shows about each file: which dropped paths are taken
  as audio files, the colour of the predicted gain, and the colour of the
  measured loudness against the tolerance chosen in the spin box.
*/
module Display {
  import opened Text
  import opened Refinement

  /** The extensions drag-and-drop accepts, compared against the lower-cased path. */
  const AudioExtensions: seq<string> := [".wav", ".mp3", ".flac", ".ogg", ".m4a", ".aac"]

  /** A dropped path is taken when its lower-cased form ends with an audio extension. */
  predicate IsAudioPath(path: string) {
    exists e :: e in AudioExtensions && EndsWith(Lower(path), e)
  }

  /** The dropped paths that are taken, in the order they were dropped. */
  function DroppedFiles(paths: seq<string>): (r: seq<string>)
    ensures forall p :: p in r <==> p in paths && IsAudioPath(p)
    ensures |r| <= |paths|
  {
    if paths == [] then []
    else
      var rest := DroppedFiles(paths[1..]);
      assert forall p :: p in paths <==> p == paths[0] || p in paths[1..];
      if IsAudioPath(paths[0]) then [paths[0]] + rest else rest
  }

  /** Dropping two groups of paths takes the files of each group, in order. */
  lemma {:induction false} DroppedFilesAppend(a: seq<string>, b: seq<string>)
    ensures DroppedFiles(a + b) == DroppedFiles(a) + DroppedFiles(b)
    decreases |a|
  {
    if a == [] {
      assert a + b == b;
    } else {
      assert (a + b)[0] == a[0];
      assert (a + b)[1..] == a[1..] + b;
      DroppedFilesAppend(a[1..], b);
      if IsAudioPath(a[0]) {
        assert DroppedFiles(a + b) == [a[0]] + DroppedFiles(a[1..] + b);
        assert DroppedFiles(a) == [a[0]] + DroppedFiles(a[1..]);
      } else {
        assert DroppedFiles(a + b) == DroppedFiles(a[1..] + b);
        assert DroppedFiles(a) == DroppedFiles(a[1..]);
      }
    }
  }

  /** The drag is accepted exactly when at least one of its paths would be taken. */
  predicate DragAccepted(paths: seq<string>) {
    DroppedFiles(paths) != []
  }

  lemma DragAcceptedIff(paths: seq<string>)
    ensures DragAccepted(paths) <==> exists p :: p in paths && IsAudioPath(p)
  {
    var r := DroppedFiles(paths);
    if r != [] {
      assert r[0] in r;
    }
  }

  /** The lower-cased form of an appended extension is the lower-cased extension. */
  lemma LowerAppend(a: string, b: string)
    ensures Lower(a + b) == Lower(a) + Lower(b)
  {
    var l := Lower(a + b);
    var r := Lower(a) + Lower(b);
    forall i | 0 <= i < |l| ensures l[i] == r[i] {
      if i < |a| {
        assert (a + b)[i] == a[i];
      } else {
        assert (a + b)[i] == b[i - |a|];
      }
    }
  }

  /** The comparison ignores case: an upper-case `.WAV` is taken like `.wav`. */
  lemma UpperCaseWavAccepted(stem: string)
    ensures IsAudioPath(stem + ".WAV")
  {
    LowerAppend(stem, ".WAV");
    var low := Lower(".WAV");
    assert low[0] == '.' && low[1] == 'w' && low[2] == 'a' && low[3] == 'v';
    assert low == ".wav";
    assert AudioExtensions[0] == ".wav";
    assert EndsWith(Lower(stem) + ".wav", ".wav");
  }

  /** A lower-cased character is a dot only if it was one. */
  lemma LowerDot(c: char)
    ensures LowerChar(c) == '.' <==> c == '.'
  {
  }

  /**
    Every accepted path has a dot before its last three characters or more:
    a name with no extension at all, or a bare `wav`, is never taken.
  */
  lemma AudioPathHasExtension(path: string)
    requires IsAudioPath(path)
    ensures exists i :: 0 <= i <= |path| - 4 && path[i] == '.'
  {
    var e :| e in AudioExtensions && EndsWith(Lower(path), e);
    var i := |path| - |e|;
    assert Lower(path)[i] == e[0] == '.';
    LowerDot(path[i]);
  }

  /** The three colours of the table. */
  datatype Colour = Green | Orange | Red

  /** The order of the colours from harmless to alarming. */
  function Severity(c: Colour): nat {
    match c
    case Green => 0
    case Orange => 1
    case Red => 2
  }

  /** The gain column: how far the file must move to reach the target. */
  function PredictedGain(target: int, loudness: real): (g: real)
    ensures loudness + g == target as real
  {
    target as real - loudness
  }

  /** Gains up to 1 dB either way are green, up to 3 dB orange, beyond that red. */
  function GainColour(gain: real): (c: Colour)
    ensures c == Green <==> Abs(gain) <= 1.0
    ensures c == Orange <==> 1.0 < Abs(gain) <= 3.0
    ensures c == Red <==> Abs(gain) > 3.0
  {
    if Abs(gain) <= 1.0 then Green
    else if Abs(gain) <= 3.0 then Orange
    else Red
  }

  /**
    The colour depends on the size of the gain only, and a larger gain is
    never shown milder than a smaller one.
  */
  lemma GainColourMonotone(a: real, b: real)
    requires Abs(a) <= Abs(b)
    ensures Severity(GainColour(a)) <= Severity(GainColour(b))
    ensures GainColour(-a) == GainColour(a)
  {
    assert Abs(-a) == Abs(a);
  }

  /**
    The gain column against the batch: the table's loudness `stored` is
    measured on its own, differently prepared buffer, so the gain shown
    differs from the gain the initial normalisation applies by exactly the
    gap between the batch's first meter reading and `stored`. The two agree
    only when the two readings agree.
  */
  lemma PredictedGainVersusInitialGain(m: Meter, target: int, stored: real)
    ensures PredictedGain(target, stored) - InitialGain(m, target as real) == m(0.0) - stored
    ensures PredictedGain(target, stored) == InitialGain(m, target as real) <==> stored == m(0.0)
  {
  }

  /** The spin box counts tenths of a LUFS; the tolerance is the count over ten. */
  function UserTolerance(tenths: int): (tol: real)
    ensures tol * 10.0 == tenths as real
  {
    tenths as real / 10.0
  }

  /** The smallest and largest values the spin box allows. */
  const MinTenths: int := 1
  const MaxTenths: int := 50

  /** The loudness column: green within the tolerance of the target, red outside it. */
  function LoudnessColour(loudness: real, target: int, tolerance: real): (c: Colour)
    ensures c != Orange
    ensures c == Green <==> Abs(loudness - target as real) <= tolerance
  {
    if Abs(loudness - target as real) <= tolerance then Green else Red
  }

  /** The count and filter of files out of tolerance use the same test, negated. */
  predicate OutOfUserTolerance(loudness: real, target: int, tolerance: real) {
    Abs(loudness - target as real) > tolerance
  }

  lemma OutOfUserToleranceIsRed(loudness: real, target: int, tolerance: real)
    ensures OutOfUserTolerance(loudness, target, tolerance) <==> LoudnessColour(loudness, target, tolerance) == Red
  {
  }

  /**
    A loudness within 0.01 LUFS of the target is shown green for every
    tolerance the spin box allows, whose smallest is 0.1 LUFS.
  */
  lemma RefinedIsGreen(loudness: real, target: int, tenths: int)
    requires MinTenths <= tenths <= MaxTenths
    requires !OutOfTolerance(loudness, target as real)
    ensures LoudnessColour(loudness, target, UserTolerance(tenths)) == Green
  {
    assert UserTolerance(tenths) >= 0.1;
  }
}
