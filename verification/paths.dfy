/**
  POSIX path helpers with the semantics of Python's `posixpath`: `basename`,
  `dirname`, `join` and `splitext`. Paths are plain strings with `/` as the
  only separator; `abspath` normalisation is not modelled, so every path the
  program hands in is taken to be absolute and normalised already.
*/
module Paths {
  import opened Wrappers
  import opened Text

  const Sep: char := '/'

  /** Index just past the last separator (0 when there is none). */
  function TailStart(p: string): (i: nat)
    ensures i <= |p|
    ensures i > 0 ==> p[i - 1] == Sep
    ensures forall j :: i <= j < |p| ==> p[j] != Sep
  {
    match LastIndexOf(p, [Sep])
    case None =>
      assert forall j :: 0 <= j < |p| ==> p[j] != Sep by {
        forall j | 0 <= j < |p| ensures p[j] != Sep {
          assert !OccursAt(p, [Sep], j);
          assert p[j..j + 1] == [p[j]];
        }
      }
      0
    case Some(k) =>
      assert forall j :: k + 1 <= j < |p| ==> p[j] != Sep by {
        forall j | k + 1 <= j < |p| ensures p[j] != Sep {
          assert !OccursAt(p, [Sep], j);
          assert p[j..j + 1] == [p[j]];
        }
      }
      assert p[k..k + 1] == [p[k]];
      k + 1
  }

  /** `os.path.basename`: the part after the last separator. */
  function Basename(p: string): (r: string)
    ensures EndsWith(p, r)
    ensures Sep !in r
    ensures Sep !in p ==> r == p
  {
    var i := TailStart(p);
    assert forall c :: c in p[i..] ==> c != Sep;
    p[i..]
  }

  function TrimTrailingSeps(s: string): (r: string)
    ensures |r| <= |s| && r == s[..|r|]
    ensures r == [] || r[|r| - 1] != Sep
  {
    if s != [] && s[|s| - 1] == Sep then TrimTrailingSeps(s[..|s| - 1]) else s
  }

  predicate AllSeps(s: string) {
    forall i :: 0 <= i < |s| ==> s[i] == Sep
  }

  /**
    `os.path.dirname`: everything up to the last separator, with trailing
    separators removed unless the head is made of separators only.
  */
  function Dirname(p: string): (r: string)
    ensures |r| <= |p| && r == p[..|r|]
    ensures Sep !in p ==> r == []
    ensures r == [] || r[|r| - 1] != Sep || AllSeps(r)
  {
    var head := p[..TailStart(p)];
    if head != [] && !AllSeps(head) then TrimTrailingSeps(head) else head
  }

  /**
    `os.path.join(a, b)` for two components: an absolute `b` replaces `a`;
    otherwise `b` is appended with one separator between the two.
  */
  function Join(a: string, b: string): (r: string)
    ensures EndsWith(r, b)
    ensures b != [] && b[0] == Sep ==> r == b
    ensures (b == [] || b[0] != Sep) ==> |r| >= |a| && r[..|a|] == a
  {
    if b != [] && b[0] == Sep then b
    else if a == [] || a[|a| - 1] == Sep then a + b
    else a + [Sep] + b
  }

  /** `splitext` result: the root and the extension (including the dot). */
  datatype Split = Split(root: string, ext: string)

  predicate AllDots(s: string) {
    forall i :: 0 <= i < |s| ==> s[i] == '.'
  }

  /**
    `os.path.splitext` applied to a base name: the extension starts at the
    last dot, unless only dots come before it (so `.bashrc` has none).
  */
  function SplitExt(name: string): (r: Split)
    requires Sep !in name
    ensures r.root + r.ext == name
    ensures r.ext == [] || (r.ext[0] == '.' && '.' !in r.ext[1..] && !AllDots(r.root))
    ensures r.ext == [] ==> '.' !in name || AllDots(name[..LastDot(name)])
  {
    match LastIndexOf(name, ".")
    case None =>
      assert forall j :: 0 <= j < |name| ==> name[j] != '.' by {
        forall j | 0 <= j < |name| ensures name[j] != '.' {
          assert !OccursAt(name, ".", j);
          assert name[j..j + 1] == [name[j]];
        }
      }
      Split(name, [])
    case Some(d) =>
      assert name[d..d + 1] == [name[d]];
      assert forall j :: d < j < |name| ==> name[j] != '.' by {
        forall j | d < j < |name| ensures name[j] != '.' {
          assert !OccursAt(name, ".", j);
          assert name[j..j + 1] == [name[j]];
        }
      }
      if AllDots(name[..d]) then Split(name, [])
      else
        assert name == name[..d] + name[d..];
        Split(name[..d], name[d..])
  }

  /** Position of the last dot in a name that has one. */
  function LastDot(name: string): (d: nat)
    requires '.' in name
    ensures d < |name| && name[d] == '.'
    ensures forall j :: d < j < |name| ==> name[j] != '.'
  {
    var k :| 0 <= k < |name| && name[k] == '.';
    assert OccursAt(name, ".", k);
    var d := LastIndexOf(name, ".").value;
    assert name[d..d + 1] == [name[d]];
    assert forall j :: d < j < |name| ==> name[j] != '.' by {
      forall j | d < j < |name| ensures name[j] != '.' {
        assert !OccursAt(name, ".", j);
        assert name[j..j + 1] == [name[j]];
      }
    }
    d
  }

  /** `os.path.splitext(os.path.basename(p))[0]` */
  function Stem(p: string): (r: string)
  {
    SplitExt(Basename(p)).root
  }

  /** `dir/name` splits back into `dir` and `name`. */
  lemma SplitPath(dir: string, name: string)
    requires dir != [] && dir[|dir| - 1] != Sep
    requires Sep !in name
    ensures Basename(dir + [Sep] + name) == name
    ensures Dirname(dir + [Sep] + name) == dir
  {
    var p := dir + [Sep] + name;
    assert forall j :: |dir| < j < |p| ==> p[j] == name[j - |dir| - 1];
    LastCharAt(p, Sep, |dir|);
    assert TailStart(p) == |dir| + 1;
    var head := p[..|dir| + 1];
    assert head == dir + [Sep];
    assert !AllSeps(head) by {
      assert head[|dir| - 1] != Sep;
    }
    assert TrimTrailingSeps(dir) == dir;
    assert TrimTrailingSeps(head) == TrimTrailingSeps(head[..|head| - 1]);
    assert head[..|head| - 1] == dir;
  }

  /**
    Joining a directory (not ending in a separator) with a name that has no
    separator gives a path whose `dirname` and `basename` are the two parts.
  */
  lemma JoinSplitsBack(dir: string, name: string)
    requires dir != [] && dir[|dir| - 1] != Sep
    requires Sep !in name
    ensures Join(dir, name) == dir + [Sep] + name
    ensures Dirname(Join(dir, name)) == dir
    ensures Basename(Join(dir, name)) == name
  {
    if name != [] {
      assert name[0] in name;
    }
    SplitPath(dir, name);
  }
}
