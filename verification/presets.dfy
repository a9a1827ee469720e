/**
  The LUFS preset table (`LUFSConfigManager`) and the pure editing rules of
  the preset dialog (`LUFSConfigDialog.add_preset` and `update_preset`).
  The table maps an integer loudness target to its suffix, display name and
  colour; JSON persistence is not part of this model.
*/
module Presets {
  import opened Wrappers
  import opened Text

  datatype Preset = Preset(suffix: string, name: string, color: string)

  type Table = map<int, Preset>

  /** Colour shown for a loudness value that has no preset. */
  const FallbackColor: string := "#888888"

  /** The table the program starts from when no configuration file exists. */
  const DefaultTable: Table := map[
    -12 := Preset("_SFX", "SFX", "#FF4444"),
    -14 := Preset("_MSC", "Music", "#4444FF"),
    -16 := Preset("_DLG", "Dialog", "#44FF44"),
    -18 := Preset("_UI", "UI", "#FFAA44"),
    -20 := Preset("_AMB", "Ambient", "#AA44FF")
  ]

  predicate StrictlyAscending(s: seq<int>) {
    forall i, j :: 0 <= i < j < |s| ==> s[i] < s[j]
  }

  /** A set with no members is the empty set. */
  lemma NoMembersIsEmpty(s: set<int>)
    ensures (forall y :: y !in s) ==> s == {}
  {
    if forall y :: y !in s {
      assert forall y :: y in s <==> y in {};
    }
  }

  lemma {:induction false} MinExists(s: set<int>)
    requires s != {}
    ensures exists m :: m in s && forall x :: x in s ==> m <= x
    decreases |s|
  {
    NoMembersIsEmpty(s);
    var y :| y in s;
    var rest := s - {y};
    if rest != {} {
      MinExists(rest);
      var m :| m in rest && forall x :: x in rest ==> m <= x;
      var least := if y < m then y else m;
      assert forall x :: x in s ==> x == y || x in rest;
      assert least in s && forall x :: x in s ==> least <= x;
    } else {
      assert forall x :: x in s && x != y ==> x in rest;
      assert forall x :: x in s ==> x == y;
    }
  }

  /** The least element of a non-empty set of integers. */
  function MinOf(s: set<int>): (m: int)
    requires s != {}
    ensures m in s && forall x :: x in s ==> m <= x
  {
    MinExists(s);
    var m :| m in s && forall x :: x in s ==> m <= x;
    m
  }

  /** Python's `sorted` on a set of integers. */
  function SortedKeys(s: set<int>): (r: seq<int>)
    ensures StrictlyAscending(r)
    ensures forall x :: x in r <==> x in s
    ensures |r| == |s|
    decreases |s|
  {
    if s == {} then []
    else
      var m := MinOf(s);
      var rest := SortedKeys(s - {m});
      assert forall x :: x in rest ==> m < x;
      [m] + rest
  }

  /**
    Two strictly ascending sequences holding the same values are equal: the
    sorted order of a set of keys is unique.
  */
  lemma {:induction false} AscendingUnique(a: seq<int>, b: seq<int>)
    requires StrictlyAscending(a) && StrictlyAscending(b)
    requires forall x :: x in a <==> x in b
    ensures a == b
    decreases |a|
  {
    assert a != [] ==> a[0] in a && a[0] in b;
    assert b != [] ==> b[0] in b && b[0] in a;
    if a != [] {
      var j :| 0 <= j < |b| && b[j] == a[0];
      assert b[0] <= a[0];
      var i :| 0 <= i < |a| && a[i] == b[0];
      assert a[0] <= b[0];
      forall x ensures x in a[1..] <==> x in b[1..] {
        if x in a[1..] {
          var i :| 1 <= i < |a| && a[i] == x;
          assert x in b && x != b[0];
        }
        if x in b[1..] {
          var i :| 1 <= i < |b| && b[i] == x;
          assert x in a && x != a[0];
        }
      }
      AscendingUnique(a[1..], b[1..]);
      assert a == [a[0]] + a[1..];
      assert b == [b[0]] + b[1..];
    }
  }

  /** `get_lufs_values`: the keys of the table in ascending order. */
  function LufsValues(t: Table): (r: seq<int>)
    ensures StrictlyAscending(r)
    ensures forall k :: k in r <==> k in t
    ensures |r| == |t|
  {
    SortedKeys(t.Keys)
  }

  /** Any ascending listing of the table's keys is the one `LufsValues` gives. */
  lemma LufsValuesUnique(t: Table, keys: seq<int>)
    requires StrictlyAscending(keys)
    requires forall k :: k in keys <==> k in t
    ensures LufsValues(t) == keys
  {
    AscendingUnique(LufsValues(t), keys);
  }

  /** `get_suffix`: the preset's suffix, or the empty string when there is none. */
  function SuffixOf(t: Table, lufs: int): (r: string)
    ensures lufs in t ==> r == t[lufs].suffix
    ensures lufs !in t ==> r == ""
  {
    if lufs in t then t[lufs].suffix else ""
  }

  /** `get_name`: the preset's name, or the number itself printed as text. */
  function NameOf(t: Table, lufs: int): (r: string)
    ensures lufs in t ==> r == t[lufs].name
    ensures lufs !in t ==> r == IntToString(lufs)
  {
    if lufs in t then t[lufs].name else IntToString(lufs)
  }

  /** `get_color`: the preset's colour, or grey. */
  function ColorOf(t: Table, lufs: int): (r: string)
    ensures lufs in t ==> r == t[lufs].color
    ensures lufs !in t ==> r == FallbackColor
  {
    if lufs in t then t[lufs].color else FallbackColor
  }

  /** `add_preset` on the manager: sets one key, leaves every other entry alone. */
  function AddPreset(t: Table, lufs: int, p: Preset): (r: Table)
    ensures r.Keys == t.Keys + {lufs}
    ensures r[lufs] == p
    ensures forall k :: k in t && k != lufs ==> r[k] == t[k]
  {
    t[lufs := p]
  }

  /** `remove_preset` on the manager: drops one key if present, nothing else. */
  function RemovePreset(t: Table, lufs: int): (r: Table)
    ensures r.Keys == t.Keys - {lufs}
    ensures forall k :: k in r ==> r[k] == t[k]
    ensures lufs !in t ==> r == t
  {
    t - {lufs}
  }

  /**
    The entry the dialog's "Add" button creates for a fresh key: the suffix
    is `_CUSTOM` followed by the key's magnitude in decimal, the name is
    `Custom ` followed by the key with its sign, and the colour is grey.
  */
  function CustomPreset(lufs: int): (p: Preset)
    ensures |p.suffix| > 7 && p.suffix[..7] == "_CUSTOM"
    ensures forall i :: 7 <= i < |p.suffix| ==> IsDigit(p.suffix[i])
    ensures ParseDigits(p.suffix[7..]) == if lufs < 0 then -lufs else lufs
    ensures |p.name| > 7 && p.name[..7] == "Custom "
    ensures p.color == FallbackColor
  {
    var magnitude := if lufs < 0 then -lufs else lufs;
    var p := Preset("_CUSTOM" + NatToString(magnitude), "Custom " + IntToString(lufs), FallbackColor);
    assert p.suffix[7..] == NatToString(magnitude);
    ParseNatToString(magnitude);
    p
  }

  /**
    Presets added for different keys have different names, and, for keys
    of the same sign, different suffixes.
  */
  lemma CustomPresetsDistinct(a: int, b: int)
    requires a != b
    ensures CustomPreset(a).name != CustomPreset(b).name
    ensures (a < 0) == (b < 0) ==> CustomPreset(a).suffix != CustomPreset(b).suffix
  {
    var na := CustomPreset(a).name;
    var nb := CustomPreset(b).name;
    assert na[7..] == IntToString(a);
    assert nb[7..] == IntToString(b);
    if na == nb {
      IntToStringInjective(a, b);
    }
  }

  /** Starting point of the dialog's search for a free key. */
  const FirstCustomKey: int := -16

  /**
    The dialog's "Add": walk down from -16 to the first key not yet in the
    table and add a custom preset there. The key found is the largest free
    key at or below -16.
  */
  method DialogAdd(t: Table) returns (key: int, r: Table)
    ensures key <= FirstCustomKey && key !in t
    ensures forall k :: key < k <= FirstCustomKey ==> k in t
    ensures r == AddPreset(t, key, CustomPreset(key))
    ensures |r| == |t| + 1
  {
    var existing := t.Keys;
    var floor := MinOf(existing + {FirstCustomKey}) - 1;
    key := FirstCustomKey;
    while key in existing
      invariant floor <= key <= FirstCustomKey
      invariant forall k :: key < k <= FirstCustomKey ==> k in t
      decreases key - floor
    {
      key := key - 1;
    }
    r := AddPreset(t, key, CustomPreset(key));
    assert r.Keys == t.Keys + {key};
  }

  /** Why the dialog's "Update" refused to change the table. */
  datatype UpdateError = NoSelection | EmptySuffix | EmptyName | KeyConflict(lufs: int)

  datatype UpdateResult = Updated(table: Table) | Rejected(error: UpdateError)

  /**
    Moves the preset at `oldLufs` to `newLufs` (or overwrites it in place when
    the key is unchanged): the table of a successful update.
  */
  function Rekey(t: Table, oldLufs: int, newLufs: int, p: Preset): (r: Table)
    requires newLufs == oldLufs || newLufs !in t
    ensures r.Keys == (t.Keys - {oldLufs}) + {newLufs}
    ensures r[newLufs] == p
    ensures forall k :: k in t && k != oldLufs && k != newLufs ==> r[k] == t[k]
    ensures oldLufs in t ==> |r| == |t|
  {
    var base := if newLufs != oldLufs then RemovePreset(t, oldLufs) else t;
    var r := AddPreset(base, newLufs, p);
    assert oldLufs in t && newLufs == oldLufs ==> r.Keys == t.Keys;
    assert oldLufs in t && newLufs != oldLufs ==>
      |base.Keys| == |t.Keys| - 1 && newLufs !in base.Keys;
    r
  }

  /**
    The dialog's "Update" on the preset `selected` (the list row's key):
    the texts are stripped; an empty suffix, then an empty name, then a new
    key that already belongs to another preset is refused; otherwise the
    old key is removed if it changed and the new key is set.
  */
  function DialogUpdate(t: Table, selected: Option<int>, newLufs: int,
                        suffixText: string, nameText: string, color: string): (r: UpdateResult)
    ensures r.Updated? <==>
              && selected.Some?
              && Strip(suffixText) != []
              && Strip(nameText) != []
              && (newLufs == selected.value || newLufs !in t)
    ensures (r.Rejected? && selected.Some? && Strip(suffixText) != [] && Strip(nameText) != [])
              ==> r.error == KeyConflict(newLufs)
    ensures r.Updated? ==>
              && r.table.Keys == (t.Keys - {selected.value}) + {newLufs}
              && r.table[newLufs] == Preset(Strip(suffixText), Strip(nameText), color)
              && (forall k :: k in t && k != selected.value && k != newLufs ==> r.table[k] == t[k])
    ensures r.Updated? && selected.value in t ==> |r.table| == |t|
  {
    match selected
    case None => Rejected(NoSelection)
    case Some(oldLufs) =>
      var suffix := Strip(suffixText);
      var name := Strip(nameText);
      if suffix == [] then Rejected(EmptySuffix)
      else if name == [] then Rejected(EmptyName)
      else if newLufs != oldLufs && newLufs in t then Rejected(KeyConflict(newLufs))
      else Updated(Rekey(t, oldLufs, newLufs, Preset(suffix, name, color)))
  }

  /** The default table lists its keys from -20 up to -12. */
  lemma DefaultLufsValues()
    ensures LufsValues(DefaultTable) == [-20, -18, -16, -14, -12]
  {
    LufsValuesUnique(DefaultTable, [-20, -18, -16, -14, -12]);
  }
}
