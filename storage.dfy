/** The colour picked for a new team member (chore-app/src/utils/storage.ts). */
module Storage {
  import opened Types

  /** `COLORS`: the palette, in the order colours are handed out. */
  const Colors: seq<string> := [
    "#4CAF50", "#2196F3", "#FF9800", "#9C27B0", "#E91E63",
    "#00BCD4", "#FF5722", "#3F51B5", "#009688", "#FFC107"
  ]

  /** The colours already taken by `members`. */
  function UsedColors(members: seq<TeamMember>): (used: set<string>)
    ensures forall m :: m in members ==> m.color in used
    ensures forall c :: c in used ==> exists m :: m in members && m.color == c
  {
    set m | m in members :: m.color
  }

  /** `i` is the position of the first palette colour not in `used`. */
  predicate FirstUnused(used: set<string>, i: int) {
    && 0 <= i < |Colors|
    && Colors[i] !in used
    && forall j :: 0 <= j < i ==> Colors[j] in used
  }

  /** `getNextColor`: the first free palette colour; once the palette is exhausted,
      the colour at the member count, wrapping around the palette. */
  method GetNextColor(existingMembers: seq<TeamMember>) returns (color: string)
    ensures color in Colors
    ensures (exists i :: 0 <= i < |Colors| && Colors[i] !in UsedColors(existingMembers)) ==>
      exists i :: FirstUnused(UsedColors(existingMembers), i) && color == Colors[i]
    ensures (forall i :: 0 <= i < |Colors| ==> Colors[i] in UsedColors(existingMembers)) ==>
      color == Colors[|existingMembers| % |Colors|]
    ensures |existingMembers| < |Colors| ==> color !in UsedColors(existingMembers)
    ensures existingMembers == [] ==> color == Colors[0]
  {
    var usedColors := UsedColors(existingMembers);
    for i := 0 to |Colors|
      invariant forall j :: 0 <= j < i ==> Colors[j] in usedColors
    {
      if Colors[i] !in usedColors {
        return Colors[i];
      }
    }
    FreeColorWhileRoomLeft(existingMembers);
    return Colors[|existingMembers| % |Colors|];
  }

  /** No two palette entries are the same colour: the second and fourth characters
      already tell them apart. */
  lemma PaletteDistinct()
    ensures |Colors| == 10
    ensures forall i, j :: 0 <= i < j < |Colors| ==> Colors[i] != Colors[j]
  {
    forall i, j | 0 <= i < j < |Colors|
      ensures Colors[i][1] != Colors[j][1] || Colors[i][3] != Colors[j][3]
    {
    }
  }

  /** A duplicate-free sequence has as many distinct elements as entries. */
  lemma {:induction false} DistinctCount(s: seq<string>)
    requires forall i, j :: 0 <= i < j < |s| ==> s[i] != s[j]
    ensures |set c | c in s| == |s|
    decreases |s|
  {
    if s != [] {
      var init := s[..|s| - 1];
      DistinctCount(init);
      assert (set c | c in s) == (set c | c in init) + {s[|s| - 1]} by {
        assert s == init + [s[|s| - 1]];
      }
      assert s[|s| - 1] !in init;
    }
  }

  /** Members never use more colours than there are members. */
  lemma {:induction false} UsedColorsBound(members: seq<TeamMember>)
    ensures |UsedColors(members)| <= |members|
    decreases |members|
  {
    if members != [] {
      var init := members[..|members| - 1];
      UsedColorsBound(init);
      assert UsedColors(members) == UsedColors(init) + {members[|members| - 1].color} by {
        assert members == init + [members[|members| - 1]];
      }
    }
  }

  /** While there are fewer members than palette colours, some palette colour is free. */
  lemma FreeColorWhileRoomLeft(members: seq<TeamMember>)
    ensures |members| < |Colors| ==> exists i :: 0 <= i < |Colors| && Colors[i] !in UsedColors(members)
  {
    if |members| < |Colors| {
      var palette := set c | c in Colors;
      var used := UsedColors(members);
      PaletteDistinct();
      DistinctCount(Colors);
      UsedColorsBound(members);
      DiffCard(palette, used);
      var c :| c in palette - used;
      var i :| 0 <= i < |Colors| && Colors[i] == c;
    }
  }

  /** Removing `b` from `a` leaves at least `|a| - |b|` elements. */
  lemma DiffCard(a: set<string>, b: set<string>)
    ensures |a - b| >= |a| - |b|
  {
    assert a == (a - b) + (a * b);
    assert |a * b| <= |b| by {
      assert b == (a * b) + (b - a);
    }
  }
}
