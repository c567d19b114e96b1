/** The selection state machine of the picker: the tap toggle on the ordered
    list `selectedImages`, the numbered badge a grid cell paints, and the
    projection handed to the caller on confirm. */
module Selection {
  import opened Options
  import opened ImageAssets

  /** `Array.remove(at:)`: the list without its entry at position `i`. */
  function RemoveAt<T>(s: seq<T>, i: int): (r: seq<T>)
    requires 0 <= i < |s|
    ensures |r| == |s| - 1
    ensures forall k :: 0 <= k < i ==> r[k] == s[k]
    ensures forall k :: i <= k < |r| ==> r[k] == s[k + 1]
  {
    s[..i] + s[i + 1..]
  }

  /** The renumbering pass run after a removal: every entry's rank is
      overwritten with its position, all other fields are kept. */
  function Renumber<Id, A>(s: seq<ImageAsset<Id, A>>): (r: seq<ImageAsset<Id, A>>)
    ensures |r| == |s|
    ensures RanksMatchPositions(r)
    ensures forall k :: 0 <= k < |s| ==> r[k] == s[k].(assetIndex := k)
  {
    seq(|s|, k requires 0 <= k < |s| => s[k].(assetIndex := k))
  }

  /** The tap on a grid cell. When an entry with the tapped identifier is
      already selected, the first such entry is removed and the rest are
      renumbered; otherwise a copy of the tapped asset is appended, ranked
      by the current length. */
  function Toggle<Id(==), A>(selected: seq<ImageAsset<Id, A>>, tapped: ImageAsset<Id, A>)
    : (r: seq<ImageAsset<Id, A>>)
    ensures Contains(selected, tapped.id) ==> |r| == |selected| - 1
    ensures !Contains(selected, tapped.id) ==> |r| == |selected| + 1
    ensures RanksMatchPositions(selected) ==> RanksMatchPositions(r)
    ensures IdsDistinct(selected) ==> IdsDistinct(r)
    ensures IdsDistinct(selected) ==> (Contains(r, tapped.id) <==> !Contains(selected, tapped.id))
  {
    match FirstIndex(selected, tapped.id)
    case Some(i) => Renumber(RemoveAt(selected, i))
    case None =>
      var r := selected + [tapped.(assetIndex := |selected|)];
      assert r[|selected|].id == tapped.id;
      r
  }

  /** Tapping an asset that is not selected appends exactly one copy of it,
      ranked by the old length; all earlier entries are untouched. */
  lemma ToggleAppendsWhenAbsent<Id, A>(selected: seq<ImageAsset<Id, A>>, tapped: ImageAsset<Id, A>)
    requires !Contains(selected, tapped.id)
    ensures Toggle(selected, tapped) == selected + [tapped.(assetIndex := |selected|)]
    ensures Toggle(selected, tapped)[|selected|].assetIndex == |selected|
  {
  }

  /** Tapping an asset that is selected removes exactly its first match; the
      other entries keep their relative order and every field but the rank,
      and the rank becomes the new position. */
  lemma ToggleRemovesFirstMatch<Id, A>(selected: seq<ImageAsset<Id, A>>, tapped: ImageAsset<Id, A>, i: int)
    requires IsFirstMatch(selected, tapped.id, i)
    ensures |Toggle(selected, tapped)| == |selected| - 1
    ensures forall k :: 0 <= k < i ==> Toggle(selected, tapped)[k] == selected[k].(assetIndex := k)
    ensures forall k :: i <= k < |selected| - 1 ==> Toggle(selected, tapped)[k] == selected[k + 1].(assetIndex := k)
  {
    FirstIndexIsFirstMatch(selected, tapped.id, i);
  }

  /** A tap never changes whether any OTHER identifier is selected. */
  lemma ToggleKeepsOthers<Id, A>(selected: seq<ImageAsset<Id, A>>, tapped: ImageAsset<Id, A>, other: Id)
    requires other != tapped.id
    ensures Contains(Toggle(selected, tapped), other) <==> Contains(selected, other)
  {
    var r := Toggle(selected, tapped);
    match FirstIndex(selected, tapped.id)
    case Some(i) =>
      ToggleRemovesFirstMatch(selected, tapped, i);
      if Contains(selected, other) {
        var k :| 0 <= k < |selected| && selected[k].id == other;
        if k < i {
          assert r[k].id == other;
        } else {
          assert r[k - 1].id == other;
        }
      }
    case None =>
      if Contains(r, other) {
        var k :| 0 <= k < |r| && r[k].id == other;
        assert k < |selected| && selected[k].id == other;
      }
      if Contains(selected, other) {
        var k :| 0 <= k < |selected| && selected[k].id == other;
        assert r[k].id == other;
      }
  }

  /** The same fact as a set equation: apart from the tapped identifier, a
      tap leaves the set of selected identifiers as it was. */
  lemma ToggleKeepsOtherIds<Id, A>(selected: seq<ImageAsset<Id, A>>, tapped: ImageAsset<Id, A>)
    ensures IdSet(Toggle(selected, tapped)) - {tapped.id} == IdSet(selected) - {tapped.id}
  {
    var r := Toggle(selected, tapped);
    forall id | id != tapped.id
      ensures id in IdSet(r) <==> id in IdSet(selected)
    {
      ToggleKeepsOthers(selected, tapped, id);
      ContainsIffInIdSet(r, id);
      ContainsIffInIdSet(selected, id);
    }
  }

  /** A list whose ranks already match the positions is left alone by the
      renumbering pass. */
  lemma RenumberKeepsRanked<Id, A>(s: seq<ImageAsset<Id, A>>)
    requires RanksMatchPositions(s)
    ensures Renumber(s) == s
  {
    assert forall k :: 0 <= k < |s| ==> s[k].(assetIndex := k) == s[k];
  }

  /** Selecting an asset and tapping it again restores the selection exactly. */
  lemma ToggleTwiceAfterAdd<Id, A>(selected: seq<ImageAsset<Id, A>>, tapped: ImageAsset<Id, A>)
    requires RanksMatchPositions(selected)
    requires !Contains(selected, tapped.id)
    ensures Toggle(Toggle(selected, tapped), tapped) == selected
  {
    var once := Toggle(selected, tapped);
    assert IsFirstMatch(once, tapped.id, |selected|);
    FirstIndexIsFirstMatch(once, tapped.id, |selected|);
    assert RemoveAt(once, |selected|) == selected;
    RenumberKeepsRanked(selected);
  }

  /** Deselecting an asset and tapping it again re-selects it at the END of
      the selection order, ranked last. */
  lemma ToggleTwiceAfterRemove<Id, A>(selected: seq<ImageAsset<Id, A>>, tapped: ImageAsset<Id, A>, i: int)
    requires IdsDistinct(selected)
    requires IsFirstMatch(selected, tapped.id, i)
    ensures Toggle(Toggle(selected, tapped), tapped)
         == Renumber(RemoveAt(selected, i)) + [tapped.(assetIndex := |selected| - 1)]
  {
    FirstIndexIsFirstMatch(selected, tapped.id, i);
    var once := Toggle(selected, tapped);
    assert !Contains(once, tapped.id);
  }

  /** So deselect-then-reselect restores the selection exactly when the asset
      was the last one selected and the tapped value equals the selected
      copy apart from its rank. */
  lemma ToggleTwiceRestoresIff<Id, A>(selected: seq<ImageAsset<Id, A>>, tapped: ImageAsset<Id, A>, i: int)
    requires IdsDistinct(selected) && RanksMatchPositions(selected)
    requires IsFirstMatch(selected, tapped.id, i)
    ensures Toggle(Toggle(selected, tapped), tapped) == selected
        <==> i == |selected| - 1 && selected[i] == tapped.(assetIndex := i)
  {
    ToggleTwiceAfterRemove(selected, tapped, i);
    var n := |selected|;
    var twice := Toggle(Toggle(selected, tapped), tapped);
    var rest := Renumber(RemoveAt(selected, i));
    assert |twice| == n;
    if twice == selected {
      assert twice[n - 1] == tapped.(assetIndex := n - 1);
      assert selected[n - 1].id == tapped.id;
      assert i == n - 1;
    }
    if i == n - 1 && selected[i] == tapped.(assetIndex := i) {
      assert RemoveAt(selected, i) == selected[..n - 1];
      assert RanksMatchPositions(selected[..n - 1]);
      RenumberKeepsRanked(selected[..n - 1]);
      assert selected == selected[..n - 1] + [selected[n - 1]];
    }
  }

  /** The number painted on a grid cell: the rank of the first selected
      entry with the cell's identifier, plus one; no badge when the
      identifier is not selected. */
  function Badge<Id(==), A>(selected: seq<ImageAsset<Id, A>>, id: Id): (r: Option<int>)
    ensures r.None? <==> !Contains(selected, id)
    ensures RanksMatchPositions(selected) && r.Some? ==> 1 <= r.value <= |selected| && selected[r.value - 1].id == id
  {
    match FirstIndex(selected, id)
    case Some(i) => Some(selected[i].assetIndex + 1)
    case None => None
  }

  /** Under the rank invariant the badge of the entry at position `k` is its
      1-based position in selection order. */
  lemma BadgeIsSelectionPosition<Id, A>(selected: seq<ImageAsset<Id, A>>, k: int)
    requires RanksMatchPositions(selected) && IdsDistinct(selected)
    requires 0 <= k < |selected|
    ensures Badge(selected, selected[k].id) == Some(k + 1)
  {
    DistinctFirstMatch(selected, k);
  }

  /** Selecting an asset gives it the next badge number and leaves every
      other badge as it was. */
  lemma BadgeAfterAdd<Id, A>(selected: seq<ImageAsset<Id, A>>, tapped: ImageAsset<Id, A>, other: Id)
    requires RanksMatchPositions(selected)
    requires !Contains(selected, tapped.id)
    requires other != tapped.id
    ensures Badge(Toggle(selected, tapped), tapped.id) == Some(|selected| + 1)
    ensures Badge(Toggle(selected, tapped), other) == Badge(selected, other)
  {
    var once := Toggle(selected, tapped);
    assert IsFirstMatch(once, tapped.id, |selected|);
    FirstIndexIsFirstMatch(once, tapped.id, |selected|);
    match FirstIndex(selected, other)
    case Some(j) =>
      assert IsFirstMatch(once, other, j);
      FirstIndexIsFirstMatch(once, other, j);
    case None =>
  }

  /** Deselecting an asset removes its badge; badges of entries selected
      before it are kept and those selected after it shift down by one. */
  lemma BadgeAfterRemove<Id, A>(selected: seq<ImageAsset<Id, A>>, tapped: ImageAsset<Id, A>, i: int, k: int)
    requires IdsDistinct(selected)
    requires IsFirstMatch(selected, tapped.id, i)
    requires 0 <= k < |selected| && k != i
    ensures Badge(Toggle(selected, tapped), tapped.id).None?
    ensures Badge(Toggle(selected, tapped), selected[k].id) == Some(if k < i then k + 1 else k)
  {
    var once := Toggle(selected, tapped);
    ToggleRemovesFirstMatch(selected, tapped, i);
    var pos := if k < i then k else k - 1;
    assert once[pos].id == selected[k].id;
    BadgeIsSelectionPosition(once, pos);
  }

  /** The confirm action: the selected assets, in selection order. */
  function Confirm<Id, A>(selected: seq<ImageAsset<Id, A>>): (r: seq<A>)
    ensures |r| == |selected|
    ensures forall k :: 0 <= k < |r| ==> r[k] == selected[k].asset
  {
    if |selected| == 0 then [] else [selected[0].asset] + Confirm(selected[1..])
  }

  /** The confirm button is enabled exactly when confirming would hand the
      caller at least one asset. */
  function ConfirmEnabled<Id, A>(selected: seq<ImageAsset<Id, A>>): (r: bool)
    ensures r <==> Confirm(selected) != []
  {
    |selected| > 0
  }

  /** Selecting an asset appends its platform asset to what confirm returns. */
  lemma ConfirmAfterAdd<Id, A>(selected: seq<ImageAsset<Id, A>>, tapped: ImageAsset<Id, A>)
    requires !Contains(selected, tapped.id)
    ensures Confirm(Toggle(selected, tapped)) == Confirm(selected) + [tapped.asset]
  {
  }

  /** Deselecting an asset drops exactly its platform asset from what confirm
      returns, keeping the order of the rest. */
  lemma ConfirmAfterRemove<Id, A>(selected: seq<ImageAsset<Id, A>>, tapped: ImageAsset<Id, A>, i: int)
    requires IsFirstMatch(selected, tapped.id, i)
    ensures Confirm(Toggle(selected, tapped)) == RemoveAt(Confirm(selected), i)
  {
    ToggleRemovesFirstMatch(selected, tapped, i);
  }
}
