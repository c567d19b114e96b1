/** `PopupImagePickerViewModel`: the fetched grid listing and the ordered
    selection, with the invariant the tap keeps between them. */
module PickerViewModel {
  import opened Options
  import opened ImageAssets
  import opened Selection

  datatype Picker<Id, A> = Picker(
    fetchedImages: seq<ImageAsset<Id, A>>,
    selectedImages: seq<ImageAsset<Id, A>>
  )

  /** The enumeration in `fetchImages`: every asset of the platform's listing,
      paired with the identifier generated for it, is wrapped by
      `ImageAsset(asset:)` and appended, in the platform's order. */
  function Fetch<Id, A>(listing: seq<(Id, A)>): (r: seq<ImageAsset<Id, A>>)
    ensures |r| == |listing|
    ensures forall k :: 0 <= k < |r| ==> r[k] == NewImageAsset(listing[k].0, listing[k].1)
  {
    if |listing| == 0 then []
    else
      var last := listing[|listing| - 1];
      Fetch(listing[..|listing| - 1]) + [NewImageAsset(last.0, last.1)]
  }

  /** No grid entry carries a selection rank. */
  predicate AllUnselected<Id, A>(fetched: seq<ImageAsset<Id, A>>) {
    forall k :: 0 <= k < |fetched| ==> fetched[k].assetIndex == Unselected
  }

  /** The state invariant: grid identifiers are distinct and unranked; the
      selection is ranked by position, has no duplicate identifier and only
      holds identifiers of the grid. */
  predicate Valid<Id(==), A>(p: Picker<Id, A>) {
    && IdsDistinct(p.fetchedImages)
    && AllUnselected(p.fetchedImages)
    && RanksMatchPositions(p.selectedImages)
    && IdsDistinct(p.selectedImages)
    && IdSet(p.selectedImages) <= IdSet(p.fetchedImages)
  }

  /** Showing the picker builds a fresh view model: the fetched listing and
      an empty selection. */
  function Present<Id(==), A>(listing: seq<(Id, A)>): (r: Picker<Id, A>)
    ensures |r.fetchedImages| == |listing| && AllUnselected(r.fetchedImages)
    ensures forall k :: 0 <= k < |listing| ==> r.fetchedImages[k] == NewImageAsset(listing[k].0, listing[k].1)
    ensures forall k :: 0 <= k < |r.fetchedImages| ==> r.fetchedImages[k].thumbnail.None?
    ensures r.selectedImages == [] && !ConfirmEnabled(r.selectedImages)
    ensures (forall a, b :: 0 <= a < b < |listing| ==> listing[a].0 != listing[b].0) ==> Valid(r)
  {
    Picker(Fetch(listing), [])
  }

  /** The tap on a grid cell holding `tapped`. Only the selection changes:
      the grid list, including the tapped cell's own value, is untouched. */
  function Tap<Id(==), A>(p: Picker<Id, A>, tapped: ImageAsset<Id, A>): (r: Picker<Id, A>)
    ensures r.fetchedImages == p.fetchedImages
    ensures Contains(p.selectedImages, tapped.id) <==> |r.selectedImages| < |p.selectedImages|
    ensures !Contains(p.selectedImages, tapped.id)
        ==> r.selectedImages == p.selectedImages + [tapped.(assetIndex := |p.selectedImages|)]
    ensures IdsDistinct(p.selectedImages) ==> (Contains(r.selectedImages, tapped.id) <==> !Contains(p.selectedImages, tapped.id))
    ensures IdSet(r.selectedImages) - {tapped.id} == IdSet(p.selectedImages) - {tapped.id}
    ensures RanksMatchPositions(p.selectedImages) ==> RanksMatchPositions(r.selectedImages)
  {
    ToggleKeepsOtherIds(p.selectedImages, tapped);
    p.(selectedImages := Toggle(p.selectedImages, tapped))
  }

  /** Tapping a cell of the grid keeps the invariant. */
  lemma TapPreservesValid<Id, A>(p: Picker<Id, A>, k: int)
    requires Valid(p)
    requires 0 <= k < |p.fetchedImages|
    ensures Valid(Tap(p, p.fetchedImages[k]))
  {
    var tapped := p.fetchedImages[k];
    var r := Tap(p, tapped);
    forall id | id in IdSet(r.selectedImages)
      ensures id in IdSet(p.fetchedImages)
    {
      if id == tapped.id {
        assert p.fetchedImages[k].id == id;
      } else {
        ContainsIffInIdSet(r.selectedImages, id);
        ToggleKeepsOthers(p.selectedImages, tapped, id);
        ContainsIffInIdSet(p.selectedImages, id);
      }
    }
  }

  /** The selection never holds more entries than the grid. */
  lemma SelectionBounded<Id, A>(p: Picker<Id, A>)
    requires Valid(p)
    ensures |p.selectedImages| <= |p.fetchedImages|
  {
    DistinctIdSetSize(p.selectedImages);
    DistinctIdSetSize(p.fetchedImages);
    assert |IdSet(p.selectedImages)| <= |IdSet(p.fetchedImages)| by {
      SubsetCardinality(IdSet(p.selectedImages), IdSet(p.fetchedImages));
    }
  }

  /** With an empty grid the confirm button can never be enabled. */
  lemma EmptyGridDisablesConfirm<Id, A>(p: Picker<Id, A>)
    requires Valid(p)
    requires p.fetchedImages == []
    ensures !ConfirmEnabled(p.selectedImages)
  {
    SelectionBounded(p);
  }

  /** The thumbnail callback of a cell that appeared without one: the image
      lands in that grid entry only. The selection, including any copy of
      the same asset taken before the image arrived, is untouched, and so is
      every rank. */
  function ThumbnailLoaded<Id(==), A>(p: Picker<Id, A>, k: int, image: Thumbnail): (r: Picker<Id, A>)
    requires 0 <= k < |p.fetchedImages|
    ensures r.selectedImages == p.selectedImages
    ensures |r.fetchedImages| == |p.fetchedImages|
    ensures forall j :: 0 <= j < |r.fetchedImages| && j != k ==> r.fetchedImages[j] == p.fetchedImages[j]
    ensures r.fetchedImages[k] == p.fetchedImages[k].(thumbnail := Some(image))
    ensures Valid(p) ==> Valid(r)
  {
    var fetched := p.fetchedImages[k := p.fetchedImages[k].(thumbnail := Some(image))];
    assert IdSet(fetched) == IdSet(p.fetchedImages) by {
      assert forall j :: 0 <= j < |fetched| ==> fetched[j].id == p.fetchedImages[j].id;
    }
    p.(fetchedImages := fetched)
  }

  /** The walk-through of a three-photo grid: select A, select C, deselect A.
      C is renumbered from 1 to 0 and confirm returns C's asset only. */
  lemma SelectDeselectScenario<Id, A>(ia: Id, ib: Id, ic: Id, a: A, b: A, c: A)
    requires ia != ib && ib != ic && ia != ic
    ensures var p0: Picker<Id, A> := Present([(ia, a), (ib, b), (ic, c)]);
            var itemA := p0.fetchedImages[0];
            var itemC := p0.fetchedImages[2];
            var p1 := Tap(p0, itemA);
            var p2 := Tap(p1, itemC);
            var p3 := Tap(p2, itemA);
            && p1.selectedImages == [itemA.(assetIndex := 0)]
            && p2.selectedImages == [itemA.(assetIndex := 0), itemC.(assetIndex := 1)]
            && p3.selectedImages == [itemC.(assetIndex := 0)]
            && Confirm(p3.selectedImages) == [c]
  {
    var p0: Picker<Id, A> := Present([(ia, a), (ib, b), (ic, c)]);
    var itemA := p0.fetchedImages[0];
    var itemC := p0.fetchedImages[2];
    var p1 := Tap(p0, itemA);
    var p2 := Tap(p1, itemC);
    assert IsFirstMatch(p2.selectedImages, ia, 0);
    ToggleRemovesFirstMatch(p2.selectedImages, itemA, 0);
  }
}
