/** The tap handler of a grid cell written the way the app runs it: a linear
    `firstIndex` search, `remove(at:)` followed by an `enumerated().forEach`
    pass that rewrites every rank, or a copy with its rank set and appended.
    It is proved to compute exactly the functional `Selection.Toggle`. */
module TapGesture {
  import opened ImageAssets
  import opened Selection

  method OnTap<Id(==), A>(selectedImages: seq<ImageAsset<Id, A>>, imageAsset: ImageAsset<Id, A>)
    returns (updated: seq<ImageAsset<Id, A>>)
    ensures updated == Toggle(selectedImages, imageAsset)
  {
    // linear search for the first entry with the tapped id
    var index := 0;
    while index < |selectedImages| && selectedImages[index].id != imageAsset.id
      invariant 0 <= index <= |selectedImages|
      invariant forall j :: 0 <= j < index ==> selectedImages[j].id != imageAsset.id
    {
      index := index + 1;
    }
    if index < |selectedImages| {
      assert IsFirstMatch(selectedImages, imageAsset.id, index);
      FirstIndexIsFirstMatch(selectedImages, imageAsset.id, index);
      // drop that entry, then rewrite every rank to its position
      updated := selectedImages[..index] + selectedImages[index + 1..];
      ghost var removed := updated;
      var offset := 0;
      while offset < |updated|
        invariant |updated| == |removed|
        invariant 0 <= offset <= |updated|
        invariant forall k :: 0 <= k < offset ==> updated[k] == removed[k].(assetIndex := k)
        invariant forall k :: offset <= k < |updated| ==> updated[k] == removed[k]
      {
        updated := updated[offset := updated[offset].(assetIndex := offset)];
        offset := offset + 1;
      }
      assert updated == Renumber(removed);
    } else {
      assert !Contains(selectedImages, imageAsset.id);
      // append a copy of the tapped value, ranked by the current length
      var newAsset := imageAsset.(assetIndex := |selectedImages|);
      updated := selectedImages + [newAsset];
    }
  }
}
