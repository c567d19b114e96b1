# YYImagePicker selection model

A Dafny model of the selection state machine of YYImagePicker, a popup photo picker.
The picker shows the user's photo library as a grid (`fetchedImages`). It keeps an
ordered list of the photos the user tapped (`selectedImages`). Each entry is an
`ImageAsset`, which holds:

- a locally generated identifier;
- the platform asset;
- an optional thumbnail;
- a selection rank `assetIndex`, which is -1 while the photo is not selected.

Tapping a cell toggles it. If an entry with the cell's identifier is already
selected, the first such entry is removed and every remaining rank is rewritten to
its new position. Otherwise a copy of the cell's value is appended, ranked by the
current length. The cell's badge shows the matching selected entry's rank plus one.
The confirm button hands the caller the selected assets in selection order, and it
is disabled while the selection is empty.

Modules:

- `Options`: the optional value.
- `ImageAssets`: the `ImageAsset` record, the `firstIndex(where:)` search and the
  predicates over lists of entries.
- `Selection`: the toggle, the badge and the confirm projection as pure functions,
  with the lemmas that relate them.
- `TapGesture`: the tap handler written statement by statement (search loop,
  `remove(at:)`, renumbering loop, append). It is proved equal to `Selection.Toggle`.
- `PickerViewModel`: the view model's two lists and the invariant that links them.

The identifier (a UUID string) and the platform asset (`PHAsset`) are type
parameters `Id` and `A`. The thumbnail (`UIImage`) is an opaque `Thumbnail` handle. The platform's photo listing,
with one generated identifier per asset, is a parameter of `PickerViewModel.Fetch`.

Toggling the same cell twice does not always restore the selection:

- If the first tap adds the photo, the second tap restores the selection exactly
  (`ToggleTwiceAfterAdd`).
- If the first tap removes the photo, the second tap puts it back at the END of the
  selection order (`ToggleTwiceAfterRemove`). The selection is restored exactly when
  the photo was the last one selected and its stored copy equals the tapped value
  apart from the rank (`ToggleTwiceRestoresIff`, both directions).

This is what the code does. It is a property of the design, not a defect.

A selected entry is a copy taken at tap time. A thumbnail that arrives later goes
into the grid entry only, not into that copy (`ThumbnailLoaded`). This does not
affect confirm, which reads only the asset.

## Model

| member | source | states |
|---|---|---|
| `ImageAssets.NewImageAsset` | Sources/YYImagePicker/YYImagePicker.swift:6-12 | A new asset keeps the given identifier and platform asset, has no thumbnail, and has rank -1 (unselected). |
| `ImageAssets.FirstIndex` | Sources/YYImagePicker/YYImagePicker.swift:140-142 | The id search returns a position whose entry has the id and no earlier entry has it. It returns none exactly when no entry has the id. |
| `ImageAssets.FirstIndexIsFirstMatch` | Sources/YYImagePicker/YYImagePicker.swift:121-123 | The search returns position `i` if and only if `i` is the first entry with that id. |
| `Selection.RemoveAt` | Sources/YYImagePicker/YYImagePicker.swift:144 | Removing position `i` shortens the list by one; entries before `i` are kept in place and every later entry moves down one position. |
| `Selection.Renumber` | Sources/YYImagePicker/YYImagePicker.swift:145-147 | The renumbering pass keeps the length and every field except the rank. Afterwards every rank equals its position. |
| `Selection.RenumberKeepsRanked` | Sources/YYImagePicker/YYImagePicker.swift:145-147 | Renumbering a list whose ranks already equal their positions changes nothing. |
| `Selection.Toggle` | Sources/YYImagePicker/YYImagePicker.swift:140-153 | A tap removes one entry if the id was selected and adds one otherwise. It keeps "every rank equals its position" and "no duplicate ids". With distinct ids, the tapped id is selected afterwards exactly when it was not selected before. |
| `Selection.ToggleAppendsWhenAbsent` | Sources/YYImagePicker/YYImagePicker.swift:148-152 | Tapping an unselected id appends one copy of the tapped value, ranked by the old length. All earlier entries stay as they were. |
| `Selection.ToggleRemovesFirstMatch` | Sources/YYImagePicker/YYImagePicker.swift:140-146 | Tapping a selected id removes exactly its first match, so the length drops by one. The other entries keep their order and every field except the rank, and each takes its new position as rank. |
| `Selection.ToggleKeepsOthers` | Sources/YYImagePicker/YYImagePicker.swift:140-153 | A tap never changes whether any other id is selected. |
| `Selection.ToggleKeepsOtherIds` | Sources/YYImagePicker/YYImagePicker.swift:140-153 | Apart from the tapped id, a tap leaves the set of selected ids exactly as it was. |
| `Selection.ToggleTwiceAfterAdd` | Sources/YYImagePicker/YYImagePicker.swift:140-153 | If the ranks equal their positions, selecting an unselected photo and tapping it again restores the selection exactly. |
| `Selection.ToggleTwiceAfterRemove` | Sources/YYImagePicker/YYImagePicker.swift:140-153 | Deselecting a photo and tapping it again gives the renumbered rest, with the photo re-appended last at rank length-1. |
| `Selection.ToggleTwiceRestoresIff` | Sources/YYImagePicker/YYImagePicker.swift:140-153 | Deselect-then-reselect restores the selection if and only if the photo was the last one selected and its stored copy equals the tapped value apart from the rank. |
| `Selection.Badge` | Sources/YYImagePicker/YYImagePicker.swift:121-127 | There is no badge exactly when the id is not selected. When the ranks equal their positions, a badge `b` lies in 1..length and the entry at position `b-1` has the id. |
| `Selection.BadgeIsSelectionPosition` | Sources/YYImagePicker/YYImagePicker.swift:121-127 | When the ranks equal their positions and ids are distinct, the entry at position `k` shows badge `k+1`. |
| `Selection.BadgeAfterAdd` | Sources/YYImagePicker/YYImagePicker.swift:121-127 | A newly selected photo shows the next badge number (old length + 1). Every other badge is unchanged. |
| `Selection.BadgeAfterRemove` | Sources/YYImagePicker/YYImagePicker.swift:121-127 | A deselected photo loses its badge. Photos selected before it keep their badge, and photos selected after it drop by one. |
| `Selection.Confirm` | Sources/YYImagePicker/YYImagePicker.swift:64-67 | Confirm returns one asset per selected entry, in selection order. |
| `Selection.ConfirmEnabled` | Sources/YYImagePicker/YYImagePicker.swift:79 | The confirm button is enabled exactly when confirm would return at least one asset. |
| `Selection.ConfirmAfterAdd` | Sources/YYImagePicker/YYImagePicker.swift:64-67 | Selecting a photo appends its asset to the confirm result. |
| `Selection.ConfirmAfterRemove` | Sources/YYImagePicker/YYImagePicker.swift:64-67 | Deselecting a photo removes exactly its asset from the confirm result. The other assets keep their order. |
| `TapGesture.OnTap` | Sources/YYImagePicker/YYImagePicker.swift:137-155 | The statement-level handler (search loop, remove, renumbering loop, or copy-and-append) computes exactly `Toggle`. |
| `PickerViewModel.Fetch` | Sources/YYImagePicker/YYImagePicker.swift:212-215 | The grid holds one new asset per listed platform asset, in the platform's order. Each has rank -1 and no thumbnail. |
| `PickerViewModel.Present` | Sources/YYImagePicker/YYImagePicker.swift:198-203 | A fresh view model has an unranked grid without thumbnails and an empty selection, and confirm is disabled. If the identifiers of the listing are pairwise distinct, the state satisfies the invariant. |
| `PickerViewModel.Tap` | Sources/YYImagePicker/YYImagePicker.swift:137-155 | A tap leaves the grid list untouched, including the tapped cell's own rank. The selection shrinks exactly when the id was selected. |
| `PickerViewModel.TapPreservesValid` | Sources/YYImagePicker/YYImagePicker.swift:137-155 | Tapping a grid cell keeps the invariant: the grid is unranked with distinct ids, and the selection has ranks equal to positions, no duplicate ids, and only grid ids. |
| `PickerViewModel.SelectionBounded` | Sources/YYImagePicker/YYImagePicker.swift:198-199 | Under the invariant, the selection is never longer than the grid. |
| `PickerViewModel.EmptyGridDisablesConfirm` | Sources/YYImagePicker/YYImagePicker.swift:79 | Under the invariant, an empty grid means confirm is disabled. |
| `PickerViewModel.ThumbnailLoaded` | Sources/YYImagePicker/YYImagePicker.swift:52-56 | An arriving thumbnail changes only that grid entry's thumbnail. The selection and all ranks are unchanged, and the invariant is kept. |
| `PickerViewModel.SelectDeselectScenario` | Sources/YYImagePicker/YYImagePicker.swift:140-153 | In a three-photo grid, select A, select C, deselect A: the selection is C with rank 0, and confirm returns C's asset. |

## Left out

- SwiftUI layout, styling, animation and transitions (`body`, the grid cell view, `popupImagePickerView`): these are rendering with no state to model.
- The Photos query in `fetchImages` (hidden assets excluded, user library only, newest first): it is a call into the Photos framework. Its result is the `listing` parameter of `PickerViewModel.Fetch`.
- UUID generation for `id`: the identifiers come with the listing. Their distinctness is assumed where the invariant needs it, because UUIDs are unique.
- The asynchronous thumbnail request (`PHCachingImageManager.requestImage`): only its completion's effect on the state is modelled (`PickerViewModel.ThumbnailLoaded`). Its timing and possible failure are not modelled.
- `handle(assets:completion:)`: it runs a background queue and a fixed 0.5-second delay over a foreign image API. That is concurrency and timing, with no state of the view model.
- The confirm button's label text and the screen-size arithmetic: these are cosmetic and work on floating-point values.
- The `onSelected`/`onEnd` callbacks and dismissal: dismissal throws the view model away, and `PickerViewModel.Present` models the fresh one built on the next showing.
- `Selection.Confirm`: the source uses `compactMap`, but the asset field is not optional, so nothing is ever dropped and the projection is a plain map.
