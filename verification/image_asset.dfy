/** The `ImageAsset` record of the picker and the search the picker runs over
    a list of them (`firstIndex(where: { $0.id == tapped.id })`). */
module ImageAssets {
  import opened Options

  /** The rank an asset carries while it is not selected. */
  const Unselected: int := -1

  /** The preview image the platform image manager delivered for a cell.
      Only its identity matters to the picker, so it is an opaque handle. */
  datatype Thumbnail = Thumbnail(handle: nat)

  /** One photo-library entry as the grid holds it: a locally generated
      identifier (`Id`, a UUID string in the app), the platform asset (`A`),
      a lazily loaded thumbnail and the selection rank `assetIndex`. */
  datatype ImageAsset<Id, A> = ImageAsset(
    id: Id,
    asset: A,
    thumbnail: Option<Thumbnail>,
    assetIndex: int
  )

  /** `ImageAsset(asset:)` with every other field at its default: a fresh
      identifier (supplied by the caller), no thumbnail, rank -1. */
  function NewImageAsset<Id, A>(id: Id, asset: A): (r: ImageAsset<Id, A>)
    ensures r.id == id && r.asset == asset
    ensures r.thumbnail.None? && r.assetIndex == Unselected
  {
    ImageAsset(id, asset, None, Unselected)
  }

  /** Some entry of `s` carries identifier `id`. */
  predicate Contains<Id(==), A>(s: seq<ImageAsset<Id, A>>, id: Id) {
    exists k :: 0 <= k < |s| && s[k].id == id
  }

  /** `i` is the position of the first entry of `s` whose identifier is `id`. */
  predicate IsFirstMatch<Id(==), A>(s: seq<ImageAsset<Id, A>>, id: Id, i: int) {
    && 0 <= i < |s|
    && s[i].id == id
    && forall j :: 0 <= j < i ==> s[j].id != id
  }

  /** No two entries of `s` share an identifier. */
  predicate IdsDistinct<Id(==), A>(s: seq<ImageAsset<Id, A>>) {
    forall a, b :: 0 <= a < |s| && 0 <= b < |s| && a != b ==> s[a].id != s[b].id
  }

  /** Every entry's rank equals its position: `s[i].assetIndex == i`. */
  predicate RanksMatchPositions<Id, A>(s: seq<ImageAsset<Id, A>>) {
    forall i :: 0 <= i < |s| ==> s[i].assetIndex == i
  }

  /** The set of identifiers carried by `s`. */
  function IdSet<Id(==), A>(s: seq<ImageAsset<Id, A>>): set<Id> {
    set k | 0 <= k < |s| :: s[k].id
  }

  /** `Contains` is membership in `IdSet`. */
  lemma ContainsIffInIdSet<Id, A>(s: seq<ImageAsset<Id, A>>, id: Id)
    ensures Contains(s, id) <==> id in IdSet(s)
  {
  }

  /** A subset is no larger than its superset; used to compare the id sets of
      the selection and the grid. */
  lemma SubsetCardinality<T>(a: set<T>, b: set<T>)
    requires a <= b
    ensures |a| <= |b|
  {
    assert b == a + (b - a);
  }

  /** Swift's `firstIndex(where: { $0.id == id })`: the position of the first
      entry with identifier `id`, or `None` when there is none. */
  function FirstIndex<Id(==), A>(s: seq<ImageAsset<Id, A>>, id: Id): (r: Option<nat>)
    ensures r.Some? ==> IsFirstMatch(s, id, r.value)
    ensures r.None? <==> !Contains(s, id)
  {
    if |s| == 0 then None
    else if s[0].id == id then Some(0)
    else
      match FirstIndex(s[1..], id)
      case None =>
        assert forall k :: 1 <= k < |s| ==> s[k] == s[1..][k - 1];
        None
      case Some(i) =>
        assert forall j :: 1 <= j < i + 1 ==> s[j] == s[1..][j - 1];
        Some(i + 1)
  }

  /** At most one position is the first match of an identifier. */
  lemma FirstMatchUnique<Id, A>(s: seq<ImageAsset<Id, A>>, id: Id, i: int, j: int)
    requires IsFirstMatch(s, id, i) && IsFirstMatch(s, id, j)
    ensures i == j
  {
  }

  /** `FirstIndex` finds exactly the first match, in both directions. */
  lemma FirstIndexIsFirstMatch<Id, A>(s: seq<ImageAsset<Id, A>>, id: Id, i: int)
    ensures FirstIndex(s, id) == Some(i) <==> IsFirstMatch(s, id, i)
  {
    if IsFirstMatch(s, id, i) {
      assert Contains(s, id);
      FirstMatchUnique(s, id, i, FirstIndex(s, id).value);
    }
  }

  /** In a list without duplicate identifiers, the entry at position `k` is
      the first (and only) match of its own identifier. */
  lemma DistinctFirstMatch<Id, A>(s: seq<ImageAsset<Id, A>>, k: int)
    requires IdsDistinct(s)
    requires 0 <= k < |s|
    ensures IsFirstMatch(s, s[k].id, k)
    ensures FirstIndex(s, s[k].id) == Some(k)
  {
    FirstIndexIsFirstMatch(s, s[k].id, k);
  }

  /** A list without duplicate identifiers has as many identifiers as entries. */
  lemma {:induction false} DistinctIdSetSize<Id, A>(s: seq<ImageAsset<Id, A>>)
    requires IdsDistinct(s)
    ensures |IdSet(s)| == |s|
  {
    if |s| > 0 {
      var t := s[..|s| - 1];
      assert IdsDistinct(t);
      DistinctIdSetSize(t);
      assert IdSet(s) == IdSet(t) + {s[|s| - 1].id};
      assert s[|s| - 1].id !in IdSet(t);
    } else {
      assert IdSet(s) == {};
    }
  }
}
