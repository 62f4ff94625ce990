/** The locally cached image list of `fronted/src/components/ImageList.jsx`.
    New images are merged in front of the stored list and deduplicated by id
    through a JavaScript `Map`: a key keeps the position of its first
    insertion and the value of its last. Local storage is a plain sequence. */
module ImageList {
  import opened Text

  type ImageId = string

  /** The `{ id, name, url }` record the uploader emits and the list keeps. */
  datatype Image = Image(id: ImageId, name: string, url: string)

  function Ids(s: seq<Image>): seq<ImageId> {
    seq(|s|, i requires 0 <= i < |s| => s[i].id)
  }

  predicate UniqueIds(s: seq<Image>) {
    forall i, j :: 0 <= i < j < |s| ==> s[i].id != s[j].id
  }

  /** Position of the first occurrence of `id`. */
  function IndexOf(ids: seq<ImageId>, id: ImageId): (k: nat)
    requires id in ids
    ensures k < |ids| && ids[k] == id
    ensures forall j :: 0 <= j < k ==> ids[j] != id
  {
    if ids[0] == id then 0 else 1 + IndexOf(ids[1..], id)
  }

  /** Position of the last occurrence of `id`. */
  function LastIndexOf(ids: seq<ImageId>, id: ImageId): (k: nat)
    requires id in ids
    ensures k < |ids| && ids[k] == id
    ensures forall j :: k < j < |ids| ==> ids[j] != id
  {
    if ids[|ids| - 1] == id then |ids| - 1 else LastIndexOf(ids[..|ids| - 1], id)
  }

  // ---------------------------------------------------------------------------
  // The Map built by `new Map(xs.map(item => [item.id, item]))`
  // ---------------------------------------------------------------------------

  /** `map.set(x.id, x)` on the Map's values in insertion order: an existing
      key gets the new value in place, a new key goes at the end. */
  function Put(m: seq<Image>, x: Image): seq<Image> {
    var ids := Ids(m);
    if x.id in ids then m[IndexOf(ids, x.id) := x] else m + [x]
  }

  /** The entries of `xs` set one after the other into the Map `m`. */
  function PutAll(m: seq<Image>, xs: seq<Image>): seq<Image>
    decreases |xs|
  {
    if xs == [] then m else Put(PutAll(m, xs[..|xs| - 1]), xs[|xs| - 1])
  }

  /** `Array.from(new Map(xs.map(item => [item.id, item])).values())` */
  function Dedup(xs: seq<Image>): seq<Image> {
    PutAll([], xs)
  }

  /** The merge of the effect: `[...images, ...storedImages]`, deduplicated by id. */
  function Merge(images: seq<Image>, stored: seq<Image>): seq<Image> {
    Dedup(images + stored)
  }

  lemma IdsAppend(a: seq<Image>, b: seq<Image>)
    ensures Ids(a + b) == Ids(a) + Ids(b)
  {
  }

  /** The first occurrence in `a + b` is the one in `a`, or else the one in `b` shifted. */
  lemma IndexOfAppend(a: seq<ImageId>, b: seq<ImageId>, id: ImageId)
    requires id in a + b
    ensures id in a ==> IndexOf(a + b, id) == IndexOf(a, id)
    ensures id !in a ==> id in b && IndexOf(a + b, id) == |a| + IndexOf(b, id)
  {
    if id in a {
      assert (a + b)[IndexOf(a, id)] == id;
    } else {
      var k' := IndexOf(b, id);
      assert (a + b)[|a| + k'] == id;
    }
  }

  /** The last occurrence in `a + b` is the one in `b` shifted, or else the one in `a`. */
  lemma LastIndexOfAppend(a: seq<ImageId>, b: seq<ImageId>, id: ImageId)
    requires id in a + b
    ensures id in b ==> LastIndexOf(a + b, id) == |a| + LastIndexOf(b, id)
    ensures id !in b ==> id in a && LastIndexOf(a + b, id) == LastIndexOf(a, id)
  {
    if id in b {
      assert (a + b)[|a| + LastIndexOf(b, id)] == id;
    } else {
      assert (a + b)[LastIndexOf(a, id)] == id;
    }
  }

  /** Setting a key keeps the key sequence, or appends the new key. */
  lemma PutIds(m: seq<Image>, x: Image)
    ensures Ids(Put(m, x)) == if x.id in Ids(m) then Ids(m) else Ids(m) + [x.id]
  {
    if x.id in Ids(m) {
      var k := IndexOf(Ids(m), x.id);
      assert Ids(m)[k] == m[k].id;
    }
  }

  /** Setting into a Map with unique keys: in place when the key is present,
      appended otherwise; keys stay unique and earlier keys stay where they were. */
  lemma PutFacts(m: seq<Image>, x: Image)
    requires UniqueIds(m)
    ensures forall p :: 0 <= p < |m| && m[p].id == x.id ==> Put(m, x) == m[p := x]
    ensures x.id !in Ids(m) ==> Put(m, x) == m + [x]
    ensures UniqueIds(Put(m, x))
    ensures |m| <= |Put(m, x)|
    ensures forall i :: 0 <= i < |m| ==> Put(m, x)[i].id == m[i].id
  {
    if x.id in Ids(m) {
      var k := IndexOf(Ids(m), x.id);
      assert m[k].id == x.id;
    } else {
      assert forall i :: 0 <= i < |m| ==> Ids(m)[i] == m[i].id;
    }
  }

  /** Setting the entries of `a + b` is setting those of `a`, then those of `b`. */
  lemma {:induction false} PutAllAppend(m: seq<Image>, a: seq<Image>, b: seq<Image>)
    ensures PutAll(m, a + b) == PutAll(PutAll(m, a), b)
    decreases |b|
  {
    if b == [] {
      assert a + b == a;
    } else {
      var b' := b[..|b| - 1];
      assert (a + b)[..|a + b| - 1] == a + b';
      assert (a + b)[|a + b| - 1] == b[|b| - 1];
      PutAllAppend(m, a, b');
    }
  }

  /** Setting more entries keeps the keys unique and the existing keys in place. */
  lemma {:induction false} PutAllExtends(m: seq<Image>, xs: seq<Image>)
    requires UniqueIds(m)
    ensures UniqueIds(PutAll(m, xs))
    ensures |m| <= |PutAll(m, xs)|
    ensures forall i :: 0 <= i < |m| ==> PutAll(m, xs)[i].id == m[i].id
    decreases |xs|
  {
    if xs != [] {
      PutAllExtends(m, xs[..|xs| - 1]);
      PutFacts(PutAll(m, xs[..|xs| - 1]), xs[|xs| - 1]);
    }
  }

  /** `Dedup(xs)` holds exactly the ids of `xs`. */
  lemma {:induction false} DedupIds(xs: seq<Image>)
    ensures forall id :: id in Ids(Dedup(xs)) <==> id in Ids(xs)
    decreases |xs|
  {
    if xs != [] {
      var init, x := xs[..|xs| - 1], xs[|xs| - 1];
      assert xs == init + [x];
      IdsAppend(init, [x]);
      assert Ids(xs) == Ids(init) + [x.id];
      DedupIds(init);
      assert Dedup(xs) == Put(Dedup(init), x);
      PutIds(Dedup(init), x);
    }
  }

  /** The last entry of `xs` decomposed: `Dedup(xs)` is `Dedup(init)` with `x` set. */
  lemma DedupSnoc(xs: seq<Image>)
    requires xs != []
    ensures var init, x := xs[..|xs| - 1], xs[|xs| - 1];
            && xs == init + [x]
            && Ids(xs) == Ids(init) + [x.id]
            && Dedup(xs) == Put(Dedup(init), x)
            && UniqueIds(Dedup(init))
  {
    var init, x := xs[..|xs| - 1], xs[|xs| - 1];
    assert xs == init + [x];
    IdsAppend(init, [x]);
    PutAllExtends([], init);
  }

  /** Each entry of `Dedup(xs)` carries the value of the last occurrence of its id. */
  lemma {:induction false} DedupValues(xs: seq<Image>)
    ensures var r := Dedup(xs);
            forall i :: 0 <= i < |r| ==>
              r[i].id in Ids(xs) && r[i] == xs[LastIndexOf(Ids(xs), r[i].id)]
    decreases |xs|
  {
    if xs != [] {
      var init, x := xs[..|xs| - 1], xs[|xs| - 1];
      DedupSnoc(xs);
      DedupValues(init);
      var r0 := Dedup(init);
      var r := Dedup(xs);
      PutFacts(r0, x);
      assert forall i :: 0 <= i < |r0| ==> Ids(r0)[i] == r0[i].id;
      forall i | 0 <= i < |r|
        ensures r[i].id in Ids(xs) && r[i] == xs[LastIndexOf(Ids(xs), r[i].id)]
      {
        if i < |r0| && r0[i].id != x.id {
          assert r[i] == r0[i];
          LastIndexOfAppend(Ids(init), [x.id], r[i].id);
        } else {
          assert r[i] == x;
          LastIndexOfAppend(Ids(init), [x.id], x.id);
        }
      }
    }
  }

  /** The entries of `Dedup(xs)` are ranked by the first occurrence of their id in `xs`. */
  lemma {:induction false} DedupOrder(xs: seq<Image>)
    ensures forall i :: 0 <= i < |Dedup(xs)| ==> Dedup(xs)[i].id in Ids(xs)
    ensures forall i, j :: 0 <= i < j < |Dedup(xs)| ==>
              IndexOf(Ids(xs), Dedup(xs)[i].id) < IndexOf(Ids(xs), Dedup(xs)[j].id)
    decreases |xs|
  {
    if xs != [] {
      var init, x := xs[..|xs| - 1], xs[|xs| - 1];
      DedupSnoc(xs);
      DedupOrder(init);
      DedupIds(init);
      var r0 := Dedup(init);
      var r := Dedup(xs);
      PutFacts(r0, x);
      assert forall i :: 0 <= i < |r0| ==> Ids(r0)[i] == r0[i].id;
      forall i | 0 <= i < |r| ensures r[i].id in Ids(xs) {
        assert Ids(r)[i] == r[i].id;
        PutIds(r0, x);
      }
      forall i, j | 0 <= i < j < |r|
        ensures IndexOf(Ids(xs), r[i].id) < IndexOf(Ids(xs), r[j].id)
      {
        assert r[i].id == r0[i].id && r0[i].id in Ids(init);
        IndexOfAppend(Ids(init), [x.id], r[i].id);
        if j < |r0| {
          assert r[j].id == r0[j].id && r0[j].id in Ids(init);
          IndexOfAppend(Ids(init), [x.id], r[j].id);
        } else {
          assert r[j] == x && x.id !in Ids(init);
          IndexOfAppend(Ids(init), [x.id], x.id);
        }
      }
    }
  }

  /** One step of setting `b` into `a` while still inside `a`: in place. */
  lemma PutInPlaceStep(a: seq<Image>, b: seq<Image>, j: nat)
    requires UniqueIds(b) && j < |a| <= |b|
    requires forall i :: 0 <= i < |a| ==> a[i].id == b[i].id
    ensures Put(b[..j] + a[j..], b[j]) == b[..j + 1] + a[j + 1..]
  {
    var cur := b[..j] + a[j..];
    forall i | 0 <= i < |cur| ensures cur[i].id == b[i].id {
      if i < j { assert cur[i] == b[i]; } else { assert cur[i] == a[i]; }
    }
    assert UniqueIds(cur);
    PutFacts(cur, b[j]);
    var updated, target := cur[j := b[j]], b[..j + 1] + a[j + 1..];
    assert Put(cur, b[j]) == updated;
    forall i | 0 <= i < |cur| ensures updated[i] == target[i] {
      if i <= j { assert target[i] == b[i]; }
    }
  }

  /** One step of setting `b` into `a` past the end of `a`: appended. */
  lemma PutAppendStep(b: seq<Image>, j: nat)
    requires UniqueIds(b) && j < |b|
    ensures Put(b[..j], b[j]) == b[..j + 1]
  {
    var cur := b[..j];
    PutFacts(cur, b[j]);
    assert b[j].id !in Ids(cur) by {
      forall i | 0 <= i < |cur| ensures Ids(cur)[i] != b[j].id {
        assert cur[i] == b[i];
      }
    }
    assert cur + [b[j]] == b[..j + 1];
  }

  /** Setting the values of a Map `b` that extends `a` (same keys in front,
      unique keys) into `a` gives back `b`. Stated for every prefix of `b`. */
  lemma {:induction false} PutAllPrefixOfExtension(a: seq<Image>, b: seq<Image>, k: nat)
    requires UniqueIds(b) && |a| <= |b|
    requires forall i :: 0 <= i < |a| ==> a[i].id == b[i].id
    requires k <= |b|
    ensures PutAll(a, b[..k]) == if k <= |a| then b[..k] + a[k..] else b[..k]
    decreases k
  {
    if k == 0 {
      assert b[..0] == [];
    } else {
      var j := k - 1;
      assert b[..k][..j] == b[..j];
      assert b[..k][j] == b[j];
      PutAllPrefixOfExtension(a, b, j);
      assert PutAll(a, b[..k]) == Put(PutAll(a, b[..j]), b[j]);
      if j < |a| {
        PutInPlaceStep(a, b, j);
      } else {
        if j == |a| {
          assert b[..j] + a[j..] == b[..j];
        }
        PutAppendStep(b, j);
      }
    }
  }

  // ---------------------------------------------------------------------------
  // Properties of the merge
  // ---------------------------------------------------------------------------

  /** No two entries of the merged list share an id. */
  lemma MergeNoDuplicates(images: seq<Image>, stored: seq<Image>)
    ensures UniqueIds(Merge(images, stored))
  {
    PutAllExtends([], images + stored);
  }

  /** An id is in the merged list exactly when it is among the new images or the stored ones. */
  lemma MergeKeepsEveryId(images: seq<Image>, stored: seq<Image>)
    ensures forall id :: id in Ids(Merge(images, stored)) <==> id in Ids(images) || id in Ids(stored)
  {
    DedupIds(images + stored);
    IdsAppend(images, stored);
  }

  /** Entries are ranked by the first occurrence of their id in
      `images + stored`, so every new image precedes every stored-only one. */
  lemma MergeFirstOccurrenceOrder(images: seq<Image>, stored: seq<Image>)
    ensures forall i :: 0 <= i < |Merge(images, stored)| ==> Merge(images, stored)[i].id in Ids(images + stored)
    ensures forall i, j :: 0 <= i < j < |Merge(images, stored)| ==>
              IndexOf(Ids(images + stored), Merge(images, stored)[i].id)
              < IndexOf(Ids(images + stored), Merge(images, stored)[j].id)
    ensures var r := Merge(images, stored);
            forall i, j :: 0 <= i < |r| && 0 <= j < |r| && r[i].id in Ids(images) && r[j].id !in Ids(images) ==> i < j
  {
    var xs := images + stored;
    var r := Merge(images, stored);
    DedupOrder(xs);
    IdsAppend(images, stored);
    forall i, j | 0 <= i < |r| && 0 <= j < |r| && r[i].id in Ids(images) && r[j].id !in Ids(images)
      ensures i < j
    {
      assert Ids(r)[j] == r[j].id;
      IndexOfAppend(Ids(images), Ids(stored), r[i].id);
      IndexOfAppend(Ids(images), Ids(stored), r[j].id);
      assert i != j;
    }
  }

  /** Each entry carries the value of the last occurrence of its id; an id
      present in the stored list therefore keeps the stored copy. */
  lemma MergeKeepsLastValue(images: seq<Image>, stored: seq<Image>)
    ensures var r := Merge(images, stored);
            forall i :: 0 <= i < |r| ==>
              r[i].id in Ids(images + stored)
              && r[i] == (images + stored)[LastIndexOf(Ids(images + stored), r[i].id)]
    ensures var r := Merge(images, stored);
            forall i :: 0 <= i < |r| && r[i].id in Ids(stored) ==>
              r[i] == stored[LastIndexOf(Ids(stored), r[i].id)]
  {
    var xs := images + stored;
    var r := Merge(images, stored);
    DedupValues(xs);
    IdsAppend(images, stored);
    forall i | 0 <= i < |r| && r[i].id in Ids(stored)
      ensures r[i] == stored[LastIndexOf(Ids(stored), r[i].id)]
    {
      LastIndexOfAppend(Ids(images), Ids(stored), r[i].id);
    }
  }

  /** Setting the values of a Map `b` that extends `a` into `a` gives back `b`. */
  lemma PutAllOfExtension(a: seq<Image>, b: seq<Image>)
    requires UniqueIds(b) && |a| <= |b|
    requires forall i :: 0 <= i < |a| ==> a[i].id == b[i].id
    ensures PutAll(a, b) == b
  {
    PutAllPrefixOfExtension(a, b, |b|);
    assert b[..|b|] == b;
    if |b| == |a| {
      assert a[|b|..] == [];
    }
  }

  /** Merging the same images into an already merged list changes nothing. */
  lemma MergeIdempotent(images: seq<Image>, stored: seq<Image>)
    ensures Merge(images, Merge(images, stored)) == Merge(images, stored)
  {
    var a := Dedup(images);
    var b := Merge(images, stored);
    PutAllAppend([], images, stored);
    assert b == PutAll(a, stored);
    PutAllExtends([], images);
    PutAllExtends(a, stored);
    PutAllAppend([], images, b);
    assert Merge(images, b) == PutAll(a, b);
    PutAllOfExtension(a, b);
  }

  /** An image whose id occurs nowhere else is shown exactly as given. */
  lemma MergeShowsFreshImage(images: seq<Image>, img: Image, stored: seq<Image>)
    requires img.id !in Ids(images) && img.id !in Ids(stored)
    ensures img in Merge(images + [img], stored)
  {
    var front := images + [img];
    var xs := front + stored;
    var r := Merge(front, stored);
    IdsAppend(images, [img]);
    IdsAppend(front, stored);
    MergeKeepsEveryId(front, stored);
    MergeKeepsLastValue(front, stored);
    assert Ids(front)[|images|] == img.id;
    var p :| 0 <= p < |r| && Ids(r)[p] == img.id;
    LastIndexOfAppend(Ids(front), Ids(stored), img.id);
    LastIndexOfAppend(Ids(images), [img.id], img.id);
    assert r[p] == xs[|images|];
  }

  // ---------------------------------------------------------------------------
  // The component
  // ---------------------------------------------------------------------------

  /** What local storage holds under `imageList`, and what the list shows. */
  datatype ListState = ListState(storage: seq<Image>, shown: seq<Image>)

  /** The effect run whenever `images` changes: show what storage holds, and
      when there are new images, write back and show their merge with it. */
  function OnImages(st: ListState, images: seq<Image>): (r: ListState)
    ensures r.shown == r.storage
    ensures UniqueIds(st.storage) ==> UniqueIds(r.shown)
  {
    if |images| > 0 then
      MergeNoDuplicates(images, st.storage);
      var merged := Merge(images, st.storage);
      ListState(merged, merged)
    else
      ListState(st.storage, st.storage)
  }

  /** Without new images the effect shows the stored list and does not rewrite it. */
  lemma NoImagesShowsStored(st: ListState)
    ensures OnImages(st, []) == ListState(st.storage, st.storage)
  {
  }

  /** `handleDelete(id)`: keep every entry with another id, write back, show it. */
  function HandleDelete(st: ListState, id: ImageId): (r: ListState)
    ensures r.storage == r.shown
    ensures forall i :: 0 <= i < |r.shown| ==> r.shown[i].id != id && r.shown[i] in st.shown
    ensures forall i :: 0 <= i < |st.shown| && st.shown[i].id != id ==> st.shown[i] in r.shown
  {
    var keep := (img: Image) => img.id != id;
    FilterKeepsKept(st.shown, keep);
    var kept := Filter(st.shown, keep);
    ListState(kept, kept)
  }

  /** The deletion keeps the relative order of the remaining entries: deleting
      from a concatenation deletes from each part. */
  lemma DeleteKeepsOrder(a: seq<Image>, b: seq<Image>, id: ImageId, storage: seq<Image>)
    ensures HandleDelete(ListState(storage, a + b), id).shown
            == HandleDelete(ListState(storage, a), id).shown + HandleDelete(ListState(storage, b), id).shown
  {
    FilterAppend(a, b, (img: Image) => img.id != id);
  }

  /** Deleting an id nobody has leaves the list as shown. */
  lemma DeleteAbsentIdKeepsList(st: ListState, id: ImageId)
    requires id !in Ids(st.shown)
    ensures HandleDelete(st, id).shown == st.shown
  {
    assert forall i :: 0 <= i < |st.shown| ==> Ids(st.shown)[i] == st.shown[i].id;
    FilterKeepsAll(st.shown, (img: Image) => img.id != id);
  }

  /** An image deleted from the list while it is still among the page's
      uploaded images comes back the next time the effect runs. */
  lemma DeletedImageReturns(st: ListState, images: seq<Image>, id: ImageId)
    requires id in Ids(images)
    ensures id !in Ids(HandleDelete(st, id).shown)
    ensures id in Ids(OnImages(HandleDelete(st, id), images).shown)
  {
    var d := HandleDelete(st, id);
    assert forall i :: 0 <= i < |d.shown| ==> Ids(d.shown)[i] == d.shown[i].id;
    MergeKeepsEveryId(images, d.storage);
  }
}
