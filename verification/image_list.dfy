/**
 * The working list of images on the converter page and every way it changes:
 * append after an upload or a drop, remove, replace after a crop, and
 * reorder after a drag. A blob URL is the identity of an entry: it is the
 * React key, the sortable id and what `findIndex` compares.
 */
module ImageList {
  import opened Wrappers
  import opened Seqs
  import opened Sortable
  import JsStrings

  /** A `blob:` URL minted by `URL.createObjectURL`; its serial is what makes each one new. */
  datatype Url = BlobUrl(serial: nat)

  /** A file as the picker, a drop or the cropper hands it over: its MIME type and its bytes. */
  datatype File = File(mime: string, data: seq<int>)

  /**
   * The page state together with the browser's URL registry: `images` is the
   * list shown and converted, `blobs` holds every URL minted so far with the
   * blob behind it, `next` is the serial the next URL gets, and `revoked`
   * holds the URLs passed to `URL.revokeObjectURL`.
   */
  datatype Session = Session(images: seq<Url>, blobs: map<Url, File>, next: nat, revoked: set<Url>)

  /** The page as it first renders: no images, nothing minted. */
  function Initial(): Session {
    Session([], map[], 0, {})
  }

  /**
   * What the page keeps true: no URL is listed twice, every listed URL is
   * minted and still usable, and no URL is minted twice.
   */
  ghost predicate Valid(s: Session) {
    && Distinct(s.images)
    && (forall u :: u in s.images ==> u in s.blobs && u !in s.revoked)
    && (forall u :: u in s.blobs ==> u.serial < s.next)
    && s.revoked <= s.blobs.Keys
  }

  lemma InitialValid()
    ensures Valid(Initial())
  {
  }

  /** `URL.createObjectURL(f)`: registers `f` under a URL the registry has never handed out. */
  function CreateObjectUrl(s: Session, f: File): (r: (Url, Session))
    ensures r.0 in r.1.blobs && r.1.blobs[r.0] == f
    ensures Valid(s) ==> r.0 !in s.blobs && Valid(r.1)
    ensures Valid(s) ==> r.1.blobs.Keys == s.blobs.Keys + {r.0}
    ensures Valid(s) ==> forall u :: u in s.blobs ==> r.1.blobs[u] == s.blobs[u]
    ensures r.1.images == s.images && r.1.revoked == s.revoked
  {
    var u := BlobUrl(s.next);
    (u, s.(blobs := s.blobs[u := f], next := s.next + 1))
  }

  /** `files.map(f => URL.createObjectURL(f))`: one new URL per file, in file order. */
  function CreateObjectUrls(s: Session, files: seq<File>): (r: (seq<Url>, Session))
    ensures |r.0| == |files|
    ensures r.1.images == s.images && r.1.revoked == s.revoked
    ensures Valid(s) ==> Valid(r.1) && Distinct(r.0)
    ensures Valid(s) ==> forall j :: 0 <= j < |files| ==> r.0[j] !in s.blobs
    ensures Valid(s) ==> forall j :: 0 <= j < |files| ==> r.0[j] in r.1.blobs && r.1.blobs[r.0[j]] == files[j]
    ensures Valid(s) ==> forall u :: u in s.blobs ==> u in r.1.blobs && r.1.blobs[u] == s.blobs[u]
    ensures Valid(s) ==> forall u :: u in r.1.blobs ==> u in s.blobs || u in r.0
    decreases |files|
  {
    if |files| == 0 then ([], s)
    else
      var (u, t) := CreateObjectUrl(s, files[0]);
      var (us, t') := CreateObjectUrls(t, files[1..]);
      ([u] + us, t')
  }

  /** The blob `imageCompression` resolves to, or the original file when it throws. */
  function CompressOrKeep(compress: File -> Option<File>, f: File): File {
    compress(f).GetOr(f)
  }

  /**
   * `handleCompressedFiles`: compress every file, mint a URL for every result
   * and append the URLs to the list, in file order.
   */
  function AddFiles(s: Session, files: seq<File>, compress: File -> Option<File>): (r: Session)
    ensures |r.images| == |s.images| + |files|
    ensures r.images[..|s.images|] == s.images
    ensures r.revoked == s.revoked
    ensures Valid(s) ==> Valid(r)
  {
    var compressed := seq(|files|, j requires 0 <= j < |files| => CompressOrKeep(compress, files[j]));
    var (urls, t) := CreateObjectUrls(s, compressed);
    var r := t.(images := s.images + urls);
    assert r.images[..|s.images|] == s.images;
    assert Valid(s) ==> Valid(r) by {
      if Valid(s) {
        DistinctConcat(s.images, urls);
      }
    }
    r
  }

  /**
   * Every appended URL is one the registry never handed out before, and it
   * holds the compressed counterpart of the file at the same place.
   */
  lemma AddFilesAppendsFresh(s: Session, files: seq<File>, compress: File -> Option<File>)
    requires Valid(s)
    ensures var r := AddFiles(s, files, compress);
      forall j :: 0 <= j < |files| ==>
        var u := r.images[|s.images| + j];
        u !in s.blobs && u in r.blobs && r.blobs[u] == CompressOrKeep(compress, files[j])
  {
    var compressed := seq(|files|, j requires 0 <= j < |files| => CompressOrKeep(compress, files[j]));
    var (urls, t) := CreateObjectUrls(s, compressed);
    var r := AddFiles(s, files, compress);
    assert r.images == s.images + urls;
    forall j | 0 <= j < |files|
      ensures r.images[|s.images| + j] == urls[j]
    {
    }
  }

  /** `handleImageUpload`: nothing chosen leaves the list alone, otherwise every chosen file is added. */
  function Upload(s: Session, files: seq<File>, compress: File -> Option<File>): (r: Session)
    ensures |files| == 0 ==> r == s
    ensures |r.images| == |s.images| + |files|
    ensures r.images[..|s.images|] == s.images
    ensures Valid(s) ==> Valid(r)
  {
    if |files| == 0 then s else AddFiles(s, files, compress)
  }

  /** The drop filter: the file's MIME type starts with `image/`. */
  predicate IsImageFile(f: File) {
    JsStrings.StartsWith(f.mime, "image/")
  }

  /** `files.filter(file => file.type.startsWith('image/'))` */
  function ImageFiles(files: seq<File>): (r: seq<File>)
    ensures |r| <= |files|
    ensures forall f :: f in r <==> f in files && IsImageFile(f)
    decreases |files|
  {
    if |files| == 0 then []
    else (if IsImageFile(files[0]) then [files[0]] else []) + ImageFiles(files[1..])
  }

  /** The filter keeps relative order: filtering a concatenation filters each part. */
  lemma {:induction false} ImageFilesConcat(a: seq<File>, b: seq<File>)
    ensures ImageFiles(a + b) == ImageFiles(a) + ImageFiles(b)
    decreases |a|
  {
    if |a| == 0 {
      assert a + b == b;
    } else {
      assert (a + b)[1..] == a[1..] + b;
      ImageFilesConcat(a[1..], b);
    }
  }

  /** A drop made only of images keeps every file, in order. */
  lemma {:induction false} ImageFilesKeepsImages(files: seq<File>)
    requires forall k :: 0 <= k < |files| ==> IsImageFile(files[k])
    ensures ImageFiles(files) == files
    decreases |files|
  {
    if |files| > 0 {
      ImageFilesKeepsImages(files[1..]);
    }
  }

  /** `handleDrop`: only image files are added; a drop without one leaves the list alone. */
  function Drop(s: Session, files: seq<File>, compress: File -> Option<File>): (r: Session)
    ensures ImageFiles(files) == [] ==> r == s
    ensures |r.images| == |s.images| + |ImageFiles(files)|
    ensures r.images[..|s.images|] == s.images
    ensures Valid(s) ==> Valid(r)
  {
    var kept := ImageFiles(files);
    if |kept| == 0 then s else AddFiles(s, kept, compress)
  }

  /** Each image file of a drop, in drop order, gets a URL of its own holding its compressed blob. */
  lemma DropAppendsFresh(s: Session, files: seq<File>, compress: File -> Option<File>)
    requires Valid(s)
    ensures var r := Drop(s, files, compress);
      var kept := ImageFiles(files);
      forall j :: 0 <= j < |kept| ==>
        var u := r.images[|s.images| + j];
        u !in s.blobs && u in r.blobs && r.blobs[u] == CompressOrKeep(compress, kept[j])
  {
    if |ImageFiles(files)| > 0 {
      AddFilesAppendsFresh(s, ImageFiles(files), compress);
    }
  }

  /**
   * `handleRemoveImage(i)`: revokes the URL at `i` and filters position `i`
   * out. Out of range, `images[i]` is `undefined`, revoking it does nothing
   * and the filter keeps everything.
   */
  function Remove(s: Session, i: int): (r: Session)
    ensures 0 <= i < |s.images| ==> r.images == s.images[..i] + s.images[i + 1..]
    ensures 0 <= i < |s.images| ==> r.revoked == s.revoked + {s.images[i]}
    ensures !(0 <= i < |s.images|) ==> r == s
    ensures r.blobs == s.blobs && r.next == s.next
  {
    var revoked := if 0 <= i < |s.images| then s.revoked + {s.images[i]} else s.revoked;
    s.(images := ExceptIndex(s.images, i), revoked := revoked)
  }

  /** Removing releases exactly the removed URL, which leaves the list, and keeps the page valid. */
  lemma RemoveReleases(s: Session, i: int)
    requires Valid(s)
    requires 0 <= i < |s.images|
    ensures var r := Remove(s, i);
      && Valid(r)
      && s.images[i] !in r.images
      && s.images[i] in r.revoked && s.images[i] !in s.revoked
      && multiset(r.images) + multiset{s.images[i]} == multiset(s.images)
  {
    var r := Remove(s, i);
    var x := s.images[i];
    assert s.images == s.images[..i] + [x] + s.images[i + 1..];
    ExceptIndexShifts(s.images, i);
    forall k | 0 <= k < |r.images|
      ensures r.images[k] != x && r.images[k] in s.images
    {
      assert r.images[k] == s.images[if k < i then k else k + 1];
    }
    forall a, b | 0 <= a < b < |r.images|
      ensures r.images[a] != r.images[b]
    {
      assert r.images[a] == s.images[if a < i then a else a + 1];
      assert r.images[b] == s.images[if b < i then b else b + 1];
    }
  }

  /**
   * `handleUpdateImage(i, src)`: position `i` now shows `src`; nothing is
   * revoked, so the URL it replaces stays registered.
   */
  function Update(s: Session, i: int, src: Url): (r: Session)
    ensures |r.images| == |s.images|
    ensures 0 <= i < |s.images| ==> r.images[i] == src
    ensures forall j :: 0 <= j < |s.images| && j != i ==> r.images[j] == s.images[j]
    ensures r.revoked == s.revoked && r.blobs == s.blobs && r.next == s.next
  {
    s.(images := ReplaceIndex(s.images, i, src))
  }

  /**
   * A confirmed crop: the cropped blob gets a URL of its own, which then
   * replaces the entry at `i`. A crop that produced no blob changes nothing.
   */
  function Crop(s: Session, i: int, cropped: Option<File>): (r: Session)
    ensures cropped.None? ==> r == s
    ensures |r.images| == |s.images| && r.revoked == s.revoked
    ensures forall j :: 0 <= j < |s.images| && j != i ==> r.images[j] == s.images[j]
    ensures Valid(s) ==> Valid(r)
    ensures Valid(s) && cropped.Some? && 0 <= i < |s.images| ==>
              r.images[i] !in s.blobs && r.blobs[r.images[i]] == cropped.value
  {
    match cropped
    case None => s
    case Some(f) =>
      var (u, t) := CreateObjectUrl(s, f);
      var r := Update(t, i, u);
      assert Valid(s) ==> Valid(r) by {
        if Valid(s) {
          forall a, b | 0 <= a < b < |r.images|
            ensures r.images[a] != r.images[b]
          {
            if a != i && b != i {
              assert r.images[a] == s.images[a] && r.images[b] == s.images[b];
            } else if a == i {
              assert r.images[b] == s.images[b];
            } else {
              assert r.images[a] == s.images[a];
            }
          }
          forall v | v in r.images
            ensures v in r.blobs && v !in r.revoked
          {
            var k :| 0 <= k < |r.images| && r.images[k] == v;
            if k != i {
              assert s.images[k] == v;
            }
          }
        }
      }
      r
  }

  /**
   * A crop gives the entry a new identity and leaks the old one: the
   * replaced URL leaves the list but is never revoked.
   */
  lemma CropLeaksOldUrl(s: Session, i: int, f: File)
    requires Valid(s)
    requires 0 <= i < |s.images|
    ensures var r := Crop(s, i, Some(f));
      && r.images[i] != s.images[i]
      && s.images[i] !in r.images
      && s.images[i] in r.blobs && s.images[i] !in r.revoked
  {
  }

  /**
   * `handleDragEnd`: nothing happens when an item is dropped on itself;
   * otherwise the dragged URL moves to the position of the one it was
   * dropped on. A drop outside every item (`over === null`) throws on
   * `over.id` before the list is touched.
   */
  function DragEnd(images: seq<Url>, active: Url, over: Option<Url>): (r: seq<Url>)
    requires active in images
    requires over.Some? ==> over.value in images
    ensures over.None? || over.value == active ==> r == images
    ensures |r| == |images| && multiset(r) == multiset(images)
    ensures over.Some? ==> r[FindIndex(images, over.value)] == active
  {
    match over
    case None => images
    case Some(o) =>
      if active == o then images
      else ArrayMove(images, FindIndex(images, active), FindIndex(images, o))
  }

  /** Reordering keeps every id and keeps them distinct. */
  lemma DragEndPreservesDistinct(images: seq<Url>, active: Url, over: Option<Url>)
    requires active in images
    requires over.Some? ==> over.value in images
    requires Distinct(images)
    ensures Distinct(DragEnd(images, active, over))
  {
    if over.Some? && over.value != active {
      ArrayMovePreservesDistinct(images, FindIndex(images, active), FindIndex(images, over.value));
    }
  }

  /**
   * A drag is undone by dragging the same item onto whichever item now
   * sits where it started.
   */
  lemma DragEndUndo(images: seq<Url>, active: Url, over: Url)
    requires Distinct(images)
    requires active in images && over in images
    ensures var r := DragEnd(images, active, Some(over));
      DragEnd(r, active, Some(r[FindIndex(images, active)])) == images
  {
    var i := FindIndex(images, active);
    var j := FindIndex(images, over);
    if active != over {
      var r := ArrayMove(images, i, j);
      ArrayMovePreservesDistinct(images, i, j);
      FindIndexOfDistinct(r, j);
      FindIndexOfDistinct(r, i);
      ArrayMoveUndo(images, i, j);
    }
  }

  /** The drag handler on the page state: only the order changes. */
  function Reorder(s: Session, active: Url, over: Option<Url>): (r: Session)
    requires active in s.images
    requires over.Some? ==> over.value in s.images
    ensures r.blobs == s.blobs && r.revoked == s.revoked && r.next == s.next
    ensures multiset(r.images) == multiset(s.images)
    ensures Valid(s) ==> Valid(r)
  {
    var r := s.(images := DragEnd(s.images, active, over));
    assert Valid(s) ==> Valid(r) by {
      if Valid(s) {
        DragEndPreservesDistinct(s.images, active, over);
        forall u | u in r.images
          ensures u in s.images
        {
          assert u in multiset(r.images);
        }
      }
    }
    r
  }

  /**
   * Two images, the first dragged onto the second, then the new first one
   * removed: the originally first image is left, alone, and the other URL
   * is revoked.
   */
  lemma SwapThenRemove(s: Session)
    requires Valid(s) && |s.images| == 2
    ensures var x, y := s.images[0], s.images[1];
      var r := Remove(Reorder(s, x, Some(y)), 0);
      r.images == [x] && y in r.revoked && Valid(r)
  {
    var x, y := s.images[0], s.images[1];
    var t := Reorder(s, x, Some(y));
    assert t.images == [y, x];
    RemoveReleases(t, 0);
  }
}
