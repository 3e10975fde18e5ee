# Image-to-PDF converter: a Dafny model of its core logic

The application is a browser page. The user collects images by upload or by
drag-and-drop, then reorders, crops and removes them. Finally the page turns
the list into a PDF with one image per page. Three pieces of pure logic sit
inside the markup, and this project models and proves each of them:

1. **The image list** (`ImageList`, with `Seqs` and `Sortable`). The working set is a
   list of blob URLs. A URL is the identity of an entry: it serves as React
   key, sortable id and `findIndex` target. The model pairs the list with the
   browser's URL registry: every URL minted so far with its blob, a mint
   counter, and the set of revoked URLs. It models these operations: append
   after upload or drop, the `image/` MIME filter on drop, remove (which
   revokes), replace after a crop (which does not revoke), and reorder through
   `arrayMove`. Every one of them, as the page uses it, keeps one invariant,
   `Valid`: no URL is listed twice, every listed URL is live and not revoked,
   and no URL is minted twice. The page calls `handleUpdateImage` only with
   the URL the cropper has just minted, so `Update` keeps `Valid` through
   `Crop`.
2. **Page layout and assembly** (`Layout`, `PdfBuild`). The letterbox scaling
   and centring of one image on a page is modelled over exact reals. The page
   loop of `createPDF` is a function from the list and a decoder
   (`Url -> Option<Dims>`) to either `Aborted` or the saved document, page by page.
   `createPDF` only reads the list, so `CreatePdf` takes the list as a value
   and no outcome of a build, not even an abort, changes it.
3. **The rename dialog** (`RenameModal`, with `JsStrings`). The edit field
   starts from `currentName.replace('.pdf', '')`, which removes the first
   `.pdf` wherever it occurs. On submit the name is trimmed and must not be blank.

A few facts about the code that the model makes explicit:

- A crop gives the entry a new URL, so its identity changes, and the old URL
  is never revoked (`CropLeaksOldUrl`).
- One image that fails to decode rejects the awaited promise. This aborts the
  whole build and nothing is saved; no image is skipped (`CreatePdf`).
- An empty list is not a build error. The convert button is disabled instead.
  Called directly, the loop saves the single blank page a new document starts
  with (`CreatePdf`, `EnabledConversionHasNoBlankPage`).
- The file is always saved as `converted-images.pdf`. The converter page never
  uses the rename dialog, and nothing appends an extension to a chosen name.
- The rename dialog's effect depends on `[currentName, isOpen]`: text typed
  while the dialog is open survives re-renders, and is discarded when the
  dialog is re-opened or handed a new name (`RenameModal.Render`).
- There is no teardown that revokes every URL.

## Model

| member | source | states |
|---|---|---|
| JsStrings.IndexOf | src/app/components/RenamePDFModal.tsx:18 | The result is present exactly when the pattern occurs, and then it is the leftmost occurrence. |
| JsStrings.RemoveFirst | src/app/components/RenamePDFModal.tsx:18 | Replacing with a string pattern cuts only the leftmost occurrence, wherever it is. Without an occurrence the string is unchanged. With one, it gets shorter by the pattern's length. |
| JsStrings.Trim | src/app/components/RenamePDFModal.tsx:28-32 | The result is a contiguous slice of the input. Everything cut off is ECMAScript whitespace, and the result neither starts nor ends with whitespace. It is empty exactly when the input is all whitespace. |
| JsStrings.TrimIdempotent | src/app/components/RenamePDFModal.tsx:32 | A trimmed name trims to itself. |
| Seqs.FindIndex | src/app/page.tsx:78-79 | Returns -1 exactly when the URL is absent. Otherwise returns the first position holding it. |
| Seqs.FindIndexOfDistinct | src/app/page.tsx:78-79 | In a list without repeats, `findIndex` of the URL at position i is i. |
| Seqs.ExceptIndex | src/app/page.tsx:66 | Filtering position i out gives `a[..i] + a[i+1..]`. For an out-of-range i the list is unchanged. |
| Seqs.ExceptIndexShifts | src/app/page.tsx:66 | Every element after the removed position moves exactly one place forward. |
| Seqs.ReplaceIndex | src/app/page.tsx:70-72 | The map by index keeps the length, puts the new value at i, and keeps every other position. |
| Sortable.ArrayMove | src/app/page.tsx:80 | The move keeps length and multiset, and the moved element lands on the target index. |
| Sortable.ArrayMoveShifts | src/app/page.tsx:80 | Position by position, the move matches an independent index map: the moved element lands on the target, the passed-over elements shift by one, and the rest stay. |
| Sortable.MovedFromInjective | src/app/page.tsx:80 | That index map never sends two positions to one. |
| Sortable.ArrayMovePreservesDistinct | src/app/page.tsx:80 | Distinct ids stay distinct after a move. |
| Sortable.ArrayMoveUndo | src/app/page.tsx:80 | Moving the element back from the target to the source restores the original list. |
| Sortable.ArrayMoveInPlace | src/app/page.tsx:80 | Moving an element onto its own position changes nothing. |
| ImageList.InitialValid | src/app/page.tsx:26 | The empty start state satisfies the list invariant. |
| ImageList.CreateObjectUrl | src/app/page.tsx:59 | The minted URL is registered to the given blob and was never minted before. The invariant is kept. |
| ImageList.CreateObjectUrls | src/app/page.tsx:185 | Yields one new URL per file, pairwise distinct and all unseen, each registered to its file in order. Old registrations are kept. |
| ImageList.AddFiles | src/app/page.tsx:168-187 | The old list is an unchanged prefix, and exactly one entry is appended per file. Nothing is revoked, and the invariant is kept, so the appended URLs are distinct from each other and from every listed URL. |
| ImageList.AddFilesAppendsFresh | src/app/page.tsx:169-186 | The URL appended for file j was never minted before. It holds file j compressed, or file j itself when compression failed, so the order matches the file order. |
| ImageList.Upload | src/app/page.tsx:39-62 | An empty selection leaves the state unchanged. Otherwise the list grows by one entry per file, behind an unchanged prefix, and stays valid. |
| ImageList.ImageFiles | src/app/page.tsx:141-143 | Keeps exactly the files whose MIME type starts with `image/`. |
| ImageList.ImageFilesConcat | src/app/page.tsx:141-143 | The filter keeps relative order, since filtering `a + b` is filtering a, then b. |
| ImageList.ImageFilesKeepsImages | src/app/page.tsx:141-143 | A drop made only of images is kept whole and in order. |
| ImageList.Drop | src/app/page.tsx:138-146 | A drop without image files leaves the state unchanged. Otherwise the list grows by one entry per image file, behind an unchanged prefix, and stays valid. |
| ImageList.DropAppendsFresh | src/app/page.tsx:141-145 | The entry appended for the j-th image file of a drop is a URL never minted before, holding that file's compressed blob. |
| ImageList.Remove | src/app/page.tsx:64-67 | For an index in range: the list loses exactly that position, and the revoked set grows by exactly that URL. For an index out of range: the state is unchanged. |
| ImageList.RemoveReleases | src/app/page.tsx:64-67 | In a valid state, the removed URL was live, is now revoked and is no longer listed. The multiset loses exactly that URL, and the invariant is kept. |
| ImageList.Update | src/app/page.tsx:69-73 | Keeps the length, puts the new URL at i and keeps all other positions. The revoked set and the registry are unchanged. |
| ImageList.Crop | src/app/components/ImageEditor.tsx:28-44 | A crop without a canvas or blob changes nothing, since the editor only alerts. Otherwise the cropped blob gets a URL that `handleSave` hands to `handleUpdateImage`, and the entry at i gets a URL never seen before, holding the cropped blob. Other positions and the revoked set are unchanged, and the invariant is kept. |
| ImageList.CropLeaksOldUrl | src/app/page.tsx:69-73 | After a crop, the entry's URL differs from before. The old URL is neither listed nor revoked but still registered. |
| ImageList.DragEnd | src/app/page.tsx:75-82 | Dropping an item on itself, or outside every item, is a no-op. Otherwise the list is a permutation with the dragged URL at the drop target's former index. |
| ImageList.DragEndPreservesDistinct | src/app/page.tsx:75-82 | Reordering keeps the ids distinct. |
| ImageList.DragEndUndo | src/app/page.tsx:75-82 | Dragging the same item onto whatever now occupies its old place restores the original order. |
| ImageList.Reorder | src/app/page.tsx:75-82 | Reordering changes only the order. The multiset, registry and revoked set are unchanged, and the invariant is kept. |
| ImageList.SwapThenRemove | src/app/page.tsx:64-82 | With two images: drag the first onto the second, then remove position 0. The originally first image remains alone, and the other is revoked. |
| Layout.Place | src/app/page.tsx:101-116 | The rendered size fits the page, is positive, and preserves the aspect ratio (`w*imgH == h*imgW`). It fills the page width or the page height. Offsets are non-negative and centre the image on both axes. |
| Layout.PlaceIsUniformScale | src/app/page.tsx:101-107 | The size equals the image scaled uniformly by `min(pageW/imgW, pageH/imgH)`. |
| Layout.PlaceIsLargestFit | src/app/page.tsx:101-107 | No uniform scale that still fits the page gives a larger image. |
| Layout.PlaceExamples | src/app/page.tsx:101-116 | On a 595 x 842 page: a 100x200 image gets (87, 0, 421, 842), a 400x100 image gets (0, 346.625, 595, 148.75), and a 300x300 image gets (0, 123.5, 595, 595). |
| PdfBuild.LoopResult | src/app/page.tsx:89-126 | The loop invariant (one page per image so far, page k showing image k) holds to the end. The loop aborts exactly when a later decode fails. |
| PdfBuild.CreatePdf | src/app/page.tsx:84-136 | The build aborts, with no save, exactly when some image fails to decode. Otherwise it saves `converted-images.pdf` with one page per image in list order, page k showing only image k at its letterbox placement. An empty list saves one blank page. |
| PdfBuild.EnabledConversionHasNoBlankPage | src/app/page.tsx:257-259 | Through the enabled button, a saved document has exactly one page per image and one image per page. |
| PdfBuild.SavedPagesFitAndCentre | src/app/page.tsx:112-119 | Every image drawn in a saved document is centred within the page bounds on both axes. |
| RenameModal.EditableName | src/app/components/RenamePDFModal.tsx:18 | The edit field is the name with its first `.pdf` cut out, wherever it is: 4 shorter if `.pdf` occurs, unchanged otherwise. |
| RenameModal.EditableNameExamples | src/app/components/RenamePDFModal.tsx:22 | `a.pdf.pdf` becomes `a.pdf`, and only a second pass gives `a`. `x.pdfy` becomes `xy`. |
| RenameModal.Render | src/app/components/RenamePDFModal.tsx:20-24 | The effect re-runs only when `currentName` or `isOpen` changed since its last run. A render with unchanged props leaves the dialog alone. A closed dialog keeps its field. An open dialog whose props changed re-derives the field from the current name. |
| RenameModal.RenderIdempotent | src/app/components/RenamePDFModal.tsx:20-24 | A second render with the same props changes nothing. |
| RenameModal.TypedTextSurvivesRerender | src/app/components/RenamePDFModal.tsx:20-24 | Text typed while the dialog is open survives a re-render with unchanged props. |
| RenameModal.ReopenDiscardsTypedText | src/app/components/RenamePDFModal.tsx:20-24 | Closing keeps the typed text, and re-opening on the same name replaces it with the edit form of that name. |
| RenameModal.NameChangeWhileOpen | src/app/components/RenamePDFModal.tsx:20-24 | A new name while the dialog is open replaces the typed text with the edit form of the new name. |
| RenameModal.FieldComesFromTypingOrName | src/app/components/RenamePDFModal.tsx:18-24 | After any run of renders and keystrokes, the field holds the starting text, some typed text, or the edit form of some name the dialog was rendered with. |
| RenameModal.Submit | src/app/components/RenamePDFModal.tsx:26-33 | A blank field is rejected, and `onRename` is not called. Otherwise the name passed on is non-empty, a contiguous slice of the field with no surrounding whitespace, and everything cut off is whitespace. |
| RenameModal.RenameRoundTrip | src/app/components/RenamePDFModal.tsx:18-32 | Opening the dialog on `base.pdf`, or handing an open dialog that new name, and submitting unchanged renames to `base`, provided `base` has no `.pdf` and no surrounding whitespace. |

## Left out

- Image compression (`browser-image-compression`) is an asynchronous foreign call. It is a parameter `File -> Option<File>`: `None` means it threw and the original file is kept. One output per input.
- `URL.createObjectURL` and `URL.revokeObjectURL` are a registry of minted URLs plus a revoked set. The blob storage itself is not modelled.
- Image decoding (`onload`/`onerror`) is the decoder parameter of `CreatePdf`. Images of zero width or height are excluded by the `Pixels` type.
- jsPDF internals are not modelled: the A4 size lookup, the `addImage` encoding and the `save` download. The page size is a positive parameter.
- Layout.Place: uses exact real arithmetic, not IEEE-754 doubles. The rounding of the original arithmetic is not modelled, and neither is the division by zero an image without size would cause.
- `Promise.all`, async ordering, React state batching and toasts. The `isGenerating` flag appears only as an input to `ConvertEnabled`. Remove and DragEnd read the rendered list (the URL to revoke, the two `findIndex` results) but update the pending one, and the model treats both as the same list.
- ImageList.DragEnd: requires the dragged and target ids to be in the list, because the sortable context only reports ids of its items, which are the images. The behaviour of `arrayMove` with index -1 is not modelled.
- The crop widget (cropperjs, canvas `toBlob`) only produces the cropped blob or fails. The dark-mode toggle, layout and animation code are markup.
- Strings are sequences of code points, not UTF-16 code units. `trim` and `replace('.pdf', '')` agree on both, because the pattern is ASCII and every whitespace character is in the BMP, but lone surrogates cannot be represented.
