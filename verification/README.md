# Image server: models and proofs

The image server stores images in two Couchbase collections (metadata and
blobs), renders them to requested sizes, optionally keeps the renderings as new
versions, packs many images into sprite sheets, and receives uploads as
multipart forms.  This project models the parts of it that carry state or
arithmetic and proves what they are for, together with two algorithms of the
bundled ImageMagick that need nothing else from that library.

| file | about |
|---|---|
| `Basics.dfy` | an option type and two integer sizes that several parts use |
| `VersionKeys.dfy`, `ImageCache.dfy` | storage keys, version choice, the meaning of one request, what the stores must satisfy |
| `Answers.dfy` | the answer to a request and its effect on the stores, by positions in the list of versions |
| `CacheRuns.dfy` | any number of requests as step machines over the two stores, in any interleaving |
| `ImageController.dfy` | the single and the batch request handler as programs over mutable stores |
| `SpriteTree.dfy` | the packer's tree as a value; placing as a relation, so that every subnode order is covered; containment and overlap |
| `SpriteGrowth.dfy`, `SpriteGrid.dfy` | completeness of placement, shape of the sheet, counterexamples; tiles of one size |
| `SpritePacker.dfy` | the packer's mutable nodes and tiles, following those relations |
| `MultiPartForm.dfy` | the form parser against a printer for RFC 7578, section 4, and RFC 2046, section 5.1.1 |
| `Worker.dfy` | the command queue as a transition system, and its critical sections as methods |
| `Base64.dfy` | the codec of RFC 4648, section 4, with its buffers |
| `AspectFit.dfy` | scaling a size into a box |
| `ConvexHull.dfy` | the monotone-chain convex hull of an image's foreground |
| `Mwc64x.dfy` | the MWC64X random number generator and its jump-ahead |

## Where the code does not do what its text says

Each of these is a lemma with a concrete input or an exact condition.

* The two leftovers of a placed tile share a corner, so tiles of different sizes
  can overlap (`TilesCanOverlap`).  `OverlapOnlyInCorners` says where overlaps
  can be; its premise about the first tile is needed (`FirstTileMatters`).
* A tile can be left out of the sheet (`TileCanBeLost`).  With the tallest tile
  first, as the sort leaves them because all tiles have one padding, every tile is
  placed if and only if that one fits the initial root in one dimension; otherwise
  it is the only one that is lost (`PlacedExactly`).  A larger tile that comes
  later is placed, since the root has grown (`LargeTileCanBePlaced`).
* A single request that saves a version stores the first `sizeBytes` bytes, and
  that field has 32 bits: the saved answer is the rendered one exactly below
  2^32 bytes (`SavedAnswerExact`).
* Versions of two images can share a storage key if and only if one image key
  goes on after the other one like a version's key, with a size and then an
  extension or nothing (`CollideExactly`, with an instance in `KeysCanCollide`);
  merely beginning with the other key does no harm (`PrefixIsSeparate`).
  Generated image keys have one length, so they never collide (`SameLengthIsSeparate`).
* The comment on `MWC_AddMod64` promises the sum modulo M; with the comparison in
  single precision that holds exactly when `AddModExact` says, which covers every
  M up to 2^63 but not all larger ones (`AddModCanFail`).
* `MWC64X_Skip` agrees with stepping in every state with c < A except one, the
  all-ones state (`SkipIsSteps`).
* The comment in `LexicographicalOrder` speaks of an order of points; the code
  computes an orientation, and that is what is modelled.
* `decode` leaves a zero for every padding character (`Base64.RoundTrip`).
* A form whose boundary consists of dashes only is cut too early, and the first
  value comes back with a trailing line break: parsing undoes printing if and only
  if the boundary has another character or there is no part (`MultiPartForm.RoundTrip`).
* A plain form field is read back if and only if neither its content type nor its
  value contains `filename="` (`FieldIsRead`).  A blank line that runs into the
  line break before the next boundary makes the parser throw, and nothing else
  does (`BrokenExactly`, with a form in `PartCanBreak`).
* In a batch a missing image or a missing blob is a null pointer that the code
  reads through or hands out, where a single request throws (`GetImagesData`).

## Model

| member | source | states |
|---|---|---|
| CacheRuns.CacheIsTransparent | src/image_controller/ImageController.cpp:117-177 | for every set of requests, with any save flags, and every interleaving of their reads and writes of the two stores, a request that finishes has the answer it would have had if nothing was ever saved |
| CacheRuns.FinishedAnswer | src/image_controller/ImageController.cpp:117-177 | what that answer is: for a request for the original its stored bytes, else those of the first version of the wanted size and format, else the original rendered to that size and format; as they are, or as a data URI of the format's MIME type whose text decodes to them |
| Answers.AnswerWithOriginal | src/image_controller/ImageController.cpp:117-177 | the same for one request on any stores, with missing blobs, and with exactly what it writes: nothing, or one version with its key, size, type, file name and byte count |
| Answers.AnswerWithoutOriginal | src/image_controller/ImageController.cpp:122-149 | without an original: a stored version if the request names its format, otherwise the exception or the read through the end iterator; nothing is written |
| Answers.FormOfAnswer | src/image_controller/ImageController.cpp:19-36 | raw bytes if and only if base64 is not wanted; otherwise the text after the MIME type decodes to the bytes and a zero per padding character, or is empty for 2^62 bytes and more |
| CacheRuns.ListedVersionsAreStored | src/repos/ImageStore.cpp:107-126 | at every moment of every such run each version listed in metadata has its blob, with the bytes that belong to its size and format, although updates of the same image may overwrite each other |
| CacheRuns.RunKeepsInvariant | src/repos/ImageStore.cpp:107-126 | the invariant behind both: images keep their initial versions, keys follow from properties, and blobs are written before the metadata that lists them |
| CacheRuns.StepKeepsInvariant | src/image_controller/ImageController.cpp:117-177 | one store access of one request keeps the invariant of the stores and of every other request that is under way |
| CacheRuns.AloneIsAnswered | src/image_controller/ImageController.cpp:117-177 | four steps without interference add up to the sequential meaning of a request, errors included |
| ImageCache.ChooseFromLonger | src/image_controller/ImageController.cpp:181-214 | appending versions changes neither the original nor an exact match; it can only turn a rendering into a stored version of the same size and format |
| ImageCache.FaithfulChoice | src/image_controller/ImageController.cpp:117-177 | whatever versions were saved meanwhile, the choice made from them leads to the answer without saving |
| ImageCache.WriteKeepsFaithful | src/repos/ImageStore.cpp:107-115 | writing the bytes that belong to any size and format of any image disturbs no image, because keys are injective |
| ImageCache.RecordKeepsFaithful | src/repos/ImageStore.cpp:115-126 | listing a version after its bytes were stored keeps an image consistent |
| ImageCache.SavedAnswerExact | src/repos/ImageStore.cpp:107-113 | after saving, the same request has the same answer, as bytes or in base64, if and only if the rendering has fewer than 2^32 bytes |
| VersionKeys.CollideExactly | src/model/Image.cpp:66-88 | for different images, some version of one and some version of the other share a key if and only if one image key looks like a version of the other image |
| VersionKeys.KeysInjective | src/model/Image.cpp:66-88 | equal keys come from the same image, width, height and extension, unless one image key looks like a version of the other image |
| VersionKeys.SameLengthIsSeparate | src/repos/ImageStore.cpp:44-47 | image keys of one length, as they are generated, never share a storage key |
| VersionKeys.KeySpelled | src/model/Image.cpp:70-85 | a storage key is the image key, the size in base ten without leading zeros, and the extension unless it is empty, with the separators of the code |
| VersionKeys.DecimalSpells | src/model/Image.cpp:70-75 | a number is spelled with digits that read in base ten give the number, without a leading zero |
| VersionKeys.SpellingUnique | src/model/Image.cpp:70-75 | there is one such spelling |
| VersionKeys.DecimalInjective | src/model/Image.cpp:70-75 | different sizes are spelled differently |
| VersionKeys.KeysCanCollide | src/model/Image.cpp:70-85 | two images and extensions that share a storage key |
| ImageController.GetImage | src/image_controller/ImageController.cpp:117-177 | result and both stores after a single request, for every input: missing image or blob, no original, exact match, original, rendering with and without saving |
| ImageController.GetImagesData | src/image_controller/ImageController.cpp:40-113 | for any stores and different image keys: one output per image, the answer of its own request or a null pointer, and the stores with exactly those requests' changes; or the failure of the first unresolvable descriptor, or of an unreadable one, with nothing written |
| ImageController.KnownBatchSucceeds | src/image_controller/ImageController.cpp:40-113 | with well-formed stores and known images a batch cannot fail, and every single request has an answer |
| ImageController.ResolveAll | src/image_controller/ImageController.cpp:51-59 | the first loop finds for every descriptor the version a single request would choose, and collects every key the batch has to read; or it stops at the first descriptor without one |
| ImageController.ResolvedExactly | src/image_controller/ImageController.cpp:181-214 | which version and format a batch uses for a descriptor, and whether its bytes are the answer as they are |
| ImageController.ResolvedWithoutOriginal | src/image_controller/ImageController.cpp:181-214 | the same, and the failures, for unknown images and images without an original |
| ImageController.ReadableExactly | src/image_controller/ImageController.cpp:75-88 | a missing blob is passed on as a null pointer exactly when a stored version is wanted as raw bytes |
| ImageController.HandleOne | src/image_controller/ImageController.cpp:70-107 | one turn of the second loop answers as a single request does and saves exactly when that would; it fails exactly when it needs the bytes of a missing blob |
| ImageController.BatchRefinesSingles | src/image_controller/ImageController.cpp:40-113 | for different images, a batch leaves the stores as the single requests do in any order, and each single request has the batch's answer |
| ImageController.OneAfterOthers | src/image_controller/ImageController.cpp:117-177 | a request made after requests for other images answers as if it came first and adds its own change to theirs |
| ImageController.ChangesDetermine | src/image_controller/ImageController.cpp:109-110 | the changes of a set of requests determine both stores, whatever the order |
| ImageController.BatchChanges | src/image_controller/ImageController.cpp:90-110 | a batch changes the saved versions' blobs and metadata entries and nothing else |
| ImageController.ImageStore.SaveImageInstance | src/repos/ImageStore.cpp:107-126 | the version's blob holds the first `sizeBytes` bytes and the image's entry is the given image with the version appended |
| ImageController.ImageStore.FindImages | src/repos/ImageStore.cpp:89-103 | exactly the requested images that exist, under their keys |
| SpritePacker.SpriteNode.Place | src/model/Sprite.cpp:71-110 | for every order of visiting the subnodes: true if and only if some free node below is large enough; then that node gets the tile and its leftovers, the origin is set once, at a place that held no tile; otherwise nothing changes |
| SpritePacker.SpriteNode.Take | src/model/Sprite.cpp:74-101 | the node holds the tile inset by its padding, and the two leftovers cover what remains below and to the right |
| SpritePacker.SpriteNode.GrowToFit | src/model/Sprite.cpp:114-137 | the node grows as the heuristic says and the returned node is the new strip |
| SpritePacker.SpriteNode.Extend | src/model/Sprite.cpp:172-173 | growing and placing in the strip succeeds if and only if the tile fits the root in one dimension; otherwise the tile is untouched |
| SpritePacker.Sprite.Build | src/model/Sprite.cpp:141-177 | for every order the sort may leave: the sheet is the outcome of placing the tiles in turn; a placed tile had its origin set once and sits at a place of its own, any other tile is untouched; the first tile is placed if and only if it fits the initial root in one dimension, and so is every later one that does or that is no taller than the first |
| SpritePacker.PlaceAll | src/model/Sprite.cpp:168-174 | what the loop has achieved after any number of tiles |
| SpritePacker.TileCoversItsPlace | src/model/Sprite.cpp:77-79 | on all four sides the area the tree records for a tile goes beyond the tile itself by exactly its padding, and that area lies inside the sheet |
| SpriteGrowth.SheetOfOneTile | src/model/Sprite.cpp:165-170 | the initial root, and the sheet of a single tile, is the tile with its padding on all sides |
| SpriteGrowth.SplitLosesNothing | src/model/Sprite.cpp:84-98 | every unit cell of a node that takes a tile belongs to the tile with its padding or to a leftover, never to both, and to both leftovers exactly in the corner right of and below the tile |
| SpriteGrowth.GrowthChoice | src/model/Sprite.cpp:114-137 | to the right if the tile is low enough and the sheet does not become wider than high, else down if the tile is narrow enough and the sheet does not become higher than wide, else to the right if possible, else down; with the area of the strip |
| SpritePacker.PlacedStays | src/model/Sprite.cpp:71-110 | placing a tile moves none of those placed before |
| SpriteTree.TilesInsideSheet | src/model/Sprite.cpp:141-177 | for every tile list, padding and subnode order each placed tile's gross rectangle lies inside the final bounds |
| SpriteTree.PlacedKeepsNested | src/model/Sprite.cpp:71-110 | placing keeps every node inside its parent and every tile inside its node |
| SpriteTree.OverlapOnlyInCorners | src/model/Sprite.cpp:84-98 | if the first tile fits the initial root, two tiles share area only if one is under the bottom and the other under the right leftover of one node, and only in that node's lower right corner |
| SpriteTree.WhereTheyPart | src/model/Sprite.cpp:84-98 | the node at which two overlapping tiles' paths part |
| SpriteTree.TileApartFromKids | src/model/Sprite.cpp:84-98 | a tile shares nothing with what is placed below its own node |
| SpriteTree.BuiltKeepsShaped | src/model/Sprite.cpp:141-177 | leftovers stay where their split put them and strips stay disjoint from all earlier areas while the root grows |
| SpriteGrowth.EveryTileIsPlaced | src/model/Sprite.cpp:141-177 | if every tile is no wider or no taller than the first one, the tree holds every tile exactly as often as the list |
| SpriteGrowth.StripHoldsTile | src/model/Sprite.cpp:114-137 | the strip returned for a tile can take it if and only if the tile fits the root in at least one dimension |
| SpriteGrowth.PlacedAddsTile | src/model/Sprite.cpp:71-110 | a successful placement adds this tile once and loses none |
| SpriteGrowth.PlacedExactly | src/model/Sprite.cpp:141-177 | with the tallest tile first, all tiles are placed if and only if that one is no wider or no taller than the initial root; otherwise all but that one are |
| SpriteGrowth.TileCanBeLost | src/model/Sprite.cpp:166-174 | for any two tiles of which the second is wider and taller than the first in the list, a sheet that holds only the first |
| SpriteGrowth.LargeTileCanBePlaced | src/model/Sprite.cpp:166-174 | three tiles, one of which is placed although it is wider and taller than the initial root |
| SpriteGrowth.SheetStaysNearSquare | src/model/Sprite.cpp:114-137 | if the first tile is the widest and tallest, the sheet is less than its width plus height wider than high, and never higher than wide unless it is one first tile high |
| SpriteGrowth.TilesCanOverlap | src/model/Sprite.cpp:84-98 | a list of tiles, tallest first, for which two placed tiles share area |
| SpriteGrowth.FirstTileMatters | src/model/Sprite.cpp:166-166 | without the premise on the first tile, overlaps occur outside the shared corners |
| SpriteGrid.EqualTilesArePacked | src/model/Sprite.cpp:141-177 | any number of tiles of one gross size is placed completely on a grid of cells, with fewer free cells than the last strip holds |
| SpriteGrid.EqualTilesDoNotOverlap | src/model/Sprite.cpp:141-177 | such tiles sit on cells of the grid and never share area |
| SpriteGrid.PackedMore | src/model/Sprite.cpp:168-174 | each further tile keeps the grid, and the sheet grows only when no cell is free |
| SpriteGrid.LinePlaces | src/model/Sprite.cpp:71-110 | inside a strip the next tile takes the next cell, whatever the order of the subnodes |
| MultiPartForm.RoundTrip | src/utils/MultiPartForm.h:48-121 | parsing a printed form gives exactly the parts' names, each with its first part's value, byte for byte and empty values included, if and only if the boundary is not made of dashes only or there is no part |
| MultiPartForm.Framing | src/utils/MultiPartForm.h:48-60 | for every content and nonempty boundary the scanned ranges hold no boundary and, joined by it, rebuild the content up to one final boundary |
| MultiPartForm.FormIsCut | src/utils/MultiPartForm.h:48-60 | a printed form is cut into exactly its parts if and only if the boundary is not made of dashes only |
| MultiPartForm.DashesCut | src/utils/MultiPartForm.h:51-59 | the ranges that are cut out when it is |
| MultiPartForm.ScanWithoutDashes | src/utils/MultiPartForm.h:76-82 | a range that has lost the dashes at its end gives the same name and the value with a line break |
| MultiPartForm.BoundaryFound | src/utils/MultiPartForm.h:51-52 | the search does not find the boundary early, overlapping the dashes or line end before it |
| MultiPartForm.FieldIsRead | src/utils/MultiPartForm.h:84-94 | a plain field, with or without a content type, is read back if and only if neither that nor its value holds the file name marker |
| MultiPartForm.FileIsRead | src/utils/MultiPartForm.h:95-120 | name, file name and data of a file, with or without a content type, are read back whatever bytes the data hold |
| MultiPartForm.BrokenExactly | src/utils/MultiPartForm.h:76-120 | the scanner throws if and only if the blank line after the headers ends in the line break that closes the range |
| MultiPartForm.PartCanBreak | src/utils/MultiPartForm.h:76-120 | a form that makes the parser throw |
| MultiPartForm.FirstPartWins | src/utils/MultiPartForm.h:92-118 | of parts with one name the first is kept |
| MultiPartForm.PrintedParts | src/utils/MultiPartForm.h:66-69 | the headers that parsing undoes, letter by letter |
| MultiPartForm.MultiPartForm.Parse | src/utils/MultiPartForm.h:48-60 | the arguments after parsing any content, or those found before the range that makes the scanner throw |
| MultiPartForm.MultiPartForm.ParseArg | src/utils/MultiPartForm.h:64-121 | the entry one range contributes, or none, or an exception |
| Worker.ExactlyOnePlace | src/couchbase/Worker.cpp:36-148 | in every reachable state a command is in exactly one of queue, batch, handled and refused, once, and the handled ones are the first accepted ones in order |
| Worker.ReachableInvariant | src/couchbase/Worker.cpp:113-148 | in every reachable state: what arrived was accepted until closing and refused from then on, what was accepted is handled, in hand or queued in that order, rejections and skips have a reason, and a sleeping consumer with work to do has a notification coming |
| Worker.StepKeepsInvariant | src/couchbase/Worker.cpp:36-148 | each atomic step of any thread keeps that invariant |
| Worker.HistoriesAreTrue | src/couchbase/Worker.cpp:24-48 | over every run, submitted is what arrived in order, cancelled is what somebody cancelled, and the worker is closed once somebody closed it |
| Worker.CancelledIsSkipped | src/couchbase/Worker.cpp:128-144 | over every run, a command cancelled before it is handled is never sent and never rejected, and one that nobody cancelled is not skipped |
| Worker.BatchIsHandled | src/couchbase/Worker.cpp:128-144 | what is left of a batch is handled in order: never rejected if it was taken before closing, even if the worker is closed meanwhile, and never sent if after |
| Worker.TakenIsNotRejected | src/couchbase/Worker.cpp:118-144 | all that is queued when an open worker turns to its queue is sent or skipped, even if it is closed right after |
| Worker.AfterClose | src/couchbase/Worker.cpp:24-48 | after closing nothing enters the queue and at most the batch in hand is still sent |
| Worker.ReturnedHandledAll | src/couchbase/Worker.cpp:113-148 | when the consumer returns the queue is empty and every accepted command was handled in order, each uncancelled one sent or rejected |
| Worker.ShutdownTerminates | src/couchbase/Worker.cpp:24-32 | until it has returned, a closed worker has a step to take without a spurious wake-up, because no notification is lost; and it takes only finitely many |
| Worker.Worker.Schedule | src/couchbase/Worker.cpp:36-48 | the critical section is the step the runs are made of: queued when open, refused when closed |
| Worker.Worker.TakeBatch | src/couchbase/Worker.cpp:118-129 | the whole queue becomes the batch, or the consumer sleeps |
| Worker.Worker.Drain | src/couchbase/Worker.cpp:128-137 | on closing, every command of the batch is rejected in order unless it was cancelled |
| Base64.RoundTrip | src/utils/base64.cpp:36-131 | any text that differs from the encoding only in ignored characters decodes to the original bytes followed by one zero per padding character |
| Base64.Encode | src/utils/base64.cpp:36-76 | the output is canonical base64 followed only by blanks, or empty for lengths that overflow |
| Base64.EncodedInjective | src/utils/base64.cpp:36-76 | different byte strings have different encodings unless both are too long to be encoded |
| Base64.GuardIsExact | src/utils/base64.cpp:44-46 | the wrap-around test rejects exactly the lengths from 2^62 up, and otherwise the buffer holds the text |
| Base64.QuadSpellsGroup | src/utils/base64.cpp:54-60 | the four characters of a group are the digits of its 24-bit number in base 64 |
| Base64.CanonicalRoundTrip | src/utils/base64.cpp:80-131 | decoding canonical text, group by group |
| Base64.Decode | src/utils/base64.cpp:80-131 | the two scans decode the meaningful characters and ignore the others; empty for incomplete groups and for more than two padding characters |
| Base64.DecodedExactly | src/utils/base64.cpp:80-131 | for any text: the groups of meaningful characters up to the first padded one keep their bits, the rest of the buffer is zero; empty for incomplete groups and for more than two padding characters in that group |
| Base64.EncodedLayout | src/utils/base64.cpp:44-75 | the output has length * 4 / 3 + 4 characters, canonical text and then blanks |
| Base64.DecodeTable | src/utils/base64.cpp:19-32 | the table filled by the loop inverts the alphabet, maps the padding character to zero and everything else to the invalid mark |
| Base64.TableSpellsAlphabet | src/utils/base64.h:28-30 | the encoder's table is the alphabet string |
| AspectFit.FitsTheBox | src/model/Rect.cpp:13-17 | the result stays in the box, equals it in one dimension, and is less than one unit short of the true ratio in the other |
| AspectFit.FitInIntegers | src/model/Rect.cpp:13-17 | the floating formula is a comparison of products and one integer division |
| AspectFit.SheetScalesExactly | src/sprite_controller/SpriteController.cpp:280-298 | a sheet of m times a size fitted to k times that size has exactly that size |
| ConvexHull.TraceConvexHull | lib/ImageMagick/MagickCore/attribute.c:726-760 | for vertices in scan order: every vertex is on or left of every edge, two strictly left-turning arcs from first to last vertex and back, at most 2n points, fewer than 4n orientation tests |
| ConvexHull.PopVertices | lib/ImageMagick/MagickCore/attribute.c:746-748 | popping stops at a strict left turn or at the pass's first vertex, and the edge that will lead to the new vertex leaves all skipped points on its left |
| ConvexHull.AddVertex | lib/ImageMagick/MagickCore/attribute.c:744-758 | the step shared by both passes keeps the chain turning left and enclosing all points met so far |
| ConvexHull.PopKeeps | lib/ImageMagick/MagickCore/attribute.c:746-748 | a popped vertex lies left of the edge that replaces it, with everything its edges enclosed |
| ConvexHull.CrossTransitive | lib/ImageMagick/MagickCore/attribute.c:589-595 | orientation orders the directions of a half plane |
| ConvexHull.NewPointLeft | lib/ImageMagick/MagickCore/attribute.c:744-750 | a pushed point is on or left of every edge already on the chain |
| ConvexHull.ScanForeground | lib/ImageMagick/MagickCore/attribute.c:814-846 | the scan records exactly the foreground pixels of the rows before the first unreadable one, strictly ordered by row and column |
| ConvexHull.GetImageConvexHull | lib/ImageMagick/MagickCore/attribute.c:762-860 | the hull's corners are foreground pixels and every foreground pixel is on or left of every edge |
| Mwc64x.AddModExact | lib/ImageMagick/MagickCore/accelerate-kernels-private.h:614-623 | the sum is right modulo M if and only if it does not wrap or single precision sees that it did |
| Mwc64x.AddModCanFail | lib/ImageMagick/MagickCore/accelerate-kernels-private.h:614-623 | operands and a modulus above 2^63 for which it is wrong |
| Mwc64x.MulMod64 | lib/ImageMagick/MagickCore/accelerate-kernels-private.h:625-641 | the product modulo M, for every first operand and M up to 2^63 |
| Mwc64x.PowMod64 | lib/ImageMagick/MagickCore/accelerate-kernels-private.h:643-657 | the power modulo M |
| Mwc64x.AdvanceMultiplies | lib/ImageMagick/MagickCore/accelerate-kernels-private.h:686-696 | one step multiplies A*x+c by A modulo A*2^32-1 and keeps c below A |
| Mwc64x.AdvanceIsDivision | lib/ImageMagick/MagickCore/accelerate-kernels-private.h:686-696 | the carry comparison makes the new state the two halves of A*x+c |
| Mwc64x.SkipIsSteps | lib/ImageMagick/MagickCore/accelerate-kernels-private.h:659-703 | skipping a distance reaches the state that many steps reach, for every state with c below A but the all-ones one, for which it fails |
| Mwc64x.Generator.Step | lib/ImageMagick/MagickCore/accelerate-kernels-private.h:686-696 | the state after one step |
| Mwc64x.Generator.Skip | lib/ImageMagick/MagickCore/accelerate-kernels-private.h:698-703 | the state after a jump, computed with the modular power and product |

## Left out

- HTTP service, sockets, configuration, sprite CSS and metadata text, colours, file names and MIME types: plumbing or formatting; a MIME type and a version's file name are parameters of the cache model.
- libcouchbase, jsoncpp, OpenCV and Magick++: foreign code. The stores are maps, JSON is a faithful record encoding, the renderer is a deterministic function of the original's size and bytes, the box and the format.
- Failing store writes and timeouts: every access to a store in the cache model succeeds or reports a missing entry.
- `ImageStore::newImage`: it saves the instance and not the keyed copy that `addVersion` returned, so the cache model starts from well-formed stored images instead.
- GetImagesData: does not model repeated image keys in one batch, which collapse in its maps.
- ResolveAll: does not model repeated image keys in one batch, for the same reason.
- CacheIsTransparent: does not model the order in which a batch waits for its own images; each image of a batch is a request of its own, which only allows more interleavings.
- Waiters of `ReadMulti` and `WriteMulti` at shutdown, and what libcouchbase does with a scheduled command: the worker's properties are about the commands handed to it; `lcb_wait` is not part of this model.
- `ThreadPool`: its `async` builds a lock without a mutex, so atomic steps would not be the code's behaviour.
- Build: does not model the sort itself; it is proved for every order of the tiles, which includes every order the comparison allows (that comparison holds of equal tiles both ways, so their order is not determined). Allocation of nodes and shared ownership are not modelled, and sizes are unbounded, so sheets of 2^64 pixels or more are not covered.
- Parse: does not model an empty boundary, for which the recursion of the code does not end.
- MultiPartForm.RoundTrip: does not model boundaries that contain a line break or occur in a part, which RFC 2046 forbids.
- FitsTheBox: does not model the rounding of `double`; sizes with a zero side are left out because the code divides by them.
- FitInIntegers: does not model the rounding of `double`.
- SheetScalesExactly: does not model the rounding of `double`.
- AddModExact: does not model single precision beyond its being monotone; this is all that is needed for moduli up to 2^63.
- GetImageConvexHull: does not model allocation failure; coordinates are integers because they are pixel positions.
- Seeding of MWC64X streams, hexadecimal and MIME helpers, and the rest of the bundled ImageMagick: they would only add easy members.
