# bakabooru in Dafny

bakabooru is an image library ("booru") backend. Users upload images. The web service hashes each upload and rejects duplicates. It reads the image's format and size, asks the AI service for tags and an embedding vector, and saves a catalogue row. The row can then be searched by tags, keyword, numeric ranges, vector similarity or a seeded random order. This project models the logic of those two paths, ingestion and retrieval, together with the small services around them. It then proves what each piece promises.

Each source component is one module in one file:

- `Common`, `Strings`, `Seqs`: shared results and failures, Java string operations (split, trim, ASCII case folding), filtering and stable sorting.
- `ImageEntity`: the image row and its tag relations (`Image.java`).
- `TagTable`: the tag table with find-by-name and find-or-create.
- `Catalogue` and `GalleryImages`: the two `ImageService` revisions, in the `image` and `gallery` modules.
- `ImageInfo`: the format, animation and dimension decisions of `ImageInfo`.
- `FileUtils`: extension extraction and lowercase hex rendering of a digest (section 8 of RFC 4648).
- `ContentType`: the file-suffix to MIME type table of `StorageService`.
- `VectorCodec`: the `[a,b,c]` text form of an embedding column.
- `Settings`: the settings table read through a Redis hash.
- `Auth`: the request interceptor's decision table.
- `SearchService` and `ImageSearch`: the retrieval engine. `SearchService` covers request validation, the sort descriptor, tag parsing and the semantic query. `ImageSearch` covers the compiled conditions, the ordering (distance, field or seeded random key) and the page slice.
- `TaskQueue` and `UploadWorker`: the Redis-backed upload queue and one iteration of the `gallery` module's worker loop.
- `TaskStore` and `UploadQueue`: the older in-memory revision of uploading, in the `upload` module.
- `Tagger`, `TagFlatten`, `TagMatcher`, `SemanticSearch`: the AI service's post-processing. This covers the tagger's index selection and grouping, flattening categories into one map, keyword-to-tag matching, and the semantic query's tag lists.

Outside effects are not modelled as effects. The object store, Redis, the database, ImageIO, the AI HTTP service, the SHA-256 digest, the language model and the text and image encoders appear in one of two forms:
- maps and sequences held in the state;
- parameters: function arguments, or per-call answer records whose fields say what each outside call returned.

## Model

| member | source | states |
|---|---|---|
| Auth.BearerToken | backend/web_service/src/main/java/com/tamakara/bakabooru/config/AuthInterceptor.java:35-37 | a token is read exactly when the Authorization header starts with "Bearer " (such a header always has text), and the header is the prefix followed by the token |
| Auth.PreHandle | backend/web_service/src/main/java/com/tamakara/bakabooru/config/AuthInterceptor.java:27-58 | OPTIONS in any case and whitelisted paths are allowed; with a bearer token the request is allowed exactly when the service validates it; without one it is allowed exactly when the site is initialised and no password is set |
| Auth.RawPrefixWhitelist | backend/web_service/src/main/java/com/tamakara/bakabooru/config/AuthInterceptor.java:17-33 | the whitelist is a raw prefix test, so any path starting "/api/files" is allowed whatever the verb and header |
| Auth.OtherHeaderIsNoToken | backend/web_service/src/main/java/com/tamakara/bakabooru/config/AuthInterceptor.java:35-36 | a header that does not start with "Bearer " gives the same decision as no header at all |
| Auth.RejectedTokenNoFallthrough | backend/web_service/src/main/java/com/tamakara/bakabooru/config/AuthInterceptor.java:38-44 | a rejected bearer token answers 401 even on a site where the same request without a header passes |
| Auth.PasswordGuards | backend/web_service/src/main/java/com/tamakara/bakabooru/config/AuthInterceptor.java:27-58 | once a password is set, every allowed request is a preflight, whitelisted, or carries a validated token |
| Catalogue.ExistImageByHash | backend/web_service/src/main/java/com/tamakara/bakabooru/module/image/service/ImageService.java:78-80 | true exactly when some row carries the hash |
| Catalogue.AddImage | backend/web_service/src/main/java/com/tamakara/bakabooru/module/image/service/ImageService.java:73-76 | the row is stored under a fresh id and nothing else changes; validity, including at most one relation per tag of an image, is kept when the new row links each tag once, and the hash now exists |
| Catalogue.AddImageKeepsUnique | backend/web_service/src/main/java/com/tamakara/bakabooru/module/image/service/ImageService.java:73-80 | saving an image whose hash is not stored keeps the hash column unique |
| Catalogue.FindImage | backend/web_service/src/main/java/com/tamakara/bakabooru/module/image/service/ImageService.java:84-85 | the stored row, or "找不到图片" exactly when the id is absent |
| Catalogue.AddTag | backend/web_service/src/main/java/com/tamakara/bakabooru/module/image/service/ImageService.java:94-101 | a missing image fails first, then a missing tag; a tag the image already has violates the (image_id, tag_id) unique constraint and fails with a data-integrity error; otherwise the call answers exactly when the DTO renders (a missing original fails with "文件不存在: original/<hash>"), and an error leaves the catalogue as it was; on success the image gains one relation (tag, 1.0), no other row, column or tag changes, the only new object is the thumbnail, the DTO shows the saved row, and validity is kept |
| Catalogue.RemoveTagAsWritten | backend/web_service/src/main/java/com/tamakara/bakabooru/module/image/service/ImageService.java:103-112 | as written: a missing image fails, then the DTO's failures (missing original, unreadable size, failed thumbnail); on success the rows are unchanged and the only new object is the thumbnail |
| Catalogue.RemoveTag | backend/web_service/src/main/java/com/tamakara/bakabooru/module/image/service/ImageService.java:103-112 | as intended: it answers exactly when the image exists and its DTO renders; then the image no longer has the tag, keeps every other relation and column, takes on no new relation, no other row changes, the only new object is the thumbnail, and validity is kept |
| Catalogue.RemoveTagAsWrittenKeepsTag | backend/web_service/src/main/java/com/tamakara/bakabooru/module/image/service/ImageService.java:108 | on an image that has the tag, the code as written and the intended removal answer under the same conditions; the first still has the tag afterwards, the second does not |
| Catalogue.RemoveUndoesAddTag | backend/web_service/src/main/java/com/tamakara/bakabooru/module/image/service/ImageService.java:94-112 | removing a tag that was just added succeeds and restores every row; the objects differ only by the thumbnail the DTO may have generated |
| Catalogue.ToDto | backend/web_service/src/main/java/com/tamakara/bakabooru/module/image/mapper/ImageMapper.java:11-15 | the image URL is resolved before the thumbnail URL; the DTO renders exactly when the original exists, the size setting reads and the thumbnail exists or is generated; a missing original fails with "文件不存在: original/<hash>"; on success it carries the row, the original's key and download name and the thumbnail's key, and the only change is the thumbnail object |
| Catalogue.DeleteImage | backend/web_service/src/main/java/com/tamakara/bakabooru/module/image/service/ImageService.java:114-123 | a missing id fails; otherwise exactly the row and its "original/"+hash object are removed |
| Catalogue.DeleteEach | backend/web_service/src/main/java/com/tamakara/bakabooru/module/image/service/ImageService.java:126-135 | deleting in list order up to the first failure: with no failure every listed row is gone; a failure names a listed id that is not stored |
| Catalogue.DeleteImages | backend/web_service/src/main/java/com/tamakara/bakabooru/module/image/service/ImageService.java:126-135 | success removes exactly the listed rows; a failure restores every row (one transaction), keeps the object deletions, and names a listed id; a list of only missing ids fails |
| Catalogue.DeleteDistinctStored | backend/web_service/src/main/java/com/tamakara/bakabooru/module/image/service/ImageService.java:126-135 | a list of distinct stored ids is deleted without failure |
| Catalogue.ImageUrl | backend/web_service/src/main/java/com/tamakara/bakabooru/module/image/service/ImageService.java:40-48 | fails exactly when "original/"+hash is missing; otherwise that key and the name id_title.extension |
| Catalogue.Thumbnail | backend/web_service/src/main/java/com/tamakara/bakabooru/module/image/service/ImageService.java:50-71 | an existing "thumbnail/size/hash" object is reused as is; a missing one is generated and stored, and a failed generation is reported with its message |
| Catalogue.ThumbnailOnce | backend/web_service/src/main/java/com/tamakara/bakabooru/module/image/service/ImageService.java:55 | after one successful call the thumbnail is never generated again |
| ContentType.DetectContentType | backend/web_service/src/main/java/com/tamakara/bakabooru/module/storage/service/StorageService.java:53-56 | a null file name gives "application/octet-stream" |
| ContentType.TableWellFormed | backend/web_service/src/main/java/com/tamakara/bakabooru/module/storage/service/StorageService.java:58-75 | each recognised suffix starts with '.' and has no other '.', and no suffix is tested twice |
| ContentType.ChainIsLookup | backend/web_service/src/main/java/com/tamakara/bakabooru/module/storage/service/StorageService.java:57-77 | the chain of tests on the lower-cased name is the suffix table read in order, first match winning, octet-stream when none matches |
| ContentType.DetectMatchesTable | backend/web_service/src/main/java/com/tamakara/bakabooru/module/storage/service/StorageService.java:53-77 | a name whose lower-cased form ends with a listed suffix (.jpg/.jpeg, .png, .gif, .webp, .bmp, .svg, .ico, .tiff/.tif, .avif) gets that suffix's type whatever the order of tests, and every other name gets octet-stream |
| ContentType.UploadContentType | backend/web_service/src/main/java/com/tamakara/bakabooru/module/storage/service/StorageService.java:31-36 | the probed type when the platform returns one, the guess from the file name otherwise |
| FileUtils.GetExtension | backend/web_service/src/main/java/com/tamakara/bakabooru/utils/FileUtils.java:27-31 | "" for a null name and for a name without '.'; otherwise a suffix that starts with '.', has no other '.', and completes the name |
| FileUtils.HexDigit | backend/web_service/src/main/java/com/tamakara/bakabooru/utils/FileUtils.java:17 | a digit below 16 renders as one lowercase hex character |
| FileUtils.HexValue | backend/web_service/src/main/java/com/tamakara/bakabooru/utils/FileUtils.java:17 | the inverse of the digit rendering |
| FileUtils.Unsigned | backend/web_service/src/main/java/com/tamakara/bakabooru/utils/FileUtils.java:17 | `0xff & b` lies in [0, 256) |
| FileUtils.ToHexString | backend/web_service/src/main/java/com/tamakara/bakabooru/utils/FileUtils.java:17 | `Integer.toHexString` of a byte value has one digit exactly below 16 and otherwise two, the first not '0' |
| FileUtils.ByteHex | backend/web_service/src/main/java/com/tamakara/bakabooru/utils/FileUtils.java:17-19 | each byte renders as exactly two lowercase hex characters whose value is the unsigned byte |
| FileUtils.HexString | backend/web_service/src/main/java/com/tamakara/bakabooru/utils/FileUtils.java:15-21 | the rendering is twice as long as the digest and uses only lowercase hex characters |
| FileUtils.FromUnsigned | backend/web_service/src/main/java/com/tamakara/bakabooru/utils/FileUtils.java:17 | the signed byte whose unsigned reading is the given value |
| FileUtils.ParseHexString | backend/web_service/src/main/java/com/tamakara/bakabooru/utils/FileUtils.java:15-21 | decoding the rendering gives the digest back |
| FileUtils.HexStringInjective | backend/web_service/src/main/java/com/tamakara/bakabooru/utils/FileUtils.java:15-21 | distinct digests render as distinct strings |
| FileUtils.CalculateHash | backend/web_service/src/main/java/com/tamakara/bakabooru/utils/FileUtils.java:11-25 | a read failure becomes "Failed to calculate hash"; otherwise the lowercase, zero-padded hex rendering of the digest, which decodes back to it |
| GalleryImages.FindImage | backend/web_service/src/main/java/com/tamakara/bakabooru/module/gallery/service/ImageService.java:47-48 | found exactly when some row has the id, and then a row with that id; otherwise "找不到图片" |
| GalleryImages.FindByHash | backend/web_service/src/main/java/com/tamakara/bakabooru/module/upload/service/UploadQueueService.java:100 | the first row with the hash, and none exactly when no row has it |
| GalleryImages.AddRow | backend/web_service/src/main/java/com/tamakara/bakabooru/module/upload/service/UploadQueueService.java:170 | a new row takes the next identity value; ids stay unique, and hashes stay unique when the hash was not yet stored |
| GalleryImages.FindImageUnique | backend/web_service/src/main/java/com/tamakara/bakabooru/module/gallery/service/ImageService.java:47-48 | with unique ids the row found by an id is the row stored under it |
| GalleryImages.Put | backend/web_service/src/main/java/com/tamakara/bakabooru/module/gallery/service/ImageService.java:51 | saving a row replaces exactly the rows with its id; nothing else changes |
| GalleryImages.PutKeepsValid | backend/web_service/src/main/java/com/tamakara/bakabooru/module/gallery/service/ImageService.java:51 | saving a stored row keeps ids unique, and the next lookup returns the saved row |
| GalleryImages.GetImage | backend/web_service/src/main/java/com/tamakara/bakabooru/module/gallery/service/ImageService.java:46-54 | only the view count changes: a missing count becomes 1 and a present one grows by one; a missing image is "找不到图片" |
| GalleryImages.GetImageTwice | backend/web_service/src/main/java/com/tamakara/bakabooru/module/gallery/service/ImageService.java:46-54 | two views of a counted image raise its count by two |
| GalleryImages.UpdateImage | backend/web_service/src/main/java/com/tamakara/bakabooru/module/gallery/service/ImageService.java:68-77 | a given title replaces the old one, no title leaves the row as it was, and no other field changes |
| GalleryImages.DeleteImage | backend/web_service/src/main/java/com/tamakara/bakabooru/module/gallery/service/ImageService.java:57-65 | the image is gone, every other row stays, no row is invented, and the stored files are kept |
| GalleryImages.DeleteImages | backend/web_service/src/main/java/com/tamakara/bakabooru/module/gallery/service/ImageService.java:130-138 | every listed id is gone, every unlisted row stays and ids that fail are skipped |
| GalleryImages.DeleteIfPresent | backend/web_service/src/main/java/com/tamakara/bakabooru/module/gallery/service/ImageService.java:132-136 | a failed deletion leaves the gallery as it was; the id is absent afterwards in either case |
| GalleryImages.AddTag | backend/web_service/src/main/java/com/tamakara/bakabooru/module/gallery/service/ImageService.java:104-116 | the image must exist, then the tag must exist by name ("标签不存在，无法添加: " + name); the found tag joins the image's tag set and nothing else changes |
| GalleryImages.RemoveTag | backend/web_service/src/main/java/com/tamakara/bakabooru/module/gallery/service/ImageService.java:119-127 | the image keeps exactly its tags whose id differs; a missing image is "找不到图片" |
| GalleryImages.RemoveUndoesAdd | backend/web_service/src/main/java/com/tamakara/bakabooru/module/gallery/service/ImageService.java:104-127 | removing a tag just added by name restores the image's tags, when no tag of the image shared its id |
| GalleryImages.Pairs | backend/web_service/src/main/java/com/tamakara/bakabooru/module/gallery/service/ImageService.java:89-96 | a (name, category) pair is listed exactly when the tagger's result lists the name under the category |
| GalleryImages.FindOrCreateAll | backend/web_service/src/main/java/com/tamakara/bakabooru/module/gallery/service/ImageService.java:89-96 | the tags collected carry exactly the names of the pairs; a tag that was not stored carries the category of a pair with its name; the table only grows and stays valid |
| GalleryImages.RegenerateTags | backend/web_service/src/main/java/com/tamakara/bakabooru/module/gallery/service/ImageService.java:80-101 | the image's tags become the tags found or created for the tagger's names; a tagger failure or a missing image propagates; no other field changes |
| GalleryImages.Sanitize | backend/web_service/src/main/java/com/tamakara/bakabooru/module/gallery/service/ImageService.java:152 | each of \\ / : * ? " < > \| becomes '_' and every other character stays; the length is kept |
| GalleryImages.SanitizeIdempotent | backend/web_service/src/main/java/com/tamakara/bakabooru/module/gallery/service/ImageService.java:152 | a title without reserved characters is kept, so sanitising twice is sanitising once |
| GalleryImages.ZipEntries | backend/web_service/src/main/java/com/tamakara/bakabooru/module/gallery/service/ImageService.java:140-163 | nothing is written exactly when no id names an image; otherwise one entry "title_id.extension" per named image whose file exists |
| ImageEntity.NewImage | backend/web_service/src/main/java/com/tamakara/bakabooru/module/image/entity/Image.java:52-61 | a new image has no views and no tag relations |
| ImageEntity.GetTags | backend/web_service/src/main/java/com/tamakara/bakabooru/module/image/entity/Image.java:71-79 | one view per relation, nothing added or lost, in ascending order of score |
| ImageEntity.AddTag | backend/web_service/src/main/java/com/tamakara/bakabooru/module/image/entity/Image.java:81-84 | one relation to the tag with the score is added; every earlier relation and every column stays |
| ImageEntity.DeleteTag | backend/web_service/src/main/java/com/tamakara/bakabooru/module/image/entity/Image.java:86-95 | no relation to the tag is left, every other relation stays and no column changes |
| ImageEntity.AddTagKeepsUnique | backend/web_service/src/main/java/com/tamakara/bakabooru/module/image/entity/Image.java:81-84 | adding a tag the image lacks keeps each tag linked at most once |
| ImageEntity.DeleteTagKeepsUnique | backend/web_service/src/main/java/com/tamakara/bakabooru/module/image/entity/Image.java:86-95 | deleting a tag keeps each remaining tag linked at most once |
| ImageEntity.DeleteTagById | backend/web_service/src/main/java/com/tamakara/bakabooru/module/image/entity/Image.java:86-95 | deletion looks only at the tag id: two tags with the same id delete the same relations |
| ImageEntity.DeleteUndoesAdd | backend/web_service/src/main/java/com/tamakara/bakabooru/module/image/entity/Image.java:81-95 | deleting a tag just added to an image that lacked it restores the image |
| ImageEntity.DeleteTagIdempotent | backend/web_service/src/main/java/com/tamakara/bakabooru/module/image/entity/Image.java:86-95 | deleting the same tag twice is deleting it once |
| ImageInfo.MapFormatToExtension | backend/web_service/src/main/java/com/tamakara/bakabooru/module/gallery/model/ImageInfo.java:92-98 | "jpeg" is suggested as "jpg", "wbmp" as "bmp", and any other format keeps its name |
| ImageInfo.ExtensionIsCanonical | backend/web_service/src/main/java/com/tamakara/bakabooru/module/gallery/model/ImageInfo.java:92-98 | the suggested suffix is never "jpeg" nor "wbmp" |
| ImageInfo.FrameCount | backend/web_service/src/main/java/com/tamakara/bakabooru/module/gallery/model/ImageInfo.java:67-76 | only GIF and WebP are counted; any other format, and a failed count, give one frame |
| ImageInfo.Read | backend/web_service/src/main/java/com/tamakara/bakabooru/module/gallery/model/ImageInfo.java:34-90 | each failure in the constructor's order with its exception type and message; on success the file's length, the positive dimensions, the lower-cased format, its suggested suffix, and animation exactly when more than one frame was counted |
| ImageInfo.AnimatedOnlyGifOrWebp | backend/web_service/src/main/java/com/tamakara/bakabooru/module/gallery/model/ImageInfo.java:71-89 | a constructed image is animated only when it is GIF or WebP, and its dimensions are positive |
| ImageSearch.RangeConditions | backend/web_service/src/main/java/com/tamakara/bakabooru/module/image/service/ImageSearchService.java:127-130 | an image passes the range conditions exactly when the column lies within each bound that is given, both inclusive |
| ImageSearch.PositiveConditions | backend/web_service/src/main/java/com/tamakara/bakabooru/module/image/service/ImageSearchService.java:39-43 | an image passes exactly when it has a tag of every positive name |
| ImageSearch.NegativeConditions | backend/web_service/src/main/java/com/tamakara/bakabooru/module/image/service/ImageSearchService.java:46-49 | an image passes exactly when it has no tag of any negative name |
| ImageSearch.KeywordConditions | backend/web_service/src/main/java/com/tamakara/bakabooru/module/image/service/ImageSearchService.java:52-58 | when StringUtils.hasText holds for the keyword (some character is not Character.isWhitespace), an image passes exactly when its lower-cased title or file name contains the keyword cut by String.trim (characters up to U+0020) and lower-cased; otherwise every image passes |
| ImageSearch.Conditions | backend/web_service/src/main/java/com/tamakara/bakabooru/module/image/service/ImageSearchService.java:35-85 | a specification without tag, keyword or range filters compiles to no conditions |
| ImageSearch.ConditionsMatch | backend/web_service/src/main/java/com/tamakara/bakabooru/module/image/service/ImageSearchService.java:35-85 | the AND of the compiled conditions accepts exactly the images the reference filter accepts |
| ImageSearch.Filtered | backend/web_service/src/main/java/com/tamakara/bakabooru/module/image/service/ImageSearchService.java:84-87 | every image kept comes from the catalogue and matches, and every matching image is kept |
| ImageSearch.NoFiltersKeepAll | backend/web_service/src/main/java/com/tamakara/bakabooru/module/image/service/ImageSearchService.java:35-85 | a specification without filters keeps the whole catalogue in order |
| ImageSearch.HashCode | backend/web_service/src/main/java/com/tamakara/bakabooru/module/image/service/ImageSearchService.java:80 | Java's String.hashCode over the UTF-16 code units: a 32-bit signed value congruent modulo 2^32 to the hash polynomial of the string's code units, a character above U+FFFF counting as its two surrogates |
| ImageSearch.CodeUnits | backend/web_service/src/main/java/com/tamakara/bakabooru/module/image/service/ImageSearchService.java:80 | a character below U+10000 is one code unit equal to it; any other is a high surrogate followed by a low surrogate |
| ImageSearch.SurrogatesDecode | backend/web_service/src/main/java/com/tamakara/bakabooru/module/image/service/ImageSearchService.java:80 | the surrogate pair of a supplementary character decodes back to that character |
| ImageSearch.HashBitsStep | backend/web_service/src/main/java/com/tamakara/bakabooru/module/image/service/ImageSearchService.java:80 | the hash advances h = 31*h + unit modulo 2^32 once per code unit of the last character: once inside the Basic Multilingual Plane, twice above it |
| ImageSearch.HashOfSurrogatePair | backend/web_service/src/main/java/com/tamakara/bakabooru/module/image/service/ImageSearchService.java:80 | the hash of U+1F600 is 0xD83D*31 + 0xDE00 = 1772899, the value of its surrogate pair |
| ImageSearch.EffectiveSeed | backend/web_service/src/main/java/com/tamakara/bakabooru/module/image/service/ImageSearchService.java:155 | the seed is never zero, and a non-zero hash is kept |
| ImageSearch.SqlMod | backend/web_service/src/main/java/com/tamakara/bakabooru/module/image/service/ImageSearchService.java:158-161 | MOD keeps the dividend's sign and its magnitude is below the modulus |
| ImageSearch.RandomKey | backend/web_service/src/main/java/com/tamakara/bakabooru/module/image/service/ImageSearchService.java:157-163 | the random key lies in [0, Integer.MAX_VALUE) and is the magnitude of id*seed modulo Integer.MAX_VALUE |
| ImageSearch.RandomKeyNegatedSeed | backend/web_service/src/main/java/com/tamakara/bakabooru/module/image/service/ImageSearchService.java:157-163 | a seed and its negation give every image the same key, hence the same order |
| ImageSearch.EmbeddingOrder | backend/web_service/src/main/java/com/tamakara/bakabooru/module/image/service/ImageSearchService.java:132-151 | an unsorted pageable orders by ascending distance; otherwise one term per sort entry, "similarity" or "distance" in any case meaning distance |
| ImageSearch.QueryOrder | backend/web_service/src/main/java/com/tamakara/bakabooru/module/image/service/ImageSearchService.java:65-82 | the count query is unordered; with an embedding only distance and column terms appear; without one only the random key, and only when a seed has text |
| ImageSearch.PageOrder | backend/web_service/src/main/java/com/tamakara/bakabooru/module/image/service/ImageSearchService.java:87 | an unsorted pageable keeps the specification's own order (distance terms or the random key); a sorted one replaces it with one column term per sort entry, named by the decapitalized property |
| ImageSearch.SortedPageableDecides | backend/web_service/src/main/java/com/tamakara/bakabooru/module/image/service/ImageSearchService.java:65-87 | with a sorted pageable every term is a column, and neither the random seed nor the embedding changes the order |
| ImageSearch.Decapitalize | backend/web_service/src/main/java/com/tamakara/bakabooru/module/image/service/ImageSearchService.java:87 | the name keeps its length and every letter after the first; the first is lowered unless the first two letters are both capitals |
| ImageSearch.DecapitalizeIdempotent | backend/web_service/src/main/java/com/tamakara/bakabooru/module/image/service/ImageSearchService.java:87 | decapitalizing twice is decapitalizing once, so an attribute name is found as it is written |
| ImageSearch.EmbeddingSortFailure | backend/web_service/src/main/java/com/tamakara/bakabooru/module/image/service/ImageSearchService.java:132-151 | the ranking lookups fail exactly when some sort entry is neither a distance name nor an attribute by its exact name, and the error names such an entry |
| ImageSearch.ColumnSortFailure | backend/web_service/src/main/java/com/tamakara/bakabooru/module/image/entity/Image.java:27-79 | Spring Data's sort fails exactly when some decapitalized property is not an attribute of the image; the error names that property, as an unknown property or, for the getter-only `tags`, as an unresolvable attribute |
| ImageSearch.DistanceNeverResolves | backend/web_service/src/main/java/com/tamakara/bakabooru/module/image/entity/Image.java:27-69 | neither "similarity" nor "distance", in any letter case and whether decapitalized or not, is an attribute of the image |
| ImageSearch.SortFailure | backend/web_service/src/main/java/com/tamakara/bakabooru/module/image/service/ImageSearchService.java:35-87 | the page query fails exactly when some sort property does not resolve: it is not an attribute once decapitalized, or, with an embedding, not an attribute by its exact name; without an embedding the error is Spring Data's |
| ImageSearch.IntendedOrder | backend/web_service/src/main/java/com/tamakara/bakabooru/module/image/service/ImageSearchService.java:65-87 | the order the specification sets wins; only when it sets none do the pageable's columns apply |
| ImageSearch.IntendedRanksByDistance | backend/web_service/src/main/java/com/tamakara/bakabooru/module/image/service/ImageSearchService.java:132-151 | with an embedding and only distance names in the sort, the intended order ranks by distance alone, one term per entry in that entry's direction |
| ImageSearch.LexLeqTotal | backend/web_service/src/main/java/com/tamakara/bakabooru/module/image/service/ImageSearchService.java:87 | any two key tuples are comparable |
| ImageSearch.LexLeqTransitive | backend/web_service/src/main/java/com/tamakara/bakabooru/module/image/service/ImageSearchService.java:87 | the key tuple order is transitive |
| ImageSearch.KeyOrder | backend/web_service/src/main/java/com/tamakara/bakabooru/module/image/service/ImageSearchService.java:87 | images compared by key tuples form a total preorder |
| ImageSearch.Ordered | backend/web_service/src/main/java/com/tamakara/bakabooru/module/image/service/ImageSearchService.java:87 | a permutation of the filtered images, every one matching, in ascending order of the given key tuples |
| ImageSearch.Slice | backend/web_service/src/main/java/com/tamakara/bakabooru/module/image/service/ImageSearchService.java:87 | a page holds at most size elements, starts at page*size, is cut at the end, and is empty past the end |
| ImageSearch.PagesArePrefix | backend/web_service/src/main/java/com/tamakara/bakabooru/module/image/service/ImageSearchService.java:87 | pages 0..k of one order, concatenated, are its prefix: nothing is repeated or skipped |
| ImageSearch.SliceKeeps | backend/web_service/src/main/java/com/tamakara/bakabooru/module/image/service/ImageSearchService.java:87 | a page of a matching, sorted list is matching and sorted |
| ImageSearch.SearchImages | backend/web_service/src/main/java/com/tamakara/bakabooru/module/image/service/ImageSearchService.java:29-93 | the search fails exactly when the sort fails, with that error; otherwise the total counts every filtered image and the page holds at most size matching images, in the page order, as the requested slice of that order |
| ImageSearch.DistanceSortFails | backend/web_service/src/main/java/com/tamakara/bakabooru/module/image/service/ImageSearchService.java:87 | a search whose pageable sorts by "similarity" or "distance" always fails, although the specification ranks that entry by distance |
| ImageSearch.SimilaritySortFailure | backend/web_service/src/main/java/com/tamakara/bakabooru/module/image/service/ImageSearchService.java:87 | a sort by "similarity" alone fails with "No property 'similarity' found for type 'Image'", with or without an embedding |
| ImageSearch.IntendedSearch | backend/web_service/src/main/java/com/tamakara/bakabooru/module/image/service/ImageSearchService.java:29-93 | the corrected search never fails; its total counts every filtered image and its page holds at most size matching images in the intended order |
| ImageSearch.UnsortedAsIntended | backend/web_service/src/main/java/com/tamakara/bakabooru/module/image/service/ImageSearchService.java:87 | with an unsorted pageable the search as written succeeds and answers exactly the intended page |
| ImageSearch.PageIndependent | backend/web_service/src/main/java/com/tamakara/bakabooru/module/image/service/ImageSearchService.java:35-87 | the requested page affects neither the filter, the order nor whether the query fails |
| ImageSearch.SearchPageIsSlice | backend/web_service/src/main/java/com/tamakara/bakabooru/module/image/service/ImageSearchService.java:35-87 | either every page of a search fails or none does, and every page is the slice of one order that all pages share |
| SearchService.Validate | backend/web_service/src/main/java/com/tamakara/bakabooru/module/gallery/service/SearchService.java:138-148 | valid exactly when the page is present and non-negative, the size present and positive and the sort has text in the sense of StringUtils.hasText (a character that is not Character.isWhitespace); otherwise the first failing check's message |
| SearchService.ParseDirection | backend/web_service/src/main/java/com/tamakara/bakabooru/module/gallery/service/SearchService.java:166 | "ASC" and "DESC" are recognised in any case, and nothing else |
| SearchService.BuildSort | backend/web_service/src/main/java/com/tamakara/bakabooru/module/gallery/service/SearchService.java:155-195 | the shape and the direction are checked first; "random" needs a seed; "similarity" without a semantic query falls back to a random order with the given or a fresh seed; any other property, cut by String.trim, must have text |
| SearchService.BuildSortOfRendered | backend/web_service/src/main/java/com/tamakara/bakabooru/module/gallery/service/SearchService.java:155-195 | a descriptor written "property,asc" or "property,desc" for an ordinary column resolves back to that column and direction |
| SearchService.CollectTags | backend/web_service/src/main/java/com/tamakara/bakabooru/module/gallery/service/SearchService.java:220-226 | a token "-x" with x non-empty puts x among the excluded tags, and every other non-empty token goes among the required ones |
| SearchService.ParseTags | backend/web_service/src/main/java/com/tamakara/bakabooru/module/gallery/service/SearchService.java:218-227 | no text gives no tags; otherwise the search is cut by String.trim and split on runs of regex \s, and the required and excluded tags are exactly those named by the resulting tokens |
| SearchService.ProcessSemanticQuery | backend/web_service/src/main/java/com/tamakara/bakabooru/module/gallery/service/SearchService.java:197-216 | the extracted tags are added to the parsed ones; an embedding is requested only for a similarity sort and kept when present; any failure is rethrown with "语义搜索解析失败: " |
| SearchService.BuildSearchSpec | backend/web_service/src/main/java/com/tamakara/bakabooru/module/gallery/service/SearchService.java:42-75 | the specification carries the validated page, size and sort, the resolved seed, the keyword cut by String.trim when it has text (else ""), the range bounds, the parsed tags, and the semantic tags and embedding only when a semantic query has text |
| SearchService.Search | backend/web_service/src/main/java/com/tamakara/bakabooru/module/gallery/service/SearchService.java:42-88 | any failure while building the specification is the search's failure; otherwise the result, page or failure, is the image search of that specification |
| SearchService.SemanticSimilarityFails | backend/web_service/src/main/java/com/tamakara/bakabooru/module/gallery/service/SearchService.java:179-188 | a valid similarity sort with a semantic query whose specification builds always fails with "No property 'similarity' found for type 'Image'" |
| SearchService.SimilarityFallsBackToRandom | backend/web_service/src/main/java/com/tamakara/bakabooru/module/gallery/service/SearchService.java:179-187 | a valid similarity sort without a semantic query never fails and orders randomly by the given seed, or else by the fresh one |
| SearchService.DistanceThreshold | backend/web_service/src/main/java/com/tamakara/bakabooru/module/gallery/service/SearchService.java:110-113 | a positive similarity threshold becomes the distance threshold max(0, 1 - threshold), in [0, 1); otherwise none is set |
| SearchService.PageRequest | backend/web_service/src/main/java/com/tamakara/bakabooru/module/gallery/service/SearchService.java:116 | a page request exists exactly for a present non-negative page and a present size of at least one; a null page, then a null size, fails with the JVM's NullPointerException text naming Integer.intValue() and the variable |
| SearchService.ProbeSpec | backend/web_service/src/main/java/com/tamakara/bakabooru/module/gallery/service/SearchService.java:106-117 | the probe's specification has no filters, the probe's embedding, the converted threshold and an ascending similarity sort |
| SearchService.SearchByImage | backend/web_service/src/main/java/com/tamakara/bakabooru/module/gallery/service/SearchService.java:90-136 | a failed upload, embedding, page request or image search is rethrown with "以图搜图失败: "; it succeeds exactly when all four do, with the image search's page |
| SearchService.SearchByImageFails | backend/web_service/src/main/java/com/tamakara/bakabooru/module/gallery/service/SearchService.java:116-123 | every image-probe search fails; past the upload, the embedding and the page request, the failure is the prefixed "No property 'similarity' found for type 'Image'" |
| SearchService.ProbeRanksByDistance | backend/web_service/src/main/java/com/tamakara/bakabooru/module/gallery/service/SearchService.java:116-120 | the probe's specification, with an embedding, orders by ascending distance and never randomly, and the intended order keeps that ranking |
| SearchService.RankedSearchByImage | backend/web_service/src/main/java/com/tamakara/bakabooru/module/gallery/service/SearchService.java:90-136 | the corrected probe search fails only on the upload, the embedding or the page request; its page counts the filtered images, holds matching ones and, with an embedding, is in ascending distance |
| SemanticSearch.FirstMatch | backend/ai_service/app/services/semantic_search_service.py:97-101 | a keyword yields nothing exactly when every candidate matches nothing; otherwise the answer is the first candidate that matches or fails |
| SemanticSearch.PickAll | backend/ai_service/app/services/semantic_search_service.py:96-101 | the keywords succeed exactly when each keyword's candidates do, and yield at most one name per keyword |
| SemanticSearch.PickAllAppend | backend/ai_service/app/services/semantic_search_service.py:96-101 | picking over two stretches of keywords is picking over each, the first failure winning |
| SemanticSearch.NoMatchContributesNothing | backend/ai_service/app/services/semantic_search_service.py:96-101 | a keyword none of whose candidates matches can be dropped without changing the result |
| SemanticSearch.AllMatched | backend/ai_service/app/services/semantic_search_service.py:96-101 | when every keyword matches, the result holds one name per keyword, in keyword order |
| SemanticSearch.DuplicatesKept | backend/ai_service/app/services/semantic_search_service.py:92-101 | two keywords matched to the same tag report it twice: the list is not deduplicated |
| SemanticSearch.PickAllMatched | backend/ai_service/app/services/semantic_search_service.py:96-101 | every reported name is the name the matcher gave for some candidate |
| SemanticSearch.MatchKeyword | backend/ai_service/app/services/semantic_search_service.py:97-101 | the inner loop stops at the first candidate that matches, and a failing matcher call propagates |
| SemanticSearch.MatchKeywords | backend/ai_service/app/services/semantic_search_service.py:96-101 | the outer loop over keywords computes the reference picking |
| SemanticSearch.MatchTags | backend/ai_service/app/services/semantic_search_service.py:90-112 | the positive keywords are matched first and their failure wins; otherwise both lists, each no longer than its keywords |
| SemanticSearch.NegativeIgnoresPositive | backend/ai_service/app/services/semantic_search_service.py:103-109 | the negative list does not depend on the positive keywords |
| SemanticSearch.ParseTags | backend/ai_service/app/services/semantic_search_service.py:21-44 | never raises: success exactly when the language model and the matcher succeed, then the matched lists; otherwise empty lists and the failure's message |
| SemanticSearch.GenerateEmbedding | backend/ai_service/app/services/semantic_search_service.py:46-66 | an empty query succeeds without text or embedding; otherwise the query with its encoding, or a failure carrying the encoder's message |
| TaskQueue.EmptyQueue | backend/web_service/src/main/java/com/tamakara/bakabooru/module/gallery/model/UploadTaskQueue.java:20-25 | a fresh queue has no pending or failed ids and keeps payloads under their own ids |
| TaskQueue.GetTask | backend/web_service/src/main/java/com/tamakara/bakabooru/module/gallery/model/UploadTaskQueue.java:45-47 | the payload stored under the id, or null when there is none |
| TaskQueue.AddTask | backend/web_service/src/main/java/com/tamakara/bakabooru/module/gallery/model/UploadTaskQueue.java:30-35 | the payload is stored under its id, no other payload changes, and the id joins the left end of the pending list |
| TaskQueue.TakeTask | backend/web_service/src/main/java/com/tamakara/bakabooru/module/gallery/model/UploadTaskQueue.java:40-43 | null exactly on an empty pending list; otherwise the rightmost id is removed and returned, payloads untouched |
| TaskQueue.TakeFromSingle | backend/web_service/src/main/java/com/tamakara/bakabooru/module/gallery/model/UploadTaskQueue.java:30-43 | the one id added to an empty pending list is the next one taken |
| TaskQueue.TakeAfterAdd | backend/web_service/src/main/java/com/tamakara/bakabooru/module/gallery/model/UploadTaskQueue.java:30-43 | adding behind a non-empty list does not change which id comes next (first in, first out) |
| TaskQueue.MoveToFailed | backend/web_service/src/main/java/com/tamakara/bakabooru/module/gallery/model/UploadTaskQueue.java:53-64 | the message is recorded on an existing payload, and the id joins the failed list whether or not a payload exists |
| TaskQueue.RetryTask | backend/web_service/src/main/java/com/tamakara/bakabooru/module/gallery/model/UploadTaskQueue.java:69-84 | nothing happens for an id not on the failed list; otherwise one occurrence is removed, and a stored payload loses its error and the id joins the right end of the pending list |
| TaskQueue.RetriedIsNext | backend/web_service/src/main/java/com/tamakara/bakabooru/module/gallery/model/UploadTaskQueue.java:69-84 | a retried task with a payload is the next one taken |
| TaskQueue.RetryUndoesMoveToFailed | backend/web_service/src/main/java/com/tamakara/bakabooru/module/gallery/model/UploadTaskQueue.java:53-84 | retrying a task just moved to failed restores it without an error, queued to run next |
| TaskQueue.GetFailedTasks | backend/web_service/src/main/java/com/tamakara/bakabooru/module/gallery/model/UploadTaskQueue.java:99-114 | one payload for each failed id that has one, in failed-list order, and nothing else |
| TaskQueue.PayloadsIndexed | backend/web_service/src/main/java/com/tamakara/bakabooru/module/gallery/model/UploadTaskQueue.java:103-112 | the i-th payload listed is the one stored under the i-th listed id that has a payload |
| TaskQueue.PayloadsAppend | backend/web_service/src/main/java/com/tamakara/bakabooru/module/gallery/model/UploadTaskQueue.java:103-112 | listing the ids of a concatenation lists the payloads of each part in turn, so list order is kept |
| TaskQueue.PresentCounts | backend/web_service/src/main/java/com/tamakara/bakabooru/module/gallery/model/UploadTaskQueue.java:103-112 | an id with a payload is listed as often as it is on the failed list; an id without one is never listed |
| TaskQueue.FailedTasksMembership | backend/web_service/src/main/java/com/tamakara/bakabooru/module/gallery/model/UploadTaskQueue.java:99-114 | every listed task is the payload of a failed id, every failed id with a payload has it listed, and the list is empty exactly when no failed id has a payload |
| TaskQueue.DeletePayloads | backend/web_service/src/main/java/com/tamakara/bakabooru/module/gallery/model/UploadTaskQueue.java:89-92 | with every temp path present, exactly the listed payloads and their files are deleted; a missing path stops with a null dereference, earlier deletions kept |
| TaskQueue.FailedPayloadIds | backend/web_service/src/main/java/com/tamakara/bakabooru/module/gallery/model/UploadTaskQueue.java:99-114 | a stored payload is listed exactly when its id is on the failed list |
| TaskQueue.ClearFailedTasks | backend/web_service/src/main/java/com/tamakara/bakabooru/module/gallery/model/UploadTaskQueue.java:86-94 | nothing happens without failed payloads; otherwise the failed payloads and list are dropped, other payloads and the pending list untouched |
| TaskQueue.ClearKeepsValid | backend/web_service/src/main/java/com/tamakara/bakabooru/module/gallery/model/UploadTaskQueue.java:86-94 | clearing keeps payloads stored under their own ids |
| TaskQueue.RemoveTaskData | backend/web_service/src/main/java/com/tamakara/bakabooru/module/gallery/model/UploadTaskQueue.java:116-118 | only the payload under the id is gone; both lists stay |
| TaskQueue.GetPendingCount | backend/web_service/src/main/java/com/tamakara/bakabooru/module/gallery/model/UploadTaskQueue.java:120-123 | the number of pending ids, zero exactly when no task can be taken |
| TaskStore.EmptyStore | backend/web_service/src/main/java/com/tamakara/bakabooru/module/upload/model/UploadTaskStore.java:10-13 | a fresh store holds no tasks and no ids |
| TaskStore.AddTask | backend/web_service/src/main/java/com/tamakara/bakabooru/module/upload/model/UploadTaskStore.java:16-19 | the task is stored under its id, newest id first in the deque, and every stored id stays in the deque |
| TaskStore.GetTask | backend/web_service/src/main/java/com/tamakara/bakabooru/module/upload/model/UploadTaskStore.java:22-24 | the task stored under the id, or null |
| TaskStore.GetAfterAdd | backend/web_service/src/main/java/com/tamakara/bakabooru/module/upload/model/UploadTaskStore.java:16-24 | reading the added id gives the added task; every other id reads as before |
| TaskStore.ReAddKeepsBothIds | backend/web_service/src/main/java/com/tamakara/bakabooru/module/upload/model/UploadTaskStore.java:16-19 | adding a task under an id already present replaces the task but lists the id twice in the deque |
| TaskStore.RemoveTask | backend/web_service/src/main/java/com/tamakara/bakabooru/module/upload/model/UploadTaskStore.java:27-30 | the task and the first occurrence of its id are removed; every remaining task keeps an id in the deque |
| TaskStore.GetAllTasks | backend/web_service/src/main/java/com/tamakara/bakabooru/module/upload/model/UploadTaskStore.java:33-42 | one task per deque id that has a task, newest first |
| TaskStore.AddedListedFirst | backend/web_service/src/main/java/com/tamakara/bakabooru/module/upload/model/UploadTaskStore.java:16-42 | a new task is listed first, in front of everything listed before |
| TaskStore.ClearFrom | backend/web_service/src/main/java/com/tamakara/bakabooru/module/upload/model/UploadTaskStore.java:46-52 | after visiting the ids, exactly the visited finished tasks are gone and every other task is unchanged |
| TaskStore.ClearCompletedOrFailed | backend/web_service/src/main/java/com/tamakara/bakabooru/module/upload/model/UploadTaskStore.java:45-53 | the remaining tasks are exactly the stored ones neither completed nor failed |
| TaskStore.ClearFromOrder | backend/web_service/src/main/java/com/tamakara/bakabooru/module/upload/model/UploadTaskStore.java:46-52 | the removals take out only ids of finished tasks, so the other ids keep their order |
| TaskStore.ClearKeepsUnfinishedInOrder | backend/web_service/src/main/java/com/tamakara/bakabooru/module/upload/model/UploadTaskStore.java:33-53 | after clearing, the list shows exactly the unfinished tasks, in their previous order |
| TaskStore.Size | backend/web_service/src/main/java/com/tamakara/bakabooru/module/upload/model/UploadTaskStore.java:56-58 | the number of stored tasks, zero exactly for an empty store |
| Tagger.Providers | backend/ai_service/app/services/tag_image/camie_tagger.py:91-99 | "cuda" or "cpu" in any case is accepted, anything else is refused with its message; CUDA is listed exactly for "cuda", and the CPU provider always comes last, with no provider twice |
| Tagger.ProvidersIgnoreCase | backend/ai_service/app/services/tag_image/camie_tagger.py:94-96 | device names differing only in letter case choose the same providers |
| Tagger.ChooseLogits | backend/ai_service/app/services/tag_image/camie_tagger.py:185 | the second output when there are two or more, the only one otherwise, and an index error when there is none |
| Tagger.Above | backend/ai_service/app/services/tag_image/camie_tagger.py:192 | exactly the indices whose score reaches the threshold, ascending |
| Tagger.ArgSort | backend/ai_service/app/services/tag_image/camie_tagger.py:196 | every index exactly once, in ascending order of score |
| Tagger.TopFive | backend/ai_service/app/services/tag_image/camie_tagger.py:196 | the five best indices, or all when fewer, best first, distinct, and no index left out scores above one taken |
| Tagger.Select | backend/ai_service/app/services/tag_image/camie_tagger.py:192-196 | with five or more indices at the threshold, exactly those; otherwise the five best |
| Tagger.Entries | backend/ai_service/app/services/tag_image/camie_tagger.py:198-203 | each selected index becomes its mapped name (or "unknown-" and the index), the category of that name (or "general") and its score |
| Tagger.Append | backend/ai_service/app/services/tag_image/camie_tagger.py:203 | the entry joins the end of its category's list, a category met for the first time being added last; categories stay distinct |
| Tagger.Group | backend/ai_service/app/services/tag_image/camie_tagger.py:191-203 | each category once, holding exactly its entries in selection order, and every entry's category present |
| Tagger.PyPrefix | backend/ai_service/app/services/tag_image/camie_tagger.py:207 | Python's [:k]: a prefix of length min(k, n) for k >= 0, and n + k (at least 0) for a negative k |
| Tagger.SortDesc | backend/ai_service/app/services/tag_image/camie_tagger.py:207 | a permutation of the list in descending order of confidence |
| Tagger.SortDescStable | backend/ai_service/app/services/tag_image/camie_tagger.py:207 | Python's sort is stable: the entries of any one confidence keep their relative order |
| Tagger.TopK | backend/ai_service/app/services/tag_image/camie_tagger.py:207 | a descending sub-multiset of the list, at most topK long, and the whole list when topK covers it |
| Tagger.Finish | backend/ai_service/app/services/tag_image/camie_tagger.py:206-207 | each category keeps its place and its list is sorted and cut |
| Tagger.Tag | backend/ai_service/app/services/tag_image/camie_tagger.py:159-210 | a non-image is a TypeError and an empty output list an index error; otherwise distinct categories, each list best first and at most topK long |
| Tagger.TagReportsSelected | backend/ai_service/app/services/tag_image/camie_tagger.py:192-210 | every reported entry is a selected index under its name and score, in the category of that name |
| Tagger.TagReportsAll | backend/ai_service/app/services/tag_image/camie_tagger.py:192-210 | with topK covering the selection, every selected index is reported in the category of its name |
| TagFlatten.CollectMeaning | backend/ai_service/app/services/tag_image_service.py:30-35 | the map holds exactly the names of the entries, each with the score of its last entry |
| TagFlatten.FlattenCategory | backend/ai_service/app/services/tag_image_service.py:32-35 | the inner loop assigns one category's entries in order, later ones overwriting earlier ones |
| TagFlatten.Flatten | backend/ai_service/app/services/tag_image_service.py:30-35 | the loops assign every entry, category after category, in order |
| TagFlatten.LaterCategoryWins | backend/ai_service/app/services/tag_image_service.py:30-35 | a tag listed under several categories takes its score from its last entry in the last category that lists it |
| TagFlatten.AsListing | backend/ai_service/app/services/tag_image_service.py:27-34 | the tagger's lists are read entry by entry, every entry carrying its confidence |
| TagFlatten.TagImage | backend/ai_service/app/services/tag_image_service.py:14-37 | a failed fetch is a ValueError with "无法从 MinIO 获取图像: " before any tagging; a tagger failure propagates; otherwise the flattened map of the tagger's lists at the default topK of 50 |
| TagMatcher.ReplaceChar | backend/ai_service/app/services/tag_matcher_service.py:19 | every occurrence of one character is replaced, everything else kept in place |
| TagMatcher.RemoveChar | backend/ai_service/app/services/tag_matcher_service.py:19 | every occurrence of a character is dropped, and every other character kept |
| TagMatcher.CleanQuery | backend/ai_service/app/services/tag_matcher_service.py:19 | the embedded text has no '_', '(' or ')' and no upper-case letter, and keeps every other character lower-cased, '_' read as a space |
| TagMatcher.CleanQueryIdempotent | backend/ai_service/app/services/tag_matcher_service.py:19 | cleaning an already cleaned keyword changes nothing |
| TagMatcher.Nearest | backend/ai_service/app/services/tag_matcher_service.py:26-39 | none exactly when no row reaches the threshold; otherwise a qualifying row's name and similarity, at least that of every qualifying row |
| TagMatcher.Match | backend/ai_service/app/services/tag_matcher_service.py:11-39 | an embedding failure propagates; a match reaches the threshold and names a stored tag |
| TagMatcher.SameCleanSameMatch | backend/ai_service/app/services/tag_matcher_service.py:19-20 | keywords that differ only in letter case, '_' against ' ', or parentheses are matched alike |
| TagTable.FindByName | backend/web_service/src/main/java/com/tamakara/bakabooru/module/upload/service/UploadQueueService.java:117 | a row carrying the name, and none exactly when no row carries it |
| TagTable.FindById | backend/web_service/src/main/java/com/tamakara/bakabooru/module/tag/service/TagService.java:51 | a row carrying the id, and none exactly when no row carries it |
| TagTable.FindByNameUnique | backend/web_service/src/main/java/com/tamakara/bakabooru/module/upload/service/UploadQueueService.java:117 | with unique names, the lookup finds the one row carrying the name |
| TagTable.GetTagByName | backend/web_service/src/main/java/com/tamakara/bakabooru/module/tag/service/TagService.java:55-58 | found exactly when some row carries the name; otherwise "标签不存在: " and the name |
| TagTable.GetTagById | backend/web_service/src/main/java/com/tamakara/bakabooru/module/tag/service/TagService.java:50-53 | found exactly when some row carries the id; otherwise "标签不存在: " and the id |
| TagTable.FindOrCreate | backend/web_service/src/main/java/com/tamakara/bakabooru/module/upload/service/UploadQueueService.java:117-123 | an existing tag of that name is returned with the table unchanged; otherwise a new row with the next id, the name and the category is inserted |
| TagTable.FindOrCreateStable | backend/web_service/src/main/java/com/tamakara/bakabooru/module/upload/service/UploadQueueService.java:117-123 | find-or-create keeps names and ids unique, and asking again for the same name finds the same tag and changes nothing, whatever category is given |
| UploadQueue.SplitName | backend/web_service/src/main/java/com/tamakara/bakabooru/module/upload/service/UploadQueueService.java:137-144 | a name without '.' is all title; otherwise title, '.', and an extension without '.', which together give back the name |
| UploadQueue.Without | backend/web_service/src/main/java/com/tamakara/bakabooru/module/upload/service/UploadQueueService.java:83 | every '.' is removed and every other character kept |
| UploadQueue.CheckedExtension | backend/web_service/src/main/java/com/tamakara/bakabooru/module/upload/service/UploadQueueService.java:83 | the extension checked is the lower-cased text after the last '.', and "" for a name without one |
| UploadQueue.ValidateFile | backend/web_service/src/main/java/com/tamakara/bakabooru/module/upload/service/UploadQueueService.java:72-88 | passes exactly when the size is within the limit and a named file's extension is listed; the size is checked first, each failure with its message |
| UploadQueue.ListedExtensionAccepted | backend/web_service/src/main/java/com/tamakara/bakabooru/module/upload/service/UploadQueueService.java:72-88 | a file within the limit whose extension, in any case, is listed passes |
| UploadQueue.Rethrow | backend/web_service/src/main/java/com/tamakara/bakabooru/module/upload/service/UploadQueueService.java:127-129 | rethrowing a tagging failure keeps its message |
| UploadQueue.Save | backend/web_service/src/main/java/com/tamakara/bakabooru/module/upload/service/UploadQueueService.java:133-170 | a null file name fails with the JVM's NullPointerException text for String.lastIndexOf on originalFilename; unreadable metadata or a failed archive stops the save and adds no row; a save adds one row with the split name and the dimensions, and the file under the hash; ids and hashes stay unique |
| UploadQueue.Process | backend/web_service/src/main/java/com/tamakara/bakabooru/module/upload/service/UploadQueueService.java:91-173 | a known hash fails with "重复的图片: " and the id, changing nothing; the task completes exactly when no exception escapes; a failure adds no row; tags only grow; ids and hashes stay unique |
| UploadQueue.TagAndSave | backend/web_service/src/main/java/com/tamakara/bakabooru/module/upload/service/UploadQueueService.java:105-173 | tagging failures are rethrown with their message before any save; otherwise the tags are found or created and the row saved |
| UploadQueue.Complete | backend/web_service/src/main/java/com/tamakara/bakabooru/module/upload/service/UploadQueueService.java:172 | only a save that went through marks the task completed |
| UploadQueue.MarkFailed | backend/web_service/src/main/java/com/tamakara/bakabooru/module/upload/service/UploadQueueService.java:63-66 | the catch block sets the failed status and the exception's message, and changes nothing else |
| UploadQueue.CreateTask | backend/web_service/src/main/java/com/tamakara/bakabooru/module/upload/service/UploadQueueService.java:40-70 | a hash failure propagates as "Failed to calculate hash" before any task exists; otherwise the new task is stored and settled |
| UploadQueue.NewTask | backend/web_service/src/main/java/com/tamakara/bakabooru/module/upload/service/UploadQueueService.java:41-52 | the task is pending without error, carries the name, size and hash, and tags only when tagging was explicitly enabled |
| UploadQueue.Settle | backend/web_service/src/main/java/com/tamakara/bakabooru/module/upload/service/UploadQueueService.java:55-69 | the returned and stored task ends completed without error or failed; a failure adds no row and a validation failure carries its message |
| UploadQueue.Fail | backend/web_service/src/main/java/com/tamakara/bakabooru/module/upload/service/UploadQueueService.java:63-66 | the failed task replaces the stored one under its id |
| UploadQueue.DuplicateRejected | backend/web_service/src/main/java/com/tamakara/bakabooru/module/upload/service/UploadQueueService.java:99-103 | an upload whose hash is already stored fails with the stored image's id and leaves the gallery as it was |
| UploadQueue.NewImageCompletes | backend/web_service/src/main/java/com/tamakara/bakabooru/module/upload/service/UploadQueueService.java:40-173 | a valid upload of a new image with all answers given completes and appends exactly one row with the next id, the hash, the split name, the size and no views, the file being stored under the hash |
| UploadQueue.TagsOutliveFailedSave | backend/web_service/src/main/java/com/tamakara/bakabooru/module/upload/service/UploadQueueService.java:105-167 | tags created while tagging stay even when the save fails afterwards |
| UploadQueue.StatusOrder | backend/web_service/src/main/java/com/tamakara/bakabooru/module/upload/service/UploadQueueService.java:95-172 | the statuses run PROCESSING, TAGGING only when tagging is enabled, SAVING, COMPLETED, a failure cutting the sequence short |
| UploadWorker.TempKeyNotOriginal | backend/web_service/src/main/java/com/tamakara/bakabooru/module/gallery/service/UploadTaskService.java:109-145 | the temporary object key "temp/upload/<id>" can never coincide with an archive key "original/<hash>", so cleaning up the temporary object never deletes an archived original |
| UploadWorker.FileName | backend/web_service/src/main/java/com/tamakara/bakabooru/module/gallery/service/UploadTaskService.java:170 | the file-name part of a path contains no '/' or backslash, is a suffix of the path, and is the whole path when it has no separators |
| UploadWorker.BaseName | backend/web_service/src/main/java/com/tamakara/bakabooru/module/gallery/service/UploadTaskService.java:170 | the title is absent exactly when the original file name is null; otherwise it is the file-name part cut before its last '.', or the whole file-name part when there is no '.' |
| UploadWorker.HashOf | backend/web_service/src/main/java/com/tamakara/bakabooru/module/gallery/service/UploadTaskService.java:160-166 | hashing fails exactly when the file cannot be read, with the message "计算哈希失败"; otherwise the result is the lowercase hex form of the SHA-256 digest, and parsing it back gives the digest |
| UploadWorker.Link | backend/web_service/src/main/java/com/tamakara/bakabooru/module/gallery/service/UploadTaskService.java:179-182 | linking succeeds exactly when every returned tag name is known; the first unknown name fails the save with the tag service's not-found error; on success one relation per entry is appended in order and no column of the row changes |
| UploadWorker.Row | backend/web_service/src/main/java/com/tamakara/bakabooru/module/gallery/service/UploadTaskService.java:169-177 | the new row's title is the base name, its file name and size are the task's, its extension and dimensions are the detected ones, its hash and embedding are the computed ones, and it starts with no views and no tags |
| UploadWorker.LinkedNames | backend/web_service/src/main/java/com/tamakara/bakabooru/module/gallery/service/UploadTaskService.java:179-182 | after linking, the row's relations name and score exactly the tagger's entries, in order |
| UploadWorker.SaveImageMetadata | backend/web_service/src/main/java/com/tamakara/bakabooru/module/gallery/service/UploadTaskService.java:168-185 | the save succeeds exactly when all tag names are known and the task's file name and size are present; a successful save inserts one new row under a fresh id carrying every copied column and the tag relations |
| UploadWorker.Inspected | backend/web_service/src/main/java/com/tamakara/bakabooru/module/gallery/service/UploadTaskService.java:125-145 | after a new hash: a decode failure or an animated image stops the run at inspection with nothing saved ("暂不支持动图" for animation); a tagging or embedding failure stops it before the save; only a run that saved the row reaches archiving, and a successful archive adds "original/<hash>" |
| UploadWorker.Pipelined | backend/web_service/src/main/java/com/tamakara/bakabooru/module/gallery/service/UploadTaskService.java:112-145 | the stages run in order and stop at the first failure: a failed temporary upload stores nothing; an unreadable file fails at hashing; a hash already in the catalogue fails with "图片已存在 (Hash: <hash>)" before any inspection; a run without failure passes all eight stages |
| UploadWorker.Process | backend/web_service/src/main/java/com/tamakara/bakabooru/module/gallery/service/UploadTaskService.java:108-158 | every failure is rethrown as "处理图片失败: <message>"; whatever happened the local temporary file is removed, and the temporary object is removed unless its deletion fails, a failure that is swallowed; rows are exactly those of the pipeline |
| UploadWorker.Begin | backend/web_service/src/main/java/com/tamakara/bakabooru/module/gallery/service/UploadTaskService.java:55-64 | an empty poll leaves everything unchanged; a taken id whose payload is gone is dropped without processing; otherwise the taken id's payload becomes the task being processed |
| UploadWorker.Finish | backend/web_service/src/main/java/com/tamakara/bakabooru/module/gallery/service/UploadTaskService.java:66-75 | after processing, nothing is being processed; a successful task's payload is removed and a failed task moves to the failed list with the exception's message |
| UploadWorker.StepSettlesTask | backend/web_service/src/main/java/com/tamakara/bakabooru/module/gallery/service/UploadTaskService.java:51-87 | one loop iteration on a taken id with a payload removes it from the pending list and settles it exactly one way: its payload is deleted with the failed list unchanged, or it heads the failed list with its payload kept; the queue stays well formed |
| UploadWorker.DuplicateNeverSaved | backend/web_service/src/main/java/com/tamakara/bakabooru/module/gallery/service/UploadTaskService.java:117-123 | content whose hash is already stored fails at the deduplication stage with the hash in its message, and no row is added |
| UploadWorker.AnimatedNeverTagged | backend/web_service/src/main/java/com/tamakara/bakabooru/module/gallery/service/UploadTaskService.java:126-129 | an animated image never reaches tagging or saving and adds no row |
| UploadWorker.ReachedArchive | backend/web_service/src/main/java/com/tamakara/bakabooru/module/gallery/service/UploadTaskService.java:117-145 | a run that reached archiving had a new hash and saved exactly one new row with that hash, and a successful archive leaves "original/<hash>" stored |
| UploadWorker.SuccessSavesAndArchives | backend/web_service/src/main/java/com/tamakara/bakabooru/module/gallery/service/UploadTaskService.java:108-158 | a task processed without failure ran every stage, had a hash not yet stored, added exactly one row with that hash under a fresh id, and left the original archived under its hash |
| UploadWorker.ProcessedRun | backend/web_service/src/main/java/com/tamakara/bakabooru/module/gallery/service/UploadTaskService.java:108-158 | a process without failure ran the whole pipeline and keeps the pipeline's rows and every stored object except the temporary one |
| UploadWorker.StepKeepsHashesUnique | backend/web_service/src/main/java/com/tamakara/bakabooru/module/gallery/service/UploadTaskService.java:117-141 | processing a task keeps the hash column unique, since a row is only saved after the deduplication check found its hash absent |
| VectorCodec.Encode | backend/web_service/src/main/java/com/tamakara/bakabooru/config/VectorConverter.java:17-25 | a null vector stays null; any other vector becomes a bracketed text, and the empty vector becomes "[]" |
| VectorCodec.ParseAll | backend/web_service/src/main/java/com/tamakara/bakabooru/config/VectorConverter.java:39-41 | parsing succeeds exactly when every piece parses, giving one element per piece in order; otherwise it fails with the failure of some piece |
| VectorCodec.Decode | backend/web_service/src/main/java/com/tamakara/bakabooru/config/VectorConverter.java:27-42 | null or "" decodes to null; a one-character text fails; a two-character text decodes to the empty vector; otherwise the text between the outer characters is split on ',' and decoding succeeds exactly when every piece parses, with one element per piece |
| VectorCodec.DecodeEncode | backend/web_service/src/main/java/com/tamakara/bakabooru/config/VectorConverter.java:16-42 | decoding an encoded vector gives it back, null included, when every element renders as a non-empty, comma-free text that parses back to that element |
| VectorCodec.PiecesCount | backend/web_service/src/main/java/com/tamakara/bakabooru/config/VectorConverter.java:39 | a text has one more comma-separated piece than it has commas, before trailing empty pieces are dropped |
| VectorCodec.ElementCount | backend/web_service/src/main/java/com/tamakara/bakabooru/config/VectorConverter.java:34-41 | when the content between the brackets does not end in ',', the decoded vector has one more element than the content has commas |
| VectorCodec.SplitCount | backend/web_service/src/main/java/com/tamakara/bakabooru/config/VectorConverter.java:39 | splitting a non-empty text that does not end in the separator drops nothing |
| VectorCodec.TrailingCommaIgnored | backend/web_service/src/main/java/com/tamakara/bakabooru/config/VectorConverter.java:39 | "[x,]" decodes like "[x]", since the split drops trailing empty pieces |
| VectorCodec.BracketsUnchecked | backend/web_service/src/main/java/com/tamakara/bakabooru/config/VectorConverter.java:34 | the two outer characters are dropped without checking that they are brackets |
| Strings.Split | backend/web_service/src/main/java/com/tamakara/bakabooru/config/VectorConverter.java:39 | the pieces of a one-character split never contain the separator, and a text without the separator splits to itself |
| Strings.PiecesOfJoin | backend/web_service/src/main/java/com/tamakara/bakabooru/config/VectorConverter.java:22-39 | splitting what was joined with ',' recovers the parts when no part contains ',' |
| Strings.Trim | backend/web_service/src/main/java/com/tamakara/bakabooru/module/gallery/service/SearchService.java:220 | String.trim: removes exactly the leading and trailing characters up to U+0020; the result is empty exactly when every character is such |
| Strings.BlanksDiffer | backend/web_service/src/main/java/com/tamakara/bakabooru/module/gallery/service/SearchService.java:219-220 | hasText, trim and \s use different character sets: U+3000 has no text, yet trim keeps it and \s does not match it; U+0001 is cut by trim yet counts as text |
| Settings.RefreshCache | backend/web_service/src/main/java/com/tamakara/bakabooru/module/system/service/SystemSettingService.java:37-49 | the cache is replaced by exactly the database's rows, and the database is unchanged |
| Settings.GetAllSettings | backend/web_service/src/main/java/com/tamakara/bakabooru/module/system/service/SystemSettingService.java:55-72 | the answer is the cache's content; a non-empty cache is answered as is, and an empty one is refreshed first; over a coherent cache every answered entry is the database's value |
| Settings.GetSetting | backend/web_service/src/main/java/com/tamakara/bakabooru/module/system/service/SystemSettingService.java:74-89 | a cache hit answers the cached value and changes nothing; a miss fails with "Setting with key: <key> not found" exactly when the database also lacks the key, and otherwise writes that one key back into the cache |
| Settings.GetSettingReadsThrough | backend/web_service/src/main/java/com/tamakara/bakabooru/module/system/service/SystemSettingService.java:74-89 | over a coherent cache a read answers the database's value, fails exactly for unknown keys, keeps the cache coherent, and makes a second read a cache hit |
| Settings.GetBooleanSetting | backend/web_service/src/main/java/com/tamakara/bakabooru/module/system/service/SystemSettingService.java:93-95 | the setting is true exactly when its value is "true" in any letter case, and it fails exactly when the read fails |
| Settings.AsMap | backend/web_service/src/main/java/com/tamakara/bakabooru/module/system/service/SystemSettingService.java:126 | the update map has exactly the update's keys, each with its value |
| Settings.MissingKeys | backend/web_service/src/main/java/com/tamakara/bakabooru/module/system/service/SystemSettingService.java:134-137 | the keys reported missing are exactly the update keys the database lacks |
| Settings.UpdateSettings | backend/web_service/src/main/java/com/tamakara/bakabooru/module/system/service/SystemSettingService.java:121-152 | a null or empty update changes nothing; the update fails, naming the missing keys, exactly when some key is not in the database; otherwise both the database and the cache take every new value and keep every other entry |
| Settings.NoneMissing | backend/web_service/src/main/java/com/tamakara/bakabooru/module/system/service/SystemSettingService.java:132-139 | no key is reported missing exactly when the database has every key of the update |
| Settings.UpdateThenRead | backend/web_service/src/main/java/com/tamakara/bakabooru/module/system/service/SystemSettingService.java:121-152 | a successful update keeps the cache coherent, and reading an updated key afterwards answers its new value |
| Settings.FailedUpdateWritesNothing | backend/web_service/src/main/java/com/tamakara/bakabooru/module/system/service/SystemSettingService.java:132-139 | an update naming any key the database lacks fails and reports that key, so neither store is written |
| Settings.UpdateSetting | backend/web_service/src/main/java/com/tamakara/bakabooru/module/system/service/SystemSettingService.java:113-115 | updating one key fails exactly when it is not in the database; otherwise that key takes the new value in both stores |
| Settings.PartialCacheHidesSettings | backend/web_service/src/main/java/com/tamakara/bakabooru/module/system/service/SystemSettingService.java:55-89 | after a cache miss has written one key back into an emptied cache, listing all settings answers that one key although the database holds more |
| Settings.GetAllSettingsComplete | backend/web_service/src/main/java/com/tamakara/bakabooru/module/system/service/SystemSettingService.java:55-72 | refreshing whenever the cache has fewer entries than the database makes the listing over a coherent cache equal the whole database |

## Left out

- Object storage, the local file system, ImageIO, metadata-extractor and Thumbnailator are state maps or answer records. Presigned URLs, URL encoding, backups and file serving are not modelled.
- The Redis 3-day expiry of task payloads and the blocking-pop timeout are not modelled. Payloads never expire, and a pop returns an option.
- The worker thread, `Thread.sleep` back-off, interrupt handling and cross-thread visibility of `processingTask` are not modelled. One loop iteration is one transition (`UploadWorker.Step`).
- Floating point is not modelled: the sigmoid, image preprocessing, ONNX and CLIP inference, and pgvector cosine distance. Distances and similarities are opaque reals given as parameters, and the tagger receives its probabilities.
- VectorCodec.Encode: vector elements are an abstract type with a rendering and a parse function. They are not Java doubles, because `Double.toString` and `Double.parseDouble` are floating-point conversions.
- The SHA-256 digest (FIPS 180-4) is a parameter. The JWT, HMAC and Base64 code behind the interceptor's token check is not modelled: token validity, initialisation and the password flag are boolean inputs.
- ImageSearch.Filtered: the keyword is matched as a plain substring. SQL LIKE gives '%' and '_' in a keyword a wildcard meaning, which is not modelled.
- The order of rows with equal sort keys (random keys, distances, field values) is left to the database. The model breaks ties by catalogue order.
- ImageSearch.PageOrder: Spring Data's property lookup is reduced to the image's attribute names and its getter-only `tags`. Nested paths (`a.b`), the splitting of a camel-case name into a path, and the "Did you mean" suggestions Spring Data may append to its message are not modelled. `Introspector.decapitalize` lowers the first letter with Java's Unicode `Character.toLowerCase`; the model lowers ASCII letters only.
- ImageSearch.UnknownAttribute: the text of the criteria API's error for an unknown attribute is Hibernate 6's wording as the model states it. Other Hibernate versions word it differently or wrap it in another exception.
- ImageSearch.ColumnSortFailure: a sort by `tagRelations` or `embedding` resolves and orders by an opaque column value. The join Spring Data adds for a collection, and how the database orders a vector column, are not modelled.
- ImageSearch.IntendedSearch: the corrected search orders by the specification's own order and never fails. It does not reject unknown column names; it models only the ordering the findings are about.
- `distanceThreshold` is set by `SearchService.searchByImage` but never read by `ImageSearchService`. The model therefore applies no distance filter.
- Case folding is ASCII only, for Java `toLowerCase`/`equalsIgnoreCase` and for Python `str.lower`.
- The Int, Long and Double setting parsers of `SystemSettingService` are not modelled; only the Boolean one is. The threshold the worker reads arrives through the tagging answer.
- Settings.RefreshCache: the `value` column of a settings row is nullable. A row with a null value makes `Collectors.toMap` throw a `NullPointerException`, so `refreshCache`, and `getAllSettings` on an empty cache, fail. The model stores every value as a string and does not cover that failure.
- Settings.GetAllSettings: inherits the missing null-value failure of Settings.RefreshCache.
- A null value inside a settings update, and duplicate keys in the database listing that `Collectors.toMap` would reject, are not modelled.
- Settings.MissingKeys: the missing keys are listed in update order. Java prints them in the iteration order of the map's key set.
- UploadWorker.SaveImageMetadata: the database's rejection of a row with a null file name or size is one failure value given as a parameter.
- The gallery `ImageService.downloadImages` writes zip entries. Only the entry names are modelled (`GalleryImages.ZipEntries`); the streams are not. Two entries with the same name are not detected.
- Catalogue.DeleteImages: the `image` module's `deleteImages` runs in one transaction. On failure the model restores the rows but not the deleted objects. The transaction manager itself is not modelled.
- Listing, paging and searching of tags, and the listing of images in the `gallery` image service, are plain repository calls and are not modelled.
- `UploadQueueService` runs its processing inline. Its `getAllTasks`, `getTask`, `deleteTask` and `clearTasks` only delegate to the task store, which is modelled as `TaskStore`.
- The thumbnail size is a parameter. Thumbnail image generation is an answer.
- The AI service's model download, label metadata loading, logging, tracebacks and prints are not modelled. The database connection and cursor of the tag matcher are replaced by a sequence of rows.
- Tagger.ArgSort: numpy's `argsort` is modelled as a stable sort. Its default quicksort may order equal probabilities differently.
- TagMatcher.Nearest: among rows with equal similarity, the first in table order is returned. SQL leaves that tie to the database.
- SemanticSearch.ParseTags: the language model's reading of the description is a parameter. Python `str(e)` of an exception is the failure's message text.
- GalleryImages.AddTag: the `gallery` image service calls `tagService.findTag(name)`, which `TagService` does not declare (it has `getTagByName`, which throws instead of answering null). The model takes it to be a lookup by name in the tag table that answers null when the name is absent, and stores the found tag in a set of tag rows, whereas `gallery/entity/Image` declares its tags as a list of strings.
- GalleryImages.RegenerateTags: the service calls a one-argument `tagService.tagImage(objectName)` answering `Map<String, List<String>>`, `tagService.findOrCreateTag(name, type)` and `image.setTags(Set<Tag>)`. `TagService` declares only `tagImage(String, double)` answering `Map<String, Double>`, and no `findOrCreateTag`. The model takes the tagger's answer as a parameter of that assumed shape (category to names), takes `findOrCreateTag` to be `TagTable.FindOrCreate`, and stores the tags as a set of tag rows.
- UploadQueue.TagAndSave: the `upload` service calls the same assumed one-argument `tagService.tagImage` and `image.setTags(Set<Tag>)` on the `gallery` image entity. The model gives them the meaning stated for GalleryImages.RegenerateTags; its own find-or-create goes through the tag repository as written.
- The texts of JVM-raised `NullPointerException`s (`SearchService.UnboxNull`, `UploadQueue.FilenameNull`) are the helpful messages of JEP 358 as Java 17 words them. They name the local variable only when the class is compiled with local-variable tables (`-g`); otherwise the JVM writes a placeholder such as "<local4>", which the model does not cover.
- Catalogue.AddTag: a duplicate (image, tag) relation fails with a fixed data-integrity text; the database driver's exact wording of the unique-constraint violation is not modelled. The relation is taken to be inserted on `save`, before the DTO is built, because its identifier is generated by the database.
- Catalogue.ToDto: the DTO carries the object keys, not the presigned URLs `getFileUrl` signs from them; the DTO's other columns and tag list are the saved row itself. The thumbnail size setting is a parameter. The update time `removeTag` sets from the clock is not modelled.
- UploadWorker.SaveImageMetadata: the tagger's entries come from a map and so name distinct tags. The model takes them as a list and does not reject a repeated name; with one, the saved row would link that tag twice.
- ImageSearch.RandomKey: the product `id * seed` is computed by the database as a bigint, and PostgreSQL fails the page query with "bigint out of range" once |id·seed| reaches 2^63, which needs an id above 2^32. The model multiplies unbounded integers and gives every id a key.
- TaskStore.ClearCompletedOrFailed: the `upload` module's `UploadTask` class declares only `id`, `filename`, `size`, `tempFilePath` and `errorMessage`. `UploadTaskStore` reads `getStatus()` and compares with `UploadTask.UploadStatus` values the class does not declare, so it does not compile as written. The model gives the task a status with the states the `upload` services name: PENDING, PROCESSING, TAGGING, SAVING, COMPLETED and FAILED.
- UploadQueue.NewTask: the service sets a status, a hash, a tagging flag and creation and update times, none of which `UploadTask` declares. The model assumes the status, hash and tagging flag as fields of the task and leaves the times out.
- UploadQueue.ValidateFile: the service calls `getLongSetting(key, default)` and `getSetting(key, default)`, but `SystemSettingService` declares only the one-argument forms, which fail for a missing key. The model assumes a lookup that answers the default for a missing setting, and receives both settings as a parameter.
- Controllers, the Vue front end, the LLM prompt, the model manager, the vector store and tag initialisation are not modelled. Neither are three draft files that cannot run as written: the `upload` module's `UploadTaskService` does not compile, `QueryParseService` calls a method `AiService` lacks, and `parse_query_service` passes an argument the tag matcher's constructor does not take. The `gallery` `ImageService` and the `upload` `UploadQueueService` do not compile as written either; they are modelled under the tag-service signatures stated above.

## Findings

| source | as written | input that shows it | evidently intended | confidence | as-written member | corrected member |
|---|---|---|---|---|---|---|
| backend/web_service/src/main/java/com/tamakara/bakabooru/module/image/service/ImageService.java:108 | `removeTag` calls `removeIf` on the list that `Image.getTags()` builds afresh, so no relation of the image is removed | an image with a relation to tag 7, then `removeTag(id, 7)`: the image still has tag 7 | the image's relations to that tag are removed and everything else is kept | not executed | Catalogue.RemoveTagAsWrittenKeepsTag | Catalogue.RemoveTag |
| backend/web_service/src/main/java/com/tamakara/bakabooru/module/system/service/SystemSettingService.java:55-89 | `getAllSettings` refreshes only when the cached hash is empty, but a `getSetting` miss writes back a single key | database {a: 1, b: 2} with an emptied cache; `getSetting("b")`, then `getAllSettings()` answers {b: 2} alone | `getAllSettings` answers every setting in the database | not executed | Settings.PartialCacheHidesSettings | Settings.GetAllSettingsComplete |
| backend/web_service/src/main/java/com/tamakara/bakabooru/module/gallery/service/SearchService.java:116 | the probe's pageable sorts by "similarity"; Spring Data looks that name up as an image column after the specification has set its distance order, so the page query throws and every call ends in "以图搜图失败: No property 'similarity' found for type 'Image'" | any probe whose upload and embedding succeed, with page 0 and size 20 | the images ranked by ascending cosine distance to the probe | not executed | SearchService.SearchByImageFails | SearchService.RankedSearchByImage |
| backend/web_service/src/main/java/com/tamakara/bakabooru/module/gallery/service/SearchService.java:188 | a similarity sort with a semantic query becomes a pageable sort by "similarity", which fails the same way | sort "similarity,desc" with the semantic query "cat" and a text embedding | the images ranked by distance to the text embedding in the requested direction | not executed | SearchService.SemanticSimilarityFails | ImageSearch.IntendedRanksByDistance |
