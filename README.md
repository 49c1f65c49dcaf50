# hugo-gallery in Dafny

hugo-gallery is a small command-line importer for a Hugo photo site. Given a
source directory of photos, a section under `content/` and a title, it does
four things:

- It copies into the section's content directory every entry of the source
  directory that passes a test on its name alone. The entry must not be a
  directory. Its lowercased name must have its first '.' after the first
  character and must hold ".jpg" somewhere, so "x.jpg.bak" is copied and
  "x.jpeg" is not.
- It writes the section's `index.md`, a gallery post whose cover is the last
  photo copied and whose date is the latest capture time read from the photos.
- If the parent directory has no collection post `<parent>.md` beside it, it
  copies the cover into `assets/images/<lowercased parent name>-<cover>` and
  writes that collection post.
- In the part modelled here, it ends normally or with a panic raised by its
  `check` helper.

This project models that importer, the core of `hugo-gallery.go`, and proves
what it does to the files.

Modules:

- `Text` (`text.dfy`) covers `strings.ToLower` on ASCII and `strings.Index`.
  It proves that `IndexOf` finds the first occurrence or reports -1 exactly
  when there is none.
- `Timestamps` (`timestamps.dfy`) covers capture times, `time.Time.After`
  and the `"2006-01-02"` layout. The loop's starting value
  `time.Date(1970, 0, 0, …)` normalises to 30 November 1969. A formatted
  date with a year from 0 to 9999 parses back to the same calendar date.
- `Paths` (`paths.dfy`) covers clean slash-separated paths and the
  `filepath` functions the importer uses: `Join`, `Split`, `Dir` and
  `Base`. It defines `parentDir`, and proves these facts:
  - `parentDir` is the immediate parent.
  - `Join(Dir(d), Base(d) + ".md")` is the text of `d` followed by `.md`.
  - No file inside a non-empty directory is the markdown file beside that
    directory's parent.
- `FrontMatter` (`frontmatter.dfy`) covers the two post stencils. Executing
  them escapes nothing. A reader of the front matter gets back exactly the
  title, date, type and cover that were filled in when the title has no
  line break and the date, type and cover hold no '"'. Otherwise the post
  does not read back. A photo named `a"b.jpg`, for example, is kept and
  becomes the cover, and its post does not read back.
- `Gallery` (`gallery.dfy`) holds the rest:
  - the entry filter, and the loop of `main` as a method over a `Disk`
    object whose map of files it updates;
  - `copyFile`, `generateGallery`, `parentPost` and `generateCollection`
    as methods;
  - `Import` for the whole of `main` after the directory listing, proved
    equal to the specification function `Run`;
  - the lemmas about `Run`: where each post lands, when the collection
    post is written, when the run panics, which files it touches, and that
    a second import never rewrites the collection post.

The file system is a map from path text to contents. `os.Stat` succeeding
is membership in that map. The capture time that `exiftool` reports is a
function parameter `exif` from a file's bytes to a time. It is applied to
the copy in the content directory, because that is the file the source
reads.

The model follows `hugo-gallery.go` as written, also where that differs
from what a reader of the tool's purpose might expect:

- `parentDir` goes up exactly one level. There is no walk up the ancestors
  and no root marker.
- The collection title is the directory name unchanged. Hyphens are not
  replaced by spaces.
- The cover is the last accepted entry of the listing, not the photo with
  the latest capture time (`Gallery.CoverIgnoresDates`). `ioutil.ReadDir`
  sorts its entries by name, so in the tool this is the accepted name that
  sorts last. The model leaves the order of the listing free.
- The date used when no photo is accepted is 1969-11-30, not 1970-01-01.
- When no photo was accepted and the collection post is missing, the copy
  of the cover reads the source directory itself. That copy fails, so the
  run panics after `index.md` and an empty asset are written
  (`Gallery.RunCollection`).

## Model

| member | source | states |
|---|---|---|
| `Text.Lower` | hugo-gallery.go:88 | strings.ToLower keeps the length, maps each ASCII capital to its small letter and keeps every other character |
| `Text.LowerIdempotent` | hugo-gallery.go:88 | lowercasing twice gives the same name as lowercasing once |
| `Text.LowerKeepsNonLetters` | hugo-gallery.go:88 | a non-capital character, such as '.', is at a position of the lowered name exactly when it, or its capital, was there before |
| `Text.IndexOf` | hugo-gallery.go:90-91 | strings.Index returns -1 or an index at which the whole pattern fits inside the text |
| `Text.IndexOfFound` | hugo-gallery.go:90-91 | a found index is an occurrence of the pattern with no earlier occurrence |
| `Text.IndexOfAbsent` | hugo-gallery.go:90-91 | -1 means the pattern occurs nowhere |
| `Text.IndexOfFirst` | hugo-gallery.go:90-91 | a found index is an occurrence with no earlier occurrence, and -1 means the pattern occurs nowhere |
| `Text.IndexOfIs` | hugo-gallery.go:90-91 | the first occurrence of the pattern is the index reported |
| `Text.IndexOfNone` | hugo-gallery.go:90-91 | a pattern that occurs nowhere gets -1 |
| `Text.LowerOfLowercase` | hugo-gallery.go:88 | a name without capitals is its own lowercase |
| `Text.IndexOfChar` | hugo-gallery.go:90 | a character is absent exactly when Index reports -1 for it; a found index holds that character |
| `Text.IndexOfAtFirstChar` | hugo-gallery.go:91 | an occurrence with no copy of the pattern's first character before it is the one Index reports |
| `Timestamps.After` | hugo-gallery.go:101 | time.Time.After on UTC times: the lexicographic order of year, month, day, hour, minute and second; AfterIsStrictTotalOrder proves it a strict total order |
| `Timestamps.AfterIsStrictTotalOrder` | hugo-gallery.go:101 | After is irreflexive, transitive, asymmetric, and orders any two distinct times |
| `Timestamps.DigitsRoundTrip` | hugo-gallery.go:139 | a number below 10^width is written in exactly width zero-padded digits that read back as the number |
| `Timestamps.Digits` | hugo-gallery.go:139 | the zero-padded decimal digits Format writes for a field: at least one character, all digits; DigitsRoundTrip states their value |
| `Timestamps.FormatDate` | hugo-gallery.go:139 | the "2006-01-02" layout: year in four digits, month and day in two, joined by '-'; FormatDateRoundTrip and FormatDateCharacters state what it produces |
| `Timestamps.FormatDateRoundTrip` | hugo-gallery.go:139 | for years 0 to 9999 the "2006-01-02" layout gives ten characters that parse back to the same year, month and day |
| `Timestamps.ParseFields` | hugo-gallery.go:139 | four, two and two digits joined by '-' parse as the year, month and day they spell |
| `Timestamps.ValueBounds` | hugo-gallery.go:139 | a run of digits reads as a value below 10 to the power of its length |
| `Timestamps.FormatDateCharacters` | hugo-gallery.go:139 | a formatted date holds only digits and '-' |
| `Timestamps.SentinelDate` | hugo-gallery.go:86 | the starting value time.Date(1970, 0, 0, ...) formats as 1969-11-30 |
| `Paths.Segments` | hugo-gallery.go:174 | the names Join takes from a relative name are non-empty and hold no separator |
| `Paths.JoinName` | hugo-gallery.go:95 | joining keeps a path valid; joining one name appends exactly that name |
| `Paths.RenderChild` | hugo-gallery.go:95 | the text of dir/name is the directory's prefix followed by the name |
| `Paths.Split` | hugo-gallery.go:119 | filepath.Split cuts the text into a directory part that is empty or ends in '/', and a last part with no '/' |
| `Paths.DirOfPrefix` | hugo-gallery.go:120 | filepath.Dir of the first half of a Split: "." for "", "/" for "/", otherwise the text without its trailing separator |
| `Paths.ParentDir` | hugo-gallery.go:118-123 | parentDir is Dir of the Split prefix; it is the immediate parent, which joined with the base name gives the path back |
| `Paths.Dir` | hugo-gallery.go:112 | filepath.Dir keeps whether the path is absolute, drops exactly the last name, and keeps the path clean |
| `Paths.Base` | hugo-gallery.go:113 | filepath.Base is never empty, and of a non-empty clean path it is a single name |
| `Paths.SplitParts` | hugo-gallery.go:119 | a non-empty path's text is the prefix of its last name, empty or ending in '/', followed by that name |
| `Paths.DirBaseJoin` | hugo-gallery.go:111-113 | a non-empty path is its Dir joined with its Base |
| `Paths.NamedSiblingMarkdown` | hugo-gallery.go:180 | joining name + ".md" onto a directory gives the text of the joined name followed by ".md" |
| `Paths.SegmentsAtSlash` | hugo-gallery.go:174 | the names of a text are the part before its first '/', if any, followed by the names of the rest |
| `Paths.SiblingMarkdown` | hugo-gallery.go:180 | Join(Dir(d), Base(d) + ".md") is the text of d followed by ".md", also for "." and "/" |
| `Paths.RenderSlashes` | hugo-gallery.go:127 | a path's text holds one separator between each two names plus the leading one of an absolute path |
| `Paths.ChildIsNotParentMarkdown` | hugo-gallery.go:125-128 | no file inside a non-empty directory has the path parentPost checks |
| `Paths.LastNameConcat` | hugo-gallery.go:166 | the last name of a concatenation is that of the right part if it holds a separator, else the left part's last name extended by it |
| `Paths.PathLastName` | hugo-gallery.go:174 | joining a name onto a directory keeps the name's last part as the path's last name |
| `FrontMatter.Expect` | hugo-gallery.go:21-27 | the reader accepts a literal exactly when the text starts with it, and returns the rest |
| `FrontMatter.TakeUntil` | hugo-gallery.go:21-27 | the reader splits the text around a character, leaving that character out of the first part |
| `FrontMatter.TakeUntilJoin` | hugo-gallery.go:21-27 | text made of a part without the character, the character and a rest is split back into that part and that rest |
| `FrontMatter.ReadField` | hugo-gallery.go:21-27 | a field read is the literal, the value without the stop character, the stop character and the rest |
| `FrontMatter.ReadFieldJoin` | hugo-gallery.go:21-27 | a field written as literal, value and stop character reads back as that value and the rest |
| `FrontMatter.Fill` | hugo-gallery.go:21-35 | the executed stencil escapes nothing: it is the stencil's 44 characters of text plus the four fields, between the "---" delimiter lines |
| `FrontMatter.ParsedFieldsFit` | hugo-gallery.go:21-35 | every post the reader accepts has a title without a line break and a date, type and cover without '"' |
| `FrontMatter.FillReadsBackIff` | hugo-gallery.go:21-35 | a filled stencil reads back as its own fields exactly when the title has no line break and the date, type and cover hold no '"' |
| `FrontMatter.GalleryPost` | hugo-gallery.go:157-163 | generateGalleryPost: galleryTemplate executed on the item, the stencil with type "gallery"; GalleryPostRoundTrip states what it holds |
| `FrontMatter.CollectionPost` | hugo-gallery.go:191-197 | generateCollectionPost: collectionTemplate executed on the item, the stencil with type "collection"; CollectionPostRoundTrip states what it holds |
| `FrontMatter.FillRoundTrip` | hugo-gallery.go:21-35 | a filled stencil reads back as exactly its title, date, type and cover |
| `FrontMatter.GalleryPostRoundTrip` | hugo-gallery.go:21-27 | the gallery post reads back with type "gallery" and the item's title, date and cover |
| `FrontMatter.CollectionPostRoundTrip` | hugo-gallery.go:29-35 | the collection post reads back with type "collection" and the item's title, date and cover |
| `FrontMatter.GalleryIsNotCollection` | hugo-gallery.go:21-35 | a gallery post is never a collection post |
| `FrontMatter.PostDeterminesItem` | hugo-gallery.go:21-35 | two items whose posts of one type are equal have the same title, date and cover |
| `Gallery.Check` | hugo-gallery.go:45-54 | check returns 0 for nil; for an error it panics with that error, so 1 is never seen |
| `Gallery.Accepted` | hugo-gallery.go:88-93 | the loop's test on the lowercased name and IsDir; AcceptedIff states it in plain terms |
| `Gallery.AcceptedIff` | hugo-gallery.go:88-93 | an entry is kept exactly when it is not a directory, its name does not start with '.', holds a '.', and holds ".jpg" in any case |
| `Gallery.FilterTakesCapitals` | hugo-gallery.go:88-93 | "A.JPG" is kept |
| `Gallery.FilterTakesInnerJpg` | hugo-gallery.go:88-93 | "x.jpg.bak" is kept: ".jpg" may occur anywhere in the name |
| `Gallery.FilterSkips` | hugo-gallery.go:88-93 | ".x.jpg", "x.jpeg", "README" and a directory "d.jpg" are skipped |
| `Gallery.IndexIsNotPhoto` | hugo-gallery.go:90-93 | no kept entry is named index.md |
| `Gallery.Photos` | hugo-gallery.go:87-93 | the entries the loop copies, in listing order; no more than the listing has |
| `Gallery.PhotosAreAccepted` | hugo-gallery.go:87-93 | an entry is among the photos exactly when it is in the listing and kept by the filter |
| `Gallery.TakesLowercaseJpg` | hugo-gallery.go:88-93 | a visible file whose name has no capitals and holds ".jpg" after its start, with no '.' before that, is kept |
| `Gallery.QuotedCoverBreaksPost` | hugo-gallery.go:87-94 | a photo named a"b.jpg is kept and becomes the cover, and the gallery post naming it does not read back |
| `Gallery.CoverOf` | hugo-gallery.go:85-94 | coverImage after the loop; CoverIsLastPhoto and ListingStep state its value |
| `Gallery.CoverIsLastPhoto` | hugo-gallery.go:94 | the cover is the last kept entry's name as listed, and "" exactly when no entry is kept |
| `Gallery.TakenTimes` | hugo-gallery.go:100 | the capture times read for the photos, one per photo in listing order, each the exif of that photo's bytes |
| `Gallery.LatestOf` | hugo-gallery.go:100-103 | the running After-maximum of a sequence of times from a start value; LatestIsMaximum, LatestKeepsStart and LatestStep state its value |
| `Gallery.Latest` | hugo-gallery.go:86-103 | latestModified after the loop: the running After-maximum of the photos' capture times from the sentinel on; LatestIsMaximum states its value |
| `Gallery.LatestIsMaximum` | hugo-gallery.go:100-103 | the latest time is the start value or a photo's time, and no photo's time is After it |
| `Gallery.LatestKeepsStart` | hugo-gallery.go:101-103 | when no time is After the start value, the start value stays |
| `Gallery.CoverIgnoresDates` | hugo-gallery.go:94-103 | with two photos of which the first is later, the cover is the second and the date the first's |
| `Gallery.ListingStep` | hugo-gallery.go:87-94 | one more entry joins the photos and becomes the cover exactly when it is kept |
| `Gallery.PathInInjective` | hugo-gallery.go:95 | two different names in one directory get two different paths |
| `Gallery.PathIn` | hugo-gallery.go:95 | filepath.Join(dir, name) as text; PathInInjective and RenderChild state its shape |
| `Gallery.CopyAll` | hugo-gallery.go:95 | the files after each photo is copied into the content directory in listing order; CopyAllFrame and CopyAllContents state the result |
| `Gallery.CopyAllFrame` | hugo-gallery.go:95 | copying adds exactly the photos' paths and leaves every other file as it was |
| `Gallery.CopyAllContents` | hugo-gallery.go:95 | each photo's copy holds that photo's bytes |
| `Gallery.Disk.Write` | hugo-gallery.go:224-232 | creating and writing a file replaces that file and nothing else |
| `Gallery.Disk.Exists` | hugo-gallery.go:128-133 | os.Stat of a path succeeds exactly when the path is in the file map |
| `Gallery.ReadPhotoDate` | hugo-gallery.go:100 | readPhotoDate is the exif function applied to the bytes now stored at the path |
| `Gallery.ImportPhotos` | hugo-gallery.go:85-105 | the loop leaves the photos copied, the cover the last photo and the date the running maximum of the copies' capture times |
| `Gallery.SourceFile` | hugo-gallery.go:174 | an empty cover name opens the source directory itself |
| `Gallery.SourceFileOfPhoto` | hugo-gallery.go:174 | a photo of the listing is read back whole |
| `Gallery.CopyOutcome` | hugo-gallery.go:218-235 | copyFile as a function: a missing source panics with the files unchanged, a directory panics after an empty destination is created, a file's bytes replace the destination; CopyFile is proved against it |
| `Gallery.CopyFile` | hugo-gallery.go:218-235 | a missing source panics with nothing created; a directory panics after an empty destination is created; a file is copied whole |
| `Gallery.IndexPath` | hugo-gallery.go:146 | filepath.Join(contentPath, "index.md"); IndexLastName states its last name |
| `Gallery.GenerateGallery` | hugo-gallery.go:136-155 | index.md in the content directory holds the gallery post of the title, the formatted date and the cover; nothing else changes |
| `Gallery.ParentMarkdown` | hugo-gallery.go:126-127 | parentDir(contentPath) + ".md"; CollectionLandsOnChecked and ChildIsNotParentMarkdown state where it lies |
| `Gallery.ParentPost` | hugo-gallery.go:125-134 | the answer is whether parentDir + ".md" exists |
| `Gallery.CoverReference` | hugo-gallery.go:166 | contentImage: "images/" + the lowercased collection name + "-" + the cover; AssetLastName states the asset's name |
| `Gallery.AssetPath` | hugo-gallery.go:174 | filepath.Join(assetsDir, contentImage) for the run's collection and cover; AssetLastName, AssetIsNotIndex and AssetHasDash state its name |
| `Gallery.AssetLastName` | hugo-gallery.go:166 | the cover's asset is named after what follows the last '/' of "images/" plus the lowercased name, then '-', then the cover |
| `Gallery.GenerateCollection` | hugo-gallery.go:165-189 | the cover is copied to assets/images/<lowercased name>-<cover>; when that did not panic, the collection post is written beside the collection |
| `Gallery.CollectionOutcome` | hugo-gallery.go:165-189 | generateCollection as a function: the cover copy, then the collection post only when the copy returned; GenerateCollection is proved against it and CollectionOutcomeFrame states what it touches |
| `Gallery.CollectionItem` | hugo-gallery.go:166-171 | collectionItem of a run: the parent's name as title, the formatted latest date and the asset reference as cover; CollectionItemReadsBack states what its post holds |
| `Gallery.CollectionOutcomeFrame` | hugo-gallery.go:165-189 | generateCollection touches only the asset and the collection post |
| `Gallery.Staged` | hugo-gallery.go:85-106 | the files after the photos are copied and a post is written to index.md; StagedFrame and StagedKeeps state the result |
| `Gallery.GalleryFiles` | hugo-gallery.go:85-106 | the files after the loop and generateGallery of a run, before parentPost |
| `Gallery.Run` | hugo-gallery.go:85-115 | the outcome and the files of main after the listing; Import is proved equal to it, and the lemmas below state its properties |
| `Gallery.Import` | hugo-gallery.go:85-115 | main after the listing ends, and leaves the files, as Run says |
| `Gallery.CollectionLandsOnChecked` | hugo-gallery.go:108-115 | the collection post is written to the very path parentPost checked |
| `Gallery.GalleryKeepsParent` | hugo-gallery.go:95-108 | copying photos and writing index.md neither creates nor changes the parent's post |
| `Gallery.CoverHasNoSlash` | hugo-gallery.go:94 | the cover holds no separator |
| `Gallery.AssetIsNotIndex` | hugo-gallery.go:174 | the cover's asset is never the gallery's index.md |
| `Gallery.RunWritesGallery` | hugo-gallery.go:106 | after a run, index.md holds the gallery post with the title as given, the latest capture date and the last photo as cover |
| `Gallery.EmptyAssetIsNotMarkdown` | hugo-gallery.go:174 | with no photos the cover's asset is not the parent's post |
| `Gallery.RunCases` | hugo-gallery.go:108-115 | a run ends normally with the staged files, with the asset and the collection post added, or with a panic after an empty asset |
| `Gallery.CoverSource` | hugo-gallery.go:174 | the cover copy reads the last photo, or the source directory when no photo was kept |
| `Gallery.RunCollection` | hugo-gallery.go:108-115 | an existing parent post is kept and the run ends normally; a missing one is written when a photo was kept; otherwise the run panics, writes an empty asset and no post |
| `Gallery.RunFrame` | hugo-gallery.go:85-115 | a run changes no file but the photos' copies, index.md, the cover's asset and the parent's post |
| `Gallery.ImportTwice` | hugo-gallery.go:108-115 | after a run that ended normally, a second import into the same directory ends normally and leaves the collection post as it was |
| `Gallery.RunKeepsStaged` | hugo-gallery.go:110-115 | the collection step adds no file but the asset and the parent's post, and keeps every other staged file as it was |
| `Gallery.RunKeepsFile` | hugo-gallery.go:110-115 | a staged file that is neither the asset nor the parent's post ends the run with the same contents |
| `Gallery.StagedFrame` | hugo-gallery.go:95-106 | before the collection step the files are the old ones plus the photos' copies and index.md, with every other file unchanged |
| `Gallery.PhotosAreNotParent` | hugo-gallery.go:125-128 | no photo's copy is the parent's post |
| `Gallery.IndexIsNotParent` | hugo-gallery.go:125-128 | index.md of the section is not the parent's post |
| `Gallery.LatestStep` | hugo-gallery.go:100-103 | one more photo makes its time the latest exactly when it is After the latest so far |
| `Gallery.PhotoAppended` | hugo-gallery.go:95-100 | one more photo adds its copy to the files and its capture time to the times read |
| `Gallery.PhotosNamed` | hugo-gallery.go:87-93 | the photos of a listing with distinct names have distinct names |
| `Gallery.PhotoCopied` | hugo-gallery.go:95 | a photo's copy exists and holds its bytes |
| `Gallery.StagedHoldsPhoto` | hugo-gallery.go:95-106 | before the collection step each photo's copy holds the photo and is not the parent's post |
| `Gallery.RunCopiesPhotos` | hugo-gallery.go:95 | after a run every photo's copy holds the photo unless the cover's asset is written to that same file |
| `Gallery.CollectionItemReadsBack` | hugo-gallery.go:166-171 | a collection post reads back with the name as title and "images/" + lowercased name + "-" + cover as cover |
| `Gallery.CollectionPostReadsBack` | hugo-gallery.go:165-171 | a run's collection post reads back as type "collection", titled with the directory's name as it is, with the latest capture date |

## Left out

- Argument handling, `HUGO_DIR`, and the usage message with `syscall.Exit` (lines 57-68) are left out. A run starts from a `Request` that holds the title, the content path and the assets path.
- The `os.Stat`/`os.Mkdir` of the content directory (lines 70-77) is left out, as is every directory. Directories are not entries of the file map; the content directory and `assets/images` are taken to exist.
- A failing `ioutil.ReadDir` (lines 79-83) is left out. The listing is a parameter. Its names are single, distinct path elements, which is what ReadDir returns.
- `readPhotoDate` (lines 199-216) is the parameter `exif`. The model does not cover the shell command, `exiftool`'s output, `log.Fatal`, the index panic on output without the tag, or the zero time returned after a parse error. Nor does it cover that the photo's path goes unquoted into `sh -c` (line 202): a kept name such as `my photo.jpg` or `a.jpg; touch x` changes the command, so the run stops through `log.Fatal` or the shell runs what follows the `;`.
- I/O failures other than the cover copy are left out: a failing `os.Create`, `Write`, `Sync` or `Close`, a full disk, and permissions. So is the `os.Exit(1)` after a photo copy fails, which `copyFile` never reaches because `check` panics first.
- `Gallery.ImportPhotos`, `Gallery.GenerateCollection`: the source directory is taken to be a different directory from `contentPath` and from `assets/images`. An entry carries its own bytes, and the source files are not part of the file map. When a section is imported from its own content directory, `copyFile` opens a photo, `os.Create` truncates that same file, and `io.Copy` copies nothing. The photos are then left empty, and their capture times and the cover's asset are read from empty files. The model does not capture this aliasing: it gives every copy the photo's bytes.
- `Gallery.ValidListing`: `ioutil.ReadDir` returns its entries sorted by name. The model leaves the order of the listing free, and every result about a listing holds for any order.
- Durability is left out. `f.Sync()` before the buffered write and the deferred `Close` have no effect on the map.
- `Text.Lower` covers ASCII only. `strings.ToLower`'s Unicode case mapping of other letters is left out. Strings are sequences of characters, not UTF-8 bytes.
- `Paths.JoinName` takes names without "." or ".." elements. `filepath.Clean`'s resolution of those is left out.
- Time zones and nanoseconds are left out: a capture time is a UTC calendar tuple to the second.
- The `title` parameter of `generateCollection`, which the code never uses, is left out. So is the `TitleLowerCase` field, which is never set.
- The printed progress messages are left out.
- The `check(err)` calls after the stencils are parsed and executed (lines 157-163 and 191-197) never see an error: the stencils are fixed and every field is a string. `FrontMatter.GalleryPost` and `FrontMatter.CollectionPost` are the executed stencils.
- `hugo-gallery_test.go` is not part of this model. Its `Test_getTaken` calls a function that the source does not define, and it needs `exiftool`.
- `Gallery.RunCopiesPhotos`: it holds only for copies that are not the file the cover's asset is written to. Ruling that out would need the relation between `HUGO_DIR/content/<section>` and `HUGO_DIR/assets`, which the model keeps as two independent paths.
- `Gallery.RunCollection`: in the case where a photo was kept, it states the collection post and the outcome but not the asset's contents.
