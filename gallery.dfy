/** The importer of hugo-gallery.go: the loop in main that copies the photos
    of a source listing into the content directory while it keeps the cover
    image and the latest capture time, the gallery post, the existence check
    for the parent's collection post, and the collection post. */
module Gallery {
  import opened Text
  import opened Timestamps
  import opened Paths
  import opened FrontMatter

  type Bytes = seq<bv8>

  /** What a file holds: copied photo bytes or the text of a post. */
  datatype Blob = Binary(bytes: Bytes) | Markdown(text: string)

  /** One entry of ioutil.ReadDir(sourcePath). */
  datatype Entry = Entry(name: string, isDir: bool, data: Bytes)

  /** The names ReadDir returns are single, distinct path elements. ReadDir
      also sorts them by name; the model leaves the order free, and every
      result about a listing holds for any order. */
  predicate ValidListing(listing: seq<Entry>) {
    && (forall i :: 0 <= i < |listing| ==> IsName(listing[i].name))
    && (forall i, j :: 0 <= i < j < |listing| ==> listing[i].name != listing[j].name)
  }

  /** What goes wrong in a run: a copy whose source cannot be read. */
  datatype Failure = CopyFailed(source: string)

  /** How a Go call ends: it returns a value, or a panic unwinds it. */
  datatype Exit<T> = Returned(value: T) | Panicked(failure: Failure)

  /** check: nil gives 0; for an error the result 1 is set but the deferred
      panic fires before the caller can see it. */
  function Check(e: Option<Failure>): (r: Exit<int>)
    ensures r.Returned? <==> e.None?
    ensures r.Returned? ==> r.value == 0
    ensures e.Some? ==> r == Panicked(e.value)
  {
    match e
    case None => Returned(0)
    case Some(f) => Panicked(f)
  }

  // ---------------------------------------------------------------------
  // The entry filter
  // ---------------------------------------------------------------------

  /** The test of the loop: not a directory, the first '.' of the lowercased
      name after its first character, and ".jpg" somewhere in that name. */
  predicate Accepted(e: Entry) {
    var fileName := Lower(e.name);
    !e.isDir && IndexOf(fileName, ".") > 0 && IndexOf(fileName, ".jpg") != -1
  }

  /** The filter in plain terms: a file whose name does not start with '.',
      holds a '.', and holds ".jpg" in any letter case. */
  lemma AcceptedIff(e: Entry)
    ensures Accepted(e) <==>
      && !e.isDir
      && e.name != [] && e.name[0] != '.' && '.' in e.name
      && exists i :: OccursAt(Lower(e.name), ".jpg", i)
  {
    var l := Lower(e.name);
    IndexOfChar(l, '.');
    IndexOfFirst(l, ".");
    IndexOfFirst(l, ".jpg");
    if e.name != [] {
      LowerKeepsNonLetters(e.name, 0, '.');
    }
    if '.' in e.name {
      var i :| 0 <= i < |e.name| && e.name[i] == '.';
      LowerKeepsNonLetters(e.name, i, '.');
    }
    if '.' in l {
      var i :| 0 <= i < |l| && l[i] == '.';
      LowerKeepsNonLetters(e.name, i, '.');
    }
    if IndexOf(l, ".") > 0 {
      assert l[0] != '.' by {
        assert !OccursAt(l, ".", 0);
        assert l[0..1] == [l[0]];
      }
    }
    if e.name != [] && e.name[0] != '.' && '.' in e.name {
      assert l[0] != '.';
      assert IndexOf(l, ".") != 0 by {
        assert l[0..1] == [l[0]];
      }
    }
  }

  /** "A.JPG" is taken: the case of the name does not matter. */
  lemma FilterTakesCapitals()
    ensures Accepted(Entry("A.JPG", false, []))
  {
    assert Lower("A.JPG") == "a.jpg" by {
      var l := Lower("A.JPG");
      assert l[0] == 'a' && l[1] == '.' && l[2] == 'j' && l[3] == 'p' && l[4] == 'g';
    }
    assert "a.jpg"[0..1][0] == 'a' && "a.jpg"[0..4][0] == 'a';
    assert "a.jpg"[1..2] == "." && "a.jpg"[1..5] == ".jpg";
    IndexOfIs("a.jpg", ".", 1);
    IndexOfIs("a.jpg", ".jpg", 1);
  }

  /** A lowercase file name whose first '.' opens a ".jpg" after its first
      character is taken. */
  lemma TakesLowercaseJpg(name: string, k: int, data: Bytes)
    requires forall i :: 0 <= i < |name| ==> !IsUpper(name[i])
    requires 0 < k && OccursAt(name, ".jpg", k) && '.' !in name[..k]
    ensures Accepted(Entry(name, false, data))
  {
    LowerOfLowercase(name);
    assert name[k..k + 4][0] == name[k];
    assert name[k..k + 1] == [name[k]];
    IndexOfAtFirstChar(name, ".", k);
    IndexOfAtFirstChar(name, ".jpg", k);
  }

  /** "x.jpg.bak" is taken: ".jpg" need not end the name. */
  lemma FilterTakesInnerJpg()
    ensures Accepted(Entry("x.jpg.bak", false, []))
  {
    var bak := "x.jpg.bak";
    assert bak[..1] == "x" && bak[1..5] == ".jpg";
    TakesLowercaseJpg(bak, 1, []);
  }

  /** ".x.jpg" (a hidden file), "x.jpeg", "README" and a directory "d.jpg"
      are skipped. */
  lemma FilterSkips()
    ensures !Accepted(Entry(".x.jpg", false, []))
    ensures !Accepted(Entry("x.jpeg", false, []))
    ensures !Accepted(Entry("README", false, []))
    ensures !Accepted(Entry("d.jpg", true, []))
  {
    SkipsHidden();
    SkipsJpeg();
    SkipsReadme();
  }

  /** A name whose first character is '.' is skipped. */
  lemma SkipsHidden()
    ensures !Accepted(Entry(".x.jpg", false, []))
  {
    var s := ".x.jpg";
    LowerOfLowercase(s);
    assert s[0..1] == ".";
    IndexOfIs(s, ".", 0);
  }

  /** ".jpeg" is not ".jpg". */
  lemma SkipsJpeg()
    ensures !Accepted(Entry("x.jpeg", false, []))
  {
    var s := "x.jpeg";
    LowerOfLowercase(s);
    forall j | 0 <= j ensures !OccursAt(s, ".jpg", j) {
      if j + 4 <= |s| {
        assert s[j..j + 4][0] == s[j] && s[j..j + 4][3] == s[j + 3];
      }
    }
    IndexOfNone(s, ".jpg");
  }

  /** A name without '.' is skipped. */
  lemma SkipsReadme()
    ensures !Accepted(Entry("README", false, []))
  {
    var l := Lower("README");
    IndexOfChar(l, '.');
    forall i | 0 <= i < |l| ensures l[i] != '.' {
      LowerKeepsNonLetters("README", i, '.');
    }
  }

  /** The accepted entries, in listing order. */
  function Photos(listing: seq<Entry>): (r: seq<Entry>)
    ensures |r| <= |listing|
  {
    if listing == [] then []
    else
      var e := listing[|listing| - 1];
      Photos(listing[..|listing| - 1]) + (if Accepted(e) then [e] else [])
  }

  /** The photos are exactly the accepted entries. */
  lemma {:induction false} PhotosAreAccepted(listing: seq<Entry>)
    ensures forall e :: e in Photos(listing) <==> e in listing && Accepted(e)
  {
    if listing != [] {
      var init, last := listing[..|listing| - 1], listing[|listing| - 1];
      PhotosAreAccepted(init);
      assert listing == init + [last];
      assert Photos(listing) == Photos(init) + (if Accepted(last) then [last] else []);
    }
  }

  /** Appending a name unlike every name so far keeps names distinct. */
  lemma ValidAppend(ps: seq<Entry>, x: Entry)
    requires ValidListing(ps) && IsName(x.name)
    requires forall y :: y in ps ==> y.name != x.name
    ensures ValidListing(ps + [x])
  {
    var qs := ps + [x];
    forall i | 0 <= i < |qs| ensures IsName(qs[i].name) {
      if i < |ps| {
        assert qs[i] == ps[i];
      }
    }
    forall i, j | 0 <= i < j < |qs| ensures qs[i].name != qs[j].name {
      assert qs[i] == ps[i];
      if j == |ps| {
        assert ps[i] in ps;
      } else {
        assert qs[j] == ps[j];
      }
    }
  }

  /** Filtering a listing with distinct names leaves distinct names. */
  lemma {:induction false} PhotosNamed(listing: seq<Entry>)
    requires ValidListing(listing)
    ensures ValidListing(Photos(listing))
  {
    if listing != [] {
      var init, last := listing[..|listing| - 1], listing[|listing| - 1];
      assert ValidListing(init) by {
        forall i | 0 <= i < |init| ensures IsName(init[i].name) {
          assert init[i] == listing[i];
        }
        forall i, j | 0 <= i < j < |init| ensures init[i].name != init[j].name {
          assert init[i] == listing[i] && init[j] == listing[j];
        }
      }
      PhotosNamed(init);
      if Accepted(last) {
        PhotosAreAccepted(init);
        forall y | y in Photos(init) ensures y.name != last.name {
          var i :| 0 <= i < |init| && init[i] == y;
          assert listing[i] == y;
        }
        ValidAppend(Photos(init), last);
      }
    }
  }

  // ---------------------------------------------------------------------
  // The running values of the loop
  // ---------------------------------------------------------------------

  /** coverImage after the loop: the name of the last accepted entry, kept
      as listed (not lowercased), or "" when nothing was accepted. */
  function CoverOf(listing: seq<Entry>): string {
    if listing == [] then ""
    else
      var e := listing[|listing| - 1];
      if Accepted(e) then e.name else CoverOf(listing[..|listing| - 1])
  }

  /** The cover is the last photo, whatever the capture times are; with
      named entries it is empty exactly when no entry was accepted. */
  lemma {:induction false} CoverIsLastPhoto(listing: seq<Entry>)
    ensures var ps := Photos(listing);
            CoverOf(listing) == if ps == [] then "" else ps[|ps| - 1].name
    ensures ValidListing(listing) ==> (CoverOf(listing) == "" <==> Photos(listing) == [])
  {
    if listing != [] {
      var init, last := listing[..|listing| - 1], listing[|listing| - 1];
      CoverIsLastPhoto(init);
      if Accepted(last) {
        var ps := Photos(listing);
        assert ps == Photos(init) + [last];
        assert ps[|ps| - 1] == last;
        if ValidListing(listing) {
          assert IsName(listing[|listing| - 1].name);
        }
      } else {
        assert Photos(listing) == Photos(init) + [];
        assert Photos(listing) == Photos(init);
        if ValidListing(listing) {
          var ps := Photos(init);
          if ps != [] {
            PhotosAreAccepted(init);
            assert ps[|ps| - 1] in init;
            var i :| 0 <= i < |init| && init[i] == ps[|ps| - 1];
            assert listing[i] == init[i];
          }
        }
      }
    }
  }

  /** The running maximum: start from `acc` and move to each time that is
      strictly After the maximum so far. */
  function LatestOf(acc: Time, ts: seq<Time>): Time {
    if ts == [] then acc
    else
      var m := LatestOf(acc, ts[..|ts| - 1]);
      var t := ts[|ts| - 1];
      if After(t, m) then t else m
  }

  /** The result is one of the times seen and no time seen is After it: it
      is the maximum of the start value and all the times. */
  lemma {:induction false} LatestIsMaximum(acc: Time, ts: seq<Time>)
    ensures LatestOf(acc, ts) == acc || LatestOf(acc, ts) in ts
    ensures !After(acc, LatestOf(acc, ts))
    ensures forall t :: t in ts ==> !After(t, LatestOf(acc, ts))
  {
    if ts != [] {
      var init := ts[..|ts| - 1];
      var t := ts[|ts| - 1];
      var m := LatestOf(acc, init);
      LatestIsMaximum(acc, init);
      forall u | u in ts ensures !After(u, LatestOf(acc, ts)) {
        if u in init {
          AfterIsStrictTotalOrder(u, m, t);
        } else {
          assert u == t;
          AfterIsStrictTotalOrder(t, m, t);
        }
      }
      AfterIsStrictTotalOrder(acc, m, t);
    }
  }

  lemma LatestStep(acc: Time, ts: seq<Time>, t: Time)
    ensures LatestOf(acc, ts + [t]) == if After(t, LatestOf(acc, ts)) then t else LatestOf(acc, ts)
  {
    assert (ts + [t])[..|ts|] == ts;
  }

  /** A time equal to the maximum so far never replaces it: if no time is
      strictly After the start value, the start value stays. */
  lemma {:induction false} LatestKeepsStart(acc: Time, ts: seq<Time>)
    requires forall t :: t in ts ==> !After(t, acc)
    ensures LatestOf(acc, ts) == acc
  {
    if ts != [] {
      LatestKeepsStart(acc, ts[..|ts| - 1]);
    }
  }

  /** The capture times of the photos, in listing order. */
  function TakenTimes(photos: seq<Entry>, exif: Bytes -> Time): (r: seq<Time>)
    ensures |r| == |photos|
    ensures forall i :: 0 <= i < |photos| ==> r[i] == exif(photos[i].data)
  {
    if photos == [] then []
    else TakenTimes(photos[..|photos| - 1], exif) + [exif(photos[|photos| - 1].data)]
  }

  /** latestModified after the loop. */
  function Latest(listing: seq<Entry>, exif: Bytes -> Time): Time {
    LatestOf(Sentinel, TakenTimes(Photos(listing), exif))
  }

  /** The cover is not chosen by date: when the first of two photos is
      the later one, the cover is still the second photo while the latest
      time is the first photo's. */
  lemma {:induction false} CoverIgnoresDates(first: Entry, second: Entry, exif: Bytes -> Time)
    requires Accepted(first) && Accepted(second)
    requires After(exif(first.data), Sentinel) && After(exif(first.data), exif(second.data))
    ensures CoverOf([first, second]) == second.name
    ensures Latest([first, second], exif) == exif(first.data)
  {
    var listing := [first, second];
    assert Photos(listing) == listing by {
      assert listing[..1] == [first] && [first][..0] == [];
    }
    var t1, t2 := exif(first.data), exif(second.data);
    assert TakenTimes(listing, exif) == [t1, t2];
    assert LatestOf(Sentinel, [t1, t2]) == t1 by {
      assert [t1, t2][..1] == [t1] && [t1][..0] == [];
      assert LatestOf(Sentinel, [t1]) == t1;
      AfterIsStrictTotalOrder(t1, t2, t1);
    }
  }

  /** A photo whose name holds '"' is kept and becomes the cover, and the
      gallery post that names it then does not read back: the stencil
      escapes nothing. */
  lemma QuotedCoverBreaksPost(title: string, date: string)
    ensures Accepted(Entry("a\"b.jpg", false, []))
    ensures CoverOf([Entry("a\"b.jpg", false, [])]) == "a\"b.jpg"
    ensures ParsePost(GalleryPost(PostItem(title, "", date, "a\"b.jpg")))
            != Some(Fields(title, date, "gallery", "a\"b.jpg"))
  {
    var name := "a\"b.jpg";
    assert name[..3] == "a\"b" && name[3..7] == ".jpg";
    TakesLowercaseJpg(name, 3, []);
    assert name[1] == '"';
    FillReadsBackIff(PostItem(title, "", date, name), GalleryType);
  }

  /** One more entry of the listing: it joins the photos, and becomes the
      cover, exactly when it is accepted. */
  lemma ListingStep(listing: seq<Entry>, i: int)
    requires 0 <= i < |listing|
    ensures Accepted(listing[i]) ==> Photos(listing[..i + 1]) == Photos(listing[..i]) + [listing[i]]
    ensures !Accepted(listing[i]) ==> Photos(listing[..i + 1]) == Photos(listing[..i])
    ensures CoverOf(listing[..i + 1]) == if Accepted(listing[i]) then listing[i].name else CoverOf(listing[..i])
  {
    assert listing[..i + 1][..i] == listing[..i];
    assert Photos(listing[..i]) + [] == Photos(listing[..i]);
  }

  // ---------------------------------------------------------------------
  // The destination directory
  // ---------------------------------------------------------------------

  /** filepath.Join(contentPath, name) as text. */
  function PathIn(dir: Path, name: string): string {
    Render(JoinName(dir, name))
  }

  /** The files after copying each photo into `dir` under its own name, in
      listing order. */
  function CopyAll(files: map<string, Blob>, dir: Path, photos: seq<Entry>): map<string, Blob> {
    if photos == [] then files
    else
      var e := photos[|photos| - 1];
      CopyAll(files, dir, photos[..|photos| - 1])[PathIn(dir, e.name) := Binary(e.data)]
  }

  /** Two different names in one directory are two different paths. */
  lemma PathInInjective(dir: Path, a: string, b: string)
    requires IsName(a) && IsName(b) && a != b
    ensures PathIn(dir, a) != PathIn(dir, b)
  {
    RenderChild(dir, a);
    RenderChild(dir, b);
    var p := ChildPrefix(dir);
    assert (p + a)[|p|..] == a && (p + b)[|p|..] == b;
  }

  /** The paths the photos are copied to. */
  function Dests(dir: Path, photos: seq<Entry>): set<string> {
    set e | e in photos :: PathIn(dir, e.name)
  }

  lemma PhotoAppended(files: map<string, Blob>, dir: Path, ps: seq<Entry>, e: Entry, exif: Bytes -> Time)
    ensures CopyAll(files, dir, ps + [e]) == CopyAll(files, dir, ps)[PathIn(dir, e.name) := Binary(e.data)]
    ensures TakenTimes(ps + [e], exif) == TakenTimes(ps, exif) + [exif(e.data)]
  {
    assert (ps + [e])[..|ps|] == ps;
  }

  /** Copying adds exactly the photos' paths and leaves every other file as
      it was. */
  lemma {:induction false} CopyAllFrame(files: map<string, Blob>, dir: Path, photos: seq<Entry>)
    ensures CopyAll(files, dir, photos).Keys == files.Keys + Dests(dir, photos)
    ensures forall k :: k in files && k !in Dests(dir, photos) ==> CopyAll(files, dir, photos)[k] == files[k]
  {
    if photos != [] {
      var init, last := photos[..|photos| - 1], photos[|photos| - 1];
      var p := PathIn(dir, last.name);
      CopyAllFrame(files, dir, init);
      assert CopyAll(files, dir, photos) == CopyAll(files, dir, init)[p := Binary(last.data)];
      DestsAppend(dir, init, last);
      assert photos == init + [last];
    }
  }

  lemma DestsAppend(dir: Path, ps: seq<Entry>, x: Entry)
    ensures Dests(dir, ps + [x]) == Dests(dir, ps) + {PathIn(dir, x.name)}
  {
    var qs := ps + [x];
    forall d | d in Dests(dir, qs) ensures d in Dests(dir, ps) + {PathIn(dir, x.name)} {
      var e :| e in qs && d == PathIn(dir, e.name);
      if e != x {
        assert e in ps;
      }
    }
    forall d | d in Dests(dir, ps) ensures d in Dests(dir, qs) {
      var e :| e in ps && d == PathIn(dir, e.name);
      assert e in qs;
    }
    assert x in qs;
  }

  /** Each photo's copy holds that photo's bytes: with distinct names, no
      later copy lands on an earlier one. */
  lemma {:induction false} CopyAllContents(files: map<string, Blob>, dir: Path, photos: seq<Entry>)
    requires ValidListing(photos)
    ensures forall e :: e in photos ==>
              PathIn(dir, e.name) in CopyAll(files, dir, photos) && CopyAll(files, dir, photos)[PathIn(dir, e.name)] == Binary(e.data)
  {
    if photos != [] {
      var n := |photos| - 1;
      var init, last := photos[..n], photos[n];
      assert photos == init + [last];
      assert ValidListing(init);
      CopyAllContents(files, dir, init);
      var m := CopyAll(files, dir, init);
      assert CopyAll(files, dir, photos) == m[PathIn(dir, last.name) := Binary(last.data)];
      forall e | e in photos
        ensures PathIn(dir, e.name) in CopyAll(files, dir, photos)
        ensures CopyAll(files, dir, photos)[PathIn(dir, e.name)] == Binary(e.data)
      {
        if e != last {
          var i :| 0 <= i < |init| && init[i] == e;
          assert photos[i] == e;
          PathInInjective(dir, e.name, last.name);
        }
      }
    }
  }

  /** The file system, reduced to the files the importer reads and writes,
      keyed by the text of their paths. */
  class Disk {
    var files: map<string, Blob>

    constructor (files: map<string, Blob>)
      ensures this.files == files
    {
      this.files := files;
    }

    /** os.Stat of the path succeeds. */
    predicate Exists(path: string)
      reads this
    {
      path in files
    }

    /** os.Create followed by writing `blob`: the file is created or
      replaced, nothing else changes. */
    method Write(path: string, blob: Blob)
      modifies this
      ensures files == old(files)[path := blob]
    {
      files := files[path := blob];
    }
  }

  /** readPhotoDate: the capture time the metadata tool reads from the file
      now stored at `path`. */
  function ReadPhotoDate(files: map<string, Blob>, path: string, exif: Bytes -> Time): Time
    requires path in files && files[path].Binary?
  {
    exif(files[path].bytes)
  }

  /** The loop of main over the source listing: copies each accepted entry
      into `contentPath`, then reads its capture time from the copy. */
  method ImportPhotos(disk: Disk, contentPath: Path, listing: seq<Entry>, exif: Bytes -> Time)
    returns (coverImage: string, latestModified: Time)
    modifies disk
    ensures disk.files == CopyAll(old(disk.files), contentPath, Photos(listing))
    ensures coverImage == CoverOf(listing)
    ensures latestModified == Latest(listing, exif)
  {
    coverImage := "";
    latestModified := Sentinel;
    for i := 0 to |listing|
      invariant disk.files == CopyAll(old(disk.files), contentPath, Photos(listing[..i]))
      invariant coverImage == CoverOf(listing[..i])
      invariant latestModified == LatestOf(Sentinel, TakenTimes(Photos(listing[..i]), exif))
    {
      var file := listing[i];
      var fileName := Lower(file.name);
      ListingStep(listing, i);
      PhotoAppended(old(disk.files), contentPath, Photos(listing[..i]), file, exif);
      LatestStep(Sentinel, TakenTimes(Photos(listing[..i]), exif), exif(file.data));
      if !file.isDir && IndexOf(fileName, ".") > 0 {
        if IndexOf(fileName, ".jpg") == -1 {
          continue;
        }
        coverImage := file.name;
        var dest := PathIn(contentPath, file.name);
        disk.Write(dest, Binary(file.data));
        var dateTimeOriginal := ReadPhotoDate(disk.files, dest, exif);
        if After(dateTimeOriginal, latestModified) {
          latestModified := dateTimeOriginal;
        }
      }
    }
    assert listing[..|listing|] == listing;
  }

  // ---------------------------------------------------------------------
  // Copying one file
  // ---------------------------------------------------------------------

  /** What filepath.Join(sourcePath, name) opens as: a regular file of the
      listing, a directory (the source directory itself when the name is
      empty), or nothing. */
  datatype Source = File(bytes: Bytes) | Directory | Missing

  function SourceFile(listing: seq<Entry>, name: string): (r: Source)
    ensures name == [] ==> r == Directory
  {
    if name == [] then Directory
    else if listing == [] then Missing
    else if listing[0].name == name then (if listing[0].isDir then Directory else File(listing[0].data))
    else SourceFile(listing[1..], name)
  }

  /** Each photo of a listing with distinct names is read back whole. */
  lemma {:induction false} SourceFileOfPhoto(listing: seq<Entry>, e: Entry)
    requires ValidListing(listing) && e in listing && !e.isDir
    ensures SourceFile(listing, e.name) == File(e.data)
  {
    assert IsName(listing[0].name);
    if listing[0] != e {
      assert listing[0].name != e.name by {
        var j :| 0 <= j < |listing| && listing[j] == e;
      }
      assert ValidListing(listing[1..]);
      SourceFileOfPhoto(listing[1..], e);
    }
  }

  /** copyFile(in, out): os.Open, os.Create (which truncates), io.Copy. A
      missing source panics before anything is created; a directory opens
      but cannot be read, so the copy panics after an empty `out` exists. */
  function CopyOutcome(files: map<string, Blob>, source: Source, name: string, out: string): (Exit<()>, map<string, Blob>) {
    match source
    case Missing => (Panicked(CopyFailed(name)), files)
    case Directory => (Panicked(CopyFailed(name)), files[out := Binary([])])
    case File(b) => (Returned(()), files[out := Binary(b)])
  }

  method CopyFile(disk: Disk, source: Source, name: string, out: string) returns (r: Exit<()>)
    modifies disk
    ensures (r, disk.files) == CopyOutcome(old(disk.files), source, name, out)
  {
    var openErr := Check(if source.Missing? then Some(CopyFailed(name)) else None);
    if openErr.Panicked? {
      return Panicked(openErr.failure);
    }
    disk.Write(out, Binary([]));
    var copyErr := Check(if source.Directory? then Some(CopyFailed(name)) else None);
    if copyErr.Panicked? {
      return Panicked(copyErr.failure);
    }
    ghost var created := disk.files;
    disk.Write(out, Binary(source.bytes));
    assert disk.files == created[out := Binary(source.bytes)];
    assert disk.files == old(disk.files)[out := Binary(source.bytes)];
    r := Returned(());
  }

  // ---------------------------------------------------------------------
  // The posts
  // ---------------------------------------------------------------------

  /** filepath.Join(contentPath, "index.md"). */
  function IndexPath(contentPath: Path): string {
    PathIn(contentPath, "index.md")
  }

  /** generateGallery: the gallery post written to index.md. */
  method GenerateGallery(disk: Disk, contentPath: Path, title: string, coverImage: string, date: Time)
    modifies disk
    ensures disk.files == old(disk.files)[IndexPath(contentPath) :=
              Markdown(GalleryPost(PostItem(title, "", FormatDate(date), coverImage)))]
  {
    var galleryItem := PostItem(title, "", FormatDate(date), coverImage);
    disk.Write(IndexPath(contentPath), Markdown(GalleryPost(galleryItem)));
  }

  /** parentDir(contentPath) + ".md", the path parentPost asks os.Stat about. */
  function ParentMarkdown(contentPath: Path): string
    requires ValidPath(contentPath)
  {
    Render(ParentDir(contentPath)) + ".md"
  }

  /** parentPost: whether the parent's collection post already exists. */
  method ParentPost(disk: Disk, contentPath: Path) returns (found: bool)
    requires ValidPath(contentPath)
    ensures found <==> ParentMarkdown(contentPath) in disk.files
  {
    var parentDir := ParentDir(contentPath);
    var parentMD := Render(parentDir) + ".md";
    found := disk.Exists(parentMD);
  }

  /** The cover a collection post names, relative to the assets directory:
      "images/" + the lowercased collection name + "-" + the cover image. */
  function CoverReference(collectionName: string, coverImage: string): string {
    "images/" + Lower(collectionName) + "-" + coverImage
  }

  /** The file the collection's cover is copied to is named after the
      collection and the cover: its last name is what follows the last
      separator of "images/<name>" , then "-", then the cover. */
  lemma AssetLastName(assetsDir: Path, collectionName: string, coverImage: string)
    requires '/' !in coverImage
    ensures LastName(PathIn(assetsDir, CoverReference(collectionName, coverImage)))
            == LastName("images/" + Lower(collectionName)) + "-" + coverImage
  {
    var w := "images/" + Lower(collectionName);
    assert CoverReference(collectionName, coverImage) == w + "-" + coverImage;
    DashedLastName(assetsDir, w, coverImage);
  }

  lemma DashedLastName(dir: Path, w: string, c: string)
    requires '/' !in c
    ensures LastName(Render(JoinName(dir, w + "-" + c))) == LastName(w) + "-" + c
  {
    var t := "-" + c;
    assert w + "-" + c == w + t;
    assert '/' !in t;
    LastNameConcat(w, t);
    assert LastName(w) + "-" + c == LastName(w) + t;
    PathLastName(dir, w + t);
  }

  /** generateCollection, as its outcome on the files: the cover is copied
      into the assets, then the collection post is written beside the
      collection's directory. */
  function CollectionOutcome(files: map<string, Blob>, listing: seq<Entry>, assetsDir: Path, parentPath: Path,
                             coverImage: string, date: Time, collectionName: string): (Exit<()>, map<string, Blob>) {
    var contentImage := CoverReference(collectionName, coverImage);
    var copied := CopyOutcome(files, SourceFile(listing, coverImage), coverImage, PathIn(assetsDir, contentImage));
    if copied.0.Panicked? then copied
    else
      var item := PostItem(collectionName, "", FormatDate(date), contentImage);
      (Returned(()), copied.1[PathIn(parentPath, collectionName + ".md") := Markdown(CollectionPost(item))])
  }

  method GenerateCollection(disk: Disk, listing: seq<Entry>, assetsDir: Path, parentPath: Path,
                            coverImage: string, date: Time, collectionName: string) returns (r: Exit<()>)
    modifies disk
    ensures (r, disk.files) ==
            CollectionOutcome(old(disk.files), listing, assetsDir, parentPath, coverImage, date, collectionName)
  {
    var contentImage := CoverReference(collectionName, coverImage);
    var collectionItem := PostItem(collectionName, "", FormatDate(date), contentImage);
    r := CopyFile(disk, SourceFile(listing, coverImage), coverImage, PathIn(assetsDir, contentImage));
    if r.Panicked? {
      return;
    }
    disk.Write(PathIn(parentPath, collectionName + ".md"), Markdown(CollectionPost(collectionItem)));
  }

  // ---------------------------------------------------------------------
  // A whole run of main
  // ---------------------------------------------------------------------

  /** The arguments of a run: the title, filepath.Join(HUGO_DIR, "content",
      section) and filepath.Join(HUGO_DIR, "assets"). */
  datatype Request = Request(title: string, contentPath: Path, assetsDir: Path)

  /** The files once the photos are copied and index.md is written. */
  function GalleryFiles(files: map<string, Blob>, req: Request, listing: seq<Entry>, exif: Bytes -> Time): map<string, Blob> {
    var item := PostItem(req.title, "", FormatDate(Latest(listing, exif)), CoverOf(listing));
    Staged(files, req.contentPath, Photos(listing), GalleryPost(item))
  }

  function Staged(files: map<string, Blob>, contentPath: Path, photos: seq<Entry>, post: string): map<string, Blob> {
    CopyAll(files, contentPath, photos)[IndexPath(contentPath) := Markdown(post)]
  }

  /** The outcome of main from the listing on: how it ends and the files it
      leaves. */
  function Run(files: map<string, Blob>, req: Request, listing: seq<Entry>, exif: Bytes -> Time): (Exit<()>, map<string, Blob>)
    requires ValidPath(req.contentPath)
  {
    var staged := GalleryFiles(files, req, listing, exif);
    if ParentMarkdown(req.contentPath) in staged then (Returned(()), staged)
    else
      var collectionDir := ParentDir(req.contentPath);
      CollectionOutcome(staged, listing, req.assetsDir, Dir(collectionDir), CoverOf(listing),
                        Latest(listing, exif), Base(collectionDir))
  }

  /** main after the source directory is listed. */
  method Import(disk: Disk, req: Request, listing: seq<Entry>, exif: Bytes -> Time) returns (r: Exit<()>)
    requires ValidPath(req.contentPath)
    modifies disk
    ensures (r, disk.files) == Run(old(disk.files), req, listing, exif)
  {
    var coverImage, latestModified := ImportPhotos(disk, req.contentPath, listing, exif);
    GenerateGallery(disk, req.contentPath, req.title, coverImage, latestModified);
    var collectionExists := ParentPost(disk, req.contentPath);
    r := Returned(());
    if !collectionExists {
      var collectionDir := ParentDir(req.contentPath);
      var baseDir := Dir(collectionDir);
      var collectionName := Base(collectionDir);
      r := GenerateCollection(disk, listing, req.assetsDir, baseDir, coverImage, latestModified, collectionName);
    }
  }

  /** The path the collection's cover is copied to in a run. */
  function AssetPath(req: Request, listing: seq<Entry>): string
    requires ValidPath(req.contentPath)
  {
    PathIn(req.assetsDir, CoverReference(Base(ParentDir(req.contentPath)), CoverOf(listing)))
  }

  /** The collection post is written to the very path parentPost checks. */
  lemma CollectionLandsOnChecked(contentPath: Path)
    requires ValidPath(contentPath)
    ensures PathIn(Dir(ParentDir(contentPath)), Base(ParentDir(contentPath)) + ".md") == ParentMarkdown(contentPath)
  {
    SiblingMarkdown(ParentDir(contentPath));
  }

  /** Staging adds the photos' paths and index.md and keeps every other
      file as it was. */
  lemma StagedFrame(files: map<string, Blob>, contentPath: Path, photos: seq<Entry>, post: string)
    ensures var staged := Staged(files, contentPath, photos, post);
            var touched := Dests(contentPath, photos) + {IndexPath(contentPath)};
            && staged.Keys == files.Keys + touched
            && forall k :: k in files && k !in touched ==> staged[k] == files[k]
  {
    CopyAllFrame(files, contentPath, photos);
  }

  /** The photos and index.md land inside contentPath, never on the parent's
      post, so copying them neither creates nor changes that post. */
  lemma GalleryKeepsParent(files: map<string, Blob>, req: Request, listing: seq<Entry>, exif: Bytes -> Time)
    requires ValidPath(req.contentPath) && req.contentPath.elems != [] && ValidListing(listing)
    ensures var md := ParentMarkdown(req.contentPath);
            var staged := GalleryFiles(files, req, listing, exif);
            && (md in staged <==> md in files)
            && (md in files ==> staged[md] == files[md])
    ensures IndexPath(req.contentPath) != ParentMarkdown(req.contentPath)
  {
    var cp := req.contentPath;
    var md := ParentMarkdown(cp);
    var ps := Photos(listing);
    var item := PostItem(req.title, "", FormatDate(Latest(listing, exif)), CoverOf(listing));
    PhotosAreNotParent(cp, listing);
    IndexIsNotParent(cp);
    StagedKeeps(files, cp, ps, GalleryPost(item), md);
  }

  /** Staging keeps any file that is neither a photo's copy nor index.md. */
  lemma StagedKeeps(files: map<string, Blob>, contentPath: Path, photos: seq<Entry>, post: string, k: string)
    requires k !in Dests(contentPath, photos) && k != IndexPath(contentPath)
    ensures var staged := Staged(files, contentPath, photos, post);
            && (k in staged <==> k in files)
            && (k in files ==> staged[k] == files[k])
  {
    StagedFrame(files, contentPath, photos, post);
    UntouchedKey(files, Staged(files, contentPath, photos, post), Dests(contentPath, photos) + {IndexPath(contentPath)}, k);
  }

  /** index.md sits inside contentPath, never on the parent's post. */
  lemma IndexIsNotParent(contentPath: Path)
    requires ValidPath(contentPath) && contentPath.elems != []
    ensures IndexPath(contentPath) != ParentMarkdown(contentPath)
  {
    ChildIsNotParentMarkdown(contentPath, "index.md");
  }

  /** No photo is copied onto the parent's post. */
  lemma PhotosAreNotParent(contentPath: Path, listing: seq<Entry>)
    requires ValidPath(contentPath) && contentPath.elems != [] && ValidListing(listing)
    ensures ParentMarkdown(contentPath) !in Dests(contentPath, Photos(listing))
  {
    var ps := Photos(listing);
    PhotosNamed(listing);
    forall e | e in ps ensures PathIn(contentPath, e.name) != ParentMarkdown(contentPath) {
      var i :| 0 <= i < |ps| && ps[i] == e;
      ChildIsNotParentMarkdown(contentPath, e.name);
    }
  }

  /** A key outside what a step touches is present and unchanged after it
      exactly when it was before. */
  lemma UntouchedKey(files: map<string, Blob>, after: map<string, Blob>, touched: set<string>, k: string)
    requires after.Keys == files.Keys + touched
    requires forall j :: j in files && j !in touched ==> after[j] == files[j]
    requires k !in touched
    ensures k in after <==> k in files
    ensures k in files ==> after[k] == files[k]
  {
  }

  /** The cover image is a photo's name, so it holds no separator. */
  lemma CoverHasNoSlash(listing: seq<Entry>)
    requires ValidListing(listing)
    ensures '/' !in CoverOf(listing)
  {
    CoverIsLastPhoto(listing);
    PhotosAreAccepted(listing);
    var ps := Photos(listing);
    if ps != [] {
      assert ps[|ps| - 1] in listing;
    }
  }

  /** The cover's asset is never index.md: its name holds a '-'. */
  lemma AssetIsNotIndex(req: Request, listing: seq<Entry>)
    requires ValidPath(req.contentPath) && ValidListing(listing)
    ensures AssetPath(req, listing) != IndexPath(req.contentPath)
  {
    AssetHasDash(req, listing);
    IndexLastName(req.contentPath);
    DashedIsNotIndex(AssetPath(req, listing), IndexPath(req.contentPath));
  }

  lemma DashedIsNotIndex(a: string, i: string)
    requires '-' in LastName(a) && LastName(i) == "index.md"
    ensures a != i
  {
    assert '-' !in "index.md";
  }

  lemma IndexLastName(contentPath: Path)
    ensures LastName(IndexPath(contentPath)) == "index.md"
  {
    LastNameNoSlash("index.md");
    PathLastName(contentPath, "index.md");
  }

  lemma AssetHasDash(req: Request, listing: seq<Entry>)
    requires ValidPath(req.contentPath) && ValidListing(listing)
    ensures '-' in LastName(AssetPath(req, listing))
  {
    CoverHasNoSlash(listing);
    var name := Base(ParentDir(req.contentPath));
    AssetLastName(req.assetsDir, name, CoverOf(listing));
    var w := LastName("images/" + Lower(name));
    assert (w + "-" + CoverOf(listing))[|w|] == '-';
  }

  /** After a run, index.md holds the gallery post: the title as given, the
      latest capture time as its date and the last photo as its cover. */
  lemma RunWritesGallery(files: map<string, Blob>, req: Request, listing: seq<Entry>, exif: Bytes -> Time)
    requires ValidPath(req.contentPath) && req.contentPath.elems != [] && ValidListing(listing)
    ensures var out := Run(files, req, listing, exif).1;
            var item := PostItem(req.title, "", FormatDate(Latest(listing, exif)), CoverOf(listing));
            IndexPath(req.contentPath) in out && out[IndexPath(req.contentPath)] == Markdown(GalleryPost(item))
  {
    var cp := req.contentPath;
    var item := PostItem(req.title, "", FormatDate(Latest(listing, exif)), CoverOf(listing));
    var staged := GalleryFiles(files, req, listing, exif);
    assert IndexPath(cp) in staged && staged[IndexPath(cp)] == Markdown(GalleryPost(item));
    IndexIsNotParent(cp);
    AssetIsNotIndex(req, listing);
    RunKeepsFile(files, req, listing, exif, IndexPath(cp));
  }

  /** The post generateCollection writes for a run. */
  function CollectionItem(req: Request, listing: seq<Entry>, exif: Bytes -> Time): PostItem
    requires ValidPath(req.contentPath)
  {
    var name := Base(ParentDir(req.contentPath));
    PostItem(name, "", FormatDate(Latest(listing, exif)), CoverReference(name, CoverOf(listing)))
  }

  /** A post without photos names no cover, and its asset's name ends in
      '-', unlike any markdown file. */
  lemma EmptyAssetIsNotMarkdown(req: Request, listing: seq<Entry>)
    requires ValidPath(req.contentPath) && CoverOf(listing) == []
    ensures AssetPath(req, listing) != ParentMarkdown(req.contentPath)
  {
    var name := Base(ParentDir(req.contentPath));
    AssetLastName(req.assetsDir, name, []);
    LastNameConcat(Render(ParentDir(req.contentPath)), ".md");
    var a := LastName(AssetPath(req, listing));
    var m := LastName(ParentMarkdown(req.contentPath));
    assert a[|a| - 1] == '-' && m[|m| - 1] == 'd';
  }

  /** The three ways a run ends, by whether the parent's post is there
      after the gallery is staged and by what the cover names. */
  lemma RunCases(files: map<string, Blob>, req: Request, listing: seq<Entry>, exif: Bytes -> Time)
    requires ValidPath(req.contentPath)
    ensures var md := ParentMarkdown(req.contentPath);
            var staged := GalleryFiles(files, req, listing, exif);
            var source := SourceFile(listing, CoverOf(listing));
            var res := Run(files, req, listing, exif);
            && (md in staged ==> res == (Returned(()), staged))
            && (md !in staged && source.File? ==>
                  res == (Returned(()), staged[AssetPath(req, listing) := Binary(source.bytes)]
                                              [md := Markdown(CollectionPost(CollectionItem(req, listing, exif)))]))
            && (md !in staged && source.Directory? ==>
                  res == (Panicked(CopyFailed(CoverOf(listing))), staged[AssetPath(req, listing) := Binary([])]))
  {
    CollectionLandsOnChecked(req.contentPath);
  }

  /** The cover's source: the last photo's bytes, or the source directory
      itself when there is no photo. */
  lemma CoverSource(listing: seq<Entry>)
    requires ValidListing(listing)
    ensures Photos(listing) == [] ==> SourceFile(listing, CoverOf(listing)) == Directory
    ensures Photos(listing) != [] ==> SourceFile(listing, CoverOf(listing)).File?
  {
    CoverIsLastPhoto(listing);
    var ps := Photos(listing);
    if ps != [] {
      var last := ps[|ps| - 1];
      PhotosAreAccepted(listing);
      assert last in ps;
      SourceFileOfPhoto(listing, last);
    }
  }

  /** The collection post is written exactly when the parent's post is
      absent. If it is absent and no photo was accepted, the cover copy
      reads the source directory itself: the run panics after index.md and
      an empty asset are written, and no collection post appears. */
  lemma RunCollection(files: map<string, Blob>, req: Request, listing: seq<Entry>, exif: Bytes -> Time)
    requires ValidPath(req.contentPath) && req.contentPath.elems != [] && ValidListing(listing)
    ensures var md := ParentMarkdown(req.contentPath);
            var res := Run(files, req, listing, exif);
            && (md in files ==> res.0 == Returned(()) && md in res.1 && res.1[md] == files[md])
            && (md !in files && Photos(listing) != [] ==>
                  res.0 == Returned(()) && md in res.1
                  && res.1[md] == Markdown(CollectionPost(CollectionItem(req, listing, exif))))
            && (md !in files && Photos(listing) == [] ==>
                  res.0 == Panicked(CopyFailed("")) && md !in res.1
                  && AssetPath(req, listing) in res.1 && res.1[AssetPath(req, listing)] == Binary([]))
  {
    GalleryKeepsParent(files, req, listing, exif);
    RunCases(files, req, listing, exif);
    CoverSource(listing);
    CoverIsLastPhoto(listing);
    if Photos(listing) == [] {
      EmptyAssetIsNotMarkdown(req, listing);
    }
  }

  /** generateCollection touches only the asset and the collection post. */
  lemma CollectionOutcomeFrame(files: map<string, Blob>, listing: seq<Entry>, assetsDir: Path, parentPath: Path,
                               coverImage: string, date: Time, collectionName: string)
    ensures var out := CollectionOutcome(files, listing, assetsDir, parentPath, coverImage, date, collectionName).1;
            var asset := PathIn(assetsDir, CoverReference(collectionName, coverImage));
            var post := PathIn(parentPath, collectionName + ".md");
            && out.Keys <= files.Keys + {asset, post}
            && forall k :: k in files && k != asset && k != post ==> k in out && out[k] == files[k]
  {
  }

  /** A run changes no file other than the photos' copies, index.md, the
      cover's asset and the parent's post. */
  lemma RunFrame(files: map<string, Blob>, req: Request, listing: seq<Entry>, exif: Bytes -> Time)
    requires ValidPath(req.contentPath)
    ensures var out := Run(files, req, listing, exif).1;
            var touched := Dests(req.contentPath, Photos(listing))
                           + {IndexPath(req.contentPath), AssetPath(req, listing), ParentMarkdown(req.contentPath)};
            && out.Keys <= files.Keys + touched
            && forall k :: k in files && k !in touched ==> k in out && out[k] == files[k]
  {
    var cp := req.contentPath;
    var ps := Photos(listing);
    var item := PostItem(req.title, "", FormatDate(Latest(listing, exif)), CoverOf(listing));
    var staged := GalleryFiles(files, req, listing, exif);
    StagedFrame(files, cp, ps, GalleryPost(item));
    RunKeepsStaged(files, req, listing, exif);
    var a := Dests(cp, ps) + {IndexPath(cp)};
    var b := {AssetPath(req, listing), ParentMarkdown(cp)};
    var touched := Dests(cp, ps) + {IndexPath(cp), AssetPath(req, listing), ParentMarkdown(cp)};
    assert a + b == touched;
    FrameCompose(files, staged, Run(files, req, listing, exif).1, a, b, touched);
  }

  /** Two steps that each touch only their own keys touch only both. */
  lemma FrameCompose(files: map<string, Blob>, staged: map<string, Blob>, out: map<string, Blob>,
                     a: set<string>, b: set<string>, touched: set<string>)
    requires staged.Keys == files.Keys + a
    requires forall k :: k in files && k !in a ==> staged[k] == files[k]
    requires out.Keys <= staged.Keys + b
    requires forall k :: k in staged && k !in b ==> k in out && out[k] == staged[k]
    requires touched == a + b
    ensures out.Keys <= files.Keys + touched
    ensures forall k :: k in files && k !in touched ==> k in out && out[k] == files[k]
  {
  }

  /** Importing a second time into the same directory after a run that
      ended normally never panics and leaves the collection post as it was. */
  lemma ImportTwice(files: map<string, Blob>, first: Request, second: Request,
                    listing1: seq<Entry>, listing2: seq<Entry>, exif1: Bytes -> Time, exif2: Bytes -> Time)
    requires ValidPath(first.contentPath) && first.contentPath.elems != []
    requires second.contentPath == first.contentPath
    requires ValidListing(listing1) && ValidListing(listing2)
    requires Run(files, first, listing1, exif1).0.Returned?
    ensures var md := ParentMarkdown(first.contentPath);
            var after := Run(files, first, listing1, exif1).1;
            var again := Run(after, second, listing2, exif2);
            && md in after
            && again.0 == Returned(()) && md in again.1 && again.1[md] == after[md]
  {
    RunCollection(files, first, listing1, exif1);
    RunCollection(Run(files, first, listing1, exif1).1, second, listing2, exif2);
  }

  /** The collection step, run when the post `md` is missing, adds no file
      but the asset and `md`, and keeps every other file. */
  lemma FinishFrame(staged: map<string, Blob>, listing: seq<Entry>, assetsDir: Path, parentPath: Path,
                    coverImage: string, date: Time, collectionName: string, md: string)
    requires md == PathIn(parentPath, collectionName + ".md")
    ensures var out := if md in staged then staged
                       else CollectionOutcome(staged, listing, assetsDir, parentPath, coverImage, date, collectionName).1;
            var b := {PathIn(assetsDir, CoverReference(collectionName, coverImage)), md};
            && out.Keys <= staged.Keys + b
            && forall k :: k in staged && k !in b ==> k in out && out[k] == staged[k]
  {
    CollectionOutcomeFrame(staged, listing, assetsDir, parentPath, coverImage, date, collectionName);
  }

  /** One file other than the asset and `md` outlives the collection step. */
  lemma FinishKeeps(staged: map<string, Blob>, listing: seq<Entry>, assetsDir: Path, parentPath: Path,
                    coverImage: string, date: Time, collectionName: string, md: string, k: string)
    requires md == PathIn(parentPath, collectionName + ".md")
    requires k in staged && k != PathIn(assetsDir, CoverReference(collectionName, coverImage)) && k != md
    ensures var out := if md in staged then staged
                       else CollectionOutcome(staged, listing, assetsDir, parentPath, coverImage, date, collectionName).1;
            k in out && out[k] == staged[k]
  {
    FinishFrame(staged, listing, assetsDir, parentPath, coverImage, date, collectionName, md);
  }

  /** The collection step adds no file but the asset and the parent's post,
      and keeps every other staged file. */
  lemma RunKeepsStaged(files: map<string, Blob>, req: Request, listing: seq<Entry>, exif: Bytes -> Time)
    requires ValidPath(req.contentPath)
    ensures var staged := GalleryFiles(files, req, listing, exif);
            var out := Run(files, req, listing, exif).1;
            var b := {AssetPath(req, listing), ParentMarkdown(req.contentPath)};
            && out.Keys <= staged.Keys + b
            && forall k :: k in staged && k !in b ==> k in out && out[k] == staged[k]
  {
    var cp := req.contentPath;
    var staged := GalleryFiles(files, req, listing, exif);
    var collectionDir := ParentDir(cp);
    CollectionLandsOnChecked(cp);
    FinishFrame(staged, listing, req.assetsDir, Dir(collectionDir), CoverOf(listing),
                Latest(listing, exif), Base(collectionDir), ParentMarkdown(cp));
  }

  /** One staged file other than the asset and the parent's post outlives
      the collection step. */
  lemma RunKeepsFile(files: map<string, Blob>, req: Request, listing: seq<Entry>, exif: Bytes -> Time, k: string)
    requires ValidPath(req.contentPath)
    requires k in GalleryFiles(files, req, listing, exif)
    requires k != AssetPath(req, listing) && k != ParentMarkdown(req.contentPath)
    ensures k in Run(files, req, listing, exif).1
    ensures Run(files, req, listing, exif).1[k] == GalleryFiles(files, req, listing, exif)[k]
  {
    var cp := req.contentPath;
    var collectionDir := ParentDir(cp);
    CollectionLandsOnChecked(cp);
    FinishKeeps(GalleryFiles(files, req, listing, exif), listing, req.assetsDir, Dir(collectionDir), CoverOf(listing),
                Latest(listing, exif), Base(collectionDir), ParentMarkdown(cp), k);
  }

  lemma PhotoCopied(files: map<string, Blob>, dir: Path, photos: seq<Entry>, e: Entry)
    requires ValidListing(photos) && e in photos
    ensures IsName(e.name)
    ensures PathIn(dir, e.name) in CopyAll(files, dir, photos)
    ensures CopyAll(files, dir, photos)[PathIn(dir, e.name)] == Binary(e.data)
  {
    CopyAllContents(files, dir, photos);
    var i :| 0 <= i < |photos| && photos[i] == e;
  }

  /** index.md is not a name the filter accepts. */
  lemma IndexIsNotPhoto(e: Entry)
    requires Accepted(e)
    ensures e.name != "index.md"
  {
    if e.name == "index.md" {
      LowerOfLowercase(e.name);
      IndexOfMissingChar(e.name, ".jpg", 1);
      assert false;
    }
  }

  /** Before the collection step, each photo's copy holds the photo and
      is neither index.md nor the parent's post. */
  lemma StagedHoldsPhoto(files: map<string, Blob>, contentPath: Path, photos: seq<Entry>, post: string, e: Entry)
    requires ValidPath(contentPath) && contentPath.elems != [] && ValidListing(photos)
    requires e in photos && e.name != "index.md"
    ensures var staged := Staged(files, contentPath, photos, post);
            var dest := PathIn(contentPath, e.name);
            dest in staged && staged[dest] == Binary(e.data) && dest != ParentMarkdown(contentPath)
  {
    PhotoCopied(files, contentPath, photos, e);
    PathInInjective(contentPath, e.name, "index.md");
    ChildIsNotParentMarkdown(contentPath, e.name);
  }

  /** Every photo's copy holds the photo, unless it is the very file the
      cover's asset is written to. */
  lemma RunCopiesPhotos(files: map<string, Blob>, req: Request, listing: seq<Entry>, exif: Bytes -> Time)
    requires ValidPath(req.contentPath) && req.contentPath.elems != [] && ValidListing(listing)
    ensures var out := Run(files, req, listing, exif).1;
            forall e :: e in Photos(listing) && PathIn(req.contentPath, e.name) != AssetPath(req, listing) ==>
              PathIn(req.contentPath, e.name) in out && out[PathIn(req.contentPath, e.name)] == Binary(e.data)
  {
    var cp := req.contentPath;
    var ps := Photos(listing);
    var item := PostItem(req.title, "", FormatDate(Latest(listing, exif)), CoverOf(listing));
    var staged := GalleryFiles(files, req, listing, exif);
    var out := Run(files, req, listing, exif).1;
    PhotosNamed(listing);
    PhotosAreAccepted(listing);
    forall e | e in ps && PathIn(cp, e.name) != AssetPath(req, listing)
      ensures PathIn(cp, e.name) in out && out[PathIn(cp, e.name)] == Binary(e.data)
    {
      IndexIsNotPhoto(e);
      StagedHoldsPhoto(files, cp, ps, GalleryPost(item), e);
      RunKeepsFile(files, req, listing, exif, PathIn(cp, e.name));
    }
  }

  /** A collection post reads back with its title as given and its cover
      as the asset reference. */
  lemma CollectionItemReadsBack(name: string, date: string, coverImage: string)
    requires '\n' !in name && '"' !in name && '"' !in date && '"' !in coverImage
    ensures ParsePost(CollectionPost(PostItem(name, "", date, CoverReference(name, coverImage))))
            == Some(Fields(name, date, "collection", "images/" + Lower(name) + "-" + coverImage))
  {
    var lower := Lower(name);
    assert '"' !in lower by {
      forall i | 0 <= i < |name| ensures lower[i] != '"' {
        LowerKeepsNonLetters(name, i, '"');
      }
    }
    CollectionPostRoundTrip(PostItem(name, "", date, CoverReference(name, coverImage)));
  }

  /** The collection post of a run reads back as a "collection" post titled
      with the directory's name as it is, and covered by the asset copied
      for it. */
  lemma CollectionPostReadsBack(req: Request, listing: seq<Entry>, exif: Bytes -> Time)
    requires ValidPath(req.contentPath)
    requires '\n' !in Base(ParentDir(req.contentPath)) && '"' !in Base(ParentDir(req.contentPath))
    requires '"' !in CoverOf(listing)
    ensures var name := Base(ParentDir(req.contentPath));
            ParsePost(CollectionPost(CollectionItem(req, listing, exif)))
            == Some(Fields(name, FormatDate(Latest(listing, exif)), "collection",
                           "images/" + Lower(name) + "-" + CoverOf(listing)))
  {
    var t := Latest(listing, exif);
    FormatDateCharacters(t);
    CollectionItemReadsBack(Base(ParentDir(req.contentPath)), FormatDate(t), CoverOf(listing));
  }
}
