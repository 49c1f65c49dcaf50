/** Slash-separated file paths as path/filepath produces them. Every path the
    importer builds comes out of filepath.Join, which returns a clean path;
    a clean path is modelled by whether it starts at the root and its list
    of names. The empty relative path prints as "." and the empty absolute
    path as "/". */
module Paths {
  import opened Text

  datatype Path = Path(absolute: bool, elems: seq<string>)

  /** One element of a clean path: not empty, no separator. */
  predicate IsName(s: string) {
    s != [] && '/' !in s
  }

  predicate ValidPath(p: Path) {
    forall i :: 0 <= i < |p.elems| ==> IsName(p.elems[i])
  }

  function JoinSep(cs: seq<string>): string
    requires cs != []
  {
    if |cs| == 1 then cs[0] else cs[0] + "/" + JoinSep(cs[1..])
  }

  /** The text of a path. */
  function Render(p: Path): string {
    if p.elems == [] then (if p.absolute then "/" else ".")
    else (if p.absolute then "/" else "") + JoinSep(p.elems)
  }

  /** The text that precedes the name of a child of `p`. */
  function ChildPrefix(p: Path): string {
    if p.elems == [] then (if p.absolute then "/" else "") else Render(p) + "/"
  }

  lemma {:induction false} JoinSepAppend(cs: seq<string>, x: string)
    requires cs != []
    ensures JoinSep(cs + [x]) == JoinSep(cs) + "/" + x
  {
    if |cs| > 1 {
      assert (cs + [x])[1..] == cs[1..] + [x];
      JoinSepAppend(cs[1..], x);
    }
  }

  /** The text of a child path is the parent's prefix followed by the name. */
  lemma RenderChild(p: Path, x: string)
    ensures Render(Path(p.absolute, p.elems + [x])) == ChildPrefix(p) + x
  {
    if p.elems != [] {
      JoinSepAppend(p.elems, x);
    } else {
      assert p.elems + [x] == [x];
    }
  }

  lemma {:induction false} JoinSepSlashes(cs: seq<string>)
    requires cs != []
    requires forall i :: 0 <= i < |cs| ==> IsName(cs[i])
    ensures multiset(JoinSep(cs))['/'] == |cs| - 1
  {
    if |cs| > 1 {
      JoinSepSlashes(cs[1..]);
      assert JoinSep(cs) == cs[0] + "/" + JoinSep(cs[1..]);
      assert multiset(cs[0])['/'] == 0;
    } else {
      assert multiset(cs[0])['/'] == 0;
    }
  }

  /** A valid path's text holds one separator between each two names, plus
      the leading one of an absolute path. */
  lemma RenderSlashes(p: Path)
    requires ValidPath(p)
    ensures multiset(Render(p))['/'] ==
              (if p.absolute then 1 else 0) + (if p.elems == [] then 0 else |p.elems| - 1)
  {
    if p.elems != [] {
      JoinSepSlashes(p.elems);
    }
  }

  /** The names of a relative name such as "images/x-a.jpg": the non-empty
      runs between separators. filepath.Join cleans its result, which drops
      repeated and trailing separators. */
  function Segments(s: string): (r: seq<string>)
    ensures forall i :: 0 <= i < |r| ==> IsName(r[i])
    decreases |s|
  {
    var k := IndexOf(s, "/");
    IndexOfChar(s, '/');
    if k == -1 then (if s == [] then [] else [s])
    else if k == 0 then Segments(s[1..])
    else [s[..k]] + Segments(s[k + 1..])
  }

  lemma SegmentsOfName(s: string)
    ensures IsName(s) ==> Segments(s) == [s]
  {
    IndexOfChar(s, '/');
  }

  /** filepath.Join(dir, name) for a clean `dir` and a name none of whose
      segments is "." or "..". */
  function JoinName(dir: Path, name: string): (r: Path)
    ensures ValidPath(dir) ==> ValidPath(r)
    ensures IsName(name) ==> r == Path(dir.absolute, dir.elems + [name])
  {
    SegmentsOfName(name);
    Path(dir.absolute, dir.elems + Segments(name))
  }

  /** filepath.Dir of a clean path: everything but the last name; "." and
      "/" are their own directories. */
  function Dir(p: Path): (r: Path)
    ensures r.absolute == p.absolute
    ensures |r.elems| == if p.elems == [] then 0 else |p.elems| - 1
    ensures ValidPath(p) ==> ValidPath(r)
  {
    if p.elems == [] then p else Path(p.absolute, p.elems[..|p.elems| - 1])
  }

  /** filepath.Base of a clean path: its last name; "/" for the root and "."
      for the empty relative path. */
  function Base(p: Path): (r: string)
    ensures ValidPath(p) ==> r != []
    ensures ValidPath(p) && p.elems != [] ==> IsName(r)
  {
    if p.elems == [] then (if p.absolute then "/" else ".") else p.elems[|p.elems| - 1]
  }

  /** A path is its directory joined with its base name. */
  lemma DirBaseJoin(p: Path)
    requires ValidPath(p)
    ensures p.elems != [] ==> JoinName(Dir(p), Base(p)) == p
  {
    if p.elems != [] {
      assert Dir(p).elems + [Base(p)] == p.elems;
    }
  }

  /** filepath.Split of a clean path: the text up to and including the last
      separator, and the rest. */
  function Split(p: Path): (r: (string, string))
    requires ValidPath(p)
    ensures r.0 + r.1 == Render(p)
    ensures '/' !in r.1
    ensures r.0 == [] || r.0[|r.0| - 1] == '/'
  {
    if p.elems == [] then
      (if p.absolute then ("/", "") else ("", "."))
    else
      SplitParts(p);
      (ChildPrefix(Dir(p)), Base(p))
  }

  /** The two halves of a non-empty clean path's text: the prefix of its
      last name, ending in a separator unless empty, and that name. */
  lemma SplitParts(p: Path)
    requires ValidPath(p) && p.elems != []
    ensures ChildPrefix(Dir(p)) + Base(p) == Render(p)
    ensures IsName(Base(p))
    ensures ChildPrefix(Dir(p)) == [] || ChildPrefix(Dir(p))[|ChildPrefix(Dir(p))| - 1] == '/'
  {
    var d, b := Dir(p), Base(p);
    DirBaseJoin(p);
    assert Path(d.absolute, d.elems + [b]) == p;
    RenderChild(d, b);
    ChildPrefixEnds(d);
  }

  lemma ChildPrefixEnds(d: Path)
    ensures ChildPrefix(d) == [] || ChildPrefix(d)[|ChildPrefix(d)| - 1] == '/'
  {
    if d.elems != [] {
      var r := Render(d);
      assert (r + "/")[|r|] == '/';
    }
  }

  /** filepath.Dir applied to the first half of a Split: Clean of the text,
      which here only drops the trailing separator ("" cleans to "."). */
  function DirOfPrefix(d: string): string {
    if d == [] then "." else if d == "/" then "/" else d[..|d| - 1]
  }

  /** parentDir in hugo-gallery.go: filepath.Split followed by filepath.Dir.
      On a clean path this is the immediate parent directory and nothing
      higher: the path is that parent joined with one name. */
  function ParentDir(p: Path): (r: Path)
    requires ValidPath(p)
    ensures ValidPath(r)
    ensures Render(r) == DirOfPrefix(Split(p).0)
    ensures p.elems != [] ==> JoinName(r, Base(p)) == p
    ensures p.elems == [] ==> r == p
  {
    DirBaseJoin(p);
    Dir(p)
  }

  /** The markdown file that describes directory `d` lives beside it:
      filepath.Join(filepath.Dir(d), filepath.Base(d) + ".md") is the text of
      `d` followed by ".md", for every clean path including "." and "/". */
  lemma {:induction false} SiblingMarkdown(d: Path)
    requires ValidPath(d)
    ensures Render(JoinName(Dir(d), Base(d) + ".md")) == Render(d) + ".md"
  {
    if d.elems == [] {
      EmptySiblingMarkdown(d);
    } else {
      NamedSiblingMarkdown(Dir(d), Base(d));
      DirBaseJoin(d);
    }
  }

  /** "." and "/" have the sibling markdown files "..md" and "/.md". */
  lemma EmptySiblingMarkdown(d: Path)
    requires d.elems == []
    ensures Render(JoinName(Dir(d), Base(d) + ".md")) == Render(d) + ".md"
  {
    var md := Base(d) + ".md";
    if d.absolute {
      RootSegments();
      assert Segments(md) == [md[1..]];
    } else {
      assert IsName(md);
      SegmentsOfName(md);
      assert Segments(md) == [md];
    }
  }

  lemma RootSegments()
    ensures Segments("/.md") == [".md"]
  {
    IndexOfChar("/.md", '/');
    assert "/.md"[1..] == ".md";
    SegmentsOfName(".md");
  }

  lemma NamedSiblingMarkdown(dir: Path, x: string)
    requires IsName(x)
    ensures Render(JoinName(dir, x + ".md")) == Render(JoinName(dir, x)) + ".md"
  {
    var md := x + ".md";
    assert IsName(md);
    RenderChild(dir, md);
    RenderChild(dir, x);
    AppendMarkdown(Render(JoinName(dir, md)), Render(JoinName(dir, x)), ChildPrefix(dir), x);
  }

  lemma AppendMarkdown(a: string, b: string, p: string, x: string)
    requires a == p + (x + ".md") && b == p + x
    ensures a == b + ".md"
  {
    assert p + (x + ".md") == (p + x) + ".md";
  }

  /** No file inside a non-empty directory `p` has the path of the markdown
      file beside p's parent: the file's path holds more separators. */
  lemma ChildIsNotParentMarkdown(p: Path, name: string)
    requires ValidPath(p) && p.elems != [] && IsName(name)
    ensures Render(JoinName(p, name)) != Render(ParentDir(p)) + ".md"
  {
    var child := JoinName(p, name);
    RenderSlashes(child);
    RenderSlashes(ParentDir(p));
    assert multiset(".md")['/'] == 0;
    assert multiset(Render(ParentDir(p)) + ".md")['/'] == multiset(Render(ParentDir(p)))['/'];
  }

  /** The text after the last separator of a path's text. */
  function LastName(s: string): (r: string)
    ensures '/' !in r
  {
    if s == [] || s[|s| - 1] == '/' then [] else LastName(s[..|s| - 1]) + [s[|s| - 1]]
  }

  lemma {:induction false} LastNameConcat(p: string, t: string)
    ensures LastName(p + t) == if '/' in t then LastName(t) else LastName(p) + t
    decreases |t|
  {
    if t != [] {
      var t' := t[..|t| - 1];
      assert (p + t)[..|p + t| - 1] == p + t';
      assert t == t' + [t[|t| - 1]];
      LastNameConcat(p, t');
    } else {
      assert p + t == p;
    }
  }

  lemma LastNameNoSlash(s: string)
    requires '/' !in s
    ensures LastName(s) == s
  {
    LastNameConcat([], s);
    assert [] + s == s;
  }

  /** What follows a separator decides the last name. */
  lemma LastNameAfterSlash(s: string, k: int)
    requires 0 <= k < |s| && s[k] == '/'
    ensures LastName(s) == LastName(s[k + 1..])
  {
    var rest := s[k + 1..];
    assert s == s[..k + 1] + rest;
    LastNameConcat(s[..k + 1], rest);
    if '/' !in rest {
      LastNameNoSlash(rest);
    }
  }

  /** The last name of a child path's text is the child's name. */
  lemma LastNameOfChild(dir: Path, x: string)
    requires IsName(x)
    ensures LastName(Render(Path(dir.absolute, dir.elems + [x]))) == x
  {
    RenderChild(dir, x);
    var p := ChildPrefix(dir);
    LastNameConcat(p, x);
    if p != [] {
      assert p[|p| - 1] == '/';
    }
  }

  lemma {:induction false} SegmentsLastName(s: string)
    requires LastName(s) != []
    ensures Segments(s) != [] && Segments(s)[|Segments(s)| - 1] == LastName(s)
    decreases |s|
  {
    if '/' !in s {
      SegmentsOfName(s);
      LastNameNoSlash(s);
    } else {
      var k := FirstSlash(s);
      var rest := s[k + 1..];
      SegmentsAtSlash(s, k);
      LastNameAfterSlash(s, k);
      SegmentsLastName(rest);
      LastOfAppend(if k == 0 then [] else [s[..k]], Segments(rest), Segments(s));
    }
  }

  lemma LastOfAppend(front: seq<string>, tail: seq<string>, whole: seq<string>)
    requires whole == front + tail && tail != []
    ensures whole != [] && whole[|whole| - 1] == tail[|tail| - 1]
  {
  }

  /** The position of the first separator of a text that has one. */
  lemma FirstSlash(s: string) returns (k: int)
    requires '/' in s
    ensures 0 <= k < |s| && s[k] == '/' && '/' !in s[..k]
  {
    k := IndexOf(s, "/");
    IndexOfChar(s, '/');
    IndexOfFirst(s, "/");
    forall j | 0 <= j < k ensures s[j] != '/' {
      assert !OccursAt(s, "/", j);
      assert s[j..j + 1] == [s[j]];
    }
  }

  /** Segments splits at the first separator. */
  lemma SegmentsAtSlash(s: string, k: int)
    requires 0 <= k < |s| && s[k] == '/' && '/' !in s[..k]
    ensures Segments(s) == (if k == 0 then [] else [s[..k]]) + Segments(s[k + 1..])
  {
    assert s[k..k + 1] == "/";
    IndexOfAtFirstChar(s, "/", k);
    if k == 0 {
      assert [] + Segments(s[1..]) == Segments(s[1..]);
    }
  }

  /** Joining a name onto a directory keeps the name's last part as the
      path's last name. */
  lemma PathLastName(dir: Path, name: string)
    requires LastName(name) != []
    ensures LastName(Render(JoinName(dir, name))) == LastName(name)
  {
    SegmentsLastName(name);
    var segs := Segments(name);
    var n := |segs| - 1;
    var q := Path(dir.absolute, dir.elems + segs[..n]);
    assert segs == segs[..n] + [segs[n]];
    assert dir.elems + segs == q.elems + [segs[n]];
    assert JoinName(dir, name) == Path(q.absolute, q.elems + [segs[n]]);
    LastNameOfChild(q, segs[n]);
  }
}
