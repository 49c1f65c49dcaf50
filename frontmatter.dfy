/** The two markdown stencils of hugo-gallery.go. text/template performs no
    escaping for them, so a filled stencil is the concatenation of its
    literal text and the item's fields. */
module FrontMatter {
  import opened Text

  /** PostItem. TitleLowerCase is never set and no stencil uses it. */
  datatype PostItem = PostItem(title: string, titleLowerCase: string, date: string, cover: string)

  /** The fields a front-matter block carries. */
  datatype Fields = Fields(title: string, date: string, postType: string, cover: string)

  const GalleryType: string := "gallery"
  const CollectionType: string := "collection"

  /** The stencil text with `postType` in its type line:
      ---
      title: <title>
      date: "<date>"
      type: "<postType>"
      cover: "<cover>"
      ---
      written as one concatenation nested to the right, in the order a
      reader meets its pieces. Nothing is escaped: the post is the 44
      characters of the stencil's own text plus the four fields, between
      the front-matter delimiters. */
  function Fill(item: PostItem, postType: string): (r: string)
    ensures |r| == 44 + |item.title| + |item.date| + |postType| + |item.cover|
    ensures r[..4] == "---\n" && r[|r| - 5..] == "\n---\n"
  {
    "---\ntitle: " + (item.title + ("\n" + ("date: \"" + (item.date + ("\"" + ("\ntype: \""
    + (postType + ("\"" + ("\ncover: \"" + (item.cover + ("\"" + "\n---\n")))))))))))
  }

  /** generateGalleryPost: galleryTemplate executed on the item. */
  function GalleryPost(item: PostItem): string {
    Fill(item, GalleryType)
  }

  /** generateCollectionPost: collectionTemplate executed on the item. */
  function CollectionPost(item: PostItem): string {
    Fill(item, CollectionType)
  }

  /** The rest of `s` after the literal `lit`, if `s` starts with it. */
  function Expect(s: string, lit: string): (r: Option<string>)
    ensures r.Some? <==> |lit| <= |s| && s[..|lit|] == lit
    ensures r.Some? ==> s == lit + r.value
  {
    if |lit| <= |s| && s[..|lit|] == lit then Some(s[|lit|..]) else None
  }

  /** The text before the first `c` in `s` and the text after it. */
  function TakeUntil(s: string, c: char): (r: Option<(string, string)>)
    ensures r.Some? <==> c in s
    ensures r.Some? ==> s == r.value.0 + ([c] + r.value.1) && c !in r.value.0
  {
    var k := IndexOf(s, [c]);
    IndexOfChar(s, c);
    if k == -1 then None
    else
      SplitAt(s, c, k);
      Some((s[..k], s[k + 1..]))
  }

  /** With no `c` before index k and `c` at k, the text splits around it. */
  lemma SplitAt(s: string, c: char, k: int)
    requires 0 <= k < |s| && s[k] == c
    ensures s == s[..k] + ([c] + s[k + 1..])
  {
    assert s == s[..k] + s[k..] && s[k..] == [c] + s[k + 1..];
  }

  lemma TakeUntilJoin(x: string, c: char, y: string)
    requires c !in x
    ensures TakeUntil(x + ([c] + y), c) == Some((x, y))
  {
    var s := x + ([c] + y);
    assert s[..|x|] == x && s[|x|..|x| + 1] == [c] && s[|x| + 1..] == y;
    IndexOfAtFirstChar(s, [c], |x|);
  }

  lemma ExpectJoin(lit: string, rest: string)
    ensures Expect(lit + rest, lit) == Some(rest)
  {
    assert (lit + rest)[..|lit|] == lit;
  }

  /** One line of the block: the literal `lit`, then a field ending at the
      first `stop`; the field and the text after `stop`. */
  function ReadField(s: string, lit: string, stop: char): (r: Option<(string, string)>)
    ensures r.Some? ==> s == lit + (r.value.0 + ([stop] + r.value.1)) && stop !in r.value.0
  {
    var rest :- Expect(s, lit);
    TakeUntil(rest, stop)
  }

  /** A field written after its literal and closed by `stop` is read back. */
  lemma ReadFieldJoin(lit: string, x: string, stop: char, y: string)
    requires stop !in x
    ensures ReadField(lit + (x + ([stop] + y)), lit, stop) == Some((x, y))
  {
    ExpectJoin(lit, x + ([stop] + y));
    TakeUntilJoin(x, stop, y);
  }

  /** Reads the four fields back out of a front-matter block laid out as
      the stencils lay it out; None for any other text. */
  function ParsePost(s: string): Option<Fields> {
    var (title, s2) :- ReadField(s, "---\ntitle: ", '\n');
    var (date, s4) :- ReadField(s2, "date: \"", '"');
    var (postType, s6) :- ReadField(s4, "\ntype: \"", '"');
    var (cover, s8) :- ReadField(s6, "\ncover: \"", '"');
    if s8 == "\n---\n" then Some(Fields(title, date, postType, cover)) else None
  }

  /** Fields a stencil can hold without breaking its layout: a title on one
      line, and a date, type and cover without double quotes. */
  predicate Fits(item: PostItem, postType: string) {
    '\n' !in item.title && '"' !in item.date && '"' !in postType && '"' !in item.cover
  }

  /** Reading a filled stencil gives back exactly the fields it was filled
      with. */
  lemma FillRoundTrip(item: PostItem, postType: string)
    requires Fits(item, postType)
    ensures ParsePost(Fill(item, postType)) == Some(Fields(item.title, item.date, postType, item.cover))
  {
    var s8 := "\n---\n";
    var s6 := "\ncover: \"" + (item.cover + ("\"" + s8));
    var s4 := "\ntype: \"" + (postType + ("\"" + s6));
    var s2 := "date: \"" + (item.date + ("\"" + s4));
    ReadFieldJoin("---\ntitle: ", item.title, '\n', s2);
    ReadFieldJoin("date: \"", item.date, '"', s4);
    ReadFieldJoin("\ntype: \"", postType, '"', s6);
    ReadFieldJoin("\ncover: \"", item.cover, '"', s8);
  }

  /** Whatever the reader returns could fill a stencil: a title without a
      line break, and a date, type and cover without '"'. */
  lemma ParsedFieldsFit(s: string)
    ensures var r := ParsePost(s);
            r.Some? ==> Fits(PostItem(r.value.title, "", r.value.date, r.value.cover), r.value.postType)
  {
    var title := ReadField(s, "---\ntitle: ", '\n');
    if title.Some? {
      var date := ReadField(title.value.1, "date: \"", '"');
      if date.Some? {
        var postType := ReadField(date.value.1, "\ntype: \"", '"');
        if postType.Some? {
          var cover := ReadField(postType.value.1, "\ncover: \"", '"');
          if cover.Some? {
            ParsedFields(s, title.value, date.value, postType.value, cover.value);
          }
        }
      }
    }
  }

  lemma ParsedFields(s: string, title: (string, string), date: (string, string),
                     postType: (string, string), cover: (string, string))
    requires ReadField(s, "---\ntitle: ", '\n') == Some(title)
    requires ReadField(title.1, "date: \"", '"') == Some(date)
    requires ReadField(date.1, "\ntype: \"", '"') == Some(postType)
    requires ReadField(postType.1, "\ncover: \"", '"') == Some(cover)
    ensures ParsePost(s) == if cover.1 == "\n---\n" then Some(Fields(title.0, date.0, postType.0, cover.0)) else None
  {
  }

  /** A filled stencil reads back as the fields it was filled with exactly
      when they fit it; a cover holding '"', say, never reads back. */
  lemma FillReadsBackIff(item: PostItem, postType: string)
    ensures ParsePost(Fill(item, postType)) == Some(Fields(item.title, item.date, postType, item.cover))
            <==> Fits(item, postType)
  {
    if Fits(item, postType) {
      FillRoundTrip(item, postType);
    } else {
      ParsedFieldsFit(Fill(item, postType));
    }
  }

  /** The gallery post reads back as type "gallery" with the item's title,
      date and cover. */
  lemma GalleryPostRoundTrip(item: PostItem)
    requires Fits(item, GalleryType)
    ensures ParsePost(GalleryPost(item)) == Some(Fields(item.title, item.date, "gallery", item.cover))
  {
    FillRoundTrip(item, GalleryType);
  }

  /** The collection post reads back as type "collection" with the item's
      title, date and cover. */
  lemma CollectionPostRoundTrip(item: PostItem)
    requires Fits(item, CollectionType)
    ensures ParsePost(CollectionPost(item)) == Some(Fields(item.title, item.date, "collection", item.cover))
  {
    FillRoundTrip(item, CollectionType);
  }

  /** A post determines the title, date and cover it was filled with. */
  lemma PostDeterminesItem(a: PostItem, b: PostItem, postType: string)
    requires Fits(a, postType) && Fits(b, postType)
    requires Fill(a, postType) == Fill(b, postType)
    ensures a.title == b.title && a.date == b.date && a.cover == b.cover
  {
    FillRoundTrip(a, postType);
    FillRoundTrip(b, postType);
  }

  /** The stencils differ in the type line, so a gallery post is never a
      collection post. */
  lemma GalleryIsNotCollection(a: PostItem, b: PostItem)
    requires Fits(a, GalleryType) && Fits(b, CollectionType)
    ensures GalleryPost(a) != CollectionPost(b)
  {
    GalleryPostRoundTrip(a);
    CollectionPostRoundTrip(b);
  }
}
