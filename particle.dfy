/**
 * Turning a parsed article into a particle document: a format tag, a short
 * ASCII title, and a list of paragraph entries (a bold title line, a byline
 * and date line, then the article's paragraphs without the fine print).
 *
 * An article is a dictionary whose keys may be missing; each key is an
 * Option here.  A present value counts as given only when it is non-empty,
 * which is Python's truth test on a string.
 */
module Particle {
  import opened Wrappers
  import opened Strings

  /** The parsed article: title, byline, date and paragraph texts, each possibly missing. */
  datatype Article = Article(
    title: Option<string>,
    byline: Option<string>,
    date: Option<string>,
    paragraphs: Option<seq<string>>)

  /** One entry of the document's content list: its type and its text. */
  datatype Entry = Entry(kind: string, text: string)

  /** The particle document. */
  datatype Document = Document(format: string, title: string, content: seq<Entry>)

  const Format: string := "particle"
  const ParagraphKind: string := "paragraph"
  const DefaultTitle: string := "Untitled"
  const Ellipsis: string := "..."
  /** The longest document title; a longer one keeps its first MaxTitle - 3 characters. */
  const MaxTitle: nat := 40
  const MetadataSeparator: string := " | "

  /** Python's truth test on a field: present and not the empty string. */
  predicate Given(field: Option<string>)
    ensures Given(field) ==> field.Some? && |field.value| > 0
    ensures field.Some? && |field.value| > 0 ==> Given(field)
  {
    field.Some? && field.value != ""
  }

  predicate IsAscii(s: string)
  {
    forall i :: 0 <= i < |s| ==> s[i] as int < 128
  }

  // ---------------------------------------------------------------------------
  // The document title

  /** Encoding to ASCII and ignoring errors: every character of code 128 or more is dropped. */
  function AsciiOnly(s: string): (r: string)
    ensures IsAscii(r) && |r| <= |s|
    ensures r == s <==> IsAscii(s)
    decreases |s|
  {
    if |s| == 0 then ""
    else
      var rest := AsciiOnly(s[1..]);
      if s[0] as int < 128 then [s[0]] + rest else rest
  }

  /** The filter keeps exactly the ASCII characters of s. */
  lemma {:induction false} AsciiOnlyKeeps(s: string, c: char)
    ensures c in AsciiOnly(s) <==> c in s && c as int < 128
    decreases |s|
  {
    if |s| > 0 {
      AsciiOnlyKeeps(s[1..], c);
      assert c in s <==> c == s[0] || c in s[1..];
    }
  }

  lemma {:induction false} AsciiOnlyAppend(s: string, t: string)
    ensures AsciiOnly(s + t) == AsciiOnly(s) + AsciiOnly(t)
    decreases |s|
  {
    if |s| == 0 {
      assert s + t == t;
    } else {
      assert (s + t)[0] == s[0];
      assert (s + t)[1..] == s[1..] + t;
      AsciiOnlyAppend(s[1..], t);
    }
  }

  /** A title longer than MaxTitle characters is cut to MaxTitle - 3 and marked with an ellipsis. */
  function Truncated(title: string): (r: string)
    ensures |r| <= MaxTitle
    ensures |title| <= MaxTitle ==> r == title
    ensures |title| > MaxTitle ==>
      |r| == MaxTitle && r[..MaxTitle - 3] == title[..MaxTitle - 3] && r[MaxTitle - 3..] == Ellipsis
  {
    if |title| > MaxTitle then title[..MaxTitle - 3] + Ellipsis else title
  }

  /**
   * The document's title: the article title (or "Untitled"), truncated, then
   * with non-ASCII characters dropped; it fits the display's title line.
   */
  function DocumentTitle(title: Option<string>): (t: string)
    ensures |t| <= MaxTitle && IsAscii(t)
  {
    AsciiOnly(Truncated(if title.Some? then title.value else DefaultTitle))
  }

  /**
   * The document title has at most MaxTitle characters, all ASCII.  A missing
   * title gives "Untitled"; a short title is kept exactly when it is all
   * ASCII; a long one keeps the ASCII characters of its first MaxTitle - 3
   * and ends in "...".
   */
  lemma TitleShape(title: Option<string>)
    ensures var r := DocumentTitle(title);
      |r| <= MaxTitle && IsAscii(r) &&
      (title.None? ==> r == DefaultTitle) &&
      (title.Some? && |title.value| <= MaxTitle ==> (r == title.value <==> IsAscii(title.value))) &&
      (title.Some? && |title.value| > MaxTitle ==>
        |r| >= 3 && r[|r| - 3..] == Ellipsis && r[..|r| - 3] == AsciiOnly(title.value[..MaxTitle - 3]))
  {
    var t := if title.Some? then title.value else DefaultTitle;
    if |t| > MaxTitle {
      AsciiOnlyAppend(t[..MaxTitle - 3], Ellipsis);
      assert AsciiOnly(Ellipsis) == Ellipsis;
    } else {
      assert IsAscii(DefaultTitle);
    }
  }

  // ---------------------------------------------------------------------------
  // The content list

  /** The title entry: the untruncated article title in asterisks, when the title is given. */
  function TitleEntries(article: Article): (r: seq<Entry>)
    ensures |r| <= 1
    ensures |r| == 1 <==> Given(article.title)
    ensures forall i :: 0 <= i < |r| ==> r[i].kind == ParagraphKind && |r[i].text| == |article.title.value| + 2
  {
    if Given(article.title) then [Entry(ParagraphKind, "*" + article.title.value + "*")] else []
  }

  /** The byline and the date that are given, byline first. */
  function MetadataParts(article: Article): (r: seq<string>)
    ensures |r| <= 2
    ensures |r| == 0 <==> !Given(article.byline) && !Given(article.date)
    ensures forall i :: 0 <= i < |r| ==> r[i] != ""
    ensures Given(article.byline) ==> r[0] == article.byline.value
    ensures Given(article.date) ==> r[|r| - 1] == article.date.value
  {
    (if Given(article.byline) then [article.byline.value] else [])
    + (if Given(article.date) then [article.date.value] else [])
  }

  /** The metadata entry, when the byline or the date is given. */
  function MetadataEntries(article: Article): (r: seq<Entry>)
    ensures |r| <= 1
    ensures |r| == 1 <==> Given(article.byline) || Given(article.date)
    ensures forall i :: 0 <= i < |r| ==> r[i].kind == ParagraphKind
  {
    if Given(article.byline) || Given(article.date) then
      [Entry(ParagraphKind, Join(MetadataSeparator, MetadataParts(article)))]
    else []
  }

  /** The article's paragraphs (none when the key is missing) without the last one, the fine print. */
  function BodyParagraphs(paragraphs: Option<seq<string>>): (r: seq<string>)
    ensures paragraphs.None? ==> r == []
    ensures paragraphs.Some? && |paragraphs.value| > 0 ==>
      |r| == |paragraphs.value| - 1 && r + [paragraphs.value[|r|]] == paragraphs.value
    ensures paragraphs.Some? && |paragraphs.value| == 0 ==> r == []
  {
    var ps := if paragraphs.Some? then paragraphs.value else [];
    if |ps| > 0 then ps[..|ps| - 1] else ps
  }

  /** The non-empty strings of ps, in order. */
  function NonEmpty(ps: seq<string>): (r: seq<string>)
    ensures |r| <= |ps|
    ensures r == ps <==> "" !in ps
    decreases |ps|
  {
    if |ps| == 0 then []
    else
      var rest := NonEmpty(ps[1..]);
      if ps[0] != "" then [ps[0]] + rest else rest
  }

  /** The filter keeps exactly the non-empty strings of ps. */
  lemma {:induction false} NonEmptyKeeps(ps: seq<string>, p: string)
    ensures p in NonEmpty(ps) <==> p in ps && p != ""
    decreases |ps|
  {
    if |ps| > 0 {
      NonEmptyKeeps(ps[1..], p);
      assert p in ps <==> p == ps[0] || p in ps[1..];
    }
  }

  lemma {:induction false} NonEmptyAppend(a: seq<string>, b: seq<string>)
    ensures NonEmpty(a + b) == NonEmpty(a) + NonEmpty(b)
    decreases |a|
  {
    if |a| == 0 {
      assert a + b == b;
    } else {
      assert (a + b)[0] == a[0];
      assert (a + b)[1..] == a[1..] + b;
      NonEmptyAppend(a[1..], b);
    }
  }

  /** One paragraph entry per text. */
  function Paragraphs(texts: seq<string>): (r: seq<Entry>)
    ensures |r| == |texts|
    ensures forall i :: 0 <= i < |r| ==> r[i] == Entry(ParagraphKind, texts[i])
  {
    seq(|texts|, i requires 0 <= i < |texts| => Entry(ParagraphKind, texts[i]))
  }

  lemma ParagraphsAppend(a: seq<string>, b: seq<string>)
    ensures Paragraphs(a + b) == Paragraphs(a) + Paragraphs(b)
  {
    assert forall i :: 0 <= i < |a| ==> (a + b)[i] == a[i];
    assert forall i :: |a| <= i < |a| + |b| ==> (a + b)[i] == b[i - |a|];
  }

  /** One more paragraph adds its entry to the body exactly when it is non-empty. */
  lemma BodyStep(ps: seq<string>, i: nat)
    requires i < |ps|
    ensures Paragraphs(NonEmpty(ps[..i + 1])) ==
      Paragraphs(NonEmpty(ps[..i])) + (if ps[i] != "" then [Entry(ParagraphKind, ps[i])] else [])
  {
    var kept := NonEmpty(ps[..i]);
    var next := NonEmpty([ps[i]]);
    NonEmptyAppend(ps[..i], [ps[i]]);
    assert ps[..i + 1] == ps[..i] + [ps[i]];
    ParagraphsAppend(kept, next);
    if ps[i] != "" {
      assert next == [ps[i]];
    } else {
      assert next == [];
      assert kept + next == kept;
    }
  }

  /**
   * The content list convert_to_particle builds: paragraph entries only, at
   * most one for the title, one for the metadata and one per body paragraph.
   */
  function Content(article: Article): (c: seq<Entry>)
    ensures forall i :: 0 <= i < |c| ==> c[i].kind == ParagraphKind
    ensures |c| <= 2 + |BodyParagraphs(article.paragraphs)|
  {
    TitleEntries(article) + MetadataEntries(article) + Paragraphs(NonEmpty(BodyParagraphs(article.paragraphs)))
  }

  /** The document convert_to_particle builds: a particle document with a short ASCII title. */
  function Converted(article: Article): (d: Document)
    ensures d.format == Format && |d.title| <= MaxTitle && IsAscii(d.title)
    ensures forall i :: 0 <= i < |d.content| ==> d.content[i].kind == ParagraphKind
  {
    Document(Format, DocumentTitle(article.title), Content(article))
  }

  /** The loop over the body paragraphs: each non-empty one is appended to content as a paragraph entry. */
  method AppendParagraphs(content: seq<Entry>, paragraphs: seq<string>) returns (result: seq<Entry>)
    ensures result == content + Paragraphs(NonEmpty(paragraphs))
  {
    result := content;
    var i := 0;
    while i < |paragraphs|
      invariant 0 <= i <= |paragraphs|
      invariant result == content + Paragraphs(NonEmpty(paragraphs[..i]))
    {
      ghost var kept := Paragraphs(NonEmpty(paragraphs[..i]));
      BodyStep(paragraphs, i);
      if paragraphs[i] != "" {
        var entry := Entry(ParagraphKind, paragraphs[i]);
        assert content + (kept + [entry]) == (content + kept) + [entry];
        result := result + [entry];
      } else {
        assert kept + [] == kept;
      }
      i := i + 1;
    }
    assert paragraphs[..i] == paragraphs;
  }

  /** The metadata step: when the byline or the date is given, their joined text is appended as one entry. */
  method AppendMetadata(content: seq<Entry>, article: Article) returns (result: seq<Entry>)
    ensures result == content + MetadataEntries(article)
  {
    result := content;
    if Given(article.byline) || Given(article.date) {
      var metadata: seq<string> := [];
      if Given(article.byline) {
        metadata := metadata + [article.byline.value];
      }
      if Given(article.date) {
        metadata := metadata + [article.date.value];
      }
      assert metadata == MetadataParts(article);
      result := result + [Entry(ParagraphKind, Join(MetadataSeparator, metadata))];
    } else {
      assert content + [] == content;
    }
  }

  /**
   * convert_to_particle: the title is computed, then the content list grows
   * by appending the title entry, the metadata entry and one entry per
   * non-empty body paragraph.
   */
  method ConvertToParticle(article: Article) returns (doc: Document)
    ensures doc.format == Format && doc.title == DocumentTitle(article.title)
    ensures doc.content == Content(article)
  {
    var content: seq<Entry> := [];
    if Given(article.title) {
      content := content + [Entry(ParagraphKind, "*" + article.title.value + "*")];
    }
    assert content == TitleEntries(article);
    content := AppendMetadata(content, article);

    var paragraphs := if article.paragraphs.Some? then article.paragraphs.value else [];
    if |paragraphs| > 0 {
      paragraphs := paragraphs[..|paragraphs| - 1];
    }
    assert paragraphs == BodyParagraphs(article.paragraphs);
    content := AppendParagraphs(content, paragraphs);
    doc := Document(Format, DocumentTitle(article.title), content);
  }

  // ---------------------------------------------------------------------------
  // What the document holds

  /** The title entry comes first exactly when the title is given, and holds the title untruncated. */
  lemma {:induction false} TitleEntry(article: Article)
    ensures Given(article.title) ==>
      Content(article)[0] == Entry(ParagraphKind, "*" + article.title.value + "*")
    ensures !Given(article.title) ==>
      Content(article) == MetadataEntries(article) + Paragraphs(NonEmpty(BodyParagraphs(article.paragraphs)))
  {
    var rest := MetadataEntries(article) + Paragraphs(NonEmpty(BodyParagraphs(article.paragraphs)));
    assert Content(article) == TitleEntries(article) + rest;
    if !Given(article.title) {
      assert TitleEntries(article) + rest == rest;
    }
  }

  /** A missing title gives the document title "Untitled" but no title entry; an empty one gives "". */
  lemma MissingTitle(article: Article)
    ensures article.title.None? ==>
      DocumentTitle(article.title) == DefaultTitle && TitleEntries(article) == []
    ensures article.title == Some("") ==>
      DocumentTitle(article.title) == "" && TitleEntries(article) == []
  {
    TitleShape(article.title);
    if article.title == Some("") {
      assert Truncated("") == "";
    }
  }

  /** The entry just after a prefix a of a + b + c is the first of b. */
  lemma MiddleFirst(a: seq<Entry>, b: seq<Entry>, c: seq<Entry>)
    requires |b| > 0
    ensures (a + b + c)[|a|] == b[0]
  {
  }

  /** The metadata text: the given byline and date, byline first, joined by the separator. */
  lemma MetadataText(article: Article)
    ensures var parts := MetadataParts(article); var b, d := article.byline, article.date;
      (Given(b) && Given(d) ==> Join(MetadataSeparator, parts) == b.value + MetadataSeparator + d.value) &&
      (Given(b) && !Given(d) ==> Join(MetadataSeparator, parts) == b.value) &&
      (!Given(b) && Given(d) ==> Join(MetadataSeparator, parts) == d.value)
  {
    var parts := MetadataParts(article);
    if Given(article.byline) && Given(article.date) {
      assert parts == [article.byline.value, article.date.value];
      assert parts[1..] == [article.date.value];
      assert Join(MetadataSeparator, parts[1..]) == article.date.value;
    } else if Given(article.byline) {
      assert parts == [article.byline.value];
    } else if Given(article.date) {
      assert parts == [article.date.value];
    }
  }

  /** The metadata entry, right after any title entry: byline and date joined by " | ", byline first. */
  lemma MetadataEntry(article: Article)
    ensures var k := |TitleEntries(article)|; var c := Content(article);
      (Given(article.byline) && Given(article.date) ==>
        c[k].text == article.byline.value + MetadataSeparator + article.date.value) &&
      (Given(article.byline) && !Given(article.date) ==> c[k].text == article.byline.value) &&
      (!Given(article.byline) && Given(article.date) ==> c[k].text == article.date.value)
    ensures !Given(article.byline) && !Given(article.date) ==> MetadataEntries(article) == []
  {
    if Given(article.byline) || Given(article.date) {
      var rest := Paragraphs(NonEmpty(BodyParagraphs(article.paragraphs)));
      MiddleFirst(TitleEntries(article), MetadataEntries(article), rest);
      MetadataText(article);
    }
  }

  /** Entry |head| + i of head + Paragraphs(body) is the entry of body[i]. */
  lemma EntryAfter(head: seq<Entry>, body: seq<string>, i: nat)
    requires i < |body|
    ensures (head + Paragraphs(body))[|head| + i] == Entry(ParagraphKind, body[i])
  {
  }

  /**
   * The entries after the title and metadata are the body paragraphs: the
   * non-empty ones of all but the last, in their original order.
   */
  lemma BodyEntries(article: Article)
    ensures var c := Content(article);
      var k := |TitleEntries(article)| + |MetadataEntries(article)|;
      var body := NonEmpty(BodyParagraphs(article.paragraphs));
      k + |body| == |c| &&
      forall i :: 0 <= i < |body| ==> c[k + i] == Entry(ParagraphKind, body[i])
  {
    EntriesAfter(Content(article), TitleEntries(article), MetadataEntries(article),
      NonEmpty(BodyParagraphs(article.paragraphs)));
  }

  /** In c = t + m + Paragraphs(body), the entries after t and m are those of body, in order. */
  lemma EntriesAfter(c: seq<Entry>, t: seq<Entry>, m: seq<Entry>, body: seq<string>)
    requires c == t + m + Paragraphs(body)
    ensures |c| == |t| + |m| + |body|
    ensures forall i :: 0 <= i < |body| ==> c[|t| + |m| + i] == Entry(ParagraphKind, body[i])
  {
    forall i | 0 <= i < |body|
      ensures c[|t| + |m| + i] == Entry(ParagraphKind, body[i])
    {
      EntryAfter(t + m, body, i);
    }
  }

  /** The last paragraph never reaches the document, whatever it says. */
  lemma {:induction false} LastParagraphDropped(article: Article, ps: seq<string>, last: string)
    requires article.paragraphs == Some(ps + [last])
    ensures Content(article) == Content(article.(paragraphs := Some(ps + [""])))
    ensures NonEmpty(BodyParagraphs(article.paragraphs)) == NonEmpty(ps)
  {
    assert (ps + [last])[..|ps|] == ps;
    assert (ps + [""])[..|ps|] == ps;
  }

  /** Content length: one for a given title, one for a given byline or date, one per non-empty body paragraph. */
  lemma ContentLength(article: Article)
    ensures |Content(article)| ==
      (if Given(article.title) then 1 else 0)
      + (if Given(article.byline) || Given(article.date) then 1 else 0)
      + |NonEmpty(BodyParagraphs(article.paragraphs))|
  {
  }

  /** An article with no fields: title "Untitled" and no content. */
  lemma EmptyArticle()
    ensures Converted(Article(None, None, None, None)) == Document(Format, DefaultTitle, [])
  {
    var article := Article(None, None, None, None);
    assert DocumentTitle(None) == DefaultTitle by {
      TitleShape(None);
    }
    assert Content(article) == [] by {
      ContentLength(article);
      assert BodyParagraphs(None) == [];
    }
  }
}
