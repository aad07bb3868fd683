/**
 * The page generated for one record: the front matter, the body lines,
 * their `"\n"`-join, and the file name; and the errors that stop the
 * conversion of a record.
 */
module Render {
  import opened Wrappers
  import opened Strings
  import opened Bib
  import opened Authors
  import FM = FrontMatter

  /** Why a record cannot be converted: the key error or index error the converter raises. */
  datatype RenderError =
    | MissingTitle
    | MalformedAuthor(position: nat)

  /** The file to write: its name and its full text. */
  datatype Page = Page(fileName: string, text: string)

  /** What joins the lines of a page. */
  const NewLine: string := "\n"

  /** The body line linking to the full text. */
  function UrlLine(url: string): string {
    "\n>[[full text]](" + url + ")"
  }

  /** The body line linking to the code. */
  function CodeLine(code: string): string {
    "\n>[[code]](" + code + ")"
  }

  /** A one-line list when the field is present, empty otherwise. */
  function Present(field: Option<string>): (r: seq<string>)
    ensures |r| == (if field.Some? then 1 else 0)
    ensures field.Some? ==> r[0] == field.value
  {
    if field.Some? then [field.value] else []
  }

  /** The body: the abstract verbatim, the full-text link, the code link, each only when present. */
  function Body(e: Entry): seq<string> {
    Present(e.abstractText)
    + (if e.url.Some? then [UrlLine(e.url.value)] else [])
    + (if e.code.Some? then [CodeLine(e.code.value)] else [])
  }

  /** All lines of the page: front matter, then body. */
  function PageLines(e: Entry): seq<string>
    requires FM.Renderable(e)
  {
    FM.Lines(e) + Body(e)
  }

  /** The text written to the file: `'\n'.join(info)`. */
  function Text(e: Entry): string
    requires FM.Renderable(e)
  {
    Join(PageLines(e), NewLine)
  }

  /** `entry['ID'] + '.md'`. */
  function FileName(id: string): string {
    id + ".md"
  }

  /** The position of the first author whose name would raise the index error. */
  function FirstMalformed(authors: seq<string>): (i: nat)
    requires !AllSplittable(authors)
    ensures i < |authors| && !Splittable(authors[i])
    ensures forall j :: 0 <= j < i ==> Splittable(authors[j])
  {
    if !Splittable(authors[0]) then 0 else 1 + FirstMalformed(authors[1..])
  }

  /**
   * Converts one record into its page, or into the error that stops the
   * converter: the title is looked up before the authors are formatted.
   */
  function Convert(e: Entry): (r: Result<Page, RenderError>)
    ensures r.Success? <==> FM.Renderable(e)
    ensures r == Failure(MissingTitle) <==> e.title.None?
    ensures r.Failure? && r.error.MalformedAuthor? ==>
      && e.title.Some? && e.author.Some?
      && r.error.position < |e.author.value|
      && !Splittable(e.author.value[r.error.position])
      && (forall j :: 0 <= j < r.error.position ==> Splittable(e.author.value[j]))
    ensures r.Success? ==> r.value == Page(FileName(e.id), Text(e))
  {
    if e.title.None? then Failure(MissingTitle)
    else if e.author.Some? && !AllSplittable(e.author.value) then Failure(MalformedAuthor(FirstMalformed(e.author.value)))
    else Success(Page(FileName(e.id), Text(e)))
  }

  /**
   * The body holds the abstract, the full-text link and the code link in
   * that order, each exactly when its field is present.
   */
  lemma BodyLayout(e: Entry)
    ensures |Body(e)| == |Present(e.abstractText)| + |Present(e.url)| + |Present(e.code)|
    ensures e.abstractText.Some? ==> Body(e)[0] == e.abstractText.value
    ensures e.url.Some? ==> Body(e)[|Present(e.abstractText)|] == UrlLine(e.url.value)
    ensures e.code.Some? ==> Body(e)[|Body(e)| - 1] == CodeLine(e.code.value)
  {
  }

  /**
   * The page opens with `+++`, the front matter reads back as its settings,
   * `+++\n` closes it, and the body follows.
   */
  lemma LinesLayout(e: Entry)
    requires FM.Renderable(e)
    ensures |FM.Lines(e)| <= |PageLines(e)|
    ensures PageLines(e)[0] == FM.Opening
    ensures PageLines(e)[|FM.Lines(e)| - 1] == FM.Closing
    ensures FM.Read(PageLines(e)[..|FM.Lines(e)|]) == Some(FM.Settings(e))
    ensures PageLines(e)[|FM.Lines(e)|..] == Body(e)
  {
    FM.FrontMatterReadsBack(e);
    assert PageLines(e)[..|FM.Lines(e)|] == FM.Lines(e);
  }

  /**
   * The text starts with `+++` on its own line; the closing `+++\n` is
   * followed by one more newline, a blank line, exactly when there is a
   * body, and then by the body's lines joined by newlines.
   */
  lemma TextLayout(e: Entry)
    requires FM.Renderable(e)
    ensures |Text(e)| >= 4 && Text(e)[..4] == "+++\n"
    ensures Text(e) == Join(FM.Lines(e)[..|FM.Lines(e)| - 1], NewLine) + NewLine + FM.Closing
      + (if |Body(e)| == 0 then "" else NewLine + Join(Body(e), NewLine))
  {
    var fm := FM.Lines(e);
    var head := fm[..|fm| - 1];
    assert fm == head + [FM.Closing];
    JoinAppend(head, [FM.Closing], NewLine);
    assert Join(fm, NewLine) == Join(head, NewLine) + NewLine + FM.Closing;
    if |Body(e)| > 0 {
      JoinAppend(fm, Body(e), NewLine);
    } else {
      assert PageLines(e) == fm;
    }
    JoinCons(head[0], head[1..], NewLine);
    assert head == [head[0]] + head[1..];
    assert head[0] == "+++";
  }

  /** Each link line of the body is preceded by a newline, so it sits after a blank line. */
  lemma LinksAfterBlankLine(e: Entry)
    requires FM.Renderable(e)
    ensures e.url.Some? ==> Contains(Text(e), NewLine + UrlLine(e.url.value))
    ensures e.code.Some? ==> Contains(Text(e), NewLine + CodeLine(e.code.value))
  {
    var n := |FM.Lines(e)|;
    BodyLayout(e);
    LinesLayout(e);
    if e.url.Some? {
      var k := n + |Present(e.abstractText)|;
      assert PageLines(e)[k] == Body(e)[k - n];
      JoinShowsPart(PageLines(e), k, NewLine);
    }
    if e.code.Some? {
      var k := |PageLines(e)| - 1;
      assert PageLines(e)[k] == Body(e)[|Body(e)| - 1];
      JoinShowsPart(PageLines(e), k, NewLine);
    }
  }

  /** The page ignores `pages`: normalising it before conversion changes nothing. */
  lemma ConvertIgnoresPages(e: Entry)
    ensures Convert(Customize(e)) == Convert(e)
  {
    CustomizeOnlyPages(e);
    var c := Customize(e);
    assert FM.Renderable(c) <==> FM.Renderable(e);
    if FM.Renderable(e) {
      assert FM.Settings(c) == FM.Settings(e);
      assert Body(c) == Body(e);
    }
  }

  /**
   * A record with a title and the single author `"Last, First"` converts to
   * `<id>.md`, with the title quoted verbatim and the description
   * `"First Last"`, without `"and "`.
   */
  lemma SingleAuthorRecord(e: Entry, last: string, first: string)
    requires e.title.Some? && e.author == Some([last + CommaSep + first])
    requires ',' !in last && ',' !in first
    ensures Convert(e).Success? && Convert(e).value.fileName == e.id + ".md"
    ensures FM.ValuesOf(FM.Settings(e), "title") == ["\"" + e.title.value + "\""]
    ensures FM.ValuesOf(FM.Settings(e), "description") == ["\"" + first + " " + last + "\""]
  {
    SingleAuthorDescription(last, first);
    assert FM.Renderable(e);
    assert FM.Quote(first + " " + last) == "\"" + first + " " + last + "\"";
    FM.TitleSetting(e);
    FM.DescriptionSetting(e);
  }
}
