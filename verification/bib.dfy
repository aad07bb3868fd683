/**
 * A bibliography record after parsing, and the two record customisations
 * of the converter whose code is visible: `abstract` and `pages`.
 */
module Bib {
  import opened Wrappers
  import opened Strings

  /**
   * The fields of a parsed record that the converter reads. `author` has
   * already been split into a list of names by the parser's own
   * customisation; `abstractText` holds the `abstract` field. Every field
   * except `id` may be missing from a record.
   */
  datatype Entry = Entry(
    id: string,
    title: Option<string>,
    categories: Option<string>,
    year: Option<string>,
    author: Option<seq<string>>,
    abstractText: Option<string>,
    url: Option<string>,
    code: Option<string>,
    pages: Option<string>)

  /** Collapses each double hyphen of a page range into a single hyphen. */
  function PageRange(p: string): (r: string)
    ensures r == Join(Split(p, "--"), "-")
    ensures |r| <= |p|
  {
    ReplaceIsJoinOfSplit(p, "--", "-");
    ReplaceShortens(p, "--", "-");
    Replace(p, "--", "-")
  }

  /** The `abstract` customisation: the record is returned unchanged. */
  function Abstract(e: Entry): (r: Entry)
    ensures r == e
  {
    e
  }

  /**
   * The `pages` customisation: rewrites the `pages` field, when present,
   * and leaves every other field alone.
   */
  function Pages(e: Entry): (r: Entry)
    ensures r.pages.Some? <==> e.pages.Some?
    ensures e.pages.Some? ==> r.pages.value == Join(Split(e.pages.value, "--"), "-")
    ensures r == e.(pages := r.pages)
  {
    if e.pages.Some? then e.(pages := Some(PageRange(e.pages.value))) else e
  }

  /** The tail of the customisation chain whose code is visible: `abstract`, then `pages`. */
  function Customize(e: Entry): Entry
  {
    Pages(Abstract(e))
  }

  /** The customisation tail rewrites `pages` and nothing else. */
  lemma CustomizeOnlyPages(e: Entry)
    ensures Customize(e) == e.(pages := Customize(e).pages)
    ensures Customize(e).pages.None? <==> e.pages.None?
    ensures e.pages.Some? ==> Customize(e).pages == Some(PageRange(e.pages.value))
  {
  }

  /** A page range changes exactly when it contains a double hyphen. */
  lemma PageRangeChangesIff(p: string)
    ensures PageRange(p) == p <==> !Contains(p, "--")
  {
    if Contains(p, "--") {
      ReplaceShortens(p, "--", "-");
    } else {
      ReplaceAbsent(p, "--", "-");
    }
  }

  /** A string without a hyphen holds no double hyphen, even with one hyphen appended. */
  lemma NoHyphenPair(x: string)
    requires '-' !in x
    ensures !Contains(x + "-", "--")
  {
    var y := x + "-";
    forall j | 0 <= j && j + 2 <= |y|
      ensures !OccursAt(y, "--", j)
    {
      assert y[j] == x[j];
      assert y[j..j + 2][0] == y[j];
    }
    NoOccurrence(y, "--");
  }

  /** A range `first--last` of hyphen-free page numbers becomes `first-last`. */
  lemma PageRangeOfRange(first: string, last: string)
    requires '-' !in first && '-' !in last
    ensures PageRange(first + "--" + last) == first + "-" + last
  {
    NoHyphenPair(first);
    NoHyphenPair(last);
    var parts := [first, last];
    assert "--"[..1] == "-";
    assert forall k :: 0 <= k < |parts| ==> !Contains(parts[k] + "--"[..1], "--");
    JoinCons(first, [last], "--");
    JoinCons(first, [last], "-");
    assert [first] + [last] == parts;
    SplitJoin(parts, "--");
  }

  /**
   * The documented example: `4703--4705` becomes `4703-4705`. The range is
   * a parameter fixed by the precondition rather than a literal in the
   * postcondition, because the verifier unfolds `Replace` on a literal
   * argument character by character, which makes the proof costly.
   */
  lemma PageRangeExample(p: string)
    requires p == "4703--4705"
    ensures PageRange(p) == "4703-4705"
  {
    PageRangeOfRange("4703", "4705");
    assert "4703" + "--" + "4705" == p;
  }

  /**
   * The rewrite is not idempotent: a triple hyphen loses one hyphen per
   * application.
   */
  lemma PageRangeNotIdempotent()
    ensures PageRange("---") == "--"
    ensures PageRange(PageRange("---")) == "-"
  {
    assert Replace("-", "--", "-") == "-";
    assert Replace("---", "--", "-") == "--";
    assert Replace("", "--", "-") == "";
    assert Replace("--", "--", "-") == "-";
  }
}
