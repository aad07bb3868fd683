/**
 * The author list of a record rendered as the `description` of a page:
 * each `"Last, First"` becomes `"First Last"`, authors without a comma are
 * dropped, and the author at the last position of a list of two or more is
 * introduced by `"and "`.
 */
module Authors {
  import opened Strings

  /** The renderer's test `"," in author`. */
  predicate HasComma(author: string) {
    ',' in author
  }

  /** An author whose name has a second piece after `split(', ')` whenever the renderer asks for one. */
  predicate Splittable(author: string) {
    HasComma(author) ==> Contains(author, CommaSep)
  }

  predicate AllSplittable(authors: seq<string>) {
    forall i :: 0 <= i < |authors| ==> Splittable(authors[i])
  }

  /** `"First Last"` from the first two pieces of `author.split(', ')`. */
  function FirstLast(author: string): string
    requires Contains(author, CommaSep)
  {
    var name := Split(author, CommaSep);
    name[1] + " " + name[0]
  }

  /** The author at position `idx` of a list of `count` gets the `"and "` prefix. */
  predicate Conjoined(count: nat, idx: nat) {
    idx == count - 1 && idx != 0
  }

  /**
   * The name the renderer emits for the author at position `idx`, with its
   * special case for authors whose name holds `"Khanna"`.
   */
  function NameAt(authors: seq<string>, idx: nat): string
    requires idx < |authors| && Contains(authors[idx], CommaSep)
  {
    if Conjoined(|authors|, idx) then "and " + FirstLast(authors[idx])
    else if Contains(authors[idx], "Khanna") then FirstLast(authors[idx])
    else FirstLast(authors[idx])
  }

  /** The `"Khanna"` special case renders exactly like every other name. */
  lemma KhannaCaseIsPlain(authors: seq<string>, idx: nat)
    requires idx < |authors| && Contains(authors[idx], CommaSep)
    ensures NameAt(authors, idx) == (if Conjoined(|authors|, idx) then "and " else "") + FirstLast(authors[idx])
  {
  }

  /**
   * The positions among `authors[..n]` whose author has a comma, in
   * increasing order: exactly the authors that contribute a name.
   */
  function CommaPositions(authors: seq<string>, n: nat): (ix: seq<nat>)
    requires n <= |authors|
    ensures forall k :: 0 <= k < |ix| ==> ix[k] < n && HasComma(authors[ix[k]])
    ensures forall k, l :: 0 <= k < l < |ix| ==> ix[k] < ix[l]
    ensures forall i :: 0 <= i < n && HasComma(authors[i]) ==> i in ix
  {
    if n == 0 then []
    else CommaPositions(authors, n - 1) + (if HasComma(authors[n - 1]) then [n - 1] else [])
  }

  /**
   * The names collected by the renderer's loop once it has visited
   * `authors[..n]`: one per author with a comma, in order.
   */
  function NamesUpTo(authors: seq<string>, n: nat): (names: seq<string>)
    requires n <= |authors| && AllSplittable(authors)
    ensures |names| == |CommaPositions(authors, n)|
    ensures forall j :: 0 <= j < |names| ==> names[j] == NameAt(authors, CommaPositions(authors, n)[j])
  {
    if n == 0 then []
    else NamesUpTo(authors, n - 1) + (if HasComma(authors[n - 1]) then [NameAt(authors, n - 1)] else [])
  }

  /** The positions of the whole list whose author has a comma. */
  function Positions(authors: seq<string>): seq<nat>
  {
    CommaPositions(authors, |authors|)
  }

  /** The names of the whole author list. */
  function Names(authors: seq<string>): (names: seq<string>)
    requires AllSplittable(authors)
    ensures |names| == |Positions(authors)|
    ensures forall j :: 0 <= j < |names| ==> names[j] == NameAt(authors, Positions(authors)[j])
  {
    NamesUpTo(authors, |authors|)
  }

  /** The text of the `description` value: the names joined by `", "`. */
  function Description(authors: seq<string>): string
    requires AllSplittable(authors)
  {
    Join(Names(authors), ", ")
  }

  /**
   * Only the last emitted name can carry `"and "`, and one does exactly
   * when the list has two or more authors and the last of them has a comma.
   */
  lemma ConjunctionRule(authors: seq<string>)
    ensures forall j ::
      (0 <= j < |Positions(authors)| && Conjoined(|authors|, Positions(authors)[j])) ==>
        j == |Positions(authors)| - 1
    ensures (exists j :: 0 <= j < |Positions(authors)| && Conjoined(|authors|, Positions(authors)[j]))
      <==> |authors| > 1 && HasComma(authors[|authors| - 1])
  {
    var ix := Positions(authors);
    if |authors| > 1 && HasComma(authors[|authors| - 1]) {
      var j :| 0 <= j < |ix| && ix[j] == |authors| - 1;
      assert Conjoined(|authors|, ix[j]);
    }
  }

  /** No name contains the separator ", " when the name has no comma at all. */
  lemma NoCommaNoSep(x: string)
    requires ',' !in x
    ensures !Contains(x, CommaSep)
  {
    forall j | 0 <= j && j + 2 <= |x|
      ensures !OccursAt(x, CommaSep, j)
    {
      assert x[j] != ',';
      assert x[j..j + 2][0] == x[j];
    }
    NoOccurrence(x, CommaSep);
  }

  /** Appending a comma cannot create a ", " in a string that had none. */
  lemma AppendCommaNoSep(x: string)
    requires !Contains(x, CommaSep)
    ensures !Contains(x + ",", CommaSep)
  {
    var y := x + ",";
    FindLeftmost(x, CommaSep);
    forall j | 0 <= j && j + 2 <= |y|
      ensures !OccursAt(y, CommaSep, j)
    {
      if j + 2 <= |x| {
        assert y[j..j + 2] == x[j..j + 2];
        assert !OccursAt(x, CommaSep, j);
      } else {
        assert y[j + 1] == ',';
        assert y[j..j + 2][1] == y[j + 1];
      }
    }
    NoOccurrence(y, CommaSep);
  }

  /** `FirstLast` turns `"Last, First"` into `"First Last"` when neither part holds ", ". */
  lemma FirstLastSwaps(last: string, first: string)
    requires !Contains(last, CommaSep) && !Contains(first, CommaSep)
    ensures Contains(last + CommaSep + first, CommaSep)
    ensures FirstLast(last + CommaSep + first) == first + " " + last
  {
    AppendCommaNoSep(last);
    assert CommaSep[..|CommaSep| - 1] == ",";
    FindAfter(last, CommaSep, first);
    var s := last + CommaSep + first;
    SplitStep(s, CommaSep, |last|);
    assert s[..|last|] == last;
    assert s[|last| + 2..] == first;
  }

  /** A lone author never gets `"and "`. */
  lemma SingleAuthor(author: string)
    requires Contains(author, CommaSep)
    ensures Names([author]) == [FirstLast(author)]
  {
    assert HasComma(author) by {
      var j := Find(author, CommaSep).value;
      assert author[j..j + 2][0] == ',';
      assert author[j] == ',';
    }
    assert CommaPositions([author], 0) == [];
    assert Positions([author]) == [0];
    assert !Conjoined(1, 0);
    assert NameAt([author], 0) == "" + FirstLast(author) == FirstLast(author);
  }

  /** Authors without a comma contribute no position. */
  lemma {:induction false} NoCommaPositions(authors: seq<string>, n: nat)
    requires n <= |authors|
    requires forall i :: 0 <= i < n ==> !HasComma(authors[i])
    ensures CommaPositions(authors, n) == []
  {
    if n > 0 {
      NoCommaPositions(authors, n - 1);
    }
  }

  /**
   * When only the last of several authors has a comma, that lone name still
   * gets `"and "`.
   */
  lemma LoneLastAuthor(authors: seq<string>)
    requires |authors| >= 2 && AllSplittable(authors)
    requires HasComma(authors[|authors| - 1])
    requires forall i :: 0 <= i < |authors| - 1 ==> !HasComma(authors[i])
    ensures Names(authors) == ["and " + FirstLast(authors[|authors| - 1])]
  {
    var n := |authors|;
    NoCommaPositions(authors, n - 1);
    assert Positions(authors) == [n - 1];
    var names := Names(authors);
    assert |names| == 1;
    assert names[0] == NameAt(authors, n - 1);
    assert Conjoined(n, n - 1);
  }

  /**
   * A single author `"Last, First"` whose parts hold no comma is described
   * as `"First Last"`, without `"and "`.
   */
  lemma SingleAuthorDescription(last: string, first: string)
    requires ',' !in last && ',' !in first
    ensures AllSplittable([last + CommaSep + first])
    ensures Description([last + CommaSep + first]) == first + " " + last
  {
    NoCommaNoSep(last);
    NoCommaNoSep(first);
    FirstLastSwaps(last, first);
    SingleAuthor(last + CommaSep + first);
  }
}
