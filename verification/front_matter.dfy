/**
 * The front matter of a generated page: `key = value` lines between `+++`
 * delimiters, in the order the converter appends them.
 */
module FrontMatter {
  import opened Wrappers
  import opened Strings
  import opened Bib
  import opened Authors

  /** One `key = value` assignment. */
  datatype Setting = Setting(key: string, value: string)

  /** The line that opens the front matter. */
  const Opening: string := "+++"
  /** The line that closes it; its own newline leaves a blank line before the body. */
  const Closing: string := "+++\n"
  /** What separates a key from its value. */
  const Assign: string := " = "

  /**
   * A record the renderer can turn into a page: it has a title (otherwise
   * `entry['title']` raises a key error) and every author with a comma also
   * has a `", "` (otherwise `name[1]` raises an index error).
   */
  predicate Renderable(e: Entry) {
    e.title.Some? && (e.author.Some? ==> AllSplittable(e.author.value))
  }

  /** The text of a setting in the front matter. */
  function Line(s: Setting): string {
    s.key + Assign + s.value
  }

  /** Reads a line back as a setting: the key is the text before the first `" = "`. */
  function ParseLine(line: string): Option<Setting> {
    match Find(line, Assign)
    case None => None
    case Some(i) => Some(Setting(line[..i], line[i + |Assign|..]))
  }

  /** A key without spaces, as every key of the front matter is. */
  predicate PlainKey(k: string) {
    ' ' !in k
  }

  /** A plain key, even followed by `" ="`, holds no `" = "`. */
  lemma PlainKeyNoAssign(k: string)
    requires PlainKey(k)
    ensures !Contains(k + Assign[..|Assign| - 1], Assign)
  {
    var q := k + Assign[..|Assign| - 1];
    forall j | 0 <= j && j + 3 <= |q|
      ensures !OccursAt(q, Assign, j)
    {
      assert q[j] == k[j];
      assert q[j..j + 3][0] == q[j];
    }
    NoOccurrence(q, Assign);
  }

  /** A setting with a plain key reads back as itself, whatever its value holds. */
  lemma ParseLineRoundTrip(s: Setting)
    requires PlainKey(s.key)
    ensures ParseLine(Line(s)) == Some(s)
  {
    PlainKeyNoAssign(s.key);
    FindAfter(s.key, Assign, s.value);
    var line := Line(s);
    assert line[..|s.key|] == s.key;
    assert line[|s.key| + |Assign|..] == s.value;
  }

  /** `'"{}"'.format(s)`: no escaping of quotes inside `s`. */
  function Quote(s: string): string {
    "\"" + s + "\""
  }

  /** Strips one character from each end of a quoted value. */
  function Unquote(s: string): string {
    if |s| >= 2 then s[1..|s| - 1] else s
  }

  /** Unquoting undoes quoting. */
  lemma UnquoteQuote(s: string)
    ensures Unquote(Quote(s)) == s
  {
    assert Quote(s)[1..|Quote(s)| - 1] == s;
  }

  /** Each part in double quotes, in order. */
  function QuoteAll(parts: seq<string>): (r: seq<string>)
    ensures |r| == |parts|
    ensures forall i :: 0 <= i < |r| ==> r[i] == Quote(parts[i])
  {
    seq(|parts|, i requires 0 <= i < |parts| => Quote(parts[i]))
  }

  /** Each part stripped of its quotes, in order. */
  function UnquoteAll(parts: seq<string>): (r: seq<string>)
    ensures |r| == |parts|
    ensures forall i :: 0 <= i < |r| ==> r[i] == Unquote(parts[i])
  {
    seq(|parts|, i requires 0 <= i < |parts| => Unquote(parts[i]))
  }

  /**
   * The value of `categories`: `[]` without a `categories` field, otherwise
   * each `", "`-separated piece in double quotes, joined by `", "`, in order.
   */
  function CategoriesValue(categories: Option<string>): string {
    match categories
    case None => "[]"
    case Some(c) => "[" + Join(QuoteAll(Split(c, CommaSep)), CommaSep) + "]"
  }

  /** Reads a `categories` value back into the field it came from. */
  function ReadCategories(value: string): Option<string> {
    if |value| < 2 || value == "[]" then None
    else Some(Join(UnquoteAll(Split(value[1..|value| - 1], CommaSep)), CommaSep))
  }

  /** A quoted piece without `", "` cannot be the start of a `", "` even followed by `","`. */
  lemma QuotedPieceNoSep(p: string)
    requires !Contains(p, CommaSep)
    ensures !Contains(Quote(p) + CommaSep[..|CommaSep| - 1], CommaSep)
  {
    var q := Quote(p) + ",";
    assert CommaSep[..|CommaSep| - 1] == ",";
    FindLeftmost(p, CommaSep);
    forall j | 0 <= j && j + 2 <= |q|
      ensures !OccursAt(q, CommaSep, j)
    {
      if 1 <= j && j + 1 <= |p| {
        assert q[j..j + 2] == p[j - 1..j + 1];
        assert !OccursAt(p, CommaSep, j - 1);
      } else {
        assert q[j] == '"' || q[j + 1] == '"';
        assert q[j..j + 2][0] == q[j] && q[j..j + 2][1] == q[j + 1];
      }
    }
    NoOccurrence(q, CommaSep);
  }

  /** The categories line can be read back into the very `categories` field it was made from. */
  lemma CategoriesRoundTrip(categories: Option<string>)
    ensures ReadCategories(CategoriesValue(categories)) == categories
  {
    if categories.Some? {
      var c := categories.value;
      var pieces := Split(c, CommaSep);
      var quoted := QuoteAll(pieces);
      SplitPiecesFree(c, CommaSep);
      forall k | 0 <= k < |quoted|
        ensures !Contains(quoted[k] + CommaSep[..|CommaSep| - 1], CommaSep)
      {
        QuotedPieceNoSep(pieces[k]);
      }
      SplitJoin(quoted, CommaSep);
      var inner := Join(quoted, CommaSep);
      var value := "[" + inner + "]";
      assert value[1..|value| - 1] == inner;
      assert |quoted[0]| >= 2;
      assert |inner| >= 2 by {
        if |quoted| >= 2 {
          assert inner == quoted[0] + CommaSep + Join(quoted[1..], CommaSep);
        }
      }
      forall k | 0 <= k < |pieces|
        ensures UnquoteAll(quoted)[k] == pieces[k]
      {
        UnquoteQuote(pieces[k]);
      }
      assert UnquoteAll(quoted) == pieces;
      JoinSplit(c, CommaSep);
    }
  }

  /** The value of `date`: January 1st of the record's year. */
  function DateValue(year: string): string {
    Quote(year + "-01-01")
  }

  /** Reads the year back out of a `date` value. */
  function ReadYear(value: string): string {
    var d := Unquote(value);
    if |d| >= 6 then d[..|d| - 6] else d
  }

  /** The year reads back out of its `date` value. */
  lemma DateRoundTrip(year: string)
    ensures ReadYear(DateValue(year)) == year
  {
    UnquoteQuote(year + "-01-01");
    assert (year + "-01-01")[..|year|] == year;
  }

  /** The settings of the front matter, in the order they are emitted. */
  function Settings(e: Entry): seq<Setting>
    requires Renderable(e)
  {
    [Setting("categories", CategoriesValue(e.categories)), Setting("comments", "false")]
    + (if e.year.Some? then [Setting("date", DateValue(e.year.value))] else [])
    + [ Setting("draft", "false"), Setting("showpagemeta", "true"), Setting("showcomments", "false"),
        Setting("slug", "\"\""), Setting("tags", "[]"), Setting("title", Quote(e.title.value)) ]
    + (if e.author.Some? then [Setting("description", Quote(Description(e.author.value)))] else [])
  }

  /** The keys of the settings, in order. */
  function Keys(settings: seq<Setting>): (r: seq<string>)
    ensures |r| == |settings|
    ensures forall i :: 0 <= i < |r| ==> r[i] == settings[i].key
  {
    seq(|settings|, i requires 0 <= i < |settings| => settings[i].key)
  }

  /** Every value given to `key`, in order. */
  function ValuesOf(settings: seq<Setting>, key: string): seq<string>
  {
    if |settings| == 0 then []
    else (if settings[0].key == key then [settings[0].value] else []) + ValuesOf(settings[1..], key)
  }

  /** The front matter's lines, delimiters included. */
  function Lines(e: Entry): seq<string>
    requires Renderable(e)
  {
    [Opening] + LinesOf(Settings(e)) + [Closing]
  }

  /** One `key = value` line per setting, in order. */
  function LinesOf(settings: seq<Setting>): (r: seq<string>)
    ensures |r| == |settings|
    ensures forall i :: 0 <= i < |r| ==> r[i] == Line(settings[i])
  {
    seq(|settings|, i requires 0 <= i < |settings| => Line(settings[i]))
  }

  /** Reads every line as a setting; fails if one of them is not a `key = value` line. */
  function ParseLines(lines: seq<string>): Option<seq<Setting>>
  {
    if |lines| == 0 then Some([])
    else
      match (ParseLine(lines[0]), ParseLines(lines[1..]))
      case (Some(s), Some(rest)) => Some([s] + rest)
      case _ => None
  }

  /** Reads a front matter block back: delimiters around `key = value` lines. */
  function Read(lines: seq<string>): Option<seq<Setting>>
  {
    if |lines| >= 2 && lines[0] == Opening && lines[|lines| - 1] == Closing
    then ParseLines(lines[1..|lines| - 1])
    else None
  }

  /** Lines of settings with plain keys read back as those settings. */
  lemma {:induction false} ParseLinesRoundTrip(settings: seq<Setting>)
    requires forall i :: 0 <= i < |settings| ==> PlainKey(settings[i].key)
    ensures ParseLines(LinesOf(settings)) == Some(settings)
    decreases |settings|
  {
    if |settings| > 0 {
      var lines := LinesOf(settings);
      ParseLineRoundTrip(settings[0]);
      ParseLinesRoundTrip(settings[1..]);
      assert lines[1..] == LinesOf(settings[1..]);
      ParseLinesCons(lines, settings[0], settings[1..]);
      assert settings == [settings[0]] + settings[1..];
    }
  }

  /** Reading lines whose first line and the rest both read back. */
  lemma ParseLinesCons(lines: seq<string>, s: Setting, rest: seq<Setting>)
    requires |lines| > 0 && ParseLine(lines[0]) == Some(s) && ParseLines(lines[1..]) == Some(rest)
    ensures ParseLines(lines) == Some([s] + rest)
  {
  }

  /** The keys of the front matter in emission order, given which optional fields are present. */
  function KeyOrder(hasYear: bool, hasAuthor: bool): seq<string> {
    ["categories", "comments"] + (if hasYear then ["date"] else [])
    + ["draft", "showpagemeta", "showcomments", "slug", "tags", "title"]
    + (if hasAuthor then ["description"] else [])
  }

  /** The keys of two lists of settings, one after the other. */
  lemma KeysAppend(a: seq<Setting>, b: seq<Setting>)
    ensures Keys(a + b) == Keys(a) + Keys(b)
  {
  }

  /** The settings come in the order of `KeyOrder`. */
  lemma SettingsKeys(e: Entry)
    requires Renderable(e)
    ensures Keys(Settings(e)) == KeyOrder(e.year.Some?, e.author.Some?)
  {
    var ss := Settings(e);
    var head := [Setting("categories", CategoriesValue(e.categories)), Setting("comments", "false")];
    var date := if e.year.Some? then [Setting("date", DateValue(e.year.value))] else [];
    var middle :=
      [ Setting("draft", "false"), Setting("showpagemeta", "true"), Setting("showcomments", "false"),
        Setting("slug", "\"\""), Setting("tags", "[]"), Setting("title", Quote(e.title.value)) ];
    var desc := if e.author.Some? then [Setting("description", Quote(Description(e.author.value)))] else [];
    assert ss == head + date + middle + desc;
    KeysAppend(head + date + middle, desc);
    KeysAppend(head + date, middle);
    KeysAppend(head, date);
    assert Keys(head) == ["categories", "comments"];
    assert Keys(date) == if e.year.Some? then ["date"] else [];
    assert Keys(middle) == ["draft", "showpagemeta", "showcomments", "slug", "tags", "title"];
    assert Keys(desc) == if e.author.Some? then ["description"] else [];
  }

  /** No key of the front matter holds a space. */
  lemma KeyOrderPlain(hasYear: bool, hasAuthor: bool)
    ensures forall i :: 0 <= i < |KeyOrder(hasYear, hasAuthor)| ==> PlainKey(KeyOrder(hasYear, hasAuthor)[i])
  {
  }

  /**
   * The front matter lines can be read back, delimiters first and last, and
   * give the settings in the fixed order: `date` only with a year, between
   * `comments` and `draft`; `description` only with authors, after `title`.
   */
  lemma FrontMatterReadsBack(e: Entry)
    requires Renderable(e)
    ensures Read(Lines(e)) == Some(Settings(e))
    ensures Keys(Settings(e)) == KeyOrder(e.year.Some?, e.author.Some?)
  {
    var ss := Settings(e);
    SettingsKeys(e);
    KeyOrderPlain(e.year.Some?, e.author.Some?);
    forall i | 0 <= i < |ss|
      ensures PlainKey(ss[i].key)
    {
      assert ss[i].key == Keys(ss)[i];
    }
    ParseLinesRoundTrip(ss);
    var lines := Lines(e);
    assert lines[1..|lines| - 1] == LinesOf(ss);
  }

  /** A key no setting has gets no value. */
  lemma {:induction false} ValuesOfAbsent(ss: seq<Setting>, key: string)
    requires forall j :: 0 <= j < |ss| ==> ss[j].key != key
    ensures ValuesOf(ss, key) == []
    decreases |ss|
  {
    if |ss| > 0 {
      ValuesOfAbsent(ss[1..], key);
    }
  }

  /** A key exactly one setting has gets exactly that setting's value. */
  lemma {:induction false} ValuesOfUnique(ss: seq<Setting>, key: string, i: nat)
    requires i < |ss| && ss[i].key == key
    requires forall j :: 0 <= j < |ss| && j != i ==> ss[j].key != key
    ensures ValuesOf(ss, key) == [ss[i].value]
    decreases |ss|
  {
    if i == 0 {
      ValuesOfAbsent(ss[1..], key);
    } else {
      ValuesOfUnique(ss[1..], key, i - 1);
    }
  }

  /** No key is emitted twice. */
  lemma KeyOrderDistinct(hasYear: bool, hasAuthor: bool)
    ensures forall j, k :: 0 <= j < k < |KeyOrder(hasYear, hasAuthor)| ==>
      KeyOrder(hasYear, hasAuthor)[j] != KeyOrder(hasYear, hasAuthor)[k]
  {
  }

  /** The value a key emitted exactly once at position `i` of the order receives. */
  lemma SettingValueAt(e: Entry, key: string, i: nat)
    requires Renderable(e)
    requires i < |KeyOrder(e.year.Some?, e.author.Some?)|
    requires KeyOrder(e.year.Some?, e.author.Some?)[i] == key
    ensures ValuesOf(Settings(e), key) == [Settings(e)[i].value]
  {
    var ss := Settings(e);
    var ko := KeyOrder(e.year.Some?, e.author.Some?);
    FrontMatterReadsBack(e);
    KeyOrderDistinct(e.year.Some?, e.author.Some?);
    assert forall j :: 0 <= j < |ss| ==> ss[j].key == ko[j];
    ValuesOfUnique(ss, key, i);
  }

  /** A key the order leaves out receives no value. */
  lemma SettingValueNone(e: Entry, key: string)
    requires Renderable(e)
    requires key !in KeyOrder(e.year.Some?, e.author.Some?)
    ensures ValuesOf(Settings(e), key) == []
  {
    var ss := Settings(e);
    FrontMatterReadsBack(e);
    assert forall j :: 0 <= j < |ss| ==> ss[j].key == KeyOrder(e.year.Some?, e.author.Some?)[j];
    ValuesOfAbsent(ss, key);
  }

  /** `categories` is set exactly once, to the rendered categories list. */
  lemma CategoriesSetting(e: Entry)
    requires Renderable(e)
    ensures ValuesOf(Settings(e), "categories") == [CategoriesValue(e.categories)]
  {
    SettingValueAt(e, "categories", 0);
  }

  /** `title` is set exactly once, to the quoted title. */
  lemma TitleSetting(e: Entry)
    requires Renderable(e)
    ensures ValuesOf(Settings(e), "title") == [Quote(e.title.value)]
  {
    var y := if e.year.Some? then 1 else 0;
    SettingValueAt(e, "title", 7 + y);
  }

  /** `date` is set once with a year and never without one. */
  lemma DateSetting(e: Entry)
    requires Renderable(e)
    ensures e.year.Some? ==> ValuesOf(Settings(e), "date") == [DateValue(e.year.value)]
    ensures e.year.None? ==> ValuesOf(Settings(e), "date") == []
  {
    if e.year.Some? {
      SettingValueAt(e, "date", 2);
    } else {
      SettingValueNone(e, "date");
    }
  }

  /** `description` is set once with authors and never without them. */
  lemma DescriptionSetting(e: Entry)
    requires Renderable(e)
    ensures e.author.Some? ==> ValuesOf(Settings(e), "description") == [Quote(Description(e.author.value))]
    ensures e.author.None? ==> ValuesOf(Settings(e), "description") == []
  {
    var y := if e.year.Some? then 1 else 0;
    if e.author.Some? {
      SettingValueAt(e, "description", 8 + y);
    } else {
      SettingValueNone(e, "description");
    }
  }

  /** The constant settings between `comments` and `tags` always get their fixed values. */
  lemma ConstantSettings(e: Entry)
    requires Renderable(e)
    ensures ValuesOf(Settings(e), "comments") == ["false"]
    ensures ValuesOf(Settings(e), "draft") == ["false"]
    ensures ValuesOf(Settings(e), "showpagemeta") == ["true"]
  {
    var y := if e.year.Some? then 1 else 0;
    SettingValueAt(e, "comments", 1);
    SettingValueAt(e, "draft", 2 + y);
    SettingValueAt(e, "showpagemeta", 3 + y);
  }

  /** The remaining constant settings. */
  lemma ConstantSettingsTail(e: Entry)
    requires Renderable(e)
    ensures ValuesOf(Settings(e), "showcomments") == ["false"]
    ensures ValuesOf(Settings(e), "slug") == ["\"\""]
    ensures ValuesOf(Settings(e), "tags") == ["[]"]
  {
    var y := if e.year.Some? then 1 else 0;
    SettingValueAt(e, "showcomments", 4 + y);
    SettingValueAt(e, "slug", 5 + y);
    SettingValueAt(e, "tags", 6 + y);
  }

  /**
   * Without a `categories` field the line is exactly `categories = []`; the
   * title line holds the title verbatim between double quotes; the `date`
   * line is `date = "<year>-01-01"`.
   */
  lemma LineTexts(e: Entry)
    requires Renderable(e)
    ensures e.categories.None? ==> Line(Settings(e)[0]) == "categories = []"
    ensures Line(Settings(e)[if e.year.Some? then 8 else 7]) == "title = \"" + e.title.value + "\""
    ensures e.year.Some? ==> Line(Settings(e)[2]) == "date = \"" + e.year.value + "-01-01\""
  {
  }
}
