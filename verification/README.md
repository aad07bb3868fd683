# bib2hugo in Dafny

A model of the rendering core of `bib2hugo`. The tool turns each record of a
BibTeX file into one Markdown page for the Goa theme of the Hugo static-site
generator. The model covers four parts:

- the per-record page: front matter, author formatting, body, the
  newline-join and the file name;
- the errors that stop the conversion of a record;
- the `pages` record customisation, which collapses `--` into `-`;
- the `abstract` record customisation, which is the identity.

Modules, one per concern:

- `Wrappers`: `Option` and `Result`.
- `Strings`: the Python string operations the converter relies on, as
  functions on `string`. These are `sub in s`, `s.split(sep)`,
  `sep.join(parts)` and `s.replace(pat, rep)`, plus `Find`, the leftmost
  search behind `in` and `split`. `replace` is written as Python defines
  it: a left-to-right scan that replaces every non-overlapping occurrence.
  It is proved equal to `rep.join(s.split(pat))`, an identity that holds
  for a non-empty pattern.
- `Bib`: the parsed record (`Entry`, with `Option` for every field that may
  be missing) and the `abstract` and `pages` customisations.
- `Authors`: the `description` built from the author list.
- `FrontMatter`: the `key = value` settings between `+++` delimiters, plus a
  reader (`Read`, `ParseLine`, `ReadCategories`, `ReadYear`) that serves as
  the partner of the writer in round-trip lemmas.
- `Render`: the page lines, the joined text, the file name, and `Convert`,
  which returns the page or the error the converter raises.

`Convert` returns `Failure(MissingTitle)` where the program raises a key
error on `entry['title']`. It returns `Failure(MalformedAuthor(i))` where it
raises an index error on `name[1]`. The second case is an author that holds
`,` but not `", "`, and `i` is the first such author. The title is looked
up first, so a record with both faults reports the missing title.

## Model

| member | source | states |
|---|---|---|
| Strings.FindLeftmost | bib/bib2hugo.py:85-86 | `Find`, the search behind `in` and `split`, returns the leftmost occurrence; it returns nothing only when the text has no occurrence at all |
| Strings.ContainsIff | bib/bib2hugo.py:85 | `sub in s` holds exactly when `sub` occurs at some index of `s` |
| Strings.Split | bib/bib2hugo.py:63 | `split` yields at least one piece, and exactly one when the separator does not occur |
| Strings.SplitPiecesFree | bib/bib2hugo.py:63 | no piece of a split contains the separator |
| Strings.JoinSplit | bib/bib2hugo.py:63-65 | joining the pieces of a split with the same separator gives back the original string |
| Strings.SplitJoin | bib/bib2hugo.py:63-65 | splitting a join gives back the parts when no part, extended by a proper prefix of the separator, holds the separator |
| Strings.ReplaceIsJoinOfSplit | bib/bib2hugo.py:168 | the left-to-right replacement scan equals `rep.join(s.split(pat))` |
| Strings.ReplaceAbsent | bib/bib2hugo.py:168 | a string without the pattern is returned unchanged |
| Strings.ReplaceShortens | bib/bib2hugo.py:168 | with a shorter replacement the result is never longer, and strictly shorter when the pattern occurs |
| Strings.JoinAppend | bib/bib2hugo.py:116 | joining two non-empty lists puts exactly one separator between their joins |
| Strings.JoinShowsPart | bib/bib2hugo.py:116 | every part after the first appears in the joined text right after a separator |
| Bib.Abstract | bib/bib2hugo.py:147-155 | the `abstract` customisation returns the record unchanged |
| Bib.PageRange | bib/bib2hugo.py:168 | the rewritten range is the `--`-pieces joined by `-`, and never longer than the input |
| Bib.Pages | bib/bib2hugo.py:158-169 | `pages` is present after exactly when before; when present it is rewritten; every other field is kept |
| Bib.CustomizeOnlyPages | bib/bib2hugo.py:142-169 | the `abstract` then `pages` customisation changes `pages` and no other field |
| Bib.PageRangeChangesIff | bib/bib2hugo.py:168 | a page range changes exactly when it contains `--` |
| Bib.PageRangeOfRange | bib/bib2hugo.py:158-168 | `first--last` with hyphen-free page numbers becomes `first-last` |
| Bib.PageRangeExample | bib/bib2hugo.py:160-161 | `4703--4705` becomes `4703-4705` |
| Bib.PageRangeNotIdempotent | bib/bib2hugo.py:168 | `---` becomes `--`, and a second application gives `-`: the rewrite is not idempotent |
| Authors.CommaPositions | bib/bib2hugo.py:84-85 | the positions that contribute a name are exactly the authors holding a comma, in increasing order |
| Authors.Names | bib/bib2hugo.py:83-93 | one name per author holding a comma, in list order, each the name rendered for that author's position |
| Authors.KhannaCaseIsPlain | bib/bib2hugo.py:87-93 | the `"Khanna"` branch renders a name exactly like the other branch |
| Authors.ConjunctionRule | bib/bib2hugo.py:87-88 | only the last emitted name can carry `"and "`; one does exactly when the list has two or more authors and the last has a comma |
| Authors.FirstLastSwaps | bib/bib2hugo.py:86-93 | `"Last, First"` is rendered `"First Last"` when neither part holds `", "` |
| Authors.SingleAuthor | bib/bib2hugo.py:84-93 | a one-author list yields that author's name without `"and "` |
| Authors.LoneLastAuthor | bib/bib2hugo.py:84-88 | when only the last of two or more authors has a comma, the description is that one name with `"and "` |
| Authors.SingleAuthorDescription | bib/bib2hugo.py:82-94 | the single author `"Last, First"` is described as `"First Last"` |
| FrontMatter.ParseLineRoundTrip | bib/bib2hugo.py:65-81 | a `key = value` line with a space-free key reads back as its key and its value, whatever the value holds |
| FrontMatter.UnquoteQuote | bib/bib2hugo.py:64 | stripping the two quotes added by `'"{}"'.format` gives back the text |
| FrontMatter.CategoriesRoundTrip | bib/bib2hugo.py:61-67 | the categories value reads back into the very `categories` field, or its absence, it was made from |
| FrontMatter.DateRoundTrip | bib/bib2hugo.py:69-70 | the year reads back out of the `date` value |
| FrontMatter.ParseLinesRoundTrip | bib/bib2hugo.py:60-109 | the `key = value` lines of settings with plain keys read back as those settings |
| FrontMatter.SettingsKeys | bib/bib2hugo.py:60-94 | the keys come in the order the converter appends them, with `date` only for a year and `description` only for authors |
| FrontMatter.FrontMatterReadsBack | bib/bib2hugo.py:60-109 | the front matter opens with `+++`, closes with `+++\n`, and its lines read back as the settings, in the fixed key order |
| FrontMatter.KeyOrderDistinct | bib/bib2hugo.py:60-94 | no key is emitted twice |
| FrontMatter.CategoriesSetting | bib/bib2hugo.py:61-67 | `categories` is set exactly once, to the quoted pieces joined by `", "` in brackets, or to `[]` |
| FrontMatter.TitleSetting | bib/bib2hugo.py:81 | `title` is set exactly once, to the title in double quotes |
| FrontMatter.DateSetting | bib/bib2hugo.py:69-70 | `date` is set once to `"<year>-01-01"` when there is a year, and never otherwise |
| FrontMatter.DescriptionSetting | bib/bib2hugo.py:82-94 | `description` is set once to the quoted names when there are authors, and never otherwise |
| FrontMatter.ConstantSettings | bib/bib2hugo.py:68-73 | `comments`, `draft` and `showpagemeta` get their fixed values once each |
| FrontMatter.ConstantSettingsTail | bib/bib2hugo.py:74-76 | `showcomments`, `slug` and `tags` get their fixed values once each |
| FrontMatter.LineTexts | bib/bib2hugo.py:61-81 | the exact texts `categories = []`, `title = "<title>"` and `date = "<year>-01-01"` at their positions |
| Render.FirstMalformed | bib/bib2hugo.py:84-93 | the first author whose `name[1]` would fail: it has a comma but no `", "`, and every earlier author is fine |
| Render.Convert | bib/bib2hugo.py:60-117 | success exactly for records with a title and well-formed authors; a missing title is reported first; otherwise the first malformed author is reported; a page is `<ID>.md` with the joined lines |
| Render.BodyLayout | bib/bib2hugo.py:110-115 | the body holds the abstract, the full-text link and the code link in that order, each exactly when its field is present |
| Render.LinesLayout | bib/bib2hugo.py:60-115 | the page lines are the front matter, which reads back as the settings, followed by the body |
| Render.TextLayout | bib/bib2hugo.py:109-116 | the text starts with `+++` and a newline; after the closing `+++\n` comes one more newline and the body exactly when there is a body |
| Render.LinksAfterBlankLine | bib/bib2hugo.py:112-116 | each link line is preceded by a newline in the text, so it follows a blank line |
| Render.ConvertIgnoresPages | bib/bib2hugo.py:142-169 | converting after the `abstract` and `pages` customisations gives the same page or error as before them |
| Render.SingleAuthorRecord | bib/bib2hugo.py:81-117 | a titled record with the single author `"Last, First"` converts to `<ID>.md` with the quoted title and the description `"First Last"` |

## Behaviour that follows the code

- `pages` is not idempotent. `replace` scans left to right without
  overlap, so `---` becomes `--` and then `-`. `Bib.PageRangeNotIdempotent`
  proves this. An idempotent normaliser would be a different function.
- `"and "` goes on the author at the last index of the original list, not on
  the last emitted name. A list whose last author has no comma therefore
  gets no `"and "` at all (`Authors.ConjunctionRule`). A list where only the
  last author has a comma gets a lone `"and "` name
  (`Authors.LoneLastAuthor`).
- Values are inserted without escaping, so a title holding a double quote
  gives a line that a TOML reader would reject. The reader in this model
  strips only the outer quotes, so its round trips hold for any text.

## Left out

- Argument parsing, the verbosity prints, the unused `--selected` flag,
  creating and entering the output directory, and opening, reading and
  writing files, with their `IOError` handlers: these are I/O. `Convert`
  returns the file name and text that would be written.
- The BibTeX parser and the customisations whose code is not shown (`type`,
  `author`, `editor`, `journal`, `keyword`, `link`, `doi`,
  `convert_to_unicode`): foreign code. The author list is taken as already
  split, and field values are taken as already decoded.
- The loop over records and the way an exception stops the whole run:
  `Convert` models one record, and its `Failure` stands for the exception.
- The `IPython` import and the commented-out code, which do not affect the
  output.
- Fields the renderer never reads (`ENTRYTYPE`, `journal`, `volume`, …).
- Render.Convert: follows Python 3 text semantics. Under Python 2.7, named
  in the program's header, `'...'.format` on a byte-string template raises
  `UnicodeEncodeError` when a `unicode` value holds a non-ASCII character,
  which `convert_to_unicode` can produce (an accented title or author).
  `Convert` reports `Success` for such records instead of that error.
- Strings.Split: modelled only for a non-empty separator. Python's
  `ValueError` for an empty one cannot happen, because every separator the
  converter uses is a non-empty constant.
- Strings.Replace: modelled only for a non-empty pattern, for the same
  reason.
