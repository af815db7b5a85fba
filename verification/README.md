# Historical figures: data transformer and infobox parser

A Dafny model of the pure core of a small Flask application that looks up
historical figures on Wikipedia. The model covers two parts.

- `DataTransformer` in data_transformer.py. It cleans wiki markup out of
  text (`clean_text`), and parses dates against four patterns tried in a
  fixed order (`parse_date`). It classifies a summary into nine keyword
  categories (`extract_categories`) and buckets a year into one of seven
  historical periods (`_determine_historical_period`). It assembles the
  transformed figure dictionary (`transform_figure_data`) and attaches
  required-field errors and quality warnings (`validate_data`).
- From `WikipediaClient` in wikipedia_client.py:
  - the infobox field scanner `_parse_infobox`;
  - the choice of page in `get_infobox_data`;
  - the step of `get_figure_data` that merges the page summary and the
    infobox into one raw figure dictionary.

  What the HTTP requests returned is taken as input.

Python dictionaries are `map<string, Value>`, where `Value` covers the JSON
values the program handles and Python truthiness is the predicate
`Truthy`. Each regular expression becomes a scanner that runs at one
position of a `seq<char>`, plus a leftmost search over positions (`re.search`)
or a left-to-right rewriter (`re.sub`). Each scanner returns the match
that Python's backtracking engine returns. In most patterns backtracking
cannot change the outcome, because each greedy run is followed by a
character the run cannot contain. Two patterns do backtrack, and the
scanners follow them:

- In `\s+\(born\s+[^)]+\)`, and the same pattern with `died`, the `\s+` after
  the word gives its last character back to `[^)]+` when only whitespace
  lies before the `)`. So on ` (born  )` the pattern matches, and on
  ` (born )` it does not.
- In the link pattern, the optional target group `([^|\]]+\|)?` is given up
  when the rest of the pattern fails after it. So `[[abc|]]` becomes `abc|`.

The contracts of the markup scanners (`TagAt`, `SpacesAt`, `WikiLinkAt`,
`BracketAt`, `QuotedAt`) state both directions: when the pattern matches,
and what the match covers. The life-note scanner and the date scanners
state what a match covers. Each of them has a converse lemma (`…Finds`)
saying that it matches text of its shape.

Modules, in dependency order:

- `Values`: dictionaries and truthiness.
- `Text`: characters, `str.strip`, `str.lower`, digits and number formatting.
- `Cleaning`: the eight `re.sub` passes and `clean_text`.
- `Dates`: the four date patterns and `parse_date`.
- `Categories`: the keyword table and `extract_categories`.
- `Periods`: historical periods.
- `Transform`: the figure record and `transform_figure_data`.
- `Validation`: `validate_data`.
- `Infobox`: `_parse_infobox` and the page choice of `get_infobox_data`.
- `Client`: the merge in `get_figure_data`.
- `Pipeline`: how the client's output feeds the transformer and the
  validator.

## Model

| member | source | states |
|---|---|---|
| Text.Strip | data_transformer.py:62 | `str.strip()` cuts only whitespace, and only from the two ends; what remains neither starts nor ends with whitespace, and all-whitespace input gives `""` |
| Text.StripExactly | data_transformer.py:62 | any split into a whitespace prefix, a middle without edge whitespace and a whitespace suffix is the split `strip()` makes |
| Text.StripUnchanged | data_transformer.py:62 | text without edge whitespace is left alone by `strip()` |
| Text.NatToString | data_transformer.py:93 | `str(n)` is a non-empty digit string with no leading zero whose decimal value is `n` |
| Text.Pad2 | data_transformer.py:119 | `{n:02d}` is a digit string whose value is `n`: exactly two digits below 10, and `str(n)` from 10 up |
| Cleaning.TagAt | data_transformer.py:47 | `<[^>]+>` matches exactly where a `<` is followed by a character other than `>` and some `>` comes later; the match runs to the first `>` and is deleted |
| Cleaning.SpacesAt | data_transformer.py:50 | `\s+` matches exactly at whitespace, takes the whole run and replaces it by one space |
| Cleaning.WikiLinkAt | data_transformer.py:53 | the link pattern matches exactly where `[[` opens, some text follows, and the first `]` is doubled; the match ends at that `]]` and is replaced by group 2 |
| Cleaning.LinkCaption | data_transformer.py:53 | group 2 is the text after the first `\|` when a non-empty target precedes it and a non-empty caption follows it; otherwise the optional group is given up and group 2 is the whole inside |
| Cleaning.BracketAt | data_transformer.py:54 | `\[([^\]]+)\]` matches exactly where a `[` is followed by a character other than `]` and some `]` comes later; the match runs to the first `]` and is deleted |
| Cleaning.QuotedAt | data_transformer.py:55-56 | the bold and italic patterns match exactly where a run of three (two) apostrophes opens, other text follows, and the first apostrophe after it starts a closing run of three (two); the match is replaced by the non-empty text between |
| Cleaning.LifeNoteAt | data_transformer.py:59-60 | a life-note match is whitespace, `(` and the word, whitespace, at least one more character, and the first `)` after the word; it is deleted |
| Cleaning.LifeNoteAtFinds | data_transformer.py:59-60 | every such life note at the position is matched, up to its first `)` |
| Cleaning.SubInert | data_transformer.py:47-60 | a `re.sub` pass that matches nowhere, or only re-emits what it matched, is the identity |
| Cleaning.SubPrefix | data_transformer.py:47-60 | `re.sub` copies a prefix in which no match starts and continues on the rest |
| Cleaning.CleanText | data_transformer.py:43-62 | empty text gives `""`, and the result never starts or ends with whitespace |
| Cleaning.CleanTextUnchanged | data_transformer.py:43-62 | text with no `<`, `[`, `'` or `(`, no whitespace runs and no edge whitespace comes out unchanged |
| Cleaning.SpacesInert | data_transformer.py:50 | the whitespace pass leaves single-spaced text unchanged |
| Cleaning.MarkupPassInert | data_transformer.py:47-60 | a markup pass leaves text lacking the pass's opening character unchanged |
| Cleaning.WikiLinkInText | data_transformer.py:53 | inside text with no `[` before it, a piped link (target, bar, caption in double brackets) is replaced by its caption and the rest is rewritten on |
| Cleaning.LinkFirstPasses | data_transformer.py:47-53 | the tag, whitespace and link passes turn a lone single-spaced piped link into its caption |
| Cleaning.CleanTextLink | data_transformer.py:43-62 | `clean_text` of a lone piped link is its caption, when the caption is tidy plain text |
| Dates.MonthAt | data_transformer.py:26-27 | a month match is the text at the position, and it equals one of the names, ignoring case |
| Dates.MonthAtFinds | data_transformer.py:26-27 | wherever a month name is written, in any case, the alternation matches |
| Dates.DayMonthYearAt | data_transformer.py:26-27 | a pattern 1 match splits the text from the position into a day of one or two digits, whitespace, a month name as written, whitespace and a four-digit year, and captures those three parts |
| Dates.DayMonthYearAtFinds | data_transformer.py:26-27 | text of that shape is matched, with those three parts as the groups |
| Dates.SlashedAt | data_transformer.py:29 | pattern 3 captures digit groups of lengths 1–2, 1–2 and 4 that spell the matched `M/D/YYYY` text |
| Dates.SlashedAtFinds | data_transformer.py:29 | text of the shape `M/D/YYYY` is matched, with its three digit groups |
| Dates.DashedAt | data_transformer.py:30 | pattern 4 captures digit groups of lengths 4, 1–2 and 1–2 that spell the matched `YYYY-M-D` text |
| Dates.DashedAtFinds | data_transformer.py:30 | text of the shape `YYYY-M-D` is matched, with the last group taken in full |
| Dates.Search | data_transformer.py:82 | `re.search` finds the leftmost position where the pattern matches, or reports that it matches nowhere |
| Dates.SearchYearIsLeftmost | data_transformer.py:82 | the bare-year search finds exactly the leftmost run of four digits |
| Dates.SearchOccurs | data_transformer.py:82-83 | the search succeeds exactly when the pattern matches somewhere |
| Dates.Branch | data_transformer.py:86-123 | a branch that returns keeps the cleaned text as `raw` and has a year, and a year-only result lies in [1000, 2100] |
| Dates.BranchOfDayMonthYear | data_transformer.py:86-95 | day-month-year groups give `formatted = "{day} {month} {year}"` with the month exactly as matched |
| Dates.BranchOfNumeric | data_transformer.py:108-121 | digit groups are read as month, day, year when the text holds a `/` anywhere, and as year, month, day otherwise; `formatted` is `YYYY-MM-DD` zero-padded |
| Dates.MonthNamesAreAlpha | data_transformer.py:86 | a matched month name always passes `isalpha()`, so pattern 1 always takes its branch |
| Dates.NumericStages | data_transformer.py:108-121 | the slashed pattern decides as month/day/year; failing it, the dashed pattern decides with the `/` test; failing both, nothing is decided |
| Dates.DayMonthYearFirst | data_transformer.py:81-95 | when a day-month-year match occurs, its leftmost match decides the result |
| Dates.YearInRangeSecond | data_transformer.py:81-106 | otherwise a leftmost four-digit run in [1000, 2100] gives a year-only record |
| Dates.YearOutOfRangeFallsThrough | data_transformer.py:99-106 | a leftmost year outside [1000, 2100] does not return: the numeric patterns decide |
| Dates.NoFourDigitsUndecided | data_transformer.py:81-123 | with no four digits in a row, no pattern decides |
| Dates.Classify | data_transformer.py:81-129 | every outcome of the loop is one of the above cases, tied to the leftmost four digits of the cleaned text |
| Dates.ParseDate | data_transformer.py:74-129 | `None` exactly for empty input; otherwise `raw` is the cleaned text, an unparsed record has `formatted == raw`, and a year-only record lies in [1000, 2100] |
| Dates.YearOnlyIsLeftmostYear | data_transformer.py:78-106 | a year-only result is the value of the leftmost four digits of the cleaned text, and no day-month-year match exists |
| Dates.NumericOnlyWhenYearOutOfRange | data_transformer.py:99-121 | a numeric result is reached only when the leftmost four digits fall outside [1000, 2100] |
| Dates.NoFourDigitsKeptRaw | data_transformer.py:125-129 | cleaned text without four digits in a row is returned as `{formatted: raw, raw}` |
| Cleaning.TagInText | data_transformer.py:47 | in running text with no `<` before it, the tag pass deletes a tag and rewrites the rest |
| Cleaning.BracketInText | data_transformer.py:54 | in running text with no `[` before it, the bracket pass deletes a bracketed text and rewrites the rest |
| Cleaning.QuotedInText | data_transformer.py:55-56 | in running text without apostrophes before it, the bold or italic pass replaces quoted text by the text and rewrites the rest |
| Cleaning.LifeNoteInText | data_transformer.py:59-60 | in running text with no `(` and no trailing whitespace before it, the born or died pass deletes a life note and rewrites the rest |
| Dates.ParseDayMonthYear | data_transformer.py:74-95 | `"D Month YYYY"` parses to that day, the month as written and that year, formatted back with the numbers in decimal |
| Dates.ParseSlashed | data_transformer.py:99-121 | `"M/D/YYYY"` with a year outside [1000, 2100] parses as month, day and year, formatted `YYYY-MM-DD` |
| Dates.SlashedInRangeIsYear | data_transformer.py:99-106 | `"M/D/YYYY"` with a year in [1000, 2100] parses as the bare year, because the year pattern is tried first |
| Dates.ParseDashed | data_transformer.py:108-121 | `"YYYY-M-D"` with a year outside [1000, 2100] parses as year, month and day, formatted `YYYY-MM-DD` |
| Dates.ParseMarch | data_transformer.py:86-95 | `"15 March 1879"` gives day 15, month `March` and year 1879 |
| Dates.ParseNumericExamples | data_transformer.py:108-121 | `"3/14/0999"` and `"0999-3-14"` both give 14 March 999, formatted `999-03-14` |
| Categories.Select | data_transformer.py:160-162 | the loop keeps exactly the categories with a keyword in the lowered text |
| Categories.SelectInOrder | data_transformer.py:160-162 | the loop keeps the table's order |
| Categories.ExtractCategories | data_transformer.py:141-164 | empty text gives `[]`; otherwise a category is listed iff one of its keywords occurs in the lowered text, in table order, at most nine |
| Categories.InTableOrderDistinct | data_transformer.py:160-164 | the result has no duplicates |
| Categories.CategoriesMonotone | data_transformer.py:141-164 | if `a` is a substring of `b`, every category of `a` is a category of `b` |
| Periods.PeriodOfYear | data_transformer.py:259-274 | every year falls in one of the seven periods |
| Periods.PeriodCountsBoundaries | data_transformer.py:261-274 | the period's position in the chronology is the number of boundaries 500, 1000, 1300, 1500, 1800 and 1900 the year has reached |
| Periods.PeriodMonotone | data_transformer.py:261-274 | the period never goes back in time as the year grows |
| Periods.PeriodBoundaries | data_transformer.py:261-274 | 499 is Ancient History and 500 Early Middle Ages, and so on at each boundary |
| Periods.HistoricalPeriod | data_transformer.py:254-274 | a present death record decides even without a year; only a missing year gives Unknown |
| Periods.DeathDateDecides | data_transformer.py:254 | with a death record present, the birth record does not matter |
| Periods.PeriodLabelKnown | data_transformer.py:254-274 | the period label is one of the seven period names or `Unknown` |
| Transform.TextArg | data_transformer.py:180-194 | `raw_data.get(key, '')` as text: a stored string is returned as it is, and the text is empty exactly when the stored value is falsy |
| Transform.AgeOf | data_transformer.py:199-202 | an age exists iff both records carry a year, and then birth year plus age is death year |
| Transform.TransformFigure | data_transformer.py:176-235 | empty input gives no record; each cleaned text field is `clean_text` of its own raw key and each date `parse_date` of its own; a date is absent iff its raw value is falsy; age and period come from the parsed dates; media fields are copied with their defaults |
| Transform.TransformCategories | data_transformer.py:181-197 | the categories are those whose keywords the cleaned summary mentions, in table order |
| Transform.CategoriesFromSummaryOnly | data_transformer.py:197 | inputs with the same summary get the same categories |
| Transform.TransformTrims | data_transformer.py:180-194 | every cleaned text field comes out without edge whitespace |
| Transform.LinkedNameCleaned | data_transformer.py:180 | a name given as a piped wiki link comes out as its caption |
| Transform.DateValue | data_transformer.py:89-129 | a parsed date becomes a non-empty dictionary that has a `year` key iff the record has a year |
| Transform.DateValueRoundTrip | data_transformer.py:89-129 | the dictionary form of a parsed date loses nothing |
| Transform.FigureDict | data_transformer.py:208-237 | the result has exactly the sixteen keys other than `last_updated` |
| Transform.FigureDictEntries | data_transformer.py:208-237 | each cleaned text field and each media field sits under its own key |
| Transform.FigureDictDerived | data_transformer.py:215-227 | the dates, age, period label and category labels sit under their keys |
| Transform.TransformFigureData | data_transformer.py:176-239 | empty input gives `{}`; otherwise the dictionary of the transformed figure, with the sixteen keys |
| Transform.TransformFigureDataEntries | data_transformer.py:181-218 | the dates read back to what `parse_date` made of the raw text; `age` is the difference of their years exactly when both have one, and `None` otherwise; the period label is that of the two dates |
| Transform.TransformFigureDataText | data_transformer.py:180-226 | each cleaned text entry of the returned dictionary is `clean_text` of the raw value under the same key |
| Transform.TransformFigureDataCategories | data_transformer.py:181-227 | `categories` holds, once each, the labels of the categories whose keywords the cleaned summary mentions |
| Validation.MissingErrors | data_transformer.py:296-300 | an error for each required field whose value is missing or falsy, and no other errors |
| Validation.Errors | data_transformer.py:296-300 | the errors are the `name` error, then the `summary` error, each present iff its field is falsy |
| Validation.Warnings | data_transformer.py:303-310 | each warning is raised iff its condition holds, in the order of the checks |
| Validation.Validate | data_transformer.py:289-310 | valid iff `name` and `summary` are both truthy, which is iff there are no errors |
| Validation.ValidateData | data_transformer.py:286-315 | empty data gives only the error entry; otherwise every key is kept and `validation` is added or overwritten |
| Validation.ReportValue | data_transformer.py:289-293 | the `validation` dictionary has exactly the keys `is_valid`, `errors` and `warnings`, holding the validity flag and the two lists |
| Validation.ReportValueRoundTrip | data_transformer.py:289-315 | the stored report reads back to the same validity, errors and warnings |
| Validation.ValidateDataReport | data_transformer.py:289-315 | the `validation` entry of validated data reads back to validity iff `name` and `summary` are truthy, the required-field errors and the warnings |
| Validation.ValidityIgnoresWarnings | data_transformer.py:295-310 | validity and errors depend only on the truthiness of `name` and `summary` |
| Validation.ValidateDataIdempotent | data_transformer.py:286-315 | validating the validated data gives the same dictionary |
| Infobox.ValueEnd | wikipedia_client.py:169 | the value class runs to the first line break or bar |
| Infobox.FieldAt | wikipedia_client.py:169 | the field pattern matches iff its header does; the capture skips the whole whitespace run after `=` and runs to the first line break or bar |
| Infobox.ValueFromUnique | wikipedia_client.py:169 | that capture is determined by the text: only one start and one value fit |
| Infobox.FieldAtIffHead | wikipedia_client.py:169 | the scanner matches exactly where a bar, whitespace, the key in any case, whitespace and `=` occur |
| Infobox.FindField | wikipedia_client.py:169 | the search returns the capture of the leftmost match, or nothing when no position matches |
| Infobox.FoundIffDeclared | wikipedia_client.py:169-171 | a field is found iff its header occurs somewhere in the text |
| Infobox.ParseInfobox | wikipedia_client.py:166-196 | keys are among the six fields; a key is present iff its header occurs; values hold no line break or bar and have no edge whitespace |
| Infobox.FieldValue | wikipedia_client.py:169-171 | one field's entry is present iff declared, and is the stripped leftmost capture |
| Infobox.ParseInfoboxValue | wikipedia_client.py:169-194 | each value is the stripped capture of its first declaration |
| Infobox.FindFieldAt | wikipedia_client.py:169 | where the leftmost match is, the search finds it |
| Infobox.FieldLineMatches | wikipedia_client.py:169 | the pattern matches an editor-style field line where the line starts and captures the value |
| Infobox.FieldLineRoundTrip | wikipedia_client.py:169-194 | a field line (bar, space, key, ` = `, value) with no bar before it parses back to its value, whatever follows, later duplicates included |
| Infobox.LongerNameIsOtherField | wikipedia_client.py:187-189 | a line declaring `occupations` does not produce `occupation` |
| Infobox.EmptyFieldTakesNextLine | wikipedia_client.py:187-189 | `\s*` after `=` runs over a line break, so an empty `occupation` field takes the next line's text |
| Infobox.InfoboxFromPages | wikipedia_client.py:140-148 | no page with a revision gives `{}`; otherwise the infobox of the last such page, with keys among the six fields |
| Client.PageAndInfoboxKeysDisjoint | wikipedia_client.py:226-235 | no infobox field shares a name with a page field |
| Client.PageDict | wikipedia_client.py:226-233 | each of the seven summary fields sits under its figure key: title as `name`, extract as `summary`, description, thumbnail as `image_url`, page URL as `wikipedia_url`, coordinates and type |
| Client.PageDictRoundTrip | wikipedia_client.py:226-233 | reading the summary fields back from the figure dictionary gives the page data |
| Client.Merge | wikipedia_client.py:226-235 | `{**a, **b}` holds the keys of both, and the later dictionary wins |
| Client.FigureData | wikipedia_client.py:209-237 | `None` iff the search found nothing or the page summary is missing; otherwise the page fields unchanged plus the infobox fields |
| Client.FigureDataKeepsPage | wikipedia_client.py:226-235 | the merged dictionary still reads back to the page summary: the infobox never overwrites a summary field |
| Pipeline.FigureDataWellTyped | wikipedia_client.py:226-235 | the merged dictionary holds strings or falsy values under every key the transformer cleans |
| Pipeline.ValidatedFigure | data_transformer.py:286-310 | validating a transformed figure reads its cleaned name, summary and occupation and its parsed dates |
| Pipeline.TransformedValidation | data_transformer.py:176-310 | a transformed figure is valid iff its cleaned name and summary are non-empty; each warning traces back to the raw fields |

## Left out

- app.py: Flask routing, templates, flash messages and error handlers. It only calls the core.
- The HTTP side of wikipedia_client.py: `search_figure`, `get_page_content`, the request in `get_infobox_data`, sessions, timeouts, `time.sleep` and the printed errors. `Client.FigureData` takes what they returned as inputs. The search hits come as a sequence and the page summary and wikitexts as functions of the title. So the `limit=1` argument and the JSON navigation in `get_page_content` are not modelled. Neither is the navigation `page_data['revisions'][0]['*']` in `get_infobox_data`: an empty revisions list or a revision without `'*'` raises an `IndexError` or `KeyError` there, which the `requests.RequestException` handler does not catch. The model takes each page's wikitext as already extracted (`Option<string>`), so it cannot express that error.
- `PageData.fullHtml` is carried but never read, as in the source.
- `last_updated` in `transform_figure_data` reads the clock. `Transform.FigureDict` has the other sixteen keys.
- Dictionary insertion order is not modelled: dictionaries are maps. List order (errors, warnings, categories) is modelled.
- Character classes are restricted to ASCII: `\d`, `isdigit()`, `isalpha()`, `lower()` and `re.IGNORECASE`. Python also accepts other Unicode digits and letters, and folds some non-ASCII case pairs. `\s` and `strip()` use Python's full whitespace set.
- Dates.Branch: `int()` cannot fail on the captured digit groups. The `except ValueError: continue` paths are modelled as an `Option` that is never `None` there.
- Transform.TransformFigure: requires the text fields to hold strings or falsy values. Python would raise on other types, and that error path is not modelled.
- Validation.Warnings: requires `len(data['summary'])` to be defined when `summary` is truthy. Python would raise otherwise, and that error path is not modelled.
