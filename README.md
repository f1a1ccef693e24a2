# Article record normalisation

A model of the record-normalising core of `run.py`, the periodic article fetcher. A fetch cycle:

- reads an article list and keeps the ids of its entries (line 18);
- fetches each article's detail record and its media collection;
- collects the ids of the article's media sections and keeps the fetched media records with those ids (lines 32-36);
- normalises each kept media record's dates with `MediaHandler`;
- normalises the article with `ArticleHandler`:
  - its two dates are rewritten from the source formats `%Y-%m-%d-%H;%M;%S` (publication) and `%Y-%m-%d-%H:%M:%S` (modification) to ISO text, and missing dates become "now";
  - its media sections are merged with their media records;
  - its text sections are stripped of HTML tags;
- adds the detail URL.

The model is in six modules:

- `Wrappers`: `Option` and `Result`.
- `Json`: the decoded JSON values. This module also models Python's truthiness and iteration (`Elements`).
- `Dates`: `datetime.strptime` for the two formats, as its directive patterns and the `datetime` range checks define it, and `isoformat`.
- `Markup`: `re.sub('<.*?>', '', text)`.
- `Handlers`: `validate_date`, `update_section`, and the two handler classes. Each class holds its record in a mutable field, and its `Validate` method is proved to compute a pure specification function.
- `Fetch`: the list-id and media-id comprehensions, the media selection, and `fetch_article` once its two responses are in.

Every Python exception the core can raise becomes a `Failure` with one of three `Error` kinds:

- `KeyMissing`: `KeyError` from a missing key;
- `WrongShape`: `TypeError` or `AttributeError` from a value of the wrong kind;
- `BadDate`: the `ValueError` of `strptime`.

The model follows the code in two places where the system's documentation says otherwise:

- A media section whose id has no fetched record is described as left unenriched. `self.media[section["id"]]` (run.py:99) raises `KeyError`, so the model fails with `KeyMissing(id)` (`Handlers.MediaSectionUnmatched`).
- The list comprehension filters on `item.get("id")`, which is a truth test. Entries with an id of `0`, `""`, `false`, `[]` or `{}` are dropped along with entries that have no id. `Fetch.ListIds` keeps exactly the ids that `Json.Truthy` accepts, and `Fetch.FalsyIdsExample` shows `0`, `""` and `null` dropped.

## Model

| member | source | states |
|---|---|---|
| Dates.Parse | run.py:88 | `Parse`: no contract of its own; specified by ParseValid, ParseRender, ParseCanonical, RenderParse, ConvertWidths, ConvertFullWidth, UnpaddedAccepted, PatternThenRanges, February30Refused, February29Leap, LeapSecondRefused, WrongSeparator and FormatsDiffer |
| Dates.IsoFormat | run.py:89 | `IsoFormat`: no contract of its own; specified by IsoFields and IsoInjective |
| Dates.SplitFields | run.py:110-112 | cutting a date text at its first three '-' and the next two time separators gives fields that join back to the text and hold no separator |
| Dates.SplitJoin | run.py:110-112 | joined fields without separators are cut back into exactly those fields |
| Dates.ParseValid | run.py:88 | `strptime` only returns a real `datetime`: year 1-9999, day within its month, second at most 59 |
| Dates.ParseRender | run.py:88-89 | the zero-padded text of any valid date in either format parses back to that date |
| Dates.ParseCanonical | run.py:88 | a parsed text and the zero-padded text of its date parse to the same value |
| Dates.RenderParse | run.py:88 | a 19-character text without spaces that parses is exactly the padded text of its date |
| Dates.ConvertWidths | run.py:88 | an accepted year has four digits and every other field one or two characters |
| Dates.ConvertFullWidth | run.py:88 | fields of full width that convert are the padding of their date |
| Dates.UnpaddedAccepted | run.py:88 | month, day, hour, minute and second written with one digit are accepted with their values |
| Dates.PatternThenRanges | run.py:88 | padded values within the directive ranges parse to exactly those values when they form a date, and fail as out of range otherwise |
| Dates.February30Refused | run.py:88 | February 30 matches the pattern but is refused in every year |
| Dates.February29Leap | run.py:88 | February 29 is accepted exactly in leap years |
| Dates.LeapSecondRefused | run.py:88 | seconds 60 and 61 match `%S` but are refused |
| Dates.WrongSeparator | run.py:110-112 | a text without the format's time separator is refused as not matching |
| Dates.FormatsDiffer | run.py:110-112 | the padded text of a date in one format never parses in the other |
| Dates.IsoFields | run.py:89 | the ISO text is 19 characters with '-', '-', 'T', ':', ':' at positions 4, 7, 10, 13 and 16 and the date's fields as digits between them |
| Dates.IsoInjective | run.py:89 | distinct dates have distinct ISO texts |
| Dates.RenderExample | run.py:110 | 2024-01-02 03:04:05 is written "2024-01-02-03;04;05" in the publication format |
| Dates.PublicationExample | run.py:110 | "2024-01-02-03;04;05" parses as a publication date to 2024-01-02 03:04:05 |
| Dates.IsoExample | run.py:89 | that date's ISO text is "2024-01-02T03:04:05" |
| Dates.WrongSeparatorExample | run.py:110-112 | "2024-01-02-03:04:05" is not a publication date |
| Markup.Strip | run.py:103-104 | `Strip`: no contract of its own; specified by StripLeavesNoTag, StripUntagged, StripIdempotent, StripKeepsNewlines and StripShortens |
| Markup.TagEnd | run.py:103-104 | where a tag opened by '<' closes: at the first '>' when no newline comes before it; there is no close exactly when every '>' has a newline before it |
| Markup.StripLeavesNoTag | run.py:104 | the stripped text holds no '<' followed by a '>' on the same line |
| Markup.StripUntagged | run.py:104 | a text without tags is returned unchanged |
| Markup.StripIdempotent | run.py:104 | stripping a stripped text changes nothing |
| Markup.StripKeepsNewlines | run.py:103-104 | stripping removes no newline, since `.` never matches one |
| Markup.StripShortens | run.py:104 | the stripped text is a subsequence of the text: characters are only deleted and the rest keep their order, so it is never longer |
| Markup.StripTagsExample | run.py:103-104 | "<p>Hi</p>" is stripped to "Hi" |
| Markup.StripPlainExample | run.py:104 | "no tags" is returned unchanged |
| Markup.StripMultilineExample | run.py:103-104 | a tag spanning two lines is kept |
| Handlers.ValidateDate | run.py:84-89 | `ValidateDate`: no contract of its own; specified by ValidateDateRoundTrip, ValidateDateWrongFormat and ValidateDateIso |
| Handlers.AddDates | run.py:109-112 | `AddDates`: no contract of its own (it is also the date step of `MediaHandler.validate`, run.py:122-125); specified by AddDatesKeys and AddDatesUndated |
| Handlers.RewriteSection | run.py:97-106 | `RewriteSection`: no contract of its own; specified by MediaSectionMerged, MediaSectionUnmatched, TextSectionStripped, OtherSectionUnchanged and RewriteTextIdempotent |
| Handlers.NormalizedArticle | run.py:108-114 | `NormalizedArticle`: no contract of its own; specified by NormalizedArticleShape and by `ArticleHandler.Validate`, which computes it |
| Handlers.ValidateDateRoundTrip | run.py:84-89 | a date written in the format is returned as the ISO text of the same date |
| Handlers.ValidateDateWrongFormat | run.py:87-88 | a date written in the other format raises the `strptime` error |
| Handlers.ValidateDateIso | run.py:87-89 | an accepted text gives the ISO text of its parsed date, the same as its padded form gives |
| Handlers.AddDatesKeys | run.py:108-112 | both dates are set from `pub_date` and `mod_date`, every other key is kept, and the step fails exactly when one date fails |
| Handlers.AddDatesUndated | run.py:85-86 | a record with neither date gets the clock value `now` for both |
| Handlers.RewriteSections | run.py:113 | the sections are rewritten one by one, in order and with their count kept; the step fails exactly when a section fails, with the error of the first failing section |
| Handlers.MediaSectionMerged | run.py:98-99 | a media section gets every field of its media record, where the record wins on shared keys, and keeps its other fields |
| Handlers.MediaSectionUnmatched | run.py:99 | a media section whose id has no record fails with that id as the missing key |
| Handlers.TextSectionStripped | run.py:101-106 | a text section keeps its keys and its other fields, and its text is replaced by the stripped text, which holds no tag |
| Handlers.OtherSectionUnchanged | run.py:101-102 | a section of any other type is returned as it is |
| Handlers.RewriteTextIdempotent | run.py:97-106 | rewriting a text or pass-through section twice gives the same as once |
| Handlers.NormalizedArticleShape | run.py:108-114 | the normalised article has both dates, exactly its old keys besides, and section i is the rewriting of input section i |
| Handlers.MediaHandler.constructor | run.py:118-119 | the handler holds the record |
| Handlers.MediaHandler.Validate | run.py:121-126 | the record is updated in place to its dated form and returned; on a date error only `publication_date` may have been written |
| Handlers.ArticleHandler.constructor | run.py:93-95 | the handler holds the record and the media map |
| Handlers.ArticleHandler.Validate | run.py:108-114 | the record is updated in place to the normalised article and returned; on an error the keys other than the dates and the sections are untouched |
| Fetch.ArticleIds | run.py:18 | `ArticleIds`: no contract of its own; it iterates the list response and hands the entries to ListIds, which specifies it |
| Fetch.ListIds | run.py:18 | the list succeeds exactly when every entry is a dict; the kept ids are exactly the truthy ids of the entries, one per entry at most |
| Fetch.ListIdsAppend | run.py:18 | the ids of two lists put together are the ids of the first followed by those of the second |
| Fetch.ListExample | run.py:18-23 | `[{"id": 1}, {"id": 2}, {}]` gives the two ids 1 and 2 |
| Fetch.FalsyIdsExample | run.py:18 | ids `0`, `""` and `null` are dropped and a non-empty id is kept |
| Fetch.MediaIds | run.py:32 | `MediaIds`: no contract of its own; it reads and iterates `sections` and hands them to MediaIdsOf, which specifies it |
| Fetch.SelectMedia | run.py:34-36 | `SelectMedia`: no contract of its own; specified by SelectMediaSpec, SelectMediaLastWins and MediaMapKeys |
| Fetch.MediaIdsOf | run.py:32 | the media ids are exactly the ids of the media sections, and the step fails exactly when a section is not a dict, has no type, or is a media section without an id |
| Fetch.SelectMediaSpec | run.py:34-36 | the selection succeeds exactly when every record is a dict with an id and, when selected, its dates validate and its id is not a list or dict (run.py:35 raises `TypeError` on an unhashable key); its keys are the selected ids and each value is the dated form of a selected record with that id |
| Fetch.SelectMediaLastWins | run.py:34-36 | when two selected records share an id, the value kept is the dated form of the last one; keys no record selects keep their earlier value |
| Fetch.MediaMapKeys | run.py:32-36 | the media map's keys are exactly the fetched ids that are also the id of a media section, and each value is a fetched record with that id, dated |
| Fetch.MediaCollection | run.py:48-53 | `MediaCollection`: no contract of its own; specified by UndecodableMedia |
| Fetch.ArticleRecord | run.py:27-39 | `ArticleRecord`: no contract of its own; specified by ArticleRecordShape and UndecodableMedia, and computed by FetchArticle |
| Fetch.FetchArticle | run.py:27-39 | running the selection and the article handler gives the record `ArticleRecord` specifies |
| Fetch.ArticleRecordShape | run.py:28-39 | the record carries the detail URL; its two dates are the validated `pub_date` and `mod_date` of the detail in their formats; its sections are as many as the detail's, and section i is detail section i rewritten against the selected media; the detail's other keys are kept |
| Fetch.UndecodableMedia | run.py:48-53 | a media response that does not decode counts as an empty collection and selects no media; the record is then the article normalised against an empty media map, which fails when the article has any media section |
| Fetch.UndecodableMediaExample | run.py:48-53 | the one-text-section article succeeds, with its stripped text, when its media response does not decode |
| Fetch.ScenarioExample | run.py:27-39 | for a media section "m1" and a text section "<p>Hi</p>": section 0 is merged with its record, whose publication date becomes "2024-01-02T03:04:05"; section 1 has text "Hi"; the article's missing publication date is the clock value `now` |

## Left out

- The scheduler, worker, `main` and the queue (run.py:56-80) are left out, with their infinite loops, sleeping and task cancellation. They involve concurrency and time.
- The `asyncio.gather` fan-out of `fetch_articles` (run.py:20-24) is left out. `Fetch.ArticleIds` gives the ids it fans out over, and each article is `Fetch.FetchArticle`. Propagation of one article's exception to the whole gather is not modelled.
- The HTTP session and requests (run.py:15-17, 29-30, 49-51) are left out. The decoded list, detail and media responses are parameters. A media response that failed to decode is `None`.
- The detail URL f-string (run.py:28) is not modelled: the URL is a parameter, because the text form `str()` of an id is not modelled.
- Handlers.AddDates: every clock read `datetime.datetime.now().isoformat()` (run.py:86) of a fetch is the one parameter `now`. Python reads the clock anew for each absent date, so a dateless record's two dates, and those of different records, normally differ slightly; the model gives them all the same value.
- `Article(**data)` and its pydantic validation (run.py:41-45) are not modelled. The schema module `models.py` is not part of this model, so the model ends with the dict handed to `Article`.
- The `print` calls (run.py:19, 43, 45, 67, 69) are output only.
- Decoded JSON numbers are integers. Floats are not modelled.
- Python's equality across kinds (`True == 1`), used by `in media_ids` and by the dict lookup, is not modelled. The model compares values structurally.
- `\d` in the `strptime` patterns matches only ASCII digits here; Python also accepts other Unicode decimal digits.
- Dict key order is not tracked. Objects are maps.
- Iterating a non-empty str or dict yields str elements that every caller rejects. The model skips that step and fails with `WrongShape` directly (`Json.Elements`).
- Handlers.ArticleHandler.Validate: the model does not track text sections already rewritten before a later section fails. `update_section` writes `section["text"]` into the section dict itself (run.py:105), so Python leaves those sections stripped in place. The model leaves failing records' sections as they were and promises nothing about that key on failure.
- Handlers.RewriteSection: the in-place write of a text section (run.py:105) is modelled as returning an updated copy. Nothing reads the old dict afterwards when the rewriting succeeds.
- Handlers.MediaHandler.Validate: the handler writes into the same dict object the fetched media list holds (run.py:119-126). This aliasing is not modelled. Nothing reads that list afterwards.
