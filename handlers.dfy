/**
 * The record handlers: `DateValidatorMixin.validate_date`, `ArticleHandler` and `MediaHandler`.
 *
 * The mixin's one method is the function `ValidateDate`; the two date assignments both
 * handlers' `validate` share are `AddDates`; `update_section` and the `map` over the sections
 * are `RewriteSection` and `RewriteSections`. The handlers themselves are classes holding
 * the record they rewrite in place, and their `Validate` methods are proved to compute
 * `AddDates` and `NormalizedArticle`.
 */
module Handlers {
  import opened Wrappers
  import opened Json
  import opened Dates
  import opened Markup

  /** The exceptions the handlers and the fetch code raise on malformed records:
      `KeyError` for a missing dict key, `TypeError` or `AttributeError` for a value of the
      wrong kind, `ValueError` from `strptime`. */
  datatype Error =
    | KeyMissing(key: Json)
    | WrongShape
    | BadDate(fault: DateFault)

  const PublicationDate: string := "publication_date"
  const ModificationDate: string := "modification_date"

  /** `validate_date(raw, format)`, where `now` stands for `datetime.datetime.now().isoformat()`:
      a missing or null date is "now", a string is parsed in `f` and written in ISO form. */
  function ValidateDate(raw: Json, f: DateFormat, now: string): Result<string, Error>
  {
    match raw
    case JNull => Success(now)
    case JStr(s) =>
      (match Parse(s, f)
       case Success(d) => Success(IsoFormat(d))
       case Failure(e) => Failure(BadDate(e)))
    case _ => Failure(WrongShape)
  }

  /** The date assignments of both `validate` methods: `publication_date` from `pub_date` in the
      publication format, then `modification_date` from `mod_date` in the modification format. */
  function AddDates(data: Obj, now: string): Result<Obj, Error>
  {
    var pub :- ValidateDate(Get(data, "pub_date"), PublicationFormat, now);
    var mod :- ValidateDate(Get(data, "mod_date"), ModificationFormat, now);
    Success(data[PublicationDate := JStr(pub)][ModificationDate := JStr(mod)])
  }

  /** `update_section(section)`: a media section is merged with the media record of its id (the
      record's fields win), a text section has its text stripped of tags, any other section is
      returned as it is. */
  function RewriteSection(section: Json, media: map<Json, Obj>): Result<Json, Error>
  {
    match section
    case JObj(f) =>
      if "type" !in f then Failure(KeyMissing(JStr("type")))
      else if f["type"] == JStr("media") then
        if "id" !in f then Failure(KeyMissing(JStr("id")))
        else if !Hashable(f["id"]) then Failure(WrongShape)
        else if f["id"] !in media then Failure(KeyMissing(f["id"]))
        else Success(JObj(f + media[f["id"]]))
      else if f["type"] != JStr("text") then Success(section)
      else if "text" !in f then Failure(KeyMissing(JStr("text")))
      else
        (match f["text"]
         case JStr(t) => Success(JObj(f["text" := JStr(Strip(t))]))
         case _ => Failure(WrongShape))
    case _ => Failure(WrongShape)
  }

  /** `list(map(update_section, sections))`: every section rewritten, in order; the first
      failing section's error otherwise. */
  function RewriteSections(sections: seq<Json>, media: map<Json, Obj>): (r: Result<seq<Json>, Error>)
    ensures r.Success? <==> forall i :: 0 <= i < |sections| ==> RewriteSection(sections[i], media).Success?
    ensures r.Success? ==> |r.value| == |sections|
    ensures r.Success? ==> forall i :: 0 <= i < |sections| ==> r.value[i] == RewriteSection(sections[i], media).value
    ensures r.Failure? ==> exists i :: 0 <= i < |sections| && FirstFailure(sections, media, i, r.error)
  {
    if sections == [] then Success([])
    else
      match RewriteSection(sections[0], media)
      case Failure(e) =>
        assert FirstFailure(sections, media, 0, e);
        Failure(e)
      case Success(s) =>
        match RewriteSections(sections[1..], media)
        case Failure(e) =>
          assert forall i :: 0 <= i < |sections[1..]| && FirstFailure(sections[1..], media, i, e) ==>
            FirstFailure(sections, media, i + 1, e);
          Failure(e)
        case Success(rest) =>
          assert forall i :: 0 < i < |sections| ==> sections[i] == sections[1..][i - 1];
          Success([s] + rest)
  }

  /** Section `i` is the first that fails, and it fails with `e`. */
  ghost predicate FirstFailure(sections: seq<Json>, media: map<Json, Obj>, i: int, e: Error)
    requires 0 <= i < |sections|
  {
    && RewriteSection(sections[i], media) == Failure(e)
    && forall j :: 0 <= j < i ==> RewriteSection(sections[j], media).Success?
  }

  /** What `ArticleHandler(data, media).validate()` returns: the dates added, then the sections
      rewritten. */
  function NormalizedArticle(data: Obj, media: map<Json, Obj>, now: string): Result<Obj, Error>
  {
    var dated :- AddDates(data, now);
    if "sections" !in dated then Failure(KeyMissing(JStr("sections")))
    else
      var sections :- Elements(dated["sections"]).ToResult(WrongShape);
      var rewritten :- RewriteSections(sections, media);
      Success(dated["sections" := JArr(rewritten)])
  }

  // ---------------------------------------------------------------------------------------
  // The handlers

  /** `MediaHandler`: holds one media record and dates it in place. The fetch step
      (`Fetch.SelectMedia`, for run.py:34-36) calls the function `AddDates` in place of
      `MediaHandler(media).validate()`, because a function cannot construct an object; the two
      are tied by `Validate`'s postcondition that its result is `AddDates` of the old record. */
  class MediaHandler {
    var data: Obj

    constructor (data: Obj)
      ensures this.data == data
    {
      this.data := data;
    }

    /** `validate()`: adds the two dates to the record in place and returns it. When a date
        fails, nothing but `publication_date` may have been written. */
    method Validate(now: string) returns (r: Result<Obj, Error>)
      modifies this
      ensures r == AddDates(old(data), now)
      ensures r.Success? ==> data == r.value
      ensures r.Failure? ==> data - {PublicationDate} == old(data) - {PublicationDate}
    {
      var pub := ValidateDate(Get(data, "pub_date"), PublicationFormat, now);
      if pub.Failure? {
        return Failure(pub.error);
      }
      data := data[PublicationDate := JStr(pub.value)];
      var mod := ValidateDate(Get(data, "mod_date"), ModificationFormat, now);
      if mod.Failure? {
        return Failure(mod.error);
      }
      data := data[ModificationDate := JStr(mod.value)];
      r := Success(data);
    }
  }

  class ArticleHandler {
    var data: Obj
    const media: map<Json, Obj>

    constructor (data: Obj, media: map<Json, Obj>)
      ensures this.data == data && this.media == media
    {
      this.data := data;
      this.media := media;
    }

    /** `validate()`: adds the two dates to the record in place, then replaces its sections
        by their rewritten list, and returns the record. When a step fails, the keys other
        than the two dates and the sections are as they were. */
    method Validate(now: string) returns (r: Result<Obj, Error>)
      modifies this
      ensures r == NormalizedArticle(old(data), media, now)
      ensures r.Success? ==> data == r.value
      ensures r.Failure? ==>
        forall k :: k in old(data) && k !in {PublicationDate, ModificationDate, "sections"} ==>
          k in data && data[k] == old(data)[k]
    {
      var pub := ValidateDate(Get(data, "pub_date"), PublicationFormat, now);
      if pub.Failure? {
        return Failure(pub.error);
      }
      data := data[PublicationDate := JStr(pub.value)];
      var mod := ValidateDate(Get(data, "mod_date"), ModificationFormat, now);
      if mod.Failure? {
        return Failure(mod.error);
      }
      data := data[ModificationDate := JStr(mod.value)];
      if "sections" !in data {
        return Failure(KeyMissing(JStr("sections")));
      }
      var sections := Elements(data["sections"]);
      if sections.None? {
        return Failure(WrongShape);
      }
      var rewritten := RewriteSections(sections.value, media);
      if rewritten.Failure? {
        return Failure(rewritten.error);
      }
      data := data["sections" := JArr(rewritten.value)];
      r := Success(data);
    }
  }

  // ---------------------------------------------------------------------------------------
  // Properties of the dates

  /** A fixed-width date in the right format comes out in ISO form with the same fields. */
  lemma ValidateDateRoundTrip(d: DateTime, f: DateFormat, now: string)
    requires Valid(d)
    ensures ValidateDate(JStr(Render(d, f)), f, now) == Success(IsoFormat(d))
  {
    ParseRender(d, f);
  }

  /** A date written with the other format's separator is refused. */
  lemma ValidateDateWrongFormat(d: DateTime, now: string)
    requires Valid(d)
    ensures ValidateDate(JStr(Render(d, ModificationFormat)), PublicationFormat, now) == Failure(BadDate(NoMatch))
    ensures ValidateDate(JStr(Render(d, PublicationFormat)), ModificationFormat, now) == Failure(BadDate(NoMatch))
  {
    FormatsDiffer(d);
  }

  /** Any accepted date string comes out as the ISO text of a valid date, and that date is the
      one its fixed-width form gives. */
  lemma ValidateDateIso(s: string, f: DateFormat, now: string)
    requires ValidateDate(JStr(s), f, now).Success?
    ensures Parse(s, f).Success?
    ensures var d := Parse(s, f).value;
      && ValidateDate(JStr(s), f, now).value == IsoFormat(d)
      && ValidateDate(JStr(Render(d, f)), f, now) == ValidateDate(JStr(s), f, now)
  {
    ParseRender(Parse(s, f).value, f);
  }

  /** Adding the dates sets `publication_date` and `modification_date` to the validated dates
      and leaves every other key, `pub_date` and `mod_date` included, as it was; it fails
      exactly when one of the two dates does. */
  lemma AddDatesKeys(data: Obj, now: string)
    ensures var pub := ValidateDate(Get(data, "pub_date"), PublicationFormat, now);
      var mod := ValidateDate(Get(data, "mod_date"), ModificationFormat, now);
      AddDates(data, now).Success? <==> pub.Success? && mod.Success?
    ensures AddDates(data, now).Success? ==>
      var r := AddDates(data, now).value;
      && r.Keys == data.Keys + {PublicationDate, ModificationDate}
      && r[PublicationDate] == JStr(ValidateDate(Get(data, "pub_date"), PublicationFormat, now).value)
      && r[ModificationDate] == JStr(ValidateDate(Get(data, "mod_date"), ModificationFormat, now).value)
      && forall k :: k in data && k != PublicationDate && k != ModificationDate ==> r[k] == data[k]
  {
  }

  /** A record with neither date gets "now" for both. */
  lemma AddDatesUndated(data: Obj, now: string)
    requires "pub_date" !in data && "mod_date" !in data
    ensures AddDates(data, now) == Success(data[PublicationDate := JStr(now)][ModificationDate := JStr(now)])
  {
  }

  // ---------------------------------------------------------------------------------------
  // Properties of the sections

  /** A media section whose id is in the map gets every field of the matched record, with the
      record's value where both have a key, and keeps its own other fields. */
  lemma MediaSectionMerged(f: Obj, media: map<Json, Obj>)
    requires "type" in f && f["type"] == JStr("media")
    requires "id" in f && Hashable(f["id"]) && f["id"] in media
    ensures RewriteSection(JObj(f), media).Success?
    ensures var m := media[f["id"]];
      var r := RewriteSection(JObj(f), media).value;
      && r.JObj?
      && r.fields.Keys == f.Keys + m.Keys
      && (forall k :: k in m ==> r.fields[k] == m[k])
      && (forall k :: k in f && k !in m ==> r.fields[k] == f[k])
  {
  }

  /** A media section whose id is not in the map is a lookup failure, not left unenriched. */
  lemma MediaSectionUnmatched(f: Obj, media: map<Json, Obj>)
    requires "type" in f && f["type"] == JStr("media")
    requires "id" in f && Hashable(f["id"]) && f["id"] !in media
    ensures RewriteSection(JObj(f), media) == Failure(KeyMissing(f["id"]))
  {
  }

  /** A text section keeps all its keys; its text is stripped of tags and other fields are kept. */
  lemma TextSectionStripped(f: Obj, t: string, media: map<Json, Obj>)
    requires "type" in f && f["type"] == JStr("text")
    requires "text" in f && f["text"] == JStr(t)
    ensures RewriteSection(JObj(f), media).Success?
    ensures var r := RewriteSection(JObj(f), media).value;
      && r.JObj?
      && r.fields.Keys == f.Keys
      && r.fields["text"] == JStr(Strip(t))
      && NoTag(Strip(t))
      && forall k :: k in f && k != "text" ==> r.fields[k] == f[k]
  {
    StripLeavesNoTag(t);
  }

  /** A section of any other type is returned unchanged. */
  lemma OtherSectionUnchanged(f: Obj, media: map<Json, Obj>)
    requires "type" in f && f["type"] != JStr("media") && f["type"] != JStr("text")
    ensures RewriteSection(JObj(f), media) == Success(JObj(f))
  {
  }

  /** Rewriting a text or pass-through section a second time changes nothing more. */
  lemma RewriteTextIdempotent(section: Json, media: map<Json, Obj>)
    requires section.JObj? && "type" in section.fields && section.fields["type"] != JStr("media")
    requires RewriteSection(section, media).Success?
    ensures RewriteSection(RewriteSection(section, media).value, media) == RewriteSection(section, media)
  {
    var f := section.fields;
    if f["type"] == JStr("text") {
      StripIdempotent(f["text"].s);
      var g := f["text" := JStr(Strip(f["text"].s))];
      assert g["text" := JStr(Strip(Strip(f["text"].s)))] == g;
    }
  }

  /** The normalised article keeps its sections' number and order: section `i` of the result
      is the rewriting of section `i` of the input. It also carries both dates and keeps every
      key other than the dates and the sections. */
  lemma NormalizedArticleShape(data: Obj, media: map<Json, Obj>, now: string)
    requires NormalizedArticle(data, media, now).Success?
    ensures "sections" in data && Elements(data["sections"]).Some?
    ensures var r := NormalizedArticle(data, media, now).value;
      var sections := Elements(data["sections"]).value;
      && r.Keys == data.Keys + {PublicationDate, ModificationDate}
      && r[PublicationDate] == JStr(ValidateDate(Get(data, "pub_date"), PublicationFormat, now).value)
      && r[ModificationDate] == JStr(ValidateDate(Get(data, "mod_date"), ModificationFormat, now).value)
      && r["sections"].JArr?
      && |r["sections"].items| == |sections|
      && (forall i :: 0 <= i < |sections| ==>
            r["sections"].items[i] == RewriteSection(sections[i], media).value)
      && forall k :: k in data && k !in {PublicationDate, ModificationDate, "sections"} ==> r[k] == data[k]
  {
    AddDatesKeys(data, now);
  }
}
