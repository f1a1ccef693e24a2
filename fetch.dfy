/**
 * The pure part of `fetch_articles` and `fetch_article`: which ids the list yields, which
 * media ids an article references, which fetched media records are kept, and the record
 * `fetch_article` hands to the `Article` schema. The HTTP responses are parameters.
 */
module Fetch {
  import opened Wrappers
  import opened Json
  import opened Handlers
  import Dates
  import Markup

  // ---------------------------------------------------------------------------------------
  // The article ids of the list

  /** The list entry is a dict whose `id` is present and truthy, and that id is `x`. */
  predicate KeepsId(item: Json, x: Json)
  {
    item.JObj? && Truthy(Get(item.fields, "id")) && item.fields["id"] == x
  }

  /** `[item["id"] for item in items if item.get("id")]`; every item must be a dict. */
  function ListIds(items: seq<Json>): (r: Result<seq<Json>, Error>)
    ensures r.Success? <==> forall i :: 0 <= i < |items| ==> items[i].JObj?
    ensures r.Success? ==> |r.value| <= |items|
    ensures r.Success? ==> forall x :: x in r.value <==> exists i :: 0 <= i < |items| && KeepsId(items[i], x)
  {
    if items == [] then Success([])
    else
      match items[0]
      case JObj(f) =>
        (match ListIds(items[1..])
         case Failure(e) =>
           Failure(e)
         case Success(rest) =>
           assert forall i :: 0 < i < |items| ==> items[i] == items[1..][i - 1];
           assert forall x, i :: 0 <= i < |items[1..]| && KeepsId(items[1..][i], x) ==> KeepsId(items[i + 1], x);
           if Truthy(Get(f, "id")) then
             assert KeepsId(items[0], f["id"]);
             Success([f["id"]] + rest)
           else
             Success(rest))
      case _ => Failure(WrongShape)
  }

  /** Line 18 on the list response: the ids whose detail `fetch_articles` fetches, one each. */
  function ArticleIds(list: Json): Result<seq<Json>, Error>
  {
    var items :- Elements(list).ToResult(WrongShape);
    ListIds(items)
  }

  /** The ids of a concatenation are the ids of its parts, in order: the selection keeps the
      list order and looks at one entry at a time. */
  lemma {:induction false} ListIdsAppend(a: seq<Json>, b: seq<Json>)
    ensures ListIds(a + b) == (var x :- ListIds(a); var y :- ListIds(b); Success(x + y))
    decreases |a|
  {
    if a == [] {
      assert a + b == b;
      if ListIds(b).Success? {
        assert [] + ListIds(b).value == ListIds(b).value;
      }
    } else {
      assert (a + b)[0] == a[0];
      assert (a + b)[1..] == a[1..] + b;
      ListIdsAppend(a[1..], b);
      if a[0].JObj? && ListIds(a[1..]).Success? && ListIds(b).Success? {
        var x, y := ListIds(a[1..]).value, ListIds(b).value;
        if Truthy(Get(a[0].fields, "id")) {
          assert [a[0].fields["id"]] + (x + y) == ([a[0].fields["id"]] + x) + y;
        }
      }
    }
  }

  /** The list `[{"id": 1}, {"id": 2}, {}]` yields two ids, so two details are fetched. */
  lemma ListExample()
    ensures ArticleIds(JArr([JObj(map["id" := JNum(1)]), JObj(map["id" := JNum(2)]), JObj(map[])]))
         == Success([JNum(1), JNum(2)])
  {
    var items := [JObj(map["id" := JNum(1)]), JObj(map["id" := JNum(2)]), JObj(map[])];
    assert ListIds(items[2..]) == Success([]) by {
      assert items[2..][1..] == [];
      assert Get(map[], "id") == JNull;
    }
    assert ListIds(items[1..]) == Success([JNum(2)]) by {
      assert items[1..][1..] == items[2..];
      assert Get(map["id" := JNum(2)], "id") == JNum(2);
      assert [JNum(2)] + [] == [JNum(2)];
    }
    assert Get(map["id" := JNum(1)], "id") == JNum(1);
    assert ListIds(items) == Success([JNum(1)] + [JNum(2)]);
    assert [JNum(1)] + [JNum(2)] == [JNum(1), JNum(2)];
    assert Elements(JArr(items)) == Some(items);
  }

  /** Falsy ids (`0`, `""`, `null`) are dropped like missing ones. */
  lemma FalsyIdsExample()
    ensures ArticleIds(JArr([JObj(map["id" := JNum(0)]), JObj(map["id" := JStr("")]),
                             JObj(map["id" := JNull]), JObj(map["id" := JStr("a")])]))
         == Success([JStr("a")])
  {
    var items := [JObj(map["id" := JNum(0)]), JObj(map["id" := JStr("")]),
                  JObj(map["id" := JNull]), JObj(map["id" := JStr("a")])];
    assert ListIds(items[3..]) == Success([JStr("a")]) by {
      assert items[3..][1..] == [];
      assert Get(map["id" := JStr("a")], "id") == JStr("a");
      assert [JStr("a")] + [] == [JStr("a")];
    }
    assert ListIds(items[2..]) == Success([JStr("a")]) by {
      assert items[2..][1..] == items[3..];
      assert Get(map["id" := JNull], "id") == JNull;
    }
    assert ListIds(items[1..]) == Success([JStr("a")]) by {
      assert items[1..][1..] == items[2..];
      assert Get(map["id" := JStr("")], "id") == JStr("");
    }
    assert Get(map["id" := JNum(0)], "id") == JNum(0);
    assert Elements(JArr(items)) == Some(items);
  }

  // ---------------------------------------------------------------------------------------
  // The media ids an article references

  /** The section is a dict of type "media" whose id is `x`. */
  predicate ReferencesMedia(section: Json, x: Json)
  {
    && section.JObj?
    && "type" in section.fields && section.fields["type"] == JStr("media")
    && "id" in section.fields && section.fields["id"] == x
  }

  /** The section can be looked at by line 32: a dict with a type, and an id if it is a media section. */
  predicate Inspectable(section: Json)
  {
    && section.JObj?
    && "type" in section.fields
    && (section.fields["type"] == JStr("media") ==> "id" in section.fields)
  }

  /** `[section["id"] for section in sections if section["type"] == "media"]` */
  function MediaIdsOf(sections: seq<Json>): (r: Result<seq<Json>, Error>)
    ensures r.Success? <==> forall i :: 0 <= i < |sections| ==> Inspectable(sections[i])
    ensures r.Success? ==>
      forall x :: x in r.value <==> exists i :: 0 <= i < |sections| && ReferencesMedia(sections[i], x)
  {
    if sections == [] then Success([])
    else
      match sections[0]
      case JObj(f) =>
        if "type" !in f then Failure(KeyMissing(JStr("type")))
        else if f["type"] == JStr("media") && "id" !in f then Failure(KeyMissing(JStr("id")))
        else
          (match MediaIdsOf(sections[1..])
           case Failure(e) =>
             Failure(e)
           case Success(rest) =>
             assert forall i :: 0 < i < |sections| ==> sections[i] == sections[1..][i - 1];
             assert forall x, i :: 0 <= i < |sections[1..]| && ReferencesMedia(sections[1..][i], x) ==>
               ReferencesMedia(sections[i + 1], x);
             if f["type"] == JStr("media") then
               assert ReferencesMedia(sections[0], f["id"]);
               Success([f["id"]] + rest)
             else
               Success(rest))
      case _ => Failure(WrongShape)
  }

  /** Line 32 on the detail record. */
  function MediaIds(detail: Obj): Result<seq<Json>, Error>
  {
    if "sections" !in detail then Failure(KeyMissing(JStr("sections")))
    else
      var sections :- Elements(detail["sections"]).ToResult(WrongShape);
      MediaIdsOf(sections)
  }

  // ---------------------------------------------------------------------------------------
  // The media records kept

  /** The fetched record is a dict whose id is among `ids`. */
  predicate Selected(m: Json, ids: seq<Json>)
  {
    m.JObj? && "id" in m.fields && m.fields["id"] in ids
  }

  /** The fetched record is a selected dict with id `k` that `MediaHandler.validate` turns into `v`. */
  predicate NormalizesTo(m: Json, ids: seq<Json>, now: string, k: Json, v: Obj)
  {
    Selected(m, ids) && m.fields["id"] == k && AddDates(m.fields, now) == Success(v)
  }

  /** The ids of the selected records. */
  function SelectedIds(medias: seq<Json>, ids: seq<Json>): set<Json>
  {
    set i | 0 <= i < |medias| && Selected(medias[i], ids) :: medias[i].fields["id"]
  }

  /** The record can be looked at by lines 34-36: a dict with an id; when selected, its dates
      validate and its id can be a dict key. */
  predicate Admissible(m: Json, ids: seq<Json>, now: string)
  {
    && m.JObj? && "id" in m.fields
    && (m.fields["id"] in ids ==> AddDates(m.fields, now).Success? && Hashable(m.fields["id"]))
  }

  /** `{media["id"]: MediaHandler(media).validate() for media in medias if media["id"] in ids}`,
      added to `acc`; a later record with the same id replaces an earlier one. */
  function SelectMedia(medias: seq<Json>, ids: seq<Json>, now: string, acc: map<Json, Obj>): Result<map<Json, Obj>, Error>
    decreases |medias|
  {
    if medias == [] then Success(acc)
    else
      var m := medias[0];
      if !m.JObj? then Failure(WrongShape)
      else if "id" !in m.fields then Failure(KeyMissing(JStr("id")))
      else if m.fields["id"] !in ids then SelectMedia(medias[1..], ids, now, acc)
      else
        var v :- AddDates(m.fields, now);
        if !Hashable(m.fields["id"]) then Failure(WrongShape)
        else SelectMedia(medias[1..], ids, now, acc[m.fields["id"] := v])
  }

  lemma SelectedIdsTail(medias: seq<Json>, ids: seq<Json>)
    requires medias != []
    ensures SelectedIds(medias, ids) ==
      (if Selected(medias[0], ids) then {medias[0].fields["id"]} else {}) + SelectedIds(medias[1..], ids)
  {
    var head := if Selected(medias[0], ids) then {medias[0].fields["id"]} else {};
    forall k | k in SelectedIds(medias, ids)
      ensures k in head + SelectedIds(medias[1..], ids)
    {
      var i :| 0 <= i < |medias| && Selected(medias[i], ids) && medias[i].fields["id"] == k;
      if i > 0 {
        assert medias[1..][i - 1] == medias[i];
      }
    }
    forall k | k in SelectedIds(medias[1..], ids)
      ensures k in SelectedIds(medias, ids)
    {
      var i :| 0 <= i < |medias[1..]| && Selected(medias[1..][i], ids) && medias[1..][i].fields["id"] == k;
      assert medias[i + 1] == medias[1..][i];
    }
  }

  /** Record `i` is selected and no later record is selected under the same id. */
  predicate LastSelected(medias: seq<Json>, ids: seq<Json>, i: int)
    requires 0 <= i < |medias|
  {
    && Selected(medias[i], ids)
    && forall j :: i < j < |medias| ==> !(Selected(medias[j], ids) && medias[j].fields["id"] == medias[i].fields["id"])
  }

  /** The selection succeeds exactly when every record is admissible. Its keys are then the
      keys of `acc` and the ids of the selected records, and each value is the one in `acc` or
      the date-normalised form of a selected record with that key as id. */
  lemma SelectMediaSpec(medias: seq<Json>, ids: seq<Json>, now: string, acc: map<Json, Obj>)
    ensures SelectMedia(medias, ids, now, acc).Success? <==>
      forall i :: 0 <= i < |medias| ==> Admissible(medias[i], ids, now)
    ensures SelectMedia(medias, ids, now, acc).Success? ==>
      var r := SelectMedia(medias, ids, now, acc).value;
      && r.Keys == acc.Keys + SelectedIds(medias, ids)
      && forall k :: k in r ==>
           (k in acc && r[k] == acc[k]) || exists i :: 0 <= i < |medias| && NormalizesTo(medias[i], ids, now, k, r[k])
  {
    SelectMediaSucceeds(medias, ids, now, acc);
    if SelectMedia(medias, ids, now, acc).Success? {
      SelectMediaContents(medias, ids, now, acc);
    }
  }

  lemma {:induction false} SelectMediaSucceeds(medias: seq<Json>, ids: seq<Json>, now: string, acc: map<Json, Obj>)
    ensures SelectMedia(medias, ids, now, acc).Success? <==>
      forall i :: 0 <= i < |medias| ==> Admissible(medias[i], ids, now)
    decreases |medias|
  {
    if medias != [] {
      var m := medias[0];
      assert forall i :: 0 < i < |medias| ==> medias[i] == medias[1..][i - 1];
      if m.JObj? && "id" in m.fields {
        var next := if m.fields["id"] in ids && AddDates(m.fields, now).Success?
                    then acc[m.fields["id"] := AddDates(m.fields, now).value] else acc;
        SelectMediaSucceeds(medias[1..], ids, now, next);
      }
    }
  }

  lemma {:induction false} SelectMediaContents(medias: seq<Json>, ids: seq<Json>, now: string, acc: map<Json, Obj>)
    requires SelectMedia(medias, ids, now, acc).Success?
    ensures var r := SelectMedia(medias, ids, now, acc).value;
      && r.Keys == acc.Keys + SelectedIds(medias, ids)
      && forall k :: k in r ==>
           (k in acc && r[k] == acc[k]) || exists i :: 0 <= i < |medias| && NormalizesTo(medias[i], ids, now, k, r[k])
    decreases |medias|
  {
    if medias != [] {
      var m := medias[0];
      var next := if m.fields["id"] in ids then acc[m.fields["id"] := AddDates(m.fields, now).value] else acc;
      assert SelectMedia(medias, ids, now, acc) == SelectMedia(medias[1..], ids, now, next);
      SelectMediaContents(medias[1..], ids, now, next);
      SelectedIdsTail(medias, ids);
      var r := SelectMedia(medias, ids, now, acc).value;
      forall k | k in r
        ensures (k in acc && r[k] == acc[k]) || exists i :: 0 <= i < |medias| && NormalizesTo(medias[i], ids, now, k, r[k])
      {
        if !(k in next && r[k] == next[k]) {
          var i :| 0 <= i < |medias[1..]| && NormalizesTo(medias[1..][i], ids, now, k, r[k]);
          assert medias[i + 1] == medias[1..][i];
          assert NormalizesTo(medias[i + 1], ids, now, k, r[k]);
        } else if Selected(m, ids) && k == m.fields["id"] {
          assert NormalizesTo(medias[0], ids, now, k, r[k]);
        }
      }
    }
  }

  /** Which value a successful selection keeps: a key of `acc` that no record selects keeps
      its value, and the value under a selected id is the date-normalised form of the LAST
      selected record with that id, as a later entry of a dict comprehension overwrites an
      earlier one. */
  lemma {:induction false} SelectMediaLastWins(medias: seq<Json>, ids: seq<Json>, now: string, acc: map<Json, Obj>)
    requires SelectMedia(medias, ids, now, acc).Success?
    ensures var r := SelectMedia(medias, ids, now, acc).value;
      && (forall k :: k in acc && k !in SelectedIds(medias, ids) ==> k in r && r[k] == acc[k])
      && (forall i :: 0 <= i < |medias| && LastSelected(medias, ids, i) ==>
            && medias[i].fields["id"] in r
            && NormalizesTo(medias[i], ids, now, medias[i].fields["id"], r[medias[i].fields["id"]]))
    decreases |medias|
  {
    if medias != [] {
      var m := medias[0];
      assert forall i :: 0 < i < |medias| ==> medias[i] == medias[1..][i - 1];
      var next := if m.fields["id"] in ids then acc[m.fields["id"] := AddDates(m.fields, now).value] else acc;
      assert SelectMedia(medias, ids, now, acc) == SelectMedia(medias[1..], ids, now, next);
      SelectMediaLastWins(medias[1..], ids, now, next);
      SelectedIdsTail(medias, ids);
      var r := SelectMedia(medias, ids, now, acc).value;
      forall i | 0 <= i < |medias| && LastSelected(medias, ids, i)
        ensures medias[i].fields["id"] in r
        ensures NormalizesTo(medias[i], ids, now, medias[i].fields["id"], r[medias[i].fields["id"]])
      {
        if i == 0 {
          LastSelectedNotLater(medias, ids);
        } else {
          assert LastSelected(medias[1..], ids, i - 1);
        }
      }
    }
  }

  /** The id of a first record selected last is selected by none of the later records. */
  lemma LastSelectedNotLater(medias: seq<Json>, ids: seq<Json>)
    requires medias != [] && LastSelected(medias, ids, 0)
    ensures medias[0].fields["id"] !in SelectedIds(medias[1..], ids)
  {
    forall j | 0 <= j < |medias[1..]|
      ensures !(Selected(medias[1..][j], ids) && medias[1..][j].fields["id"] == medias[0].fields["id"])
    {
      assert medias[1..][j] == medias[j + 1];
    }
  }

  /** The keys of the media map are exactly the fetched media ids that are also the id of
      some "media" section of the article, and every value is a record `MediaHandler.validate`
      produced from a fetched record with that id. */
  lemma MediaMapKeys(detail: Obj, medias: seq<Json>, now: string)
    requires MediaIds(detail).Success?
    requires SelectMedia(medias, MediaIds(detail).value, now, map[]).Success?
    ensures "sections" in detail && Elements(detail["sections"]).Some?
    ensures var sections := Elements(detail["sections"]).value;
      var ids := MediaIds(detail).value;
      var r := SelectMedia(medias, ids, now, map[]).value;
      && (forall k :: k in r <==>
            (exists i :: 0 <= i < |medias| && medias[i].JObj? && "id" in medias[i].fields && medias[i].fields["id"] == k)
            && (exists j :: 0 <= j < |sections| && ReferencesMedia(sections[j], k)))
      && (forall k :: k in r ==> exists i :: 0 <= i < |medias| && NormalizesTo(medias[i], ids, now, k, r[k]))
  {
    var sections := Elements(detail["sections"]).value;
    var ids := MediaIds(detail).value;
    SelectMediaSpec(medias, ids, now, map[]);
    var r := SelectMedia(medias, ids, now, map[]).value;
    forall k
      ensures k in r <==>
        (exists i :: 0 <= i < |medias| && medias[i].JObj? && "id" in medias[i].fields && medias[i].fields["id"] == k)
        && (exists j :: 0 <= j < |sections| && ReferencesMedia(sections[j], k))
    {
      if k in r {
        var i :| 0 <= i < |medias| && Selected(medias[i], ids) && medias[i].fields["id"] == k;
        assert k in ids;
      }
      if (exists i :: 0 <= i < |medias| && medias[i].JObj? && "id" in medias[i].fields && medias[i].fields["id"] == k)
         && (exists j :: 0 <= j < |sections| && ReferencesMedia(sections[j], k)) {
        var i :| 0 <= i < |medias| && medias[i].JObj? && "id" in medias[i].fields && medias[i].fields["id"] == k;
        assert k in ids;
        assert Selected(medias[i], ids);
        assert k in SelectedIds(medias, ids);
      }
    }
  }

  // ---------------------------------------------------------------------------------------
  // One article

  /** The media collection `fetch_media` returns: the decoded response, or `[]` when decoding
      raised (`None` here). */
  function MediaCollection(fetched: Option<Json>): Json
  {
    match fetched
    case Some(j) => j
    case None => JArr([])
  }

  /** The record `fetch_article` hands to `Article(**data)`: media ids of the sections, the
      selected and normalised media, the normalised article, and `url` set to the detail URL. */
  function ArticleRecord(detail: Json, fetched: Option<Json>, now: string, url: string): Result<Obj, Error>
  {
    if !detail.JObj? then Failure(WrongShape)
    else
      var ids :- MediaIds(detail.fields);
      var medias :- Elements(MediaCollection(fetched)).ToResult(WrongShape);
      var media :- SelectMedia(medias, ids, now, map[]);
      var data :- NormalizedArticle(detail.fields, media, now);
      Success(data["url" := JStr(url)])
  }

  /** `fetch_article` once the detail and media responses are in: it builds the two handlers'
      results and sets `url`. */
  method FetchArticle(detail: Json, fetched: Option<Json>, now: string, url: string) returns (r: Result<Obj, Error>)
    ensures r == ArticleRecord(detail, fetched, now, url)
  {
    if !detail.JObj? {
      return Failure(WrongShape);
    }
    var ids := MediaIds(detail.fields);
    if ids.Failure? {
      return Failure(ids.error);
    }
    var medias := Elements(MediaCollection(fetched));
    if medias.None? {
      return Failure(WrongShape);
    }
    var media := SelectMedia(medias.value, ids.value, now, map[]);
    if media.Failure? {
      return Failure(media.error);
    }
    var handler := new ArticleHandler(detail.fields, media.value);
    var data := handler.Validate(now);
    if data.Failure? {
      return Failure(data.error);
    }
    r := Success(data.value["url" := JStr(url)]);
  }

  /** The record carries the detail URL and both validated dates; section `i` is the
      rewriting of detail section `i` against the selected media, in the original order; the
      detail's other keys are kept. */
  lemma ArticleRecordShape(detail: Json, fetched: Option<Json>, now: string, url: string)
    requires ArticleRecord(detail, fetched, now, url).Success?
    ensures detail.JObj? && "sections" in detail.fields && Elements(detail.fields["sections"]).Some?
    ensures MediaIds(detail.fields).Success? && Elements(MediaCollection(fetched)).Some?
    ensures SelectMedia(Elements(MediaCollection(fetched)).value, MediaIds(detail.fields).value, now, map[]).Success?
    ensures var r := ArticleRecord(detail, fetched, now, url).value;
      var sections := Elements(detail.fields["sections"]).value;
      var media := SelectMedia(Elements(MediaCollection(fetched)).value, MediaIds(detail.fields).value, now, map[]).value;
      && r.Keys == detail.fields.Keys + {PublicationDate, ModificationDate, "url"}
      && r["url"] == JStr(url)
      && r[PublicationDate] == JStr(ValidateDate(Get(detail.fields, "pub_date"), Dates.PublicationFormat, now).value)
      && r[ModificationDate] == JStr(ValidateDate(Get(detail.fields, "mod_date"), Dates.ModificationFormat, now).value)
      && r["sections"].JArr? && |r["sections"].items| == |sections|
      && (forall i :: 0 <= i < |sections| ==> r["sections"].items[i] == RewriteSection(sections[i], media).value)
      && forall k :: k in detail.fields && k !in {PublicationDate, ModificationDate, "sections", "url"} ==>
           r[k] == detail.fields[k]
  {
  }

  /** A media collection that failed to decode is an empty one: no media is kept, the record
      is the article normalised against an empty media map, and an article that references
      any media then fails. */
  lemma UndecodableMedia(detail: Obj, now: string, url: string)
    requires MediaIds(detail).Success?
    ensures SelectMedia([], MediaIds(detail).value, now, map[]) == Success(map[])
    ensures Elements(MediaCollection(None)) == Some([])
    ensures ArticleRecord(JObj(detail), None, now, url) ==
      (var data :- NormalizedArticle(detail, map[], now); Success(data["url" := JStr(url)]))
    ensures MediaIds(detail).value != [] ==> ArticleRecord(JObj(detail), None, now, url).Failure?
  {
    var ids := MediaIds(detail).value;
    if ids != [] && ArticleRecord(JObj(detail), None, now, url).Success? {
      var sections := Elements(detail["sections"]).value;
      assert ids[0] in ids;
      var i :| 0 <= i < |sections| && ReferencesMedia(sections[i], ids[0]);
      NormalizedArticleShape(detail, map[], now);
      assert false;
    }
  }

  // ---------------------------------------------------------------------------------------
  // An article with one media section and one text section

  const MediaSection: Obj := map["type" := JStr("media"), "id" := JStr("m1")]
  const TextSection: Obj := map["type" := JStr("text"), "text" := JStr("<p>Hi</p>")]
  const Detail: Obj := map["sections" := JArr([JObj(MediaSection), JObj(TextSection)]), "pub_date" := JNull]
  const MediaRecord: Obj := map["id" := JStr("m1"), "pub_date" := JStr("2024-01-02-03;04;05")]

  /** The normalised media record: its publication date in ISO form, its modification date "now". */
  function NormalizedMedia(now: string): Obj
  {
    MediaRecord[PublicationDate := JStr("2024-01-02T03:04:05")][ModificationDate := JStr(now)]
  }

  lemma ScenarioMediaIds()
    ensures MediaIds(Detail) == Success([JStr("m1")])
  {
    var sections := [JObj(MediaSection), JObj(TextSection)];
    assert Elements(Detail["sections"]) == Some(sections);
    assert sections[1..][1..] == [];
    assert MediaIdsOf(sections[1..]) == Success([]);
    assert [JStr("m1")] + [] == [JStr("m1")];
  }

  /** A media record with an id and a publication date only. */
  lemma DatesOfMediaRecord(id: Json, s: string, now: string, iso: string)
    requires ValidateDate(JStr(s), Dates.PublicationFormat, now) == Success(iso)
    ensures var m := map["id" := id, "pub_date" := JStr(s)];
      AddDates(m, now) == Success(m[PublicationDate := JStr(iso)][ModificationDate := JStr(now)])
  {
  }

  lemma ScenarioMediaDates(now: string)
    ensures AddDates(MediaRecord, now) == Success(NormalizedMedia(now))
  {
    Dates.RenderExample();
    Dates.IsoExample();
    ValidateDateRoundTrip(Dates.DateTime(2024, 1, 2, 3, 4, 5), Dates.PublicationFormat, now);
    DatesOfMediaRecord(JStr("m1"), "2024-01-02-03;04;05", now, "2024-01-02T03:04:05");
  }

  /** Selecting one record whose id is wanted. */
  lemma SelectOne(m: Obj, ids: seq<Json>, now: string, v: Obj)
    requires "id" in m && m["id"] in ids && Hashable(m["id"]) && AddDates(m, now) == Success(v)
    ensures SelectMedia([JObj(m)], ids, now, map[]) == Success(map[m["id"] := v])
  {
    assert [JObj(m)][0] == JObj(m);
    assert [JObj(m)][1..] == [];
  }

  lemma ScenarioMedia(now: string)
    ensures SelectMedia([JObj(MediaRecord)], [JStr("m1")], now, map[]) == Success(map[JStr("m1") := NormalizedMedia(now)])
  {
    ScenarioMediaDates(now);
    assert MediaRecord["id"] == JStr("m1");
    SelectOne(MediaRecord, [JStr("m1")], now, NormalizedMedia(now));
  }

  lemma ScenarioMediaSection(now: string)
    ensures RewriteSection(JObj(MediaSection), map[JStr("m1") := NormalizedMedia(now)])
         == Success(JObj(MediaSection + NormalizedMedia(now)))
  {
    assert MediaSection["type"] == JStr("media");
    assert MediaSection["id"] == JStr("m1");
  }

  lemma ScenarioTextSection(media: map<Json, Obj>)
    ensures RewriteSection(JObj(TextSection), media) == Success(JObj(TextSection["text" := JStr("Hi")]))
  {
    Markup.StripTagsExample();
    assert TextSection["type"] == JStr("text");
    assert TextSection["text"] == JStr("<p>Hi</p>");
  }

  /** Two sections whose rewritings are known. */
  lemma TwoSections(a: Json, b: Json, media: map<Json, Obj>, x: Json, y: Json)
    requires RewriteSection(a, media) == Success(x) && RewriteSection(b, media) == Success(y)
    ensures RewriteSections([a, b], media) == Success([x, y])
  {
    var r := RewriteSections([a, b], media);
    assert [a, b][0] == a && [a, b][1] == b;
    assert r.Success? && |r.value| == 2 && r.value[0] == x && r.value[1] == y;
    assert r.value == [x, y];
  }

  lemma ScenarioSections(now: string)
    ensures RewriteSections([JObj(MediaSection), JObj(TextSection)], map[JStr("m1") := NormalizedMedia(now)])
         == Success([JObj(MediaSection + NormalizedMedia(now)), JObj(TextSection["text" := JStr("Hi")])])
  {
    var media := map[JStr("m1") := NormalizedMedia(now)];
    ScenarioMediaSection(now);
    ScenarioTextSection(media);
    TwoSections(JObj(MediaSection), JObj(TextSection), media,
      JObj(MediaSection + NormalizedMedia(now)), JObj(TextSection["text" := JStr("Hi")]));
  }

  lemma ScenarioArticle(now: string)
    ensures NormalizedArticle(Detail, map[JStr("m1") := NormalizedMedia(now)], now)
         == Success(Detail[PublicationDate := JStr(now)][ModificationDate := JStr(now)]
                          ["sections" := JArr([JObj(MediaSection + NormalizedMedia(now)),
                                               JObj(TextSection["text" := JStr("Hi")])])])
  {
    ScenarioSections(now);
    var dated := Detail[PublicationDate := JStr(now)][ModificationDate := JStr(now)];
    assert AddDates(Detail, now) == Success(dated);
    assert dated["sections"] == JArr([JObj(MediaSection), JObj(TextSection)]);
  }

  /** The media section gets the normalised media record merged in, with the publication date
      derived from the record's string; the text section's text is "Hi"; the article's own
      publication date, missing from the detail, is "now". */
  lemma ScenarioExample(now: string, url: string)
    ensures ArticleRecord(JObj(Detail), Some(JArr([JObj(MediaRecord)])), now, url)
         == Success(Detail[PublicationDate := JStr(now)][ModificationDate := JStr(now)]
                          ["sections" := JArr([JObj(MediaSection + NormalizedMedia(now)),
                                               JObj(TextSection["text" := JStr("Hi")])])]
                          ["url" := JStr(url)])
    ensures (MediaSection + NormalizedMedia(now))[PublicationDate] == JStr("2024-01-02T03:04:05")
  {
    ScenarioMediaIds();
    assert Elements(MediaCollection(Some(JArr([JObj(MediaRecord)])))) == Some([JObj(MediaRecord)]);
    ScenarioMedia(now);
    ScenarioArticle(now);
  }

  const TextOnlyDetail: Obj := map["sections" := JArr([JObj(TextSection)])]

  lemma TextOnlyMediaIds()
    ensures MediaIds(TextOnlyDetail) == Success([])
  {
    assert Elements(TextOnlyDetail["sections"]) == Some([JObj(TextSection)]);
    assert [JObj(TextSection)][1..] == [];
    assert TextSection["type"] == JStr("text");
    assert MediaIdsOf([]) == Success([]);
    assert MediaIdsOf([JObj(TextSection)]) == Success([]);
  }

  lemma OneSection(a: Json, media: map<Json, Obj>, x: Json)
    requires RewriteSection(a, media) == Success(x)
    ensures RewriteSections([a], media) == Success([x])
  {
    var r := RewriteSections([a], media);
    assert [a][0] == a;
    assert r.Success? && |r.value| == 1 && r.value[0] == x;
    assert r.value == [x];
  }

  lemma TextOnlyArticle(now: string)
    ensures NormalizedArticle(TextOnlyDetail, map[], now)
         == Success(TextOnlyDetail[PublicationDate := JStr(now)][ModificationDate := JStr(now)]
                                  ["sections" := JArr([JObj(TextSection["text" := JStr("Hi")])])])
  {
    ScenarioTextSection(map[]);
    OneSection(JObj(TextSection), map[], JObj(TextSection["text" := JStr("Hi")]));
    AddDatesUndated(TextOnlyDetail, now);
    var dated := TextOnlyDetail[PublicationDate := JStr(now)][ModificationDate := JStr(now)];
    assert dated["sections"] == JArr([JObj(TextSection)]);
  }

  /** A media collection that does not decode does not fail an article without media sections. */
  lemma UndecodableMediaExample(now: string, url: string)
    ensures ArticleRecord(JObj(TextOnlyDetail), None, now, url)
         == Success(TextOnlyDetail[PublicationDate := JStr(now)][ModificationDate := JStr(now)]
                                  ["sections" := JArr([JObj(TextSection["text" := JStr("Hi")])])]
                                  ["url" := JStr(url)])
  {
    TextOnlyMediaIds();
    assert Elements(MediaCollection(None)) == Some([]);
    assert SelectMedia([], [], now, map[]) == Success(map[]);
    TextOnlyArticle(now);
  }
}
