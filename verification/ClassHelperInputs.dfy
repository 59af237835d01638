/** Class-package content, its JSON snapshots, and the input checks that every stored content has passed. */
module ClassHelperInputs {
  import opened Texts
  import opened Wrappers

  /** The text fields that a revision records. */
  datatype Field =
    | Category | Title | LessonId | BadukMissionId | TargetGrade | LessonDuration
    | MainContent | Introduction | Concept | Problem | Quiz | WrapUp

  /** The six required assets. */
  datatype Kind = ProjectorPpt | ActivityPdf | HistoryQuiz | ProblemMission | Answer | TeacherGuide

  const ALL_KINDS: set<Kind> := set k: Kind | true
  const KINDS: seq<Kind> := [ProjectorPpt, ActivityPdf, HistoryQuiz, ProblemMission, Answer, TeacherGuide]

  const CATEGORIES: seq<string> := ["선사시대", "고조선", "삼국시대", "고려", "조선", "근현대"]
  const GRADES: seq<string> := ["초등 1~2학년", "초등 3~4학년", "초등 5~6학년", "전 학년"]

  lemma KindListed(k: Kind)
    ensures exists j :: 0 <= j < |KINDS| && KINDS[j] == k
  {
    var j := match k {
      case ProjectorPpt => 0
      case ActivityPdf => 1
      case HistoryQuiz => 2
      case ProblemMission => 3
      case Answer => 4
      case TeacherGuide => 5
    };
    assert KINDS[j] == k;
  }

  type Content = map<Field, string>
  type AssetIds = map<Kind, string>

  /** The property names in use, one constructor per name; every other name is `Other`. */
  datatype Key =
    | Text(field: Field)
    | File(kind: Kind)
    | AssetIdsKey | IsPublishedKey
    | StatusKey | PublishedAtKey | AssetsKey
    | IdKey | KindKey | ObjectKeyKey | OriginalNameKey | ContentTypeKey | SizeKey | AssetStatusKey
    | Other(name: string)

  /** A stored or received JSON value. */
  datatype Json = Null | Bool(b: bool) | Num(n: int) | Str(s: string) | Arr(items: seq<Json>)
                | Obj(members: map<Key, Json>)

  function MaxLength(f: Field): nat {
    match f
    case Category => 30
    case Title => 160
    case LessonId => 40
    case BadukMissionId => 60
    case TargetGrade => 30
    case LessonDuration => 30
    case MainContent => 20000
    case _ => 10000
  }

  /** The stored name of kind `k`. */
  function KindName(k: Kind): string {
    match k
    case ProjectorPpt => "PROJECTOR_PPT"
    case ActivityPdf => "ACTIVITY_PDF"
    case HistoryQuiz => "HISTORY_QUIZ"
    case ProblemMission => "PROBLEM_MISSION"
    case Answer => "ANSWER"
    case TeacherGuide => "TEACHER_GUIDE"
  }

  function KindOf(name: string): Option<Kind> {
    if name == "PROJECTOR_PPT" then Some(ProjectorPpt)
    else if name == "ACTIVITY_PDF" then Some(ActivityPdf)
    else if name == "HISTORY_QUIZ" then Some(HistoryQuiz)
    else if name == "PROBLEM_MISSION" then Some(ProblemMission)
    else if name == "ANSWER" then Some(Answer)
    else if name == "TEACHER_GUIDE" then Some(TeacherGuide)
    else None
  }

  // ---- Required strings ----------------------------------------------------------------------

  predicate IsSlugChar(c: char) {
    'A' <= c <= 'Z' || 'a' <= c <= 'z' || '0' <= c <= '9' || c == '_' || c == '-'
  }

  predicate IsUuid(s: string) {
    |s| == 36 && forall i :: 0 <= i < |s| ==>
      '0' <= s[i] <= '9' || 'a' <= s[i] <= 'f' || 'A' <= s[i] <= 'F' || s[i] == '-'
  }

  predicate NeedsSlug(f: Field) {
    f == LessonId || f == BadukMissionId
  }

  /** What every stored text field satisfies. */
  predicate ValidText(f: Field, s: string) {
    && Trimmed(s) && 1 <= |s| <= MaxLength(f)
    && (NeedsSlug(f) ==> forall i :: 0 <= i < |s| ==> IsSlugChar(s[i]))
    && (f == Category ==> s in CATEGORIES)
    && (f == TargetGrade ==> s in GRADES)
  }

  /** A required string: present, text, and valid once trimmed. */
  function ReadText(record: map<Key, Json>, f: Field): (r: Option<string>)
    ensures r.Some? ==> ValidText(f, r.value)
  {
    if Text(f) !in record || !record[Text(f)].Str? then None else
    var value := Trim(record[Text(f)].s);
    TrimIsTrimmed(record[Text(f)].s);
    if ValidText(f, value) then Some(value) else None
  }

  function ReadUuid(record: map<Key, Json>, key: Key): (r: Option<string>)
    ensures r.Some? ==> IsUuid(r.value) && Trimmed(r.value)
  {
    if key !in record || !record[key].Str? then None else
    var value := Trim(record[key].s);
    TrimIsTrimmed(record[key].s);
    if IsUuid(value) then Some(value) else None
  }

  ghost predicate ValidContent(c: Content) {
    forall f: Field :: f in c && ValidText(f, c[f])
  }

  ghost predicate Injective(ids: AssetIds) {
    forall k, l :: k in ids && l in ids && ids[k] == ids[l] ==> k == l
  }

  /** One id per kind, all different. */
  ghost predicate ValidAssetIds(ids: AssetIds) {
    Injective(ids) && forall k: Kind :: k in ids && IsUuid(ids[k])
  }

  // ---- Create and update input ---------------------------------------------------------------

  datatype CreateInput = CreateInput(content: Content, assetIds: AssetIds, isPublished: bool)

  predicate IsCreateKey(key: Key) {
    key.Text? || key == AssetIdsKey || key == IsPublishedKey
  }

  predicate AllDistinct(ids: AssetIds) {
    forall k, l | k in ids && l in ids :: ids[k] == ids[l] ==> k == l
  }

  /** All twelve text fields; None when one is missing or invalid. */
  function ReadContent(record: map<Key, Json>): (r: Option<Content>)
    ensures r.Some? ==> ValidContent(r.value)
  {
    if exists f: Field :: ReadText(record, f) == None then None
    else Some(map f: Field | true :: ReadText(record, f).value)
  }

  /** One readable id per kind, all different. */
  function PickIds(read: Kind -> Option<string>): (r: Option<AssetIds>)
    ensures r.Some? ==> Injective(r.value) && forall k: Kind :: k in r.value && read(k) == Some(r.value[k])
  {
    if exists k: Kind :: read(k) == None then None
    else
      var ids := map k: Kind | true :: read(k).value;
      if AllDistinct(ids) then Some(ids) else None
  }

  function UuidReader(record: map<Key, Json>): Kind -> Option<string> {
    (k: Kind) => ReadUuid(record, File(k))
  }

  /** All six asset ids, all different. */
  function ReadAssetIds(value: Json): (r: Option<AssetIds>)
    ensures r.Some? ==> ValidAssetIds(r.value)
  {
    if !value.Obj? || (exists key | key in value.members :: !key.File?) then None
    else PickIds(UuidReader(value.members))
  }

  /** The create-request checks; the message of a refusal is not modelled. */
  function ReadCreateInput(body: Json): (r: Option<CreateInput>)
    ensures r.Some? ==> ValidContent(r.value.content) && ValidAssetIds(r.value.assetIds)
  {
    if !body.Obj? || (exists key | key in body.members :: !IsCreateKey(key)) then None else
    var record := body.members;
    var texts := ReadContent(record);
    if texts == None || AssetIdsKey !in record then None else
    var ids := ReadAssetIds(record[AssetIdsKey]);
    if ids == None then None
    else if IsPublishedKey !in record then Some(CreateInput(texts.value, ids.value, true))
    else if !record[IsPublishedKey].Bool? then None
    else Some(CreateInput(texts.value, ids.value, record[IsPublishedKey].b))
  }

  /** The fields an update changes, and the replacement assets. */
  datatype UpdateInput = UpdateInput(texts: Content, assetIds: AssetIds)

  /** Present fields are valid, and replacement ids are all different. */
  ghost predicate ValidUpdate(u: UpdateInput) {
    && (forall f :: f in u.texts ==> ValidText(f, u.texts[f]))
    && Injective(u.assetIds) && forall k :: k in u.assetIds ==> IsUuid(u.assetIds[k])
  }

  /** The asset ids that are present; None when one of them is invalid. */
  function PresentIds(m: map<Key, Json>): (r: Option<AssetIds>)
    ensures r.Some? ==> forall k :: k in r.value ==> IsUuid(r.value[k])
  {
    if exists k: Kind | File(k) in m :: ReadUuid(m, File(k)) == None then None
    else Some(map k: Kind | File(k) in m :: ReadUuid(m, File(k)).value)
  }

  function ReadReplacements(value: Json): (r: Option<AssetIds>)
    ensures r.Some? ==> Injective(r.value) && forall k :: k in r.value ==> IsUuid(r.value[k])
  {
    if !value.Obj? || (exists key | key in value.members :: !key.File?) || value.members == map[] then None else
    var m := value.members;
    var ids := PresentIds(m);
    if ids.Some? && AllDistinct(ids.value) then ids else None
  }

  /** The texts of an update body; None when a present one is invalid. */
  function ReadChanges(record: map<Key, Json>): (r: Option<Content>)
    ensures r.Some? ==> forall f :: f in r.value ==> ValidText(f, r.value[f])
  {
    if exists f: Field | Text(f) in record :: ReadText(record, f) == None then None
    else Some(map f: Field | Text(f) in record :: ReadText(record, f).value)
  }

  /** The update-request checks: at least one key, and every present field valid. */
  function ReadUpdateInput(body: Json): (r: Option<UpdateInput>)
    ensures r.Some? ==> ValidUpdate(r.value)
  {
    if !body.Obj? || (exists key | key in body.members :: !IsCreateKey(key) || key == IsPublishedKey)
       || body.members == map[] then None else
    var record := body.members;
    var texts := ReadChanges(record);
    if texts == None then None
    else if AssetIdsKey !in record then Some(UpdateInput(texts.value, map[]))
    else
      var ids := ReadReplacements(record[AssetIdsKey]);
      if ids == None then None else Some(UpdateInput(texts.value, ids.value))
  }

  // ---- Which texts and ids are accepted ------------------------------------------------------

  /** A stored text by its field: without outer space, not empty, within the field's length, and a slug, a category or a
      grade where the field asks for one. */
  ghost predicate IsText(f: Field, s: string) {
    && s != "" && !IsSpace(s[0]) && !IsSpace(s[|s| - 1])
    && |s| <= (if f == Category || f == TargetGrade || f == LessonDuration then 30
               else if f == LessonId then 40 else if f == BadukMissionId then 60 else if f == Title then 160
               else if f == MainContent then 20_000 else 10_000)
    && (f == LessonId || f == BadukMissionId ==>
          forall i :: 0 <= i < |s| ==>
            'a' <= s[i] <= 'z' || 'A' <= s[i] <= 'Z' || '0' <= s[i] <= '9' || s[i] == '_' || s[i] == '-')
    && (f == Category ==> s in {"선사시대", "고조선", "삼국시대", "고려", "조선", "근현대"})
    && (f == TargetGrade ==> s in {"초등 1~2학년", "초등 3~4학년", "초등 5~6학년", "전 학년"})
  }

  lemma TextsAreExact(f: Field, s: string)
    ensures ValidText(f, s) <==> IsText(f, s)
  {
    assert s in CATEGORIES <==> s in {"선사시대", "고조선", "삼국시대", "고려", "조선", "근현대"};
    assert s in GRADES <==> s in {"초등 1~2학년", "초등 3~4학년", "초등 5~6학년", "전 학년"};
  }

  /** 36 hexadecimal digits and hyphens, in any case. */
  ghost predicate IsId(s: string) {
    |s| == 36 && forall i :: 0 <= i < 36 ==>
      '0' <= s[i] <= '9' || 'a' <= s[i] <= 'f' || 'A' <= s[i] <= 'F' || s[i] == '-'
  }

  /** The stored names of the kinds. */
  lemma KindNamesAre()
    ensures KindOf("PROJECTOR_PPT") == Some(ProjectorPpt) && KindOf("ACTIVITY_PDF") == Some(ActivityPdf)
    ensures KindOf("HISTORY_QUIZ") == Some(HistoryQuiz) && KindOf("PROBLEM_MISSION") == Some(ProblemMission)
    ensures KindOf("ANSWER") == Some(Answer) && KindOf("TEACHER_GUIDE") == Some(TeacherGuide)
    ensures forall s: string :: KindOf(s).Some? ==>
              s in {"PROJECTOR_PPT", "ACTIVITY_PDF", "HISTORY_QUIZ", "PROBLEM_MISSION", "ANSWER", "TEACHER_GUIDE"}
  {
  }

  // ---- Which bodies are accepted -------------------------------------------------------------

  /** The member gives the text field `s`, trimmed and valid. */
  ghost predicate TextGiven(record: map<Key, Json>, f: Field, s: string) {
    Text(f) in record && record[Text(f)].Str? && Trim(record[Text(f)].s) == s && IsText(f, s)
  }

  ghost predicate IdGiven(record: map<Key, Json>, k: Kind, id: string) {
    File(k) in record && record[File(k)].Str? && Trim(record[File(k)].s) == id && IsId(id)
  }

  /** An object of asset ids only, which gives exactly `ids`, all different. */
  ghost predicate GivesIds(value: Json, ids: AssetIds) {
    && value.Obj? && (forall key :: key in value.members ==> key.File?)
    && (forall k: Kind :: k in ids <==> File(k) in value.members)
    && (forall k :: k in ids ==> IdGiven(value.members, k, ids[k])) && Injective(ids)
  }

  ghost predicate GivesTexts(record: map<Key, Json>, c: Content) {
    forall f: Field :: f in c && TextGiven(record, f, c[f])
  }

  ghost predicate GivesAllIds(value: Json, ids: AssetIds) {
    GivesIds(value, ids) && forall k: Kind :: k in ids
  }

  /** A body that asks to create exactly `input`. */
  ghost predicate IsCreateBody(body: Json, input: CreateInput) {
    && body.Obj?
    && (forall key :: key in body.members ==> key.Text? || key == AssetIdsKey || key == IsPublishedKey)
    && GivesTexts(body.members, input.content)
    && AssetIdsKey in body.members && GivesAllIds(body.members[AssetIdsKey], input.assetIds)
    && if IsPublishedKey in body.members then body.members[IsPublishedKey] == Bool(input.isPublished)
       else input.isPublished
  }

  /** The present text fields, and only these, are changed to what they give. */
  ghost predicate GivesChanges(record: map<Key, Json>, texts: Content) {
    && (forall f: Field :: f in texts <==> Text(f) in record)
    && (forall f :: f in texts ==> TextGiven(record, f, texts[f]))
  }

  ghost predicate GivesSomeIds(value: Json, ids: AssetIds) {
    GivesIds(value, ids) && ids != map[]
  }

  /** A body that asks for exactly the changes `update`, of which there is at least one. */
  ghost predicate IsUpdateBody(body: Json, update: UpdateInput) {
    && body.Obj? && (forall key :: key in body.members ==> key.Text? || key == AssetIdsKey) && body.members != map[]
    && GivesChanges(body.members, update.texts)
    && if AssetIdsKey in body.members then GivesSomeIds(body.members[AssetIdsKey], update.assetIds)
       else update.assetIds == map[]
  }

  lemma ReadTextIsExact(record: map<Key, Json>, f: Field, s: string)
    ensures ReadText(record, f) == Some(s) <==> TextGiven(record, f, s)
  {
    TextsAreExact(f, s);
  }

  lemma ReadUuidIsExact(record: map<Key, Json>, k: Kind, id: string)
    ensures ReadUuid(record, File(k)) == Some(id) <==> IdGiven(record, k, id)
  {
  }

  lemma GivenTextsRead(record: map<Key, Json>, c: Content)
    requires GivesTexts(record, c)
    ensures ReadContent(record) == Some(c)
  {
    forall f: Field
      ensures f in c && ReadText(record, f) == Some(c[f])
    {
      ReadTextIsExact(record, f, c[f]);
    }
    ContentFromTexts(record, c);
  }

  lemma ReadTextsAreGiven(record: map<Key, Json>, c: Content)
    requires ReadContent(record) == Some(c)
    ensures GivesTexts(record, c)
  {
    forall f: Field
      ensures f in c && TextGiven(record, f, c[f])
    {
      assert f in c && ReadText(record, f) == Some(c[f]);
      ReadTextIsExact(record, f, c[f]);
    }
  }

  lemma GivenIdsRead(value: Json, ids: AssetIds)
    requires GivesAllIds(value, ids)
    ensures ReadAssetIds(value) == Some(ids)
  {
    var read := UuidReader(value.members);
    forall k: Kind
      ensures k in ids && read(k) == Some(ids[k])
    {
      ReadUuidIsExact(value.members, k, ids[k]);
    }
    FileKeysRead(value.members);
    PickedIds(read, ids);
  }

  lemma ReadIdsAreGiven(value: Json, ids: AssetIds)
    requires ReadAssetIds(value) == Some(ids)
    ensures GivesAllIds(value, ids)
  {
    forall k: Kind
      ensures k in ids && File(k) in value.members && IdGiven(value.members, k, ids[k])
    {
      assert UuidReader(value.members)(k) == Some(ids[k]);
      ReadUuidIsExact(value.members, k, ids[k]);
    }
  }

  /** What a create body with known keys is read as, from what its texts and ids are read as. */
  lemma CreateSteps(body: Json, texts: Option<Content>, ids: Option<AssetIds>)
    requires body.Obj? && (forall key :: key in body.members ==> IsCreateKey(key)) && AssetIdsKey in body.members
    requires ReadContent(body.members) == texts && ReadAssetIds(body.members[AssetIdsKey]) == ids
    ensures ReadCreateInput(body) ==
            if texts == None || ids == None then None
            else if IsPublishedKey !in body.members then Some(CreateInput(texts.value, ids.value, true))
            else if !body.members[IsPublishedKey].Bool? then None
            else Some(CreateInput(texts.value, ids.value, body.members[IsPublishedKey].b))
  {
  }

  /** A create request is accepted exactly when its body asks for the input it is read as. */
  lemma CreateInputIsExact(body: Json, input: CreateInput)
    ensures ReadCreateInput(body) == Some(input) <==> IsCreateBody(body, input)
  {
    if IsCreateBody(body, input) {
      GivenTextsRead(body.members, input.content);
      GivenIdsRead(body.members[AssetIdsKey], input.assetIds);
      CreateSteps(body, Some(input.content), Some(input.assetIds));
    } else if ReadCreateInput(body) == Some(input) {
      ReadCreateIsBody(body, input);
    }
  }

  lemma ReadCreateIsBody(body: Json, input: CreateInput)
    requires ReadCreateInput(body) == Some(input)
    ensures IsCreateBody(body, input)
  {
    CreateSteps(body, ReadContent(body.members), ReadAssetIds(body.members[AssetIdsKey]));
    ReadTextsAreGiven(body.members, input.content);
    ReadIdsAreGiven(body.members[AssetIdsKey], input.assetIds);
  }

  lemma GivenReplacementsRead(value: Json, ids: AssetIds)
    requires GivesSomeIds(value, ids)
    ensures ReadReplacements(value) == Some(ids)
  {
    var m := value.members;
    forall k: Kind | k in ids
      ensures File(k) in m && ReadUuid(m, File(k)) == Some(ids[k])
    {
      ReadUuidIsExact(m, k, ids[k]);
    }
    var k :| k in ids;
    assert File(k) in m;
    PresentIdsAre(m, ids);
  }

  lemma PresentIdsAre(m: map<Key, Json>, ids: AssetIds)
    requires forall k: Kind :: k in ids <==> File(k) in m
    requires forall k :: k in ids ==> ReadUuid(m, File(k)) == Some(ids[k])
    ensures PresentIds(m) == Some(ids)
  {
    assert (map k: Kind | File(k) in m :: ReadUuid(m, File(k)).value) == ids;
  }

  lemma ReadReplacementsAreGiven(value: Json, ids: AssetIds)
    requires ReadReplacements(value) == Some(ids)
    ensures GivesSomeIds(value, ids)
  {
    var m := value.members;
    var key :| key in m;
    assert File(key.kind) in m;
    forall k: Kind | k in ids
      ensures File(k) in m && IdGiven(m, k, ids[k])
    {
      ReadUuidIsExact(m, k, ids[k]);
    }
  }

  lemma GivenChangesRead(record: map<Key, Json>, texts: Content)
    requires GivesChanges(record, texts)
    ensures ReadChanges(record) == Some(texts)
  {
    forall f: Field | Text(f) in record
      ensures f in texts && ReadText(record, f) == Some(texts[f])
    {
      ReadTextIsExact(record, f, texts[f]);
    }
    assert (map f: Field | Text(f) in record :: ReadText(record, f).value) == texts;
  }

  lemma ReadChangesAreGiven(record: map<Key, Json>, texts: Content)
    requires ReadChanges(record) == Some(texts)
    ensures GivesChanges(record, texts)
  {
    forall f | f in texts
      ensures TextGiven(record, f, texts[f])
    {
      ReadTextIsExact(record, f, texts[f]);
    }
  }

  lemma UpdateSteps(body: Json, texts: Option<Content>)
    requires body.Obj? && (forall key :: key in body.members ==> IsCreateKey(key) && key != IsPublishedKey)
             && body.members != map[]
    requires ReadChanges(body.members) == texts
    ensures ReadUpdateInput(body) ==
            if texts == None then None
            else if AssetIdsKey !in body.members then Some(UpdateInput(texts.value, map[]))
            else match ReadReplacements(body.members[AssetIdsKey])
                 case None => None
                 case Some(ids) => Some(UpdateInput(texts.value, ids))
  {
  }

  /** An update request is accepted exactly when its body asks for the changes it is read as. */
  lemma UpdateInputIsExact(body: Json, update: UpdateInput)
    ensures ReadUpdateInput(body) == Some(update) <==> IsUpdateBody(body, update)
  {
    if IsUpdateBody(body, update) {
      GivenChangesRead(body.members, update.texts);
      if AssetIdsKey in body.members {
        GivenReplacementsRead(body.members[AssetIdsKey], update.assetIds);
      }
      UpdateSteps(body, Some(update.texts));
    } else if ReadUpdateInput(body) == Some(update) {
      ReadUpdateIsBody(body, update);
    }
  }

  lemma ReadUpdateIsBody(body: Json, update: UpdateInput)
    requires ReadUpdateInput(body) == Some(update)
    ensures IsUpdateBody(body, update)
  {
    UpdateSteps(body, ReadChanges(body.members));
    ReadChangesAreGiven(body.members, update.texts);
    if AssetIdsKey in body.members {
      ReadReplacementsAreGiven(body.members[AssetIdsKey], update.assetIds);
    }
  }

  /** An accepted update changes something. */
  lemma UpdatesChangeSomething(body: Json, update: UpdateInput)
    requires ReadUpdateInput(body) == Some(update)
    ensures update.texts != map[] || update.assetIds != map[]
  {
    ReadUpdateIsBody(body, update);
    var key :| key in body.members;
    if key.Text? {
      assert key.field in update.texts;
    }
  }

  // ---- Snapshots -----------------------------------------------------------------------------

  datatype Status = Draft | Published | Archived

  datatype AssetStatus = Quarantined | Ready | Rejected

  /** The stored file behind an asset. */
  datatype FileInfo = FileInfo(objectKey: string, originalName: string, contentType: string, size: nat)

  /** A helper's asset row as a request reads it. */
  datatype AssetRow = AssetRow(id: string, kind: Kind, file: FileInfo, status: AssetStatus)

  /** A helper with its assets as a request reads it. Times are milliseconds. */
  datatype HelperRow = HelperRow(content: Content, status: Status, publishedAt: Option<int>, revision: nat,
                                 assets: seq<AssetRow>)

  function StatusName(s: Status): string {
    match s
    case Draft => "DRAFT"
    case Published => "PUBLISHED"
    case Archived => "ARCHIVED"
  }

  function AssetStatusName(s: AssetStatus): string {
    match s
    case Quarantined => "QUARANTINED"
    case Ready => "READY"
    case Rejected => "REJECTED"
  }

  function AssetSnapshot(a: AssetRow): Json {
    Obj(map[
          IdKey := Str(a.id),
          KindKey := Str(KindName(a.kind)),
          ObjectKeyKey := Str(a.file.objectKey),
          OriginalNameKey := Str(a.file.originalName),
          ContentTypeKey := Str(a.file.contentType),
          SizeKey := Num(a.file.size),
          AssetStatusKey := Str(AssetStatusName(a.status))])
  }

  function AssetSnapshots(assets: seq<AssetRow>): seq<Json> {
    seq(|assets|, i requires 0 <= i < |assets| => AssetSnapshot(assets[i]))
  }

  /** The history row of a helper. The publication time is kept as a number. */
  function HelperSnapshot(h: HelperRow): Json
    requires forall f: Field :: f in h.content
  {
    Obj((map f: Field | true :: Text(f) := Str(h.content[f]))
        + map[
          StatusKey := Str(StatusName(h.status)),
          PublishedAtKey := if h.publishedAt == None then Null else Num(h.publishedAt.value),
          AssetsKey := Arr(AssetSnapshots(h.assets))])
  }

  // ---- Restoring a snapshot ------------------------------------------------------------------

  predicate Truthy(v: Json) {
    match v
    case Null => false
    case Bool(b) => b
    case Num(n) => n != 0
    case Str(s) => s != ""
    case _ => true
  }

  function Member(v: map<Key, Json>, key: Key): Json {
    if key in v then v[key] else Null
  }

  /** Adds one snapshot asset to the collected ids; None for a malformed asset or a kind already collected. */
  function CollectAsset(item: Json, ids: map<Key, Json>): Option<map<Key, Json>> {
    if !item.Obj? then None else
    var kind := Member(item.members, KindKey);
    if !kind.Str? || KindOf(kind.s) == None then None else
    var field := File(KindOf(kind.s).value);
    if Truthy(Member(ids, field)) then None else Some(ids[field := Member(item.members, IdKey)])
  }

  function CollectAssets(items: seq<Json>): Option<map<Key, Json>> {
    if items == [] then Some(map[]) else
    var before := CollectAssets(items[..|items| - 1]);
    if before == None then None else CollectAsset(items[|items| - 1], before.value)
  }

  /** The create request a snapshot restores to: its text members, the collected ids, unpublished. */
  function RestoreBody(snapshot: map<Key, Json>, ids: map<Key, Json>): Json {
    Obj((map f: Field | Text(f) in snapshot :: Text(f) := snapshot[Text(f)])
        + map[AssetIdsKey := Obj(ids), IsPublishedKey := Bool(false)])
  }

  /** What a stored snapshot restores to; None when it cannot be restored. */
  function RestoreInput(snapshot: Json): (r: Option<CreateInput>)
    ensures r.Some? ==> ValidContent(r.value.content) && ValidAssetIds(r.value.assetIds)
  {
    if !snapshot.Obj? || !Member(snapshot.members, AssetsKey).Arr? then None else
    var ids := CollectAssets(snapshot.members[AssetsKey].items);
    if ids == None then None else ReadCreateInput(RestoreBody(snapshot.members, ids.value))
  }

  /** Collects the asset ids one by one, as the service does. */
  method RestoreHelperInput(snapshot: Json) returns (r: Option<CreateInput>)
    ensures r == RestoreInput(snapshot)
  {
    if !snapshot.Obj? || !Member(snapshot.members, AssetsKey).Arr? {
      return None;
    }
    var items := snapshot.members[AssetsKey].items;
    var ids: map<Key, Json> := map[];
    for i := 0 to |items|
      invariant CollectAssets(items[..i]) == Some(ids)
    {
      assert items[..i + 1][..i] == items[..i];
      var next := CollectAsset(items[i], ids);
      if next == None {
        CollectFails(items, i + 1);
        return None;
      }
      ids := next.value;
    }
    assert items[..|items|] == items;
    return ReadCreateInput(RestoreBody(snapshot.members, ids));
  }

  lemma {:induction false} CollectFails(items: seq<Json>, n: nat)
    requires n <= |items| && CollectAssets(items[..n]) == None
    ensures CollectAssets(items) == None
    decreases |items| - n
  {
    if n < |items| {
      assert items[..n + 1][..n] == items[..n];
      CollectFails(items, n + 1);
    } else {
      assert items[..n] == items;
    }
  }

  // ---- Which snapshots restore ---------------------------------------------------------------

  ghost predicate IsOfKind(item: Json, k: Kind) {
    && item.Obj? && KindKey in item.members && item.members[KindKey].Str?
    && KindOf(item.members[KindKey].s) == Some(k)
  }

  /** What the language takes for false. */
  ghost predicate IsEmptyValue(v: Json) {
    v == Null || v == Bool(false) || v == Num(0) || v == Str("")
  }

  /** An object of a known kind that is not listed before, unless with an empty id. */
  ghost predicate MayFollow(before: seq<Json>, item: Json) {
    exists k :: IsOfKind(item, k) && IsEmptyValue(LastIdOfKind(before, KindName(k)))
  }

  ghost predicate AreAssets(items: seq<Json>) {
    forall j :: 0 <= j < |items| ==> MayFollow(items[..j], items[j])
  }

  /** The collected ids are the last listed ones of their kinds. */
  ghost predicate HoldsLast(ids: map<Key, Json>, items: seq<Json>) {
    && (forall key :: key in ids ==> key.File?)
    && forall k: Kind :: Member(ids, File(k)) == LastIdOfKind(items, KindName(k))
  }

  lemma KindIsNamed(item: Json, k: Kind)
    ensures IsOfKind(item, k) <==> item.Obj? && Member(item.members, KindKey) == Str(KindName(k))
  {
    KindNamesRead(k);
  }

  lemma CollectsOne(item: Json, ids: map<Key, Json>, before: seq<Json>)
    requires HoldsLast(ids, before)
    ensures CollectAsset(item, ids).Some? <==> MayFollow(before, item)
    ensures forall k :: IsOfKind(item, k) && CollectAsset(item, ids).Some? ==>
              CollectAsset(item, ids).value == ids[File(k) := Member(item.members, IdKey)]
  {
    forall k | IsOfKind(item, k)
      ensures CollectAsset(item, ids) == if IsEmptyValue(LastIdOfKind(before, KindName(k)))
                                         then Some(ids[File(k) := Member(item.members, IdKey)]) else None
    {
    }
  }

  lemma LastOneMore(items: seq<Json>, n: nat, ids: map<Key, Json>, k: Kind)
    requires |items| == n + 1 && HoldsLast(ids, items[..n]) && IsOfKind(items[n], k)
    ensures HoldsLast(ids[File(k) := Member(items[n].members, IdKey)], items)
  {
    var after := ids[File(k) := Member(items[n].members, IdKey)];
    forall other: Kind
      ensures Member(after, File(other)) == LastIdOfKind(items, KindName(other))
    {
      KindIsNamed(items[n], other);
      KindIsNamed(items[n], k);
    }
  }

  lemma AreAssetsNext(items: seq<Json>, n: nat)
    requires |items| == n + 1
    ensures AreAssets(items) <==> AreAssets(items[..n]) && MayFollow(items[..n], items[n])
  {
    forall j | 0 <= j < n
      ensures items[..n][..j] == items[..j] && items[..n][j] == items[j]
    {
    }
    if AreAssets(items) {
      forall j | 0 <= j < n
        ensures MayFollow(items[..n][..j], items[..n][j])
      {
        assert MayFollow(items[..j], items[j]);
      }
    }
    if AreAssets(items[..n]) && MayFollow(items[..n], items[n]) {
      forall j | 0 <= j <= n
        ensures MayFollow(items[..j], items[j])
      {
        if j < n {
          assert MayFollow(items[..n][..j], items[..n][j]);
        }
      }
    }
  }

  /** The loop collects exactly from such lists, and collects the last id of each kind. */
  lemma {:induction false} CollectIsExact(items: seq<Json>)
    ensures match CollectAssets(items)
            case None => !AreAssets(items)
            case Some(ids) => AreAssets(items) && HoldsLast(ids, items)
    decreases |items|
  {
    if items != [] {
      var n := |items| - 1;
      CollectIsExact(items[..n]);
      AreAssetsNext(items, n);
      if CollectAssets(items[..n]).Some? {
        var ids := CollectAssets(items[..n]).value;
        CollectsOne(items[n], ids, items[..n]);
        if k :| IsOfKind(items[n], k) {
          LastOneMore(items, n, ids, k);
        }
      }
    }
  }

  /** A snapshot that restores to `input`: its assets are listed by known kinds, no kind again unless its id was
      empty, the last id of each kind is the input's, all six different, its texts are the input's, and it comes
      back unpublished. */
  ghost predicate IsRestorable(snapshot: Json, input: CreateInput) {
    && snapshot.Obj? && AssetsKey in snapshot.members && snapshot.members[AssetsKey].Arr?
    && AreAssets(snapshot.members[AssetsKey].items)
    && GivesTexts(snapshot.members, input.content) && !input.isPublished
    && ListsIds(snapshot.members[AssetsKey].items, input.assetIds)
  }

  ghost predicate ListsIds(items: seq<Json>, assetIds: AssetIds) {
    && Injective(assetIds)
    && forall k: Kind :: k in assetIds && IsListedId(LastIdOfKind(items, KindName(k)), assetIds[k])
  }

  ghost predicate IsListedId(v: Json, id: string) {
    v.Str? && Trim(v.s) == id && IsId(id)
  }

  lemma GivenIsListed(record: map<Key, Json>, k: Kind, id: string, last: Json)
    requires Member(record, File(k)) == last
    ensures IdGiven(record, k, id) <==> IsListedId(last, id)
    ensures IsListedId(last, id) ==> File(k) in record
  {
  }

  lemma GivenAreListed(items: seq<Json>, ids: map<Key, Json>, assetIds: AssetIds)
    requires HoldsLast(ids, items) && GivesAllIds(Obj(ids), assetIds)
    ensures ListsIds(items, assetIds)
  {
    forall k: Kind
      ensures k in assetIds && IsListedId(LastIdOfKind(items, KindName(k)), assetIds[k])
    {
      GivenIsListed(ids, k, assetIds[k], LastIdOfKind(items, KindName(k)));
    }
  }

  lemma ListedAreGiven(items: seq<Json>, ids: map<Key, Json>, assetIds: AssetIds)
    requires HoldsLast(ids, items) && ListsIds(items, assetIds)
    ensures GivesAllIds(Obj(ids), assetIds)
  {
    forall k: Kind
      ensures k in assetIds && File(k) in ids && IdGiven(ids, k, assetIds[k])
    {
      GivenIsListed(ids, k, assetIds[k], LastIdOfKind(items, KindName(k)));
    }
  }

  lemma RestoredIds(items: seq<Json>, ids: map<Key, Json>, assetIds: AssetIds)
    requires HoldsLast(ids, items)
    ensures GivesAllIds(Obj(ids), assetIds) <==> ListsIds(items, assetIds)
  {
    if GivesAllIds(Obj(ids), assetIds) {
      GivenAreListed(items, ids, assetIds);
    }
    if ListsIds(items, assetIds) {
      ListedAreGiven(items, ids, assetIds);
    }
  }

  lemma RestoredTexts(m: map<Key, Json>, ids: map<Key, Json>, c: Content)
    ensures RestoreBody(m, ids).Obj?
    ensures GivesTexts(RestoreBody(m, ids).members, c) <==> GivesTexts(m, c)
  {
    var record := RestoreBody(m, ids).members;
    forall f: Field
      ensures Text(f) in record <==> Text(f) in m
      ensures Text(f) in m ==> record[Text(f)] == m[Text(f)]
    {
    }
    if GivesTexts(m, c) {
      forall f: Field
        ensures f in c && TextGiven(record, f, c[f])
      {
        assert TextGiven(m, f, c[f]);
      }
    }
    if GivesTexts(record, c) {
      forall f: Field
        ensures f in c && TextGiven(m, f, c[f])
      {
        assert TextGiven(record, f, c[f]);
      }
    }
  }

  /** A snapshot restores to exactly such an input, and otherwise not at all. */
  lemma RestoreIsExact(snapshot: Json, input: CreateInput)
    ensures RestoreInput(snapshot) == Some(input) <==> IsRestorable(snapshot, input)
  {
    if snapshot.Obj? && AssetsKey in snapshot.members && snapshot.members[AssetsKey].Arr? {
      var m, items := snapshot.members, snapshot.members[AssetsKey].items;
      CollectIsExact(items);
      if CollectAssets(items).Some? {
        var ids := CollectAssets(items).value;
        var body := RestoreBody(m, ids);
        CreateInputIsExact(body, input);
        RestoredTexts(m, ids, input.content);
        RestoredIds(items, ids, input.assetIds);
        RestoredKeys(m, ids);
      }
    }
  }

  lemma RestoredKeys(m: map<Key, Json>, ids: map<Key, Json>)
    ensures var body := RestoreBody(m, ids);
            && body.Obj? && AssetIdsKey in body.members && body.members[AssetIdsKey] == Obj(ids)
            && IsPublishedKey in body.members && body.members[IsPublishedKey] == Bool(false)
            && forall key :: key in body.members ==> key.Text? || key == AssetIdsKey || key == IsPublishedKey
  {
  }

  // ---- The snapshot round trip ---------------------------------------------------------------

  function IdsOf(assets: seq<AssetRow>): (ids: AssetIds)
    ensures ids.Keys == set i | 0 <= i < |assets| :: assets[i].kind
  {
    if assets == [] then map[]
    else
      var n := |assets| - 1;
      assert forall i :: 0 <= i < n ==> assets[..n][i] == assets[i];
      IdsOf(assets[..n])[assets[n].kind := assets[n].id]
  }

  /** No kind occurs twice. */
  ghost predicate DistinctKinds(assets: seq<AssetRow>) {
    forall i, j :: 0 <= i < j < |assets| ==> assets[i].kind != assets[j].kind
  }

  lemma KindNamesRead(k: Kind)
    ensures KindOf(KindName(k)) == Some(k)
  {
  }

  lemma UuidIsTrimmed(s: string)
    requires IsUuid(s)
    ensures Trim(s) == s
  {
    TrimIsTrimmed(s);
  }

  lemma AssetSnapshotMembers(a: AssetRow)
    ensures AssetSnapshot(a).Obj?
    ensures Member(AssetSnapshot(a).members, KindKey) == Str(KindName(a.kind))
    ensures Member(AssetSnapshot(a).members, IdKey) == Str(a.id)
  {
  }

  /** The ids as the restore step collects them. */
  function IdMembers(ids: AssetIds): map<Key, Json> {
    map k | k in ids :: File(k) := Str(ids[k])
  }

  /** One snapshot asset of a new kind adds its id. */
  lemma SnapshotAssetCollects(a: AssetRow, ids: AssetIds)
    requires a.kind !in ids
    ensures CollectAsset(AssetSnapshot(a), IdMembers(ids)) == Some(IdMembers(ids[a.kind := a.id]))
  {
    AssetSnapshotMembers(a);
    KindNamesRead(a.kind);
    NotCollectedYet(ids, a.kind, a.id);
  }

  lemma NotCollectedYet(ids: AssetIds, k: Kind, id: string)
    requires k !in ids
    ensures File(k) !in IdMembers(ids)
    ensures IdMembers(ids)[File(k) := Str(id)] == IdMembers(ids[k := id])
  {
  }

  lemma {:induction false} SnapshotAssetsCollect(assets: seq<AssetRow>)
    requires DistinctKinds(assets)
    ensures CollectAssets(AssetSnapshots(assets)) == Some(IdMembers(IdsOf(assets)))
    decreases |assets|
  {
    if assets != [] {
      var n := |assets| - 1;
      assert AssetSnapshots(assets)[..n] == AssetSnapshots(assets[..n]);
      SnapshotAssetsCollect(assets[..n]);
      SnapshotAssetCollects(assets[n], IdsOf(assets[..n]));
    }
  }

  lemma UuidReads(record: map<Key, Json>, key: Key, id: string)
    requires key in record && record[key] == Str(id) && IsUuid(id)
    ensures ReadUuid(record, key) == Some(id)
  {
    UuidIsTrimmed(id);
  }

  lemma IdMembersHold(ids: AssetIds)
    requires forall k: Kind :: k in ids
    ensures forall key :: key in IdMembers(ids) ==> key.File?
    ensures forall k: Kind :: File(k) in IdMembers(ids) && IdMembers(ids)[File(k)] == Str(ids[k])
  {
  }

  lemma UuidsRead(m: map<Key, Json>, ids: AssetIds)
    requires forall k: Kind :: k in ids && IsUuid(ids[k]) && File(k) in m && m[File(k)] == Str(ids[k])
    ensures forall k: Kind :: UuidReader(m)(k) == Some(ids[k])
  {
    forall k: Kind
      ensures UuidReader(m)(k) == Some(ids[k])
    {
      UuidReads(m, File(k), ids[k]);
    }
  }

  /** Collected ids pass the create checks unchanged. */
  lemma IdMembersRead(ids: AssetIds)
    requires ValidAssetIds(ids)
    ensures ReadAssetIds(Obj(IdMembers(ids))) == Some(ids)
  {
    IdMembersHold(ids);
    UuidsRead(IdMembers(ids), ids);
    PickedIds(UuidReader(IdMembers(ids)), ids);
    FileKeysRead(IdMembers(ids));
  }

  lemma FileKeysRead(m: map<Key, Json>)
    requires forall key :: key in m ==> key.File?
    ensures ReadAssetIds(Obj(m)) == PickIds(UuidReader(m))
  {
  }

  lemma PickedIds(read: Kind -> Option<string>, ids: AssetIds)
    requires Injective(ids) && forall k: Kind :: k in ids && read(k) == Some(ids[k])
    ensures PickIds(read) == Some(ids)
  {
    assert (map k: Kind | true :: read(k).value) == ids;
  }

  lemma TextReads(record: map<Key, Json>, f: Field, s: string)
    requires Text(f) in record && record[Text(f)] == Str(s) && ValidText(f, s)
    ensures ReadText(record, f) == Some(s)
  {
    TrimIsTrimmed(s);
  }

  /** A record of valid texts reads back as those texts. */
  lemma ContentReads(record: map<Key, Json>, c: Content)
    requires ValidContent(c)
    requires forall f: Field :: Text(f) in record && record[Text(f)] == Str(c[f])
    ensures ReadContent(record) == Some(c)
  {
    forall f: Field
      ensures ReadText(record, f) == Some(c[f])
    {
      TextReads(record, f, c[f]);
    }
    ContentFromTexts(record, c);
  }

  lemma ContentFromTexts(record: map<Key, Json>, c: Content)
    requires forall f: Field :: f in c && ReadText(record, f) == Some(c[f])
    ensures ReadContent(record) == Some(c)
  {
    assert (map f: Field | true :: ReadText(record, f).value) == c;
  }

  lemma SnapshotKeys(h: HelperRow)
    requires forall f: Field :: f in h.content
    ensures HelperSnapshot(h).Obj?
    ensures forall key :: key in HelperSnapshot(h).members ==>
              key.Text? || key == StatusKey || key == PublishedAtKey || key == AssetsKey
  {
  }

  lemma SnapshotState(h: HelperRow)
    requires forall f: Field :: f in h.content
    ensures var m := HelperSnapshot(h).members;
            && Member(m, StatusKey) == Str(if h.status == Draft then "DRAFT"
                                           else if h.status == Published then "PUBLISHED" else "ARCHIVED")
            && Member(m, PublishedAtKey) == (match h.publishedAt case None => Null case Some(t) => Num(t))
  {
  }

  /** What a snapshot holds: the twelve texts, the status by its name, the publication time, and the assets. */
  lemma SnapshotHoldsRow(h: HelperRow)
    requires forall f: Field :: f in h.content
    ensures HelperSnapshot(h).Obj?
    ensures var m := HelperSnapshot(h).members;
            && (forall key :: key in m ==> key.Text? || key == StatusKey || key == PublishedAtKey || key == AssetsKey)
            && (forall f: Field :: Member(m, Text(f)) == Str(h.content[f]))
            && Member(m, StatusKey) == Str(if h.status == Draft then "DRAFT"
                                           else if h.status == Published then "PUBLISHED" else "ARCHIVED")
            && Member(m, PublishedAtKey) == (match h.publishedAt case None => Null case Some(t) => Num(t))
            && Member(m, AssetsKey) == Arr(AssetSnapshots(h.assets))
  {
    SnapshotKeys(h);
    SnapshotState(h);
    SnapshotMembers(h);
  }

  /** Each asset of the snapshot, in order. */
  lemma SnapshotHoldsAssets(assets: seq<AssetRow>)
    ensures |AssetSnapshots(assets)| == |assets|
    ensures forall i :: 0 <= i < |assets| ==> IsSnapshotOf(AssetSnapshots(assets)[i], assets[i])
  {
    forall i | 0 <= i < |assets|
      ensures IsSnapshotOf(AssetSnapshots(assets)[i], assets[i])
    {
      AssetIsHeld(assets[i]);
    }
  }

  /** An asset with its id, kind, file and status. */
  ghost predicate IsSnapshotOf(item: Json, a: AssetRow) {
    item == Obj(map[
                  IdKey := Str(a.id), KindKey := Str(KindName(a.kind)), ObjectKeyKey := Str(a.file.objectKey),
                  OriginalNameKey := Str(a.file.originalName), ContentTypeKey := Str(a.file.contentType),
                  SizeKey := Num(a.file.size),
                  AssetStatusKey := Str(if a.status == Quarantined then "QUARANTINED"
                                        else if a.status == Ready then "READY" else "REJECTED")])
  }

  lemma AssetIsHeld(a: AssetRow)
    ensures IsSnapshotOf(AssetSnapshot(a), a)
  {
  }

  lemma SnapshotMembers(h: HelperRow)
    requires forall f: Field :: f in h.content
    ensures var m := HelperSnapshot(h).members;
            && (forall f: Field :: Text(f) in m && m[Text(f)] == Str(h.content[f]))
            && AssetsKey in m && m[AssetsKey] == Arr(AssetSnapshots(h.assets))
  {
  }

  lemma RestoreBodyMembers(m: map<Key, Json>, c: Content, ids: map<Key, Json>)
    requires forall f: Field :: f in c && Text(f) in m && m[Text(f)] == Str(c[f])
    ensures RestoreBody(m, ids).Obj?
    ensures var record := RestoreBody(m, ids).members;
            && (forall f: Field :: Text(f) in record && record[Text(f)] == Str(c[f]))
            && (forall key :: key in record ==> IsCreateKey(key))
            && AssetIdsKey in record && record[AssetIdsKey] == Obj(ids)
            && IsPublishedKey in record && record[IsPublishedKey] == Bool(false)
  {
  }

  lemma CreateInputReads(record: map<Key, Json>, c: Content, ids: AssetIds)
    requires ReadContent(record) == Some(c) && (forall key :: key in record ==> IsCreateKey(key))
    requires AssetIdsKey in record && ReadAssetIds(record[AssetIdsKey]) == Some(ids)
    requires IsPublishedKey in record && record[IsPublishedKey] == Bool(false)
    ensures ReadCreateInput(Obj(record)) == Some(CreateInput(c, ids, false))
  {
  }

  lemma RestoreBodyReads(m: map<Key, Json>, c: Content, ids: AssetIds)
    requires ValidContent(c) && ValidAssetIds(ids)
    requires forall f: Field :: Text(f) in m && m[Text(f)] == Str(c[f])
    ensures ReadCreateInput(RestoreBody(m, IdMembers(ids))) == Some(CreateInput(c, ids, false))
  {
    var record := RestoreBody(m, IdMembers(ids)).members;
    RestoreBodyMembers(m, c, IdMembers(ids));
    ContentReads(record, c);
    IdMembersRead(ids);
    CreateInputReads(record, c, ids);
  }

  /** A helper whose stored content has passed the input checks and whose assets are one per kind. */
  ghost predicate Restorable(h: HelperRow) {
    ValidContent(h.content) && DistinctKinds(h.assets) && ValidAssetIds(IdsOf(h.assets))
  }

  lemma RestoreSteps(m: map<Key, Json>, items: seq<Json>, ids: map<Key, Json>, r: Option<CreateInput>)
    requires AssetsKey in m && m[AssetsKey] == Arr(items) && CollectAssets(items) == Some(ids)
    requires ReadCreateInput(RestoreBody(m, ids)) == r
    ensures RestoreInput(Obj(m)) == r
  {
  }

  /** Snapshot round trip: restoring a helper's snapshot gives back its texts and its six asset ids. */
  lemma SnapshotRestores(h: HelperRow)
    requires Restorable(h)
    ensures RestoreInput(HelperSnapshot(h)) == Some(CreateInput(h.content, IdsOf(h.assets), false))
  {
    var m, items, ids := HelperSnapshot(h).members, AssetSnapshots(h.assets), IdsOf(h.assets);
    SnapshotMembers(h);
    SnapshotAssetsCollect(h.assets);
    RestoreBodyReads(m, h.content, ids);
    RestoreSteps(m, items, IdMembers(ids), Some(CreateInput(h.content, ids, false)));
  }

  // ---- Comparing two snapshots ---------------------------------------------------------------

  function Members(v: Json): map<Key, Json> {
    if v.Obj? then v.members else map[]
  }

  /** The text fields whose values differ. */
  function ChangedFields(before: Json, after: Json): set<Field> {
    set f: Field | Member(Members(before), Text(f)) != Member(Members(after), Text(f))
  }

  function Items(v: Json): seq<Json> {
    if v.Arr? then v.items else []
  }

  /** The id of the last listed asset of a kind; Null when there is none. */
  function LastIdOfKind(items: seq<Json>, kind: string): Json {
    if items == [] then Null
    else
      var last := Members(items[|items| - 1]);
      if Member(last, KindKey) == Str(kind) then Member(last, IdKey) else LastIdOfKind(items[..|items| - 1], kind)
  }

  function AssetIdIn(snapshot: Json, k: Kind): Json {
    LastIdOfKind(Items(Member(Members(snapshot), AssetsKey)), KindName(k))
  }

  /** The kinds whose asset differs. */
  function ReplacedKinds(before: Json, after: Json): set<Kind> {
    set k: Kind | AssetIdIn(before, k) != AssetIdIn(after, k)
  }

  lemma {:induction false} SnapshotIdOfKind(assets: seq<AssetRow>, k: Kind)
    ensures LastIdOfKind(AssetSnapshots(assets), KindName(k)) == if k in IdsOf(assets) then Str(IdsOf(assets)[k])
            else Null
    decreases |assets|
  {
    if assets != [] {
      var n := |assets| - 1;
      assert AssetSnapshots(assets)[..n] == AssetSnapshots(assets[..n]);
      SnapshotIdOfKind(assets[..n], k);
      AssetSnapshotMembers(assets[n]);
      KindNamesRead(k);
      KindNamesRead(assets[n].kind);
    }
  }

  function TextOf(v: Json): string {
    if v.Str? then v.s else ""
  }

  /** The texts and the asset ids that a snapshot shows. */
  function Shows(snapshot: Json): (Content, AssetIds) {
    (map f: Field | Member(Members(snapshot), Text(f)).Str? :: TextOf(Member(Members(snapshot), Text(f))),
     map k: Kind | AssetIdIn(snapshot, k).Str? :: TextOf(AssetIdIn(snapshot, k)))
  }

  lemma ShowsExactly(snapshot: Json, content: Content, ids: AssetIds)
    requires forall f: Field :: f in content && Member(Members(snapshot), Text(f)) == Str(content[f])
    requires forall k: Kind :: AssetIdIn(snapshot, k) == if k in ids then Str(ids[k]) else Null
    ensures Shows(snapshot) == (content, ids)
  {
    assert Shows(snapshot).0 == content;
    assert Shows(snapshot).1 == ids;
  }

  /** A snapshot shows the texts and the asset ids of the row it was taken of. */
  lemma SnapshotShows(h: HelperRow)
    requires forall f: Field :: f in h.content
    ensures Shows(HelperSnapshot(h)) == (h.content, IdsOf(h.assets))
  {
    SnapshotMembers(h);
    forall k: Kind
      ensures AssetIdIn(HelperSnapshot(h), k) == if k in IdsOf(h.assets) then Str(IdsOf(h.assets)[k]) else Null
    {
      SnapshotIdOfKind(h.assets, k);
    }
    ShowsExactly(HelperSnapshot(h), h.content, IdsOf(h.assets));
  }

  /** Two snapshots that show all texts: the reported changes are exactly the differing ones. */
  lemma TextChangesAreExact(a: Json, b: Json, v: (Content, AssetIds), w: (Content, AssetIds))
    requires Shows(a) == v && Shows(b) == w && forall f: Field :: f in v.0 && f in w.0
    ensures ChangedFields(a, b) == set f: Field | f in v.0 && f in w.0 && v.0[f] != w.0[f]
  {
    forall f: Field
      ensures Member(Members(a), Text(f)) == Str(v.0[f]) && Member(Members(b), Text(f)) == Str(w.0[f])
    {
      assert f in Shows(a).0 && f in Shows(b).0;
    }
  }

  /** Two snapshots that show all assets: the reported replacements are exactly the differing ones. */
  lemma AssetChangesAreExact(a: Json, b: Json, v: (Content, AssetIds), w: (Content, AssetIds))
    requires Shows(a) == v && Shows(b) == w && forall k: Kind :: k in v.1 && k in w.1
    ensures ReplacedKinds(a, b) == set k: Kind | k in v.1 && k in w.1 && v.1[k] != w.1[k]
  {
    forall k: Kind
      ensures AssetIdIn(a, k) == Str(v.1[k]) && AssetIdIn(b, k) == Str(w.1[k])
    {
      assert k in Shows(a).1 && k in Shows(b).1;
    }
  }
}
