/**
 * The exam payload store: the draft of a question-paper request that the exam wizard fills in step by
 * step, the grouping of the selected chapters and topics into `chapters_topics`, and the validation
 * that turns the draft into the request body.
 */
module ApiPayloadStore {
  import opened Wrappers
  import opened JsText

  // ---------------------------------------------------------------------------------------------
  // Data

  /** One entry of a `chapters_topics` group; `qnCount` is the optional `qn_count` key */
  datatype CodeEntry = CodeEntry(code: string, qnCount: Option<int>)

  /** A `chapters_topics` group: `kind` is its `type`, "chapter" or "topic" */
  datatype Group = Group(kind: string, codes: seq<CodeEntry>)

  /** The store's state */
  datatype Draft = Draft(
    isAiSelected: bool,
    examName: string,
    examTypeCode: string,
    subjectCode: string,
    mediumCode: string,
    examMode: string,
    totalTime: int,
    totalQuestions: int,
    noOfVersions: int,
    noOfSets: int,
    standard: string,
    qtnCodesToExclude: seq<string>,
    chaptersTopics: seq<Group>)

  /** The request body; `qtnCodesToExclude` is absent when there is nothing to exclude */
  datatype Payload = Payload(
    isAiSelected: bool,
    examName: string,
    examTypeCode: string,
    subjectCode: string,
    mediumCode: string,
    examMode: string,
    totalTime: int,
    totalQuestions: int,
    noOfVersions: int,
    noOfSets: int,
    standard: string,
    qtnCodesToExclude: Option<seq<string>>,
    chaptersTopics: seq<Group>)

  datatype PayloadResult = PayloadResult(isValid: bool, errors: seq<string>, payload: Option<Payload>)

  /** A selected chapter or topic as `buildChaptersTopics` reads it */
  datatype Item = Item(code: string, questionsToAdd: Option<int>)

  /** A confirmed allocation line: `kind` is its `type` */
  datatype AllocItem = AllocItem(kind: string, code: string, questionsToAdd: Option<int>)

  /** The allocation confirmation; `selectedItems` is `None` when it is missing or not an array */
  datatype AllocationData = AllocationData(selectedItems: Option<seq<AllocItem>>)

  /** The store's initial value, which `reset` restores */
  const InitialDraft: Draft :=
    Draft(false, "", "1000", "", "", "online", 40, 40, 1, 1, "", [], [])

  // ---------------------------------------------------------------------------------------------
  // The setters: each keeps the previous value of a field whose new value is falsy

  function ExamDetails(d: Draft, examTitle: Option<string>, examMode: Option<string>, examTypeCode: Option<string>): (r: Draft)
    ensures r.(examName := d.examName, examMode := d.examMode, examTypeCode := d.examTypeCode) == d
    ensures r.examName == (if Truthy(examTitle) then examTitle.value else d.examName)
    ensures r.examTypeCode == (if Truthy(examTypeCode) then examTypeCode.value else d.examTypeCode)
    ensures var mode := if Truthy(examMode) then examMode.value else d.examMode;
            |r.examMode| == |mode| && forall k :: 0 <= k < |mode| ==> r.examMode[k] == LowerChar(mode[k])
  {
    d.(examName := StrOr(examTitle, d.examName),
       examMode := LowerAscii(StrOr(examMode, d.examMode)),
       examTypeCode := StrOr(examTypeCode, d.examTypeCode))
  }

  function ExamConfig(d: Draft, totalTime: Option<int>, totalQuestions: Option<int>,
                      numberOfVersions: Option<int>, numberOfSets: Option<int>): (r: Draft)
    ensures r.(totalTime := d.totalTime, totalQuestions := d.totalQuestions,
               noOfVersions := d.noOfVersions, noOfSets := d.noOfSets) == d
    ensures totalTime.None? || totalTime.value == 0 ==> r.totalTime == d.totalTime
    ensures totalTime.Some? && totalTime.value != 0 ==> r.totalTime == totalTime.value
    ensures totalQuestions.Some? && totalQuestions.value != 0 ==> r.totalQuestions == totalQuestions.value
    ensures totalQuestions.None? || totalQuestions.value == 0 ==> r.totalQuestions == d.totalQuestions
    ensures numberOfVersions.Some? && numberOfVersions.value != 0 ==> r.noOfVersions == numberOfVersions.value
    ensures numberOfVersions.None? || numberOfVersions.value == 0 ==> r.noOfVersions == d.noOfVersions
    ensures numberOfSets.Some? && numberOfSets.value != 0 ==> r.noOfSets == numberOfSets.value
    ensures numberOfSets.None? || numberOfSets.value == 0 ==> r.noOfSets == d.noOfSets
  {
    d.(totalTime := IntOr(totalTime, d.totalTime),
       totalQuestions := IntOr(totalQuestions, d.totalQuestions),
       noOfVersions := IntOr(numberOfVersions, d.noOfVersions),
       noOfSets := IntOr(numberOfSets, d.noOfSets))
  }

  function ClassSubject(d: Draft, subjectCode: Option<string>, mediumCode: Option<string>, examClass: Option<string>): (r: Draft)
    ensures r.(subjectCode := d.subjectCode, mediumCode := d.mediumCode, standard := d.standard) == d
    ensures r.subjectCode == (if Truthy(subjectCode) then subjectCode.value else d.subjectCode)
    ensures r.mediumCode == (if Truthy(mediumCode) then mediumCode.value else d.mediumCode)
    ensures r.standard == (if Truthy(examClass) then examClass.value else d.standard)
  {
    d.(subjectCode := StrOr(subjectCode, d.subjectCode),
       mediumCode := StrOr(mediumCode, d.mediumCode),
       standard := StrOr(examClass, d.standard))
  }

  function AiMode(d: Draft, isAi: bool): (r: Draft)
    ensures r.isAiSelected == isAi && r.(isAiSelected := d.isAiSelected) == d
  {
    d.(isAiSelected := isAi)
  }

  /** A missing exclusion list becomes the empty list */
  function ExcludedQuestions(d: Draft, ids: Option<seq<string>>): (r: Draft)
    ensures r.(qtnCodesToExclude := d.qtnCodesToExclude) == d
    ensures ids.None? ==> r.qtnCodesToExclude == []
    ensures ids.Some? ==> r.qtnCodesToExclude == ids.value
  {
    d.(qtnCodesToExclude := ids.GetOr([]))
  }

  /** A filled-in field stays filled in whatever the later setter calls bring. */
  lemma SettersKeepFilledFields(d: Draft, title: Option<string>, mode: Option<string>, typeCode: Option<string>,
                                subject: Option<string>, medium: Option<string>, examClass: Option<string>)
    requires d.examName != "" && d.subjectCode != "" && d.mediumCode != "" && d.standard != ""
    ensures var r := ClassSubject(ExamDetails(d, title, mode, typeCode), subject, medium, examClass);
            r.examName != "" && r.subjectCode != "" && r.mediumCode != "" && r.standard != ""
  {
  }

  // ---------------------------------------------------------------------------------------------
  // buildChaptersTopics

  /** An item with a positive allocation */
  predicate Allocates(x: Item) {
    x.questionsToAdd.Some? && x.questionsToAdd.value > 0
  }

  /** The `filter`/`map` of one list: the allocated items in input order, each with its count */
  function Allocated(items: seq<Item>): (r: seq<CodeEntry>)
    ensures |r| <= |items|
    ensures forall k :: 0 <= k < |r| ==> r[k].qnCount.Some? && r[k].qnCount.value > 0
  {
    if items == [] then []
    else
      var x := items[|items| - 1];
      Allocated(items[..|items| - 1]) + (if Allocates(x) then [CodeEntry(x.code, x.questionsToAdd)] else [])
  }

  /** An entry is listed exactly when some item with that code allocates that many questions. */
  lemma {:induction false} AllocatedMembership(items: seq<Item>, e: CodeEntry)
    ensures e in Allocated(items) <==>
            exists k :: 0 <= k < |items| && Allocates(items[k]) && e == CodeEntry(items[k].code, items[k].questionsToAdd)
  {
    if items != [] {
      var front := items[..|items| - 1];
      AllocatedMembership(front, e);
      assert forall k :: 0 <= k < |front| ==> front[k] == items[k];
      if e in Allocated(items) && e !in Allocated(front) {
        assert e == CodeEntry(items[|items| - 1].code, items[|items| - 1].questionsToAdd);
      }
    }
  }

  /** The chapter group, then the topic group, each left out when it has no entry */
  function GroupsOf(cs: seq<CodeEntry>, ts: seq<CodeEntry>): (r: seq<Group>)
    ensures |r| <= 2
    ensures forall k :: 0 <= k < |r| ==> |r[k].codes| > 0 && (r[k].kind == "chapter" || r[k].kind == "topic")
    ensures forall k :: 0 <= k < |r| && r[k].kind == "chapter" ==> k == 0 && r[k].codes == cs
    ensures forall k :: 0 <= k < |r| && r[k].kind == "topic" ==> r[k].codes == ts
    ensures (|r| > 0 && r[0].kind == "chapter") <==> cs != []
    ensures (|r| > 0 && r[|r| - 1].kind == "topic") <==> ts != []
  {
    assert "chapter"[0] != "topic"[0];
    (if |cs| > 0 then [Group("chapter", cs)] else []) + (if |ts| > 0 then [Group("topic", ts)] else [])
  }

  /** The chapter group, then the topic group, each present only when something in it is allocated */
  function ChaptersTopicsOf(chapters: Option<seq<Item>>, topics: Option<seq<Item>>): (r: seq<Group>)
    ensures |r| <= 2
    ensures forall k :: 0 <= k < |r| ==> |r[k].codes| > 0 && (r[k].kind == "chapter" || r[k].kind == "topic")
    ensures forall k :: 0 <= k < |r| && r[k].kind == "chapter" ==> k == 0 && r[k].codes == Allocated(chapters.GetOr([]))
    ensures forall k :: 0 <= k < |r| && r[k].kind == "topic" ==> r[k].codes == Allocated(topics.GetOr([]))
    ensures (|r| > 0 && r[0].kind == "chapter") <==> |Allocated(chapters.GetOr([]))| > 0
    ensures (|r| > 0 && r[|r| - 1].kind == "topic") <==> |Allocated(topics.GetOr([]))| > 0
  {
    var cs := if chapters.Some? && |chapters.value| > 0 then Allocated(chapters.value) else [];
    var ts := if topics.Some? && |topics.value| > 0 then Allocated(topics.value) else [];
    GroupsOf(cs, ts)
  }

  /** The `filter`/`map` chain of `buildChaptersTopics` on one list */
  method AllocatedCodes(items: seq<Item>) returns (codes: seq<CodeEntry>)
    ensures codes == Allocated(items)
  {
    codes := [];
    var i := 0;
    while i < |items|
      invariant 0 <= i <= |items|
      invariant codes == Allocated(items[..i])
    {
      assert items[..i + 1][..i] == items[..i];
      if items[i].questionsToAdd.Some? && items[i].questionsToAdd.value > 0 {
        codes := codes + [CodeEntry(items[i].code, items[i].questionsToAdd)];
      }
      i := i + 1;
    }
    assert items[..i] == items;
  }

  // ---------------------------------------------------------------------------------------------
  // updateFromAllocationData

  /** Which of the two groups an allocation line feeds */
  datatype Side = ChapterSide | TopicSide

  predicate Goes(x: AllocItem, side: Side) {
    match side
    case ChapterSide => x.kind == "chapter"
    case TopicSide => x.kind == "topic" || x.kind == "subtopic"
  }

  /** The entry of one allocation line: the count is attached only outside AI mode and when positive */
  function EntryOf(x: AllocItem, ai: bool): (r: CodeEntry)
    ensures r.code == x.code
    ensures r.qnCount.Some? <==> !ai && x.questionsToAdd.Some? && x.questionsToAdd.value > 0
    ensures r.qnCount.Some? ==> r.qnCount == x.questionsToAdd
  {
    if !ai && x.questionsToAdd.Some? && x.questionsToAdd.value > 0 then CodeEntry(x.code, x.questionsToAdd)
    else CodeEntry(x.code, None)
  }

  /** The entries one side's group collects, in input order */
  function Entries(items: seq<AllocItem>, ai: bool, side: Side): (r: seq<CodeEntry>)
    ensures |r| <= |items|
  {
    if items == [] then []
    else
      var x := items[|items| - 1];
      Entries(items[..|items| - 1], ai, side) + (if Goes(x, side) then [EntryOf(x, ai)] else [])
  }

  /** One more line adds its entry to the sides it goes to. */
  lemma EntriesStep(items: seq<AllocItem>, i: nat, ai: bool, side: Side)
    requires i < |items|
    ensures Entries(items[..i + 1], ai, side)
            == Entries(items[..i], ai, side) + (if Goes(items[i], side) then [EntryOf(items[i], ai)] else [])
  {
    assert items[..i + 1][..i] == items[..i];
  }

  /** A line goes to at most one side: chapters to the chapter group, topics and subtopics to the topic group. */
  lemma KindSides(x: AllocItem)
    ensures Goes(x, ChapterSide) <==> x.kind == "chapter"
    ensures Goes(x, TopicSide) <==> x.kind == "topic" || x.kind == "subtopic"
    ensures !(Goes(x, ChapterSide) && Goes(x, TopicSide))
  {
    assert "chapter"[0] != "topic"[0] && "chapter"[0] != "subtopic"[0];
  }

  /** The group one side has built part way through the loop: none until its first entry */
  function Collected(kind: string, es: seq<CodeEntry>): (r: Option<Group>)
    ensures r.Some? <==> es != []
  {
    if es == [] then None else Some(Group(kind, es))
  }

  /** The loop of `updateFromAllocationData`: one pass over the lines, appending each entry to the group of its kind */
  method CollectGroups(items: seq<AllocItem>, ai: bool) returns (chapterGroup: Option<Group>, topicGroup: Option<Group>)
    ensures chapterGroup == Collected("chapter", Entries(items, ai, ChapterSide))
    ensures topicGroup == Collected("topic", Entries(items, ai, TopicSide))
  {
    chapterGroup := None;
    topicGroup := None;
    var i := 0;
    while i < |items|
      invariant 0 <= i <= |items|
      invariant chapterGroup == Collected("chapter", Entries(items[..i], ai, ChapterSide))
      invariant topicGroup == Collected("topic", Entries(items[..i], ai, TopicSide))
    {
      var x := items[i];
      EntriesStep(items, i, ai, ChapterSide);
      EntriesStep(items, i, ai, TopicSide);
      var entry := CodeEntry(x.code, None);
      if !ai && x.questionsToAdd.Some? && x.questionsToAdd.value > 0 {
        entry := entry.(qnCount := x.questionsToAdd);
      }
      assert entry == EntryOf(x, ai);
      KindSides(x);
      ghost var ce := Entries(items[..i], ai, ChapterSide);
      ghost var te := Entries(items[..i], ai, TopicSide);
      if x.kind == "chapter" {
        var codes := if chapterGroup.None? then [] else chapterGroup.value.codes;
        assert codes == ce;
        chapterGroup := Some(Group("chapter", codes + [entry]));
        assert te + [] == te;
      } else if x.kind == "topic" || x.kind == "subtopic" {
        var codes := if topicGroup.None? then [] else topicGroup.value.codes;
        assert codes == te;
        topicGroup := Some(Group("topic", codes + [entry]));
        assert ce + [] == ce;
      } else {
        assert ce + [] == ce && te + [] == te;
      }
      i := i + 1;
    }
    assert items[..i] == items;
  }

  /** A group collects an entry exactly when some line of its kinds produces it; other kinds are dropped. */
  lemma {:induction false} EntriesMembership(items: seq<AllocItem>, ai: bool, side: Side, e: CodeEntry)
    ensures e in Entries(items, ai, side) <==>
            exists k :: 0 <= k < |items| && Goes(items[k], side) && e == EntryOf(items[k], ai)
  {
    if items != [] {
      var front := items[..|items| - 1];
      EntriesMembership(front, ai, side, e);
      assert forall k :: 0 <= k < |front| ==> front[k] == items[k];
      if e in Entries(items, ai, side) && e !in Entries(front, ai, side) {
        assert e == EntryOf(items[|items| - 1], ai);
      }
    }
  }

  /** A side's group is empty exactly when no line is of its kinds: zero allocations are still listed. */
  lemma {:induction false} EntriesEmptyIff(items: seq<AllocItem>, ai: bool, side: Side)
    ensures Entries(items, ai, side) == [] <==> forall k :: 0 <= k < |items| ==> !Goes(items[k], side)
  {
    if items != [] {
      var front := items[..|items| - 1];
      EntriesEmptyIff(front, ai, side);
      assert forall k :: 0 <= k < |front| ==> front[k] == items[k];
    }
  }

  /** The groups of one allocation: the chapter group first, the topic group second, empty ones left out */
  function AllocationGroups(items: seq<AllocItem>, ai: bool): (r: seq<Group>)
    ensures |r| <= 2
    ensures forall k :: 0 <= k < |r| ==> |r[k].codes| > 0 && (r[k].kind == "chapter" || r[k].kind == "topic")
    ensures forall k :: 0 <= k < |r| && r[k].kind == "chapter" ==> k == 0 && r[k].codes == Entries(items, ai, ChapterSide)
    ensures forall k :: 0 <= k < |r| && r[k].kind == "topic" ==> r[k].codes == Entries(items, ai, TopicSide)
    ensures (|r| > 0 && r[0].kind == "chapter") <==> Entries(items, ai, ChapterSide) != []
    ensures (|r| > 0 && r[|r| - 1].kind == "topic") <==> Entries(items, ai, TopicSide) != []
  {
    GroupsOf(Entries(items, ai, ChapterSide), Entries(items, ai, TopicSide))
  }

  /** The draft after `updateFromAllocationData`: unchanged for missing data, otherwise only `chapters_topics` is new */
  function FromAllocation(d: Draft, data: Option<AllocationData>): (r: Draft)
    ensures data.None? ==> r == d
    ensures r.(chaptersTopics := d.chaptersTopics) == d
    ensures data.Some? ==> r.chaptersTopics == AllocationGroups(data.value.selectedItems.GetOr([]), d.isAiSelected)
  {
    if data.None? then d
    else d.(chaptersTopics := AllocationGroups(data.value.selectedItems.GetOr([]), d.isAiSelected))
  }

  /** Every listed code carries a count exactly when the draft is not in AI mode and the line allocates some. */
  lemma CountIffManual(items: seq<AllocItem>, ai: bool, g: Group, e: CodeEntry)
    requires g in AllocationGroups(items, ai) && e in g.codes
    ensures exists k :: 0 <= k < |items| && items[k].code == e.code &&
              (e.qnCount.Some? <==> !ai && items[k].questionsToAdd.Some? && items[k].questionsToAdd.value > 0)
  {
    var side := if g.kind == "chapter" then ChapterSide else TopicSide;
    EntriesMembership(items, ai, side, e);
  }

  // ---------------------------------------------------------------------------------------------
  // getApiPayload

  /** The required fields in the order the validation lists them */
  function FieldName(i: int): (r: string)
    ensures 0 <= i < 4 ==> |r| == NameLength(i)
  {
    if i == 0 then "exam_name" else if i == 1 then "subject_code" else if i == 2 then "medium_code" else "standard"
  }

  /** The four names have four different lengths, which tells them apart. */
  function NameLength(i: int): nat {
    if i == 0 then 9 else if i == 1 then 12 else if i == 2 then 11 else 8
  }

  lemma NameLengthsDiffer(a: int, b: int)
    requires 0 <= a < 4 && 0 <= b < 4 && NameLength(a) == NameLength(b)
    ensures a == b
  {
  }

  function FieldValue(d: Draft, i: int): string {
    if i == 0 then d.examName else if i == 1 then d.subjectCode else if i == 2 then d.mediumCode else d.standard
  }

  /** The `filter` step: the positions of the falsy fields from position `i` on */
  function MissingRanks(d: Draft, i: nat): (r: seq<int>)
    requires i <= 4
    decreases 4 - i
    ensures forall k :: 0 <= k < |r| ==> i <= r[k] < 4 && FieldValue(d, r[k]) == ""
    ensures forall a, b :: 0 <= a < b < |r| ==> r[a] < r[b]
  {
    if i == 4 then []
    else (if FieldValue(d, i) == "" then [i] else []) + MissingRanks(d, i + 1)
  }

  /** No falsy field is left out. */
  lemma {:induction false} MissingRanksComplete(d: Draft, i: nat, j: int)
    requires i <= j < 4 && FieldValue(d, j) == ""
    decreases 4 - i
    ensures j in MissingRanks(d, i)
  {
    if i < j {
      MissingRanksComplete(d, i + 1, j);
    }
  }

  /** The names of the falsy required fields (`filter`, then `map` to the key), in the fixed order */
  function MissingFields(d: Draft): (r: seq<string>)
    ensures |r| == |MissingRanks(d, 0)|
    ensures forall k :: 0 <= k < |r| ==> r[k] == FieldName(MissingRanks(d, 0)[k])
  {
    var ranks := MissingRanks(d, 0);
    seq(|ranks|, k requires 0 <= k < |ranks| => FieldName(ranks[k]))
  }

  /** Each required field is reported exactly when it is falsy. */
  lemma MissingIffEmpty(d: Draft)
    ensures "exam_name" in MissingFields(d) <==> d.examName == ""
    ensures "subject_code" in MissingFields(d) <==> d.subjectCode == ""
    ensures "medium_code" in MissingFields(d) <==> d.mediumCode == ""
    ensures "standard" in MissingFields(d) <==> d.standard == ""
  {
    var r := MissingFields(d);
    NamedOnce(d, r, 0, "exam_name");
    NamedOnce(d, r, 1, "subject_code");
    NamedOnce(d, r, 2, "medium_code");
    NamedOnce(d, r, 3, "standard");
  }

  /** A field's name is in the list exactly when its position was kept by the filter. */
  lemma NamedOnce(d: Draft, r: seq<string>, j: int, name: string)
    requires 0 <= j < 4 && name == FieldName(j)
    requires |r| == |MissingRanks(d, 0)|
    requires forall k :: 0 <= k < |r| ==> r[k] == FieldName(MissingRanks(d, 0)[k])
    ensures name in r <==> FieldValue(d, j) == ""
  {
    var ranks := MissingRanks(d, 0);
    if name in r {
      var k :| 0 <= k < |r| && r[k] == name;
      var m := ranks[k];
      assert 0 <= m < 4 && FieldValue(d, m) == "";
      assert NameLength(m) == |FieldName(m)| == |name| == NameLength(j);
      NameLengthsDiffer(m, j);
    }
    if FieldValue(d, j) == "" {
      MissingRanksComplete(d, 0, j);
      var k :| 0 <= k < |ranks| && ranks[k] == j;
      assert r[k] == name;
    }
  }

  function Required(field: string): string {
    field + " is required"
  }

  const NoSelections := "Chapter/topic selections are required"

  /** The outcome of `getApiPayload` on a draft */
  function PayloadOf(d: Draft): (r: PayloadResult)
    ensures r.isValid <==> MissingFields(d) == [] && |d.chaptersTopics| > 0
    ensures !r.isValid ==> r.payload.None? && |r.errors| > 0
    ensures MissingFields(d) != [] ==>
              |r.errors| == |MissingFields(d)| &&
              forall k :: 0 <= k < |r.errors| ==> r.errors[k] == Required(MissingFields(d)[k])
    ensures MissingFields(d) == [] && d.chaptersTopics == [] ==> r.errors == [NoSelections]
    ensures r.isValid ==> r.errors == [] && r.payload.Some?
    ensures r.payload.Some? ==>
              var p := r.payload.value;
              p.examName == Trim(d.examName) &&
              (p.qtnCodesToExclude.Some? <==> |d.qtnCodesToExclude| > 0) &&
              (p.qtnCodesToExclude.Some? ==> p.qtnCodesToExclude.value == d.qtnCodesToExclude) &&
              p.chaptersTopics == d.chaptersTopics && p.isAiSelected == d.isAiSelected &&
              p.examTypeCode == d.examTypeCode && p.subjectCode == d.subjectCode &&
              p.mediumCode == d.mediumCode && p.examMode == d.examMode && p.standard == d.standard &&
              p.totalTime == d.totalTime && p.totalQuestions == d.totalQuestions &&
              p.noOfVersions == d.noOfVersions && p.noOfSets == d.noOfSets
  {
    var missing := MissingFields(d);
    if |missing| > 0 then
      PayloadResult(false, seq(|missing|, k requires 0 <= k < |missing| => Required(missing[k])), None)
    else if |d.chaptersTopics| == 0 then
      PayloadResult(false, [NoSelections], None)
    else
      PayloadResult(true, [], Some(Payload(
        d.isAiSelected, Trim(d.examName), d.examTypeCode, d.subjectCode, d.mediumCode, d.examMode,
        d.totalTime, d.totalQuestions, d.noOfVersions, d.noOfSets, d.standard,
        if |d.qtnCodesToExclude| > 0 then Some(d.qtnCodesToExclude) else None,
        d.chaptersTopics)))
  }

  /**
   * Validation looks at the untrimmed name, so a name of white space only passes and is sent as the
   * empty string.
   */
  lemma BlankNameSentEmpty(d: Draft)
    requires d.examName != "" && AllSpace(d.examName)
    requires d.subjectCode != "" && d.mediumCode != "" && d.standard != "" && d.chaptersTopics != []
    ensures PayloadOf(d).isValid && PayloadOf(d).payload.value.examName == ""
  {
    TrimEmptyIffAllSpace(d.examName);
  }

  /** The initial draft lists all four required fields, in order. */
  lemma InitialDraftMissesAll()
    ensures PayloadOf(InitialDraft).errors ==
            [Required("exam_name"), Required("subject_code"), Required("medium_code"), Required("standard")]
  {
    AllBlankMissing(InitialDraft);
    var e := PayloadOf(InitialDraft).errors;
    assert |e| == 4;
    assert e[0] == Required(FieldName(0)) && e[1] == Required(FieldName(1));
    assert e[2] == Required(FieldName(2)) && e[3] == Required(FieldName(3));
  }

  /** A draft whose four required fields are all empty misses all four, in order. */
  lemma AllBlankMissing(d: Draft)
    requires d.examName == "" && d.subjectCode == "" && d.mediumCode == "" && d.standard == ""
    ensures MissingRanks(d, 0) == [0, 1, 2, 3]
  {
    var r3 := MissingRanks(d, 3);
    assert r3 == [3];
    var r2 := MissingRanks(d, 2);
    assert r2 == [2] + r3;
    var r1 := MissingRanks(d, 1);
    assert r1 == [1] + r2;
    assert MissingRanks(d, 0) == [0] + r1;
  }

  // ---------------------------------------------------------------------------------------------
  // The store

  class PayloadStore {
    var draft: Draft

    constructor ()
      ensures draft == InitialDraft
    {
      draft := InitialDraft;
    }

    method UpdateExamDetails(examTitle: Option<string>, examMode: Option<string>, examTypeCode: Option<string>)
      modifies this
      ensures draft == ExamDetails(old(draft), examTitle, examMode, examTypeCode)
    {
      draft := ExamDetails(draft, examTitle, examMode, examTypeCode);
    }

    method UpdateExamConfig(totalTime: Option<int>, totalQuestions: Option<int>,
                            numberOfVersions: Option<int>, numberOfSets: Option<int>)
      modifies this
      ensures draft == ExamConfig(old(draft), totalTime, totalQuestions, numberOfVersions, numberOfSets)
    {
      draft := ExamConfig(draft, totalTime, totalQuestions, numberOfVersions, numberOfSets);
    }

    method UpdateClassSubject(subjectCode: Option<string>, mediumCode: Option<string>, examClass: Option<string>)
      modifies this
      ensures draft == ClassSubject(old(draft), subjectCode, mediumCode, examClass)
    {
      draft := ClassSubject(draft, subjectCode, mediumCode, examClass);
    }

    method UpdateAIMode(isAi: bool)
      modifies this
      ensures draft == AiMode(old(draft), isAi)
    {
      draft := AiMode(draft, isAi);
    }

    method UpdateExcludedQuestions(ids: Option<seq<string>>)
      modifies this
      ensures draft == ExcludedQuestions(old(draft), ids)
    {
      draft := ExcludedQuestions(draft, ids);
    }

    /** `buildChaptersTopics`: stores the groups and returns them */
    method BuildChaptersTopics(chapters: Option<seq<Item>>, topics: Option<seq<Item>>) returns (groups: seq<Group>)
      modifies this
      ensures groups == ChaptersTopicsOf(chapters, topics)
      ensures draft == old(draft).(chaptersTopics := groups)
    {
      groups := [];
      if chapters.Some? && |chapters.value| > 0 {
        var codes := AllocatedCodes(chapters.value);
        if |codes| > 0 {
          groups := groups + [Group("chapter", codes)];
        }
      }
      if topics.Some? && |topics.value| > 0 {
        var codes := AllocatedCodes(topics.value);
        if |codes| > 0 {
          groups := groups + [Group("topic", codes)];
        }
      }
      draft := draft.(chaptersTopics := groups);
    }

    /** `updateFromAllocationData` */
    method UpdateFromAllocationData(data: Option<AllocationData>)
      modifies this
      ensures draft == FromAllocation(old(draft), data)
    {
      if data.None? {
        return;
      }
      var items := data.value.selectedItems.GetOr([]);
      var ai := draft.isAiSelected;
      var chapterGroup, topicGroup := CollectGroups(items, ai);
      var groups := [];
      if chapterGroup.Some? && |chapterGroup.value.codes| > 0 {
        groups := groups + [chapterGroup.value];
      }
      if topicGroup.Some? && |topicGroup.value.codes| > 0 {
        groups := groups + [topicGroup.value];
      }
      assert groups == AllocationGroups(items, ai);
      draft := draft.(chaptersTopics := groups);
    }

    /** `getApiPayload`: reads the draft, changes nothing */
    method GetApiPayload() returns (r: PayloadResult)
      ensures r == PayloadOf(draft)
    {
      r := PayloadOf(draft);
    }

    method Reset()
      modifies this
      ensures draft == InitialDraft
    {
      draft := InitialDraft;
    }
  }
}
