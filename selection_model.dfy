/**
 * The selected-content store as values: the chapter -> topic -> subtopic hierarchy, the flat selection
 * list, the lookup maps, the counters, the question lists and each of the store's updates as a function
 * from the old state to the new one.  The class in SelectedContentStore performs the same updates in place
 * and is proved against these functions.
 */
module SelectionModel {
  import opened Wrappers
  import opened JsText
  import opened OrderedMaps

  /** The `type` of a selection; `Other` is any other value, including none at all. */
  datatype Kind = Chapter | Topic | Subtopic | Other

  /** One selection object, as the store keeps it (its `children` map lives in the entry types below). */
  datatype Node = Node(
    code: string,
    name: string,
    kind: Kind,
    questionCount: int,
    parentCode: Option<string>,
    isSelected: bool,
    isPlaceholder: bool,
    questionsToAdd: Option<int>)

  datatype TopicEntry = TopicEntry(node: Node, subtopics: OMap<Node>)
  datatype ChapterEntry = ChapterEntry(node: Node, topics: OMap<TopicEntry>)
  type Hierarchy = OMap<ChapterEntry>

  /**
   * An element of `selections`.  `ref` stands for the object's identity: a chapter's record and its
   * `chapterMap` entry are one and the same object, so a write through one shows through the other.
   */
  datatype Record = Record(ref: nat, node: Node)

  datatype Stats = Stats(chapters: int, topics: int, subtopics: int, questions: int)
  datatype Metadata = Metadata(code: string, name: string, questionCount: int)
  datatype Question = Question(id: string, fields: map<string, string>)
  /** The argument of `updateQuestion`: the properties it overwrites, `id` among them when present */
  datatype QuestionPatch = QuestionPatch(id: Option<string>, fields: map<string, string>)

  datatype Snapshot = Snapshot(
    hierarchy: Hierarchy,
    selections: seq<Record>,
    questions: seq<Question>,
    removedQuestions: seq<Question>,
    chapterMap: map<string, Record>,
    topicMap: map<string, Node>,
    subtopicMap: map<string, Node>,
    stats: Stats,
    chapterMetadata: map<string, Metadata>,
    nextRef: nat)

  /** What a caller hands to `addSelection`, `addSelectionWithContext` or `bulkAddSelections` */
  datatype Selection = Selection(
    kind: Kind,
    code: string,
    name: string,
    questionCount: Option<int>,
    parentCode: Option<string>,
    questionsToAdd: Option<int>)

  datatype ParentInfo = ParentInfo(code: string, name: string, questionCount: Option<int>)
  datatype Context = Context(parentChapter: Option<ParentInfo>, parentTopic: Option<ParentInfo>)

  const ZeroStats := Stats(0, 0, 0, 0)

  function Initial(): (r: Snapshot)
    ensures r.hierarchy.Valid() && r.hierarchy.keys == []
    ensures r.selections == [] && r.questions == [] && r.removedQuestions == []
    ensures r.chapterMap == map[] && r.topicMap == map[] && r.subtopicMap == map[]
    ensures r.stats == ZeroStats
  {
    Snapshot(Empty(), [], [], [], map[], map[], map[], ZeroStats, map[], 0)
  }

  // ---------------------------------------------------------------------------------------------
  // Well-formedness

  ghost predicate ChapterValid(ce: ChapterEntry) {
    && ce.topics.Valid()
    && forall t :: t in ce.topics.entries ==> ce.topics.entries[t].subtopics.Valid()
  }

  ghost predicate HierarchyValid(h: Hierarchy) {
    && h.Valid()
    && forall c :: c in h.entries ==> ChapterValid(h.entries[c])
  }

  /**
   * What every reachable state satisfies: well-formed hierarchy maps, object identities below `nextRef`,
   * one object per selected chapter, a chapter's list element agreeing with its `chapterMap` entry
   * (they are the same object), and every selected chapter present in the hierarchy as a real
   * (not placeholder) chapter.
   */
  ghost predicate Coherent(s: Snapshot) {
    HierarchyValid(s.hierarchy) && Identities(s) && Backed(s)
  }

  /** Every object identity is below `nextRef`; a chapter's list element and its map entry are one object. */
  ghost predicate Identities(s: Snapshot) {
    && (forall x :: x in s.selections ==> x.ref < s.nextRef)
    && (forall c :: c in s.chapterMap ==> s.chapterMap[c].ref < s.nextRef)
    && (forall c, d :: c in s.chapterMap && d in s.chapterMap && c != d ==> s.chapterMap[c].ref != s.chapterMap[d].ref)
    && (forall c, x :: c in s.chapterMap && x in s.selections && x.ref == s.chapterMap[c].ref ==> x.node == s.chapterMap[c].node)
  }

  /** Every selected chapter is in the hierarchy, and not as a placeholder. */
  ghost predicate Backed(s: Snapshot) {
    forall c :: c in s.chapterMap ==> c in s.hierarchy.entries && !s.hierarchy.entries[c].node.isPlaceholder
  }

  // ---------------------------------------------------------------------------------------------
  // Building nodes

  function Cap(kind: Kind): int {
    match kind
    case Chapter => 8
    case Topic => 4
    case Subtopic => 2
    case Other => 0
  }

  /** `getDefaultQuestionsToAdd`: the question count capped at 8, 4 or 2 by level, 0 for an unknown level */
  function DefaultQuestionsToAdd(kind: Kind, count: int): (r: int)
    ensures kind == Other ==> r == 0
    ensures kind != Other ==> r <= count && r <= Cap(kind) && (r == count || r == Cap(kind))
  {
    match kind
    case Other => 0
    case _ => if count < Cap(kind) then count else Cap(kind)
  }

  /** The object `addSelection` and `addSelectionWithContext` build from their argument */
  function SelectionNode(d: Selection): (r: Node)
    ensures r.code == d.code && r.kind == d.kind && r.parentCode == d.parentCode
    ensures r.isSelected && !r.isPlaceholder
    ensures r.questionCount == d.questionCount.GetOr(0)
    ensures r.questionsToAdd == Some(DefaultQuestionsToAdd(d.kind, r.questionCount))
  {
    var count := d.questionCount.GetOr(0);
    Node(d.code, d.name, d.kind, count, d.parentCode, true, false, Some(DefaultQuestionsToAdd(d.kind, count)))
  }

  /** `bulkAddSelections` takes the argument as it is and only marks it selected; a missing count would make the counters NaN. */
  function BulkNode(d: Selection): (r: Node)
    requires d.questionCount.Some?
    ensures r.code == d.code && r.kind == d.kind && r.parentCode == d.parentCode
    ensures r.isSelected && !r.isPlaceholder
    ensures r.questionCount == d.questionCount.value && r.questionsToAdd == d.questionsToAdd
  {
    Node(d.code, d.name, d.kind, d.questionCount.value, d.parentCode, true, false, d.questionsToAdd)
  }

  /** The unselected stand-in created when a topic arrives before its chapter; stored metadata names it. */
  function PlaceholderChapter(code: string, meta: Option<Metadata>): (r: Node)
    ensures r.code == code && r.kind == Chapter && r.isPlaceholder && !r.isSelected
    ensures meta.None? ==> r.name == "Chapter " + code && r.questionCount == 0
    ensures meta.Some? ==> r.name == meta.value.name && r.questionCount == meta.value.questionCount
  {
    Node(code,
         if meta.Some? then meta.value.name else "Chapter " + code,
         Chapter,
         if meta.Some? then meta.value.questionCount else 0,
         None, false, true, None)
  }

  function PlaceholderTopic(code: string, chapter: string, name: string, count: int): (r: Node)
    ensures r.code == code && r.kind == Topic && r.isPlaceholder && !r.isSelected
    ensures r.parentCode == Some(chapter)
  {
    Node(code, name, Topic, count, Some(chapter), false, true, None)
  }

  function Lookup(m: map<string, Metadata>, k: string): (r: Option<Metadata>)
    ensures r.Some? <==> k in m
    ensures r.Some? ==> r.value == m[k]
  {
    if k in m then Some(m[k]) else None
  }

  /** `{code, name, question_count || 0}` as stored in `chapterMetadata` */
  function MetadataOf(p: ParentInfo): Metadata {
    Metadata(p.code, p.name, p.questionCount.GetOr(0))
  }

  // ---------------------------------------------------------------------------------------------
  // Searching the hierarchy

  /** The `k`-th chapter holds topic `t` and no chapter between the `i`-th and it does. */
  ghost predicate FirstTopicHolder(h: Hierarchy, t: string, i: nat, k: nat) {
    && i <= k < |h.keys| && h.keys[k] in h.entries && t in h.entries[h.keys[k]].topics.entries
    && forall j :: i <= j < k && h.keys[j] in h.entries ==> t !in h.entries[h.keys[j]].topics.entries
  }

  /** From the `i`-th chapter on, the first chapter that has `t` among its topics */
  function TopicChapterFrom(h: Hierarchy, t: string, i: nat): (r: Option<string>)
    decreases |h.keys| - i
    ensures r.Some? ==> r.value in h.entries && t in h.entries[r.value].topics.entries
    ensures r.Some? ==> exists k: nat :: FirstTopicHolder(h, t, i, k) && h.keys[k] == r.value
    ensures r.None? ==> forall j :: i <= j < |h.keys| && h.keys[j] in h.entries ==> t !in h.entries[h.keys[j]].topics.entries
  {
    if i >= |h.keys| then None
    else if h.keys[i] in h.entries && t in h.entries[h.keys[i]].topics.entries then
      assert FirstTopicHolder(h, t, i, i);
      Some(h.keys[i])
    else
      var r := TopicChapterFrom(h, t, i + 1);
      assert r.Some? ==> exists k: nat :: FirstTopicHolder(h, t, i, k) && h.keys[k] == r.value by {
        if r.Some? {
          var k: nat :| FirstTopicHolder(h, t, i + 1, k) && h.keys[k] == r.value;
          assert FirstTopicHolder(h, t, i, k);
        }
      }
      r
  }

  /** The first chapter, in insertion order, that holds topic `t` */
  function TopicChapter(h: Hierarchy, t: string): (r: Option<string>)
    ensures r.Some? ==> r.value in h.entries && t in h.entries[r.value].topics.entries
    ensures r.Some? ==> exists k: nat :: FirstTopicHolder(h, t, 0, k) && h.keys[k] == r.value
    ensures h.Valid() ==> (r.None? <==> forall c :: c in h.entries ==> t !in h.entries[c].topics.entries)
  {
    var r := TopicChapterFrom(h, t, 0);
    assert h.Valid() && r.None? ==> forall c :: c in h.entries ==> exists j :: 0 <= j < |h.keys| && h.keys[j] == c;
    r
  }

  /** The `k`-th topic of `ts` holds subtopic `st` and no topic between the `j`-th and it does. */
  ghost predicate FirstSubtopicHolder(ts: OMap<TopicEntry>, st: string, j: nat, k: nat) {
    && j <= k < |ts.keys| && ts.keys[k] in ts.entries && st in ts.entries[ts.keys[k]].subtopics.entries
    && forall m :: j <= m < k && ts.keys[m] in ts.entries ==> st !in ts.entries[ts.keys[m]].subtopics.entries
  }

  /** From the `j`-th topic on, the first topic of `ts` that has subtopic `st` */
  function SubtopicTopicFrom(ts: OMap<TopicEntry>, st: string, j: nat): (r: Option<string>)
    decreases |ts.keys| - j
    ensures r.Some? ==> r.value in ts.entries && st in ts.entries[r.value].subtopics.entries
    ensures r.Some? ==> exists k: nat :: FirstSubtopicHolder(ts, st, j, k) && ts.keys[k] == r.value
    ensures r.None? ==> forall k :: j <= k < |ts.keys| && ts.keys[k] in ts.entries ==> st !in ts.entries[ts.keys[k]].subtopics.entries
  {
    if j >= |ts.keys| then None
    else if ts.keys[j] in ts.entries && st in ts.entries[ts.keys[j]].subtopics.entries then
      assert FirstSubtopicHolder(ts, st, j, j);
      Some(ts.keys[j])
    else
      var r := SubtopicTopicFrom(ts, st, j + 1);
      assert r.Some? ==> exists k: nat :: FirstSubtopicHolder(ts, st, j, k) && ts.keys[k] == r.value by {
        if r.Some? {
          var k: nat :| FirstSubtopicHolder(ts, st, j + 1, k) && ts.keys[k] == r.value;
          assert FirstSubtopicHolder(ts, st, j, k);
        }
      }
      r
  }

  ghost predicate LacksSubtopic(ce: ChapterEntry, st: string) {
    forall k :: 0 <= k < |ce.topics.keys| && ce.topics.keys[k] in ce.topics.entries ==> st !in ce.topics.entries[ce.topics.keys[k]].subtopics.entries
  }

  /** No chapter between the `i`-th and the `k`-th has a topic holding subtopic `st`. */
  ghost predicate NoSubtopicHomeBefore(h: Hierarchy, st: string, i: nat, k: nat) {
    && i <= k < |h.keys|
    && forall j :: i <= j < k && h.keys[j] in h.entries ==> LacksSubtopic(h.entries[h.keys[j]], st)
  }

  /**
   * From the `i`-th chapter on, the first (chapter, topic) pair, in iteration order, holding subtopic `st`:
   * the first chapter with such a topic, and within it the first such topic
   */
  function SubtopicHomeFrom(h: Hierarchy, st: string, i: nat): (r: Option<(string, string)>)
    decreases |h.keys| - i
    ensures r.Some? ==> r.value.0 in h.entries && r.value.1 in h.entries[r.value.0].topics.entries
                        && st in h.entries[r.value.0].topics.entries[r.value.1].subtopics.entries
    ensures r.Some? ==> && (exists k: nat :: NoSubtopicHomeBefore(h, st, i, k) && h.keys[k] == r.value.0)
                        && SubtopicTopicFrom(h.entries[r.value.0].topics, st, 0) == Some(r.value.1)
    ensures r.None? ==> forall j :: i <= j < |h.keys| && h.keys[j] in h.entries ==> LacksSubtopic(h.entries[h.keys[j]], st)
  {
    if i >= |h.keys| then None
    else
      var here := if h.keys[i] in h.entries then SubtopicTopicFrom(h.entries[h.keys[i]].topics, st, 0) else None;
      if here.Some? then
        assert NoSubtopicHomeBefore(h, st, i, i);
        Some((h.keys[i], here.value))
      else
        var r := SubtopicHomeFrom(h, st, i + 1);
        assert r.Some? ==> exists k: nat :: NoSubtopicHomeBefore(h, st, i, k) && h.keys[k] == r.value.0 by {
          if r.Some? {
            var k: nat :| NoSubtopicHomeBefore(h, st, i + 1, k) && h.keys[k] == r.value.0;
            assert NoSubtopicHomeBefore(h, st, i, k);
          }
        }
        r
  }

  function SubtopicHome(h: Hierarchy, st: string): (r: Option<(string, string)>)
    ensures r.Some? ==> r.value.0 in h.entries && r.value.1 in h.entries[r.value.0].topics.entries
                        && st in h.entries[r.value.0].topics.entries[r.value.1].subtopics.entries
    ensures r.Some? ==> && (exists k: nat :: NoSubtopicHomeBefore(h, st, 0, k) && h.keys[k] == r.value.0)
                        && SubtopicTopicFrom(h.entries[r.value.0].topics, st, 0) == Some(r.value.1)
    ensures HierarchyValid(h) && r.None? ==>
      forall c, t :: c in h.entries && t in h.entries[c].topics.entries ==> st !in h.entries[c].topics.entries[t].subtopics.entries
  {
    var r := SubtopicHomeFrom(h, st, 0);
    NoSubtopicHome(h, st);
    r
  }

  lemma NoSubtopicHome(h: Hierarchy, st: string)
    ensures HierarchyValid(h) && SubtopicHomeFrom(h, st, 0).None? ==>
      forall c, t :: c in h.entries && t in h.entries[c].topics.entries ==> st !in h.entries[c].topics.entries[t].subtopics.entries
  {
    if HierarchyValid(h) && SubtopicHomeFrom(h, st, 0).None? {
    forall c, t | c in h.entries && t in h.entries[c].topics.entries
      ensures st !in h.entries[c].topics.entries[t].subtopics.entries
    {
      var j :| 0 <= j < |h.keys| && h.keys[j] == c;
      assert LacksSubtopic(h.entries[c], st);
      var k :| 0 <= k < |h.entries[c].topics.keys| && h.entries[c].topics.keys[k] == t;
    }
    }
  }

  /** `code.split('_')[0]`: everything before the first underscore */
  function Before(s: string): (r: string)
    ensures '_' !in r
    ensures |r| <= |s| && r == s[..|r|]
    ensures |r| < |s| ==> s[|r|] == '_'
    ensures '_' in s ==> |r| < |s|
  {
    if s == [] || s[0] == '_' then []
    else
      var r := [s[0]] + Before(s[1..]);
      assert '_' in s ==> '_' in s[1..];
      r
  }

  /** Everything after the first underscore, so that a code with one splits as `Before + "_" + After` */
  function After(s: string): (r: string)
    ensures '_' in s ==> s == Before(s) + "_" + r
    ensures '_' !in s ==> r == []
  {
    if '_' in s then
      var b := Before(s);
      assert s == b + [s[|b|]] + s[|b| + 1..];
      s[|b| + 1..]
    else []
  }

  /** `getParentChapterCode`: the chapter holding the topic, else the code's part before its first `_`, else none */
  function ParentChapterCode(h: Hierarchy, item: string): (r: Option<string>)
    ensures TopicChapter(h, item).Some? ==> r == TopicChapter(h, item)
    ensures TopicChapter(h, item).None? && '_' in item ==> r == Some(Before(item))
    ensures TopicChapter(h, item).None? && '_' !in item ==> r.None?
  {
    match TopicChapter(h, item)
    case Some(c) => Some(c)
    case None => if '_' in item then Some(Before(item)) else None
  }

  /** `getParentTopicCode`: the topic holding the subtopic, else the code's first two `_`-separated parts, else none */
  function ParentTopicCode(h: Hierarchy, item: string): (r: Option<string>)
    ensures SubtopicHome(h, item).Some? ==> r == Some(SubtopicHome(h, item).value.1)
    ensures SubtopicHome(h, item).None? && '_' in item ==> r == Some(Before(item) + "_" + Before(After(item)))
    ensures SubtopicHome(h, item).None? && '_' !in item ==> r.None?
  {
    match SubtopicHome(h, item)
    case Some((_, t)) => Some(t)
    case None => if '_' in item then Some(Before(item) + "_" + Before(After(item))) else None
  }

  /** `getParentChapterCode(...) || 'unknown_chapter'` */
  function ChapterOrUnknown(c: Option<string>): (r: string)
    ensures Truthy(c) ==> r == c.value
    ensures !Truthy(c) ==> r == "unknown_chapter"
  {
    if Truthy(c) then c.value else "unknown_chapter"
  }

  // ---------------------------------------------------------------------------------------------
  // Adding

  /** `addChapter`: a copy with no topics goes into the hierarchy; one shared object into the map and the list */
  function AddChapter(s: Snapshot, n: Node): Snapshot {
    var rec := Record(s.nextRef, n);
    s.(hierarchy := s.hierarchy.Set(n.code, ChapterEntry(n, Empty())),
       chapterMap := s.chapterMap[n.code := rec],
       selections := s.selections + [rec],
       stats := s.stats.(chapters := s.stats.chapters + 1, questions := s.stats.questions + n.questionCount),
       nextRef := s.nextRef + 1)
  }

  /**
   * The string that stands for JavaScript's `null` where the source uses it as a Map key: the key of the
   * placeholder chapter a parentless topic creates.  `Chapter ${null}` reads "Chapter null".
   */
  const NullKey: string := "null"

  /** The Map key a possibly absent code turns into */
  function KeyOf(code: Option<string>): (r: string)
    ensures code.Some? ==> r == code.value
    ensures code.None? ==> r == NullKey
  {
    if code.Some? then code.value else NullKey
  }

  /** The parent chapter code `addTopic` settles on: its own `parent_code`, else the parent's code when it is falsy */
  function TopicParent(own: Option<string>, parent: Option<string>): (r: Option<string>)
    ensures Truthy(own) ==> r == own
    ensures !Truthy(own) ==> r == (if parent.Some? then parent else own)
  {
    if !Truthy(own) && parent.Some? then parent else own
  }

  /**
   * Makes sure the chapter keyed by parent code `pc` exists (as `placeholder` when missing) and files topic
   * node `t` under it, with `pc` as the topic's parent code.
   */
  function PlaceTopic(s: Snapshot, t: Node, pc: Option<string>, placeholder: Node): (r: Snapshot)
    ensures var c := KeyOf(pc);
            && c in r.hierarchy.entries && t.code in r.hierarchy.entries[c].topics.entries
            && r.hierarchy.entries[c].topics.entries[t.code].node == t.(parentCode := pc)
            && (c in s.hierarchy.entries ==> r.hierarchy.keys == s.hierarchy.keys)
            && (c !in s.hierarchy.entries ==> r.hierarchy.keys == s.hierarchy.keys + [c]
                                              && r.hierarchy.entries[c].node == placeholder)
  {
    var c := KeyOf(pc);
    var h1 := if c in s.hierarchy.entries then s.hierarchy else s.hierarchy.Set(c, ChapterEntry(placeholder, Empty()));
    var ch := h1.entries[c];
    var topic := t.(parentCode := pc);
    s.(hierarchy := h1.Set(c, ch.(topics := ch.topics.Set(t.code, TopicEntry(topic, Empty())))),
       topicMap := s.topicMap[t.code := topic],
       selections := s.selections + [Record(s.nextRef, topic)],
       stats := s.stats.(topics := s.stats.topics + 1, questions := s.stats.questions + t.questionCount),
       nextRef := s.nextRef + 1)
  }

  /** `PlaceTopic` once the chapter is known to be in `h1`, the hierarchy with the placeholder in place */
  lemma PlaceTopicAfterHost(s: Snapshot, t: Node, pc: Option<string>, placeholder: Node, h1: Hierarchy)
    requires var c := KeyOf(pc);
             h1 == if c in s.hierarchy.entries then s.hierarchy else s.hierarchy.Set(c, ChapterEntry(placeholder, Empty()))
    ensures KeyOf(pc) in h1.entries
    ensures var ch := h1.entries[KeyOf(pc)];
            var topic := t.(parentCode := pc);
            PlaceTopic(s, t, pc, placeholder)
              == s.(hierarchy := h1.Set(KeyOf(pc), ch.(topics := ch.topics.Set(t.code, TopicEntry(topic, Empty())))),
                    topicMap := s.topicMap[t.code := topic],
                    selections := s.selections + [Record(s.nextRef, topic)],
                    stats := s.stats.(topics := s.stats.topics + 1, questions := s.stats.questions + t.questionCount),
                    nextRef := s.nextRef + 1)
  {
  }

  /** `addTopic`: with no parent code at all, the topic is filed under a placeholder chapter keyed `null` */
  function AddTopic(s: Snapshot, t: Node, parent: Option<string>): Snapshot {
    var pc := TopicParent(t.parentCode, parent);
    PlaceTopic(s, t, pc, PlaceholderChapter(KeyOf(pc), None))
  }

  function ContextChapter(ctx: Option<Context>): Option<ParentInfo> {
    if ctx.Some? then ctx.value.parentChapter else None
  }

  function ContextTopic(ctx: Option<Context>): Option<ParentInfo> {
    if ctx.Some? then ctx.value.parentTopic else None
  }

  /** The parent chapter `addTopicWithContext` settles on: the context's chapter first, else the node's own */
  function ContextTopicParent(t: Node, ctx: Option<Context>): Option<string> {
    if ContextChapter(ctx).Some? then Some(ContextChapter(ctx).value.code) else t.parentCode
  }

  /** A context chapter is remembered in `chapterMetadata` before anything else happens. */
  function NoteContextChapter(s: Snapshot, ctx: Option<Context>): Snapshot {
    if ContextChapter(ctx).Some? then
      var p := ContextChapter(ctx).value;
      s.(chapterMetadata := s.chapterMetadata[p.code := MetadataOf(p)])
    else s
  }

  /** `addTopicWithContext`: like `addTopic`, but a missing chapter's placeholder takes its stored metadata */
  function AddTopicWithContext(s: Snapshot, t: Node, ctx: Option<Context>): Snapshot {
    var pc := ContextTopicParent(t, ctx);
    var s1 := NoteContextChapter(s, ctx);
    PlaceTopic(s1, t, pc, PlaceholderChapter(KeyOf(pc), Lookup(s1.chapterMetadata, KeyOf(pc))))
  }

  /** Makes sure topic `t` exists under chapter `c`, creating the chapter placeholder and `topic` as needed. */
  function HostTopic(h: Hierarchy, c: string, chapter: Node, topic: Node): (r: Hierarchy)
    ensures c in r.entries && topic.code in r.entries[c].topics.entries
    ensures r.entries[c].topics.entries[topic.code] == TopicEntry(topic, Empty())
    ensures r.entries[c].node == if c in h.entries then h.entries[c].node else chapter
  {
    var h1 := if c in h.entries then h else h.Set(c, ChapterEntry(chapter, Empty()));
    var ch := h1.entries[c];
    h1.Set(c, ch.(topics := ch.topics.Set(topic.code, TopicEntry(topic, Empty()))))
  }

  function AttachSubtopic(h: Hierarchy, c: string, t: string, sub: Node): (r: Hierarchy)
    requires c in h.entries && t in h.entries[c].topics.entries
    ensures c in r.entries && t in r.entries[c].topics.entries
    ensures r.entries[c].topics.entries[t].subtopics.entries == h.entries[c].topics.entries[t].subtopics.entries[sub.code := sub]
    ensures r.keys == h.keys && r.entries[c].topics.keys == h.entries[c].topics.keys
    ensures r.entries[c].node == h.entries[c].node && r.entries[c].topics.entries[t].node == h.entries[c].topics.entries[t].node
  {
    var ch := h.entries[c];
    var te := ch.topics.entries[t];
    h.Set(c, ch.(topics := ch.topics.Set(t, te.(subtopics := te.subtopics.Set(sub.code, sub)))))
  }

  /** The map, list and counter half of adding a subtopic */
  function RecordSubtopic(s: Snapshot, sub: Node): Snapshot {
    s.(subtopicMap := s.subtopicMap[sub.code := sub],
       selections := s.selections + [Record(s.nextRef, sub)],
       stats := s.stats.(subtopics := s.stats.subtopics + 1, questions := s.stats.questions + sub.questionCount),
       nextRef := s.nextRef + 1)
  }

  /**
   * The hierarchy half of adding a subtopic under topic `t`: into the first chapter holding `t`, or else
   * into `topic` (which has code `t`) under chapter `c`, with `chapter` standing in for a missing `c`
   */
  function PlaceSubtopic(h: Hierarchy, t: string, sub: Node, c: string, chapter: Node, topic: Node): (r: Hierarchy)
    requires topic.code == t
    ensures TopicChapter(h, t).Some? ==> r == AttachSubtopic(h, TopicChapter(h, t).value, t, sub)
    ensures TopicChapter(h, t).None? ==> r == AttachSubtopic(HostTopic(h, c, chapter, topic), c, t, sub)
  {
    match TopicChapter(h, t)
    case Some(found) => AttachSubtopic(h, found, t, sub)
    case None => AttachSubtopic(HostTopic(h, c, chapter, topic), c, t, sub)
  }

  /** `addSubtopic`: under the first chapter holding the parent topic, else under placeholders */
  function AddSubtopic(s: Snapshot, n: Node, parent: Option<string>): Snapshot
    requires TopicParent(n.parentCode, parent).Some?
  {
    var t := TopicParent(n.parentCode, parent).value;
    var c := ChapterOrUnknown(ParentChapterCode(s.hierarchy, t));
    var sub := n.(parentCode := Some(t));
    var h := PlaceSubtopic(s.hierarchy, t, sub, c, PlaceholderChapter(c, None), PlaceholderTopic(t, c, "Topic " + t, 0));
    RecordSubtopic(s.(hierarchy := h), sub)
  }

  function ContextSubtopicParent(n: Node, ctx: Option<Context>): Option<string> {
    if ContextTopic(ctx).Some? then Some(ContextTopic(ctx).value.code) else n.parentCode
  }

  function GivenChapter(ctx: Option<Context>): Option<string> {
    if ContextChapter(ctx).Some? then Some(ContextChapter(ctx).value.code) else None
  }

  /** The placeholder chapter code for a context subtopic: the context's chapter when truthy, else inferred */
  function ContextSubtopicChapter(h: Hierarchy, t: string, ctx: Option<Context>): string {
    if Truthy(GivenChapter(ctx)) then GivenChapter(ctx).value else ChapterOrUnknown(ParentChapterCode(h, t))
  }

  /**
   * What `addSubtopicWithContext` needs: a parent topic code, or a truthy context chapter so that the
   * source never infers a chapter from a `null` topic code (`null.includes` throws)
   */
  predicate CanAddSubtopicWithContext(n: Node, ctx: Option<Context>) {
    ContextSubtopicParent(n, ctx).Some? || Truthy(GivenChapter(ctx))
  }

  /**
   * `addSubtopicWithContext`: the context names the parent topic and, for placeholders, the chapter; with
   * no topic code at all the subtopic goes under a placeholder topic keyed `null`
   */
  function AddSubtopicWithContext(s: Snapshot, n: Node, ctx: Option<Context>): Snapshot
    requires CanAddSubtopicWithContext(n, ctx)
  {
    var t := KeyOf(ContextSubtopicParent(n, ctx));
    var s1 := NoteContextChapter(s, ctx);
    var sub := n.(parentCode := ContextSubtopicParent(n, ctx));
    var c := ContextSubtopicChapter(s1.hierarchy, t, ctx);
    var name := if ContextTopic(ctx).Some? then ContextTopic(ctx).value.name else "Topic " + t;
    var count := if ContextTopic(ctx).Some? then ContextTopic(ctx).value.questionCount.GetOr(0) else 0;
    var chapter := PlaceholderChapter(c, Lookup(s1.chapterMetadata, c));
    var h := PlaceSubtopic(s1.hierarchy, t, sub, c, chapter, PlaceholderTopic(t, c, name, count));
    RecordSubtopic(s1.(hierarchy := h), sub)
  }

  /** What `addSelection` needs of its caller: a subtopic must end up with a parent topic code. */
  predicate CanAdd(d: Selection, parent: Option<string>) {
    d.kind == Subtopic ==> TopicParent(d.parentCode, parent).Some?
  }

  /** `addSelection`: build the selection object and file it by level; any other level changes nothing */
  function AddSelection(s: Snapshot, d: Selection, parent: Option<string>): Snapshot
    requires CanAdd(d, parent)
  {
    var n := SelectionNode(d);
    match d.kind
    case Chapter => AddChapter(s, n)
    case Topic => AddTopic(s, n, parent)
    case Subtopic => AddSubtopic(s, n, parent)
    case Other => s
  }

  predicate CanAddWithContext(d: Selection, ctx: Option<Context>) {
    d.kind == Subtopic ==> CanAddSubtopicWithContext(SelectionNode(d), ctx)
  }

  /** `addSelectionWithContext` */
  function AddSelectionWithContext(s: Snapshot, d: Selection, ctx: Option<Context>): Snapshot
    requires CanAddWithContext(d, ctx)
  {
    var n := SelectionNode(d);
    match d.kind
    case Chapter => AddChapter(s, n)
    case Topic => AddTopicWithContext(s, n, ctx)
    case Subtopic => AddSubtopicWithContext(s, n, ctx)
    case Other => s
  }

  /** A bulk item needs a count (else the counters turn NaN) and, as a subtopic, its own parent code. */
  predicate BulkReady(d: Selection) {
    && d.questionCount.Some?
    && (d.kind == Subtopic ==> d.parentCode.Some?)
  }

  function BulkStep(s: Snapshot, d: Selection): Snapshot
    requires BulkReady(d)
  {
    match d.kind
    case Chapter => AddChapter(s, BulkNode(d))
    case Topic => AddTopic(s, BulkNode(d), None)
    case Subtopic => AddSubtopic(s, BulkNode(d), None)
    case Other => s
  }

  /** `bulkAddSelections`: each item in turn, with no parent data */
  function BulkAdd(s: Snapshot, items: seq<Selection>): Snapshot
    requires forall i :: 0 <= i < |items| ==> BulkReady(items[i])
  {
    if items == [] then s
    else BulkStep(BulkAdd(s, items[..|items| - 1]), items[|items| - 1])
  }

  /** `storeChapterMetadata` */
  function StoreChapterMetadata(s: Snapshot, p: ParentInfo): Snapshot {
    s.(chapterMetadata := s.chapterMetadata[p.code := MetadataOf(p)])
  }

  // ---------------------------------------------------------------------------------------------
  // Removing

  /** `selections.filter(s => s.code !== code)` */
  function WithoutCode(sel: seq<Record>, code: string): (r: seq<Record>)
    ensures forall x :: x in r <==> x in sel && x.node.code != code
    ensures |r| <= |sel|
  {
    if sel == [] then []
    else (if sel[0].node.code == code then [] else [sel[0]]) + WithoutCode(sel[1..], code)
  }

  /** One subtopic leaves the subtopic map, the list and the counters. */
  function DropSubtopic(s: Snapshot, code: string, sub: Node): Snapshot {
    s.(subtopicMap := s.subtopicMap - {code},
       selections := WithoutCode(s.selections, code),
       stats := s.stats.(subtopics := s.stats.subtopics - 1, questions := s.stats.questions - sub.questionCount))
  }

  /** Counter by counter, `a` take away `b` */
  function Less(a: Stats, b: Stats): Stats {
    Stats(a.chapters - b.chapters, a.topics - b.topics, a.subtopics - b.subtopics, a.questions - b.questions)
  }

  /** What dropping the subtopics of `subs` listed in `ks` takes off the counters: one each, and their questions */
  function SubtopicsWeight(subs: OMap<Node>, ks: seq<string>): (r: Stats)
    ensures r.chapters == 0 && r.topics == 0 && 0 <= r.subtopics <= |ks|
  {
    if ks == [] then ZeroStats
    else
      var w := SubtopicsWeight(subs, ks[..|ks| - 1]);
      var k := ks[|ks| - 1];
      if k in subs.entries then w.(subtopics := w.subtopics + 1, questions := w.questions + subs.entries[k].questionCount) else w
  }

  /** What dropping the topics of `ts` listed in `ks`, with all their subtopics, takes off the counters */
  function TopicsWeight(ts: OMap<TopicEntry>, ks: seq<string>): (r: Stats)
    ensures r.chapters == 0 && 0 <= r.topics <= |ks| && 0 <= r.subtopics
  {
    if ks == [] then ZeroStats
    else
      var w := TopicsWeight(ts, ks[..|ks| - 1]);
      var k := ks[|ks| - 1];
      if k in ts.entries then
        var te := ts.entries[k];
        var ws := SubtopicsWeight(te.subtopics, te.subtopics.keys);
        Stats(0, w.topics + 1, w.subtopics + ws.subtopics, w.questions + te.node.questionCount + ws.questions)
      else w
  }

  /** The subtopics of `subs` listed in `ks`, dropped one after the other */
  function DropSubtopics(s: Snapshot, subs: OMap<Node>, ks: seq<string>): (r: Snapshot)
    ensures r.hierarchy == s.hierarchy && r.chapterMap == s.chapterMap && r.topicMap == s.topicMap
    ensures r.nextRef == s.nextRef && r.questions == s.questions && r.removedQuestions == s.removedQuestions
    ensures r.chapterMetadata == s.chapterMetadata
    ensures r.subtopicMap == s.subtopicMap - (set k | k in ks && k in subs.entries)
    ensures forall x :: x in r.selections <==> x in s.selections && !(x.node.code in ks && x.node.code in subs.entries)
  {
    if ks == [] then s
    else
      var s1 := DropSubtopics(s, subs, ks[..|ks| - 1]);
      var k := ks[|ks| - 1];
      assert forall x :: x in ks <==> x in ks[..|ks| - 1] || x == k;
      if k in subs.entries then DropSubtopic(s1, k, subs.entries[k]) else s1
  }

  /** One topic leaves the topic map, the list and the counters, and then so do its subtopics. */
  /** Dropping the subtopics listed in `ks` takes exactly their weight off the counters. */
  lemma {:induction false} DropSubtopicsStats(s: Snapshot, subs: OMap<Node>, ks: seq<string>)
    ensures DropSubtopics(s, subs, ks).stats == Less(s.stats, SubtopicsWeight(subs, ks))
    decreases |ks|
  {
    if ks != [] {
      DropSubtopicsStats(s, subs, ks[..|ks| - 1]);
    }
  }

  function DropTopic(s: Snapshot, code: string, te: TopicEntry): Snapshot {
    var s1 := s.(topicMap := s.topicMap - {code},
                 selections := WithoutCode(s.selections, code),
                 stats := s.stats.(topics := s.stats.topics - 1, questions := s.stats.questions - te.node.questionCount));
    DropSubtopics(s1, te.subtopics, te.subtopics.keys)
  }

  function DropTopics(s: Snapshot, ts: OMap<TopicEntry>, ks: seq<string>): (r: Snapshot)
    ensures r.hierarchy == s.hierarchy && r.chapterMap == s.chapterMap
    ensures r.nextRef == s.nextRef && r.questions == s.questions && r.removedQuestions == s.removedQuestions
    ensures r.chapterMetadata == s.chapterMetadata
    ensures r.topicMap == s.topicMap - (set k | k in ks && k in ts.entries)
    ensures forall x :: x in r.selections ==> x in s.selections
  {
    if ks == [] then s
    else
      var s1 := DropTopics(s, ts, ks[..|ks| - 1]);
      var k := ks[|ks| - 1];
      assert forall x :: x in ks <==> x in ks[..|ks| - 1] || x == k;
      if k in ts.entries then DropTopic(s1, k, ts.entries[k]) else s1
  }

  /** Dropping the topics listed in `ks` takes exactly their weight, subtopics included, off the counters. */
  lemma {:induction false} DropTopicsStats(s: Snapshot, ts: OMap<TopicEntry>, ks: seq<string>)
    ensures DropTopics(s, ts, ks).stats == Less(s.stats, TopicsWeight(ts, ks))
    decreases |ks|
  {
    if ks != [] {
      var k := ks[|ks| - 1];
      DropTopicsStats(s, ts, ks[..|ks| - 1]);
      if k in ts.entries {
        var te := ts.entries[k];
        var s1 := DropTopics(s, ts, ks[..|ks| - 1]);
        DropSubtopicsStats(s1.(topicMap := s1.topicMap - {k}, selections := WithoutCode(s1.selections, k),
                               stats := s1.stats.(topics := s1.stats.topics - 1, questions := s1.stats.questions - te.node.questionCount)),
                           te.subtopics, te.subtopics.keys);
      }
    }
  }

  /** One more key of the cascade is one more `DropTopic` on the result so far. */
  lemma DropSubtopicsStep(s: Snapshot, subs: OMap<Node>, ks: seq<string>, j: nat)
    requires j < |ks| && ks[j] in subs.entries
    ensures DropSubtopics(s, subs, ks[..j + 1]) == DropSubtopic(DropSubtopics(s, subs, ks[..j]), ks[j], subs.entries[ks[j]])
  {
    assert ks[..j + 1][..j] == ks[..j];
  }

  lemma DropTopicsStep(s: Snapshot, ts: OMap<TopicEntry>, ks: seq<string>, j: nat)
    requires j < |ks| && ks[j] in ts.entries
    ensures DropTopics(s, ts, ks[..j + 1]) == DropTopic(DropTopics(s, ts, ks[..j]), ks[j], ts.entries[ks[j]])
  {
    assert ks[..j + 1][..j] == ks[..j];
  }

  /** A chapter goes together with all of its topics and their subtopics. */
  function RemoveChapter(s: Snapshot, c: string): Snapshot
    requires c in s.hierarchy.entries
  {
    var ch := s.hierarchy.entries[c];
    var s1 := DropTopics(s, ch.topics, ch.topics.keys);
    s1.(hierarchy := s1.hierarchy.Delete(c),
        chapterMap := s1.chapterMap - {c},
        selections := WithoutCode(s1.selections, c),
        stats := s1.stats.(chapters := s1.stats.chapters - 1, questions := s1.stats.questions - ch.node.questionCount))
  }

  /** The chapter branch, read as the cascade's result `s1` followed by the chapter's own removal. */
  lemma RemoveChapterAfterCascade(s: Snapshot, c: string, s1: Snapshot)
    requires c in s.hierarchy.entries
    requires s1 == DropTopics(s, s.hierarchy.entries[c].topics, s.hierarchy.entries[c].topics.keys)
    ensures RemoveChapter(s, c) == s1.(hierarchy := s.hierarchy.Delete(c), chapterMap := s.chapterMap - {c},
                                       selections := WithoutCode(s1.selections, c),
                                       stats := s1.stats.(chapters := s1.stats.chapters - 1,
                                                          questions := s1.stats.questions - s.hierarchy.entries[c].node.questionCount))
  {
  }

  /** A topic of chapter `c` goes, its subtopics first. */
  function RemoveTopic(s: Snapshot, c: string, t: string): Snapshot
    requires c in s.hierarchy.entries && t in s.hierarchy.entries[c].topics.entries
  {
    var ch := s.hierarchy.entries[c];
    var te := ch.topics.entries[t];
    var s1 := DropSubtopics(s, te.subtopics, te.subtopics.keys);
    s1.(hierarchy := s1.hierarchy.Set(c, ch.(topics := ch.topics.Delete(t))),
        topicMap := s1.topicMap - {t},
        selections := WithoutCode(s1.selections, t),
        stats := s1.stats.(topics := s1.stats.topics - 1, questions := s1.stats.questions - te.node.questionCount))
  }

  /** The topic branch, read as the cascade's result `s1` followed by the topic's own removal. */
  lemma RemoveTopicAfterCascade(s: Snapshot, c: string, t: string, s1: Snapshot)
    requires c in s.hierarchy.entries && t in s.hierarchy.entries[c].topics.entries
    requires var te := s.hierarchy.entries[c].topics.entries[t];
             s1 == DropSubtopics(s, te.subtopics, te.subtopics.keys)
    ensures var ch := s.hierarchy.entries[c];
            var te := ch.topics.entries[t];
            RemoveTopic(s, c, t) == s1.(hierarchy := s.hierarchy.Set(c, ch.(topics := ch.topics.Delete(t))),
                                        topicMap := s.topicMap - {t}, selections := WithoutCode(s1.selections, t),
                                        stats := s1.stats.(topics := s1.stats.topics - 1,
                                                           questions := s1.stats.questions - te.node.questionCount))
  {
  }

  function RemoveSubtopic(s: Snapshot, c: string, t: string, st: string): Snapshot
    requires c in s.hierarchy.entries && t in s.hierarchy.entries[c].topics.entries
    requires st in s.hierarchy.entries[c].topics.entries[t].subtopics.entries
  {
    var ch := s.hierarchy.entries[c];
    var te := ch.topics.entries[t];
    var s1 := DropSubtopic(s, st, te.subtopics.entries[st]);
    s1.(hierarchy := s.hierarchy.Set(c, ch.(topics := ch.topics.Set(t, te.(subtopics := te.subtopics.Delete(st))))))
  }

  /** `removeSelection`: the code is tried as a chapter, then as a topic, then as a subtopic; unknown codes change nothing */
  function RemoveSelection(s: Snapshot, code: string): Snapshot {
    if code in s.hierarchy.entries then RemoveChapter(s, code)
    else match TopicChapter(s.hierarchy, code)
      case Some(c) => RemoveTopic(s, c, code)
      case None =>
        match SubtopicHome(s.hierarchy, code)
        case Some((c, t)) => RemoveSubtopic(s, c, t, code)
        case None => s
  }

  // ---------------------------------------------------------------------------------------------
  // Updating a count

  /** Where a node sits in the hierarchy */
  datatype Path = AtChapter(chapter: string) | AtTopic(chapter: string, topic: string) | AtSubtopic(chapter: string, topic: string, subtopic: string)

  predicate InChapter(ce: ChapterEntry, p: Path) {
    match p
    case AtChapter(_) => true
    case AtTopic(_, t) => t in ce.topics.entries
    case AtSubtopic(_, t, st) => t in ce.topics.entries && st in ce.topics.entries[t].subtopics.entries
  }

  predicate PathIn(h: Hierarchy, p: Path) {
    p.chapter in h.entries && InChapter(h.entries[p.chapter], p)
  }

  function NodeIn(ce: ChapterEntry, p: Path): Node
    requires InChapter(ce, p)
  {
    match p
    case AtChapter(_) => ce.node
    case AtTopic(_, t) => ce.topics.entries[t].node
    case AtSubtopic(_, t, st) => ce.topics.entries[t].subtopics.entries[st]
  }

  function NodeAt(h: Hierarchy, p: Path): Node
    requires PathIn(h, p)
  {
    NodeIn(h.entries[p.chapter], p)
  }

  ghost predicate SubtopicsLack(ss: OMap<Node>, code: string) {
    forall m :: 0 <= m < |ss.keys| && ss.keys[m] in ss.entries ==> ss.entries[ss.keys[m]].code != code
  }

  ghost predicate TopicsLack(ts: OMap<TopicEntry>, code: string, j: nat) {
    forall k :: j <= k < |ts.keys| && ts.keys[k] in ts.entries ==>
      ts.entries[ts.keys[k]].node.code != code && SubtopicsLack(ts.entries[ts.keys[k]].subtopics, code)
  }

  ghost predicate ChapterLacks(ce: ChapterEntry, code: string) {
    ce.node.code != code && TopicsLack(ce.topics, code, 0)
  }

  /** No subtopic between the `m`-th and the `q`-th has `code`. */
  ghost predicate SubtopicsLackBefore(ss: OMap<Node>, code: string, m: nat, q: nat) {
    && m <= q < |ss.keys|
    && forall p :: m <= p < q && ss.keys[p] in ss.entries ==> ss.entries[ss.keys[p]].code != code
  }

  /** The first subtopic key, from the `m`-th on, whose node has `code` */
  function SubtopicNodeFrom(ss: OMap<Node>, code: string, m: nat): (r: Option<string>)
    decreases |ss.keys| - m
    ensures r.Some? ==> r.value in ss.entries && ss.entries[r.value].code == code
    ensures r.Some? ==> exists q: nat :: SubtopicsLackBefore(ss, code, m, q) && ss.keys[q] == r.value
    ensures r.None? ==> forall k :: m <= k < |ss.keys| && ss.keys[k] in ss.entries ==> ss.entries[ss.keys[k]].code != code
  {
    if m >= |ss.keys| then None
    else if ss.keys[m] in ss.entries && ss.entries[ss.keys[m]].code == code then
      assert SubtopicsLackBefore(ss, code, m, m);
      Some(ss.keys[m])
    else
      var r := SubtopicNodeFrom(ss, code, m + 1);
      assert r.Some? ==> exists q: nat :: SubtopicsLackBefore(ss, code, m, q) && ss.keys[q] == r.value by {
        if r.Some? {
          var q: nat :| SubtopicsLackBefore(ss, code, m + 1, q) && ss.keys[q] == r.value;
          assert SubtopicsLackBefore(ss, code, m, q);
        }
      }
      r
  }

  /** No topic between the `j`-th and the `k`-th, nor any of its subtopics, has `code`. */
  ghost predicate TopicsLackBefore(ts: OMap<TopicEntry>, code: string, j: nat, k: nat) {
    && j <= k < |ts.keys|
    && forall m :: j <= m < k && ts.keys[m] in ts.entries ==>
         ts.entries[ts.keys[m]].node.code != code && SubtopicsLack(ts.entries[ts.keys[m]].subtopics, code)
  }

  /**
   * Depth first through the topics of chapter `c` from the `j`-th: a topic itself before its subtopics.
   * The result's topic is the first, in insertion order, that has `code` or a subtopic with it.
   */
  function TopicNodeFrom(c: string, ce: ChapterEntry, code: string, j: nat): (r: Option<Path>)
    decreases |ce.topics.keys| - j
    ensures r.Some? ==> !r.value.AtChapter? && r.value.chapter == c && InChapter(ce, r.value) && NodeIn(ce, r.value).code == code
    ensures r.Some? ==> && (exists k: nat :: TopicsLackBefore(ce.topics, code, j, k) && ce.topics.keys[k] == r.value.topic)
                        && (r.value.AtSubtopic? ==>
                              && ce.topics.entries[r.value.topic].node.code != code
                              && SubtopicNodeFrom(ce.topics.entries[r.value.topic].subtopics, code, 0) == Some(r.value.subtopic))
    ensures r.None? ==> TopicsLack(ce.topics, code, j)
  {
    var ts := ce.topics;
    if j >= |ts.keys| then None
    else
      var here :=
        if ts.keys[j] !in ts.entries then None
        else if ts.entries[ts.keys[j]].node.code == code then Some(AtTopic(c, ts.keys[j]))
        else match SubtopicNodeFrom(ts.entries[ts.keys[j]].subtopics, code, 0)
          case Some(st) => Some(AtSubtopic(c, ts.keys[j], st))
          case None => None;
      if here.Some? then
        assert TopicsLackBefore(ts, code, j, j);
        here
      else
        var r := TopicNodeFrom(c, ce, code, j + 1);
        assert r.Some? ==> exists k: nat :: TopicsLackBefore(ts, code, j, k) && ts.keys[k] == r.value.topic by {
          if r.Some? {
            var k: nat :| TopicsLackBefore(ts, code, j + 1, k) && ts.keys[k] == r.value.topic;
            assert TopicsLackBefore(ts, code, j, k);
          }
        }
        r
  }

  /** No chapter between the `i`-th and the `k`-th, nor anything below it, has `code`. */
  ghost predicate ChaptersLackBefore(h: Hierarchy, code: string, i: nat, k: nat) {
    && i <= k < |h.keys|
    && forall j :: i <= j < k && h.keys[j] in h.entries ==> ChapterLacks(h.entries[h.keys[j]], code)
  }

  /**
   * `updateInHierarchy`: the first node, depth first in insertion order, whose code is `code`: the first
   * chapter that has it anywhere, the chapter itself before its topics
   */
  function FindNodeFrom(h: Hierarchy, code: string, i: nat): (r: Option<Path>)
    decreases |h.keys| - i
    ensures r.Some? ==> PathIn(h, r.value) && NodeAt(h, r.value).code == code
    ensures r.Some? ==> && (exists k: nat :: ChaptersLackBefore(h, code, i, k) && h.keys[k] == r.value.chapter)
                        && (!r.value.AtChapter? ==>
                              && h.entries[r.value.chapter].node.code != code
                              && TopicNodeFrom(r.value.chapter, h.entries[r.value.chapter], code, 0) == r)
    ensures r.None? ==> forall j :: i <= j < |h.keys| && h.keys[j] in h.entries ==> ChapterLacks(h.entries[h.keys[j]], code)
  {
    if i >= |h.keys| then None
    else
      var here :=
        if h.keys[i] !in h.entries then None
        else if h.entries[h.keys[i]].node.code == code then Some(AtChapter(h.keys[i]))
        else TopicNodeFrom(h.keys[i], h.entries[h.keys[i]], code, 0);
      if here.Some? then
        assert ChaptersLackBefore(h, code, i, i);
        here
      else
        var r := FindNodeFrom(h, code, i + 1);
        assert r.Some? ==> exists k: nat :: ChaptersLackBefore(h, code, i, k) && h.keys[k] == r.value.chapter by {
          if r.Some? {
            var k: nat :| ChaptersLackBefore(h, code, i + 1, k) && h.keys[k] == r.value.chapter;
            assert ChaptersLackBefore(h, code, i, k);
          }
        }
        r
  }

  function FindNode(h: Hierarchy, code: string): (r: Option<Path>)
    ensures r.Some? ==> PathIn(h, r.value) && NodeAt(h, r.value).code == code
    ensures r.Some? ==> && (exists k: nat :: ChaptersLackBefore(h, code, 0, k) && h.keys[k] == r.value.chapter)
                        && (!r.value.AtChapter? ==>
                              && h.entries[r.value.chapter].node.code != code
                              && TopicNodeFrom(r.value.chapter, h.entries[r.value.chapter], code, 0) == r)
    ensures HierarchyValid(h) && r.None? ==> forall p :: PathIn(h, p) ==> NodeAt(h, p).code != code
  {
    var r := FindNodeFrom(h, code, 0);
    NoNode(h, code);
    r
  }

  lemma NoNode(h: Hierarchy, code: string)
    ensures HierarchyValid(h) && FindNodeFrom(h, code, 0).None? ==> forall p :: PathIn(h, p) ==> NodeAt(h, p).code != code
  {
    if HierarchyValid(h) && FindNodeFrom(h, code, 0).None? {
    forall p | PathIn(h, p) ensures NodeAt(h, p).code != code {
      var j :| 0 <= j < |h.keys| && h.keys[j] == p.chapter;
      var ce := h.entries[p.chapter];
      assert ChapterLacks(ce, code);
      if !p.AtChapter? {
        var k :| 0 <= k < |ce.topics.keys| && ce.topics.keys[k] == p.topic;
        if p.AtSubtopic? {
          var ss := ce.topics.entries[p.topic].subtopics;
          var m :| 0 <= m < |ss.keys| && ss.keys[m] == p.subtopic;
        }
      }
    }
    }
  }

  function WithQuota(n: Node, q: int): Node {
    n.(questionsToAdd := Some(q))
  }

  /** The hierarchy with the node at `p` given `q` questions to add; nothing moves */
  function SetQuota(h: Hierarchy, p: Path, q: int): (r: Hierarchy)
    requires PathIn(h, p)
    ensures PathIn(r, p) && NodeAt(r, p) == WithQuota(NodeAt(h, p), q)
    ensures r.keys == h.keys && r.entries.Keys == h.entries.Keys
  {
    var ce := h.entries[p.chapter];
    match p
    case AtChapter(c) => h.Set(c, ce.(node := WithQuota(ce.node, q)))
    case AtTopic(c, t) =>
      var te := ce.topics.entries[t];
      h.Set(c, ce.(topics := ce.topics.Set(t, te.(node := WithQuota(te.node, q)))))
    case AtSubtopic(c, t, st) =>
      var te := ce.topics.entries[t];
      var ss := te.subtopics;
      h.Set(c, ce.(topics := ce.topics.Set(t, te.(subtopics := ss.Set(st, WithQuota(ss.entries[st], q))))))
  }

  /** Every list element that is the object `ref` shows the new quota. */
  function Retag(sel: seq<Record>, ref: nat, q: int): (r: seq<Record>)
    ensures |r| == |sel|
    ensures forall i :: 0 <= i < |sel| ==> r[i].ref == sel[i].ref
    ensures forall i :: 0 <= i < |sel| ==> r[i].node == (if sel[i].ref == ref then WithQuota(sel[i].node, q) else sel[i].node)
  {
    seq(|sel|, i requires 0 <= i < |sel| =>
      if sel[i].ref == ref then Record(ref, WithQuota(sel[i].node, q)) else sel[i])
  }

  /**
   * `updateQuestionCount`: the first matching hierarchy node and each lookup map entry of that code get
   * the new quota; the chapter map entry is shared with its list element, which changes with it.
   */
  function UpdateQuestionCount(s: Snapshot, code: string, q: int): Snapshot {
    var h := match FindNode(s.hierarchy, code)
      case Some(p) => SetQuota(s.hierarchy, p, q)
      case None => s.hierarchy;
    var chapters := if code in s.chapterMap then s.chapterMap[code := Record(s.chapterMap[code].ref, WithQuota(s.chapterMap[code].node, q))] else s.chapterMap;
    var sel := if code in s.chapterMap then Retag(s.selections, s.chapterMap[code].ref, q) else s.selections;
    s.(hierarchy := h,
       chapterMap := chapters,
       topicMap := if code in s.topicMap then s.topicMap[code := WithQuota(s.topicMap[code], q)] else s.topicMap,
       subtopicMap := if code in s.subtopicMap then s.subtopicMap[code := WithQuota(s.subtopicMap[code], q)] else s.subtopicMap,
       selections := sel)
  }

  // ---------------------------------------------------------------------------------------------
  // Queries

  /** `isSelected`: membership in the lookup map of the given level, or in any of them */
  predicate IsSelected(s: Snapshot, code: string, kind: Kind) {
    match kind
    case Chapter => code in s.chapterMap
    case Topic => code in s.topicMap
    case Subtopic => code in s.subtopicMap
    case Other => code in s.chapterMap || code in s.topicMap || code in s.subtopicMap
  }

  function HasKey(m: map<string, Record>, k: Option<string>): bool {
    k.Some? && k.value in m
  }

  /** The source looks up the parent chapter of a subtopic's inferred parent topic, which must then exist. */
  predicate CanAskLogically(s: Snapshot, code: string, kind: Kind) {
    kind == Subtopic && code !in s.subtopicMap ==> ParentTopicCode(s.hierarchy, code).Some?
  }

  /** `isLogicallySelected`: selected itself, or through a selected parent topic or chapter */
  predicate IsLogicallySelected(s: Snapshot, code: string, kind: Kind)
    requires CanAskLogically(s, code, kind)
  {
    match kind
    case Topic => code in s.topicMap || HasKey(s.chapterMap, ParentChapterCode(s.hierarchy, code))
    case Subtopic =>
      code in s.subtopicMap ||
      var t := ParentTopicCode(s.hierarchy, code).value;
      t in s.topicMap || HasKey(s.chapterMap, ParentChapterCode(s.hierarchy, t))
    case _ => code in s.chapterMap
  }

  // ---------------------------------------------------------------------------------------------
  // Questions

  predicate HasId(qs: seq<Question>, id: string) {
    exists i :: 0 <= i < |qs| && qs[i].id == id
  }

  predicate UniqueIds(qs: seq<Question>) {
    forall i, j :: 0 <= i < j < |qs| ==> qs[i].id != qs[j].id
  }

  /** `qs.find(q => q.id === id)`: the first question with that id, the one `IndexOfId` points at */
  function FindQuestion(qs: seq<Question>, id: string): (r: Option<Question>)
    ensures r.Some? <==> HasId(qs, id)
    ensures r.Some? ==> r.value in qs && r.value.id == id
    ensures r.Some? ==> exists i: nat :: i < |qs| && qs[i] == r.value && forall k :: 0 <= k < i ==> qs[k].id != id
  {
    match IndexOfId(qs, id, 0)
    case None => None
    case Some(i) => Some(qs[i])
  }

  /** `qs.filter(q => q.id !== id)` */
  function WithoutId(qs: seq<Question>, id: string): (r: seq<Question>)
    ensures forall x :: x in r <==> x in qs && x.id != id
    ensures !HasId(r, id)
    ensures !HasId(qs, id) ==> r == qs
  {
    if qs == [] then []
    else
      var rest := WithoutId(qs[1..], id);
      WithoutIdStep(qs, id, rest);
      (if qs[0].id == id then [] else [qs[0]]) + rest
  }

  /** One step of `WithoutId`: the first question, kept unless it has `id`, in front of the filtered rest */
  lemma WithoutIdStep(qs: seq<Question>, id: string, rest: seq<Question>)
    requires qs != []
    requires forall x :: x in rest <==> x in qs[1..] && x.id != id
    requires !HasId(rest, id)
    requires !HasId(qs[1..], id) ==> rest == qs[1..]
    ensures var r := (if qs[0].id == id then [] else [qs[0]]) + rest;
            && (forall x :: x in r <==> x in qs && x.id != id)
            && !HasId(r, id)
            && (!HasId(qs, id) ==> r == qs)
  {
    assert !HasId(qs, id) ==> !HasId(qs[1..], id) by {
      if HasId(qs[1..], id) { var i :| 0 <= i < |qs[1..]| && qs[1..][i].id == id; assert qs[i + 1].id == id; }
    }
    assert qs == [qs[0]] + qs[1..];
  }

  lemma {:induction false} WithoutIdUnique(qs: seq<Question>, id: string)
    requires UniqueIds(qs)
    ensures UniqueIds(WithoutId(qs, id))
  {
    if qs != [] {
      WithoutIdUnique(qs[1..], id);
      var rest := WithoutId(qs[1..], id);
      forall x | x in rest ensures x.id != qs[0].id {
        var k :| 0 <= k < |qs[1..]| && qs[1..][k] == x;
        assert qs[k + 1] == x;
      }
    }
  }

  /** The removed list, or the question list, with the question for `id` taken from `from` and added to `to` */
  function MoveQuestion(from: seq<Question>, to: seq<Question>, id: string): (r: (seq<Question>, seq<Question>))
  {
    match FindQuestion(from, id)
    case None => (from, to)
    case Some(q) => (WithoutId(from, id), if HasId(to, id) then to else to + [q])
  }

  /** `removeQuestion` (the later, effective definition): into the removed list once, out of the active list */
  function RemoveQuestion(s: Snapshot, id: string): Snapshot {
    var (qs, removed) := MoveQuestion(s.questions, s.removedQuestions, id);
    s.(questions := qs, removedQuestions := removed)
  }

  /** `restoreQuestion`: back into the active list once, out of the removed list */
  function RestoreQuestion(s: Snapshot, id: string): Snapshot {
    var (removed, qs) := MoveQuestion(s.removedQuestions, s.questions, id);
    s.(questions := qs, removedQuestions := removed)
  }

  function PermanentlyDeleteQuestion(s: Snapshot, id: string): Snapshot {
    s.(removedQuestions := WithoutId(s.removedQuestions, id))
  }

  function ClearRemovedQuestions(s: Snapshot): Snapshot {
    s.(removedQuestions := [])
  }

  /** The active list after each removed question whose id is not yet there has been appended, in order */
  function RestoreInto(qs: seq<Question>, rs: seq<Question>): (r: seq<Question>)
    ensures qs <= r
    ensures forall i :: 0 <= i < |rs| ==> HasId(r, rs[i].id)
    ensures forall x :: x in r ==> x in qs || x in rs
    ensures UniqueIds(qs) ==> UniqueIds(r)
  {
    if rs == [] then qs
    else
      var r0 := RestoreInto(qs, rs[..|rs| - 1]);
      var q := rs[|rs| - 1];
      var r := if HasId(r0, q.id) then r0 else r0 + [q];
      assert forall i :: 0 <= i < |rs| - 1 ==> rs[i] == rs[..|rs| - 1][i];
      assert forall i :: 0 <= i < |rs| - 1 ==> HasId(r, rs[i].id) by {
        forall i | 0 <= i < |rs| - 1 ensures HasId(r, rs[i].id) {
          assert HasId(r0, rs[..|rs| - 1][i].id);
          var k :| 0 <= k < |r0| && r0[k].id == rs[i].id;
          assert r[k] == r0[k];
        }
      }
      assert HasId(r, q.id) by {
        if HasId(r0, q.id) { } else { assert r[|r0|] == q; }
      }
      r
  }

  lemma RestoreIntoStep(qs: seq<Question>, rs: seq<Question>, i: nat)
    requires i < |rs|
    ensures var r0 := RestoreInto(qs, rs[..i]);
            RestoreInto(qs, rs[..i + 1]) == if HasId(r0, rs[i].id) then r0 else r0 + [rs[i]]
  {
    assert rs[..i + 1][..i] == rs[..i];
  }

  /** `restoreAllQuestions` */
  function RestoreAllQuestions(s: Snapshot): Snapshot {
    s.(questions := RestoreInto(s.questions, s.removedQuestions), removedQuestions := [])
  }

  /** `setQuestions(questions || [])` */
  function SetQuestions(s: Snapshot, qs: Option<seq<Question>>): Snapshot {
    s.(questions := qs.GetOr([]))
  }

  function AddQuestion(s: Snapshot, q: Question): Snapshot {
    s.(questions := s.questions + [q])
  }

  /** `{...q, ...patch}` */
  function Merge(q: Question, p: QuestionPatch): (r: Question)
    ensures r.id == p.id.GetOr(q.id)
    ensures forall k :: k in r.fields <==> k in q.fields || k in p.fields
    ensures forall k :: k in p.fields ==> r.fields[k] == p.fields[k]
    ensures forall k :: k in q.fields && k !in p.fields ==> r.fields[k] == q.fields[k]
  {
    Question(p.id.GetOr(q.id), q.fields + p.fields)
  }

  /** The index of the first question with `id`, from the `i`-th on */
  function IndexOfId(qs: seq<Question>, id: string, i: nat): (r: Option<nat>)
    decreases |qs| - i
    ensures r.Some? ==> i <= r.value < |qs| && qs[r.value].id == id && forall k :: i <= k < r.value ==> qs[k].id != id
    ensures r.None? ==> forall k :: i <= k < |qs| ==> qs[k].id != id
  {
    if i >= |qs| then None else if qs[i].id == id then Some(i) else IndexOfId(qs, id, i + 1)
  }

  /** `updateQuestion`: the first question with that id is merged with the patch */
  function UpdateQuestion(s: Snapshot, id: string, p: QuestionPatch): Snapshot {
    match IndexOfId(s.questions, id, 0)
    case None => s
    case Some(i) => s.(questions := s.questions[i := Merge(s.questions[i], p)])
  }

  /** `clearAll`: the initial state again */
  function ClearAll(s: Snapshot): (r: Snapshot)
    ensures r == Initial()
  {
    Initial()
  }
}
