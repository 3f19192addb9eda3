/**
 * The selected-content store as the object the application holds: one field per store property, updated
 * in place.  Every update is proved to leave the store in the state the matching SelectionModel function
 * computes from the old one, and to keep the store coherent (SelectionModel.Coherent); what those
 * functions promise is proved in SelectionLemmas.
 */
module SelectedContentStore {
  import opened Wrappers
  import opened JsText
  import opened OrderedMaps
  import opened SelectionModel
  import opened SelectionLemmas

  // ---------------------------------------------------------------------------------------------
  // Searches that read no store field

  /** The first key of `ts`, in insertion order, whose topic has subtopic `st` */
  method FindSubtopicTopic(ts: OMap<TopicEntry>, st: string) returns (r: Option<string>)
    ensures r == SubtopicTopicFrom(ts, st, 0)
  {
    var j := 0;
    while j < |ts.keys|
      invariant 0 <= j <= |ts.keys|
      invariant SubtopicTopicFrom(ts, st, j) == SubtopicTopicFrom(ts, st, 0)
    {
      var t := ts.keys[j];
      if t in ts.entries && st in ts.entries[t].subtopics.entries {
        return Some(t);
      }
      j := j + 1;
    }
    return None;
  }

  /** The first subtopic key of `ss` whose node carries `code` */
  method FindSubtopicNode(ss: OMap<Node>, code: string) returns (r: Option<string>)
    ensures r == SubtopicNodeFrom(ss, code, 0)
  {
    var m := 0;
    while m < |ss.keys|
      invariant 0 <= m <= |ss.keys|
      invariant SubtopicNodeFrom(ss, code, m) == SubtopicNodeFrom(ss, code, 0)
    {
      var k := ss.keys[m];
      if k in ss.entries && ss.entries[k].code == code {
        return Some(k);
      }
      m := m + 1;
    }
    return None;
  }

  /** The recursive step of `updateInHierarchy` through the topics of chapter `c`: each topic before its subtopics */
  method FindTopicNode(c: string, ce: ChapterEntry, code: string) returns (r: Option<Path>)
    ensures r == TopicNodeFrom(c, ce, code, 0)
  {
    var ts := ce.topics;
    var j := 0;
    while j < |ts.keys|
      invariant 0 <= j <= |ts.keys|
      invariant TopicNodeFrom(c, ce, code, j) == TopicNodeFrom(c, ce, code, 0)
    {
      var t := ts.keys[j];
      if t in ts.entries {
        if ts.entries[t].node.code == code {
          return Some(AtTopic(c, t));
        }
        var st := FindSubtopicNode(ts.entries[t].subtopics, code);
        if st.Some? {
          return Some(AtSubtopic(c, t, st.value));
        }
      }
      j := j + 1;
    }
    return None;
  }

  /** `questions.find(q => q.id === id)` */
  method Find(qs: seq<Question>, id: string) returns (r: Option<Question>)
    ensures r == FindQuestion(qs, id)
  {
    var i := 0;
    while i < |qs|
      invariant 0 <= i <= |qs|
      invariant FindQuestion(qs[i..], id) == FindQuestion(qs, id)
    {
      if qs[i].id == id {
        return Some(qs[i]);
      }
      assert qs[i..][1..] == qs[i + 1..];
      i := i + 1;
    }
    return None;
  }

  /** `questions.findIndex(q => q.id === id)`, with none for -1 */
  method FindIndex(qs: seq<Question>, id: string) returns (r: Option<nat>)
    ensures r == IndexOfId(qs, id, 0)
  {
    var i := 0;
    while i < |qs|
      invariant 0 <= i <= |qs|
      invariant IndexOfId(qs, id, i) == IndexOfId(qs, id, 0)
    {
      if qs[i].id == id {
        return Some(i);
      }
      i := i + 1;
    }
    return None;
  }

  // ---------------------------------------------------------------------------------------------
  // The store

  class Store {
    var hierarchy: Hierarchy
    var selections: seq<Record>
    var questions: seq<Question>
    var removedQuestions: seq<Question>
    var chapterMap: map<string, Record>
    var topicMap: map<string, Node>
    var subtopicMap: map<string, Node>
    var stats: Stats
    var chapterMetadata: map<string, Metadata>
    /** The identity the next selection object will get */
    var nextRef: nat

    /** The store's current state as a value */
    function Snap(): Snapshot
      reads this
    {
      Snapshot(hierarchy, selections, questions, removedQuestions, chapterMap, topicMap, subtopicMap,
               stats, chapterMetadata, nextRef)
    }

    ghost predicate Valid()
      reads this
    {
      Coherent(Snap())
    }

    /** The initial store: everything empty, all counters 0 */
    constructor ()
      ensures Snap() == Initial() && Valid()
    {
      hierarchy := Empty();
      selections := [];
      questions := [];
      removedQuestions := [];
      chapterMap := map[];
      topicMap := map[];
      subtopicMap := map[];
      stats := ZeroStats;
      chapterMetadata := map[];
      nextRef := 0;
      InitialCoherent();
    }

    // -------------------------------------------------------------------------------------------
    // Searching the hierarchy

    /** The `for (const [chapterCode, chapter] of store.hierarchy)` search for the chapter holding topic `t` */
    method FindTopicChapter(t: string) returns (r: Option<string>)
      ensures r == TopicChapter(hierarchy, t)
    {
      var i := 0;
      while i < |hierarchy.keys|
        invariant 0 <= i <= |hierarchy.keys|
        invariant TopicChapterFrom(hierarchy, t, i) == TopicChapterFrom(hierarchy, t, 0)
      {
        var c := hierarchy.keys[i];
        if c in hierarchy.entries && t in hierarchy.entries[c].topics.entries {
          return Some(c);
        }
        i := i + 1;
      }
      return None;
    }

    /** The nested search of `removeSelectionRecursive` and `getParentTopicCode` for the topic holding subtopic `st` */
    method FindSubtopicHome(st: string) returns (r: Option<(string, string)>)
      ensures r == SubtopicHome(hierarchy, st)
    {
      var i := 0;
      while i < |hierarchy.keys|
        invariant 0 <= i <= |hierarchy.keys|
        invariant SubtopicHomeFrom(hierarchy, st, i) == SubtopicHomeFrom(hierarchy, st, 0)
      {
        var c := hierarchy.keys[i];
        if c in hierarchy.entries {
          var t := FindSubtopicTopic(hierarchy.entries[c].topics, st);
          if t.Some? {
            return Some((c, t.value));
          }
        }
        i := i + 1;
      }
      return None;
    }

    /** `updateInHierarchy`'s depth-first search for the first node carrying `code` */
    method FindNodePath(code: string) returns (r: Option<Path>)
      ensures r == FindNode(hierarchy, code)
    {
      var i := 0;
      while i < |hierarchy.keys|
        invariant 0 <= i <= |hierarchy.keys|
        invariant FindNodeFrom(hierarchy, code, i) == FindNodeFrom(hierarchy, code, 0)
      {
        var c := hierarchy.keys[i];
        if c in hierarchy.entries {
          if hierarchy.entries[c].node.code == code {
            return Some(AtChapter(c));
          }
          var p := FindTopicNode(c, hierarchy.entries[c], code);
          if p.Some? {
            return p;
          }
        }
        i := i + 1;
      }
      return None;
    }

    /** `getParentChapterCode` */
    method GetParentChapterCode(item: string) returns (r: Option<string>)
      ensures r == ParentChapterCode(hierarchy, item)
    {
      r := FindTopicChapter(item);
      if r.None? && '_' in item {
        r := Some(Before(item));
      }
    }

    /** `getParentTopicCode` */
    method GetParentTopicCode(item: string) returns (r: Option<string>)
      ensures r == ParentTopicCode(hierarchy, item)
    {
      var home := FindSubtopicHome(item);
      if home.Some? {
        r := Some(home.value.1);
      } else if '_' in item {
        r := Some(Before(item) + "_" + Before(After(item)));
      } else {
        r := None;
      }
    }

    // -------------------------------------------------------------------------------------------
    // Adding

    /** `addChapter` */
    method AddChapter(n: Node)
      requires Valid() && !n.isPlaceholder
      modifies this
      ensures Snap() == SelectionModel.AddChapter(old(Snap()), n) && Valid()
    {
      AddChapterCoherent(Snap(), n);
      hierarchy := hierarchy.Set(n.code, ChapterEntry(n, Empty()));
      RecordChapter(n);
    }

    /** The chapter's map entry, list element and counters; the map entry is the list element */
    method RecordChapter(n: Node)
      modifies this
      ensures Snap() == old(Snap()).(chapterMap := old(chapterMap)[n.code := Record(old(nextRef), n)],
                                     selections := old(selections) + [Record(old(nextRef), n)],
                                     stats := old(stats).(chapters := old(stats).chapters + 1, questions := old(stats).questions + n.questionCount),
                                     nextRef := old(nextRef) + 1)
    {
      var rec := Record(nextRef, n);
      chapterMap := chapterMap[n.code := rec];
      selections := selections + [rec];
      stats := stats.(chapters := stats.chapters + 1, questions := stats.questions + n.questionCount);
      nextRef := nextRef + 1;
    }

    /** The common tail of `addTopic` and `addTopicWithContext` */
    method PlaceTopicUnder(t: Node, pc: Option<string>, placeholder: Node)
      modifies this
      ensures Snap() == PlaceTopic(old(Snap()), t, pc, placeholder)
    {
      ghost var s0 := Snap();
      var c := KeyOf(pc);
      EnsureChapter(c, placeholder);
      PlaceTopicAfterHost(s0, t, pc, placeholder, hierarchy);
      var topic := t.(parentCode := pc);
      FileTopicIn(c, topic);
      RecordTopic(topic, t.questionCount);
    }

    /** `chapter.children.set(topic.code, ...)` on chapter `c` */
    method FileTopicIn(c: string, topic: Node)
      requires c in hierarchy.entries
      modifies this
      ensures var ch := old(hierarchy).entries[c];
              Snap() == old(Snap()).(hierarchy := old(hierarchy).Set(c, ch.(topics := ch.topics.Set(topic.code, TopicEntry(topic, Empty())))))
    {
      var ch := hierarchy.entries[c];
      hierarchy := hierarchy.Set(c, ch.(topics := ch.topics.Set(topic.code, TopicEntry(topic, Empty()))));
    }

    /** The topic's map entry, list element and counters; `count` is the topic's own question count */
    method RecordTopic(topic: Node, count: int)
      modifies this
      ensures Snap() == old(Snap()).(topicMap := old(topicMap)[topic.code := topic],
                                     selections := old(selections) + [Record(old(nextRef), topic)],
                                     stats := old(stats).(topics := old(stats).topics + 1, questions := old(stats).questions + count),
                                     nextRef := old(nextRef) + 1)
    {
      topicMap := topicMap[topic.code := topic];
      selections := selections + [Record(nextRef, topic)];
      stats := stats.(topics := stats.topics + 1, questions := stats.questions + count);
      nextRef := nextRef + 1;
    }

    /** A chapter missing from the hierarchy comes in as `placeholder`, with no topics. */
    method EnsureChapter(c: string, placeholder: Node)
      modifies this
      ensures c in hierarchy.entries
      ensures Snap() == old(Snap()).(hierarchy := if c in old(hierarchy).entries then old(hierarchy)
                                                  else old(hierarchy).Set(c, ChapterEntry(placeholder, Empty())))
    {
      if c !in hierarchy.entries {
        hierarchy := hierarchy.Set(c, ChapterEntry(placeholder, Empty()));
      }
    }

    /** `addTopic` */
    method AddTopic(t: Node, parent: Option<string>)
      requires Valid()
      modifies this
      ensures Snap() == SelectionModel.AddTopic(old(Snap()), t, parent) && Valid()
    {
      var pc := TopicParent(t.parentCode, parent);
      PlaceTopicCoherent(Snap(), t, pc, PlaceholderChapter(KeyOf(pc), None));
      PlaceTopicUnder(t, pc, PlaceholderChapter(KeyOf(pc), None));
    }

    /** The context's chapter, when there is one, goes into `chapterMetadata` first. */
    method NoteChapter(ctx: Option<Context>)
      requires Valid()
      modifies this
      ensures Snap() == NoteContextChapter(old(Snap()), ctx) && Valid()
    {
      if ContextChapter(ctx).Some? {
        var p := ContextChapter(ctx).value;
        chapterMetadata := chapterMetadata[p.code := MetadataOf(p)];
      }
    }

    /** `addTopicWithContext` */
    method AddTopicWithContext(t: Node, ctx: Option<Context>)
      requires Valid()
      modifies this
      ensures Snap() == SelectionModel.AddTopicWithContext(old(Snap()), t, ctx) && Valid()
    {
      var pc := ContextTopicParent(t, ctx);
      NoteChapter(ctx);
      var meta := Lookup(chapterMetadata, KeyOf(pc));
      PlaceTopicCoherent(Snap(), t, pc, PlaceholderChapter(KeyOf(pc), meta));
      PlaceTopicUnder(t, pc, PlaceholderChapter(KeyOf(pc), meta));
    }

    /**
     * The common tail of `addSubtopic` and `addSubtopicWithContext`: file `sub` under the first chapter
     * holding topic `t`, else under `topic` in chapter `c` (with the chapter placeholder when `c` is missing).
     */
    method PlaceSubtopicUnder(t: string, sub: Node, c: string, chapter: Node, topic: Node)
      requires topic.code == t
      modifies this
      ensures Snap() == RecordSubtopic(old(Snap()).(hierarchy := PlaceSubtopic(old(hierarchy), t, sub, c, chapter, topic)), sub)
    {
      ghost var h0 := hierarchy;
      var home := FindTopicChapter(t);
      if home.None? {
        HostTopicIn(c, chapter, topic);
        home := Some(c);
      }
      AttachSubtopicIn(home.value, t, sub);
      assert hierarchy == PlaceSubtopic(h0, t, sub, c, chapter, topic);
      RecordSubtopicOf(sub);
    }

    /** The subtopic's map entry, list element and counters */
    method RecordSubtopicOf(sub: Node)
      modifies this
      ensures Snap() == RecordSubtopic(old(Snap()), sub)
    {
      subtopicMap := subtopicMap[sub.code := sub];
      selections := selections + [Record(nextRef, sub)];
      stats := stats.(subtopics := stats.subtopics + 1, questions := stats.questions + sub.questionCount);
      nextRef := nextRef + 1;
    }

    /** Chapter `c` (from `chapter` when missing) gets the placeholder `topic`. */
    method HostTopicIn(c: string, chapter: Node, topic: Node)
      modifies this
      ensures Snap() == old(Snap()).(hierarchy := HostTopic(old(hierarchy), c, chapter, topic))
    {
      if c !in hierarchy.entries {
        hierarchy := hierarchy.Set(c, ChapterEntry(chapter, Empty()));
      }
      var ch := hierarchy.entries[c];
      hierarchy := hierarchy.Set(c, ch.(topics := ch.topics.Set(topic.code, TopicEntry(topic, Empty()))));
    }

    /** `parentTopic.children.set(code, ...)` on topic `t` of chapter `c` */
    method AttachSubtopicIn(c: string, t: string, sub: Node)
      requires c in hierarchy.entries && t in hierarchy.entries[c].topics.entries
      modifies this
      ensures Snap() == old(Snap()).(hierarchy := AttachSubtopic(old(hierarchy), c, t, sub))
    {
      var ch := hierarchy.entries[c];
      var te := ch.topics.entries[t];
      hierarchy := hierarchy.Set(c, ch.(topics := ch.topics.Set(t, te.(subtopics := te.subtopics.Set(sub.code, sub)))));
    }

    /** `addSubtopic` */
    method AddSubtopic(n: Node, parent: Option<string>)
      requires Valid() && TopicParent(n.parentCode, parent).Some?
      modifies this
      ensures Snap() == SelectionModel.AddSubtopic(old(Snap()), n, parent) && Valid()
    {
      var t := TopicParent(n.parentCode, parent).value;
      var pc := GetParentChapterCode(t);
      var c := ChapterOrUnknown(pc);
      AddSubtopicCoherent(Snap(), n, parent);
      PlaceSubtopicUnder(t, n.(parentCode := Some(t)), c, PlaceholderChapter(c, None), PlaceholderTopic(t, c, "Topic " + t, 0));
    }

    /** `addSubtopicWithContext` */
    method AddSubtopicWithContext(n: Node, ctx: Option<Context>)
      requires Valid() && CanAddSubtopicWithContext(n, ctx)
      modifies this
      ensures Snap() == SelectionModel.AddSubtopicWithContext(old(Snap()), n, ctx) && Valid()
    {
      var t := KeyOf(ContextSubtopicParent(n, ctx));
      AddSubtopicWithContextCoherent(Snap(), n, ctx);
      NoteChapter(ctx);
      var given := GivenChapter(ctx);
      var c;
      if Truthy(given) {
        c := given.value;
      } else {
        var pc := GetParentChapterCode(t);
        c := ChapterOrUnknown(pc);
      }
      var name := if ContextTopic(ctx).Some? then ContextTopic(ctx).value.name else "Topic " + t;
      var count := if ContextTopic(ctx).Some? then ContextTopic(ctx).value.questionCount.GetOr(0) else 0;
      var meta := Lookup(chapterMetadata, c);
      PlaceSubtopicUnder(t, n.(parentCode := ContextSubtopicParent(n, ctx)), c, PlaceholderChapter(c, meta), PlaceholderTopic(t, c, name, count));
    }

    /** `addSelection` */
    method AddSelection(d: Selection, parent: Option<string>)
      requires Valid() && CanAdd(d, parent)
      modifies this
      ensures Snap() == SelectionModel.AddSelection(old(Snap()), d, parent) && Valid()
    {
      var n := SelectionNode(d);
      match d.kind {
        case Chapter => AddChapter(n);
        case Topic => AddTopic(n, parent);
        case Subtopic => AddSubtopic(n, parent);
        case Other =>
      }
    }

    /** `addSelectionWithContext` */
    method AddSelectionWithContext(d: Selection, ctx: Option<Context>)
      requires Valid() && CanAddWithContext(d, ctx)
      modifies this
      ensures Snap() == SelectionModel.AddSelectionWithContext(old(Snap()), d, ctx) && Valid()
    {
      var n := SelectionNode(d);
      match d.kind {
        case Chapter => AddChapter(n);
        case Topic => AddTopicWithContext(n, ctx);
        case Subtopic => AddSubtopicWithContext(n, ctx);
        case Other =>
      }
    }

    /** `bulkAddSelections`: the items one after the other, with no parent data */
    method BulkAddSelections(items: seq<Selection>)
      requires Valid() && forall i :: 0 <= i < |items| ==> BulkReady(items[i])
      modifies this
      ensures Snap() == BulkAdd(old(Snap()), items) && Valid()
    {
      var i := 0;
      while i < |items|
        invariant 0 <= i <= |items|
        invariant Snap() == BulkAdd(old(Snap()), items[..i]) && Valid()
      {
        var d := items[i];
        assert items[..i + 1][..i] == items[..i];
        match d.kind {
          case Chapter => AddChapter(BulkNode(d));
          case Topic => AddTopic(BulkNode(d), None);
          case Subtopic => AddSubtopic(BulkNode(d), None);
          case Other =>
        }
        i := i + 1;
      }
      assert items[..|items|] == items;
    }

    /** `storeChapterMetadata` */
    method StoreChapterMetadata(p: ParentInfo)
      requires Valid()
      modifies this
      ensures Snap() == SelectionModel.StoreChapterMetadata(old(Snap()), p) && Valid()
    {
      chapterMetadata := chapterMetadata[p.code := MetadataOf(p)];
    }

    // -------------------------------------------------------------------------------------------
    // Removing

    /** The `for (const [subtopicCode, subtopic] of topic.children)` loop of the cascade */
    method DropSubtopicsOf(subs: OMap<Node>)
      requires subs.Valid()
      modifies this
      ensures Snap() == DropSubtopics(old(Snap()), subs, subs.keys)
    {
      var j := 0;
      while j < |subs.keys|
        invariant 0 <= j <= |subs.keys|
        invariant Snap() == DropSubtopics(old(Snap()), subs, subs.keys[..j])
      {
        var k := subs.keys[j];
        DropSubtopicOf(k, subs.entries[k]);
        DropSubtopicsStep(old(Snap()), subs, subs.keys, j);
        j := j + 1;
      }
      assert subs.keys[..|subs.keys|] == subs.keys;
    }

    /** One pass of the subtopic loop: subtopic `k` leaves the map, the list and the counters. */
    method DropSubtopicOf(k: string, sub: Node)
      modifies this
      ensures Snap() == DropSubtopic(old(Snap()), k, sub)
    {
      subtopicMap := subtopicMap - {k};
      selections := WithoutCode(selections, k);
      stats := stats.(subtopics := stats.subtopics - 1, questions := stats.questions - sub.questionCount);
    }

    /** One pass of the chapter cascade: topic `k` leaves the map, the list and the counters, then its subtopics do. */
    method DropTopicOf(k: string, te: TopicEntry)
      requires te.subtopics.Valid()
      modifies this
      ensures Snap() == DropTopic(old(Snap()), k, te)
    {
      topicMap := topicMap - {k};
      selections := WithoutCode(selections, k);
      stats := stats.(topics := stats.topics - 1, questions := stats.questions - te.node.questionCount);
      DropSubtopicsOf(te.subtopics);
    }

    /** The `for (const [topicCode, topic] of chapter.children)` loop of the chapter cascade */
    method DropTopicsOf(ts: OMap<TopicEntry>)
      requires ts.Valid() && forall k :: k in ts.entries ==> ts.entries[k].subtopics.Valid()
      modifies this
      ensures Snap() == DropTopics(old(Snap()), ts, ts.keys)
    {
      var j := 0;
      while j < |ts.keys|
        invariant 0 <= j <= |ts.keys|
        invariant Snap() == DropTopics(old(Snap()), ts, ts.keys[..j])
      {
        var k := ts.keys[j];
        DropTopicOf(k, ts.entries[k]);
        DropTopicsStep(old(Snap()), ts, ts.keys, j);
        j := j + 1;
      }
      assert ts.keys[..|ts.keys|] == ts.keys;
    }

    /** The chapter branch of `removeSelectionRecursive` */
    method RemoveChapterAt(code: string)
      requires code in hierarchy.entries && ChapterValid(hierarchy.entries[code])
      modifies this
      ensures Snap() == RemoveChapter(old(Snap()), code)
    {
      var ch := hierarchy.entries[code];
      ghost var s0 := Snap();
      DropTopicsOf(ch.topics);
      ghost var s1 := Snap();
      RemoveChapterAfterCascade(s0, code, s1);
      hierarchy := hierarchy.Delete(code);
      chapterMap := chapterMap - {code};
      selections := WithoutCode(selections, code);
      stats := stats.(chapters := stats.chapters - 1, questions := stats.questions - ch.node.questionCount);
    }

    /** The topic branch of `removeSelectionRecursive`, for topic `t` found in chapter `c` */
    method RemoveTopicAt(c: string, t: string)
      requires HierarchyValid(hierarchy) && c in hierarchy.entries && t in hierarchy.entries[c].topics.entries
      modifies this
      ensures Snap() == RemoveTopic(old(Snap()), c, t)
    {
      var ch := hierarchy.entries[c];
      var te := ch.topics.entries[t];
      DropSubtopicsOf(te.subtopics);
      hierarchy := hierarchy.Set(c, ch.(topics := ch.topics.Delete(t)));
      topicMap := topicMap - {t};
      selections := WithoutCode(selections, t);
      stats := stats.(topics := stats.topics - 1, questions := stats.questions - te.node.questionCount);
    }

    /** The subtopic branch of `removeSelectionRecursive`, for subtopic `st` found under topic `t` of chapter `c` */
    method RemoveSubtopicAt(c: string, t: string, st: string)
      requires c in hierarchy.entries && t in hierarchy.entries[c].topics.entries
      requires st in hierarchy.entries[c].topics.entries[t].subtopics.entries
      modifies this
      ensures Snap() == RemoveSubtopic(old(Snap()), c, t, st)
    {
      var ch := hierarchy.entries[c];
      var te := ch.topics.entries[t];
      var sub := te.subtopics.entries[st];
      hierarchy := hierarchy.Set(c, ch.(topics := ch.topics.Set(t, te.(subtopics := te.subtopics.Delete(st)))));
      subtopicMap := subtopicMap - {st};
      selections := WithoutCode(selections, st);
      stats := stats.(subtopics := stats.subtopics - 1, questions := stats.questions - sub.questionCount);
    }

    /** `removeSelection`: the code as a chapter, else as a topic, else as a subtopic; the first match only */
    method RemoveSelection(code: string)
      requires Valid()
      modifies this
      ensures Snap() == SelectionModel.RemoveSelection(old(Snap()), code) && Valid()
    {
      RemoveSelectionCoherent(Snap(), code);
      if code in hierarchy.entries {
        RemoveChapterAt(code);
        return;
      }
      var c := FindTopicChapter(code);
      if c.Some? {
        RemoveTopicAt(c.value, code);
        return;
      }
      var home := FindSubtopicHome(code);
      if home.Some? {
        RemoveSubtopicAt(home.value.0, home.value.1, code);
      }
    }

    // -------------------------------------------------------------------------------------------
    // Updating a count

    /**
     * `updateQuestionCount`.  The chapter map entry is the very object in the selection list, so the
     * list elements that are that object show the new count as well (Retag).
     */
    method UpdateQuestionCount(code: string, q: int)
      requires Valid()
      modifies this
      ensures Snap() == SelectionModel.UpdateQuestionCount(old(Snap()), code, q) && Valid()
    {
      UpdateQuestionCountCoherent(Snap(), code, q);
      SetQuestionCount(code, q);
    }

    /** The writes of `updateQuestionCount` */
    method SetQuestionCount(code: string, q: int)
      modifies this
      ensures Snap() == SelectionModel.UpdateQuestionCount(old(Snap()), code, q)
    {
      QuotaInHierarchy(code, q);
      QuotaInChapterMap(code, q);
      QuotaInNodeMaps(code, q);
    }

    /** `updateInHierarchy`: the first node carrying `code`, depth first */
    method QuotaInHierarchy(code: string, q: int)
      modifies this
      ensures Snap() == old(Snap()).(hierarchy := match FindNode(old(hierarchy), code)
                                                   case Some(p) => SetQuota(old(hierarchy), p, q)
                                                   case None => old(hierarchy))
    {
      var p := FindNodePath(code);
      if p.Some? {
        hierarchy := SetQuota(hierarchy, p.value, q);
      }
    }

    /** `updateInMap` on `chapterMap`; the entry is the very object in the selection list */
    method QuotaInChapterMap(code: string, q: int)
      modifies this
      ensures Snap() == if code in old(chapterMap) then
                          var rec := old(chapterMap)[code];
                          old(Snap()).(chapterMap := old(chapterMap)[code := Record(rec.ref, WithQuota(rec.node, q))],
                                       selections := Retag(old(selections), rec.ref, q))
                        else old(Snap())
    {
      if code in chapterMap {
        var rec := chapterMap[code];
        chapterMap := chapterMap[code := Record(rec.ref, WithQuota(rec.node, q))];
        selections := Retag(selections, rec.ref, q);
      }
    }

    /** `updateInMap` on `topicMap` and on `subtopicMap` */
    method QuotaInNodeMaps(code: string, q: int)
      modifies this
      ensures Snap() == old(Snap()).(topicMap := if code in old(topicMap) then old(topicMap)[code := WithQuota(old(topicMap)[code], q)] else old(topicMap),
                                     subtopicMap := if code in old(subtopicMap) then old(subtopicMap)[code := WithQuota(old(subtopicMap)[code], q)] else old(subtopicMap))
    {
      if code in topicMap {
        topicMap := topicMap[code := WithQuota(topicMap[code], q)];
      }
      if code in subtopicMap {
        subtopicMap := subtopicMap[code := WithQuota(subtopicMap[code], q)];
      }
    }

    // -------------------------------------------------------------------------------------------
    // Queries

    /** `isSelected` */
    method IsSelected(code: string, kind: Kind) returns (r: bool)
      ensures r == SelectionModel.IsSelected(Snap(), code, kind)
      ensures r <==> match kind
                     case Chapter => code in chapterMap
                     case Topic => code in topicMap
                     case Subtopic => code in subtopicMap
                     case Other => code in chapterMap || code in topicMap || code in subtopicMap
    {
      match kind {
        case Chapter => r := code in chapterMap;
        case Topic => r := code in topicMap;
        case Subtopic => r := code in subtopicMap;
        case Other => r := code in chapterMap || code in topicMap || code in subtopicMap;
      }
    }

    /** `isLogicallySelected` */
    method IsLogicallySelected(code: string, kind: Kind) returns (r: bool)
      requires CanAskLogically(Snap(), code, kind)
      ensures r == SelectionModel.IsLogicallySelected(Snap(), code, kind)
    {
      match kind {
        case Topic =>
          if code in topicMap {
            r := true;
          } else {
            var c := GetParentChapterCode(code);
            r := c.Some? && c.value in chapterMap;
          }
        case Subtopic =>
          if code in subtopicMap {
            r := true;
          } else {
            var t := GetParentTopicCode(code);
            var c := GetParentChapterCode(t.value);
            r := t.value in topicMap || (c.Some? && c.value in chapterMap);
          }
        case _ =>
          r := code in chapterMap;
      }
    }

    // -------------------------------------------------------------------------------------------
    // Questions

    /** `setQuestions` */
    method SetQuestions(qs: Option<seq<Question>>)
      requires Valid()
      modifies this
      ensures Snap() == SelectionModel.SetQuestions(old(Snap()), qs) && Valid()
    {
      questions := qs.GetOr([]);
    }

    /** `addQuestion` */
    method AddQuestion(q: Question)
      requires Valid()
      modifies this
      ensures Snap() == SelectionModel.AddQuestion(old(Snap()), q) && Valid()
    {
      questions := questions + [q];
    }

    /** `removeQuestion`, the effective (second) definition */
    method RemoveQuestion(id: string)
      requires Valid()
      modifies this
      ensures Snap() == SelectionModel.RemoveQuestion(old(Snap()), id) && Valid()
    {
      ghost var s0 := Snap();
      var found := Find(questions, id);
      if found.Some? {
        var already := Find(removedQuestions, id);
        if already.None? {
          removedQuestions := removedQuestions + [found.value];
        }
        questions := WithoutId(questions, id);
      }
      QuestionsCoherent(s0, questions, removedQuestions);
    }

    /** `restoreQuestion` */
    method RestoreQuestion(id: string)
      requires Valid()
      modifies this
      ensures Snap() == SelectionModel.RestoreQuestion(old(Snap()), id) && Valid()
    {
      ghost var s0 := Snap();
      var found := Find(removedQuestions, id);
      if found.Some? {
        var already := Find(questions, id);
        if already.None? {
          questions := questions + [found.value];
        }
        removedQuestions := WithoutId(removedQuestions, id);
      }
      QuestionsCoherent(s0, questions, removedQuestions);
    }

    /** `permanentlyDeleteQuestion` */
    method PermanentlyDeleteQuestion(id: string)
      requires Valid()
      modifies this
      ensures Snap() == SelectionModel.PermanentlyDeleteQuestion(old(Snap()), id) && Valid()
    {
      removedQuestions := WithoutId(removedQuestions, id);
    }

    /** `clearRemovedQuestions` */
    method ClearRemovedQuestions()
      requires Valid()
      modifies this
      ensures Snap() == SelectionModel.ClearRemovedQuestions(old(Snap())) && Valid()
    {
      removedQuestions := [];
    }

    /** `restoreAllQuestions`: each removed question not yet active is pushed, then the removed list is emptied */
    method RestoreAllQuestions()
      requires Valid()
      modifies this
      ensures Snap() == SelectionModel.RestoreAllQuestions(old(Snap())) && Valid()
    {
      RestoreEach(removedQuestions);
      removedQuestions := [];
      QuestionsCoherent(old(Snap()), questions, removedQuestions);
    }

    /** The `forEach` of `restoreAllQuestions`: each removed question goes back unless its id is already listed */
    method RestoreEach(rs: seq<Question>)
      modifies this
      ensures questions == RestoreInto(old(questions), rs)
      ensures Snap() == old(Snap()).(questions := questions)
    {
      var i := 0;
      while i < |rs|
        invariant 0 <= i <= |rs|
        invariant questions == RestoreInto(old(questions), rs[..i])
        invariant Snap() == old(Snap()).(questions := questions)
      {
        RestoreIntoStep(old(questions), rs, i);
        var already := Find(questions, rs[i].id);
        if already.None? {
          questions := questions + [rs[i]];
        }
        i := i + 1;
      }
      assert rs[..|rs|] == rs;
    }

    /** `updateQuestion` */
    method UpdateQuestion(id: string, p: QuestionPatch)
      requires Valid()
      modifies this
      ensures Snap() == SelectionModel.UpdateQuestion(old(Snap()), id, p) && Valid()
    {
      var i := FindIndex(questions, id);
      if i.Some? {
        questions := questions[i.value := Merge(questions[i.value], p)];
      }
    }

    /** `clearAll` */
    method ClearAll()
      requires Valid()
      modifies this
      ensures Snap() == SelectionModel.ClearAll(old(Snap())) && Valid()
    {
      hierarchy := Empty();
      selections := [];
      questions := [];
      removedQuestions := [];
      chapterMap := map[];
      topicMap := map[];
      subtopicMap := map[];
      stats := ZeroStats;
      chapterMetadata := map[];
      nextRef := 0;
      InitialCoherent();
    }
  }
}
