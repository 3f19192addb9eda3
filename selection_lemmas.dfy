/** What the selected-content store's updates guarantee, proved over the value model. */
module SelectionLemmas {
  import opened Wrappers
  import opened JsText
  import opened OrderedMaps
  import opened SelectionModel

  // ---------------------------------------------------------------------------------------------
  // The invariant is kept by every update

  lemma InitialCoherent()
    ensures Coherent(Initial())
  {
  }

  lemma SetChapterValid(h: Hierarchy, c: string, ce: ChapterEntry)
    requires HierarchyValid(h) && ChapterValid(ce)
    ensures HierarchyValid(h.Set(c, ce))
  {
  }

  lemma SetTopicValid(ce: ChapterEntry, t: string, te: TopicEntry)
    requires ChapterValid(ce) && te.subtopics.Valid()
    ensures ChapterValid(ce.(topics := ce.topics.Set(t, te)))
  {
  }

  lemma AddChapterCoherent(s: Snapshot, n: Node)
    requires Coherent(s) && !n.isPlaceholder
    ensures Coherent(AddChapter(s, n))
  {
    SetChapterValid(s.hierarchy, n.code, ChapterEntry(n, Empty()));
  }

  /** Adding to the list an object newer than all others, with the chapter map and chapters kept */
  lemma FreshRecordKeepsIdentities(s: Snapshot, r: Snapshot, n: Node)
    requires Identities(s)
    requires r.chapterMap == s.chapterMap && r.selections == s.selections + [Record(s.nextRef, n)] && r.nextRef == s.nextRef + 1
    ensures Identities(r)
  {
  }

  /** Every chapter of `h` is still in `h2`, with the same chapter node. */
  ghost predicate KeepsChapterNodes(h: Hierarchy, h2: Hierarchy) {
    forall k :: k in h.entries ==> k in h2.entries && h2.entries[k].node == h.entries[k].node
  }

  lemma KeptChaptersStayBacked(s: Snapshot, r: Snapshot)
    requires Backed(s) && r.chapterMap == s.chapterMap && KeepsChapterNodes(s.hierarchy, r.hierarchy)
    ensures Backed(r)
  {
  }

  lemma HostTopicValid(h: Hierarchy, c: string, chapter: Node, topic: Node)
    requires HierarchyValid(h)
    ensures HierarchyValid(HostTopic(h, c, chapter, topic))
    ensures KeepsChapterNodes(h, HostTopic(h, c, chapter, topic))
  {
    var h1 := if c in h.entries then h else h.Set(c, ChapterEntry(chapter, Empty()));
    if c !in h.entries {
      SetChapterValid(h, c, ChapterEntry(chapter, Empty()));
    }
    SetTopicValid(h1.entries[c], topic.code, TopicEntry(topic, Empty()));
    SetChapterValid(h1, c, h1.entries[c].(topics := h1.entries[c].topics.Set(topic.code, TopicEntry(topic, Empty()))));
  }

  lemma AttachSubtopicValid(h: Hierarchy, c: string, t: string, sub: Node)
    requires HierarchyValid(h) && c in h.entries && t in h.entries[c].topics.entries
    ensures HierarchyValid(AttachSubtopic(h, c, t, sub))
    ensures KeepsChapterNodes(h, AttachSubtopic(h, c, t, sub))
  {
    var ch := h.entries[c];
    var te := ch.topics.entries[t];
    SetTopicValid(ch, t, te.(subtopics := te.subtopics.Set(sub.code, sub)));
    SetChapterValid(h, c, ch.(topics := ch.topics.Set(t, te.(subtopics := te.subtopics.Set(sub.code, sub)))));
  }

  lemma PlaceTopicCoherent(s: Snapshot, t: Node, pc: Option<string>, placeholder: Node)
    requires Coherent(s)
    ensures Coherent(PlaceTopic(s, t, pc, placeholder))
  {
    var r := PlaceTopic(s, t, pc, placeholder);
    HostTopicValid(s.hierarchy, KeyOf(pc), placeholder, t.(parentCode := pc));
    assert r.hierarchy == HostTopic(s.hierarchy, KeyOf(pc), placeholder, t.(parentCode := pc));
    FreshRecordKeepsIdentities(s, r, t.(parentCode := pc));
  }

  lemma PlaceSubtopicValid(h: Hierarchy, t: string, sub: Node, c: string, chapter: Node, topic: Node)
    requires HierarchyValid(h) && topic.code == t
    ensures HierarchyValid(PlaceSubtopic(h, t, sub, c, chapter, topic))
    ensures KeepsChapterNodes(h, PlaceSubtopic(h, t, sub, c, chapter, topic))
  {
    match TopicChapter(h, t)
    case Some(found) =>
      AttachSubtopicValid(h, found, t, sub);
    case None =>
      HostTopicValid(h, c, chapter, topic);
      AttachSubtopicValid(HostTopic(h, c, chapter, topic), c, t, sub);
  }

  lemma RecordSubtopicCoherent(s: Snapshot, h: Hierarchy, sub: Node)
    requires Coherent(s) && HierarchyValid(h) && KeepsChapterNodes(s.hierarchy, h)
    ensures Coherent(RecordSubtopic(s.(hierarchy := h), sub))
  {
    var r := RecordSubtopic(s.(hierarchy := h), sub);
    FreshRecordKeepsIdentities(s, r, sub);
    KeptChaptersStayBacked(s, r);
  }

  lemma AddSubtopicCoherent(s: Snapshot, n: Node, parent: Option<string>)
    requires Coherent(s) && TopicParent(n.parentCode, parent).Some?
    ensures Coherent(AddSubtopic(s, n, parent))
  {
    var t := TopicParent(n.parentCode, parent).value;
    var c := ChapterOrUnknown(ParentChapterCode(s.hierarchy, t));
    var sub := n.(parentCode := Some(t));
    PlaceSubtopicValid(s.hierarchy, t, sub, c, PlaceholderChapter(c, None), PlaceholderTopic(t, c, "Topic " + t, 0));
    RecordSubtopicCoherent(s, PlaceSubtopic(s.hierarchy, t, sub, c, PlaceholderChapter(c, None), PlaceholderTopic(t, c, "Topic " + t, 0)), sub);
  }

  lemma AddSubtopicWithContextCoherent(s: Snapshot, n: Node, ctx: Option<Context>)
    requires Coherent(s) && CanAddSubtopicWithContext(n, ctx)
    ensures Coherent(AddSubtopicWithContext(s, n, ctx))
  {
    var t := KeyOf(ContextSubtopicParent(n, ctx));
    var s1 := NoteContextChapter(s, ctx);
    var sub := n.(parentCode := ContextSubtopicParent(n, ctx));
    var c := ContextSubtopicChapter(s1.hierarchy, t, ctx);
    var name := if ContextTopic(ctx).Some? then ContextTopic(ctx).value.name else "Topic " + t;
    var count := if ContextTopic(ctx).Some? then ContextTopic(ctx).value.questionCount.GetOr(0) else 0;
    var chapter := PlaceholderChapter(c, Lookup(s1.chapterMetadata, c));
    var topic := PlaceholderTopic(t, c, name, count);
    PlaceSubtopicValid(s1.hierarchy, t, sub, c, chapter, topic);
    RecordSubtopicCoherent(s1, PlaceSubtopic(s1.hierarchy, t, sub, c, chapter, topic), sub);
  }

  lemma AddSelectionCoherent(s: Snapshot, d: Selection, parent: Option<string>)
    requires Coherent(s) && CanAdd(d, parent)
    ensures Coherent(AddSelection(s, d, parent))
  {
    var n := SelectionNode(d);
    match d.kind
    case Chapter => AddChapterCoherent(s, n);
    case Topic =>
      var pc := TopicParent(n.parentCode, parent);
      PlaceTopicCoherent(s, n, pc, PlaceholderChapter(KeyOf(pc), None));
    case Subtopic => AddSubtopicCoherent(s, n, parent);
    case Other =>
  }

  lemma AddSelectionWithContextCoherent(s: Snapshot, d: Selection, ctx: Option<Context>)
    requires Coherent(s) && CanAddWithContext(d, ctx)
    ensures Coherent(AddSelectionWithContext(s, d, ctx))
  {
    var n := SelectionNode(d);
    match d.kind
    case Chapter => AddChapterCoherent(s, n);
    case Topic =>
      var pc := ContextTopicParent(n, ctx);
      var s1 := NoteContextChapter(s, ctx);
      PlaceTopicCoherent(s1, n, pc, PlaceholderChapter(KeyOf(pc), Lookup(s1.chapterMetadata, KeyOf(pc))));
    case Subtopic => AddSubtopicWithContextCoherent(s, n, ctx);
    case Other =>
  }

  lemma {:induction false} BulkAddCoherent(s: Snapshot, items: seq<Selection>)
    requires Coherent(s) && forall i :: 0 <= i < |items| ==> BulkReady(items[i])
    ensures Coherent(BulkAdd(s, items))
  {
    if items != [] {
      var init := items[..|items| - 1];
      BulkAddCoherent(s, init);
      var s1 := BulkAdd(s, init);
      var d := items[|items| - 1];
      match d.kind
      case Chapter => AddChapterCoherent(s1, BulkNode(d));
      case Topic =>
        var pc := TopicParent(BulkNode(d).parentCode, None);
        PlaceTopicCoherent(s1, BulkNode(d), pc, PlaceholderChapter(KeyOf(pc), None));
      case Subtopic => AddSubtopicCoherent(s1, BulkNode(d), None);
      case Other =>
    }
  }

  /** The question lists play no part in coherence. */
  lemma QuestionsCoherent(s: Snapshot, qs: seq<Question>, removed: seq<Question>)
    requires Coherent(s)
    ensures Coherent(s.(questions := qs, removedQuestions := removed))
  {
  }

  /** A state whose list and chapter map only lost elements, with every selected chapter kept as it was */
  lemma ShrinkCoherent(s: Snapshot, r: Snapshot)
    requires Coherent(s) && HierarchyValid(r.hierarchy) && r.nextRef == s.nextRef
    requires forall x :: x in r.selections ==> x in s.selections
    requires forall c :: c in r.chapterMap ==> c in s.chapterMap && r.chapterMap[c] == s.chapterMap[c]
    requires forall c :: c in r.chapterMap ==> c in r.hierarchy.entries && r.hierarchy.entries[c].node == s.hierarchy.entries[c].node
    ensures Coherent(r)
  {
  }

  lemma RemoveChapterCoherent(s: Snapshot, c: string)
    requires Coherent(s) && c in s.hierarchy.entries
    ensures Coherent(RemoveChapter(s, c))
  {
    var ch := s.hierarchy.entries[c];
    var s1 := DropTopics(s, ch.topics, ch.topics.keys);
    ShrinkCoherent(s, RemoveChapter(s, c));
  }

  lemma RemoveTopicCoherent(s: Snapshot, c: string, t: string)
    requires Coherent(s) && c in s.hierarchy.entries && t in s.hierarchy.entries[c].topics.entries
    ensures Coherent(RemoveTopic(s, c, t))
  {
    var ch := s.hierarchy.entries[c];
    var ch2 := ch.(topics := ch.topics.Delete(t));
    assert ChapterValid(ch2);
    SetChapterValid(s.hierarchy, c, ch2);
    ShrinkCoherent(s, RemoveTopic(s, c, t));
  }

  lemma RemoveSubtopicCoherent(s: Snapshot, c: string, t: string, st: string)
    requires Coherent(s) && c in s.hierarchy.entries && t in s.hierarchy.entries[c].topics.entries
    requires st in s.hierarchy.entries[c].topics.entries[t].subtopics.entries
    ensures Coherent(RemoveSubtopic(s, c, t, st))
  {
    var ch := s.hierarchy.entries[c];
    var te := ch.topics.entries[t];
    var te2 := te.(subtopics := te.subtopics.Delete(st));
    SetTopicValid(ch, t, te2);
    SetChapterValid(s.hierarchy, c, ch.(topics := ch.topics.Set(t, te2)));
    ShrinkCoherent(s, RemoveSubtopic(s, c, t, st));
  }

  lemma RemoveSelectionCoherent(s: Snapshot, code: string)
    requires Coherent(s)
    ensures Coherent(RemoveSelection(s, code))
  {
    if code in s.hierarchy.entries {
      RemoveChapterCoherent(s, code);
    } else {
      match TopicChapter(s.hierarchy, code)
      case Some(c) => RemoveTopicCoherent(s, c, code);
      case None =>
        match SubtopicHome(s.hierarchy, code)
        case Some((c, t)) => RemoveSubtopicCoherent(s, c, t, code);
        case None =>
    }
  }

  lemma SetQuotaValid(h: Hierarchy, p: Path, q: int)
    requires HierarchyValid(h) && PathIn(h, p)
    ensures HierarchyValid(SetQuota(h, p, q))
    ensures forall k :: k in h.entries ==>
              k in SetQuota(h, p, q).entries && SetQuota(h, p, q).entries[k].node.isPlaceholder == h.entries[k].node.isPlaceholder
  {
    match p
    case AtChapter(c) =>
      var ce := h.entries[c];
      SetChapterValid(h, c, ce.(node := WithQuota(ce.node, q)));
    case AtTopic(c, t) =>
      SetTopicQuotaValid(h, c, t, q);
    case AtSubtopic(c, t, st) =>
      SetSubtopicQuotaValid(h, c, t, st, q);
  }

  lemma SetTopicQuotaValid(h: Hierarchy, c: string, t: string, q: int)
    requires HierarchyValid(h) && PathIn(h, AtTopic(c, t))
    ensures var r := SetQuota(h, AtTopic(c, t), q);
            && HierarchyValid(r)
            && forall k :: k in h.entries ==> k in r.entries && r.entries[k].node.isPlaceholder == h.entries[k].node.isPlaceholder
  {
    var ce := h.entries[c];
    var te := ce.topics.entries[t];
    SetTopicValid(ce, t, te.(node := WithQuota(te.node, q)));
    SetChapterValid(h, c, ce.(topics := ce.topics.Set(t, te.(node := WithQuota(te.node, q)))));
  }

  lemma SetSubtopicQuotaValid(h: Hierarchy, c: string, t: string, st: string, q: int)
    requires HierarchyValid(h) && PathIn(h, AtSubtopic(c, t, st))
    ensures var r := SetQuota(h, AtSubtopic(c, t, st), q);
            && HierarchyValid(r)
            && forall k :: k in h.entries ==> k in r.entries && r.entries[k].node.isPlaceholder == h.entries[k].node.isPlaceholder
  {
    var ce := h.entries[c];
    var te := ce.topics.entries[t];
    var ss := te.subtopics;
    var te2 := te.(subtopics := ss.Set(st, WithQuota(ss.entries[st], q)));
    SetTopicValid(ce, t, te2);
    SetChapterValid(h, c, ce.(topics := ce.topics.Set(t, te2)));
  }

  /** Retagging the object of chapter `code` keeps every list element in step with its chapter entry. */
  lemma RetagKeepsIdentities(s: Snapshot, r: Snapshot, code: string, q: int)
    requires Identities(s) && code in s.chapterMap
    requires r.nextRef == s.nextRef
    requires r.chapterMap == s.chapterMap[code := Record(s.chapterMap[code].ref, WithQuota(s.chapterMap[code].node, q))]
    requires r.selections == Retag(s.selections, s.chapterMap[code].ref, q)
    ensures Identities(r)
  {
    forall c, x | c in r.chapterMap && x in r.selections && x.ref == r.chapterMap[c].ref
      ensures x.node == r.chapterMap[c].node
    {
      var i :| 0 <= i < |r.selections| && r.selections[i] == x;
      assert s.selections[i] in s.selections;
    }
    forall x | x in r.selections ensures x.ref < r.nextRef {
      var i :| 0 <= i < |r.selections| && r.selections[i] == x;
      assert s.selections[i] in s.selections;
    }
  }

  lemma UpdateQuestionCountCoherent(s: Snapshot, code: string, q: int)
    requires Coherent(s)
    ensures Coherent(UpdateQuestionCount(s, code, q))
  {
    var r := UpdateQuestionCount(s, code, q);
    match FindNode(s.hierarchy, code) {
      case Some(p) => SetQuotaValid(s.hierarchy, p, q);
      case None =>
    }
    assert HierarchyValid(r.hierarchy);
    if code in s.chapterMap {
      RetagKeepsIdentities(s, r, code, q);
    }
    assert Backed(r);
  }

  // ---------------------------------------------------------------------------------------------
  // Adding and removing again

  lemma {:induction false} WithoutCodeAppend(a: seq<Record>, b: seq<Record>, code: string)
    ensures WithoutCode(a + b, code) == WithoutCode(a, code) + WithoutCode(b, code)
  {
    if a == [] {
      assert a + b == b;
    } else {
      assert (a + b)[1..] == a[1..] + b;
      WithoutCodeAppend(a[1..], b, code);
    }
  }

  lemma {:induction false} WithoutAbsentCode(sel: seq<Record>, code: string)
    requires forall x :: x in sel ==> x.node.code != code
    ensures WithoutCode(sel, code) == sel
  {
    if sel != [] {
      assert sel[0] in sel;
      WithoutAbsentCode(sel[1..], code);
      assert sel == [sel[0]] + sel[1..];
    }
  }

  /** Filtering out the code of an element just appended, which no earlier element has, gives back the list. */
  lemma WithoutAppendedCode(sel: seq<Record>, rec: Record)
    requires forall x :: x in sel ==> x.node.code != rec.node.code
    ensures WithoutCode(sel + [rec], rec.node.code) == sel
  {
    WithoutCodeAppend(sel, [rec], rec.node.code);
    WithoutAbsentCode(sel, rec.node.code);
  }

  /** A chapter just added has no topics, so its removal cascades over nothing and the counters go back. */
  lemma FreshChapterCascade(s: Snapshot, n: Node)
    ensures n.code in AddChapter(s, n).hierarchy.entries
    ensures var s1 := AddChapter(s, n);
            RemoveChapter(s1, n.code) == s.(hierarchy := s1.hierarchy.Delete(n.code), chapterMap := s1.chapterMap - {n.code},
                                            selections := WithoutCode(s1.selections, n.code), nextRef := s.nextRef + 1)
  {
    var s1 := AddChapter(s, n);
    var ch := ChapterEntry(n, Empty());
    assert s1.hierarchy.entries[n.code] == ch;
    assert DropTopics(s1, ch.topics, ch.topics.keys) == s1 by {
      assert ch.topics.keys == [];
    }
    RemoveChapterAfterCascade(s1, n.code, s1);
  }

  /** Removing a chapter just added with no topics undoes the addition (one identity used up). */
  lemma RemoveFreshChapter(s: Snapshot, n: Node)
    requires s.hierarchy.Valid() && n.code !in s.hierarchy.entries && n.code !in s.chapterMap
    requires forall x :: x in s.selections ==> x.node.code != n.code
    ensures n.code in AddChapter(s, n).hierarchy.entries
    ensures RemoveChapter(AddChapter(s, n), n.code) == s.(nextRef := s.nextRef + 1)
  {
    var s1 := AddChapter(s, n);
    FreshChapterCascade(s, n);
    assert s1.hierarchy.Delete(n.code) == s.hierarchy by {
      DeleteUndoesSet(s.hierarchy, n.code, ChapterEntry(n, Empty()));
    }
    assert s1.selections == s.selections + [Record(s.nextRef, n)];
    WithoutAppendedCode(s.selections, Record(s.nextRef, n));
    RemoveAddedKey(s.chapterMap, n.code, Record(s.nextRef, n));
  }

  /** Selecting a chapter the store does not know and removing it gives back the store (with one identity used up). */
  lemma AddThenRemoveChapter(s: Snapshot, d: Selection, parent: Option<string>)
    requires HierarchyValid(s.hierarchy) && d.kind == Chapter
    requires d.code !in s.hierarchy.entries && d.code !in s.chapterMap
    requires forall x :: x in s.selections ==> x.node.code != d.code
    ensures RemoveSelection(AddSelection(s, d, parent), d.code) == s.(nextRef := s.nextRef + 1)
  {
    var n := SelectionNode(d);
    assert AddSelection(s, d, parent) == AddChapter(s, n);
    RemoveFreshChapter(s, n);
  }

  /** In a hierarchy where chapter `c` is the only one holding `t`, the topic search finds `c`. */
  lemma OnlyHolder(h: Hierarchy, c: string, t: string)
    requires h.Valid() && c in h.entries && t in h.entries[c].topics.entries
    requires forall k :: k in h.entries && k != c ==> t !in h.entries[k].topics.entries
    ensures TopicChapter(h, t) == Some(c)
  {
  }

  /** Filing a new topic under chapter `c` and deleting it again leaves the hierarchy as it was. */
  lemma UnfileTopic(h: Hierarchy, c: string, t: string, te: TopicEntry)
    requires HierarchyValid(h) && c in h.entries && !h.entries[c].topics.Has(t)
    ensures var ch1 := h.entries[c].(topics := h.entries[c].topics.Set(t, te));
            h.Set(c, ch1).Set(c, ch1.(topics := ch1.topics.Delete(t))) == h
  {
    var ch := h.entries[c];
    var ch1 := ch.(topics := ch.topics.Set(t, te));
    DeleteUndoesSet(ch.topics, t, te);
    assert ch1.(topics := ch1.topics.Delete(t)) == ch;
    SetTwice(h, c, ch1, ch);
    SetUnchanged(h, c);
  }

  /** A topic just filed has no subtopics, so its removal cascades over nothing and the counters go back. */
  lemma FreshTopicCascade(s: Snapshot, n: Node, pc: Option<string>, placeholder: Node)
    ensures var c := KeyOf(pc);
            var s1 := PlaceTopic(s, n, pc, placeholder);
            var ch1 := s1.hierarchy.entries[c];
            RemoveTopic(s1, c, n.code) == s.(hierarchy := s1.hierarchy.Set(c, ch1.(topics := ch1.topics.Delete(n.code))),
                                             topicMap := s1.topicMap - {n.code},
                                             selections := WithoutCode(s1.selections, n.code), nextRef := s.nextRef + 1)
  {
    var c := KeyOf(pc);
    var s1 := PlaceTopic(s, n, pc, placeholder);
    var te := s1.hierarchy.entries[c].topics.entries[n.code];
    assert te == TopicEntry(n.(parentCode := pc), Empty());
    assert DropSubtopics(s1, te.subtopics, te.subtopics.keys) == s1 by {
      assert te.subtopics.keys == [];
    }
    RemoveTopicAfterCascade(s1, c, n.code, s1);
  }

  /** Deleting a topic just filed under an existing chapter gives back the hierarchy. */
  lemma UnfileFreshTopic(s: Snapshot, n: Node, pc: Option<string>, placeholder: Node)
    requires HierarchyValid(s.hierarchy) && KeyOf(pc) in s.hierarchy.entries && !s.hierarchy.entries[KeyOf(pc)].topics.Has(n.code)
    ensures var c := KeyOf(pc);
            var s1 := PlaceTopic(s, n, pc, placeholder);
            var ch1 := s1.hierarchy.entries[c];
            s1.hierarchy.Set(c, ch1.(topics := ch1.topics.Delete(n.code))) == s.hierarchy
  {
    var c := KeyOf(pc);
    var topic := n.(parentCode := pc);
    assert PlaceTopic(s, n, pc, placeholder).hierarchy.entries[c]
        == s.hierarchy.entries[c].(topics := s.hierarchy.entries[c].topics.Set(n.code, TopicEntry(topic, Empty())));
    UnfileTopic(s.hierarchy, c, n.code, TopicEntry(topic, Empty()));
  }

  /** Removing a topic just filed under an existing chapter undoes the filing (one identity used up). */
  lemma RemoveFreshTopic(s: Snapshot, n: Node, pc: Option<string>, placeholder: Node)
    requires HierarchyValid(s.hierarchy) && KeyOf(pc) in s.hierarchy.entries && !s.hierarchy.entries[KeyOf(pc)].topics.Has(n.code)
    requires n.code !in s.topicMap && forall x :: x in s.selections ==> x.node.code != n.code
    ensures RemoveTopic(PlaceTopic(s, n, pc, placeholder), KeyOf(pc), n.code) == s.(nextRef := s.nextRef + 1)
  {
    var s1 := PlaceTopic(s, n, pc, placeholder);
    var topic := n.(parentCode := pc);
    FreshTopicCascade(s, n, pc, placeholder);
    UnfileFreshTopic(s, n, pc, placeholder);
    assert s1.selections == s.selections + [Record(s.nextRef, topic)];
    WithoutAppendedCode(s.selections, Record(s.nextRef, topic));
    RemoveAddedKey(s.topicMap, n.code, topic);
  }

  /** Taking out a key just put into a map that did not have it gives back the map. */
  lemma RemoveAddedKey<V>(m: map<string, V>, k: string, v: V)
    requires k !in m
    ensures m[k := v] - {k} == m
  {
  }

  /** Selecting a new topic of an existing chapter and removing it gives back the store. */
  lemma AddThenRemoveTopic(s: Snapshot, d: Selection, parent: Option<string>)
    requires HierarchyValid(s.hierarchy) && d.kind == Topic
    requires KeyOf(TopicParent(d.parentCode, parent)) in s.hierarchy.entries
    requires d.code !in s.hierarchy.entries && TopicChapter(s.hierarchy, d.code).None? && d.code !in s.topicMap
    requires forall x :: x in s.selections ==> x.node.code != d.code
    ensures RemoveSelection(AddSelection(s, d, parent), d.code) == s.(nextRef := s.nextRef + 1)
  {
    var n := SelectionNode(d);
    var pc := TopicParent(n.parentCode, parent);
    var c := KeyOf(pc);
    var ph := PlaceholderChapter(c, None);
    var s1 := AddSelection(s, d, parent);
    assert s1 == PlaceTopic(s, n, pc, ph);
    assert RemoveSelection(s1, d.code) == RemoveTopic(s1, c, d.code) by {
      var topic := n.(parentCode := pc);
      var ch := s.hierarchy.entries[c];
      assert s1.hierarchy == s.hierarchy.Set(c, ch.(topics := ch.topics.Set(d.code, TopicEntry(topic, Empty()))));
      OnlyHolder(s1.hierarchy, c, d.code);
    }
    RemoveFreshTopic(s, n, pc, ph);
  }

  // ---------------------------------------------------------------------------------------------
  // What removing a chapter takes with it

  function TopicCodes(ts: OMap<TopicEntry>, ks: seq<string>): set<string> {
    set k | k in ks && k in ts.entries
  }

  function SubtopicCodes(ts: OMap<TopicEntry>, ks: seq<string>): set<string> {
    set k, st | k in ks && k in ts.entries && st in ts.entries[k].subtopics.entries :: st
  }

  lemma DropTopicEffect(s: Snapshot, k: string, te: TopicEntry)
    requires te.subtopics.Valid()
    ensures DropTopic(s, k, te).subtopicMap == s.subtopicMap - te.subtopics.entries.Keys
    ensures forall x :: x in DropTopic(s, k, te).selections <==>
              x in s.selections && x.node.code != k && x.node.code !in te.subtopics.entries
  {
    assert (set j | j in te.subtopics.keys && j in te.subtopics.entries) == te.subtopics.entries.Keys;
  }

  lemma SubtopicCodesStep(ts: OMap<TopicEntry>, ks: seq<string>)
    requires ks != []
    ensures var init := ks[..|ks| - 1];
            var k := ks[|ks| - 1];
            && (k in ts.entries ==> SubtopicCodes(ts, ks) == SubtopicCodes(ts, init) + ts.entries[k].subtopics.entries.Keys)
            && (k in ts.entries ==> TopicCodes(ts, ks) == TopicCodes(ts, init) + {k})
            && (k !in ts.entries ==> SubtopicCodes(ts, ks) == SubtopicCodes(ts, init) && TopicCodes(ts, ks) == TopicCodes(ts, init))
  {
    var init := ks[..|ks| - 1];
    assert forall x :: x in ks <==> x in init || x == ks[|ks| - 1];
  }

  lemma {:induction false} DropTopicsSubtopicMap(s: Snapshot, ts: OMap<TopicEntry>, ks: seq<string>)
    requires forall k :: k in ts.entries ==> ts.entries[k].subtopics.Valid()
    ensures DropTopics(s, ts, ks).subtopicMap == s.subtopicMap - SubtopicCodes(ts, ks)
  {
    if ks != [] {
      var init := ks[..|ks| - 1];
      var k := ks[|ks| - 1];
      DropTopicsSubtopicMap(s, ts, init);
      SubtopicCodesStep(ts, ks);
      if k in ts.entries {
        DropTopicEffect(DropTopics(s, ts, init), k, ts.entries[k]);
      }
    }
  }

  lemma {:induction false} DropTopicsSelections(s: Snapshot, ts: OMap<TopicEntry>, ks: seq<string>)
    requires forall k :: k in ts.entries ==> ts.entries[k].subtopics.Valid()
    ensures forall x :: x in DropTopics(s, ts, ks).selections <==>
              x in s.selections && x.node.code !in TopicCodes(ts, ks) && x.node.code !in SubtopicCodes(ts, ks)
  {
    if ks != [] {
      var init := ks[..|ks| - 1];
      var k := ks[|ks| - 1];
      DropTopicsSelections(s, ts, init);
      SubtopicCodesStep(ts, ks);
      if k in ts.entries {
        DropTopicEffect(DropTopics(s, ts, init), k, ts.entries[k]);
      }
    }
  }

  /**
   * Removing chapter `c` takes the chapter, every one of its topics and every subtopic of those out of the
   * hierarchy, the lookup maps and the list, and leaves every other chapter and list element as it was.
   */
  lemma RemoveChapterCascade(s: Snapshot, c: string)
    requires HierarchyValid(s.hierarchy) && c in s.hierarchy.entries
    ensures var r := RemoveSelection(s, c);
            var ts := s.hierarchy.entries[c].topics;
            && c !in r.hierarchy.entries && c !in r.chapterMap
            && r.hierarchy.keys == Without(s.hierarchy.keys, c)
            && (forall k :: k in s.hierarchy.entries && k != c ==> k in r.hierarchy.entries && r.hierarchy.entries[k] == s.hierarchy.entries[k])
            && (forall k :: k in s.chapterMap && k != c ==> k in r.chapterMap && r.chapterMap[k] == s.chapterMap[k])
            && r.topicMap == s.topicMap - ts.entries.Keys
            && r.subtopicMap == s.subtopicMap - SubtopicCodes(ts, ts.keys)
            && (forall x :: x in r.selections <==>
                  x in s.selections && x.node.code != c && x.node.code !in ts.entries && x.node.code !in SubtopicCodes(ts, ts.keys))
  {
    var ts := s.hierarchy.entries[c].topics;
    DropTopicsSubtopicMap(s, ts, ts.keys);
    DropTopicsSelections(s, ts, ts.keys);
    assert TopicCodes(ts, ts.keys) == ts.entries.Keys;
  }

  // ---------------------------------------------------------------------------------------------
  // What one update does

  /**
   * Selecting a chapter files the selection object in the hierarchy with no topics (replacing any earlier
   * entry and its topics), in the chapter map and at the end of the list as one object, and counts it.
   */
  lemma AddChapterEffect(s: Snapshot, d: Selection, parent: Option<string>)
    requires d.kind == Chapter
    ensures var r := AddSelection(s, d, parent);
            var n := SelectionNode(d);
            && d.code in r.hierarchy.entries && r.hierarchy.entries[d.code] == ChapterEntry(n, Empty())
            && r.chapterMap == s.chapterMap[d.code := Record(s.nextRef, n)]
            && r.selections == s.selections + [Record(s.nextRef, n)]
            && r.topicMap == s.topicMap && r.subtopicMap == s.subtopicMap
            && r.stats == s.stats.(chapters := s.stats.chapters + 1, questions := s.stats.questions + n.questionCount)
  {
  }

  /**
   * A topic whose chapter is not in the hierarchy brings in an unselected placeholder chapter with no
   * questions.  The placeholder goes into the hierarchy only: the chapter map and the chapter counter
   * stay as they were, and the list and counters grow by the topic alone.
   */
  lemma TopicPlaceholderChapter(s: Snapshot, d: Selection, parent: Option<string>)
    requires d.kind == Topic
    requires KeyOf(TopicParent(d.parentCode, parent)) !in s.hierarchy.entries
    ensures var r := AddSelection(s, d, parent);
            var pc := TopicParent(d.parentCode, parent);
            var c := KeyOf(pc);
            var topic := SelectionNode(d).(parentCode := pc);
            && c in r.hierarchy.entries && r.hierarchy.keys == s.hierarchy.keys + [c]
            && r.hierarchy.entries[c].node == PlaceholderChapter(c, None)
            && !r.hierarchy.entries[c].node.isSelected && r.hierarchy.entries[c].node.questionCount == 0
            && (pc.None? ==> c == NullKey && r.hierarchy.entries[c].node.name == "Chapter null")
            && r.chapterMap == s.chapterMap && r.subtopicMap == s.subtopicMap
            && r.topicMap == s.topicMap[d.code := topic]
            && r.selections == s.selections + [Record(s.nextRef, topic)]
            && r.stats == s.stats.(topics := s.stats.topics + 1, questions := s.stats.questions + topic.questionCount)
  {
  }

  /**
   * A subtopic whose topic no chapter holds is filed under a placeholder topic, inside the chapter the
   * topic's code points to (or "unknown_chapter"), which is itself a placeholder when it was missing.  Only
   * the subtopic is selected and counted.
   */
  lemma SubtopicPlaceholders(s: Snapshot, d: Selection, parent: Option<string>)
    requires d.kind == Subtopic && CanAdd(d, parent)
    requires TopicChapter(s.hierarchy, TopicParent(d.parentCode, parent).value).None?
    ensures var r := AddSelection(s, d, parent);
            var t := TopicParent(d.parentCode, parent).value;
            var c := ChapterOrUnknown(ParentChapterCode(s.hierarchy, t));
            var sub := SelectionNode(d).(parentCode := Some(t));
            && c in r.hierarchy.entries && t in r.hierarchy.entries[c].topics.entries
            && r.hierarchy.entries[c].topics.entries[t].node == PlaceholderTopic(t, c, "Topic " + t, 0)
            && d.code in r.hierarchy.entries[c].topics.entries[t].subtopics.entries
            && (c !in s.hierarchy.entries ==> r.hierarchy.entries[c].node == PlaceholderChapter(c, None))
            && r.chapterMap == s.chapterMap && r.topicMap == s.topicMap
            && r.subtopicMap == s.subtopicMap[d.code := sub]
            && r.selections == s.selections + [Record(s.nextRef, sub)]
            && r.stats == s.stats.(subtopics := s.stats.subtopics + 1, questions := s.stats.questions + sub.questionCount)
  {
    var t := TopicParent(d.parentCode, parent).value;
    var c := ChapterOrUnknown(ParentChapterCode(s.hierarchy, t));
    var sub := SelectionNode(d).(parentCode := Some(t));
    var chapter := PlaceholderChapter(c, None);
    var topic := PlaceholderTopic(t, c, "Topic " + t, 0);
    PlacedUnderPlaceholders(s.hierarchy, t, sub, c, chapter, topic);
    AddSubtopicForm(s, d, parent, t, c, sub);
    RecordSubtopicFields(s, PlaceSubtopic(s.hierarchy, t, sub, c, chapter, topic), sub);
  }

  /** The map, list and counter half of adding a subtopic, on a store whose hierarchy is already `h` */
  lemma RecordSubtopicFields(s: Snapshot, h: Hierarchy, sub: Node)
    ensures var r := RecordSubtopic(s.(hierarchy := h), sub);
            && r.hierarchy == h && r.chapterMap == s.chapterMap && r.topicMap == s.topicMap
            && r.subtopicMap == s.subtopicMap[sub.code := sub]
            && r.selections == s.selections + [Record(s.nextRef, sub)]
            && r.stats == s.stats.(subtopics := s.stats.subtopics + 1, questions := s.stats.questions + sub.questionCount)
  {
  }

  /** Adding a subtopic selection: the hierarchy half, then the map, list and counter half */
  lemma AddSubtopicForm(s: Snapshot, d: Selection, parent: Option<string>, t: string, c: string, sub: Node)
    requires d.kind == Subtopic && CanAdd(d, parent)
    requires t == TopicParent(d.parentCode, parent).value
    requires c == ChapterOrUnknown(ParentChapterCode(s.hierarchy, t))
    requires sub == SelectionNode(d).(parentCode := Some(t))
    ensures var h := PlaceSubtopic(s.hierarchy, t, sub, c, PlaceholderChapter(c, None), PlaceholderTopic(t, c, "Topic " + t, 0));
            AddSelection(s, d, parent) == RecordSubtopic(s.(hierarchy := h), sub)
  {
  }

  /** The hierarchy half of the above: the subtopic goes into a fresh `topic` under chapter `c`. */
  lemma PlacedUnderPlaceholders(h: Hierarchy, t: string, sub: Node, c: string, chapter: Node, topic: Node)
    requires topic.code == t && TopicChapter(h, t).None?
    ensures var r := PlaceSubtopic(h, t, sub, c, chapter, topic);
            && c in r.entries && t in r.entries[c].topics.entries
            && r.entries[c].topics.entries[t].node == topic
            && sub.code in r.entries[c].topics.entries[t].subtopics.entries
            && (c !in h.entries ==> r.entries[c].node == chapter)
  {
    var h1 := HostTopic(h, c, chapter, topic);
    assert PlaceSubtopic(h, t, sub, c, chapter, topic) == AttachSubtopic(h1, c, t, sub);
  }

  /** A code that is neither a chapter, nor a topic, nor a subtopic in the hierarchy: removing it changes nothing. */
  lemma RemoveUnknownCode(s: Snapshot, code: string)
    requires HierarchyValid(s.hierarchy) && code !in s.hierarchy.entries
    requires forall c :: c in s.hierarchy.entries ==> code !in s.hierarchy.entries[c].topics.entries
    requires forall c, t :: c in s.hierarchy.entries && t in s.hierarchy.entries[c].topics.entries ==>
               code !in s.hierarchy.entries[c].topics.entries[t].subtopics.entries
    ensures RemoveSelection(s, code) == s
  {
  }

  /**
   * Removing a topic without subtopics takes it out of its chapter, the topic map and the list, and takes
   * one topic and its question count off the counters; chapters and subtopics stay.
   */
  lemma RemoveLeafTopic(s: Snapshot, c: string, t: string)
    requires HierarchyValid(s.hierarchy) && t !in s.hierarchy.entries && TopicChapter(s.hierarchy, t) == Some(c)
    requires s.hierarchy.entries[c].topics.entries[t].subtopics.keys == []
    ensures var r := RemoveSelection(s, t);
            var ch := s.hierarchy.entries[c];
            && r.hierarchy == s.hierarchy.Set(c, ch.(topics := ch.topics.Delete(t)))
            && r.topicMap == s.topicMap - {t}
            && r.chapterMap == s.chapterMap && r.subtopicMap == s.subtopicMap
            && r.selections == WithoutCode(s.selections, t)
            && r.stats == s.stats.(topics := s.stats.topics - 1,
                                   questions := s.stats.questions - ch.topics.entries[t].node.questionCount)
  {
    assert RemoveSelection(s, t) == RemoveTopic(s, c, t);
    var te := s.hierarchy.entries[c].topics.entries[t];
    assert DropSubtopics(s, te.subtopics, te.subtopics.keys) == s;
    RemoveTopicAfterCascade(s, c, t, s);
  }

  /**
   * `removeSelection` takes off the counters exactly what it removes: a chapter, one each for its topics
   * and their subtopics, and all of their questions; a topic, its subtopics and their questions; or a
   * single subtopic and its questions.
   */
  lemma RemoveSelectionStats(s: Snapshot, code: string)
    ensures code in s.hierarchy.entries ==>
              var ch := s.hierarchy.entries[code];
              RemoveSelection(s, code).stats
                == Less(Less(s.stats, TopicsWeight(ch.topics, ch.topics.keys)), Stats(1, 0, 0, ch.node.questionCount))
    ensures code !in s.hierarchy.entries && TopicChapter(s.hierarchy, code).Some? ==>
              var te := s.hierarchy.entries[TopicChapter(s.hierarchy, code).value].topics.entries[code];
              RemoveSelection(s, code).stats
                == Less(Less(s.stats, SubtopicsWeight(te.subtopics, te.subtopics.keys)), Stats(0, 1, 0, te.node.questionCount))
    ensures code !in s.hierarchy.entries && TopicChapter(s.hierarchy, code).None? && SubtopicHome(s.hierarchy, code).Some? ==>
              var (c, t) := SubtopicHome(s.hierarchy, code).value;
              RemoveSelection(s, code).stats
                == Less(s.stats, Stats(0, 0, 1, s.hierarchy.entries[c].topics.entries[t].subtopics.entries[code].questionCount))
  {
    if code in s.hierarchy.entries {
      var ch := s.hierarchy.entries[code];
      DropTopicsStats(s, ch.topics, ch.topics.keys);
    } else if TopicChapter(s.hierarchy, code).Some? {
      var te := s.hierarchy.entries[TopicChapter(s.hierarchy, code).value].topics.entries[code];
      DropSubtopicsStats(s, te.subtopics, te.subtopics.keys);
    }
  }

  // ---------------------------------------------------------------------------------------------
  // The counters

  function Count(st: Stats, n: Node): Stats {
    match n.kind
    case Chapter => st.(chapters := st.chapters + 1, questions := st.questions + n.questionCount)
    case Topic => st.(topics := st.topics + 1, questions := st.questions + n.questionCount)
    case Subtopic => st.(subtopics := st.subtopics + 1, questions := st.questions + n.questionCount)
    case Other => st
  }

  /** The counters a list of selections adds up to */
  function Tally(sel: seq<Record>): Stats {
    if sel == [] then ZeroStats else Count(Tally(sel[..|sel| - 1]), sel[|sel| - 1].node)
  }

  lemma TallyAppend(sel: seq<Record>, x: Record)
    ensures Tally(sel + [x]) == Count(Tally(sel), x.node)
  {
    assert (sel + [x])[..|sel|] == sel;
  }

  /** Appending one element and counting it keeps the counters equal to the tally. */
  lemma AppendKeepsTally(s: Snapshot, r: Snapshot, x: Record)
    requires s.stats == Tally(s.selections)
    requires r.selections == s.selections + [x] && r.stats == Count(s.stats, x.node)
    ensures r.stats == Tally(r.selections)
  {
    TallyAppend(s.selections, x);
  }

  lemma AddChapterTally(s: Snapshot, n: Node)
    requires n.kind == Chapter && s.stats == Tally(s.selections)
    ensures AddChapter(s, n).stats == Tally(AddChapter(s, n).selections)
  {
    AppendKeepsTally(s, AddChapter(s, n), Record(s.nextRef, n));
  }

  lemma PlaceTopicTally(s: Snapshot, t: Node, pc: Option<string>, placeholder: Node)
    requires t.kind == Topic && s.stats == Tally(s.selections)
    ensures PlaceTopic(s, t, pc, placeholder).stats == Tally(PlaceTopic(s, t, pc, placeholder).selections)
  {
    AppendKeepsTally(s, PlaceTopic(s, t, pc, placeholder), Record(s.nextRef, t.(parentCode := pc)));
  }

  lemma RecordSubtopicTally(s: Snapshot, h: Hierarchy, sub: Node)
    requires sub.kind == Subtopic && s.stats == Tally(s.selections)
    ensures RecordSubtopic(s.(hierarchy := h), sub).stats == Tally(RecordSubtopic(s.(hierarchy := h), sub).selections)
  {
    AppendKeepsTally(s, RecordSubtopic(s.(hierarchy := h), sub), Record(s.nextRef, sub));
  }

  lemma AddSubtopicTally(s: Snapshot, n: Node, parent: Option<string>)
    requires n.kind == Subtopic && s.stats == Tally(s.selections) && TopicParent(n.parentCode, parent).Some?
    ensures AddSubtopic(s, n, parent).stats == Tally(AddSubtopic(s, n, parent).selections)
  {
    var t := TopicParent(n.parentCode, parent).value;
    var c := ChapterOrUnknown(ParentChapterCode(s.hierarchy, t));
    var sub := n.(parentCode := Some(t));
    RecordSubtopicTally(s, PlaceSubtopic(s.hierarchy, t, sub, c, PlaceholderChapter(c, None), PlaceholderTopic(t, c, "Topic " + t, 0)), sub);
  }

  lemma AddSubtopicWithContextTally(s: Snapshot, n: Node, ctx: Option<Context>)
    requires n.kind == Subtopic && s.stats == Tally(s.selections) && CanAddSubtopicWithContext(n, ctx)
    ensures AddSubtopicWithContext(s, n, ctx).stats == Tally(AddSubtopicWithContext(s, n, ctx).selections)
  {
    var t := KeyOf(ContextSubtopicParent(n, ctx));
    var s1 := NoteContextChapter(s, ctx);
    var sub := n.(parentCode := ContextSubtopicParent(n, ctx));
    var c := ContextSubtopicChapter(s1.hierarchy, t, ctx);
    var name := if ContextTopic(ctx).Some? then ContextTopic(ctx).value.name else "Topic " + t;
    var count := if ContextTopic(ctx).Some? then ContextTopic(ctx).value.questionCount.GetOr(0) else 0;
    var chapter := PlaceholderChapter(c, Lookup(s1.chapterMetadata, c));
    RecordSubtopicTally(s1, PlaceSubtopic(s1.hierarchy, t, sub, c, chapter, PlaceholderTopic(t, c, name, count)), sub);
  }

  /** Every way of adding a selection moves the counters exactly as the list grows. */
  lemma AddSelectionKeepsTally(s: Snapshot, d: Selection, parent: Option<string>)
    requires s.stats == Tally(s.selections) && CanAdd(d, parent)
    ensures AddSelection(s, d, parent).stats == Tally(AddSelection(s, d, parent).selections)
  {
    var n := SelectionNode(d);
    match d.kind
    case Chapter => AddChapterTally(s, n);
    case Topic =>
      var pc := TopicParent(n.parentCode, parent);
      PlaceTopicTally(s, n, pc, PlaceholderChapter(KeyOf(pc), None));
    case Subtopic => AddSubtopicTally(s, n, parent);
    case Other =>
  }

  lemma AddSelectionWithContextKeepsTally(s: Snapshot, d: Selection, ctx: Option<Context>)
    requires s.stats == Tally(s.selections) && CanAddWithContext(d, ctx)
    ensures AddSelectionWithContext(s, d, ctx).stats == Tally(AddSelectionWithContext(s, d, ctx).selections)
  {
    var n := SelectionNode(d);
    match d.kind
    case Chapter => AddChapterTally(s, n);
    case Topic =>
      var pc := ContextTopicParent(n, ctx);
      var s1 := NoteContextChapter(s, ctx);
      PlaceTopicTally(s1, n, pc, PlaceholderChapter(KeyOf(pc), Lookup(s1.chapterMetadata, KeyOf(pc))));
    case Subtopic => AddSubtopicWithContextTally(s, n, ctx);
    case Other =>
  }

  lemma {:induction false} BulkAddKeepsTally(s: Snapshot, items: seq<Selection>)
    requires s.stats == Tally(s.selections) && forall i :: 0 <= i < |items| ==> BulkReady(items[i])
    ensures BulkAdd(s, items).stats == Tally(BulkAdd(s, items).selections)
  {
    if items != [] {
      var init := items[..|items| - 1];
      BulkAddKeepsTally(s, init);
      var s1 := BulkAdd(s, init);
      var d := items[|items| - 1];
      var n := BulkNode(d);
      match d.kind
      case Chapter => AddChapterTally(s1, n);
      case Topic =>
        var pc := TopicParent(n.parentCode, None);
        PlaceTopicTally(s1, n, pc, PlaceholderChapter(KeyOf(pc), None));
      case Subtopic => AddSubtopicTally(s1, n, None);
      case Other =>
    }
  }

  /**
   * Removal does not keep the counters in step: a topic filed under a chapter nobody selected leaves a
   * placeholder chapter, and removing that placeholder takes one off a chapter count that never went up.
   */
  lemma PlaceholderRemovalUndercounts(d: Selection)
    requires d == Selection(Topic, "t1", "Topic one", Some(5), Some("c1"), None)
    ensures var s1 := AddSelection(Initial(), d, None);
            var s2 := RemoveSelection(s1, "c1");
            && s1.stats == Stats(0, 1, 0, 5) && s1.hierarchy.keys == ["c1"] && s1.hierarchy.entries["c1"].node.isPlaceholder
            && s2.stats == Stats(-1, 0, 0, 0) && s2.selections == [] && s2.hierarchy.keys == []
  {
    var s1 := AddSelection(Initial(), d, None);
    LoneTopicUnderPlaceholder(d);
    RemovingLoneTopicChapter(s1, "c1", "t1");
    assert WithoutCode(s1.selections, "t1") == [];
    assert Without(["c1"], "c1") == [];
  }

  /** The store after selecting topic `t1` of an unselected chapter `c1` into an empty store */
  lemma LoneTopicUnderPlaceholder(d: Selection)
    requires d == Selection(Topic, "t1", "Topic one", Some(5), Some("c1"), None)
    ensures var s1 := AddSelection(Initial(), d, None);
            && s1.hierarchy.keys == ["c1"] && "c1" in s1.hierarchy.entries
            && var ch := s1.hierarchy.entries["c1"];
               && ch.node.isPlaceholder && ch.node.questionCount == 0
               && ch.topics.keys == ["t1"] && "t1" in ch.topics.entries
               && ch.topics.entries["t1"].subtopics.keys == [] && ch.topics.entries["t1"].node.questionCount == 5
               && s1.selections == [Record(0, SelectionNode(d).(parentCode := Some("c1")))]
               && s1.stats == Stats(0, 1, 0, 5)
  {
    var n := SelectionNode(d);
    var placeholder := PlaceholderChapter("c1", None);
    assert AddSelection(Initial(), d, None) == PlaceTopic(Initial(), n, Some("c1"), placeholder);
    TopicIntoEmptyStore(n, Some("c1"), placeholder);
  }

  /**
   * A topic with no parent code and no parent data, selected into an empty store, is filed under a
   * placeholder chapter keyed `null` and named "Chapter null", and keeps `null` as its parent code.
   */
  lemma ParentlessTopic(d: Selection)
    requires d == Selection(Topic, "t1", "Topic one", Some(5), None, None)
    ensures var s1 := AddSelection(Initial(), d, None);
            && s1.hierarchy.keys == [NullKey] && NullKey in s1.hierarchy.entries
            && var ch := s1.hierarchy.entries[NullKey];
               && ch.node.isPlaceholder && !ch.node.isSelected && ch.node.name == "Chapter null"
               && ch.topics.keys == ["t1"] && "t1" in ch.topics.entries
               && ch.topics.entries["t1"].node.parentCode.None?
               && s1.selections == [Record(0, SelectionNode(d))]
               && s1.chapterMap == map[] && s1.stats == Stats(0, 1, 0, 5)
  {
    var n := SelectionNode(d);
    var placeholder := PlaceholderChapter(NullKey, None);
    SelectedTopicPlaced(d, None);
    TopicIntoEmptyStore(n, None, placeholder);
  }

  /** Selecting a topic with no parent data places it under the placeholder its parent code names. */
  lemma SelectedTopicPlaced(d: Selection, parent: Option<string>)
    requires d.kind == Topic
    ensures var pc := TopicParent(d.parentCode, parent);
            AddSelection(Initial(), d, parent) == PlaceTopic(Initial(), SelectionNode(d), pc, PlaceholderChapter(KeyOf(pc), None))
  {
  }

  /** Into an empty store, a topic goes alone under its placeholder chapter and is the only selection. */
  lemma TopicIntoEmptyStore(n: Node, pc: Option<string>, placeholder: Node)
    ensures var c := KeyOf(pc);
            var s1 := PlaceTopic(Initial(), n, pc, placeholder);
            && s1.hierarchy.keys == [c] && c in s1.hierarchy.entries
            && var ch := s1.hierarchy.entries[c];
               && ch.node == placeholder && ch.topics.keys == [n.code] && n.code in ch.topics.entries
               && ch.topics.entries[n.code] == TopicEntry(n.(parentCode := pc), Empty())
               && s1.selections == [Record(0, n.(parentCode := pc))]
               && s1.chapterMap == map[]
               && s1.stats == ZeroStats.(topics := 1, questions := n.questionCount)
  {
    var h1 := Initial().hierarchy.Set(KeyOf(pc), ChapterEntry(placeholder, Empty()));
    PlaceTopicAfterHost(Initial(), n, pc, placeholder, h1);
  }

  /** Removing a chapter with one topic and no subtopics */
  lemma RemovingLoneTopicChapter(s: Snapshot, c: string, t: string)
    requires c in s.hierarchy.entries && s.hierarchy.entries[c].topics.keys == [t]
    requires t in s.hierarchy.entries[c].topics.entries && s.hierarchy.entries[c].topics.entries[t].subtopics.keys == []
    ensures var r := RemoveSelection(s, c);
            var ch := s.hierarchy.entries[c];
            && r.stats == s.stats.(chapters := s.stats.chapters - 1, topics := s.stats.topics - 1,
                                   questions := s.stats.questions - ch.node.questionCount - ch.topics.entries[t].node.questionCount)
            && r.selections == WithoutCode(WithoutCode(s.selections, t), c)
            && r.hierarchy == s.hierarchy.Delete(c)
  {
    var ch := s.hierarchy.entries[c];
    var te := ch.topics.entries[t];
    assert ch.topics.keys[..0] == [];
    assert DropTopics(s, ch.topics, ch.topics.keys) == DropTopic(s, t, te);
    assert DropSubtopics(s, te.subtopics, []) == s;
  }

  // ---------------------------------------------------------------------------------------------
  // Updating a count

  /** The chapter's list element is its map entry, so both show the new quota. */
  lemma ChapterQuotaShowsInList(s: Snapshot, code: string, q: int)
    requires Coherent(s) && code in s.chapterMap
    ensures var r := UpdateQuestionCount(s, code, q);
            && r.chapterMap[code].node.questionsToAdd == Some(q)
            && forall x :: x in r.selections && x.ref == r.chapterMap[code].ref ==> x.node.questionsToAdd == Some(q)
  {
    UpdateQuestionCountCoherent(s, code, q);
  }

  /** A topic's list element is a copy of its map entry, so the list keeps the old quota. */
  lemma TopicQuotaMissesList()
    ensures var s1 := AddSelection(Initial(), Selection(Topic, "t1", "Topic one", Some(10), Some("c1"), None), None);
            var s2 := UpdateQuestionCount(s1, "t1", 3);
            && s2.topicMap["t1"].questionsToAdd == Some(3)
            && s2.hierarchy.entries["c1"].topics.entries["t1"].node.questionsToAdd == Some(3)
            && s2.selections[0].node.questionsToAdd == Some(4)
  {
    var d := Selection(Topic, "t1", "Topic one", Some(10), Some("c1"), None);
    var s1 := AddSelection(Initial(), d, None);
    assert s1 == PlaceTopic(Initial(), SelectionNode(d), Some("c1"), PlaceholderChapter("c1", None));
    assert s1.hierarchy.keys == ["c1"];
    assert s1.hierarchy.entries["c1"].topics.keys == ["t1"];
    assert FindNode(s1.hierarchy, "t1") == Some(AtTopic("c1", "t1"));
  }

  /** Counts change; what is selected, the list's length and the counters do not. */
  lemma UpdateQuestionCountKeepsSelection(s: Snapshot, code: string, q: int)
    ensures var r := UpdateQuestionCount(s, code, q);
            && (forall k, x :: IsSelected(r, x, k) == IsSelected(s, x, k))
            && |r.selections| == |s.selections| && r.stats == s.stats
  {
    var r := UpdateQuestionCount(s, code, q);
    assert r.chapterMap.Keys == s.chapterMap.Keys;
    assert r.topicMap.Keys == s.topicMap.Keys && r.subtopicMap.Keys == s.subtopicMap.Keys;
    forall k, x
      ensures IsSelected(r, x, k) == IsSelected(s, x, k)
    {
    }
  }

  /** The new count lands on the selected topic or subtopic and on the node the search finds, which keeps its place. */
  lemma UpdateQuestionCountSetsQuota(s: Snapshot, code: string, q: int)
    ensures var r := UpdateQuestionCount(s, code, q);
            && r.hierarchy.keys == s.hierarchy.keys
            && (code in s.topicMap ==> r.topicMap[code].questionsToAdd == Some(q))
            && (code in s.subtopicMap ==> r.subtopicMap[code].questionsToAdd == Some(q))
            && (FindNode(s.hierarchy, code).Some? ==> NodeAt(r.hierarchy, FindNode(s.hierarchy, code).value).questionsToAdd == Some(q))
            && (FindNode(s.hierarchy, code).None? ==> r.hierarchy == s.hierarchy)
  {
  }

  // ---------------------------------------------------------------------------------------------
  // Logical selection

  /** A topic that only a selected chapter holds counts as selected through it. */
  lemma TopicOfSelectedChapter(s: Snapshot, c: string, t: string)
    requires Coherent(s) && c in s.chapterMap && t in s.hierarchy.entries[c].topics.entries
    requires forall k :: k in s.hierarchy.entries && k != c ==> t !in s.hierarchy.entries[k].topics.entries
    ensures IsLogicallySelected(s, t, Topic)
  {
    OnlyHolder(s.hierarchy, c, t);
  }

  /** Being selected directly is being selected logically, at every level. */
  lemma SelectedIsLogicallySelected(s: Snapshot, code: string, kind: Kind)
    requires kind != Other && IsSelected(s, code, kind)
    ensures CanAskLogically(s, code, kind) && IsLogicallySelected(s, code, kind)
  {
  }

  /** In a hierarchy of chapters without topics, no code has a parent found by search. */
  lemma TopiclessSearches(h: Hierarchy, code: string)
    requires HierarchyValid(h) && forall k :: k in h.entries ==> h.entries[k].topics.keys == []
    ensures SubtopicHome(h, code).None? && TopicChapter(h, code).None?
  {
    TopiclessFrom(h, code, 0);
  }

  lemma {:induction false} TopiclessFrom(h: Hierarchy, code: string, i: nat)
    requires forall k :: k in h.entries ==> h.entries[k].topics.keys == []
    decreases |h.keys| - i
    ensures SubtopicHomeFrom(h, code, i).None?
  {
    if i < |h.keys| {
      TopiclessFrom(h, code, i + 1);
    }
  }

  /**
   * When no chapter has topics, a subtopic code `c_t_s` counts as selected exactly when it is selected
   * itself, its inferred topic `c_t` is, or its inferred chapter `c` is.
   */
  lemma CodedSubtopicSelection(s: Snapshot, c: string, t: string, st: string)
    requires HierarchyValid(s.hierarchy) && forall k :: k in s.hierarchy.entries ==> s.hierarchy.entries[k].topics.keys == []
    requires '_' !in c && '_' !in t && '_' !in st
    ensures CanAskLogically(s, c + "_" + t + "_" + st, Subtopic)
    ensures IsLogicallySelected(s, c + "_" + t + "_" + st, Subtopic) <==>
              (c + "_" + t + "_" + st) in s.subtopicMap || (c + "_" + t) in s.topicMap || c in s.chapterMap
  {
    var code := c + "_" + t + "_" + st;
    CodedParents(c, t, st);
    TopiclessSearches(s.hierarchy, code);
    TopiclessSearches(s.hierarchy, c + "_" + t);
    assert ParentTopicCode(s.hierarchy, code) == Some(c + "_" + t);
    assert ParentChapterCode(s.hierarchy, c + "_" + t) == Some(c);
  }

  /** For a code `c_t_s` of three underscore-free parts, the inferred parents are `c_t` and `c`. */
  lemma CodedParents(c: string, t: string, st: string)
    requires '_' !in c && '_' !in t && '_' !in st
    ensures var code := c + "_" + t + "_" + st;
            && '_' in code && Before(code) + "_" + Before(After(code)) == c + "_" + t
            && '_' in c + "_" + t && Before(c + "_" + t) == c
  {
    var rest := "_" + (t + "_" + st);
    Regrouped(c, t, st);
    JoinedOn(c, t + "_" + st);
    SplitAt(c, rest);
    JoinedOn(t, st);
    SplitAt(t, "_" + st);
    JoinedOn(c, t);
    SplitAt(c, "_" + t);
  }

  lemma Regrouped(c: string, t: string, st: string)
    ensures c + "_" + t + "_" + st == c + "_" + (t + "_" + st)
  {
    assert c + "_" + t + "_" + st == (c + "_") + (t + "_" + st);
  }

  /** `a + "_" + b`, regrouped so that the text after `a` starts with the separator */
  lemma JoinedOn(a: string, b: string)
    ensures a + "_" + b == a + ("_" + b) && ("_" + b)[1..] == b && ("_" + b)[0] == '_'
  {
  }

  /** A word without `_` followed by text starting with `_` splits at that `_`. */
  lemma SplitAt(a: string, b: string)
    requires '_' !in a && b != [] && b[0] == '_'
    ensures '_' in a + b && Before(a + b) == a && After(a + b) == b[1..]
  {
    BeforeOf(a, b);
    assert (a + b)[|a|] == '_';
    assert (a + b)[|a| + 1..] == b[1..];
  }

  lemma BeforeOf(a: string, b: string)
    requires '_' !in a && b != [] && b[0] == '_'
    ensures Before(a + b) == a
  {
    assert (a + b)[|a|] == '_';
    assert forall k :: 0 <= k < |a| ==> (a + b)[k] == a[k];
  }

  // ---------------------------------------------------------------------------------------------
  // Placeholders

  /**
   * A subtopic whose topic is nowhere in the store, and whose code has no `_`, is filed under a placeholder
   * topic inside a placeholder chapter `unknown_chapter`; neither placeholder counts as selected.
   */
  lemma SubtopicIntoEmptyStore(d: Selection)
    requires d.kind == Subtopic && d.parentCode.Some? && d.parentCode.value != "" && '_' !in d.parentCode.value
    requires d.code != "unknown_chapter" && d.code != d.parentCode.value
    ensures var t := d.parentCode.value;
            var s := AddSelection(Initial(), d, None);
            && s.hierarchy.keys == ["unknown_chapter"]
            && s.hierarchy.entries["unknown_chapter"].node == PlaceholderChapter("unknown_chapter", None)
            && s.hierarchy.entries["unknown_chapter"].topics.keys == [t]
            && s.hierarchy.entries["unknown_chapter"].topics.entries[t].node == PlaceholderTopic(t, "unknown_chapter", "Topic " + t, 0)
            && s.hierarchy.entries["unknown_chapter"].topics.entries[t].subtopics.keys == [d.code]
            && !IsSelected(s, "unknown_chapter", Other) && !IsSelected(s, t, Other) && IsSelected(s, d.code, Subtopic)
            && s.stats == Stats(0, 0, 1, d.questionCount.GetOr(0))
  {
    var t := d.parentCode.value;
    UnknownChapterOfPlainCode(t);
    var sub := SelectionNode(d).(parentCode := Some(t));
    var chapter := PlaceholderChapter("unknown_chapter", None);
    var topic := PlaceholderTopic(t, "unknown_chapter", "Topic " + t, 0);
    AddSubtopicForm(Initial(), d, None, t, "unknown_chapter", sub);
    var h := PlaceSubtopic(Initial().hierarchy, t, sub, "unknown_chapter", chapter, topic);
    PlacedInEmpty(t, sub, "unknown_chapter", chapter, topic);
    RecordedInEmpty(h, sub);
  }

  /** Recording a subtopic in an otherwise empty store selects it alone and counts it and its questions. */
  lemma RecordedInEmpty(h: Hierarchy, sub: Node)
    ensures var s := RecordSubtopic(Initial().(hierarchy := h), sub);
            && s.hierarchy == h && s.chapterMap == map[] && s.topicMap == map[] && s.subtopicMap.Keys == {sub.code}
            && s.stats == Stats(0, 0, 1, sub.questionCount)
  {
  }

  /** In an empty store, a topic code with no `_` falls back to the chapter "unknown_chapter". */
  lemma UnknownChapterOfPlainCode(t: string)
    requires '_' !in t
    ensures TopicChapter(Initial().hierarchy, t).None?
    ensures ChapterOrUnknown(ParentChapterCode(Initial().hierarchy, t)) == "unknown_chapter"
  {
    assert TopicChapter(Initial().hierarchy, t).None?;
  }

  /** Into an empty hierarchy, a subtopic goes under a new `topic` inside a new `chapter`, each alone at its level. */
  lemma PlacedInEmpty(t: string, sub: Node, c: string, chapter: Node, topic: Node)
    requires topic.code == t
    ensures var r := PlaceSubtopic(Empty(), t, sub, c, chapter, topic);
            && r.keys == [c] && c in r.entries && r.entries[c].node == chapter
            && r.entries[c].topics.keys == [t] && t in r.entries[c].topics.entries
            && r.entries[c].topics.entries[t].node == topic
            && r.entries[c].topics.entries[t].subtopics.keys == [sub.code]
  {
    var h0: Hierarchy := Empty();
    assert TopicChapter(h0, t).None?;
    var h1 := HostTopic(h0, c, chapter, topic);
    assert h1.keys == [c] && h1.entries[c].topics.keys == [t];
    assert h1.entries[c].topics.entries[t].subtopics == Empty();
  }

  /**
   * Selecting a chapter again replaces its hierarchy entry with an empty one: its topics stay selected in
   * the topic map but can no longer be found, so removing them changes nothing.
   */
  lemma ReselectedChapterOrphansTopics()
    ensures var ch := Selection(Chapter, "c1", "Chapter one", Some(10), None, None);
            var s1 := AddSelection(Initial(), ch, None);
            var s2 := AddSelection(s1, Selection(Topic, "t1", "Topic one", Some(4), Some("c1"), None), None);
            var s3 := AddSelection(s2, ch, None);
            && IsSelected(s3, "t1", Topic) && TopicChapter(s3.hierarchy, "t1").None?
            && RemoveSelection(s3, "t1") == s3
            && s3.stats.chapters == 2
  {
    var ch := Selection(Chapter, "c1", "Chapter one", Some(10), None, None);
    var s1 := AddSelection(Initial(), ch, None);
    assert s1.hierarchy.keys == ["c1"];
    var td := Selection(Topic, "t1", "Topic one", Some(4), Some("c1"), None);
    var s2 := AddSelection(s1, td, None);
    assert s2 == PlaceTopic(s1, SelectionNode(td), Some("c1"), PlaceholderChapter("c1", None));
    assert s2.hierarchy.keys == ["c1"];
    var s3 := AddSelection(s2, ch, None);
    assert s3 == AddChapter(s2, SelectionNode(ch));
    assert s3.hierarchy.keys == ["c1"] && s3.hierarchy.entries.Keys == {"c1"};
    assert s3.hierarchy.entries["c1"].topics.keys == [];
    TopiclessSearches(s3.hierarchy, "t1");
  }

  // ---------------------------------------------------------------------------------------------
  // Questions

  /**
   * Moving the question for `id` out of `from` and into `to`: every question with that id leaves `from`;
   * the first of them is appended to `to` only when `to` has none with that id; an id that `from` lacks
   * moves nothing.  Neither list gains a duplicate id.
   */
  lemma MoveQuestionEffect(from: seq<Question>, to: seq<Question>, id: string)
    ensures var (f, t) := MoveQuestion(from, to, id);
            && !HasId(f, id)
            && (forall x :: x in f <==> x in from && x.id != id)
            && (HasId(from, id) && HasId(to, id) ==> t == to)
            && (HasId(from, id) && !HasId(to, id) ==> t == to + [FindQuestion(from, id).value])
            && (!HasId(from, id) ==> f == from && t == to)
            && (UniqueIds(from) ==> UniqueIds(f))
            && (UniqueIds(to) ==> UniqueIds(t))
  {
    if HasId(from, id) {
      if UniqueIds(from) {
        WithoutIdUnique(from, id);
      }
      if !HasId(to, id) && UniqueIds(to) {
        AppendFreshUnique(to, FindQuestion(from, id).value);
      }
    }
  }

  /** A question whose id a list lacks can be appended without making an id repeat. */
  lemma AppendFreshUnique(qs: seq<Question>, q: Question)
    requires UniqueIds(qs) && !HasId(qs, q.id)
    ensures UniqueIds(qs + [q])
  {
    var r := qs + [q];
    forall i, j | 0 <= i < j < |r| ensures r[i].id != r[j].id {
      if j == |qs| {
        assert r[i] == qs[i];
      } else {
        assert r[i] == qs[i] && r[j] == qs[j];
      }
    }
  }

  /**
   * After `removeQuestion` the id is no longer active and every other active question stays; an active
   * question goes to the removed list once, and not again when its id is already there; an unknown id
   * changes nothing; neither list gains a duplicate id.
   */
  lemma RemoveQuestionEffect(s: Snapshot, id: string)
    ensures var r := RemoveQuestion(s, id);
            && !HasId(r.questions, id)
            && (forall x :: x in r.questions <==> x in s.questions && x.id != id)
            && (HasId(s.questions, id) && HasId(s.removedQuestions, id) ==> r.removedQuestions == s.removedQuestions)
            && (HasId(s.questions, id) && !HasId(s.removedQuestions, id) ==>
                  r.removedQuestions == s.removedQuestions + [FindQuestion(s.questions, id).value])
            && (!HasId(s.questions, id) ==> r == s)
            && (UniqueIds(s.questions) ==> UniqueIds(r.questions))
            && (UniqueIds(s.removedQuestions) ==> UniqueIds(r.removedQuestions))
  {
    MoveQuestionEffect(s.questions, s.removedQuestions, id);
  }

  /** `restoreQuestion`, the mirror image: out of the removed list, into the active list at most once */
  lemma RestoreQuestionEffect(s: Snapshot, id: string)
    ensures var r := RestoreQuestion(s, id);
            && !HasId(r.removedQuestions, id)
            && (forall x :: x in r.removedQuestions <==> x in s.removedQuestions && x.id != id)
            && (HasId(s.removedQuestions, id) && HasId(s.questions, id) ==> r.questions == s.questions)
            && (HasId(s.removedQuestions, id) && !HasId(s.questions, id) ==>
                  r.questions == s.questions + [FindQuestion(s.removedQuestions, id).value])
            && (!HasId(s.removedQuestions, id) ==> r == s)
            && (UniqueIds(s.questions) ==> UniqueIds(r.questions))
            && (UniqueIds(s.removedQuestions) ==> UniqueIds(r.removedQuestions))
  {
    MoveQuestionEffect(s.removedQuestions, s.questions, id);
  }

  lemma TailHasId(qs: seq<Question>, id: string)
    requires |qs| > 0
    ensures HasId(qs[1..], id) ==> HasId(qs, id)
  {
    if HasId(qs[1..], id) { var i :| 0 <= i < |qs[1..]| && qs[1..][i].id == id; assert qs[i + 1].id == id; }
  }

  lemma FindAppended(qs: seq<Question>, q: Question)
    requires !HasId(qs, q.id)
    ensures FindQuestion(qs + [q], q.id) == Some(q)
  {
    if qs == [] {
    } else {
      assert (qs + [q])[1..] == qs[1..] + [q];
      TailHasId(qs, q.id);
      FindAppended(qs[1..], q);
    }
  }

  /** `filter` distributes over concatenation. */
  lemma {:induction false} WithoutIdAppend(a: seq<Question>, b: seq<Question>, id: string)
    ensures WithoutId(a + b, id) == WithoutId(a, id) + WithoutId(b, id)
  {
    if a == [] {
      assert a + b == b;
    } else {
      var ab := a + b;
      assert ab[0] == a[0] && ab[1..] == a[1..] + b;
      WithoutIdAppend(a[1..], b, id);
      var head := if a[0].id == id then [] else [a[0]];
      assert WithoutId(ab, id) == head + (WithoutId(a[1..], id) + WithoutId(b, id));
      assert WithoutId(a, id) == head + WithoutId(a[1..], id);
      Regroup(head, WithoutId(a[1..], id), WithoutId(b, id));
    }
  }

  lemma Regroup(x: seq<Question>, y: seq<Question>, z: seq<Question>)
    ensures x + (y + z) == (x + y) + z
  {
  }

  lemma WithoutAppendedId(qs: seq<Question>, q: Question)
    requires !HasId(qs, q.id)
    ensures WithoutId(qs + [q], q.id) == qs
  {
    WithoutIdAppend(qs, [q], q.id);
    assert WithoutId([q], q.id) == [] by { assert [q][0].id == q.id && [q][1..] == []; }
  }

  lemma UniqueTail(qs: seq<Question>)
    requires |qs| > 0 && UniqueIds(qs)
    ensures UniqueIds(qs[1..])
  {
    forall i, j | 0 <= i < j < |qs[1..]| ensures qs[1..][i].id != qs[1..][j].id {
      assert qs[1..][i] == qs[i + 1] && qs[1..][j] == qs[j + 1];
    }
  }

  /** With unique ids, a question matching at the head is the only one. */
  lemma WithoutHeadId(qs: seq<Question>, id: string)
    requires |qs| > 0 && UniqueIds(qs) && qs[0].id == id
    ensures WithoutId(qs, id) == qs[1..] && FindQuestion(qs, id) == Some(qs[0])
  {
    forall i | 0 <= i < |qs[1..]| ensures qs[1..][i].id != id {
      assert qs[1..][i] == qs[i + 1];
    }
  }

  /** A question matching after the head: the head stays, and the search and the filter go on in the tail. */
  lemma WithoutLaterId(qs: seq<Question>, id: string)
    requires |qs| > 0 && qs[0].id != id && HasId(qs, id)
    ensures HasId(qs[1..], id)
    ensures multiset(WithoutId(qs, id)) == multiset{qs[0]} + multiset(WithoutId(qs[1..], id))
    ensures FindQuestion(qs, id) == FindQuestion(qs[1..], id)
  {
    var i :| 0 <= i < |qs| && qs[i].id == id;
    assert qs[1..][i - 1].id == id;
    assert WithoutId(qs, id) == [qs[0]] + WithoutId(qs[1..], id);
  }

  /** With unique ids, filtering out the id takes exactly the one question found for it. */
  lemma {:induction false} WithoutIdTakesOne(qs: seq<Question>, id: string)
    requires UniqueIds(qs) && HasId(qs, id)
    ensures multiset(WithoutId(qs, id)) + multiset{FindQuestion(qs, id).value} == multiset(qs)
  {
    if qs[0].id == id {
      WithoutHeadId(qs, id);
      HeadAndTail(qs);
    } else {
      WithoutLaterId(qs, id);
      UniqueTail(qs);
      WithoutIdTakesOne(qs[1..], id);
      HeadAndTail(qs);
    }
  }

  lemma HeadAndTail(qs: seq<Question>)
    requires qs != []
    ensures multiset(qs) == multiset{qs[0]} + multiset(qs[1..])
  {
    assert qs == [qs[0]] + qs[1..];
  }

  /**
   * Removing an active question and restoring it gives back the same questions, the restored one now
   * last, and leaves the removed list as it was.
   */
  lemma RemoveThenRestore(s: Snapshot, id: string)
    requires UniqueIds(s.questions) && HasId(s.questions, id) && !HasId(s.removedQuestions, id)
    ensures var r := RestoreQuestion(RemoveQuestion(s, id), id);
            && r.removedQuestions == s.removedQuestions
            && r.questions == WithoutId(s.questions, id) + [FindQuestion(s.questions, id).value]
            && multiset(r.questions) == multiset(s.questions)
  {
    var q := FindQuestion(s.questions, id).value;
    var s1 := RemoveQuestion(s, id);
    assert s1.questions == WithoutId(s.questions, id) && s1.removedQuestions == s.removedQuestions + [q];
    FindAppended(s.removedQuestions, q);
    WithoutAppendedId(s.removedQuestions, q);
    WithoutIdTakesOne(s.questions, id);
  }

  /** `restoreAllQuestions` empties the removed list, keeps the active list as a prefix, and every removed id is active after. */
  lemma RestoreAllEffect(s: Snapshot)
    ensures var r := RestoreAllQuestions(s);
            && r.removedQuestions == []
            && s.questions <= r.questions
            && (forall q :: q in s.removedQuestions ==> HasId(r.questions, q.id))
            && (UniqueIds(s.questions) ==> UniqueIds(r.questions))
  {
    var r := RestoreAllQuestions(s);
    forall q | q in s.removedQuestions ensures HasId(r.questions, q.id) {
      var i :| 0 <= i < |s.removedQuestions| && s.removedQuestions[i] == q;
    }
  }

  /** `updateQuestion` changes at most the first question with the id, and keeps the list's length. */
  lemma UpdateQuestionTouchesFirstMatch(s: Snapshot, id: string, p: QuestionPatch)
    ensures var r := UpdateQuestion(s, id, p);
            && |r.questions| == |s.questions|
            && (forall i :: 0 <= i < |s.questions| && r.questions[i] != s.questions[i] ==>
                  s.questions[i].id == id && r.questions[i] == Merge(s.questions[i], p)
                  && forall k :: 0 <= k < i ==> s.questions[k].id != id)
            && (!HasId(s.questions, id) ==> r == s)
  {
  }
}
