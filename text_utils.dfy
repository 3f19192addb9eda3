/**
 * Text clean-up for question content coming from spreadsheets and rich-text editors: entity and
 * escape sequences are replaced by the characters they stand for, then zero-width spaces are
 * dropped, white space is collapsed and the ends are trimmed.  `cleanQuestionText` applies this to
 * the text fields of a question object.
 */
module TextUtils {
  import opened JsText
  import opened JsValue

  /**
   * The entity table in the order its entries are applied: the ASCII entries (spreadsheet escapes
   * and HTML named and numeric entities).  Keys are matched case-insensitively.
   */
  const EntityTable: seq<(string, string)> := [
    ("_x000D_", ""),
    ("_x000A_", "\n"),
    ("_x0009_", "\t"),
    ("_x0020_", " "),
    ("&nbsp;", " "),
    ("&amp;", "&"),
    ("&lt;", "<"),
    ("&gt;", ">"),
    ("&quot;", "\""),
    ("&#39;", "'"),
    ("&apos;", "'"),
    ("&#x27;", "'"),
    ("&#x2019;", "'"),
    ("&#x201C;", "\""),
    ("&#x201D;", "\""),
    ("&hellip;", "..."),
    ("&mdash;", "—"),
    ("&ndash;", "–"),
    ("&rsquo;", "'"),
    ("&lsquo;", "'"),
    ("&rdquo;", "\""),
    ("&ldquo;", "\"")
  ]

  const ZeroWidthSpace: char := '\U{200B}'

  // ---------------------------------------------------------------------------------------------
  // The clean-up chain

  /** `replace(/​/g, '')` */
  function DropZeroWidth(s: string): (r: string)
    ensures ZeroWidthSpace !in r
  {
    ZeroWidthGone(s);
    ReplaceAll(s, [ZeroWidthSpace], "", false)
  }

  lemma {:induction false} ZeroWidthGone(s: string)
    ensures ZeroWidthSpace !in ReplaceAll(s, [ZeroWidthSpace], "", false)
    decreases |s|
  {
    if |s| >= 1 {
      if MatchesAt(s, [ZeroWidthSpace], false) {
        ZeroWidthGone(s[1..]);
      } else {
        assert s[0] != ZeroWidthSpace;
        ZeroWidthGone(s[1..]);
      }
    }
  }

  /** The characters of `s` that are not white space, in order */
  function NonSpace(s: string): string {
    if s == [] then []
    else if IsSpace(s[0]) then NonSpace(s[1..])
    else [s[0]] + NonSpace(s[1..])
  }

  lemma {:induction false} NonSpaceOfSpaces(s: string)
    requires AllSpace(s)
    ensures NonSpace(s) == []
  {
    if s != [] {
      NonSpaceOfSpaces(s[1..]);
    }
  }

  lemma {:induction false} NonSpaceAppend(a: string, b: string)
    ensures NonSpace(a + b) == NonSpace(a) + NonSpace(b)
  {
    if a == [] {
      assert a + b == b;
    } else {
      assert (a + b)[1..] == a[1..] + b;
      NonSpaceAppend(a[1..], b);
    }
  }

  /** No two white-space characters stand next to each other in `s`. */
  predicate SingleSpaced(s: string) {
    forall k :: 0 <= k < |s| - 1 ==> !(IsSpace(s[k]) && IsSpace(s[k + 1]))
  }

  /** Every white-space character of `s` is a plain space. */
  predicate PlainSpaces(s: string) {
    forall k :: 0 <= k < |s| && IsSpace(s[k]) ==> s[k] == ' '
  }

  /** `replace(/\s+/g, ' ')`: every maximal run of white space becomes one space */
  function CollapseSpaces(s: string): (r: string)
    ensures PlainSpaces(r)
    ensures SingleSpaced(r)
    ensures s == [] <==> r == []
    ensures s != [] ==> (IsSpace(r[0]) <==> IsSpace(s[0]))
    decreases |s|
  {
    if s == [] then []
    else if IsSpace(s[0]) then
      var t := TrimStart(s);
      " " + CollapseSpaces(t)
    else
      [s[0]] + CollapseSpaces(s[1..])
  }

  /** Collapsing keeps every character that is not white space, in order. */
  lemma {:induction false} CollapseKeepsText(s: string)
    ensures NonSpace(CollapseSpaces(s)) == NonSpace(s)
    decreases |s|
  {
    if s != [] {
      if IsSpace(s[0]) {
        var t := TrimStart(s);
        CollapseKeepsText(t);
        assert s == s[..|s| - |t|] + t;
        NonSpaceAppend(s[..|s| - |t|], t);
        NonSpaceOfSpaces(s[..|s| - |t|]);
        assert NonSpace(" " + CollapseSpaces(t)) == NonSpace(CollapseSpaces(t));
      } else {
        CollapseKeepsText(s[1..]);
      }
    }
  }

  /** `replace(/\n\s+/g, '\n')`: a line break followed by white space keeps only the line break */
  function CleanBreaks(s: string): string
    decreases |s|
  {
    if s == [] then []
    else if s[0] == '\n' && |s| >= 2 && IsSpace(s[1]) then
      var t := TrimStart(s[1..]);
      "\n" + CleanBreaks(t)
    else
      [s[0]] + CleanBreaks(s[1..])
  }

  /** Text without a line break has nothing for the line-break step to do. */
  lemma {:induction false} CleanBreaksIdle(s: string)
    requires '\n' !in s
    ensures CleanBreaks(s) == s
  {
    if s != [] {
      CleanBreaksIdle(s[1..]);
    }
  }

  /** The clean-up chain after the entity table */
  function Cleanup(s: string): string {
    Trim(CleanBreaks(CollapseSpaces(DropZeroWidth(s))))
  }

  /** After collapsing, every white-space character is a plain space, so no line break is left. */
  lemma CollapsedHasNoBreak(s: string)
    ensures '\n' !in CollapseSpaces(s)
  {
  }

  /** Collapsing brings in no character that is not white space. */
  lemma CollapsedKeepsOut(s: string, x: char)
    requires x !in s && !IsSpace(x)
    ensures x !in CollapseSpaces(s)
  {
    var c := CollapseSpaces(s);
    if x in c {
      var k :| 0 <= k < |c| && c[k] == x;
      CollapseKeepsText(s);
      NonSpaceHas(c, k);
      NonSpaceOnlyFrom(s, x);
    }
  }

  /** A slice of text with no two white-space characters in a row has none either. */
  lemma SliceKeepsSingleSpaces(c: string, i: nat, r: string)
    requires i + |r| <= |c| && r == c[i..i + |r|]
    requires SingleSpaced(c)
    ensures SingleSpaced(r)
  {
    forall k | 0 <= k < |r| - 1
      ensures !(IsSpace(r[k]) && IsSpace(r[k + 1]))
    {
      assert r[k] == c[i + k] && r[k + 1] == c[i + k + 1];
    }
  }

  /** A slice of text whose white space is all plain spaces, and which lacks `x`, has the same two properties. */
  lemma SliceKeepsChars(c: string, i: nat, r: string, x: char, y: char)
    requires i + |r| <= |c| && r == c[i..i + |r|]
    requires PlainSpaces(c)
    requires x !in c && y !in c
    ensures PlainSpaces(r)
    ensures x !in r && y !in r
  {
    assert forall k :: 0 <= k < |r| ==> r[k] == c[i + k];
  }

  /** Properties of `c` that hold of every slice of it hold of its trimmed text. */
  lemma TrimKeepsShape(c: string)
    requires SingleSpaced(c)
    requires PlainSpaces(c)
    requires '\n' !in c && ZeroWidthSpace !in c
    ensures var r := Trim(c);
      && SingleSpaced(r)
      && PlainSpaces(r)
      && '\n' !in r && ZeroWidthSpace !in r
  {
    var r := Trim(c);
    var i := TrimIsSlice(c);
    SliceKeepsSingleSpaces(c, i, r);
    SliceKeepsChars(c, i, r, '\n', ZeroWidthSpace);
  }

  /**
   * Cleaned text has no white space at either end, no two white-space characters in a row, no white
   * space other than plain spaces (so no line break or tab), and no zero-width space.
   */
  lemma CleanupShape(s: string)
    ensures var r := Cleanup(s);
      && (r == [] || (!IsSpace(r[0]) && !IsSpace(r[|r| - 1])))
      && SingleSpaced(r)
      && PlainSpaces(r)
      && '\n' !in r && ZeroWidthSpace !in r
  {
    var d := DropZeroWidth(s);
    var c := CollapseSpaces(d);
    CollapsedHasNoBreak(d);
    CleanBreaksIdle(c);
    CollapsedKeepsOut(d, ZeroWidthSpace);
    TrimKeepsShape(c);
  }

  /** A non-space character of `s` is a character of `NonSpace(s)`. */
  lemma {:induction false} NonSpaceHas(s: string, k: nat)
    requires k < |s| && !IsSpace(s[k])
    ensures s[k] in NonSpace(s)
  {
    if k > 0 {
      NonSpaceHas(s[1..], k - 1);
    }
  }

  /** Every character of `NonSpace(s)` comes from `s`. */
  lemma {:induction false} NonSpaceOnlyFrom(s: string, c: char)
    requires c !in s
    ensures c !in NonSpace(s)
  {
    if s != [] {
      NonSpaceOnlyFrom(s[1..], c);
    }
  }

  // ---------------------------------------------------------------------------------------------
  // decodeHTMLEntities and cleanQuestionText

  /** What `decodeHTMLEntities(text)` returns on the server (where there is no DOM) */
  function Decoded(text: Json): (r: Json)
    ensures !IsTruthy(text) || !text.JStr? ==> r == text
    ensures IsTruthy(text) && text.JStr? ==> r.JStr?
  {
    if !IsTruthy(text) || !text.JStr? then text
    else JStr(DecodeText(text.s))
  }

  /** The decoding of a string: the entity table, then the clean-up chain */
  function DecodeText(s: string): string {
    Cleanup(ReplaceInTurn(EntityTable, s, true))
  }

  /** `decodeHTMLEntities(text)`: the entity table is applied entry by entry, then the clean-up chain */
  method DecodeHTMLEntities(text: Json) returns (r: Json)
    ensures r == Decoded(text)
  {
    if !IsTruthy(text) || !text.JStr? {
      return text;
    }
    var decoded := text.s;
    var i := 0;
    while i < |EntityTable|
      invariant 0 <= i <= |EntityTable|
      invariant decoded == ReplaceInTurn(EntityTable[..i], text.s, true)
    {
      var entry := EntityTable[i];
      assert EntityTable[..i + 1][..i] == EntityTable[..i];
      decoded := ReplaceAll(decoded, entry.0, entry.1, true);
      i := i + 1;
    }
    assert EntityTable[..i] == EntityTable;
    r := JStr(Cleanup(decoded));
    assert r == JStr(DecodeText(text.s));
  }

  /** A decoded string is trimmed, has single spaces only, and carries no line break or zero-width space. */
  lemma DecodedShape(text: Json)
    requires IsTruthy(text) && text.JStr?
    ensures var r := Decoded(text).s;
      && (r == [] || (!IsSpace(r[0]) && !IsSpace(r[|r| - 1])))
      && SingleSpaced(r)
      && '\n' !in r && ZeroWidthSpace !in r
  {
    CleanupShape(ReplaceInTurn(EntityTable, text.s, true));
  }

  /** The spreadsheet escapes all start with '_', and every other entry starts with '&'. */
  lemma TableStarts()
    ensures NonEmptyPatterns(EntityTable)
    ensures forall k :: 0 <= k < 4 ==> EntityTable[k].0[0] == '_'
    ensures forall k :: 4 <= k < |EntityTable| ==> EntityTable[k].0[0] == '&'
  {
  }

  lemma NbspStep(s: string)
    requires s == "&amp;lt;"
    ensures ReplaceAll(s, "&nbsp;", " ", true) == s
  {
    assert !SameChar(s[1], "&nbsp;"[1], true);
    assert !MatchesAt(s, "&nbsp;", true);
    assert forall i :: 0 <= i < |s[1..]| ==> !SameChar(s[1..][i], "&nbsp;"[0], true);
    ReplaceAllAbsent(s[1..], "&nbsp;", " ", true);
    assert s == [s[0]] + s[1..];
  }

  lemma AmpStep(s: string)
    requires s == "&amp;lt;"
    ensures ReplaceAll(s, "&amp;", "&", true) == "&lt;"
  {
    assert MatchesAt(s, "&amp;", true);
    assert s[5..] == "lt;";
    assert ReplaceAll(s[5..], "&amp;", "&", true) == s[5..];
  }

  lemma LtStep(b: string)
    requires b == "&lt;"
    ensures ReplaceAll(b, "&lt;", "<", true) == "<"
  {
    assert MatchesAt(b, "&lt;", true);
    assert b[4..] == [];
  }

  /** The first entries' output feeds the later ones: "&amp;lt;" goes to "&lt;" and then to "<". */
  lemma EntitiesChain(s: string)
    requires s == "&amp;lt;"
    ensures ReplaceInTurn(EntityTable, s, true) == "<"
  {
    TableStarts();
    var t0, mid, t1 := EntityTable[..4], EntityTable[4..7], EntityTable[7..];
    assert EntityTable == t0 + mid + t1;
    ReplaceInTurnAppend(t0, mid, s, true);
    ReplaceInTurnAppend(t0 + mid, t1, s, true);
    assert forall k, i :: 0 <= k < |t0| && 0 <= i < |s| ==> !SameChar(s[i], t0[k].0[0], true);
    ReplaceInTurnAbsent(t0, s, true);
    MidSteps(mid, s);
    var c := "<";
    assert forall k, i :: 0 <= k < |t1| && 0 <= i < |c| ==> !SameChar(c[i], t1[k].0[0], true);
    ReplaceInTurnAbsent(t1, c, true);
  }

  lemma MidSteps(mid: seq<(string, string)>, s: string)
    requires mid == [("&nbsp;", " "), ("&amp;", "&"), ("&lt;", "<")] && s == "&amp;lt;"
    ensures ReplaceInTurn(mid, s, true) == "<"
  {
    NbspStep(s);
    AmpStep(s);
    LtStep("&lt;");
    assert mid[..1][..0] == [];
    assert ReplaceInTurn(mid[..1], s, true) == s;
    assert mid[..2][..1] == mid[..1];
    assert ReplaceInTurn(mid[..2], s, true) == "&lt;";
    assert mid[..|mid| - 1] == mid[..2];
  }

  /** A single character that is neither white space nor a zero-width space comes through the clean-up chain unchanged. */
  lemma CleanupOneChar(x: char)
    requires !IsSpace(x) && x != ZeroWidthSpace
    ensures Cleanup([x]) == [x]
  {
    var c := [x];
    ReplaceAllAbsent(c, [ZeroWidthSpace], "", false);
    assert CollapseSpaces(c) == [x] + CollapseSpaces([]);
    assert CleanBreaks(c) == [x] + CleanBreaks([]);
    assert TrimStart(c) == c && TrimEnd(c) == c;
  }

  /** Decoded, "&amp;lt;" is "<". */
  lemma DecodeChain(s: string)
    requires s == "&amp;lt;"
    ensures DecodeText(s) == "<"
  {
    EntitiesChain(s);
    CleanupOneChar('<');
  }

  /** The fields of a question that are decoded */
  const TextFields: seq<string> := ["text", "question_text", "description", "grp_type_name", "name"]

  /** `{ ...array }`: an array spread into an object has its indices as keys */
  function SpreadArray(items: seq<Json>): (r: map<string, Json>)
    ensures forall k :: 0 <= k < |items| ==> NatToString(k) in r && r[NatToString(k)] == items[k]
  {
    if items == [] then map[]
    else
      var n := |items| - 1;
      var r := SpreadArray(items[..n])[NatToString(n) := items[n]];
      assert forall k :: 0 <= k < n ==> NatToString(k) != NatToString(n) by {
        forall k | 0 <= k < n
          ensures NatToString(k) != NatToString(n)
        {
          NatToStringValue(k);
          NatToStringValue(n);
        }
      }
      r
  }

  /** The copy `{ ...question }` */
  function Spread(question: Json): map<string, Json>
    requires question.JObj? || question.JArr?
  {
    if question.JObj? then question.fields else SpreadArray(question.items)
  }

  /** The copy after the text fields in `fields` have been decoded one by one */
  function CleanFields(copy: map<string, Json>, fields: seq<string>): (r: map<string, Json>)
    ensures r.Keys == copy.Keys
    ensures forall key :: key in copy && key !in fields ==> r[key] == copy[key]
  {
    if fields == [] then copy
    else
      CleanField(CleanFields(copy, fields[..|fields| - 1]), fields[|fields| - 1])
  }

  /** One step of `cleanQuestionText`: a truthy field `f` of `m` is decoded, anything else is left as it is */
  function CleanField(m: map<string, Json>, f: string): (r: map<string, Json>)
    ensures r.Keys == m.Keys
    ensures forall key :: key in m && key != f ==> r[key] == m[key]
    ensures f in m ==> r[f] == if IsTruthy(m[f]) then Decoded(m[f]) else m[f]
  {
    if f in m && IsTruthy(m[f]) then m[f := Decoded(m[f])] else m
  }

  /**
   * `cleanQuestionText(question)` as a value: a falsy value or one that is not an object is
   * returned as it is; an object keeps its keys and every field that is not a text field.
   */
  function CleanedQuestion(question: Json): (r: Json)
    ensures !IsTruthy(question) || !(question.JObj? || question.JArr?) ==> r == question
    ensures question.JObj? ==> r.JObj? && r.fields.Keys == question.fields.Keys
    ensures question.JObj? ==> forall key :: key in question.fields && key !in TextFields ==>
              r.fields[key] == question.fields[key]
  {
    if !IsTruthy(question) || !(question.JObj? || question.JArr?) then question
    else JObj(CleanFields(Spread(question), TextFields))
  }

  /** The `forEach` of `cleanQuestionText`: each listed field of the copy that is truthy is decoded in place */
  method DecodeFields(copy: map<string, Json>, fields: seq<string>) returns (cleaned: map<string, Json>)
    ensures cleaned == CleanFields(copy, fields)
  {
    cleaned := copy;
    var i := 0;
    while i < |fields|
      invariant 0 <= i <= |fields|
      invariant cleaned == CleanFields(copy, fields[..i])
    {
      var field := fields[i];
      assert fields[..i + 1][..i] == fields[..i];
      ghost var next := CleanField(cleaned, field);
      if field in cleaned && IsTruthy(cleaned[field]) {
        var d := DecodeHTMLEntities(cleaned[field]);
        cleaned := cleaned[field := d];
      }
      assert cleaned == next;
      i := i + 1;
    }
    assert fields[..i] == fields;
  }

  /** `cleanQuestionText(question)`: the copy is decoded field by field in the order of `TextFields` */
  method CleanQuestionText(question: Json) returns (r: Json)
    ensures r == CleanedQuestion(question)
  {
    if !IsTruthy(question) || !(question.JObj? || question.JArr?) {
      return question;
    }
    var copy := Spread(question);
    var cleaned := DecodeFields(copy, TextFields);
    r := JObj(cleaned);
  }

  /** Each text field is decoded exactly when it is truthy; decoding never touches a falsy value. */
  lemma CleanedTextField(question: Json, key: string)
    requires question.JObj? && key in question.fields && key in TextFields
    ensures CleanedQuestion(question).fields[key] ==
              (if IsTruthy(question.fields[key]) then Decoded(question.fields[key]) else question.fields[key])
  {
    CleanFieldsAt(question.fields, TextFields, key);
  }

  /** No field name occurs twice in `fields`. */
  predicate Distinct(fields: seq<string>) {
    forall i, j :: 0 <= i < j < |fields| ==> fields[i] != fields[j]
  }

  lemma {:induction false} CleanFieldsAt(copy: map<string, Json>, fields: seq<string>, key: string)
    requires key in copy && key in fields && Distinct(fields)
    ensures CleanFields(copy, fields)[key] == (if IsTruthy(copy[key]) then Decoded(copy[key]) else copy[key])
  {
    var n := |fields| - 1;
    var init := fields[..n];
    var before := CleanFields(copy, init);
    if fields[n] == key {
      forall i | 0 <= i < n ensures init[i] != key {
        assert init[i] == fields[i];
      }
      assert before[key] == copy[key];
    } else {
      forall i, j | 0 <= i < j < n ensures init[i] != init[j] {
        assert init[i] == fields[i] && init[j] == fields[j];
      }
      assert key in init;
      CleanFieldsAt(copy, init, key);
    }
  }
}
