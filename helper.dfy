/**
 * The pure helpers of the user interface: shaping a freshly submitted question and a question-paper
 * preview, the request headers, the HTTP error messages, the sidebar's route rules and the route
 * normalisation the access hook relies on.
 */
module Helper {
  import opened Wrappers
  import opened JsText
  import opened JsValue

  // ---------------------------------------------------------------------------------------------
  // Questions

  /** The five optional media references of a question */
  datatype Media = Media(
    questionText: Option<string>,
    option1: Option<string>,
    option2: Option<string>,
    option3: Option<string>,
    option4: Option<string>)

  const NoMedia := Media(None, None, None, None, None)

  /** An answer option as the question views use it */
  datatype QuestionOption = QuestionOption(id: string, text: string, isCorrect: bool)

  /** The form payload of a submitted question; missing and `null` fields are `None` */
  datatype Submission = Submission(
    option1: Option<string>,
    option2: Option<string>,
    option3: Option<string>,
    option4: Option<string>,
    questionText: Option<string>,
    correctAnswer: Option<string>)

  /** The server's answer to a submission; `question` holds the stored media, when there is one */
  datatype SubmissionResult = SubmissionResult(
    questionCode: Option<string>,
    examCode: Option<string>,
    paperCode: Option<string>,
    question: Option<Media>)

  datatype BuiltQuestion = BuiltQuestion(
    id: Option<string>,
    qCode: Option<string>,
    text: string,
    options: seq<QuestionOption>,
    correctAnswer: Option<string>,
    designCode: Option<string>,
    paperCode: Option<string>,
    media: Media)

  /** Some media reference is truthy, which makes the question image based */
  predicate ImageBased(m: Media) {
    Truthy(m.questionText) || Truthy(m.option1) || Truthy(m.option2) || Truthy(m.option3) || Truthy(m.option4)
  }

  function KeepIfTruthy(v: Option<string>): (r: Option<string>)
    ensures r.Some? <==> Truthy(v)
    ensures r.Some? ==> r == v
  {
    if Truthy(v) then v else None
  }

  /** The media fields an image-based question copies: each, only when it is truthy */
  function CopiedMedia(m: Media): (r: Media)
    ensures !ImageBased(m) ==> r == NoMedia
    ensures r.questionText == KeepIfTruthy(m.questionText) && r.option1 == KeepIfTruthy(m.option1)
    ensures r.option2 == KeepIfTruthy(m.option2) && r.option3 == KeepIfTruthy(m.option3)
    ensures r.option4 == KeepIfTruthy(m.option4)
  {
    if ImageBased(m) then
      Media(KeepIfTruthy(m.questionText), KeepIfTruthy(m.option1), KeepIfTruthy(m.option2),
            KeepIfTruthy(m.option3), KeepIfTruthy(m.option4))
    else NoMedia
  }

  const OptionIds: seq<string> := ["A", "B", "C", "D"]

  function OptionText(p: Submission, k: int): Option<string> {
    if k == 0 then p.option1 else if k == 1 then p.option2 else if k == 2 then p.option3 else p.option4
  }

  /** The four options of a submission: A to D, missing text as "", correct exactly when named by the payload */
  function SubmissionOptions(p: Submission): (r: seq<QuestionOption>)
    ensures |r| == 4
    ensures forall k :: 0 <= k < 4 ==> r[k].id == OptionIds[k] && r[k].text == OptionText(p, k).GetOr("")
    ensures forall k :: 0 <= k < 4 ==> (r[k].isCorrect <==> p.correctAnswer == Some(OptionIds[k]))
  {
    seq(4, k requires 0 <= k < 4 => QuestionOption(OptionIds[k], OptionText(p, k).GetOr(""), p.correctAnswer == Some(OptionIds[k])))
  }

  /** At most one submitted option is correct, and none is when the answer names no option. */
  lemma AtMostOneCorrect(p: Submission)
    ensures forall i, j :: 0 <= i < j < 4 ==> !(SubmissionOptions(p)[i].isCorrect && SubmissionOptions(p)[j].isCorrect)
    ensures p.correctAnswer !in {Some("A"), Some("B"), Some("C"), Some("D")} ==>
              forall k :: 0 <= k < 4 ==> !SubmissionOptions(p)[k].isCorrect
  {
    var r := SubmissionOptions(p);
    assert OptionIds[0] == "A" && OptionIds[1] == "B" && OptionIds[2] == "C" && OptionIds[3] == "D";
    forall i, j | 0 <= i < j < 4
      ensures !(r[i].isCorrect && r[j].isCorrect)
    {
      assert OptionIds[i] != OptionIds[j];
    }
  }

  /** `createQuestionFromSubmission(result, payload)` */
  function QuestionFromSubmission(result: SubmissionResult, payload: Submission): (r: BuiltQuestion)
    ensures r.id == result.questionCode && r.qCode == result.questionCode
    ensures r.text == payload.questionText.GetOr("")
    ensures r.options == SubmissionOptions(payload) && r.correctAnswer == payload.correctAnswer
    ensures r.designCode == result.examCode && r.paperCode == result.paperCode
    ensures result.question.None? ==> r.media == NoMedia
    ensures result.question.Some? ==> r.media == CopiedMedia(result.question.value)
  {
    var media := if result.question.Some? && ImageBased(result.question.value) then CopiedMedia(result.question.value) else NoMedia;
    BuiltQuestion(result.questionCode, result.questionCode, payload.questionText.GetOr(""),
                  SubmissionOptions(payload), payload.correctAnswer, result.examCode, result.paperCode, media)
  }

  /** A copied media field is always truthy: what is falsy in the stored question is absent in the result. */
  lemma SubmittedMediaTruthy(result: SubmissionResult, payload: Submission)
    ensures var m := QuestionFromSubmission(result, payload).media;
            (m.questionText.Some? ==> m.questionText.value != "") && (m.option1.Some? ==> m.option1.value != "") &&
            (m.option2.Some? ==> m.option2.value != "") && (m.option3.Some? ==> m.option3.value != "") &&
            (m.option4.Some? ==> m.option4.value != "")
  {
  }

  // ---------------------------------------------------------------------------------------------
  // getHeaders

  /** `getHeaders(cookies, contentType)`, given the `access_token` cookie: both headers, or none without a token */
  function Headers(token: Option<string>, contentType: string := "application/json"): (r: seq<(string, string)>)
    ensures r == [] <==> !Truthy(token)
    ensures r != [] ==> r == [("Content-Type", contentType), ("Authorization", "Bearer " + token.value)]
  {
    if Truthy(token) then [("Content-Type", contentType), ("Authorization", "Bearer " + token.value)] else []
  }

  // ---------------------------------------------------------------------------------------------
  // buildPreviewData

  datatype PreviewQuestion = PreviewQuestion(id: string, text: string, options: seq<QuestionOption>, media: Media)

  /** The question paper; `qns` is `None` when missing */
  datatype Paper = Paper(qns: Option<seq<PreviewQuestion>>)

  datatype PreviewItem = PreviewItem(
    id: string,
    questionNumber: int,
    text: string,
    options: seq<QuestionOption>,
    correctAnswer: string,
    chapter: string,
    topic: string,
    explanation: string,
    media: Media)

  datatype Preview = Preview(metadata: map<string, Json>, questions: seq<PreviewItem>)

  /** `options.find(opt => opt.is_correct)`, as the id it yields */
  function FirstCorrectId(options: seq<QuestionOption>): (r: Option<string>)
    ensures r.Some? <==> exists k :: 0 <= k < |options| && options[k].isCorrect
    ensures r.Some? ==> exists k :: 0 <= k < |options| && options[k].isCorrect && options[k].id == r.value &&
                          forall j :: 0 <= j < k ==> !options[j].isCorrect
  {
    if options == [] then None
    else if options[0].isCorrect then Some(options[0].id)
    else
      var r := FirstCorrectId(options[1..]);
      assert forall k :: 0 < k < |options| ==> options[k] == options[1..][k - 1];
      r
  }

  /** The exam metadata: every field of `examdata`, with `chapters_topics` falling back to `chapter_topics` */
  function PreviewMetadata(examdata: map<string, Json>): (r: map<string, Json>)
    ensures r.Keys == examdata.Keys + {"chapters_topics"}
    ensures forall k :: k in examdata && k != "chapters_topics" ==> r[k] == examdata[k]
    ensures IsTruthy(Get(examdata, "chapters_topics")) ==> r["chapters_topics"] == examdata["chapters_topics"]
    ensures !IsTruthy(Get(examdata, "chapters_topics")) ==> r["chapters_topics"] == Get(examdata, "chapter_topics")
  {
    var ct := Get(examdata, "chapters_topics");
    examdata["chapters_topics" := if IsTruthy(ct) then ct else Get(examdata, "chapter_topics")]
  }

  function PreviewItemOf(q: PreviewQuestion, idx: int): (r: PreviewItem)
    ensures r.id == q.id && r.text == q.text && r.options == q.options && r.questionNumber == idx + 1
    ensures r.correctAnswer == FirstCorrectId(q.options).GetOr("")
    ensures r.chapter == "" && r.topic == "" && r.explanation == ""
    ensures r.media == CopiedMedia(q.media)
  {
    PreviewItem(q.id, idx + 1, q.text, q.options, FirstCorrectId(q.options).GetOr(""), "", "", "",
                if ImageBased(q.media) then CopiedMedia(q.media) else NoMedia)
  }

  /** `buildPreviewData(qp, examdata)`: one item per question, in order and numbered from 1 */
  function BuildPreviewData(qp: Option<Paper>, examdata: map<string, Json>): (r: Preview)
    ensures r.metadata == PreviewMetadata(examdata)
    ensures qp.None? || qp.value.qns.None? ==> r.questions == []
    ensures qp.Some? && qp.value.qns.Some? ==>
              |r.questions| == |qp.value.qns.value| &&
              forall k :: 0 <= k < |r.questions| ==> r.questions[k] == PreviewItemOf(qp.value.qns.value[k], k)
  {
    var qns := if qp.Some? && qp.value.qns.Some? then qp.value.qns.value else [];
    Preview(PreviewMetadata(examdata), seq(|qns|, k requires 0 <= k < |qns| => PreviewItemOf(qns[k], k)))
  }

  /** A previewed question names as correct answer the first option marked correct, and "" only when none is. */
  lemma PreviewAnswerIsFirstCorrect(q: PreviewQuestion, idx: int)
    requires forall k :: 0 <= k < |q.options| ==> q.options[k].id != ""
    ensures var a := PreviewItemOf(q, idx).correctAnswer;
            (a == "" <==> forall k :: 0 <= k < |q.options| ==> !q.options[k].isCorrect) &&
            (a != "" ==> exists k :: 0 <= k < |q.options| && q.options[k].isCorrect && q.options[k].id == a)
  {
  }

  // ---------------------------------------------------------------------------------------------
  // mapApiError

  /** The message shown for an HTTP status; 404 and 409 name the resource */
  function MapApiError(status: int, resource: string := "resource"): (r: string)
    ensures status == 401 ==> r == "You are not authenticated."
    ensures status == 403 ==> r == "You are not authorized to do this action."
    ensures status == 404 ==> r == "The " + resource + " you are looking for could not be found."
    ensures status == 409 ==> r == "Error-409. The " + resource + " you are trying to create is already present"
    ensures status == 422 ==> r == "Error-422. Unprocessable request"
    ensures status == 500 ==> r == "Error-500. Something went wrong on our end."
    ensures status == 502 ==> r == "Error-502. Received an invalid response from the upstream server."
    ensures status == 504 ==> r == "Error-504. Server is busy. Please try again after some time."
    ensures status !in {401, 403, 404, 409, 422, 500, 502, 504} ==> r == "Something went wrong."
  {
    if status == 401 then "You are not authenticated."
    else if status == 403 then "You are not authorized to do this action."
    else if status == 404 then "The " + resource + " you are looking for could not be found."
    else if status == 409 then "Error-409. The " + resource + " you are trying to create is already present"
    else if status == 422 then "Error-422. Unprocessable request"
    else if status == 500 then "Error-500. Something went wrong on our end."
    else if status == 502 then "Error-502. Received an invalid response from the upstream server."
    else if status == 504 then "Error-504. Server is busy. Please try again after some time."
    else "Something went wrong."
  }

  /** The fallback message is given exactly for the statuses without a message of their own. */
  lemma FallbackExactlyForUnknown(status: int, resource: string)
    ensures MapApiError(status, resource) == "Something went wrong." <==>
            status !in {401, 403, 404, 409, 422, 500, 502, 504}
  {
    var r := MapApiError(status, resource);
    if status == 404 {
      assert r[..4] == "The ";
    } else if status == 409 {
      assert r[..5] == "Error";
    }
  }

  // ---------------------------------------------------------------------------------------------
  // Route patterns

  /** What a route pattern compiles to: a literal character, or a `:name` parameter */
  datatype PatternToken = Lit(c: char) | Param

  predicate IsNameChar(c: char) {
    ('a' <= c <= 'z') || ('A' <= c <= 'Z') || ('0' <= c <= '9') || c == '_'
  }

  /** The length of the run of name characters `s` starts with */
  function NameRun(s: string): (n: nat)
    ensures n <= |s| && forall k :: 0 <= k < n ==> IsNameChar(s[k])
    ensures n < |s| ==> !IsNameChar(s[n])
  {
    if s != [] && IsNameChar(s[0]) then 1 + NameRun(s[1..]) else 0
  }

  /**
   * `routePatternToRegex(route)`: every `:` followed by one or more name characters (the longest
   * such run) is a parameter; all other characters, special ones included, stand for themselves.
   */
  function CompilePattern(route: string): (r: seq<PatternToken>)
    ensures |r| <= |route|
    decreases |route|
  {
    if route == [] then []
    else if route[0] == ':' && |route| > 1 && IsNameChar(route[1]) then
      [Param] + CompilePattern(route[1 + NameRun(route[1..])..])
    else [Lit(route[0])] + CompilePattern(route[1..])
  }

  predicate NoSlash(s: string) {
    forall k :: 0 <= k < |s| ==> s[k] != '/'
  }

  /** The compiled pattern matches the whole of `path`; a parameter takes one or more characters other than '/' */
  predicate Matches(tokens: seq<PatternToken>, path: string)
    decreases |tokens|
  {
    if tokens == [] then path == []
    else match tokens[0]
      case Lit(c) => path != [] && path[0] == c && Matches(tokens[1..], path[1..])
      case Param => exists k :: 1 <= k <= |path| && NoSlash(path[..k]) && Matches(tokens[1..], path[k..])
  }

  predicate RouteMatches(route: string, path: string) {
    Matches(CompilePattern(route), path)
  }

  function SlashCount(s: string): nat {
    if s == [] then 0 else (if s[0] == '/' then 1 else 0) + SlashCount(s[1..])
  }

  function LiteralSlashes(tokens: seq<PatternToken>): nat {
    if tokens == [] then 0 else (if tokens[0] == Lit('/') then 1 else 0) + LiteralSlashes(tokens[1..])
  }

  lemma {:induction false} SlashCountAppend(a: string, b: string)
    ensures SlashCount(a + b) == SlashCount(a) + SlashCount(b)
  {
    if a == [] {
      assert a + b == b;
    } else {
      assert (a + b)[1..] == a[1..] + b;
      SlashCountAppend(a[1..], b);
    }
  }

  lemma {:induction false} NoSlashCount(s: string)
    requires NoSlash(s)
    ensures SlashCount(s) == 0
  {
    if s != [] {
      NoSlashCount(s[1..]);
    }
  }

  /** A parameter never spans a '/': a matched path has exactly the pattern's literal slashes. */
  lemma {:induction false} MatchKeepsSegments(tokens: seq<PatternToken>, path: string)
    requires Matches(tokens, path)
    ensures SlashCount(path) == LiteralSlashes(tokens)
    decreases |tokens|
  {
    if tokens != [] {
      match tokens[0]
      case Lit(c) => {
        MatchKeepsSegments(tokens[1..], path[1..]);
      }
      case Param => {
        var k :| 1 <= k <= |path| && NoSlash(path[..k]) && Matches(tokens[1..], path[k..]);
        MatchKeepsSegments(tokens[1..], path[k..]);
        assert path == path[..k] + path[k..];
        SlashCountAppend(path[..k], path[k..]);
        NoSlashCount(path[..k]);
      }
    }
  }

  predicate HasNoColon(route: string) {
    forall k :: 0 <= k < |route| ==> route[k] != ':'
  }

  /** A pattern without parameters matches exactly the path spelled like it. */
  lemma {:induction false} LiteralPatternMatchesItself(route: string, path: string)
    requires HasNoColon(route)
    ensures RouteMatches(route, path) <==> path == route
    decreases |route|
  {
    if route != [] {
      assert CompilePattern(route) == [Lit(route[0])] + CompilePattern(route[1..]);
      LiteralPatternMatchesItself(route[1..], if path == [] then [] else path[1..]);
      if path != [] {
        assert path == [path[0]] + path[1..];
        assert route == [route[0]] + route[1..];
      }
    }
  }

  // ---------------------------------------------------------------------------------------------
  // checkSidebarRules

  /** A sidebar rule: a route pattern and, optionally, query parameters that must have given values */
  datatype Rule = Rule(route: string, query: Option<seq<(string, string)>>)

  /** The parts of the current URL the rules read; `params` lists the search parameters in order */
  datatype Url = Url(pathname: string, params: seq<(string, string)>)

  /** `searchParams.get(key)`: the first value given for `key` */
  function ParamGet(params: seq<(string, string)>, key: string): (r: Option<string>)
    ensures r.Some? <==> exists k :: 0 <= k < |params| && params[k].0 == key
    ensures r.Some? ==> exists k :: 0 <= k < |params| && params[k] == (key, r.value) &&
                          forall j :: 0 <= j < k ==> params[j].0 != key
  {
    if params == [] then None
    else if params[0].0 == key then Some(params[0].1)
    else
      var r := ParamGet(params[1..], key);
      assert forall k :: 0 < k < |params| ==> params[k] == params[1..][k - 1];
      r
  }

  /** `Object.entries(query).every(([key, val]) => url.searchParams.get(key) === val)` */
  function QueryHolds(query: seq<(string, string)>, params: seq<(string, string)>): (r: bool)
    ensures r <==> forall k :: 0 <= k < |query| ==> ParamGet(params, query[k].0) == Some(query[k].1)
  {
    if query == [] then true
    else
      var rest := QueryHolds(query[1..], params);
      assert forall k :: 0 < k < |query| ==> query[k] == query[1..][k - 1];
      ParamGet(params, query[0].0) == Some(query[0].1) && rest
  }

  predicate RuleHolds(rule: Rule, url: Url) {
    RouteMatches(rule.route, url.pathname) && (rule.query.None? || QueryHolds(rule.query.value, url.params))
  }

  /** `checkSidebarRules(rules, url)`: some rule's pattern matches the path and all its query values agree */
  function CheckSidebarRules(rules: seq<Rule>, url: Url): (r: bool)
    ensures r <==> exists k :: 0 <= k < |rules| && RouteMatches(rules[k].route, url.pathname) &&
                     (rules[k].query.None? ||
                      forall j :: 0 <= j < |rules[k].query.value| ==>
                        ParamGet(url.params, rules[k].query.value[j].0) == Some(rules[k].query.value[j].1))
    ensures rules == [] ==> !r
  {
    if rules == [] then false
    else
      var rest := CheckSidebarRules(rules[1..], url);
      assert forall k :: 0 < k < |rules| ==> rules[k] == rules[1..][k - 1];
      RuleHolds(rules[0], url) || rest
  }

  /** A rule whose query lists nothing (`query: {}`) asks only for the path. */
  lemma EmptyQueryIsPathOnly(route: string, url: Url)
    ensures CheckSidebarRules([Rule(route, Some([]))], url) <==> RouteMatches(route, url.pathname)
  {
  }

  // ---------------------------------------------------------------------------------------------
  // normalizeRoute

  /** `[\da-f]` under the `i` flag */
  predicate IsHex(c: char) {
    ('0' <= c <= '9') || ('a' <= c <= 'f') || ('A' <= c <= 'F')
  }

  /** The 8-4-4-4-12 hexadecimal layout of a UUID's text (section 3 of RFC 4122) */
  predicate IsUuidText(s: string) {
    |s| == 36 && forall k :: 0 <= k < 36 ==> if k == 8 || k == 13 || k == 18 || k == 23 then s[k] == '-' else IsHex(s[k])
  }

  /** The lookahead `(?=$|[/?])` at position `i` */
  predicate AtSegmentEnd(s: string, i: int) {
    i == |s| || (0 <= i < |s| && (s[i] == '/' || s[i] == '?'))
  }

  /** A '/' and a UUID, ending the segment, start here */
  predicate UuidAt(s: string) {
    |s| >= 37 && s[0] == '/' && IsUuidText(s[1..37]) && AtSegmentEnd(s, 37)
  }

  /** The length of the run of decimal digits `s` starts with */
  function DigitRun(s: string): (n: nat)
    ensures n <= |s| && forall k :: 0 <= k < n ==> IsDigit(s[k])
    ensures n < |s| ==> !IsDigit(s[n])
  {
    if s != [] && IsDigit(s[0]) then 1 + DigitRun(s[1..]) else 0
  }

  /** A '/', a 'Q' or 'q' and one or more digits, ending the segment, start here */
  predicate QIdAt(s: string) {
    |s| >= 3 && s[0] == '/' && (s[1] == 'Q' || s[1] == 'q') && DigitRun(s[2..]) >= 1 &&
    AtSegmentEnd(s, 2 + DigitRun(s[2..]))
  }

  /** The first global replacement: every UUID segment becomes "/:id" */
  function ReplaceUuids(s: string): string
    decreases |s|
  {
    if s == [] then []
    else if UuidAt(s) then "/:id" + ReplaceUuids(s[37..])
    else [s[0]] + ReplaceUuids(s[1..])
  }

  /** The second global replacement: every `/Q<digits>` segment becomes "/:id" */
  function ReplaceQIds(s: string): string
    decreases |s|
  {
    if s == [] then []
    else if QIdAt(s) then "/:id" + ReplaceQIds(s[2 + DigitRun(s[2..])..])
    else [s[0]] + ReplaceQIds(s[1..])
  }

  /** `normalizeRoute(route)`: undefined stays undefined */
  function NormalizeRoute(route: Option<string>): (r: Option<string>)
    ensures r.Some? <==> route.Some?
  {
    if route.None? then None else Some(ReplaceQIds(ReplaceUuids(route.value)))
  }

  predicate NoUuidIn(s: string) {
    forall i :: 0 <= i < |s| ==> !UuidAt(s[i..])
  }

  predicate NoQIdIn(s: string) {
    forall i :: 0 <= i < |s| ==> !QIdAt(s[i..])
  }

  /** The position of the first '/' of `t`, or its length */
  function FirstSlash(t: string): (m: nat)
    ensures m <= |t| && NoSlash(t[..m])
    ensures m < |t| ==> t[m] == '/'
  {
    if t == [] || t[0] == '/' then 0
    else
      var m := FirstSlash(t[1..]);
      assert t[..1 + m] == [t[0]] + t[1..][..m];
      1 + m
  }

  /** `y` spells `x` up to the first '/' of `x`, and has that '/' too, or ends where `x` does */
  predicate AgreeThroughSlash(x: string, y: string) {
    var m := FirstSlash(x);
    m <= |y| && y[..m] == x[..m] && (m == |x| ==> |y| == m) && (m < |x| ==> m < |y| && y[m] == '/')
  }

  lemma AgreeSymmetric(x: string, y: string)
    requires AgreeThroughSlash(x, y)
    ensures AgreeThroughSlash(y, x)
  {
    var m := FirstSlash(x);
    assert y[..m] == x[..m];
    FirstSlashOf(y, m);
  }

  lemma {:induction false} FirstSlashOf(t: string, m: nat)
    requires m <= |t| && NoSlash(t[..m]) && (m < |t| ==> t[m] == '/')
    ensures FirstSlash(t) == m
  {
    if m > 0 {
      assert t[..m][0] == t[0];
      assert t[1..][..m - 1] == t[..m][1..];
      FirstSlashOf(t[1..], m - 1);
    }
  }

  /** Text without a '/' passes through the first replacement unchanged. */
  lemma {:induction false} UuidsSkipNoSlash(a: string, b: string)
    requires NoSlash(a)
    ensures ReplaceUuids(a + b) == a + ReplaceUuids(b)
  {
    if a == [] {
      assert a + b == b;
    } else {
      assert (a + b)[0] == a[0] && (a + b)[1..] == a[1..] + b;
      assert !UuidAt(a + b);
      UuidsSkipNoSlash(a[1..], b);
      assert a == [a[0]] + a[1..];
    }
  }

  /** Text without a '/' passes through the second replacement unchanged. */
  lemma {:induction false} QIdsSkipNoSlash(a: string, b: string)
    requires NoSlash(a)
    ensures ReplaceQIds(a + b) == a + ReplaceQIds(b)
  {
    if a == [] {
      assert a + b == b;
    } else {
      assert (a + b)[0] == a[0] && (a + b)[1..] == a[1..] + b;
      assert !QIdAt(a + b);
      QIdsSkipNoSlash(a[1..], b);
      assert a == [a[0]] + a[1..];
    }
  }

  /** Each replacement produces text that spells its input up to and including the input's first '/'. */
  lemma ReplacementsAgree(t: string)
    ensures AgreeThroughSlash(t, ReplaceUuids(t))
    ensures AgreeThroughSlash(t, ReplaceQIds(t))
  {
    var m := FirstSlash(t);
    assert t == t[..m] + t[m..];
    UuidsSkipNoSlash(t[..m], t[m..]);
    QIdsSkipNoSlash(t[..m], t[m..]);
    var u := ReplaceUuids(t);
    var q := ReplaceQIds(t);
    assert u[..m] == t[..m] && q[..m] == t[..m];
    if m < |t| {
      assert t[m..][0] == '/';
      assert ReplaceUuids(t[m..])[0] == '/';
      assert ReplaceQIds(t[m..])[0] == '/';
    } else {
      assert t[m..] == [];
    }
  }

  lemma UuidAtSlash(x: string)
    ensures UuidAt(['/'] + x) <==> |x| >= 36 && IsUuidText(x[..36]) && (|x| == 36 || x[36] == '/' || x[36] == '?')
  {
    var s := ['/'] + x;
    if |x| >= 36 {
      assert s[1..37] == x[..36];
    }
  }

  /** Whether a UUID segment starts at a '/' depends only on the text up to the next '/'. */
  lemma UuidFollowsAgreement(x: string, y: string)
    requires AgreeThroughSlash(x, y) && UuidAt(['/'] + x)
    ensures UuidAt(['/'] + y)
  {
    UuidAtSlash(x);
    UuidAtSlash(y);
    var m := FirstSlash(x);
    if m >= 36 {
      assert y[..36] == y[..m][..36] == x[..m][..36] == x[..36];
      if m > 36 {
        assert y[36] == y[..m][36] == x[..m][36] == x[36];
      }
    }
  }

  lemma QIdAtSlash(x: string)
    ensures QIdAt(['/'] + x) <==>
              |x| >= 2 && (x[0] == 'Q' || x[0] == 'q') && DigitRun(x[1..]) >= 1 &&
              (1 + DigitRun(x[1..]) == |x| || x[1 + DigitRun(x[1..])] == '/' || x[1 + DigitRun(x[1..])] == '?')
  {
    var s := ['/'] + x;
    if |x| >= 1 {
      assert s[2..] == x[1..];
    }
  }

  /** `n` digits followed by the end or by a non-digit make a digit run of length `n`. */
  lemma {:induction false} DigitRunIs(b: string, n: nat)
    requires n <= |b| && (forall k :: 0 <= k < n ==> IsDigit(b[k])) && (n < |b| ==> !IsDigit(b[n]))
    ensures DigitRun(b) == n
  {
    if n > 0 {
      DigitRunIs(b[1..], n - 1);
    }
  }

  /** Whether a `/Q<digits>` segment starts at a '/' depends only on the text up to the next '/'. */
  lemma QIdFollowsAgreement(x: string, y: string)
    requires AgreeThroughSlash(x, y) && QIdAt(['/'] + x)
    ensures QIdAt(['/'] + y)
  {
    QIdAtSlash(x);
    QIdAtSlash(y);
    var m := FirstSlash(x);
    var n := DigitRun(x[1..]);
    assert forall i :: 0 <= i < m ==> y[i] == x[i] by {
      forall i | 0 <= i < m ensures y[i] == x[i] { assert y[..m][i] == x[..m][i]; }
    }
    if 1 + n < m {
      assert y[1 + n] == x[1 + n];
    } else if m < |x| {
      assert y[m] == '/';
    }
    forall k | 0 <= k < n ensures IsDigit(y[1..][k]) {
      assert y[1..][k] == y[1 + k] == x[1 + k];
    }
    DigitRunIs(y[1..], n);
  }

  /** No UUID segment is left after the first replacement. */
  lemma {:induction false} NoUuidAfterReplacement(s: string)
    ensures NoUuidIn(ReplaceUuids(s))
    decreases |s|
  {
    if s != [] {
      var out := ReplaceUuids(s);
      if UuidAt(s) {
        var rest := ReplaceUuids(s[37..]);
        NoUuidAfterReplacement(s[37..]);
        assert out == "/:id" + rest;
        forall i | 0 <= i < |out|
          ensures !UuidAt(out[i..])
        {
          if i == 0 {
            assert |out| >= 37 ==> out[1..37][0] == ':';
          } else if i < 4 {
            assert out[i..][0] == out[i];
          } else {
            assert out[i..] == rest[i - 4..];
          }
        }
      } else {
        var rest := ReplaceUuids(s[1..]);
        NoUuidAfterReplacement(s[1..]);
        assert out == [s[0]] + rest;
        forall i | 0 <= i < |out|
          ensures !UuidAt(out[i..])
        {
          if i == 0 {
            if s[0] == '/' && UuidAt(out) {
              ReplacementsAgree(s[1..]);
              AgreeSymmetric(s[1..], rest);
              assert out == ['/'] + rest && s == ['/'] + s[1..];
              UuidFollowsAgreement(rest, s[1..]);
            }
          } else {
            assert out[i..] == rest[i - 1..];
          }
        }
      }
    }
  }

  /** No `/Q<digits>` segment is left after the second replacement. */
  lemma {:induction false} NoQIdAfterReplacement(s: string)
    ensures NoQIdIn(ReplaceQIds(s))
    decreases |s|
  {
    if s != [] {
      if QIdAt(s) {
        var skip := 2 + DigitRun(s[2..]);
        NoQIdAfterReplacement(s[skip..]);
        assert ReplaceQIds(s) == "/:id" + ReplaceQIds(s[skip..]);
        NoQIdBehindId(ReplaceQIds(s[skip..]));
      } else {
        NoQIdAfterReplacement(s[1..]);
        NoQIdAfterPlain(s);
      }
    }
  }

  /** "/:id" in front of text with no `/Q<digits>` segment starts none either. */
  lemma NoQIdBehindId(rest: string)
    requires NoQIdIn(rest)
    ensures NoQIdIn("/:id" + rest)
  {
    var out := "/:id" + rest;
    forall i | 0 <= i < |out|
      ensures !QIdAt(out[i..])
    {
      if i == 0 {
        assert |out| >= 3 ==> out[1] == ':';
      } else if i < 4 {
        assert out[i..][0] == out[i];
      } else {
        assert out[i..] == rest[i - 4..];
      }
    }
  }

  /** A character kept at the head starts no `/Q<digits>` segment once the rest has none. */
  lemma NoQIdAfterPlain(s: string)
    requires s != [] && !QIdAt(s)
    requires NoQIdIn(ReplaceQIds(s[1..]))
    ensures NoQIdIn(ReplaceQIds(s))
  {
    var out := ReplaceQIds(s);
    var rest := ReplaceQIds(s[1..]);
    assert out == [s[0]] + rest;
    forall i | 0 <= i < |out|
      ensures !QIdAt(out[i..])
    {
      if i == 0 {
        PlainHeadNoQId(s);
      } else {
        assert out[i..] == rest[i - 1..];
      }
    }
  }

  /** The kept head character starts no `/Q<digits>` segment: the text behind it agrees with the original up to its first '/'. */
  lemma PlainHeadNoQId(s: string)
    requires s != [] && !QIdAt(s)
    ensures !QIdAt([s[0]] + ReplaceQIds(s[1..]))
  {
    var rest := ReplaceQIds(s[1..]);
    if s[0] == '/' && QIdAt([s[0]] + rest) {
      ReplacementsAgree(s[1..]);
      AgreeSymmetric(s[1..], rest);
      assert s == ['/'] + s[1..];
      QIdFollowsAgreement(rest, s[1..]);
    }
  }

  /** The second replacement brings no UUID segment back. */
  lemma {:induction false} QIdReplacementKeepsNoUuid(s: string)
    requires NoUuidIn(s)
    ensures NoUuidIn(ReplaceQIds(s))
    decreases |s|
  {
    if s != [] {
      if QIdAt(s) {
        var skip := 2 + DigitRun(s[2..]);
        assert forall i :: 0 <= i < |s[skip..]| ==> s[skip..][i..] == s[skip + i..];
        QIdReplacementKeepsNoUuid(s[skip..]);
        NoUuidAfterQId(s, skip);
      } else {
        assert forall i :: 0 <= i < |s[1..]| ==> s[1..][i..] == s[1 + i..];
        QIdReplacementKeepsNoUuid(s[1..]);
        NoUuidAfterPlain(s);
      }
    }
  }

  /** A `/Q<digits>` segment at the head becomes "/:id", which starts no UUID segment. */
  lemma NoUuidAfterQId(s: string, skip: nat)
    requires s != [] && QIdAt(s) && skip == 2 + DigitRun(s[2..])
    requires NoUuidIn(ReplaceQIds(s[skip..]))
    ensures NoUuidIn(ReplaceQIds(s))
  {
    assert ReplaceQIds(s) == "/:id" + ReplaceQIds(s[skip..]);
    NoUuidBehindId(ReplaceQIds(s[skip..]));
  }

  /** "/:id" in front of text with no UUID segment starts none either. */
  lemma NoUuidBehindId(rest: string)
    requires NoUuidIn(rest)
    ensures NoUuidIn("/:id" + rest)
  {
    var out := "/:id" + rest;
    forall i | 0 <= i < |out|
      ensures !UuidAt(out[i..])
    {
      if i == 0 {
        assert |out| >= 37 ==> out[1..37][0] == ':';
      } else if i < 4 {
        assert out[i..][0] == out[i];
      } else {
        assert out[i..] == rest[i - 4..];
      }
    }
  }

  /** A character kept at the head starts no UUID segment that the original did not start. */
  lemma NoUuidAfterPlain(s: string)
    requires s != [] && !QIdAt(s) && NoUuidIn(s)
    requires NoUuidIn(ReplaceQIds(s[1..]))
    ensures NoUuidIn(ReplaceQIds(s))
  {
    var out := ReplaceQIds(s);
    var rest := ReplaceQIds(s[1..]);
    assert s[0..] == s;
    assert out == [s[0]] + rest;
    forall i | 0 <= i < |out|
      ensures !UuidAt(out[i..])
    {
      if i == 0 {
        if s[0] == '/' && UuidAt(out) {
          ReplacementsAgree(s[1..]);
          AgreeSymmetric(s[1..], rest);
          assert out == ['/'] + rest && s == ['/'] + s[1..];
          UuidFollowsAgreement(rest, s[1..]);
        }
      } else {
        assert out[i..] == rest[i - 1..];
      }
    }
  }

  /** With nothing to replace, the replacements change nothing. */
  lemma {:induction false} ReplacementsIdle(s: string)
    ensures NoUuidIn(s) ==> ReplaceUuids(s) == s
    ensures NoQIdIn(s) ==> ReplaceQIds(s) == s
    decreases |s|
  {
    if s != [] {
      assert s[0..] == s;
      assert forall i :: 0 <= i < |s[1..]| ==> s[1..][i..] == s[1 + i..];
      ReplacementsIdle(s[1..]);
      assert s == [s[0]] + s[1..];
    }
  }

  /** Normalising a normalised route changes nothing. */
  lemma NormalizeIdempotent(route: Option<string>)
    ensures NormalizeRoute(NormalizeRoute(route)) == NormalizeRoute(route)
  {
    if route.Some? {
      var u := ReplaceUuids(route.value);
      var q := ReplaceQIds(u);
      NoUuidAfterReplacement(route.value);
      QIdReplacementKeepsNoUuid(u);
      NoQIdAfterReplacement(u);
      ReplacementsIdle(q);
    }
  }

  /** Text too short to hold a UUID segment passes the first replacement unchanged. */
  lemma ShortHasNoUuid(s: string)
    requires |s| < 37
    ensures ReplaceUuids(s) == s
  {
    assert forall i :: 0 <= i < |s| ==> |s[i..]| < 37;
    assert NoUuidIn(s);
    ReplacementsIdle(s);
  }

  /** A question id at the end of a route is rewritten, and so is one spelled with a lower-case `q`. */
  lemma NormalizeQuestionId()
    ensures NormalizeRoute(Some("/q7")) == Some("/:id")
  {
    var s := "/q7";
    ShortHasNoUuid(s);
    assert s[2..] == "7" && s[2..][1..] == [];
    assert DigitRun(s[2..]) == 1;
    assert QIdAt(s);
    assert s[3..] == [];
    assert ReplaceQIds(s) == "/:id" + ReplaceQIds(s[3..]);
    assert ReplaceQIds(s[3..]) == [];
    assert "/:id" + [] == "/:id";
    assert NormalizeRoute(Some(s)) == Some(ReplaceQIds(ReplaceUuids(s)));
  }

  /** A question id before the query string is rewritten and the query string kept. */
  lemma NormalizeQuestionIdBeforeQuery()
    ensures NormalizeRoute(Some("/Q12?t")) == Some("/:id?t")
  {
    var s := "/Q12?t";
    ShortHasNoUuid(s);
    assert s[2..] == "12?t" && s[2..][1..] == "2?t" && s[2..][1..][1..] == "?t";
    assert DigitRun(s[2..][1..][1..]) == 0;
    assert DigitRun(s[2..]) == 2;
    assert QIdAt(s);
    assert s[4..] == "?t";
    assert !QIdAt("?t") && !QIdAt("t") && "?t"[1..] == "t" && "t"[1..] == [];
    assert ReplaceQIds("?t") == "?t";
    assert ReplaceQIds(s) == "/:id" + ReplaceQIds(s[4..]);
    assert "/:id" + "?t" == "/:id?t";
    assert NormalizeRoute(Some(s)) == Some(ReplaceQIds(ReplaceUuids(s)));
  }

  /** A `Q` followed by digits and then a letter is not an id. */
  lemma NormalizeKeepsWords()
    ensures NormalizeRoute(Some("/Q1a")) == Some("/Q1a")
  {
    var s := "/Q1a";
    ShortHasNoUuid(s);
    assert s[2..] == "1a" && s[2..][1..] == "a";
    assert DigitRun(s[2..]) == 1;
    assert !QIdAt(s);
    var t := s[1..];
    assert t == "Q1a" && t + [] == t;
    QIdsSkipNoSlash(t, []);
    assert ReplaceQIds(s) == [s[0]] + ReplaceQIds(t);
    assert [s[0]] + t == s;
  }
}
