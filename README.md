# publicsq_ui — a verified model of the client-side core

This project models, in Dafny, the logic at the core of the publicsq_ui question-bank and exam
front end: the state its stores hold and the decision rules its helpers apply.  Nothing here
talks to a server or renders a page.  What is modelled:

- **The selected-content store** (`selectedContentStore.js`) holds the chapter → topic → subtopic
  selection hierarchy.  It keeps three parallel indexes: the nested `hierarchy` map, the per-level
  maps `chapterMap` / `topicMap` / `subtopicMap`, and the flat `selections` list.  It also keeps the
  aggregate `stats` counters and the question list with soft delete, restore and purge.
  - `SelectedContentStore.Store` is a class with one field per store field.  Every method that
    changes state is proved equal to a function in `SelectionModel`, which performs the same update
    on a value.
  - `SelectionLemmas` proves what those functions promise: cascades, placeholders, counters and
    frames.  The search functions in `SelectionModel` state in their own contracts that they return
    the first match in insertion order.
  - A JavaScript `Map` is `OrderedMaps.OMap`: the entries together with their insertion order,
    because that order decides every "first match" search.
  - Object identity matters because the same chapter object sits in `chapterMap` and in
    `selections`.  It is modelled by a reference number on each list element.
- **The quiz session and scoring** (`quizStore.js`): the session transitions and `calculateResults`,
  in `QuizStore`.
- **The exam payload builder** (`apiPayLoadStore.js`): the `chapters_topics` grouping, the
  allocation update, payload validation and the setters, in `ApiPayloadStore`.
- **Pure helpers**:
  - `helper.js` in `Helper`: question and preview shaping, API error messages, sidebar route
    rules, route normalisation and request headers.
  - `form-helper.js` in `FormHelper`; `roles.js` in `Roles`.
  - `textUtils.js` in `TextUtils`: entity decoding on the server path, and `cleanQuestionText`.
  - `dateUtils.js` in `DateUtils`: token substitution over given date components.
  - `api.js` in `Api`: `buildQueryString`, the `adminUpdatePasswords` endpoint and
    `generateStrongPassword`, with the random choices as inputs.
- **The access-control hook** (`hooks.server.js`) with the role table of `config.js`, in
  `HooksServer` and `Config`.
- **The notification store** (`notificationStore.js`), in `NotificationStore`.

Shared pieces:
- `JsText` holds JavaScript string behaviour: `\s`, `trim`, global literal replacement and number
  text.
- `JsValue` holds dynamically typed values and truthiness.
- `Wrappers` holds `Option`.

Dates, randomness, cookies and the network are inputs to the model.


## Model

| member | source | states |
|---|---|---|
| NotificationStore.Shown | src/lib/components/quiz/notificationStore.js:10-12 | the shown state is exactly the given type, message and callback; it equals the cleared state only for empty ones |
| NotificationStore.Clear | src/lib/components/quiz/notificationStore.js:14-16 | clearing gives the initial empty state whatever came before |
| NotificationStore.ClearIdempotent | src/lib/components/quiz/notificationStore.js:4-16 | clearing twice is clearing once; show then clear is the initial state |
| NotificationStore.ShowForgetsPrevious | src/lib/components/quiz/notificationStore.js:10-12 | two shows give the same state exactly when type, message and callback agree, so nothing of an earlier show survives |
| NotificationStore.Notifier.constructor | src/lib/components/quiz/notificationStore.js:4-8 | the store starts with no type, no message and no callback |
| NotificationStore.Notifier.ShowNotification | src/lib/components/quiz/notificationStore.js:10-12 | the state becomes `Shown(type, message, callback)`, the callback defaulting to none |
| NotificationStore.Notifier.ClearNotification | src/lib/components/quiz/notificationStore.js:14-16 | the state becomes the cleared state |
| Roles.IsAdminRole | src/lib/utils/roles.js:19-23 | true exactly for admin, super_admin, admin_user, block_admin and the legacy code 100 |
| Roles.IsEducatorRole | src/lib/utils/roles.js:30-33 | true exactly for teacher and the legacy code 101 |
| Roles.AdminAndEducatorDisjoint | src/lib/utils/roles.js:19-33 | no role code is both an administrator and an educator |
| Roles.EveryRoleClassified | src/lib/utils/roles.js:6-12 | every role in `ROLES` has its id equal to its value and is exactly one of administrator or educator; only teacher is an educator |
| Config.RoleOf | src/lib/config.js:3-75 | a role code has a table entry exactly when it is one of the five listed codes |
| Config.AdminsUnrestricted | src/lib/config.js:5-14 | super_admin and admin are restricted from no route and have no hidden menu entry |
| Config.OrganizationsOnly | src/lib/config.js:15-33 | admin_user and block_admin are restricted from exactly the two organisation routes and hide only the organisations menu |
| Config.TeacherRestrictedMore | src/lib/config.js:15-64 | every route restricted for admin_user or block_admin is restricted for teacher, and the upload history is restricted only for teacher |
| Config.NoActionsRestricted | src/lib/config.js:3-75 | no role restricts any action, and a code outside the table restricts no route |
| Config.LoginPageNeverRestricted | src/lib/config.js:3-75 | no role is restricted from the login page "/" |
| FormHelper.NameGivenIffNotBlank | src/lib/questions/form-helper.js:9 | the name check passes exactly for a present name that is not all white space |
| FormHelper.ValidateSubjectCreation | src/lib/questions/form-helper.js:7-35 | valid exactly when the name is not blank and standard and medium_code are truthy; each error message is returned exactly when its check is the first to fail; a valid result has no error |
| FormHelper.FirstMissingField | src/lib/questions/form-helper.js:45-78 | none exactly when every remaining taxonomy field is truthy; otherwise the message of the first falsy field, all before it truthy |
| FormHelper.ValidateTaxonomyCreation | src/lib/questions/form-helper.js:43-96 | valid exactly when the five fields are truthy and some item name is not blank; the k-th field's message exactly when it is the first falsy field; the item-name message exactly when all fields pass and every name is blank |
| FormHelper.BlankNamesRejected | src/lib/questions/form-helper.js:81-91 | names made only of white space count as missing |
| HooksServer.Cookie | src/hooks.server.js:6-14 | a cookie value is present exactly when the cookie is set |
| HooksServer.SessionOf | src/hooks.server.js:16-28 | the session holds the nine cookie values; it is authenticated exactly when a non-empty access token is present |
| HooksServer.Decide | src/hooks.server.js:30-61 | unauthenticated: redirect to "/?redirectTo=" + path + search exactly when the path is neither under /apis nor "/". Authenticated: "/unauthorized" exactly when the path is not under /apis and the role's table entry lists the normalised route; "/home" exactly for "/" without `redirectTo` and not restricted; /apis always passes |
| HooksServer.Handle | src/hooks.server.js:5-62 | records the session from the cookies and returns the decision for it |
| HooksServer.UnknownRoleNeverRestricted | src/hooks.server.js:44-49 | a missing role code or one outside the table never leads to "/unauthorized" |
| HooksServer.RootNormalizesToRoot | src/hooks.server.js:41 | the login path "/" normalises to itself |
| HooksServer.LoginPageSendsHome | src/hooks.server.js:51-57 | an authenticated visit to "/" goes home exactly when no `redirectTo` is given |
| HooksServer.WordThenQuestionId | src/hooks.server.js:41 | a `/Q<digits>` segment after a word segment normalises to `/:id`, and the word is kept |
| HooksServer.TeacherCannotOpenQuestion | src/hooks.server.js:41-49 | a teacher opening /questions/Q12 is redirected to "/unauthorized", because the id is normalised before the table lookup |
| Helper.KeepIfTruthy | src/lib/utils/helper.js:32-41 | a media field is copied exactly when it is truthy |
| Helper.CopiedMedia | src/lib/utils/helper.js:14-42 | a question with no truthy media reference gets none; otherwise each media field is copied exactly when it is truthy |
| Helper.SubmissionOptions | src/lib/utils/helper.js:6-12 | four options with ids A to D, text `option1`…`option4` or "" when missing, each correct exactly when it is the payload's `correct_answer` |
| Helper.AtMostOneCorrect | src/lib/utils/helper.js:6-12 | at most one submitted option is correct, and none is when the answer names no option |
| Helper.QuestionFromSubmission | src/lib/utils/helper.js:5-44 | id and q_code are the question code; text defaults to ""; options as above; correct answer, design code and paper code copied; media only from an image-based stored question |
| Helper.SubmittedMediaTruthy | src/lib/utils/helper.js:31-42 | every media field of the built question is non-empty when present |
| Helper.Headers | src/lib/utils/helper.js:46-56 | with a truthy token, exactly Content-Type and `Bearer <token>` Authorization; otherwise no header at all |
| Helper.FirstCorrectId | src/lib/utils/helper.js:117 | present exactly when some option is correct, and then the id of the first correct option |
| Helper.PreviewMetadata | src/lib/utils/helper.js:104-115 | every field of the exam data is kept, and `chapters_topics` falls back to `chapter_topics` when it is falsy |
| Helper.PreviewItemOf | src/lib/utils/helper.js:116-145 | id, text and options copied; number is position + 1; correct answer is the first correct option's id or ""; chapter, topic and explanation are ""; media copied when truthy |
| Helper.BuildPreviewData | src/lib/utils/helper.js:103-147 | the metadata as above, and one preview item per question in order, none when the paper or its `qns` is missing |
| Helper.PreviewAnswerIsFirstCorrect | src/lib/utils/helper.js:117-130 | with non-empty option ids, the correct answer is "" exactly when no option is correct, and otherwise the id of a correct option |
| Helper.MapApiError | src/lib/utils/helper.js:319-340 | the fixed message for each of 401, 403, 404, 409, 422, 500, 502 and 504, with the resource named in the 404 and 409 messages, and "Something went wrong." for any other status |
| Helper.FallbackExactlyForUnknown | src/lib/utils/helper.js:319-340 | the fallback message is given exactly for the statuses without a message of their own |
| Helper.MatchKeepsSegments | src/lib/utils/helper.js:84-93 | a parameter never spans a '/': a matched path has exactly the pattern's literal slashes |
| Helper.LiteralPatternMatchesItself | src/lib/utils/helper.js:84-93 | a pattern without parameters matches exactly the path spelled like it |
| Helper.ParamGet | src/lib/utils/helper.js:96 | `searchParams.get(key)` is present exactly when some parameter has that key, and then gives the first such value |
| Helper.QueryHolds | src/lib/utils/helper.js:94-98 | true exactly when every query entry's value equals the first value given for its key |
| Helper.CheckSidebarRules | src/lib/utils/helper.js:82-101 | true exactly when some rule's pattern matches the path and, when the rule has a query, all its values agree; never true without rules |
| Helper.EmptyQueryIsPathOnly | src/lib/utils/helper.js:94-99 | a rule whose query is `{}` asks only for the path |
| Helper.DigitRun | src/lib/utils/helper.js:316 | the length of the `\d+` run at the start of the text |
| Helper.NormalizeRoute | src/lib/utils/helper.js:310-317 | an undefined route stays undefined; otherwise the UUID replacement and then the `/Q<digits>` replacement |
| Helper.ReplacementsAgree | src/lib/utils/helper.js:311-316 | each replacement spells its input up to and including the input's first '/' |
| Helper.UuidAtSlash | src/lib/utils/helper.js:313 | a UUID segment starts at a '/' exactly when 36 characters in the 8-4-4-4-12 hexadecimal layout follow, then the end, a '/' or a '?' |
| Helper.QIdAtSlash | src/lib/utils/helper.js:316 | a `/Q<digits>` segment starts at a '/' exactly when a 'Q' or 'q', one or more digits and then the end, a '/' or a '?' follow |
| Helper.UuidFollowsAgreement | src/lib/utils/helper.js:313 | whether a UUID segment starts at a '/' depends only on the text up to the next '/' |
| Helper.QIdFollowsAgreement | src/lib/utils/helper.js:316 | whether a `/Q<digits>` segment starts at a '/' depends only on the text up to the next '/' |
| Helper.NoUuidAfterReplacement | src/lib/utils/helper.js:311-315 | no UUID segment is left after the first replacement |
| Helper.NoQIdAfterReplacement | src/lib/utils/helper.js:316 | no `/Q<digits>` segment is left after the second replacement |
| Helper.QIdReplacementKeepsNoUuid | src/lib/utils/helper.js:316 | the second replacement brings no UUID segment back |
| Helper.ReplacementsIdle | src/lib/utils/helper.js:310-317 | with nothing to replace, each replacement changes nothing |
| Helper.NormalizeIdempotent | src/lib/utils/helper.js:310-317 | normalising a normalised route changes nothing |
| Helper.ShortHasNoUuid | src/lib/utils/helper.js:313 | text shorter than a UUID segment passes the first replacement unchanged |
| Helper.NormalizeQuestionId | src/lib/utils/helper.js:316 | "/q7" normalises to "/:id": the match ignores case |
| Helper.NormalizeQuestionIdBeforeQuery | src/lib/utils/helper.js:316 | "/Q12?t" normalises to "/:id?t": an id before the query string is replaced and the query kept |
| Helper.NormalizeKeepsWords | src/lib/utils/helper.js:316 | "/Q1a" is unchanged: digits followed by a letter are not an id |
| QuizStore.Start | src/lib/stores/quizStore.js:67-78 | time remaining is minutes × 60, 900 by default; index 0; no answers and no remarks; neither completed nor paused |
| QuizStore.Answer | src/lib/stores/quizStore.js:81-89 | only `answers[questionId]` changes: it holds the new answer, every other answer and every other session field is kept |
| QuizStore.Next | src/lib/stores/quizStore.js:92-97 | the index goes up by exactly 1 with no upper bound; nothing else changes |
| QuizStore.Previous | src/lib/stores/quizStore.js:100-105 | the index goes down by 1 but never below 0; nothing else changes |
| QuizStore.Complete | src/lib/stores/quizStore.js:108-113 | the session is completed; nothing else changes |
| QuizStore.Remark | src/lib/stores/quizStore.js:207-218 | the session's remark for the question is set; nothing else changes |
| QuizStore.NoRemarks | src/lib/stores/quizStore.js:227-230 | the session's remarks are emptied; nothing else changes |
| QuizStore.NextThenPrevious | src/lib/stores/quizStore.js:92-105 | from a non-negative index, next then previous gives back the session |
| QuizStore.UserAnswer | src/lib/stores/quizStore.js:128-129 | an answer is present exactly when the key is stored with a non-null value |
| QuizStore.FirstCorrect | src/lib/stores/quizStore.js:148 | none exactly when no option is flagged correct; otherwise the first option flagged correct |
| QuizStore.ScoreOne | src/lib/stores/quizStore.js:128-170 | one question: attempted exactly when answered; counted correct by `correct_answer` when it is truthy, else by the first correct option; the breakdown entry for its position |
| QuizStore.Tally | src/lib/stores/quizStore.js:122-171 | the loop's counters are the number of attempted and of correctly answered questions, and the breakdown has one entry per question in order |
| QuizStore.Score | src/lib/stores/quizStore.js:116-192 | the results are `ResultsOf(quiz, session)`: the totals, incorrect = attempted − correct, unanswered = total − attempted, the percentage rounded to 2 decimals, and the pass flag from the unrounded percentage |
| QuizStore.ResultsOfUnfolded | src/lib/stores/quizStore.js:173-186 | the results spelled out field by field |
| QuizStore.CountBounds | src/lib/stores/quizStore.js:138-160 | correct ≤ attempted ≤ number of questions |
| QuizStore.ResultBounds | src/lib/stores/quizStore.js:173-180 | correct ≤ attempted ≤ total; incorrect and unanswered are never negative; incorrect + correct = attempted and attempted + unanswered = total |
| QuizStore.PercentageRange | src/lib/stores/quizStore.js:173 | the percentage lies between 0 and 100 |
| QuizStore.PercentTimesTotal | src/lib/stores/quizStore.js:173 | percentage × total = 100 × correct on a non-empty quiz |
| QuizStore.PercentageAtLeast60 | src/lib/stores/quizStore.js:173-182 | on a non-empty quiz the unrounded percentage reaches 60 exactly when 100 × correct ≥ 60 × total |
| QuizStore.PassedIff | src/lib/stores/quizStore.js:118-182 | passed exactly when the quiz is non-empty and 100 × correct ≥ 60 × total; an empty quiz scores 0 and fails |
| QuizStore.AttemptedCountIs | src/lib/stores/quizStore.js:126-140 | the attempted count is the number of positions whose question has an answer |
| QuizStore.Breakdown | src/lib/stores/quizStore.js:126-170 | one entry per question in input order, with its position and id; attempted exactly as counted; `isCorrect` on every question counted correct, and only on attempted ones |
| QuizStore.ShownCorrectButNotCounted | src/lib/stores/quizStore.js:144-168 | when `correct_answer` disagrees with the option flagged correct, an answer naming that option is shown correct but scores nothing |
| QuizStore.FiveQuestionExample | src/lib/stores/quizStore.js:116-186 | three right, one wrong and one unanswered out of five: 4 attempted, 1 incorrect, 1 unanswered, 60 % and passed |
| QuizStore.RoundedSixtyFails | src/lib/stores/quizStore.js:181-182 | 14999 right out of 25000 is reported as 60 % yet fails, because the pass test reads the unrounded value |
| QuizStore.QuizStores.constructor | src/lib/stores/quizStore.js:4-35 | the stores start with the default configuration, no quiz, the initial session, no results and no remarks |
| QuizStore.QuizStores.Reset | src/lib/stores/quizStore.js:40-64 | configuration, quiz, session and results go back to their initial values; the remarks store is not touched |
| QuizStore.QuizStores.StartSession | src/lib/stores/quizStore.js:67-78 | the session becomes `Start(old session, minutes)`; the other stores are unchanged |
| QuizStore.QuizStores.UpdateAnswer | src/lib/stores/quizStore.js:81-89 | the session becomes `Answer(old session, id, answer)`; the other stores are unchanged |
| QuizStore.QuizStores.NextQuestion | src/lib/stores/quizStore.js:92-97 | the session becomes `Next(old session)`; the other stores are unchanged |
| QuizStore.QuizStores.PreviousQuestion | src/lib/stores/quizStore.js:100-105 | the session becomes `Previous(old session)`; the other stores are unchanged |
| QuizStore.QuizStores.CompleteQuiz | src/lib/stores/quizStore.js:108-113 | the session becomes `Complete(old session)`; the other stores are unchanged |
| QuizStore.QuizStores.CalculateResults | src/lib/stores/quizStore.js:116-192 | returns `ResultsOf(quiz, session)` and stores it in the results store; the other stores are unchanged |
| QuizStore.QuizStores.SaveRemark | src/lib/stores/quizStore.js:197-219 | the remark is written to the remarks store and to the session; nothing else changes |
| QuizStore.QuizStores.ClearRemarks | src/lib/stores/quizStore.js:225-231 | the remarks store and the session's remarks are emptied; nothing else changes |
| ApiPayloadStore.ExamDetails | src/lib/stores/apiPayLoadStore.js:27-34 | the exam name and type code take the new value when it is truthy and keep the old one otherwise; the mode is the chosen text with ASCII capitals lower-cased; no other field changes |
| ApiPayloadStore.ExamConfig | src/lib/stores/apiPayLoadStore.js:37-45 | each of total time, total questions, versions and sets takes the new value unless it is missing or 0; no other field changes |
| ApiPayloadStore.ClassSubject | src/lib/stores/apiPayLoadStore.js:48-55 | subject code, medium code and standard take the new value when it is truthy; no other field changes |
| ApiPayloadStore.AiMode | src/lib/stores/apiPayLoadStore.js:58-63 | only the AI flag changes, to the given value |
| ApiPayloadStore.ExcludedQuestions | src/lib/stores/apiPayLoadStore.js:66-78 | the exclusion list becomes the given list, or the empty list when none is given; nothing else changes |
| ApiPayloadStore.SettersKeepFilledFields | src/lib/stores/apiPayLoadStore.js:27-55 | a filled-in name, subject, medium or standard stays filled in whatever later setter calls bring |
| ApiPayloadStore.Allocated | src/lib/stores/apiPayLoadStore.js:88-110 | the filter keeps no more than the input holds, and every kept entry has a positive `qn_count` |
| ApiPayloadStore.AllocatedMembership | src/lib/stores/apiPayLoadStore.js:88-110 | an entry is listed exactly when some item with that code allocates that many questions (more than 0) |
| ApiPayloadStore.GroupsOf | src/lib/stores/apiPayLoadStore.js:95-118 | at most two groups, none empty: a chapter group first exactly when there are chapter entries, then a topic group exactly when there are topic entries, each holding exactly its entries |
| ApiPayloadStore.ChaptersTopicsOf | src/lib/stores/apiPayLoadStore.js:81-127 | at most two groups, none empty: the chapter group (first, when present) holds the allocated chapters and the topic group the allocated topics; each group is present exactly when something in it is allocated |
| ApiPayloadStore.AllocatedCodes | src/lib/stores/apiPayLoadStore.js:88-93 | the filter-and-map loop yields the allocated entries in input order |
| ApiPayloadStore.EntryOf | src/lib/stores/apiPayLoadStore.js:154-175 | the entry keeps the code and carries `qn_count` exactly when the draft is not in AI mode and the line allocates more than 0 |
| ApiPayloadStore.Entries | src/lib/stores/apiPayLoadStore.js:145-179 | a group never collects more entries than there are lines |
| ApiPayloadStore.EntriesMembership | src/lib/stores/apiPayLoadStore.js:145-179 | a group collects an entry exactly when some line of its kinds produces it: chapters for the chapter group, topics and subtopics for the topic group; other kinds are dropped |
| ApiPayloadStore.EntriesEmptyIff | src/lib/stores/apiPayLoadStore.js:145-193 | a group is empty exactly when no line is of its kinds, so lines with no allocation are still listed |
| ApiPayloadStore.AllocationGroups | src/lib/stores/apiPayLoadStore.js:140-193 | at most two non-empty groups, the chapter group first, each present exactly when it collected something |
| ApiPayloadStore.CollectGroups | src/lib/stores/apiPayLoadStore.js:145-179 | the loop over the lines ends with each group holding exactly the entries of its kinds, in input order, and absent when it has none |
| ApiPayloadStore.FromAllocation | src/lib/stores/apiPayLoadStore.js:130-203 | missing data changes nothing; otherwise only `chapters_topics` changes, to the groups of the selected items (none when the items are missing) |
| ApiPayloadStore.CountIffManual | src/lib/stores/apiPayLoadStore.js:156-175 | every listed entry comes from a line with its code, and carries a count exactly when the draft is not in AI mode and that line allocates more than 0 |
| ApiPayloadStore.MissingRanks | src/lib/stores/apiPayLoadStore.js:210-218 | the `filter` keeps, in increasing order, exactly the positions from the given one on whose field is falsy |
| ApiPayloadStore.MissingFields | src/lib/stores/apiPayLoadStore.js:210-219 | the `map` gives the field name of every kept position, in the fixed order exam_name, subject_code, medium_code, standard |
| ApiPayloadStore.MissingIffEmpty | src/lib/stores/apiPayLoadStore.js:210-219 | each of the four required fields is listed exactly when it is empty |
| ApiPayloadStore.PayloadOf | src/lib/stores/apiPayLoadStore.js:206-261 | valid exactly when no required field is empty and `chapters_topics` is not empty. Otherwise there is no payload: one "<field> is required" per missing field, in order, or else the single selections message. The valid payload trims the exam name, copies every other field, and carries the exclusion list only when it is not empty |
| ApiPayloadStore.BlankNameSentEmpty | src/lib/stores/apiPayLoadStore.js:217-245 | validation reads the untrimmed name, so a name of white space only passes and is sent as "" |
| ApiPayloadStore.AllBlankMissing | src/lib/stores/apiPayLoadStore.js:210-219 | a draft whose four required fields are all empty misses all four, in order |
| ApiPayloadStore.InitialDraftMissesAll | src/lib/stores/apiPayLoadStore.js:206-228 | the initial draft reports all four required fields, in order |
| ApiPayloadStore.PayloadStore.constructor | src/lib/stores/apiPayLoadStore.js:5-19 | the store starts with the initial draft |
| ApiPayloadStore.PayloadStore.UpdateExamDetails | src/lib/stores/apiPayLoadStore.js:27-34 | the draft becomes `ExamDetails(old draft, …)` |
| ApiPayloadStore.PayloadStore.UpdateExamConfig | src/lib/stores/apiPayLoadStore.js:37-45 | the draft becomes `ExamConfig(old draft, …)` |
| ApiPayloadStore.PayloadStore.UpdateClassSubject | src/lib/stores/apiPayLoadStore.js:48-55 | the draft becomes `ClassSubject(old draft, …)` |
| ApiPayloadStore.PayloadStore.UpdateAIMode | src/lib/stores/apiPayLoadStore.js:58-63 | the draft becomes `AiMode(old draft, isAI)` |
| ApiPayloadStore.PayloadStore.UpdateExcludedQuestions | src/lib/stores/apiPayLoadStore.js:66-78 | the draft becomes `ExcludedQuestions(old draft, ids)` |
| ApiPayloadStore.PayloadStore.BuildChaptersTopics | src/lib/stores/apiPayLoadStore.js:81-127 | returns `ChaptersTopicsOf(chapters, topics)` and stores it as `chapters_topics`; nothing else changes |
| ApiPayloadStore.PayloadStore.UpdateFromAllocationData | src/lib/stores/apiPayLoadStore.js:130-203 | the draft becomes `FromAllocation(old draft, data)` |
| ApiPayloadStore.PayloadStore.GetApiPayload | src/lib/stores/apiPayLoadStore.js:206-261 | returns `PayloadOf(draft)` and changes nothing |
| ApiPayloadStore.PayloadStore.Reset | src/lib/stores/apiPayLoadStore.js:264-280 | the draft goes back to the initial draft |
| JsText.Trim | src/lib/utils/textUtils.js:129 | `trim()` never lengthens its input and leaves no white space at either end |
| JsText.TrimIsSlice | src/lib/utils/textUtils.js:129 | what `trim()` keeps is one contiguous slice of the input, and everything cut off on either side is white space |
| TextUtils.DropZeroWidth | src/lib/utils/textUtils.js:126 | no zero-width space is left |
| TextUtils.CollapseSpaces | src/lib/utils/textUtils.js:127 | every white-space character left is a plain space, no two stand together, the result is empty only when the input is, and it starts with white space exactly when the input does |
| TextUtils.CollapseKeepsText | src/lib/utils/textUtils.js:127 | collapsing keeps every character that is not white space, in order |
| TextUtils.CleanBreaksIdle | src/lib/utils/textUtils.js:128 | text without a line break passes through the line-break step unchanged |
| TextUtils.CollapsedHasNoBreak | src/lib/utils/textUtils.js:127-128 | after collapsing no line break is left, so the `\n\s+` step that follows can never fire |
| TextUtils.TrimKeepsShape | src/lib/utils/textUtils.js:127-129 | trimming keeps the single, plain spacing and the absence of line breaks and zero-width spaces |
| TextUtils.CleanupShape | src/lib/utils/textUtils.js:124-129 | cleaned text has no white space at either end, no two white-space characters together, only plain spaces, and no line break or zero-width space |
| TextUtils.Decoded | src/lib/utils/textUtils.js:6-11 | a falsy value or a non-string is returned as it is; a non-empty string comes back as a string |
| TextUtils.DecodeHTMLEntities | src/lib/utils/textUtils.js:6-132 | the loop applies the entity table entry by entry, each one to the output of the previous one, then the clean-up chain: the result is `Decoded(text)` |
| TextUtils.DecodedShape | src/lib/utils/textUtils.js:6-132 | a decoded string is trimmed, single-spaced and free of line breaks and zero-width spaces |
| TextUtils.TableStarts | src/lib/utils/textUtils.js:20-43 | every entity key is non-empty; the four spreadsheet escapes start with '_' and the other entries with '&' |
| TextUtils.EntitiesChain | src/lib/utils/textUtils.js:117-122 | the entries are applied in turn to the running result, so "&amp;lt;" becomes "&lt;" and then "<" |
| TextUtils.CleanupOneChar | src/lib/utils/textUtils.js:124-129 | a single visible character comes through the clean-up chain unchanged |
| TextUtils.DecodeChain | src/lib/utils/textUtils.js:6-132 | decoding "&amp;lt;" yields "<", not "&lt;" |
| TextUtils.SpreadArray | src/lib/utils/textUtils.js:143 | an array spread into an object has each item under its index written in decimal |
| TextUtils.CleanField | src/lib/utils/textUtils.js:146-148 | one step of the field loop: the keys stay the same, only field `f` may change, and it is decoded exactly when it is truthy |
| TextUtils.CleanFields | src/lib/utils/textUtils.js:145-149 | the field loop keeps the keys of the copy, and every field it does not name is left as it is |
| TextUtils.DecodeFields | src/lib/utils/textUtils.js:145-149 | the `forEach` loop produces `CleanFields(copy, fields)` |
| TextUtils.CleanedQuestion | src/lib/utils/textUtils.js:139-152 | a falsy value or a non-object is returned as it is; an object keeps its keys and every field that is not one of the five text fields |
| TextUtils.CleanQuestionText | src/lib/utils/textUtils.js:139-152 | the result is `CleanedQuestion(question)` |
| TextUtils.CleanedTextField | src/lib/utils/textUtils.js:142-149 | each of the five text fields is decoded exactly when it is truthy, and left untouched otherwise |
| TextUtils.CleanFieldsAt | src/lib/utils/textUtils.js:145-149 | when no field name is listed twice, a listed field ends up decoded exactly when it was truthy in the copy |
| DateUtils.Hour12 | src/lib/utils/dateUtils.js:53-54 | the 12-hour clock shows 1 to 12, agrees with the hour modulo 12, and shows 12 exactly at midnight and noon |
| DateUtils.Two | src/lib/utils/dateUtils.js:45-57 | padding gives digits only, two of them below 100 |
| DateUtils.TwoReadsBack | src/lib/utils/dateUtils.js:45-57 | the two padded digits read back as the number |
| DateUtils.LastTwo | src/lib/utils/dateUtils.js:42 | `slice(-2)` keeps the last two characters, or all of a shorter text |
| DateUtils.Steps | src/lib/utils/dateUtils.js:40-60 | twenty replacements in chain order, none with an empty token |
| DateUtils.FormatDate | src/lib/utils/dateUtils.js:7-60 | a missing or invalid date gives "N/A"; otherwise the format goes through the twenty replacements in turn, each rescanning the output of the ones before |
| DateUtils.MeridiemTokens | src/lib/utils/dateUtils.js:59-60 | "a" gives "AM" before noon and "PM" from noon on; "p" gives the same in lower case |
| DateUtils.TwelveHourToken | src/lib/utils/dateUtils.js:53 | "hh" gives the padded 12-hour clock, and "12" at midnight |
| DateUtils.DefaultFormatJanuaryAsWritten | src/lib/utils/dateUtils.js:7-60 | as written, the default format in January gives "JAMn" or "JPMn", then the day and the year, because the AM/PM step rescans the "a" of "Jan" |
| DateUtils.TokenFrom | src/lib/utils/dateUtils.js:40-60 | finds the first token, in chain order, that starts the text, or reports that none does |
| DateUtils.FormatOnceLiteral | src/lib/utils/dateUtils.js:40-60 | in one pass, a format where no token starts is copied as it is |
| DateUtils.TokenFirst | src/lib/utils/dateUtils.js:40-60 | in one pass, a token at the head of the format puts its value, which is never rescanned, in front of the formatted rest |
| DateUtils.CopiedFirst | src/lib/utils/dateUtils.js:40-60 | in one pass, a character no token starts with is copied in front of the formatted rest |
| DateUtils.FormatDateFixed | src/lib/utils/dateUtils.js:7-60 | a missing or invalid date gives "N/A"; otherwise the tokens are replaced in one pass |
| DateUtils.DefaultFormatFixed | src/lib/utils/dateUtils.js:7-60 | in one pass the default format gives the short month name, the day and the year, in every month |
| DateUtils.JanuaryFinding | src/lib/utils/dateUtils.js:44-59 | for every January date the chained and the one-pass results differ |
| Api.EncodeChar | src/lib/utils/api.js:128 | `encodeURIComponent` keeps letters, digits and - _ . ! ~ * ' ( ) as they are and writes every other character as "%XX" escapes |
| Api.EncodeURIComponent | src/lib/utils/api.js:128 | encoding never shortens the text |
| Api.Utf8RoundTrip | src/lib/utils/api.js:128 | the UTF-8 bytes of a character decode back to that character |
| Api.DecodeEncode | src/lib/utils/api.js:128 | `decodeURIComponent` undoes `encodeURIComponent` on every string |
| Api.EncodedHasNoSeparators | src/lib/utils/api.js:128-130 | an encoded key or value never holds '&' or '=' |
| Api.EncodeUnescaped | src/lib/utils/api.js:128 | a text of unreserved characters is its own encoding |
| Api.KeptEntries | src/lib/utils/api.js:125 | an entry is kept exactly when its value is neither `undefined` nor `null`; never more entries than there were |
| Api.KeptEntriesAppend | src/lib/utils/api.js:124-125 | the filter keeps the entry order |
| Api.EncodePairs | src/lib/utils/api.js:126-129 | one `key=value` piece per kept entry, in order |
| Api.BuildQueryString | src/lib/utils/api.js:123-131 | the query is empty exactly when no entry is kept |
| Api.SplitJoin | src/lib/utils/api.js:130 | splitting a joined list on the separator gives the parts back when no part holds it |
| Api.QueryStringRoundTrip | src/lib/utils/api.js:123-131 | reading the query back gives every kept entry's key and `String(value)`, in order |
| Api.EmptyQuery | src/lib/utils/api.js:123-131 | an object with no entries, or with only `undefined` and `null` values, gives "" |
| Api.PasswordRouteSegments | src/lib/utils/api.js:115 | the id goes into the path unencoded: split on '/', the path is "", "users", the id, "password" exactly when the id holds no '/'; an id with a '/' is no longer the third segment |
| Api.PasswordRoutePrefix | src/lib/utils/api.js:115 | split on '/', the path starts with the segments "" and "users", followed by the segments of the id and "/password" |
| Api.Unshuffled | src/lib/utils/api.js:822-833 | before the shuffle: an upper-case letter, a lower-case letter, a digit and a special character, then one pick per remaining position, all from the combined alphabet |
| Api.Shuffle | src/lib/utils/api.js:835-838 | the shuffle returns a permutation of its input |
| Api.FillPassword | src/lib/utils/api.js:822-833 | the appends and the loop build exactly the unshuffled password: the four class characters, then one pick per remaining position |
| Api.ShuffledKeepsClasses | src/lib/utils/api.js:822-838 | any permutation of the unshuffled password still holds a character of each of the four classes, and only characters of the combined alphabet |
| Api.GenerateStrongPassword | src/lib/utils/api.js:813-839 | the password has `length` characters (at least 4), all from the combined alphabet, and holds at least one upper-case letter, one lower-case letter, one digit and one special character; it is a permutation of the characters drawn |
| OrderedMaps.OMap.Set | src/lib/stores/selectedContentStore.js:450-453 | `Map.set`: the key maps to the new value, the other entries stay, and a new key joins the iteration order at the end while an existing key keeps its place |
| OrderedMaps.OMap.Delete | src/lib/stores/selectedContentStore.js:749 | `Map.delete`: the key leaves both the entries and the iteration order, and nothing else changes |
| OrderedMaps.DeleteUndoesSet | src/lib/stores/selectedContentStore.js:493-497 | setting a new key and deleting it again gives back the map |
| SelectionModel.Initial | src/lib/stores/selectedContentStore.js:4-26 | the initial store: empty hierarchy, lists and maps, all counters 0 |
| SelectionModel.DefaultQuestionsToAdd | src/lib/stores/selectedContentStore.js:867-878 | the count capped at 8 for a chapter, 4 for a topic and 2 for a subtopic (the smaller of the two), 0 for any other level |
| SelectionModel.SelectionNode | src/lib/stores/selectedContentStore.js:34-48 | the selection object carries the code, level and parent code given, a count defaulting to 0, is selected and not a placeholder, and gets the default number of questions to add |
| SelectionModel.BulkNode | src/lib/stores/selectedContentStore.js:306-314 | a bulk item is taken as it is and only marked selected |
| SelectionModel.PlaceholderChapter | src/lib/stores/selectedContentStore.js:479-487 | an unselected placeholder chapter named from stored metadata when there is any, else "Chapter <code>" with 0 questions |
| SelectionModel.PlaceholderTopic | src/lib/stores/selectedContentStore.js:605-614 | an unselected placeholder topic under the given chapter |
| SelectionModel.TopicChapter | src/lib/stores/selectedContentStore.js:578-584 | a chapter holding the topic, and no chapter before it in insertion order holds it; none exactly when no chapter holds it |
| SelectionModel.SubtopicHome | src/lib/stores/selectedContentStore.js:785-801 | a (chapter, topic) pair holding the subtopic: no earlier chapter has a topic holding it, and the topic is the chapter's first in insertion order that holds it; none exactly when no topic holds it |
| SelectionModel.Before | src/lib/stores/selectedContentStore.js:839-841 | `split('_')[0]`: the text up to the first underscore, which it does not contain |
| SelectionModel.After | src/lib/stores/selectedContentStore.js:857-861 | the text after the first underscore, so that the code is `Before + "_" + After` |
| SelectionModel.ParentChapterCode | src/lib/stores/selectedContentStore.js:830-844 | the chapter holding the item when one does, else the part before the first '_' when the code has one, else none |
| SelectionModel.ParentTopicCode | src/lib/stores/selectedContentStore.js:846-865 | the topic holding the item when one does, else the first two '_'-separated parts when the code has an underscore, else none |
| SelectionModel.ChapterOrUnknown | src/lib/stores/selectedContentStore.js:588 | a truthy chapter code is kept; a missing or empty one becomes "unknown_chapter" |
| SelectionModel.TopicParent | src/lib/stores/selectedContentStore.js:472-475 | the node's own truthy parent code wins; otherwise the parent data's code |
| SelectionModel.PlaceTopic | src/lib/stores/selectedContentStore.js:478-503 | the topic ends up filed under the chapter; a missing chapter is appended to the iteration order, an existing one keeps it |
| SelectionModel.HostTopic | src/lib/stores/selectedContentStore.js:591-617 | the chapter exists afterwards and holds the placeholder topic with no subtopics |
| SelectionModel.AttachSubtopic | src/lib/stores/selectedContentStore.js:621-624 | only the topic's subtopic map changes: the subtopic is set in it; every iteration order stays |
| SelectionModel.PlaceSubtopic | src/lib/stores/selectedContentStore.js:578-624 | the subtopic goes under the first chapter holding the parent topic when there is one, else under a placeholder topic in the given (placeholder) chapter |
| SelectionModel.WithoutCode | src/lib/stores/selectedContentStore.js:735-793 | the filter drops exactly the elements with that code |
| SelectionModel.DropSubtopics | src/lib/stores/selectedContentStore.js:740-745 | the listed subtopics leave the subtopic map and the list; hierarchy, chapter and topic maps and questions stay |
| SelectionModel.DropSubtopicsStats | src/lib/stores/selectedContentStore.js:740-745 | dropping the listed subtopics takes one off the subtopic counter for each and their questions off the question counter; the chapter and topic counters stay |
| SelectionModel.DropTopics | src/lib/stores/selectedContentStore.js:733-746 | the listed topics leave the topic map and the list only shrinks; hierarchy, chapter map and questions stay |
| SelectionModel.DropTopicsStats | src/lib/stores/selectedContentStore.js:733-746 | dropping the listed topics takes one off the topic counter for each topic, one off the subtopic counter for each of their subtopics and all their questions off the question counter; the chapter counter stays |
| SelectionModel.FindNode | src/lib/stores/selectedContentStore.js:87-105 | a path to a node carrying the code, the first depth first: no earlier chapter has it anywhere, a chapter comes before its topics, and within the chapter no earlier topic or its subtopics has it; none only when no node anywhere carries it |
| SelectionModel.SetQuota | src/lib/stores/selectedContentStore.js:88-101 | only the node at the path gets the new number of questions to add; no key moves |
| SelectionModel.Retag | src/lib/stores/selectedContentStore.js:456-459 | every list element that is the chapter's own object shows the new quota; the others stay |
| SelectionModel.FindQuestion | src/lib/stores/selectedContentStore.js:366-384 | `find` returns a question exactly when one has that id, and it is the first such one: it sits at an index before which no question has that id |
| SelectionModel.WithoutId | src/lib/stores/selectedContentStore.js:374-402 | the filter keeps exactly the questions with another id |
| SelectionModel.WithoutIdUnique | src/lib/stores/selectedContentStore.js:374-402 | filtering keeps the ids unique |
| SelectionModel.RestoreInto | src/lib/stores/selectedContentStore.js:421-425 | the active list is extended, never reordered; every removed id is active afterwards; no other question comes in; unique ids stay unique |
| SelectionModel.Merge | src/lib/stores/selectedContentStore.js:179 | `{...q, ...updates}`: the patch's fields win, the other fields of the question stay |
| SelectionModel.IndexOfId | src/lib/stores/selectedContentStore.js:177 | `findIndex`: the first position with that id, or none when there is none |
| SelectionModel.ClearAll | src/lib/stores/selectedContentStore.js:284-301 | the store is the initial one again |
| SelectionLemmas.InitialCoherent | src/lib/stores/selectedContentStore.js:4-26 | the initial store satisfies the store invariant |
| SelectionLemmas.AddSelectionCoherent | src/lib/stores/selectedContentStore.js:446-637 | `addSelection` keeps the store invariant: well-formed maps, one object per selected chapter shared by its map entry and list element, and every selected chapter in the hierarchy as a real chapter |
| SelectionLemmas.AddSelectionWithContextCoherent | src/lib/stores/selectedContentStore.js:639-722 | `addSelectionWithContext` keeps the store invariant |
| SelectionLemmas.BulkAddCoherent | src/lib/stores/selectedContentStore.js:304-318 | `bulkAddSelections` keeps the store invariant |
| SelectionLemmas.RemoveSelectionCoherent | src/lib/stores/selectedContentStore.js:724-805 | `removeSelection` keeps the store invariant |
| SelectionLemmas.UpdateQuestionCountCoherent | src/lib/stores/selectedContentStore.js:70-128 | `updateQuestionCount` keeps the store invariant |
| SelectionLemmas.AddThenRemoveChapter | src/lib/stores/selectedContentStore.js:729-755 | selecting an unknown chapter and removing it gives back the store, with one object identity used up |
| SelectionLemmas.AddThenRemoveTopic | src/lib/stores/selectedContentStore.js:758-781 | selecting a new topic of a chapter in the hierarchy and removing it gives back the store |
| SelectionLemmas.RemoveChapterCascade | src/lib/stores/selectedContentStore.js:729-755 | removing a chapter takes it, all its topics and all their subtopics out of the hierarchy, the maps and the list, and leaves every other chapter as it was |
| SelectionLemmas.AddChapterEffect | src/lib/stores/selectedContentStore.js:446-466 | selecting a chapter files one object in the hierarchy (with no topics, replacing any earlier entry), in the chapter map and at the end of the list, and adds one chapter and its count to the counters; the topic and subtopic maps stay |
| SelectionLemmas.TopicPlaceholderChapter | src/lib/stores/selectedContentStore.js:477-507 | a topic whose chapter is missing brings in an unselected placeholder chapter with 0 questions, in the hierarchy only, keyed `null` and named "Chapter null" when the topic has no parent code; chapter map and chapter counter stay, and only the topic joins the list and the counters |
| SelectionLemmas.ParentlessTopic | src/lib/stores/selectedContentStore.js:468-510 | a topic with no parent code and no parent data goes into an empty store under a placeholder chapter keyed `null` named "Chapter null", keeping `null` as its parent code; only the topic is selected and counted |
| SelectionLemmas.SubtopicPlaceholders | src/lib/stores/selectedContentStore.js:586-634 | a subtopic whose topic no chapter holds goes under a placeholder topic in the chapter found by lookup, by '_' prefix or "unknown_chapter" (a placeholder when missing); the chapter and topic maps stay and only the subtopic counter and the question total move |
| SelectionLemmas.RemoveUnknownCode | src/lib/stores/selectedContentStore.js:724-805 | a code that is no chapter, topic or subtopic of the hierarchy changes nothing |
| SelectionLemmas.RemoveLeafTopic | src/lib/stores/selectedContentStore.js:758-781 | removing a topic without subtopics takes it out of its chapter, the topic map and the list, and takes one topic and its count off the counters; nothing else changes |
| SelectionLemmas.AddSelectionKeepsTally | src/lib/stores/selectedContentStore.js:446-637 | every add moves the counters exactly as the selection list grows: they stay equal to the count of the list |
| SelectionLemmas.AddSelectionWithContextKeepsTally | src/lib/stores/selectedContentStore.js:639-722 | the same for `addSelectionWithContext` |
| SelectionLemmas.BulkAddKeepsTally | src/lib/stores/selectedContentStore.js:304-318 | the same for `bulkAddSelections` |
| SelectionLemmas.PlaceholderRemovalUndercounts | src/lib/stores/selectedContentStore.js:729-755 | removing a placeholder chapter takes one off a chapter counter that never went up: the counters reach -1 chapters |
| SelectionLemmas.RemoveSelectionStats | src/lib/stores/selectedContentStore.js:724-805 | removing a chapter takes off the counters one chapter, one topic per topic, one subtopic per subtopic and all their questions; a topic, its subtopics and their questions; a subtopic, one subtopic and its questions |
| SelectionLemmas.RemovingLoneTopicChapter | src/lib/stores/selectedContentStore.js:729-755 | removing a chapter with one topic and no subtopics takes one chapter and one topic and both counts off the counters, and both out of the list |
| SelectionLemmas.ChapterQuotaShowsInList | src/lib/stores/selectedContentStore.js:75-84 | a chapter's new quota shows in its list element too, because the list and the map share the object |
| SelectionLemmas.TopicQuotaMissesList | src/lib/stores/selectedContentStore.js:75-84 | a topic's new quota shows in the map and the hierarchy but not in the list, which holds a copy |
| SelectionLemmas.UpdateQuestionCountKeepsSelection | src/lib/stores/selectedContentStore.js:70-128 | a quota update changes no selection, no list length and no counter |
| SelectionLemmas.UpdateQuestionCountSetsQuota | src/lib/stores/selectedContentStore.js:70-128 | the topic and subtopic entries and the first matching hierarchy node show the new quota, the chapter order is kept, and an unknown code leaves the hierarchy as it was |
| SelectionLemmas.SelectedIsLogicallySelected | src/lib/stores/selectedContentStore.js:231-281 | whatever is selected directly is selected logically, at every level |
| SelectionLemmas.TopicOfSelectedChapter | src/lib/stores/selectedContentStore.js:254-263 | a topic held only by a selected chapter counts as selected |
| SelectionLemmas.CodedParents | src/lib/stores/selectedContentStore.js:839-861 | for a code "c_t_s" the inferred topic is "c_t" and the inferred chapter "c" |
| SelectionLemmas.CodedSubtopicSelection | src/lib/stores/selectedContentStore.js:830-865 | with no topics in the hierarchy, "c_t_s" counts as selected exactly when it, "c_t" as a topic or "c" as a chapter is selected |
| SelectionLemmas.SubtopicIntoEmptyStore | src/lib/stores/selectedContentStore.js:564-637 | a subtopic whose topic is unknown and has no '_' lands under a placeholder topic in a placeholder "unknown_chapter", neither of which counts as selected |
| SelectionLemmas.ReselectedChapterOrphansTopics | src/lib/stores/selectedContentStore.js:446-466 | selecting a chapter again empties its hierarchy entry: its topics stay in the topic map but can no longer be removed, and the chapter counter shows 2 |
| SelectionLemmas.MoveQuestionEffect | src/lib/stores/selectedContentStore.js:364-397 | every question with the id leaves the source list; the first is appended to the other list unless that list already has the id; an unknown id moves nothing; neither list gains a repeated id |
| SelectionLemmas.RemoveQuestionEffect | src/lib/stores/selectedContentStore.js:364-379 | after `removeQuestion` the id is no longer active and every other active question stays; the first active question with the id is appended to the removed list, unless the id is already there, in which case the removed list is unchanged; an unknown id changes nothing; unique ids stay unique in both lists |
| SelectionLemmas.RestoreQuestionEffect | src/lib/stores/selectedContentStore.js:382-397 | the mirror image for `restoreQuestion`: out of the removed list, appended to the active list only when its id is not active yet, unique ids stay unique |
| SelectionLemmas.WithoutIdTakesOne | src/lib/stores/selectedContentStore.js:366-374 | with unique ids, the filter takes out exactly the question `find` returned |
| SelectionLemmas.RemoveThenRestore | src/lib/stores/selectedContentStore.js:364-397 | removing then restoring a question gives back the same questions, the restored one last, and the removed list as it was |
| SelectionLemmas.RestoreAllEffect | src/lib/stores/selectedContentStore.js:418-432 | `restoreAllQuestions` empties the removed list, keeps the active list as a prefix, makes every removed id active and keeps ids unique |
| SelectionLemmas.UpdateQuestionTouchesFirstMatch | src/lib/stores/selectedContentStore.js:175-183 | `updateQuestion` changes at most the first question with the id, merging the patch into it; an unknown id changes nothing |
| SelectedContentStore.FindSubtopicTopic | src/lib/stores/selectedContentStore.js:849-853 | the loop finds the first topic of the chapter holding the subtopic |
| SelectedContentStore.FindTopicNode | src/lib/stores/selectedContentStore.js:88-102 | the loop searches a chapter's topics depth first, as `updateInHierarchy` does |
| SelectedContentStore.Find | src/lib/stores/selectedContentStore.js:366-422 | the loop returns `FindQuestion(qs, id)` |
| SelectedContentStore.FindIndex | src/lib/stores/selectedContentStore.js:177 | the loop returns `IndexOfId(qs, id, 0)` |
| SelectedContentStore.Store.constructor | src/lib/stores/selectedContentStore.js:4-26 | the store starts as `Initial()`, which satisfies the invariant |
| SelectedContentStore.Store.FindTopicChapter | src/lib/stores/selectedContentStore.js:578-584 | the loop over the hierarchy returns `TopicChapter` |
| SelectedContentStore.Store.FindSubtopicHome | src/lib/stores/selectedContentStore.js:785-801 | the nested loops return `SubtopicHome` |
| SelectedContentStore.Store.FindNodePath | src/lib/stores/selectedContentStore.js:87-105 | the depth-first loops return `FindNode` |
| SelectedContentStore.Store.GetParentChapterCode | src/lib/stores/selectedContentStore.js:830-844 | returns `ParentChapterCode` |
| SelectedContentStore.Store.GetParentTopicCode | src/lib/stores/selectedContentStore.js:846-865 | returns `ParentTopicCode` |
| SelectedContentStore.Store.AddChapter | src/lib/stores/selectedContentStore.js:446-466 | the store becomes `AddChapter(old store, n)` and keeps its invariant |
| SelectedContentStore.Store.AddTopic | src/lib/stores/selectedContentStore.js:468-510 | the store becomes `AddTopic(old store, …)` and keeps its invariant |
| SelectedContentStore.Store.AddTopicWithContext | src/lib/stores/selectedContentStore.js:512-562 | the store becomes `AddTopicWithContext(old store, …)` and keeps its invariant |
| SelectedContentStore.Store.AddSubtopic | src/lib/stores/selectedContentStore.js:564-637 | the store becomes `AddSubtopic(old store, …)` and keeps its invariant |
| SelectedContentStore.Store.AddSubtopicWithContext | src/lib/stores/selectedContentStore.js:639-722 | the store becomes `AddSubtopicWithContext(old store, …)` and keeps its invariant |
| SelectedContentStore.Store.AddSelection | src/lib/stores/selectedContentStore.js:32-60 | the store becomes `AddSelection(old store, …)` and keeps its invariant |
| SelectedContentStore.Store.AddSelectionWithContext | src/lib/stores/selectedContentStore.js:321-349 | the store becomes `AddSelectionWithContext(old store, …)` and keeps its invariant |
| SelectedContentStore.Store.BulkAddSelections | src/lib/stores/selectedContentStore.js:304-318 | the loop adds the items in turn: the store becomes `BulkAdd(old store, items)` and keeps its invariant |
| SelectedContentStore.Store.StoreChapterMetadata | src/lib/stores/selectedContentStore.js:352-361 | only the chapter metadata changes, and the invariant holds |
| SelectedContentStore.Store.DropSubtopicsOf | src/lib/stores/selectedContentStore.js:740-745 | the loop drops the subtopics one after the other: `DropSubtopics` |
| SelectedContentStore.Store.DropTopicsOf | src/lib/stores/selectedContentStore.js:733-746 | the loop drops the topics, each with its subtopics: `DropTopics` |
| SelectedContentStore.Store.RemoveChapterAt | src/lib/stores/selectedContentStore.js:729-755 | the chapter branch: `RemoveChapter(old store, code)` |
| SelectedContentStore.Store.RemoveTopicAt | src/lib/stores/selectedContentStore.js:759-780 | the topic branch: `RemoveTopic(old store, c, t)` |
| SelectedContentStore.Store.RemoveSubtopicAt | src/lib/stores/selectedContentStore.js:785-801 | the subtopic branch: `RemoveSubtopic(old store, c, t, st)` |
| SelectedContentStore.Store.RemoveSelection | src/lib/stores/selectedContentStore.js:724-805 | the store becomes `RemoveSelection(old store, code)` and keeps its invariant |
| SelectedContentStore.Store.UpdateQuestionCount | src/lib/stores/selectedContentStore.js:70-128 | the store becomes `UpdateQuestionCount(old store, code, q)` and keeps its invariant |
| SelectedContentStore.Store.IsSelected | src/lib/stores/selectedContentStore.js:231-248 | membership in the map of the given level, or in any of the three maps for any other level |
| SelectedContentStore.Store.IsLogicallySelected | src/lib/stores/selectedContentStore.js:251-281 | returns `IsLogicallySelected` of the current store |
| SelectedContentStore.Store.SetQuestions | src/lib/stores/selectedContentStore.js:131-136 | the store becomes `SetQuestions(old store, qs)` |
| SelectedContentStore.Store.AddQuestion | src/lib/stores/selectedContentStore.js:139-144 | the store becomes `AddQuestion(old store, q)` |
| SelectedContentStore.Store.RemoveQuestion | src/lib/stores/selectedContentStore.js:364-379 | the store becomes `RemoveQuestion(old store, id)` |
| SelectedContentStore.Store.RestoreQuestion | src/lib/stores/selectedContentStore.js:382-397 | the store becomes `RestoreQuestion(old store, id)` |
| SelectedContentStore.Store.PermanentlyDeleteQuestion | src/lib/stores/selectedContentStore.js:400-406 | the store becomes `PermanentlyDeleteQuestion(old store, id)` |
| SelectedContentStore.Store.ClearRemovedQuestions | src/lib/stores/selectedContentStore.js:409-415 | the store becomes `ClearRemovedQuestions(old store)` |
| SelectedContentStore.Store.RestoreAllQuestions | src/lib/stores/selectedContentStore.js:418-432 | the store becomes `RestoreAllQuestions(old store)`: the removed questions are back, the removed list is empty, and the store stays valid |
| SelectedContentStore.Store.RestoreEach | src/lib/stores/selectedContentStore.js:421-425 | the `forEach` loop appends each removed question whose id is not yet active, giving `RestoreInto(old list, removed)`; nothing else changes |
| SelectedContentStore.Store.UpdateQuestion | src/lib/stores/selectedContentStore.js:175-183 | the store becomes `UpdateQuestion(old store, id, p)` |
| SelectedContentStore.Store.ClearAll | src/lib/stores/selectedContentStore.js:284-301 | the store is the initial one again |

## Left out

- The route handlers under `src/routes/` and the proxies under `src/routes/apis/` are outside the model: they forward requests and render pages.
- `apiCall` and the `api.*` methods other than `adminUpdatePasswords` are left out. Each one only builds a URL and makes a network call.
- `formatUser` in `api.js` is left out. It only renames fields for display.
- The object literal in `api.js` declares the key `questions` twice (lines 271 and 336). The model does not cover those network methods, so it does not model which of the two wins.
- `handleRedirection` and `apiBatch` in `helper.js` are left out: they navigate and fetch.
- `formatDDMMYYYY` in `helper.js` is left out. It depends on `Date` parsing of a string.
- The subject colour and icon tables in `helper.js` are left out. They are constant look-ups with no rule to state.
- The browser branch of `decodeHTMLEntities` (`textUtils.js:12-16`) is left out. It uses a DOM `textarea`; only the server branch is modelled.
- TextUtils.Decoded: only the ASCII entries of the entity table are modelled. The entries for non-ASCII characters, and the case-insensitive matching of `/gi` on them, are left out.
- Date construction and its getters (`dateUtils.js:11-37`) are inputs. The model takes the date components as given, and an invalid date as `None`.
- DateUtils.FormatDate: the as-written chain is modelled in full, but the only wrong output proved about it is the January one. Other month and day names are rescanned too, for example "Mar" and "Wednesday".
- Timestamps are not modelled. This covers `selectedAt` and `lastUpdated` in the selection store, and `timeTaken`, `completedAt` and the remark time in the quiz store.
- Api.GenerateStrongPassword: `Math.random` is replaced by the choices it makes. These are the character picks and the swaps of the random-comparator sort, so the result is stated for every sequence of choices rather than for their distribution.
- QuizStore.Percentage is a real number, not an IEEE double. The rounding by `Math.round(x * 100) / 100` is modelled as the floor of `x * 100 + 1/2`, over the reals.
- Numbers read with `parseInt` in `apiPayLoadStore.js` are integers in the model. `JsValue` numbers are integers as well: no fractional or `NaN` value is modelled.
- The Svelte `writable` / `subscribe` plumbing and all console logging are left out. A store is its current value.
- The selection store's getters (`getChapterHierarchy`, `getHierarchy`, `getSelections`, `getQuestions`, `getStats`, `getExcludedQuestions`, `getRemovedQuestions`) are left out. Each only returns one field, and the fields of `SelectedContentStore.Store` are public.
- `findItemInHierarchy` (`selectedContentStore.js:807-828`) is never called and is left out.
- The first definition of `removeQuestion` (`selectedContentStore.js:147-164`) is overridden by the second (line 364) and is left out. As a result nothing writes `excludedQuestions`: it stays empty, as the model keeps it.
- The order of `Object.entries` on a JavaScript object is given as the order of a sequence. JavaScript puts integer-like keys first.
- SelectionModel.NullKey: a JavaScript `Map` can be keyed by `null`, a string cannot. The model uses the string "null" for that key: a parentless topic's placeholder chapter ("Chapter null") and a parentless context subtopic's placeholder topic ("Topic null") are filed under it. A real chapter or topic whose code is the string "null" would share that key in the model, while the source keeps the two apart.
- SelectionModel.BulkAdd files an item without any `parent_code` under the same "null" key. In the source such an item keeps `parent_code` undefined, so its placeholder chapter is keyed `undefined` and named "Chapter undefined".
- SelectedContentStore.Store.AddSubtopic requires a parent topic code, and so does `SelectionModel.AddSubtopic`. Without one, the source looks for a topic keyed `null`. If none exists, `getParentChapterCode(null)` throws on `null.includes`. The case where a topic keyed `null` already exists, and the subtopic is filed under it, is not covered.
- SelectedContentStore.Store.AddSelection and `SelectionModel.CanAdd` make the same demand of a subtopic selection, as do `SelectedContentStore.Store.BulkAddSelections` and `SelectionModel.BulkReady` of a subtopic item. Topics need no parent code.
- SelectionModel.BulkReady also demands a `question_count` on every item. Without one, the source adds `undefined` to the counters, which become NaN; NaN counters are not modelled.
- SelectedContentStore.Store.AddSubtopicWithContext, `SelectedContentStore.Store.AddSelectionWithContext` and `SelectionModel.CanAddSubtopicWithContext` require a topic code or a truthy context chapter. With neither, the source throws in the same way, unless a topic keyed `null` already exists, which is not covered.
- SelectedContentStore.Store.IsLogicallySelected requires that a subtopic which is not selected itself has an inferable parent topic. Without one, the source calls `includes` on `null` inside `getParentChapterCode` and throws.
- ApiPayloadStore.ExamDetails lower-cases only the ASCII capitals A-Z of the chosen mode. JavaScript's `toLowerCase` also lowers every other cased Unicode character.
- SelectionModel.BulkNode requires every bulk item to carry a question count. A missing count gives `NaN` in the source, and numbers here are integers.
- `authStore`, the constants files, `apiClient` and the layouts hold no logic beyond storing or forwarding values, and are left out.
- Api.EncodeURIComponent: a lone surrogate cannot occur in a Dafny string, so the `URIError` path of `encodeURIComponent` is not modelled.

## Findings

| source | as written | input that shows it | evidently intended | confidence | as-written member | corrected member |
|---|---|---|---|---|---|---|
| src/lib/utils/dateUtils.js:44-59 | the chained replacements rescan text already inserted, so the AM/PM step rewrites the "a" of the month name "Jan" | any January date with the default format "MMM d, yyyy", e.g. 5 January 2024 at 09:00, gives "JAMn 5, 2024" | "Jan 5, 2024": each token replaced once, in the format only | not executed | DateUtils.DefaultFormatJanuaryAsWritten | DateUtils.DefaultFormatFixed |
