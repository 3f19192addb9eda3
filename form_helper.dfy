/**
 * The two form validators of the question-bank screens.  Each checks its fields in a fixed order
 * and reports only the first failure; a form that passes every check is valid and carries no error.
 * Form fields are arbitrary JavaScript values judged by truthiness; names are strings that may be
 * absent and are examined after `trim()`.
 */
module FormHelper {
  import opened Wrappers
  import opened JsText
  import opened JsValue

  datatype Validation = Validation(isValid: bool, error: Option<string>)

  const Valid := Validation(true, None)

  function Invalid(message: string): (r: Validation)
    ensures !r.isValid && r.error == Some(message)
  {
    Validation(false, Some(message))
  }

  /** `s && s.trim()` is truthy: the name is present and not only white space */
  predicate NameGiven(s: Option<string>) {
    s.Some? && Trim(s.value) != ""
  }

  lemma NameGivenIffNotBlank(s: Option<string>)
    ensures NameGiven(s) <==> s.Some? && !AllSpace(s.value)
  {
    if s.Some? {
      TrimEmptyIffAllSpace(s.value);
    }
  }

  const SubjectNameMissing := "Subject name is required."
  const SubjectStandardMissing := "Standard is required to create a subject."
  const SubjectMediumMissing := "Medium is required to create a subject."

  predicate Has(formData: map<string, Json>, key: string) {
    IsTruthy(Get(formData, key))
  }

  /** `validateSubjectCreation(subjectName, formData)` */
  function ValidateSubjectCreation(subjectName: Option<string>, formData: map<string, Json>): (r: Validation)
    ensures r.isValid <==> r.error.None?
    ensures r.isValid <==> NameGiven(subjectName) && Has(formData, "standard") && Has(formData, "medium_code")
    ensures r.error == Some(SubjectNameMissing) <==> subjectName.None? || AllSpace(subjectName.value)
    ensures r.error == Some(SubjectStandardMissing) <==> NameGiven(subjectName) && !Has(formData, "standard")
    ensures r.error == Some(SubjectMediumMissing) <==>
              NameGiven(subjectName) && Has(formData, "standard") && !Has(formData, "medium_code")
  {
    NameGivenIffNotBlank(subjectName);
    if !NameGiven(subjectName) then Invalid(SubjectNameMissing)
    else if !Has(formData, "standard") then Invalid(SubjectStandardMissing)
    else if !Has(formData, "medium_code") then Invalid(SubjectMediumMissing)
    else Valid
  }

  /** The taxonomy fields in the order they are checked, and the message for each */
  const TaxonomyFields: seq<string> := ["state_id", "board_id", "medium_code", "standard", "subject_code"]
  const TaxonomyMessages: seq<string> := [
    "State is required to create taxonomy items.",
    "Board is required to create taxonomy items.",
    "Medium is required to create taxonomy items.",
    "Standard is required to create taxonomy items.",
    "Subject is required to create taxonomy items."
  ]
  const NoItemName := "At least one item name is required."

  /** The names of the taxonomy items to create */
  datatype NewItemData = NewItemData(chapterName: Option<string>, topicName: Option<string>, subtopicName: Option<string>)

  predicate HasAnyName(names: NewItemData) {
    NameGiven(names.chapterName) || NameGiven(names.topicName) || NameGiven(names.subtopicName)
  }

  /** The message of the first falsy field from position `i` on, if any */
  function FirstMissingField(formData: map<string, Json>, i: nat): (r: Option<string>)
    requires i <= |TaxonomyFields|
    ensures r.None? <==> forall k :: i <= k < |TaxonomyFields| ==> Has(formData, TaxonomyFields[k])
    ensures r.Some? ==> exists k :: i <= k < |TaxonomyFields| && r.value == TaxonomyMessages[k] &&
                          !Has(formData, TaxonomyFields[k]) &&
                          forall j :: i <= j < k ==> Has(formData, TaxonomyFields[j])
    decreases |TaxonomyFields| - i
  {
    if i == |TaxonomyFields| then None
    else if !Has(formData, TaxonomyFields[i]) then Some(TaxonomyMessages[i])
    else FirstMissingField(formData, i + 1)
  }

  /** `validateTaxonomyCreation(formData, newItemData)` */
  function ValidateTaxonomyCreation(formData: map<string, Json>, names: NewItemData): (r: Validation)
    ensures r.isValid <==> r.error.None?
    ensures r.isValid <==> (forall k :: 0 <= k < |TaxonomyFields| ==> Has(formData, TaxonomyFields[k])) && HasAnyName(names)
    ensures r.error == Some(NoItemName) <==>
              (forall k :: 0 <= k < |TaxonomyFields| ==> Has(formData, TaxonomyFields[k])) && !HasAnyName(names)
    ensures forall k :: 0 <= k < |TaxonomyFields| ==>
              (r.error == Some(TaxonomyMessages[k]) <==>
                 !Has(formData, TaxonomyFields[k]) && forall j :: 0 <= j < k ==> Has(formData, TaxonomyFields[j]))
  {
    var missing := FirstMissingField(formData, 0);
    if missing.Some? then Invalid(missing.value)
    else if !HasAnyName(names) then Invalid(NoItemName)
    else Valid
  }

  /** Name checks look past surrounding white space: a name of spaces and newlines counts as missing. */
  lemma BlankNamesRejected(formData: map<string, Json>, names: NewItemData)
    requires forall k :: 0 <= k < |TaxonomyFields| ==> Has(formData, TaxonomyFields[k])
    requires names.chapterName.None? || AllSpace(names.chapterName.value)
    requires names.topicName.None? || AllSpace(names.topicName.value)
    requires names.subtopicName.None? || AllSpace(names.subtopicName.value)
    ensures ValidateTaxonomyCreation(formData, names) == Invalid(NoItemName)
  {
    NameGivenIffNotBlank(names.chapterName);
    NameGivenIffNotBlank(names.topicName);
    NameGivenIffNotBlank(names.subtopicName);
  }
}
