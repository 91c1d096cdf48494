/** FromWhereSpecification: matches a document whose "From" metadata value
    satisfies the `From` pattern, and reports an unset `From`. */
module FromWhere {
  import opened Mapex
  import opened Notus
  import FieldConjunction

  const FromNotSpecified := "From value has not been specified."

  /** `From` is None when the property is null. */
  datatype FromWhereSpecification = FromWhereSpecification(From: Option<string>)
  {
    /** A null document is a caller error, signalled by ArgumentNullException and
        never by a false result; a null map or a missing "From" key gives false
        before the pattern is looked at. */
    function Matches(document: Option<Document>, engine: RegexEngine): (r: Outcome)
      ensures document.None? ==> r == Throws(ArgumentNullException("document"))
      ensures document.Some? && document.value.metadata.None? ==> r == Returns(false)
      ensures (document.Some? && document.value.metadata.Some? &&
               "From" !in document.value.metadata.value) ==> r == Returns(false)
      ensures (document.Some? && document.value.metadata.Some? &&
               "From" in document.value.metadata.value)
                ==> r == RegexIsMatch(engine, From, document.value.metadata.value["From"])
      ensures r == Returns(true) <==>
                document.Some? && document.value.metadata.Some? &&
                Satisfies(document.value.metadata.value, "From", From, engine)
      ensures r != Throws(NullReferenceException)
    {
      if document.None? then Throws(ArgumentNullException("document"))
      else AndAlso(Returns(document.value.metadata.Some?), KeyMatches(document, "From", From, engine))
    }

    /** The messages Validate appends: the From message exactly when `From` is
        null or empty. */
    function ValidationErrors(): (r: seq<string>)
      ensures FromNotSpecified in r <==> IsNullOrEmpty(From)
      ensures r == [] <==> !IsNullOrEmpty(From)
      ensures |r| <= 1
    {
      if IsNullOrEmpty(From) then [FromNotSpecified] else []
    }

    /** Adds the errors to the notification, keeping what it held before. */
    method Validate(notification: Notification)
      modifies notification
      ensures notification.errors == old(notification.errors) + ValidationErrors()
    {
      if IsNullOrEmpty(From) {
        notification.AddError(FromNotSpecified);
      }
    }

    /** The specification as a list of criteria. */
    function Criteria(): seq<FieldConjunction.Criterion> {
      [FieldConjunction.Criterion("From", From)]
    }
  }

  /** The From specification is the one-criterion conjunction. */
  lemma MatchesAgreesWithCriteria(spec: FromWhereSpecification, document: Option<Document>, engine: RegexEngine)
    ensures spec.Matches(document, engine) == FieldConjunction.Matches(spec.Criteria(), document, engine)
  {
    assert spec.Criteria()[1..] == [];
    assert FieldConjunction.AllMatch(spec.Criteria()[1..], document, engine) == Returns(true);
  }

  /** Its validation messages are those of the one-criterion list. */
  lemma ValidationAgreesWithCriteria(spec: FromWhereSpecification)
    ensures spec.ValidationErrors() == FieldConjunction.MissingErrors(spec.Criteria())
  {
    assert spec.Criteria()[1..] == [];
    assert FromNotSpecified == FieldConjunction.NotSpecified("From");
  }

  /** A specification whose Validate adds no error never hands a null pattern
      to the regex constructor in Matches. */
  lemma ValidatedNeverNullPattern(spec: FromWhereSpecification, document: Option<Document>, engine: RegexEngine)
    ensures spec.ValidationErrors() == [] ==> spec.Matches(document, engine) != Throws(ArgumentNullException("pattern"))
  {
    MatchesAgreesWithCriteria(spec, document, engine);
    ValidationAgreesWithCriteria(spec);
    FieldConjunction.ValidatedNeverNullPattern(spec.Criteria(), document, engine);
  }
}
