/** FromSubjectWhereSpecification: the From specification narrowed by a
    "Subject" criterion, tested only after the From test returned true. */
module FromSubjectWhere {
  import opened Mapex
  import opened Notus
  import FieldConjunction
  import FromWhere

  const SubjectNotSpecified := "Subject value has not been specified."

  datatype FromSubjectWhereSpecification = FromSubjectWhereSpecification(From: Option<string>, Subject: Option<string>)
  {
    /** The same object seen as the FromWhereSpecification it extends. */
    function Base(): (b: FromWhere.FromWhereSpecification)
      ensures b.From == From
    {
      FromWhere.FromWhereSpecification(From)
    }

    /** `base.Matches(document) && <"Subject" criterion>`: a true result implies
        the base's, anything else the base returns or throws is passed on
        unchanged, and the "Subject" key and pattern are only looked at after
        the base returned true. */
    function Matches(document: Option<Document>, engine: RegexEngine): (r: Outcome)
      ensures document.None? ==> r == Throws(ArgumentNullException("document"))
      ensures r == Returns(true) ==> Base().Matches(document, engine) == Returns(true)
      ensures Base().Matches(document, engine) != Returns(true) ==> r == Base().Matches(document, engine)
      ensures Base().Matches(document, engine) == Returns(true) ==>
                r == (if "Subject" in document.value.metadata.value
                      then RegexIsMatch(engine, Subject, document.value.metadata.value["Subject"])
                      else Returns(false))
      ensures document.Some? && document.value.metadata.None? ==> r == Returns(false)
      ensures (document.Some? && document.value.metadata.Some? &&
               "From" !in document.value.metadata.value) ==> r == Returns(false)
      ensures (document.Some? && document.value.metadata.Some? &&
               "Subject" !in document.value.metadata.value && !Base().Matches(document, engine).Throws?)
                ==> r == Returns(false)
      ensures r == Returns(true) <==>
                document.Some? && document.value.metadata.Some? &&
                Satisfies(document.value.metadata.value, "From", From, engine) &&
                Satisfies(document.value.metadata.value, "Subject", Subject, engine)
      ensures r != Throws(NullReferenceException)
    {
      AndAlso(Base().Matches(document, engine), KeyMatches(document, "Subject", Subject, engine))
    }

    /** The messages Validate appends: the base's first, then the Subject
        message exactly when `Subject` is null or empty. */
    function ValidationErrors(): (r: seq<string>)
      ensures Base().ValidationErrors() <= r
      ensures FromWhere.FromNotSpecified in r <==> IsNullOrEmpty(From)
      ensures SubjectNotSpecified in r <==> IsNullOrEmpty(Subject)
      ensures r == [] <==> !IsNullOrEmpty(From) && !IsNullOrEmpty(Subject)
      ensures IsNullOrEmpty(From) && IsNullOrEmpty(Subject) ==>
                r == [FromWhere.FromNotSpecified, SubjectNotSpecified]
      ensures IsNullOrEmpty(From) && !IsNullOrEmpty(Subject) ==> r == [FromWhere.FromNotSpecified]
      ensures !IsNullOrEmpty(From) && IsNullOrEmpty(Subject) ==> r == [SubjectNotSpecified]
      ensures |r| <= 2
    {
      Base().ValidationErrors() + if IsNullOrEmpty(Subject) then [SubjectNotSpecified] else []
    }

    /** Runs the base validation, then adds the Subject message if it is due. */
    method Validate(notification: Notification)
      modifies notification
      ensures notification.errors == old(notification.errors) + ValidationErrors()
    {
      Base().Validate(notification);
      if IsNullOrEmpty(Subject) {
        notification.AddError(SubjectNotSpecified);
      }
    }

    /** The specification as a list of criteria: the base's, then "Subject". */
    function Criteria(): seq<FieldConjunction.Criterion> {
      Base().Criteria() + [FieldConjunction.Criterion("Subject", Subject)]
    }
  }

  /** A missing key gives false unless the From test threw, and the pattern
      of a field whose key is missing is never reached: setting it to null
      changes nothing. A missing "From" key gives false outright. */
  lemma MissingKeyPatternNotReached(spec: FromSubjectWhereSpecification, document: Option<Document>,
                                    engine: RegexEngine)
    requires document.Some? && document.value.metadata.Some?
    ensures "From" !in document.value.metadata.value ==> spec.Matches(document, engine) == Returns(false)
    ensures "Subject" !in document.value.metadata.value ==>
              spec.Matches(document, engine) == spec.(Subject := None).Matches(document, engine) &&
              spec.Matches(document, engine) != Returns(true)
  {
  }

  /** The From+Subject specification is the conjunction of its two criteria,
      tested in the order From, Subject. */
  lemma MatchesAgreesWithCriteria(spec: FromSubjectWhereSpecification, document: Option<Document>,
                                  engine: RegexEngine)
    ensures spec.Matches(document, engine) == FieldConjunction.Matches(spec.Criteria(), document, engine)
  {
    FromWhere.MatchesAgreesWithCriteria(spec.Base(), document, engine);
    FieldConjunction.AllMatchSnoc(spec.Base().Criteria(), FieldConjunction.Criterion("Subject", spec.Subject),
                                  document, engine);
  }

  lemma SubjectMessage()
    ensures SubjectNotSpecified == FieldConjunction.NotSpecified("Subject")
  {
  }

  /** Its validation messages are those of its criteria, From's first. */
  lemma ValidationAgreesWithCriteria(spec: FromSubjectWhereSpecification)
    ensures spec.ValidationErrors() == FieldConjunction.MissingErrors(spec.Criteria())
  {
    SubjectMessage();
    FromWhere.ValidationAgreesWithCriteria(spec.Base());
    FieldConjunction.MissingErrorsSnoc(spec.Base().Criteria(), FieldConjunction.Criterion("Subject", spec.Subject));
  }

  /** A specification whose Validate adds no error never hands a null pattern
      to the regex constructor in Matches. */
  lemma ValidatedNeverNullPattern(spec: FromSubjectWhereSpecification, document: Option<Document>, engine: RegexEngine)
    ensures spec.ValidationErrors() == [] ==> spec.Matches(document, engine) != Throws(ArgumentNullException("pattern"))
  {
    MatchesAgreesWithCriteria(spec, document, engine);
    ValidationAgreesWithCriteria(spec);
    FieldConjunction.ValidatedNeverNullPattern(spec.Criteria(), document, engine);
  }
}
