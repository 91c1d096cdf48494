/** FromSubjectAttachmentWhereSpecification: the From+Subject specification
    narrowed by an "Attachment" criterion, tested only after the From+Subject
    test returned true. */
module FromSubjectAttachmentWhere {
  import opened Mapex
  import opened Notus
  import FieldConjunction
  import FromWhere
  import FromSubjectWhere

  const AttachmentNotSpecified := "Attachment value has not been specified."

  datatype FromSubjectAttachmentWhereSpecification =
    FromSubjectAttachmentWhereSpecification(From: Option<string>, Subject: Option<string>, Attachment: Option<string>)
  {
    /** The same object seen as the FromSubjectWhereSpecification it extends. */
    function Base(): (b: FromSubjectWhere.FromSubjectWhereSpecification)
      ensures b.From == From && b.Subject == Subject
    {
      FromSubjectWhere.FromSubjectWhereSpecification(From, Subject)
    }

    /** `base.Matches(document) && <"Attachment" criterion>`: a true result
        implies the base's, anything else the base returns or throws is passed
        on unchanged, and the "Attachment" key and pattern are only looked at
        after the base returned true. */
    function Matches(document: Option<Document>, engine: RegexEngine): (r: Outcome)
      ensures document.None? ==> r == Throws(ArgumentNullException("document"))
      ensures r == Returns(true) ==> Base().Matches(document, engine) == Returns(true)
      ensures Base().Matches(document, engine) != Returns(true) ==> r == Base().Matches(document, engine)
      ensures Base().Matches(document, engine) == Returns(true) ==>
                r == (if "Attachment" in document.value.metadata.value
                      then RegexIsMatch(engine, Attachment, document.value.metadata.value["Attachment"])
                      else Returns(false))
      ensures document.Some? && document.value.metadata.None? ==> r == Returns(false)
      ensures r == Returns(true) <==>
                document.Some? && document.value.metadata.Some? &&
                Satisfies(document.value.metadata.value, "From", From, engine) &&
                Satisfies(document.value.metadata.value, "Subject", Subject, engine) &&
                Satisfies(document.value.metadata.value, "Attachment", Attachment, engine)
      ensures r != Throws(NullReferenceException)
    {
      AndAlso(Base().Matches(document, engine), KeyMatches(document, "Attachment", Attachment, engine))
    }

    /** The messages Validate appends: the base's first (From, then Subject),
        then the Attachment message exactly when `Attachment` is null or empty. */
    function ValidationErrors(): (r: seq<string>)
      ensures Base().ValidationErrors() <= r
      ensures FromWhere.FromNotSpecified in r <==> IsNullOrEmpty(From)
      ensures FromSubjectWhere.SubjectNotSpecified in r <==> IsNullOrEmpty(Subject)
      ensures AttachmentNotSpecified in r <==> IsNullOrEmpty(Attachment)
      ensures r == [] <==> !IsNullOrEmpty(From) && !IsNullOrEmpty(Subject) && !IsNullOrEmpty(Attachment)
      ensures IsNullOrEmpty(From) && IsNullOrEmpty(Subject) && IsNullOrEmpty(Attachment) ==>
                r == [FromWhere.FromNotSpecified, FromSubjectWhere.SubjectNotSpecified, AttachmentNotSpecified]
      ensures IsNullOrEmpty(From) && IsNullOrEmpty(Subject) && !IsNullOrEmpty(Attachment) ==>
                r == [FromWhere.FromNotSpecified, FromSubjectWhere.SubjectNotSpecified]
      ensures IsNullOrEmpty(From) && !IsNullOrEmpty(Subject) && IsNullOrEmpty(Attachment) ==>
                r == [FromWhere.FromNotSpecified, AttachmentNotSpecified]
      ensures !IsNullOrEmpty(From) && IsNullOrEmpty(Subject) && IsNullOrEmpty(Attachment) ==>
                r == [FromSubjectWhere.SubjectNotSpecified, AttachmentNotSpecified]
      ensures IsNullOrEmpty(From) && !IsNullOrEmpty(Subject) && !IsNullOrEmpty(Attachment) ==>
                r == [FromWhere.FromNotSpecified]
      ensures !IsNullOrEmpty(From) && IsNullOrEmpty(Subject) && !IsNullOrEmpty(Attachment) ==>
                r == [FromSubjectWhere.SubjectNotSpecified]
      ensures !IsNullOrEmpty(From) && !IsNullOrEmpty(Subject) && IsNullOrEmpty(Attachment) ==>
                r == [AttachmentNotSpecified]
      ensures |r| <= 3
    {
      Base().ValidationErrors() + if IsNullOrEmpty(Attachment) then [AttachmentNotSpecified] else []
    }

    /** Runs the From+Subject validation, then adds the Attachment message if
        it is due. */
    method Validate(notification: Notification)
      modifies notification
      ensures notification.errors == old(notification.errors) + ValidationErrors()
    {
      Base().Validate(notification);
      if IsNullOrEmpty(Attachment) {
        notification.AddError(AttachmentNotSpecified);
      }
    }

    /** The specification as a list of criteria: the base's, then "Attachment". */
    function Criteria(): seq<FieldConjunction.Criterion> {
      Base().Criteria() + [FieldConjunction.Criterion("Attachment", Attachment)]
    }
  }

  /** A missing key gives false unless an earlier field threw, and the
      pattern of a field whose key is missing is never reached: setting it to
      null changes nothing. A missing "From" key gives false outright. */
  lemma MissingKeyPatternNotReached(spec: FromSubjectAttachmentWhereSpecification, document: Option<Document>,
                                    engine: RegexEngine)
    requires document.Some? && document.value.metadata.Some?
    ensures "From" !in document.value.metadata.value ==> spec.Matches(document, engine) == Returns(false)
    ensures "Subject" !in document.value.metadata.value ==>
              spec.Matches(document, engine) == spec.(Subject := None).Matches(document, engine) &&
              spec.Matches(document, engine) != Returns(true)
    ensures "Attachment" !in document.value.metadata.value ==>
              spec.Matches(document, engine) == spec.(Attachment := None).Matches(document, engine) &&
              spec.Matches(document, engine) != Returns(true)
  {
  }

  /** The three-field specification is the conjunction of its criteria, tested
      in the order From, Subject, Attachment. */
  lemma MatchesAgreesWithCriteria(spec: FromSubjectAttachmentWhereSpecification, document: Option<Document>,
                                  engine: RegexEngine)
    ensures spec.Matches(document, engine) == FieldConjunction.Matches(spec.Criteria(), document, engine)
  {
    FromSubjectWhere.MatchesAgreesWithCriteria(spec.Base(), document, engine);
    FieldConjunction.AllMatchSnoc(spec.Base().Criteria(), FieldConjunction.Criterion("Attachment", spec.Attachment),
                                  document, engine);
  }

  lemma AttachmentMessage()
    ensures AttachmentNotSpecified == FieldConjunction.NotSpecified("Attachment")
  {
  }

  /** Its validation messages are those of its criteria, in field order. */
  lemma ValidationAgreesWithCriteria(spec: FromSubjectAttachmentWhereSpecification)
    ensures spec.ValidationErrors() == FieldConjunction.MissingErrors(spec.Criteria())
  {
    AttachmentMessage();
    FromSubjectWhere.ValidationAgreesWithCriteria(spec.Base());
    FieldConjunction.MissingErrorsSnoc(spec.Base().Criteria(),
                                       FieldConjunction.Criterion("Attachment", spec.Attachment));
  }

  /** A specification whose Validate adds no error never hands a null pattern
      to the regex constructor in Matches. */
  lemma ValidatedNeverNullPattern(spec: FromSubjectAttachmentWhereSpecification, document: Option<Document>, engine: RegexEngine)
    ensures spec.ValidationErrors() == [] ==> spec.Matches(document, engine) != Throws(ArgumentNullException("pattern"))
  {
    MatchesAgreesWithCriteria(spec, document, engine);
    ValidationAgreesWithCriteria(spec);
    FieldConjunction.ValidatedNeverNullPattern(spec.Criteria(), document, engine);
  }
}
