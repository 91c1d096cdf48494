/** A reference definition of a where specification that does not rely on
    class layering: a list of (key, pattern) criteria tested left to right and
    joined by a short-circuit `&&`, and the validation messages such a list
    produces. Each of the three specifications is proved to agree with it. */
module FieldConjunction {
  import opened Mapex

  /** One field criterion: a metadata key and the pattern its value must satisfy. */
  datatype Criterion = Criterion(key: string, pattern: Option<string>)

  predicate Holds(c: Criterion, m: Metadata, engine: RegexEngine) {
    Satisfies(m, c.key, c.pattern, engine)
  }

  /** The criteria joined by `&&`, the first one tested first. */
  function AllMatch(criteria: seq<Criterion>, document: Option<Document>, engine: RegexEngine): (r: Outcome)
    ensures r == Returns(true) ==>
              forall i :: 0 <= i < |criteria| ==>
                KeyMatches(document, criteria[i].key, criteria[i].pattern, engine) == Returns(true)
    ensures r != Returns(true) ==>
              exists i :: 0 <= i < |criteria| &&
                r == KeyMatches(document, criteria[i].key, criteria[i].pattern, engine)
  {
    if criteria == [] then Returns(true)
    else AndAlso(KeyMatches(document, criteria[0].key, criteria[0].pattern, engine),
                 AllMatch(criteria[1..], document, engine))
  }

  /** A null document is rejected, a null metadata map gives false, and only
      then are the criteria tested. */
  function Matches(criteria: seq<Criterion>, document: Option<Document>, engine: RegexEngine): (r: Outcome)
    ensures document.None? ==> r == Throws(ArgumentNullException("document"))
    ensures document.Some? && document.value.metadata.None? ==> r == Returns(false)
  {
    if document.None? then Throws(ArgumentNullException("document"))
    else AndAlso(Returns(document.value.metadata.Some?), AllMatch(criteria, document, engine))
  }

  /** The index of the first criterion the metadata does not satisfy, or the
      number of criteria when it satisfies them all. */
  function FirstUnsatisfied(criteria: seq<Criterion>, m: Metadata, engine: RegexEngine): (k: nat)
    ensures k <= |criteria|
    ensures forall j :: 0 <= j < k ==> Holds(criteria[j], m, engine)
    ensures k < |criteria| ==> !Holds(criteria[k], m, engine)
  {
    if criteria == [] || !Holds(criteria[0], m, engine) then 0
    else 1 + FirstUnsatisfied(criteria[1..], m, engine)
  }

  /** Appending a criterion is the same as joining one more `&&` on the right,
      so `(a && b) && c` and the list [a, b, c] agree. */
  lemma {:induction false} AllMatchSnoc(criteria: seq<Criterion>, c: Criterion,
                                        document: Option<Document>, engine: RegexEngine)
    ensures AllMatch(criteria + [c], document, engine)
         == AndAlso(AllMatch(criteria, document, engine), KeyMatches(document, c.key, c.pattern, engine))
  {
    if criteria == [] {
      assert [] + [c] == [c];
    } else {
      assert (criteria + [c])[1..] == criteria[1..] + [c];
      AllMatchSnoc(criteria[1..], c, document, engine);
    }
  }

  /** Over a non-null map, the outcome is that of the first criterion that is not
      satisfied; no criterion after it is looked at, so its pattern may be null. */
  lemma {:induction false} AllMatchDecidedByFirstUnsatisfied(criteria: seq<Criterion>,
                                                             document: Option<Document>, engine: RegexEngine)
    requires document.Some? && document.value.metadata.Some?
    ensures var k := FirstUnsatisfied(criteria, document.value.metadata.value, engine);
            AllMatch(criteria, document, engine)
            == if k == |criteria| then Returns(true)
               else KeyMatches(document, criteria[k].key, criteria[k].pattern, engine)
  {
    if criteria != [] && Holds(criteria[0], document.value.metadata.value, engine) {
      AllMatchDecidedByFirstUnsatisfied(criteria[1..], document, engine);
    }
  }

  /** Matches is true exactly when the map is there and every criterion holds. */
  lemma {:induction false} MatchesTrueIff(criteria: seq<Criterion>, document: Option<Document>, engine: RegexEngine)
    ensures Matches(criteria, document, engine) == Returns(true) <==>
            document.Some? && document.value.metadata.Some? &&
            forall i :: 0 <= i < |criteria| ==> Holds(criteria[i], document.value.metadata.value, engine)
  {
    if document.Some? && document.value.metadata.Some? {
      var m := document.value.metadata.value;
      var k := FirstUnsatisfied(criteria, m, engine);
      AllMatchDecidedByFirstUnsatisfied(criteria, document, engine);
      if k < |criteria| {
        assert !Holds(criteria[k], m, engine);
      }
    }
  }

  /** The metadata is dereferenced only once it is known to be non-null. */
  lemma {:induction false} MatchesNeverNullReference(criteria: seq<Criterion>,
                                                     document: Option<Document>, engine: RegexEngine)
    ensures Matches(criteria, document, engine) != Throws(NullReferenceException)
  {
    if document.Some? && document.value.metadata.Some? {
      AllMatchDecidedByFirstUnsatisfied(criteria, document, engine);
    }
  }

  /** A null pattern reaches the regex constructor only when its key is present
      and every criterion before it held. */
  lemma {:induction false} NullPatternReachedOnlyWithKey(criteria: seq<Criterion>,
                                                         document: Option<Document>, engine: RegexEngine)
    requires Matches(criteria, document, engine) == Throws(ArgumentNullException("pattern"))
    ensures document.Some? && document.value.metadata.Some?
    ensures var m := document.value.metadata.value;
            var k := FirstUnsatisfied(criteria, m, engine);
            k < |criteria| && criteria[k].key in m && criteria[k].pattern.None?
  {
    AllMatchDecidedByFirstUnsatisfied(criteria, document, engine);
  }

  /** A list of criteria that validates cleanly never hands a null pattern to
      the regex constructor. */
  lemma {:induction false} ValidatedNeverNullPattern(criteria: seq<Criterion>,
                                                     document: Option<Document>, engine: RegexEngine)
    ensures MissingErrors(criteria) == [] ==>
              Matches(criteria, document, engine) != Throws(ArgumentNullException("pattern"))
  {
    if MissingErrors(criteria) == [] && Matches(criteria, document, engine) == Throws(ArgumentNullException("pattern")) {
      MissingErrorsEmptyIff(criteria);
      NullPatternReachedOnlyWithKey(criteria, document, engine);
    }
  }

  /** The message Validate adds for an unset field. */
  function NotSpecified(key: string): string {
    key + " value has not been specified."
  }

  lemma NotSpecifiedInjective(k1: string, k2: string)
    ensures NotSpecified(k1) == NotSpecified(k2) ==> k1 == k2
  {
    if NotSpecified(k1) == NotSpecified(k2) {
      assert k1 == NotSpecified(k1)[..|k1|];
    }
  }

  /** One message per unset pattern, in the order of the criteria. */
  function MissingErrors(criteria: seq<Criterion>): (r: seq<string>)
    ensures |r| <= |criteria|
  {
    if criteria == [] then []
    else (if IsNullOrEmpty(criteria[0].pattern) then [NotSpecified(criteria[0].key)] else [])
         + MissingErrors(criteria[1..])
  }

  /** Appending a criterion appends its message, if any, after all earlier ones. */
  lemma {:induction false} MissingErrorsSnoc(criteria: seq<Criterion>, c: Criterion)
    ensures MissingErrors(criteria + [c])
         == MissingErrors(criteria) + (if IsNullOrEmpty(c.pattern) then [NotSpecified(c.key)] else [])
  {
    if criteria == [] {
      assert [] + [c] == [c];
    } else {
      assert (criteria + [c])[1..] == criteria[1..] + [c];
      MissingErrorsSnoc(criteria[1..], c);
    }
  }

  /** No message at all exactly when every pattern is set. */
  lemma {:induction false} MissingErrorsEmptyIff(criteria: seq<Criterion>)
    ensures MissingErrors(criteria) == [] <==> forall i :: 0 <= i < |criteria| ==> !IsNullOrEmpty(criteria[i].pattern)
  {
    if criteria != [] {
      MissingErrorsEmptyIff(criteria[1..]);
      assert forall i :: 1 <= i < |criteria| ==> criteria[i] == criteria[1..][i - 1];
    }
  }

  /** The message for a key is present exactly when some criterion with that
      key has an unset pattern. */
  lemma {:induction false} MissingErrorsIncludes(criteria: seq<Criterion>, key: string)
    ensures NotSpecified(key) in MissingErrors(criteria) <==>
            exists i :: 0 <= i < |criteria| && criteria[i].key == key && IsNullOrEmpty(criteria[i].pattern)
  {
    if criteria != [] {
      MissingErrorsIncludes(criteria[1..], key);
      NotSpecifiedInjective(criteria[0].key, key);
      if exists i :: 0 <= i < |criteria| && criteria[i].key == key && IsNullOrEmpty(criteria[i].pattern) {
        var i :| 0 <= i < |criteria| && criteria[i].key == key && IsNullOrEmpty(criteria[i].pattern);
        if i > 0 {
          assert criteria[1..][i - 1] == criteria[i];
        }
      }
    }
  }
}
