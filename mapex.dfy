/** The collaborators the where specifications consume: the document and its
    metadata map, the regular-expression engine, and the way a .NET call that
    returns a bool can end (a value or an exception). Also the one step every
    specification shares: testing a metadata key against a pattern. */
module Mapex {

  datatype Option<+T> = None | Some(value: T)

  /** A document's metadata: field name to field value; keys compare exactly. */
  type Metadata = map<string, string>

  /** An IDocument; `metadata` is None when its Metadata property is null. */
  datatype Document = Document(metadata: Option<Metadata>)

  /** The exceptions a call to Matches can raise. */
  datatype ClrException =
    | ArgumentNullException(paramName: string)
    | NullReferenceException
    | RegexParseException(pattern: string)

  /** How a .NET call returning bool ends: with a value, or by throwing. */
  datatype Outcome = Returns(value: bool) | Throws(exception: ClrException)

  /** `string.IsNullOrEmpty`. */
  predicate IsNullOrEmpty(s: Option<string>): (r: bool)
    ensures r <==> s == None || s == Some("")
  {
    s.None? || s.value == ""
  }

  /** C#'s `left && right`. The right operand is a value here, so evaluating it
      has no effect; what short-circuiting means is that an exception the right
      operand would raise is not raised unless the left operand returned true. */
  function AndAlso(left: Outcome, right: Outcome): (r: Outcome)
    ensures r == Returns(true) <==> left == Returns(true) && right == Returns(true)
    ensures r.Throws? <==> left.Throws? || (left == Returns(true) && right.Throws?)
    ensures left != Returns(true) ==> r == left
    ensures left == Returns(true) ==> r == right
  {
    if left == Returns(true) then right else left
  }

  /** System.Text.RegularExpressions.Regex, left uninterpreted: `parses(p)` says
      whether `new Regex(p)` accepts the pattern p, and `isMatch(p, s)` is what
      `IsMatch(s)` then answers. Nothing is assumed about either. */
  datatype RegexEngine = RegexEngine(parses: string -> bool, isMatch: (string, string) -> bool)

  /** `new Regex(pattern).IsMatch(input)`: the constructor rejects a null
      pattern and a pattern it cannot parse. */
  function RegexIsMatch(engine: RegexEngine, pattern: Option<string>, input: string): (r: Outcome)
    ensures pattern.None? ==> r == Throws(ArgumentNullException("pattern"))
    ensures r.Throws? <==> pattern.None? || !engine.parses(pattern.value)
    ensures r == Returns(true) <==>
              pattern.Some? && engine.parses(pattern.value) && engine.isMatch(pattern.value, input)
  {
    match pattern
    case None => Throws(ArgumentNullException("pattern"))
    case Some(p) =>
      if engine.parses(p) then Returns(engine.isMatch(p, input)) else Throws(RegexParseException(p))
  }

  /** True when the metadata holds `key` and its value satisfies `pattern`. */
  predicate Satisfies(m: Metadata, key: string, pattern: Option<string>, engine: RegexEngine) {
    key in m && pattern.Some? && engine.parses(pattern.value) && engine.isMatch(pattern.value, m[key])
  }

  /** `document.Metadata.ContainsKey(key) && new Regex(pattern).IsMatch(document.Metadata[key])`,
      dereferencing the document and its metadata just as that expression does. */
  function KeyMatches(document: Option<Document>, key: string, pattern: Option<string>,
                      engine: RegexEngine): (r: Outcome)
    ensures r == Throws(NullReferenceException) <==> document.None? || document.value.metadata.None?
    ensures r == Returns(true) <==>
              document.Some? && document.value.metadata.Some? &&
              Satisfies(document.value.metadata.value, key, pattern, engine)
    ensures (document.Some? && document.value.metadata.Some? &&
             key !in document.value.metadata.value) ==> r == Returns(false)
    ensures r == Throws(ArgumentNullException("pattern")) <==>
              document.Some? && document.value.metadata.Some? &&
              key in document.value.metadata.value && pattern.None?
    ensures (document.Some? && document.value.metadata.Some? &&
             key in document.value.metadata.value)
              ==> r == RegexIsMatch(engine, pattern, document.value.metadata.value[key])
  {
    if document.None? || document.value.metadata.None? then
      Throws(NullReferenceException)
    else
      var m := document.value.metadata.value;
      if key !in m then Returns(false) else RegexIsMatch(engine, pattern, m[key])
  }
}
