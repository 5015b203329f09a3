/**
 The post-processing step of the Lambda@Edge rewrite handler: after the rule set has
 produced its result object, a rewritten `uri` that carries an embedded query string
 ("path?query") is split at its first '?' into `uri` and `querystring`.

 The result object is modelled twice, as the source uses it: `RuleResult` is its value
 and `PostProcessed` the reference meaning of the step on that value; `ResultObject` is
 the mutable object whose `PostProcess` method updates its fields in place, the way the
 handler does, and is proved to agree with `PostProcessed`.
 */
module RewriteHandler {
  import JsString

  /** The delimiter between path and query string. */
  const QueryDelimiter: char := '?'

  datatype Option<T> = None | Some(value: T)

  /** What `res.uri` can hold: JavaScript's `undefined`, `null`, or a string. */
  datatype UriValue = Undefined | Null | Str(text: string)

  /** The result object as a value: `uri`, `querystring` (absent as `None`) and every
      other property the rule set put there (status, headers, ...), by name. */
  datatype RuleResult = RuleResult(uri: UriValue, querystring: Option<string>, otherFields: map<string, string>)

  /** How the step ends: it returns the object, or `res.uri.includes` throws a TypeError
      (a `null` uri passes the `!== undefined` test) and the callback is never reached. */
  datatype Outcome = Returned(result: RuleResult) | ThrewTypeError

  /** Helper naming the guard `res.uri !== undefined && res.uri.includes('?')` for a uri
      that does not throw: its uri is a string that contains the delimiter. A `null` uri
      never satisfies it; `PostProcessed` treats that case on its own. */
  predicate Splits(r: RuleResult)
  {
    r.uri.Str? && QueryDelimiter in r.uri.text
  }

  /** Reference meaning of the step: split the uri at its first delimiter into the new
      uri and the new query string, leave everything else as it was. */
  function PostProcessed(r: RuleResult): (o: Outcome)
    ensures o.ThrewTypeError? <==> r.uri.Null?
    ensures o.Returned? ==> o.result.otherFields == r.otherFields
    ensures Splits(r) ==>
      && o.Returned? && o.result.uri.Str? && o.result.querystring.Some?
      && QueryDelimiter !in o.result.uri.text
      && o.result.uri.text + [QueryDelimiter] + o.result.querystring.value == r.uri.text
    ensures !Splits(r) && !r.uri.Null? ==> o == Returned(r)
  {
    if r.uri.Undefined? then Returned(r)
    else if r.uri.Null? then ThrewTypeError
    else if QueryDelimiter !in r.uri.text then Returned(r)
    else
      var (path, query) := JsString.SplitAtFirst(r.uri.text, QueryDelimiter);
      Returned(r.(uri := Str(path), querystring := Some(query)))
  }

  /** Only the first delimiter is consumed: writing the uri as a delimiter-free path,
      the delimiter, and a remainder determines the outcome, whatever the remainder holds. */
  lemma SplitsAtFirstDelimiter(r: RuleResult, path: string, query: string)
    requires r.uri == Str(path + [QueryDelimiter] + query)
    requires QueryDelimiter !in path
    ensures PostProcessed(r) == Returned(r.(uri := Str(path), querystring := Some(query)))
  {
    JsString.SplitAtFirstUnique(r.uri.text, QueryDelimiter, path, query);
  }

  /** Every delimiter after the first stays in the new query string, verbatim: the query
      string is the exact tail of the old uri and has one delimiter fewer than it. */
  lemma LaterDelimitersKept(r: RuleResult)
    requires Splits(r)
    ensures PostProcessed(r).Returned?
    ensures PostProcessed(r).result.querystring.Some?
    ensures var q := PostProcessed(r).result.querystring.value;
      && q == r.uri.text[JsString.FirstIndex(r.uri.text, QueryDelimiter) + 1..]
      && multiset(q)[QueryDelimiter] == multiset(r.uri.text)[QueryDelimiter] - 1
  {
  }

  /** When the step splits, the old query string is overwritten, not merged: the outcome
      does not depend on it at all. */
  lemma QueryStringOverwritten(r: RuleResult, previousQuery: Option<string>)
    requires Splits(r)
    ensures PostProcessed(r.(querystring := previousQuery)) == PostProcessed(r)
  {
  }

  /** A uri whose only delimiter is its last character yields an empty query string. */
  lemma TrailingDelimiter(r: RuleResult, path: string)
    requires r.uri == Str(path + [QueryDelimiter])
    requires QueryDelimiter !in path
    ensures PostProcessed(r) == Returned(r.(uri := Str(path), querystring := Some([])))
  {
  }

  /** A uri that starts with the delimiter yields an empty uri and keeps all the rest,
      later delimiters included, as the query string. */
  lemma LeadingDelimiter(r: RuleResult, query: string)
    requires r.uri == Str([QueryDelimiter] + query)
    ensures PostProcessed(r) == Returned(r.(uri := Str([]), querystring := Some(query)))
  {
  }

  /** Post-processing twice is post-processing once: the new uri has no delimiter left. */
  lemma Idempotent(r: RuleResult)
    requires PostProcessed(r).Returned?
    ensures PostProcessed(PostProcessed(r).result) == PostProcessed(r)
  {
  }

  /** A rewritten uri with two delimiters is split at the first one only. */
  lemma ExampleTwoDelimiters(otherFields: map<string, string>)
    ensures PostProcessed(RuleResult(Str("/a/b?x=1?y=2"), None, otherFields))
         == Returned(RuleResult(Str("/a/b"), Some("x=1?y=2"), otherFields))
  {
    var path, query := "/a/b", "x=1?y=2";
    assert QueryDelimiter !in path;
    assert path + [QueryDelimiter] + query == "/a/b?x=1?y=2";
    SplitsAtFirstDelimiter(RuleResult(Str("/a/b?x=1?y=2"), None, otherFields), path, query);
  }

  /** A path rewrite to "/new?migrated=1" ends as uri "/new" with query "migrated=1". */
  lemma ExampleMigrated(otherFields: map<string, string>)
    ensures PostProcessed(RuleResult(Str("/new?migrated=1"), Some(""), otherFields))
         == Returned(RuleResult(Str("/new"), Some("migrated=1"), otherFields))
  {
    var path, query := "/new", "migrated=1";
    assert QueryDelimiter !in path;
    assert path + [QueryDelimiter] + query == "/new?migrated=1";
    SplitsAtFirstDelimiter(RuleResult(Str("/new?migrated=1"), Some(""), otherFields), path, query);
  }

  /** The result object `res` that the rule set returns and the handler updates in place. */
  class ResultObject {
    var uri: UriValue
    var querystring: Option<string>
    var otherFields: map<string, string>

    /** The object's current value. */
    function Value(): RuleResult
      reads this
    {
      RuleResult(uri, querystring, otherFields)
    }

    constructor (r: RuleResult)
      ensures Value() == r
    {
      uri, querystring, otherFields := r.uri, r.querystring, r.otherFields;
    }

    /** The handler's step as written: when `uri` is a string containing '?', split it
        into all its pieces, keep the first as `uri` and re-join the rest with '?' as
        `querystring`. A `null` uri throws before anything is assigned. */
    method PostProcess() returns (threw: bool)
      modifies this`uri, this`querystring
      ensures threw <==> old(uri).Null?
      ensures PostProcessed(old(Value())) == if threw then ThrewTypeError else Returned(Value())
      ensures threw ==> uri == old(uri) && querystring == old(querystring)
      ensures otherFields == old(otherFields)
    {
      threw := false;
      if uri.Undefined? {
      } else if uri.Null? {
        threw := true;
      } else if QueryDelimiter in uri.text {
        var s := uri.text;
        var parts := JsString.Split(s, QueryDelimiter);
        var head, tail := parts[0], parts[1..];
        JsString.SplitHeadJoinTail(s, QueryDelimiter);
        uri := Str(head);
        querystring := Some(JsString.Join(tail, QueryDelimiter));
      }
    }
  }
}
