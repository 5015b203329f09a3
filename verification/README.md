# Query-string split of the Lambda@Edge rewrite handler

The rewrite handler (`LambdaEdgeFunctions/rewrite/index.js`) receives a CloudFront
request, lets a rule set rewrite it, and returns the rule set's result object `res`
through the Lambda callback. Some rewrite rules produce a combined `"path?query"` string
in `res.uri`. Before returning, the handler therefore post-processes `res`:

- The split happens when `res.uri` is not `undefined` and contains `'?'`.
- The handler splits the string into all of its `'?'`-separated pieces.
- It stores the first piece back in `res.uri`.
- It re-joins the remaining pieces with `'?'` and stores them in `res.querystring`.

The split therefore happens at the first `'?'`, and every later `'?'` survives in the
query string. In every other case `res` is returned untouched.

The project models that step in two modules:

- `JsString` (`js_string.dfy`) models the JavaScript string operations the step uses,
  for a one-character separator: `split` (`Split`) and `join` (`Join`).
  It also gives an independent reference definition of "split at the first occurrence"
  (`FirstIndex`, `SplitAtFirst`).
  Its lemmas prove that `split` and `join` are inverse to each other.
  They also prove that the handler's idiom `const [head, ...tail] = s.split('?'); tail.join('?')`
  computes exactly `SplitAtFirst`.
- `RewriteHandler` (`rewrite_handler.dfy`) models the result object.
  - `RuleResult` is its value: `uri`, `querystring`, and every other property by name.
  - `PostProcessed` is the reference meaning of the step on that value. The lemmas
    about the step's properties are stated over it.
  - `ResultObject` is the mutable object. Its `PostProcess` method performs the step
    in place, the way the code does (split into all pieces, then re-join the tail).
    It may modify only `uri` and `querystring`, and it is proved to agree with `PostProcessed`.

`res.uri` is modelled as `undefined`, `null` or a string. The test at line 15 is
`res.uri !== undefined`, so a `null` uri passes it. The following `res.uri.includes('?')`
then throws a `TypeError`. In that case the model reports `ThrewTypeError` and changes
nothing: the throw happens before any assignment, and the callback is never reached.

Two points where the step does less than one might expect:

- One might expect a uri without a delimiter to end with an unset or empty `querystring`.
  The code does not do that: it leaves `querystring` exactly as the rule set returned it,
  and so does the model.
- A uri ending in `'?'` yields an empty query string only when that `'?'` is its only
  one (`"a?b?"` yields `"b?"`). `TrailingDelimiter` is stated for that case.

## Model

| member | source | states |
|---|---|---|
| `JsString.FirstIndex` | LambdaEdgeFunctions/rewrite/index.js:15-18 | for a string that includes the delimiter, an index holding the delimiter with no delimiter before it |
| `JsString.SplitAtFirst` | LambdaEdgeFunctions/rewrite/index.js:16-20 | reference split: prefix + delimiter + remainder is the original string, and the prefix has no delimiter |
| `JsString.Split` | LambdaEdgeFunctions/rewrite/index.js:18 | `split` with a one-character separator returns at least one piece, and no piece contains the separator |
| `JsString.Join` | LambdaEdgeFunctions/rewrite/index.js:20 | `join` of no pieces is `""` and of one piece is that piece, as in JavaScript; a join starts with its first piece; its meaning with `Split` is fixed by `JoinSplit` and `SplitJoin` |
| `JsString.JoinSplit` | LambdaEdgeFunctions/rewrite/index.js:18-20 | joining the pieces of a split with the same separator gives back the original string |
| `JsString.SplitFreePrefix` | LambdaEdgeFunctions/rewrite/index.js:18 | a separator-free prefix only extends the first piece of a split |
| `JsString.SplitAtDelimiter` | LambdaEdgeFunctions/rewrite/index.js:18 | splitting `p + "?" + q` with separator-free `p` gives `p` followed by the pieces of `q` |
| `JsString.SplitJoin` | LambdaEdgeFunctions/rewrite/index.js:18-20 | splitting the join of separator-free pieces gives back the pieces |
| `JsString.SplitCount` | LambdaEdgeFunctions/rewrite/index.js:15-18 | a split has one piece more than the string has separators, so the tail `qsArray` is non-empty exactly when `includes` holds |
| `JsString.JoinCount` | LambdaEdgeFunctions/rewrite/index.js:20 | joining one or more separator-free pieces inserts exactly one separator per gap |
| `JsString.SplitHeadJoinTail` | LambdaEdgeFunctions/rewrite/index.js:16-20 | the destructured head of `split` is the part before the first separator, and the re-joined tail is everything after it |
| `JsString.SplitAtFirstUnique` | LambdaEdgeFunctions/rewrite/index.js:16-20 | any decomposition into a separator-free part, the separator and a remainder is the one `SplitAtFirst` returns |
| `JsString.RemainderKeepsLaterDelimiters` | LambdaEdgeFunctions/rewrite/index.js:16-20 | the remainder is the exact tail after the first separator and holds every separator but that one |
| `RewriteHandler.PostProcessed` | LambdaEdgeFunctions/rewrite/index.js:15-24 | it throws exactly for a `null` uri; when the uri contains `'?'`, the new uri has no `'?'`, new uri + `"?"` + new querystring equals the old uri, and a querystring is set; otherwise `res` is unchanged; other properties are always unchanged |
| `RewriteHandler.SplitsAtFirstDelimiter` | LambdaEdgeFunctions/rewrite/index.js:16-20 | for a uri `path + "?" + query` with `'?'`-free `path`, the outcome is uri `path` and querystring `query`, whatever `query` contains |
| `RewriteHandler.LaterDelimitersKept` | LambdaEdgeFunctions/rewrite/index.js:16-20 | the new querystring is the old uri's exact tail after its first `'?'`, and has exactly one `'?'` fewer than it |
| `RewriteHandler.QueryStringOverwritten` | LambdaEdgeFunctions/rewrite/index.js:20 | when the split happens, the outcome does not depend on the previous querystring (overwritten, not merged) |
| `RewriteHandler.TrailingDelimiter` | LambdaEdgeFunctions/rewrite/index.js:18-20 | a uri whose only `'?'` is its last character gives an empty querystring |
| `RewriteHandler.LeadingDelimiter` | LambdaEdgeFunctions/rewrite/index.js:18-20 | a uri starting with `'?'` gives an empty uri and the whole rest as querystring |
| `RewriteHandler.Idempotent` | LambdaEdgeFunctions/rewrite/index.js:15-19 | post-processing a returned result again changes nothing |
| `RewriteHandler.ExampleTwoDelimiters` | LambdaEdgeFunctions/rewrite/index.js:16-20 | `"/a/b?x=1?y=2"` becomes uri `"/a/b"` and querystring `"x=1?y=2"` |
| `RewriteHandler.ExampleMigrated` | LambdaEdgeFunctions/rewrite/index.js:18-20 | `"/new?migrated=1"` becomes uri `"/new"` and querystring `"migrated=1"`, replacing an empty querystring |
| `RewriteHandler.ResultObject.constructor` | LambdaEdgeFunctions/rewrite/index.js:14 | the object holds exactly the given result value, standing for the `res` the rule set returns |
| `RewriteHandler.ResultObject.PostProcess` | LambdaEdgeFunctions/rewrite/index.js:15-22 | the in-place split-and-rejoin leaves the object in the state `PostProcessed` gives (or unchanged when it throws); it assigns only `uri` and `querystring` |

## Left out

- The rule engine (`./api/rules.js`: `RuleSet`, `loadRules`, `applyRules`) is not part of this model. The `res` that `applyRules` returns is taken as an arbitrary result object, and nothing is assumed about matching or precedence.
- `res` itself is assumed to be an object. If `applyRules(e).res` were `undefined` or `null`, reading `res.uri` at line 15 would throw a TypeError; that case is not modelled, so `PostProcessed` throws exactly for a `null` uri only among object results.
- The asynchronous `loadRules(...).then(...)` sequencing is not modelled, because the model has no concurrency.
- The extraction of the request from the event (`e.Records[0].cf.request`) and the final `cb(null, res)` are runtime plumbing and are not modelled.
- All `console.log` / `JSON.stringify` output is I/O and is not modelled.
- `res.uri` values other than `undefined`, `null` or a string (numbers, objects) are not modelled.
- JavaScript strings are sequences of UTF-16 code units, while Dafny's `char` is a Unicode scalar value. The split is on the ASCII `'?'`, so this does not change where the split happens for the strings the model can hold. A JavaScript string holding a lone surrogate cannot be represented as a Dafny `string` at all, so such uris are not modelled.
- `res.querystring` is modelled as absent or a string. Other JavaScript values it might hold are not modelled; the step either keeps that field unchanged or overwrites it.
