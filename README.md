# Memory capsule: REST client and recall reply, in Dafny

This project models two decision layers of a voice-assistant "memory" capsule.

- The REST client (`code/rest.js`). Every action checks its arguments, sends one
  POST to the brain service through `postQuery`, and turns the response body
  into a uniform reply. The actions are memorize, recall, list, delete all,
  delete one, get version and update text.
- The recall action (`code/RecallAction.js`). It picks one of four sentences
  from the cleaned utterance and the ranking the matcher returns.

Modules:

- `Js` (js.dfy) holds the JavaScript semantics the code relies on. Values are
  JSON values plus `undefined`. It defines truthiness (`if (v)`, `a && b`),
  `v.key` and `v[i]` (reading through null or undefined throws a TypeError),
  string conversion for `+`, and `split` / `join`.
- `Rest` (rest.dfy) models `code/rest.js`. The HTTP round trip and the
  configured credential form a `Transport` value. Each action returns an
  `Exchange`: the reply together with the request it sent, where `None` means
  no request was made. A call that would throw returns `Threw(TypeError)`.
- `RecallComposer` (recall_action.dfy) models `code/RecallAction.js`.
  `cleanString`, `loadMemories` and `findTextInMemories` are passed in as
  functions.

`makeMemoriesFromAnswers` builds its array with a loop. It is modelled twice:
the method `MakeMemoriesFromAnswers` keeps the loop, and the function
`MemoriesFromAnswers` states the result. The method is proved equal to the
function, and the actions use the function.

Behaviour the model keeps as written:

- The "closest match" tier compares the best entry's `numWords` with
  `cleanedInput.split(' ').length`, which is the number of spaces plus one. It
  counts spaces, not words, so an empty input counts as one word.
- A memory that has no `whenStored` still passes the guard of `deleteOne`, and
  a request is sent (see Findings).
- `success` is tested for truthiness. `recall` and `list` copy the body's raw
  `success` value into their reply.
- The partial-match sentence says "closed thing", as the code does.

## Model

| member | source | states |
|---|---|---|
| `Rest.PostQuery` | code/rest.js:20-48 | No request and an empty body `{}` exactly when the suffix or the parameters are null. Otherwise one request to that suffix whose parameters are the credential, version and context header merged with every additional parameter, the additional value winning a collision. The body returned is the transport's answer to that request. |
| `Rest.RequestCarriesHeader` | code/rest.js:29-34 | An action's parameters never use a header key, so a sent request holds clientVersion '1.4.0', the configured secretClientApiKey, the caller's vivContext and every action parameter, all unchanged. |
| `Rest.MakeMemoriesFromAnswers` | code/rest.js:56-69 | The push loop returns exactly what `MemoriesFromAnswers` specifies: the projection, a TypeError at a null element, or the input unchanged. |
| `Rest.ProjectionKeepsOrder` | code/rest.js:57-66 | On a non-empty array of non-null answers, the result is a fresh list of the same length and order. Element i holds exactly answers[i]'s text, whenStored and howLongAgo, and no other field. |
| `Rest.ProjectionThrowsOnNull` | code/rest.js:60-64 | A null answer makes the projection throw a TypeError. |
| `Rest.ProjectionPassesEmpty` | code/rest.js:57-68 | Absent, null or empty answers are returned unchanged. |
| `Rest.ProjectionOfMemoryArray` | code/rest.js:56-69 | Projecting memories that already have the Memory shape gives the same memories back, so the projection is idempotent. |
| `Rest.Memorize` | code/rest.js:90-118 | A request is made if and only if the context and the statement are truthy. A truthy `success` gives `success: true` and exactly one memory, whose three fields are the body's. Every other path gives `{success: false, memories: []}`. |
| `Rest.StoredMemoryEchoed` | code/rest.js:97-107 | When the backend echoes a memory m with success, memorize reports exactly [m]. |
| `Rest.RecallFailureSpeech` | code/rest.js:161-167 | Priority order of a failed recall's speech: the no-memories message if and only if `memoryCount === 0`. Otherwise the search message naming `searchText` if and only if it is truthy. Otherwise the generic apology. |
| `Rest.Recall` | code/rest.js:144-184 | A request is made if and only if neither the context nor the question is null. With no request the reply is the fixed "do not know who is asking" speech. A falsy `success` gives the chosen failure speech, empty memories and the body's success value. Every returned reply echoes the question. |
| `Rest.RecallSpeaksFirstAnswer` | code/rest.js:151-158 | A success with a non-empty array of answer objects returns their projection in order. The speech is 'You told me ' + first.howLongAgo + ': ' + first.text + '.'. |
| `Rest.RecallThrowsWithoutAnswers` | code/rest.js:152-156 | A success whose answers are absent or empty throws at `memories[0].howLongAgo`. |
| `Rest.List` | code/rest.js:204-226 | A request is made if and only if the context is not null. A body whose `success` and `answers` are both truthy gives the body's success value and the projected answers, or a TypeError if the projection throws. Every other path gives `{success: false, memories: []}`. |
| `Rest.ListSuccessNeedsAnswers` | code/rest.js:210-215 | A list reply reports success only when the context was not null and the body had truthy `success` and truthy `answers`. |
| `Rest.ListReturnsStoredMemories` | code/rest.js:210-215 | When the backend lists memories ms with success, the reply holds exactly ms, in order. |
| `Rest.DeleteAll` | code/rest.js:234-250 | One of three fixed sentences. The confirmation if and only if a request was made and `success` is truthy. The problem sentence if and only if a request was made and `success` is falsy. The apology if and only if the context was null, in which case no request is made. |
| `Rest.DeleteOne` | code/rest.js:259-276 | As written. A request is made if and only if the context is not null, the memory is truthy and `memory.whenStored !== null`. The request names that whenStored. The reply follows the same three-way split as delete all. |
| `Rest.DeleteOneSendsMissingId` | code/rest.js:260-265 | A memory object without `whenStored` passes the guard, and the request carries whenStored undefined. |
| `Rest.DeleteOneChecked` | code/rest.js:259-276 | Corrected guard: a null or undefined whenStored gives the apology with no request, so every request sent names a memory. |
| `Rest.GetVersion` | code/rest.js:281-300 | Always sends a list request. On success it passes `serverVersion` through and reports `memoryCount` as the length of an array `answers`, or 0 when `answers` is falsy (absent, null, false, 0 or ""). On failure it reports success false, version 'unknown' and count 0. |
| `Rest.VersionCountMatchesList` | code/rest.js:210-214 | For one response body (both actions send the same list request, and the transport answers a request with one body), the count `getVersion` reports equals the number of memories a successful `list` returns. |
| `Rest.UpdateText` | code/rest.js:305-330 | Always sends whenStored and replacementText. A truthy `success` gives `success: true` and exactly one memory carrying the body's three fields. Otherwise `{success: false, memories: []}`. |
| `Rest.UpdatedMemoryEchoed` | code/rest.js:311-322 | When the backend echoes a memory m with success, updateText reports exactly [m]. |
| `Js.Split` | code/RecallAction.js:16 | `split(' ')` yields one more piece than the string has spaces, and no piece contains a space. So the input word count is at least 1, even for an empty string. |
| `Js.JoinSplit` | code/RecallAction.js:16 | Joining the pieces of a split with the separator gives back the original string. |
| `RecallComposer.Reply` | code/RecallAction.js:14-28 | An absent or empty ranking gives exactly the "no memories yet" prompt. Otherwise the reply starts with "You asked me to recall " + input, and the best entry's `numWords` chooses the rest. 0 gives "no memory like that", whatever the input length. A non-zero count of at most the number of spaces gives the closest-thing sentence naming its text. A count above that gives "You told me <text>.". These cases are exclusive and cover every input. |
| `RecallComposer.OneWordInputNeverPartial` | code/RecallAction.js:16-24 | An input without spaces and a positive match count is answered directly, never with the closest-thing sentence. |
| `RecallComposer.RecallAction` | code/RecallAction.js:4-29 | The reply for the cleaned utterance and the matcher's ranking of the user's memories. It is the "no memories yet" prompt when the ranking is empty, and otherwise echoes the cleaned input. |

## Findings

| source | as written | input that shows it | evidently intended | confidence | as-written member | corrected member |
|---|---|---|---|---|---|---|
| code/rest.js:260 | `memory.whenStored !== null` lets `undefined` through | `deleteOne(ctx, {text: 'my keys are in the drawer'})`: a request to delete whenStored `undefined` is sent | the guard its error message describes ("null ... memory.whenStored"): reject both null and undefined, with the apology and no request | medium, not executed | `Rest.DeleteOneSendsMissingId` | `Rest.DeleteOneChecked` |

## Left out

- The HTTP call (`http.postUrl`), `util.getConfigAndSecrets` and the `brainLambdaUrl` prefix are network I/O and configuration. They are the `Transport` parameter, and a request records only its url suffix.
- Transport failure is not modelled: `Transport.post` always answers with a body. What `http.postUrl` does on failure is outside the code modelled here.
- JSON serialisation of the request is not modelled. Parameters whose value is `undefined` stay in the request map.
- The response body is taken to be a JSON object. A non-object `response.body` is not modelled.
- All `console.log` and `console.error` calls are logging only.
- `code/db.js` is a placeholder datastore. `loadMemories` is the function parameter of `RecallComposer.RecallAction`.
- find.js, util.js and types.js are not part of this model. `findTextInMemories` and `cleanString` are function parameters. The `ACTION_TYPE_*` values are distinct placeholder strings.
- The story test under `resources/` checks dialog text produced by code outside this model.
- `postQuery` builds a fresh object and updates it in place with `Object.assign`. No other code can see that object, so the model computes the merged map as a value.
- Numbers are integers. Fractions, NaN and -0 are not modelled.
- A `length` that is not a number is not coerced: `answers.length > 0` is taken as false for it.
- Reading an array or string property other than `length` by name gives undefined. Prototype members are not modelled.
- Strings are sequences of characters, not UTF-16 code units.
- `RecallComposer.RecallAction` takes the user id directly. The TypeError that a null `$vivContext` would raise at `$vivContext.userId` is not modelled.
- `RecallComposer.RecallAction`: the matcher's entries are taken to carry a string `text` and an integer `numWords`.
- Rest.Recall: the contract covers the guard and the failure path. The success path is stated by `Rest.RecallSpeaksFirstAnswer` and `Rest.RecallThrowsWithoutAnswers` for array answers and absent answers. Other shapes, such as an object with a "0" key, follow the function body but are not stated separately.
- Rest.GetVersion: the contract gives the count for array and falsy `answers`. For other truthy values, the count is whatever `answers.length` reads, which the contract does not state.
- Rest.List: the projected result is stated through `MemoriesFromAnswers`. Its shape for arrays is given by `Rest.ProjectionKeepsOrder` and `Rest.ListReturnsStoredMemories`.
