/**
 * The memory capsule's REST client (code/rest.js). Every action checks its
 * arguments, posts one request to the brain service through `postQuery`, and
 * turns the response body into a uniform reply. The HTTP exchange and the
 * secret lookup are the `Transport` parameter; `Exchange.sent` records the
 * request an action made (`None`: no request at all).
 */
module Rest {
  import opened Js

  const ClientVersion := "1.4.0"
  const ServiceUrl := "/list"

  /** The `types.ACTION_TYPE_*` constants. */
  datatype ActionType =
    | ActionMemorize
    | ActionRecall
    | ActionList
    | ActionDeleteAll
    | ActionDeleteOne
    | ActionUpdateText

  /** The value sent as `actionType`. Its real values are defined in types.js; here they are distinct strings. */
  function ActionTag(a: ActionType): JsValue {
    match a
    case ActionMemorize => Str("ACTION_TYPE_MEMORIZE")
    case ActionRecall => Str("ACTION_TYPE_RECALL")
    case ActionList => Str("ACTION_TYPE_LIST")
    case ActionDeleteAll => Str("ACTION_TYPE_DELETE_ALL")
    case ActionDeleteOne => Str("ACTION_TYPE_DELETE_ONE")
    case ActionUpdateText => Str("ACTION_TYPE_UPDATE_TEXT")
  }

  type Params = map<string, JsValue>

  /** One POST to the brain service. */
  datatype Request = Request(urlSuffix: string, params: Params)

  /** The configured credential and the HTTP round trip, which answers a request with a response body. */
  datatype Transport = Transport(secretClientApiKey: JsValue, post: Request -> Body)

  /** An action's reply together with the request it sent, if it sent one. */
  datatype Exchange<T> = Exchange(reply: T, sent: Option<Request>)

  /** A Memory concept: exactly these three fields. */
  datatype Memory = Memory(text: JsValue, whenStored: JsValue, howLongAgo: JsValue)

  /** The `memories` of a reply: a freshly built list, or `answers` passed through untouched. */
  datatype Memories = Projected(items: seq<Memory>) | Passed(raw: JsValue)

  datatype MemoriesReply = MemoriesReply(success: JsValue, memories: Memories)

  datatype RecallReply = RecallReply(success: JsValue, question: JsValue, speech: string, memories: Memories)

  datatype VersionReply = VersionReply(success: bool, serverVersion: JsValue, memoryCount: JsValue)

  /** `{ success: false, memories: [] }`. */
  const NoMemories := MemoriesReply(Bool(false), Projected([]))

  const UnknownAskerSpeech := "Unfortunately, I had a problem and do not know who is asking this question."
  const NoMemoriesSpeech := "There are no memories, please ask me to remember something first."
  const NoSenseSpeech := "I can't find a memory that makes sense as an answer for that."
  const DeletedAllSpeech := "I deleted all memories."
  const DeleteAllProblemSpeech := "There was a problem and I could not delete all memories."
  const DeleteAllUnknownSpeech := "Unfortunately, I had a problem and do not know who is asking to delete memories."
  const DeletedOneSpeech := "I deleted that memory."
  const DeleteOneProblemSpeech := "There was a problem and I could not delete that memory."
  const DeleteOneUnknownSpeech := "Unfortunately, I had a problem and do not know who is asking to delete a memory."

  function SearchFailedSpeech(searchText: JsValue): string {
    "I can't find a memory that matches a search for " + ToJsString(searchText) + ". Please try another question."
  }

  // ---------------------------------------------------------------- postQuery

  /** The credential, client version and caller context every request starts from. */
  function Header(vivContext: JsValue, t: Transport): Params {
    map["secretClientApiKey" := t.secretClientApiKey, "clientVersion" := Str(ClientVersion), "vivContext" := vivContext]
  }

  /** `Object.assign(header, extra)` stated as a relation: every key of both, the extra value winning a collision. */
  ghost predicate Merged(p: Params, header: Params, extra: Params) {
    && p.Keys == header.Keys + extra.Keys
    && (forall k :: k in extra ==> p[k] == extra[k])
    && (forall k :: k in header && k !in extra ==> p[k] == header[k])
  }

  /**
   * `postQuery`: with a null suffix or null parameters it returns `{}` and sends nothing;
   * otherwise it sends the header merged with `additionalParams` and returns the response body.
   */
  function PostQuery(vivContext: JsValue, urlSuffix: Option<string>, additionalParams: Option<Params>, t: Transport): (e: Exchange<Body>)
    ensures e.sent.None? <==> urlSuffix.None? || additionalParams.None?
    ensures e.sent.None? ==> e.reply == map[]
    ensures e.sent.Some? ==> e.reply == t.post(e.sent.value) && e.sent.value.urlSuffix == urlSuffix.value
    ensures e.sent.Some? ==> Merged(e.sent.value.params, Header(vivContext, t), additionalParams.value)
  {
    if urlSuffix.Some? && additionalParams.Some? then
      var combinedParams := Header(vivContext, t) + additionalParams.value;
      var request := Request(urlSuffix.value, combinedParams);
      Exchange(t.post(request), Some(request))
    else
      Exchange(map[], None)
  }

  /** The request an action sends, if it sends one: to the service url, with its own parameters merged into the header. */
  ghost predicate SentFor(sent: Option<Request>, vivContext: JsValue, t: Transport, actionParams: Params) {
    sent.Some? ==> sent.value.urlSuffix == ServiceUrl && Merged(sent.value.params, Header(vivContext, t), actionParams)
  }

  /** The response body an exchange received (`{}` when nothing was sent). */
  function Response(sent: Option<Request>, t: Transport): Body {
    if sent.Some? then t.post(sent.value) else map[]
  }

  /** Action parameters never overwrite the header, so every request carries the credential, version '1.4.0' and context verbatim. */
  lemma RequestCarriesHeader(req: Request, vivContext: JsValue, t: Transport, actionParams: Params)
    requires SentFor(Some(req), vivContext, t, actionParams)
    requires "secretClientApiKey" !in actionParams && "clientVersion" !in actionParams && "vivContext" !in actionParams
    ensures req.urlSuffix == ServiceUrl
    ensures Field(req.params, "clientVersion") == Str("1.4.0")
    ensures Field(req.params, "secretClientApiKey") == t.secretClientApiKey
    ensures Field(req.params, "vivContext") == vivContext
    ensures forall k :: k in actionParams ==> Field(req.params, k) == actionParams[k]
  {
  }

  // ------------------------------------------------- makeMemoriesFromAnswers

  /** `{ text: a.text, whenStored: a.whenStored, howLongAgo: a.howLongAgo }` for a non-null `a`. */
  function ToMemory(a: JsValue): Memory
    requires !Nullish(a)
  {
    Memory(Get(a, "text"), Get(a, "whenStored"), Get(a, "howLongAgo"))
  }

  /** A memory as a JavaScript object. */
  function MemoryObject(m: Memory): JsValue {
    Obj(map["text" := m.text, "whenStored" := m.whenStored, "howLongAgo" := m.howLongAgo])
  }

  /** A list of memories as a JavaScript array of objects. */
  function MemoryArray(ms: seq<Memory>): JsValue {
    Arr(seq(|ms|, i requires 0 <= i < |ms| => MemoryObject(ms[i])))
  }

  /** How many elements the loop visits: `answers.length` when `answers && answers.length > 0`, else none. */
  function LoopCount(answers: JsValue): nat {
    if Truthy(answers) then
      match Get(answers, "length")
      case Num(n) => if n > 0 then n else 0
      case _ => 0
    else 0
  }

  /**
   * `makeMemoriesFromAnswers`: each visited element reduced to its three Memory fields,
   * in order; a null element throws; an absent or empty `answers` comes back unchanged.
   */
  function MemoriesFromAnswers(answers: JsValue): Outcome<Memories> {
    var n := LoopCount(answers);
    if n == 0 then Returned(Passed(answers))
    else if exists i | 0 <= i < n :: Nullish(Index(answers, i)) then Threw(TypeError)
    else Returned(Projected(seq(n, i requires 0 <= i < n => ToMemory(Index(answers, i)))))
  }

  /** The loop of `makeMemoriesFromAnswers`, pushing one projected memory per element. */
  method MakeMemoriesFromAnswers(answers: JsValue) returns (r: Outcome<Memories>)
    ensures r == MemoriesFromAnswers(answers)
  {
    var n := LoopCount(answers);
    if n == 0 {
      return Returned(Passed(answers));
    }
    var memories: seq<Memory> := [];
    var i := 0;
    while i < n
      invariant 0 <= i <= n
      invariant |memories| == i
      invariant forall j | 0 <= j < i :: !Nullish(Index(answers, j)) && memories[j] == ToMemory(Index(answers, j))
    {
      var answer := Index(answers, i);
      if Nullish(answer) {
        return Threw(TypeError);
      }
      memories := memories + [ToMemory(answer)];
      i := i + 1;
    }
    assert !exists j | 0 <= j < n :: Nullish(Index(answers, j));
    assert memories == seq(n, j requires 0 <= j < n => ToMemory(Index(answers, j)));
    return Returned(Projected(memories));
  }

  /** On a non-empty array of objects the result has the same length and order, element i holding exactly answers[i]'s three fields. */
  lemma ProjectionKeepsOrder(es: seq<JsValue>)
    requires |es| > 0
    requires forall i | 0 <= i < |es| :: !Nullish(es[i])
    ensures MemoriesFromAnswers(Arr(es)).Returned? && MemoriesFromAnswers(Arr(es)).value.Projected?
    ensures var ms := MemoriesFromAnswers(Arr(es)).value.items;
      && |ms| == |es|
      && forall i | 0 <= i < |es| ::
           ms[i].text == Get(es[i], "text") && ms[i].whenStored == Get(es[i], "whenStored") && ms[i].howLongAgo == Get(es[i], "howLongAgo")
  {
  }

  /** A null element among the visited ones makes the projection throw. */
  lemma ProjectionThrowsOnNull(es: seq<JsValue>, k: nat)
    requires k < |es| && es[k] == Null
    ensures MemoriesFromAnswers(Arr(es)) == Threw(TypeError)
  {
    assert Nullish(Index(Arr(es), k));
  }

  /** Absent, null or empty `answers` is returned as it came. */
  lemma ProjectionPassesEmpty(answers: JsValue)
    requires answers == Undefined || answers == Null || answers == Arr([]) || answers == Str("")
    ensures MemoriesFromAnswers(answers) == Returned(Passed(answers))
  {
  }

  /** Projecting memories that are already in Memory shape gives them back: the projection is idempotent. */
  lemma ProjectionOfMemoryArray(ms: seq<Memory>)
    requires |ms| > 0
    ensures MemoriesFromAnswers(MemoryArray(ms)) == Returned(Projected(ms))
  {
    var es := MemoryArray(ms).elems;
    forall i | 0 <= i < |es|
      ensures !Nullish(es[i]) && ToMemory(es[i]) == ms[i]
    {
      assert es[i] == MemoryObject(ms[i]);
    }
    ProjectionKeepsOrder(es);
    var items := MemoriesFromAnswers(MemoryArray(ms)).value.items;
    assert forall i | 0 <= i < |ms| :: items[i] == ms[i];
    assert items == ms;
  }

  // ---------------------------------------------------------------- memorize

  /**
   * `rest.memorize`: no request unless the context and the statement are truthy;
   * a successful body gives exactly one memory carrying the body's fields, anything else `NoMemories`.
   */
  function Memorize(vivContext: JsValue, statement: JsValue, t: Transport): (e: Exchange<MemoriesReply>)
    ensures e.sent.Some? <==> Truthy(vivContext) && Truthy(statement)
    ensures SentFor(e.sent, vivContext, t, map["actionType" := ActionTag(ActionMemorize), "statement" := statement])
    ensures var body := Response(e.sent, t);
      if e.sent.Some? && Truthy(Field(body, "success")) then
        && e.reply.success == Bool(true)
        && e.reply.memories.Projected? && |e.reply.memories.items| == 1
        && e.reply.memories.items[0] == Memory(Field(body, "text"), Field(body, "whenStored"), Field(body, "howLongAgo"))
      else e.reply == NoMemories
  {
    if Truthy(vivContext) && Truthy(statement) then
      var params := map["actionType" := ActionTag(ActionMemorize), "statement" := statement];
      var posted := PostQuery(vivContext, Some(ServiceUrl), Some(params), t);
      var body := posted.reply;
      if Truthy(Field(body, "success")) then
        Exchange(MemoriesReply(Bool(true), Projected([ToMemory(Obj(body))])), posted.sent)
      else
        Exchange(NoMemories, posted.sent)
    else
      Exchange(NoMemories, None)
  }

  // ------------------------------------------------------------------ recall

  /** `memories[0]`: throws when `memories` itself is null or undefined. */
  function FirstMemory(memories: Memories): Outcome<JsValue> {
    match memories
    case Projected(items) => Returned(if |items| > 0 then MemoryObject(items[0]) else Undefined)
    case Passed(raw) => if Nullish(raw) then Threw(TypeError) else Returned(Index(raw, 0))
  }

  /**
   * The speech of a failed recall, in priority order: `memoryCount === 0` first,
   * then a truthy `searchText`, then the generic apology.
   */
  function RecallFailureSpeech(body: Body): (speech: string)
    ensures speech == NoMemoriesSpeech <==> Field(body, "memoryCount") == Num(0)
    ensures speech == NoSenseSpeech <==> Field(body, "memoryCount") != Num(0) && !Truthy(Field(body, "searchText"))
    ensures speech == SearchFailedSpeech(Field(body, "searchText"))
            <==> Field(body, "memoryCount") != Num(0) && Truthy(Field(body, "searchText"))
  {
    var searchText := Field(body, "searchText");
    SpeechesDiffer(searchText);
    if Field(body, "memoryCount") == Num(0) then NoMemoriesSpeech
    else if Truthy(searchText) then SearchFailedSpeech(searchText)
    else NoSenseSpeech
  }

  /** The three failure speeches of `recall` are distinct whatever the search text. */
  lemma SpeechesDiffer(searchText: JsValue)
    ensures NoMemoriesSpeech != NoSenseSpeech
    ensures NoMemoriesSpeech != SearchFailedSpeech(searchText)
    ensures NoSenseSpeech != SearchFailedSpeech(searchText)
  {
  }

  /**
   * `rest.recall`: no request when the context or question is null; otherwise the body's
   * answers become the memories and the first one is spoken, or a failure speech is chosen.
   * Every reply echoes the question.
   */
  function Recall(vivContext: JsValue, question: JsValue, t: Transport): (e: Exchange<Outcome<RecallReply>>)
    ensures e.sent.Some? <==> vivContext != Null && question != Null
    ensures SentFor(e.sent, vivContext, t, map["actionType" := ActionTag(ActionRecall), "question" := question])
    ensures e.reply.Returned? ==> e.reply.value.question == question
    ensures e.sent.None? ==> e.reply == Returned(RecallReply(Bool(false), question, UnknownAskerSpeech, Projected([])))
    ensures var body := Response(e.sent, t);
      e.sent.Some? && !Truthy(Field(body, "success")) ==>
        e.reply == Returned(RecallReply(Field(body, "success"), question, RecallFailureSpeech(body), Projected([])))
  {
    if vivContext != Null && question != Null then
      var params := map["actionType" := ActionTag(ActionRecall), "question" := question];
      var posted := PostQuery(vivContext, Some(ServiceUrl), Some(params), t);
      var body := posted.reply;
      var success := Field(body, "success");
      if Truthy(success) then
        match MemoriesFromAnswers(Field(body, "answers"))
        case Threw(err) => Exchange(Threw(err), posted.sent)
        case Returned(memories) =>
          match FirstMemory(memories)
          case Threw(err) => Exchange(Threw(err), posted.sent)
          case Returned(first) =>
            if Nullish(first) then Exchange(Threw(TypeError), posted.sent)
            else
              var speech := "You told me " + ToJsString(Get(first, "howLongAgo")) + ": " + ToJsString(Get(first, "text")) + ".";
              Exchange(Returned(RecallReply(success, question, speech, memories)), posted.sent)
      else
        Exchange(Returned(RecallReply(success, question, RecallFailureSpeech(body), Projected([]))), posted.sent)
    else
      Exchange(Returned(RecallReply(Bool(false), question, UnknownAskerSpeech, Projected([]))), None)
  }

  /**
   * A successful recall whose answers are a non-empty array of objects returns their projection,
   * in order, and speaks the first: "You told me <howLongAgo>: <text>."
   */
  lemma RecallSpeaksFirstAnswer(vivContext: JsValue, question: JsValue, t: Transport, es: seq<JsValue>)
    requires vivContext != Null && question != Null
    requires |es| > 0 && forall i | 0 <= i < |es| :: !Nullish(es[i])
    requires var body := Response(Recall(vivContext, question, t).sent, t);
      Truthy(Field(body, "success")) && Field(body, "answers") == Arr(es)
    ensures var e := Recall(vivContext, question, t);
      && e.reply.Returned?
      && e.reply.value.success == Field(Response(e.sent, t), "success")
      && e.reply.value.speech == "You told me " + ToJsString(Get(es[0], "howLongAgo")) + ": " + ToJsString(Get(es[0], "text")) + "."
      && e.reply.value.memories.Projected?
      && |e.reply.value.memories.items| == |es|
      && forall i | 0 <= i < |es| :: e.reply.value.memories.items[i] == ToMemory(es[i])
  {
  }

  /** A "successful" body without answers, or with an empty list, makes `memories[0].howLongAgo` throw. */
  lemma RecallThrowsWithoutAnswers(vivContext: JsValue, question: JsValue, t: Transport)
    requires vivContext != Null && question != Null
    requires var body := Response(Recall(vivContext, question, t).sent, t);
      Truthy(Field(body, "success")) && (Field(body, "answers") == Undefined || Field(body, "answers") == Arr([]))
    ensures Recall(vivContext, question, t).reply == Threw(TypeError)
  {
  }

  // -------------------------------------------------------------------- list

  /**
   * `rest.list`: no request for a null context; the reply succeeds only when the body has a truthy
   * `success` and truthy `answers`, and then carries the projected answers; otherwise `NoMemories`.
   */
  function List(vivContext: JsValue, t: Transport): (e: Exchange<Outcome<MemoriesReply>>)
    ensures e.sent.Some? <==> vivContext != Null
    ensures SentFor(e.sent, vivContext, t, map["actionType" := ActionTag(ActionList)])
    ensures var body := Response(e.sent, t);
      if e.sent.Some? && Truthy(Field(body, "success")) && Truthy(Field(body, "answers")) then
        && (e.reply.Threw? <==> MemoriesFromAnswers(Field(body, "answers")).Threw?)
        && (e.reply.Returned? ==> e.reply.value == MemoriesReply(Field(body, "success"), MemoriesFromAnswers(Field(body, "answers")).value))
      else e.reply == Returned(NoMemories)
  {
    if vivContext != Null then
      var params := map["actionType" := ActionTag(ActionList)];
      var posted := PostQuery(vivContext, Some(ServiceUrl), Some(params), t);
      var body := posted.reply;
      if Truthy(Field(body, "success")) && Truthy(Field(body, "answers")) then
        match MemoriesFromAnswers(Field(body, "answers"))
        case Threw(err) => Exchange(Threw(err), posted.sent)
        case Returned(memories) => Exchange(Returned(MemoriesReply(Field(body, "success"), memories)), posted.sent)
      else
        Exchange(Returned(NoMemories), posted.sent)
    else
      Exchange(Returned(NoMemories), None)
  }

  /** A list reply reports success only when the body had a truthy success flag and truthy answers. */
  lemma ListSuccessNeedsAnswers(vivContext: JsValue, t: Transport)
    requires List(vivContext, t).reply.Returned? && Truthy(List(vivContext, t).reply.value.success)
    ensures vivContext != Null
    ensures var body := Response(List(vivContext, t).sent, t);
      Truthy(Field(body, "success")) && Truthy(Field(body, "answers"))
  {
  }

  /** When the backend lists memories `ms` (in Memory shape), the reply holds exactly `ms`, in order. */
  lemma ListReturnsStoredMemories(vivContext: JsValue, t: Transport, ms: seq<Memory>)
    requires vivContext != Null && |ms| > 0
    requires var body := Response(List(vivContext, t).sent, t);
      Field(body, "success") == Bool(true) && Field(body, "answers") == MemoryArray(ms)
    ensures List(vivContext, t).reply == Returned(MemoriesReply(Bool(true), Projected(ms)))
  {
    ProjectionOfMemoryArray(ms);
  }

  // ----------------------------------------------------------------- deletes

  /** `rest.deleteAll`: one of three fixed sentences; no request for a null context. */
  function DeleteAll(vivContext: JsValue, t: Transport): (e: Exchange<string>)
    ensures e.sent.Some? <==> vivContext != Null
    ensures SentFor(e.sent, vivContext, t, map["actionType" := ActionTag(ActionDeleteAll)])
    ensures e.reply == DeletedAllSpeech <==> e.sent.Some? && Truthy(Field(Response(e.sent, t), "success"))
    ensures e.reply == DeleteAllProblemSpeech <==> e.sent.Some? && !Truthy(Field(Response(e.sent, t), "success"))
    ensures e.reply == DeleteAllUnknownSpeech <==> e.sent.None?
  {
    if vivContext != Null then
      var params := map["actionType" := ActionTag(ActionDeleteAll)];
      var posted := PostQuery(vivContext, Some(ServiceUrl), Some(params), t);
      if Truthy(Field(posted.reply, "success")) then Exchange(DeletedAllSpeech, posted.sent)
      else Exchange(DeleteAllProblemSpeech, posted.sent)
    else
      Exchange(DeleteAllUnknownSpeech, None)
  }

  /**
   * `rest.deleteOne`, as written: the guard `memory && memory.whenStored !== null` admits a memory
   * whose `whenStored` is undefined. One of three fixed sentences.
   */
  function DeleteOne(vivContext: JsValue, memory: JsValue, t: Transport): (e: Exchange<string>)
    ensures e.sent.Some? <==> vivContext != Null && Truthy(memory) && Get(memory, "whenStored") != Null
    ensures e.sent.Some? ==> SentFor(e.sent, vivContext, t, map["actionType" := ActionTag(ActionDeleteOne), "whenStored" := Get(memory, "whenStored")])
    ensures e.reply == DeletedOneSpeech <==> e.sent.Some? && Truthy(Field(Response(e.sent, t), "success"))
    ensures e.reply == DeleteOneProblemSpeech <==> e.sent.Some? && !Truthy(Field(Response(e.sent, t), "success"))
    ensures e.reply == DeleteOneUnknownSpeech <==> e.sent.None?
  {
    if vivContext != Null && Truthy(memory) && Get(memory, "whenStored") != Null then
      var params := map["actionType" := ActionTag(ActionDeleteOne), "whenStored" := Get(memory, "whenStored")];
      var posted := PostQuery(vivContext, Some(ServiceUrl), Some(params), t);
      if Truthy(Field(posted.reply, "success")) then Exchange(DeletedOneSpeech, posted.sent)
      else Exchange(DeleteOneProblemSpeech, posted.sent)
    else
      Exchange(DeleteOneUnknownSpeech, None)
  }

  /** A memory object without `whenStored` passes the guard of `deleteOne`, which then asks to delete `undefined`. */
  lemma DeleteOneSendsMissingId(vivContext: JsValue, t: Transport)
    requires vivContext != Null
    ensures var e := DeleteOne(vivContext, Obj(map["text" := Str("my keys are in the drawer")]), t);
      e.sent.Some? && Field(e.sent.value.params, "whenStored") == Undefined
  {
  }

  /**
   * `deleteOne` with the guard its error message describes: null or undefined `whenStored` both
   * give the apology without a request, so every request names a memory.
   */
  function DeleteOneChecked(vivContext: JsValue, memory: JsValue, t: Transport): (e: Exchange<string>)
    ensures e.sent.Some? <==> vivContext != Null && Truthy(memory) && !Nullish(Get(memory, "whenStored"))
    ensures e.sent.Some? ==> !Nullish(Field(e.sent.value.params, "whenStored"))
    ensures e.sent.Some? ==> SentFor(e.sent, vivContext, t, map["actionType" := ActionTag(ActionDeleteOne), "whenStored" := Get(memory, "whenStored")])
    ensures e.reply == DeletedOneSpeech <==> e.sent.Some? && Truthy(Field(Response(e.sent, t), "success"))
    ensures e.reply == DeleteOneProblemSpeech <==> e.sent.Some? && !Truthy(Field(Response(e.sent, t), "success"))
    ensures e.reply == DeleteOneUnknownSpeech <==> e.sent.None?
  {
    if vivContext != Null && Truthy(memory) && !Nullish(Get(memory, "whenStored")) then
      var params := map["actionType" := ActionTag(ActionDeleteOne), "whenStored" := Get(memory, "whenStored")];
      var posted := PostQuery(vivContext, Some(ServiceUrl), Some(params), t);
      RequestCarriesHeader(posted.sent.value, vivContext, t, params);
      if Truthy(Field(posted.reply, "success")) then Exchange(DeletedOneSpeech, posted.sent)
      else Exchange(DeleteOneProblemSpeech, posted.sent)
    else
      Exchange(DeleteOneUnknownSpeech, None)
  }

  // -------------------------------------------------------------- getVersion

  /** `body.answers ? body.answers.length : 0`. */
  function AnswerCount(body: Body): JsValue {
    var answers := Field(body, "answers");
    if Truthy(answers) then Get(answers, "length") else Num(0)
  }

  /**
   * `rest.getVersion`: always sends a list request; on success passes the server version through and
   * counts the answers (0 when they are falsy); on failure reports version 'unknown' and count 0.
   */
  function GetVersion(vivContext: JsValue, t: Transport): (e: Exchange<VersionReply>)
    ensures e.sent.Some?
    ensures SentFor(e.sent, vivContext, t, map["actionType" := ActionTag(ActionList)])
    ensures var body := Response(e.sent, t);
      if Truthy(Field(body, "success")) then
        && e.reply.success && e.reply.serverVersion == Field(body, "serverVersion")
        && (Field(body, "answers").Arr? ==> e.reply.memoryCount == Num(|Field(body, "answers").elems|))
        && (!Truthy(Field(body, "answers")) ==> e.reply.memoryCount == Num(0))
      else e.reply == VersionReply(false, Str("unknown"), Num(0))
  {
    var params := map["actionType" := ActionTag(ActionList)];
    var posted := PostQuery(vivContext, Some(ServiceUrl), Some(params), t);
    var body := posted.reply;
    if Truthy(Field(body, "success")) then
      Exchange(VersionReply(true, Field(body, "serverVersion"), AnswerCount(body)), posted.sent)
    else
      Exchange(VersionReply(false, Str("unknown"), Num(0)), posted.sent)
  }

  /**
   * For one response body, the count `getVersion` reports is the number of memories `list` returns.
   * Both send the same request, and the transport answers a request with one body.
   */
  lemma VersionCountMatchesList(vivContext: JsValue, t: Transport)
    requires vivContext != Null
    requires List(vivContext, t).reply.Returned?
    requires var lst := List(vivContext, t).reply.value;
      Truthy(lst.success) && lst.memories.Projected?
    ensures GetVersion(vivContext, t).reply.memoryCount == Num(|List(vivContext, t).reply.value.memories.items|)
  {
  }

  // -------------------------------------------------------------- updateText

  /**
   * `rest.updateText`: always sends the memory id and replacement text; a successful body gives
   * exactly one memory carrying the body's fields, anything else `NoMemories`.
   */
  function UpdateText(vivContext: JsValue, whenStored: JsValue, replacementText: JsValue, t: Transport): (e: Exchange<MemoriesReply>)
    ensures e.sent.Some?
    ensures SentFor(e.sent, vivContext, t,
      map["actionType" := ActionTag(ActionUpdateText), "whenStored" := whenStored, "replacementText" := replacementText])
    ensures var body := Response(e.sent, t);
      if Truthy(Field(body, "success")) then
        && e.reply.success == Bool(true)
        && e.reply.memories.Projected? && |e.reply.memories.items| == 1
        && e.reply.memories.items[0] == Memory(Field(body, "text"), Field(body, "whenStored"), Field(body, "howLongAgo"))
      else e.reply == NoMemories
  {
    var params := map["actionType" := ActionTag(ActionUpdateText), "whenStored" := whenStored, "replacementText" := replacementText];
    var posted := PostQuery(vivContext, Some(ServiceUrl), Some(params), t);
    var body := posted.reply;
    if Truthy(Field(body, "success")) then
      Exchange(MemoriesReply(Bool(true), Projected([ToMemory(Obj(body))])), posted.sent)
    else
      Exchange(NoMemories, posted.sent)
  }

  /** The memory a successful store reports is the one the backend sent back. */
  lemma StoredMemoryEchoed(vivContext: JsValue, statement: JsValue, t: Transport, m: Memory)
    requires Truthy(vivContext) && Truthy(statement)
    requires Response(Memorize(vivContext, statement, t).sent, t) == MemoryObject(m).props["success" := Bool(true)]
    ensures Memorize(vivContext, statement, t).reply == MemoriesReply(Bool(true), Projected([m]))
  {
  }

  /** The memory a successful text update reports is the one the backend sent back. */
  lemma UpdatedMemoryEchoed(vivContext: JsValue, whenStored: JsValue, replacementText: JsValue, t: Transport, m: Memory)
    requires Response(UpdateText(vivContext, whenStored, replacementText, t).sent, t) == MemoryObject(m).props["success" := Bool(true)]
    ensures UpdateText(vivContext, whenStored, replacementText, t).reply == MemoriesReply(Bool(true), Projected([m]))
  {
  }
}
