/** `generate_story`: the shapes of the inference endpoint's decoded reply
    and the text the wrapper hands back for each (app.py:87-101). */
module Generation {
  import opened Json
  import opened PyText

  const GeneratedText: string := "generated_text"
  const UnexpectedFormat: string := "Error: Unexpected response format. Please try again."
  const ErrorPrefix: string := "Error generating story: "

  /** The outcome of evaluating a Python expression: a value, or an
      exception that propagates to the enclosing `except`. */
  datatype Eval<T> = Value(value: T) | Raised

  /** Python's `key in x`: key membership for a dict, element equality for
      a list, substring for a str, and a TypeError for anything else. */
  function In(key: string, x: Json): (r: Eval<bool>)
    ensures r.Raised? <==> (x.JNull? || x.JBool? || x.JNumber?)
  {
    match x
    case JObject(fields) => Value(key in fields)
    case JArray(items) => Value(JString(key) in items)
    case JString(s) => Value(Contains(s, key))
    case _ => Raised
  }

  /** Python's `x[key]` with a str key: a dict lookup; a list or a str
      refuses str indices and anything else is not subscriptable. */
  function Subscript(x: Json, key: string): (r: Eval<Json>)
    ensures r.Value? <==> (x.JObject? && key in x.fields)
  {
    match x
    case JObject(fields) => if key in fields then Value(fields[key]) else Raised
    case _ => Raised
  }

  /** The if/elif chain on the decoded reply, tried in source order; `Raised`
      is an exception the chain itself throws. */
  function Dispatch(result: Json): (r: Eval<Json>)
    // 1. a non-empty list whose head is a dict with "generated_text": that field
    ensures result.JArray? && |result.items| > 0 && result.items[0].JObject? &&
            GeneratedText in result.items[0].fields
            ==> r == Value(result.items[0].fields[GeneratedText])
    // 2. a dict with "generated_text": that field
    ensures result.JObject? && GeneratedText in result.fields
            ==> r == Value(result.fields[GeneratedText])
    // 3. any other non-empty list: its head, unless testing the head raised
    ensures result.JArray? && |result.items| > 0 && r.Value? &&
            !(result.items[0].JObject? && GeneratedText in result.items[0].fields)
            ==> r == Value(result.items[0])
    // 4. anything else: the fixed error text
    ensures !(result.JArray? && |result.items| > 0) &&
            !(result.JObject? && GeneratedText in result.fields)
            ==> r == Value(JString(UnexpectedFormat))
    // The chain raises exactly when the head of a non-empty list is a scalar,
    // or "has" the key only in the list or substring sense of `in`.
    ensures r.Raised? <==>
            (result.JArray? && |result.items| > 0 &&
             match result.items[0]
             case JNull | JBool(_) | JNumber(_) => true
             case JString(s) => Contains(s, GeneratedText)
             case JArray(xs) => JString(GeneratedText) in xs
             case JObject(_) => false)
  {
    var headTest := if result.JArray? && |result.items| > 0
                    then In(GeneratedText, result.items[0]) else Value(false);
    match headTest
    case Raised => Raised
    case Value(true) => Subscript(result.items[0], GeneratedText)
    case Value(false) =>
      if result.JObject? && GeneratedText in result.fields then Value(result.fields[GeneratedText])
      else if result.JArray? && |result.items| > 0 then Value(result.items[0])
      else Value(JString(UnexpectedFormat))
  }

  /** What `generate_story` returns. `reply` is the decoded response body, or
      None when the POST or `response.json()` raised; `detail` stands for
      `str(e)` of whichever exception was caught. Nothing escapes: the result
      is either what the dispatch chose or the error text. */
  function GenerateStory(reply: Option<Json>, detail: string): (r: Json)
    ensures reply.None? ==> r == JString(ErrorPrefix + detail)
    ensures reply.Some? && Dispatch(reply.value).Value? ==> r == Dispatch(reply.value).value
    ensures reply.Some? && Dispatch(reply.value).Raised? ==> r == JString(ErrorPrefix + detail)
  {
    match reply
    case None => JString(ErrorPrefix + detail)
    case Some(v) =>
      match Dispatch(v)
      case Value(x) => x
      case Raised => JString(ErrorPrefix + detail)
  }
}
