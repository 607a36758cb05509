/** The assistant panel's transcript and the text the `handleAskAI` handler
    appends for each way the remote call can end. The request itself is not
    modelled; only its outcome is, as seen by the handler. */
module Chat {
  import opened Optional
  import opened Text

  datatype Role = User | Assistant

  datatype Entry = Entry(role: Role, text: string)

  /** What `response.json()` gave: nothing readable, or the two fields the
      handler looks at (`candidates[0].content.parts[0].text` on success,
      `error.message` on failure), each possibly absent. */
  datatype Body = Unreadable | Json(candidateText: Option<string>, errorMessage: Option<string>)

  /** How the request ended: no response at all (the fetch threw), or a
      response with an HTTP status and a body. */
  datatype Outcome = NoResponse | Response(status: nat, body: Body)

  const RateLimited: string := "Rate limit exceeded. Please wait a moment before trying again."
  const Forbidden: string := "Access forbidden. Please check if your API key is valid and your region is supported."
  const NetworkError: string := "Network error reaching AI."
  const ConnectionLost: string := "Gemini connection lost."

  /** `response.ok`: a status in the range 200-299. */
  predicate IsOk(status: nat)
    ensures IsOk(status) ==> status != 429 && status != 403
  {
    200 <= status <= 299
  }

  /** A JavaScript `a || b` on strings: `a` unless it is absent or empty. */
  function OrElse(a: Option<string>, b: string): (r: string)
    ensures a.Some? && a.value != "" ==> r == a.value
    ensures a.None? || a.value == "" ==> r == b
  {
    if a.Some? && a.value != "" then a.value else b
  }

  /** The assistant entry for a response whose status is not ok: the two
      known statuses get fixed wording; any other status reports the
      server's error message, or the status number when there is none or
      the body cannot be read. */
  function ErrorText(status: nat, body: Body): (r: string)
    requires !IsOk(status)
    ensures status == 429 ==> r == RateLimited
    ensures status == 403 ==> r == Forbidden
    ensures status != 429 && status != 403 && body.Unreadable? ==> r == "HTTP Error " + Decimal(status)
    ensures status != 429 && status != 403 && body.Json? ==>
      r == "API Error: " + OrElse(body.errorMessage, Decimal(status))
  {
    if status == 429 then RateLimited
    else if status == 403 then Forbidden
    else match body
      case Unreadable => "HTTP Error " + Decimal(status)
      case Json(_, message) => "API Error: " + OrElse(message, Decimal(status))
  }

  /** The text of the one assistant entry a settled request appends. It is
      never empty. A successful response contributes its candidate text,
      or a fixed fallback when that is missing or empty; a success body
      that cannot be read, like a missing response, is a network error. */
  function ReplyText(o: Outcome): (r: string)
    ensures r != []
    ensures o.NoResponse? ==> r == NetworkError
    ensures o.Response? && o.status == 429 ==> r == RateLimited
    ensures o.Response? && o.status == 403 ==> r == Forbidden
    ensures o.Response? && IsOk(o.status) && o.body.Unreadable? ==> r == NetworkError
    ensures o.Response? && IsOk(o.status) && o.body.Json? ==> r == OrElse(o.body.candidateText, ConnectionLost)
    ensures o.Response? && !IsOk(o.status) && o.status != 429 && o.status != 403 && o.body.Unreadable? ==>
      r == "HTTP Error " + Decimal(o.status)
    ensures o.Response? && !IsOk(o.status) && o.status != 429 && o.status != 403 && o.body.Json? ==>
      r == "API Error: " + OrElse(o.body.errorMessage, Decimal(o.status))
  {
    match o
    case NoResponse => NetworkError
    case Response(status, body) =>
      if !IsOk(status) then ErrorText(status, body)
      else match body
        case Unreadable => NetworkError
        case Json(text, _) => OrElse(text, ConnectionLost)
  }

  /** A failed call whose server gave no message still names the status it
      failed with, and that number can be read back from the entry. */
  lemma ErrorTextNamesStatus(status: nat)
    requires !IsOk(status) && status != 429 && status != 403
    ensures var r := ReplyText(Response(status, Json(None, None)));
      r == "API Error: " + Decimal(status) && DigitsValue(r[|"API Error: "|..]) == status
  {
    var r := ReplyText(Response(status, Json(None, None)));
    assert r[|"API Error: "|..] == Decimal(status);
    DecimalRoundTrip(status);
  }

  /** The transcript as the handler builds it: user and assistant entries
      alternate, starting with the user. */
  ghost predicate Alternates(history: seq<Entry>) {
    && (history != [] ==> history[0].role == User)
    && forall i :: 0 < i < |history| ==> history[i].role != history[i - 1].role
  }

  /** A reply is awaited exactly when the last entry is the user's. */
  ghost predicate AwaitsReply(history: seq<Entry>) {
    history != [] && history[|history| - 1].role == User
  }

  /** Appending the entry whose turn it is keeps the alternation. */
  lemma AlternatesAppend(history: seq<Entry>, e: Entry)
    requires Alternates(history)
    requires e.role == if AwaitsReply(history) then Assistant else User
    ensures Alternates(history + [e])
    ensures AwaitsReply(history + [e]) <==> e.role == User
  {
    var h := history + [e];
    forall i | 0 < i < |h|
      ensures h[i].role != h[i - 1].role
    {
      if i < |history| {
        assert h[i] == history[i] && h[i - 1] == history[i - 1];
      }
    }
  }
}
