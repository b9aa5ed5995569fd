/**
 * The lookup widget: the input field's value, the result card's content, and
 * the search and clear actions that update them.
 *
 * The source's search runs in two halves separated by the network request:
 * `Search` normalises the input and either shows the empty-input prompt
 * (making no request) or shows the loading message and issues the request;
 * `Receive` settles the card once the host hands back what the request
 * produced.
 */
module Widget {
  import opened Wrappers
  import opened Api
  import opened Query
  import opened Render

  /** The states the result card can show. */
  datatype View =
    | EmptyPrompt
    | Loading(word: string)
    | NotFound(word: string)
    | Result(lines: seq<Line>)
    | Error

  const Endpoint: string := "https://api.dictionaryapi.dev/api/v2/entries/en/"

  const EmptyPromptMarkup: string := "<p>Enter a word to search.</p>"
  const ErrorMarkup: string := "<p>\U{26A0}\U{FE0F} Error fetching data. Please check your network or try again later.</p>"

  function LoadingMarkup(word: string): string {
    "<p>\U{23F3} Searching for \"<b>" + word + "</b>\"...</p>"
  }

  function NotFoundMarkup(word: string): string {
    "<p>No results found for \"<b>" + word + "</b>\". Try another word.</p>"
  }

  /** The result card's content for each state. */
  function ViewMarkup(v: View): string {
    match v
    case EmptyPrompt => EmptyPromptMarkup
    case Loading(word) => LoadingMarkup(word)
    case NotFound(word) => NotFoundMarkup(word)
    case Result(lines) => Markup(lines)
    case Error => ErrorMarkup
  }

  /** The URL the search requests for query `word`. */
  function RequestUrl(word: string): string {
    Endpoint + word
  }

  /** What the card shows as soon as the search is triggered. */
  function Start(input: string): View {
    var word := Normalize(input);
    if word == "" then EmptyPrompt else Loading(word)
  }

  /** A request in flight: the query it was issued for and the URL it fetches. */
  datatype Request = Request(word: string, url: string)

  /** The request the search issues, if any. */
  function RequestFor(input: string): Option<Request> {
    var word := Normalize(input);
    if word == "" then None else Some(Request(word, RequestUrl(word)))
  }

  /** What the card shows once the request for `word` has produced `response`. */
  function Settle(word: string, response: Response): View {
    match response
    case NonArray => NotFound(word)
    case Failure => Error
    case Array(entries) =>
      // `data[0]` of an empty array is undefined, and reading its
      // `phonetics` throws into the catch handler
      if entries == [] then Error else Result(Rendered(entries[0]))
  }

  /** `t` occurs in `s` at offset `i`. */
  predicate OccursAt(s: string, t: string, i: nat) {
    i + |t| <= |s| && s[i..i + |t|] == t
  }

  ghost predicate Contains(s: string, t: string) {
    exists i: nat :: OccursAt(s, t, i)
  }

  // ---------------------------------------------------------------------------
  // Properties of the search

  /**
   * An input that is empty or only whitespace shows the prompt and makes no
   * request; any other input shows the loading message and makes one.
   */
  lemma EmptyInputMakesNoRequest(input: string)
    ensures Start(input) == EmptyPrompt <==> AllWhitespace(input)
    ensures RequestFor(input).None? <==> AllWhitespace(input)
    ensures ViewMarkup(Start(input)) == "<p>Enter a word to search.</p>" <==> AllWhitespace(input)
  {
  }

  /**
   * The loading message and the request path carry the same query, and that
   * query has no surrounding whitespace and no upper-case letters.
   */
  lemma LoadingMatchesRequest(input: string)
    requires !AllWhitespace(input)
    ensures Start(input).Loading?
    ensures var word := Start(input).word;
      && word == Normalize(input)
      && word != "" && Trimmed(word) && NoUpper(word)
      && RequestFor(input) == Some(Request(word, Endpoint + word))
      && Contains(ViewMarkup(Start(input)), word)
  {
    var word := Normalize(input);
    var m := ViewMarkup(Start(input));
    var k := |"<p>\U{23F3} Searching for \"<b>"|;
    assert OccursAt(m, word, k);
  }

  /** A response that is not an array shows the not-found message naming the query. */
  lemma NotFoundNamesWord(word: string, response: Response)
    requires response.NonArray?
    ensures Settle(word, response) == NotFound(word)
    ensures Contains(ViewMarkup(Settle(word, response)), word)
  {
    var m := ViewMarkup(NotFound(word));
    var k := |"<p>No results found for \"<b>"|;
    assert OccursAt(m, word, k);
  }

  /**
   * A search whose response is not an array ends on the not-found message
   * for the query that search normalised and requested.
   */
  lemma NotFoundNamesQuery(input: string)
    requires !AllWhitespace(input)
    ensures RequestFor(input).Some?
    ensures Settle(RequestFor(input).value.word, NonArray) == NotFound(Normalize(input))
    ensures Contains(ViewMarkup(Settle(RequestFor(input).value.word, NonArray)), Normalize(input))
  {
    NotFoundNamesWord(Normalize(input), NonArray);
  }

  /**
   * The card settles in exactly the state the response calls for: not found
   * for a non-array, the fixed error for a failure or an empty array, and
   * otherwise the rendering of the first entry, whatever entries follow it.
   */
  lemma SettleStates(word: string, response: Response)
    ensures Settle(word, response).NotFound? <==> response.NonArray?
    ensures Settle(word, response) == Error <==> response.Failure? || response == Array([])
    ensures Settle(word, response).Result? <==> response.Array? && response.entries != []
    ensures Settle(word, response).Result? ==>
      Settle(word, response).lines == Rendered(response.entries[0])
      && Settle(word, response) == Settle(word, Array([response.entries[0]]))
    ensures !Settle(word, response).EmptyPrompt? && !Settle(word, response).Loading?
  {
  }

  /** A rendered result has one separator under the header and one after each meaning. */
  lemma ResultSeparators(word: string, entries: seq<Entry>)
    requires entries != []
    ensures Settle(word, Array(entries)).Result?
    ensures multiset(Settle(word, Array(entries)).lines)[Separator] == 1 + |entries[0].meanings|
  {
    assert Settle(word, Array(entries)) == Result(Rendered(entries[0]));
    SeparatorCount(entries[0]);
  }

  // ---------------------------------------------------------------------------
  // The widget's state

  class LookupWidget {
    /** The text field's value (`wordInput.value`). */
    var inputValue: string
    /** The result card's content (`resultDiv.innerHTML`). */
    var resultContent: string

    constructor (input: string, content: string)
      ensures inputValue == input && resultContent == content
    {
      inputValue := input;
      resultContent := content;
    }

    /**
     * Starts a search on the current input: replaces the card's content with
     * the prompt or the loading message and returns the request it issues
     * (the query and its URL), or `None` when it makes no request.
     */
    method Search() returns (request: Option<Request>)
      modifies this`resultContent
      ensures inputValue == old(inputValue)
      ensures resultContent == ViewMarkup(Start(inputValue))
      ensures request == RequestFor(inputValue)
      ensures request.Some? ==>
        request.value.word == Normalize(inputValue) && request.value.url == RequestUrl(request.value.word)
    {
      // `Start` and `RequestFor` hold the branch on the normalised query
      resultContent := ViewMarkup(Start(inputValue));
      request := RequestFor(inputValue);
    }

    /**
     * Settles the card once `request`, as returned by `Search`, has produced
     * `response`; the not-found message names the query it was issued for.
     */
    method Receive(request: Request, response: Response)
      modifies this`resultContent
      ensures inputValue == old(inputValue)
      ensures resultContent == ViewMarkup(Settle(request.word, response))
    {
      match response {
        case NonArray =>
          resultContent := NotFoundMarkup(request.word);
        case Failure =>
          resultContent := ErrorMarkup;
        case Array(entries) =>
          if entries == [] {
            resultContent := ErrorMarkup;
          } else {
            var output := RenderEntry(entries[0]);
            resultContent := output;
          }
      }
    }

    /** The clear button: empties the input field and leaves the card alone. */
    method Clear()
      modifies this`inputValue
      ensures inputValue == ""
      ensures resultContent == old(resultContent)
    {
      inputValue := "";
    }
  }
}
