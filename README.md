# Dictionary lookup widget, modelled in Dafny

The widget reads a word from a text field and looks it up in the public
dictionary API (`https://api.dictionaryapi.dev/api/v2/entries/en/<word>`).
It then replaces the content of a result card with one of five states:
- an empty-input prompt;
- a loading message;
- a "no results" message;
- the first entry: its word, phonetic, optional pronunciation audio, and for
  each part of speech up to three numbered definitions and up to five
  synonyms and antonyms;
- a fixed error message.

A clear button empties the text field.

The model follows `script.js`:

- `Api.dfy`: the API's JSON as datatypes (`Phonetic`, `Definition`,
  `Meaning`, `Entry`), with optional fields as `Option`. `Response` stands for
  what the request produced: a non-array JSON value, an array of entries,
  or a failure of the fetch or of the JSON parse.
- `Query.dfy`: `trim()` (JavaScript's whitespace and line-terminator
  characters) and `toLowerCase()` (ASCII letters), and their composition
  `Normalize`. Proved: a trimmed string has no whitespace at either end, and
  is the unique such core of its input. A normalised query has no upper-case
  letters. It is empty exactly when the input is all whitespace. Normalising
  twice gives the same result as normalising once.
- `Phonetics.dfy`: `Array.prototype.find` as `Find`, and the two lookups
  `find(p => p.text)?.text || ""` and `find(p => p.audio)?.audio`. JavaScript
  truthiness of an optional string is "present and non-empty".
- `Render.dfy`: the rendered entry has two views. The first is a sequence of
  `Line` tokens, one per markup fragment the source appends (the header's
  single template literal is split into three tokens: `Header`, `Separator`
  and `Indent`), given by the
  specification function `Rendered`. The layout rules are proved on it. The
  second is the markup string: `RenderEntry` and `RenderMeaning` build it
  fragment by fragment in nested loops, as the source's `forEach` loops do,
  and are proved to produce `Markup(Rendered(e))`.
- `Widget.dfy`: the states of the result card (`View`), their markup, and the
  class `LookupWidget`, whose fields are the input value and the card's
  content. The source's asynchronous `searchWord` is split where it waits on
  the network:
  - `Search` normalises the input. It then shows either the prompt (and
    returns no request) or the loading message (and returns the request: the
    query and its URL).
  - `Receive` takes that request and the response it produced, and replaces
    the card's content with the result; the not-found message names the
    request's query, as the source's callback names the `word` it captured.

  `Clear` empties the input and leaves the card alone.

Two behaviours of the code are worth stating outright:
- The loading and not-found messages show the normalised (lower-cased,
  trimmed) word, not the text as typed.
- An array response with no entries shows the fixed error message, because
  reading `phonetics` of `data[0]` throws into the catch handler.

The markup `RenderEntry` builds is the string the script assigns to
`innerHTML`, character for character, including the header template's newlines and indentation; the
`Line` tokens carry those after the header's `<hr>` as an `Indent` token.

## Model

| member | source | states |
|---|---|---|
| `Query.Trim` | script.js:8 | the result has no whitespace at either end, sits in the input with only whitespace around it, and is empty exactly when the input is all whitespace |
| `Query.TrimUnique` | script.js:8 | any whitespace-padded core of the input with no whitespace at its ends is the trimmed string, so trimming has one answer |
| `Query.Lower` | script.js:8 | same length, each character lowered, no upper-case letter left |
| `Query.LowerOfLower` | script.js:8 | a string without upper-case letters is its own lower-case form |
| `Query.Normalize` | script.js:8 | the query has no upper-case letters and no surrounding whitespace, and is empty exactly when the input is empty or all whitespace |
| `Query.NormalizeIdempotent` | script.js:8 | normalising a normalised query changes nothing |
| `Phonetics.Find` | script.js:31-33 | `None` exactly when no element passes the test; otherwise the value is the earliest element that passes it |
| `Phonetics.PhoneticText` | script.js:31 | non-empty exactly when some phonetic has a non-empty text, and then it is the text of the first such phonetic; otherwise `""` |
| `Phonetics.AudioUrl` | script.js:33 | absent exactly when no phonetic has a non-empty audio; otherwise the non-empty audio of the first phonetic that has one |
| `Render.Take` | script.js:51 | `slice(0, n)`: the first min(n, length) elements |
| `Render.HeaderShape` | script.js:31-43 | the header line carries the word and the first non-empty phonetic text, has an audio control exactly when some phonetic has audio (the first such audio), and is followed by a separator and the template's closing indentation |
| `Render.BlockDefinitions` | script.js:48-53 | a meaning's block starts with its part of speech, then shows exactly its first min(3, n) definitions in order, numbered 1..n |
| `Render.BlockRelated` | script.js:55-62 | a synonyms line appears exactly when synonyms are present and non-empty, and an antonyms line likewise; each shows the first min(5, n) items, synonyms then antonyms, just before the separator |
| `Render.BlockSeparator` | script.js:63-64 | a meaning's block ends with a separator, and that is its only one |
| `Render.BlocksInOrder` | script.js:47-65 | meaning k's block comes right after the blocks of the meanings before it |
| `Render.BlocksSeparators` | script.js:47-65 | the meanings' blocks hold exactly one separator per meaning |
| `Render.SeparatorCount` | script.js:37-65 | a rendered entry holds 1 + number-of-meanings separators |
| `Render.JoinEnds` | script.js:57-61 | `Join`, the model of `join(", ")`, gives `""` for no items and otherwise text that starts with the first item and ends with the last; `SplitJoin` is its full partner |
| `Render.SplitJoin` | script.js:57 | a non-empty list joined with ", " reads back as exactly its items, in order, when no item contains a comma |
| `Render.RelatedLineLists` | script.js:56-62 | a synonyms or antonyms line lists the first min(5, n) items, at least one, readable back from its markup when none of the items it shows contains a comma |
| `Render.Decimal` | script.js:52 | the number is written as decimal digits; numbers below ten as one digit |
| `Render.RenderMeaning` | script.js:47-65 | the markup one meaning's `forEach` callback appends is the markup of its block |
| `Render.RenderEntry` | script.js:29-65 | the markup built by the header literal and the nested loops is the markup of `Rendered(e)` |
| `Widget.EmptyInputMakesNoRequest` | script.js:8-14 | the prompt "Enter a word to search." is shown, and no request is made, exactly when the input is empty or all whitespace |
| `Widget.LoadingMatchesRequest` | script.js:8-20 | otherwise the loading message's word is the normalised query (non-empty, trimmed, no upper case), the markup contains it, and the request carries that query and the endpoint URL ending in it |
| `Widget.NotFoundNamesWord` | script.js:24-27 | a non-array response shows the not-found message, which contains the searched word |
| `Widget.NotFoundNamesQuery` | script.js:8-27 | a search on a non-blank input whose response is not an array ends on the not-found message for the query that search normalised and requested |
| `Widget.SettleStates` | script.js:22-71 | not found exactly for a non-array; the fixed error exactly for a failure or an empty array; otherwise the rendering of the first entry alone |
| `Widget.ResultSeparators` | script.js:29-67 | a shown result has one separator under the header and one per meaning of the first entry |
| `Widget.LookupWidget.constructor` | script.js:2-4 | the widget starts with the given input value and card content |
| `Widget.LookupWidget.Search` | script.js:7-20 | keeps the input, shows the prompt or the loading message for the normalised input, and returns none for a blank input, otherwise the request for the normalised query and its URL |
| `Widget.LookupWidget.Receive` | script.js:22-73 | replaces the card's content with the markup of the state the response calls for, naming the request's own query when nothing is found |
| `Widget.LookupWidget.Clear` | script.js:82-85 | the input becomes empty and the card's content is unchanged |

## Left out

- The network request and `response.json()` are left out. The host performs them and passes the outcome to `Receive` as a `Response`.
- Overlapping searches are left out. A second search started before the first settles is not cancelled, and whichever response is received last wins. Each `Receive` call models one settlement in isolation.
- DOM lookups, event-listener wiring, the Enter-key filter (it only calls the same search), and `focus()` after clearing are left out. They are UI plumbing.
- `console.error` in the catch handler is left out. It is a logging side effect and is never shown.
- Entries whose shape differs from the API's (a missing `phonetics` or `meanings` field) would throw into the catch handler. They are not modelled. `Entry` always has those fields.
- `Query.Lower`: lowers ASCII letters only; JavaScript's full Unicode `toLowerCase` is not modelled, so `NoUpper` speaks of `A`–`Z` only.
- The markup does no HTML escaping, and the model claims none. The separator count is proved on the `Line` tokens. In the markup text, a word, definition or synonym that itself contains `<hr>` would add more.
- `Render.SplitJoin`: the read-back holds only for a non-empty list of items without commas; a list whose items contain ", " cannot be read back from the joined text, and the empty list joins to `""`, which reads back as one empty item (no line is shown for an empty list, so this case never arises in the markup).
