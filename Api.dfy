/**
 * The shape of the dictionary API's JSON, as the widget consumes it.
 * Fields the API may omit are `Option`s; a string field the API may send
 * empty is kept as a string and tested for emptiness where the widget does.
 */
module Api {
  import opened Wrappers

  /** One pronunciation: optional text (IPA) and optional audio URL. */
  datatype Phonetic = Phonetic(text: Option<string>, audio: Option<string>)

  datatype Definition = Definition(definition: string)

  /** The definitions of a word under one part of speech. */
  datatype Meaning = Meaning(
    partOfSpeech: string,
    definitions: seq<Definition>,
    synonyms: Option<seq<string>>,
    antonyms: Option<seq<string>>)

  /** One dictionary result for a word. */
  datatype Entry = Entry(word: string, phonetics: seq<Phonetic>, meanings: seq<Meaning>)

  /**
   * What the request produced, once the host has fetched and parsed it:
   * a JSON value that is not an array (the API's "no definitions" object),
   * an array of entries, or a failure anywhere on the fetch/parse path
   * (rejected request, body that is not JSON).
   */
  datatype Response = NonArray | Array(entries: seq<Entry>) | Failure
}
