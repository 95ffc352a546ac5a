/** `fetch_english_text`: the World English Bible text from the JSON API, one
    `**n** text` line per verse. The HTTP request and the JSON decoding are
    outside the model; their outcome is the `ApiResponse` parameter. */
module English {
  import opened Wrappers
  import opened Text

  /** One element of the `verses` array: `str(v['verse'])` and `v['text']`. */
  datatype Verse = Verse(verse: string, text: string)

  /** The decoded body: the `verses` array and the `text` field, each possibly absent. */
  datatype Body = Body(verses: Option<seq<Verse>>, text: Option<string>)

  /** What the request came back with. `RequestFailed` is an exception raised by the
      request; `json` is None when the body does not decode. */
  datatype ApiResponse = RequestFailed | ApiResponse(status: nat, json: Option<Body>)

  const FetchError := "Error fetching English text."

  /** `f"**{v['verse']}** {v['text']}"`. */
  function VerseLine(v: Verse): string
  {
    "**" + v.verse + "** " + v.text
  }

  function VerseLines(verses: seq<Verse>): (lines: seq<string>)
    ensures |lines| == |verses|
    ensures forall i | 0 <= i < |verses| :: lines[i] == VerseLine(verses[i])
  {
    if verses == [] then [] else [VerseLine(verses[0])] + VerseLines(verses[1..])
  }

  /** The list comprehension joined with newlines. */
  function FormatVerses(verses: seq<Verse>): string
  {
    Join(VerseLines(verses), "\n")
  }

  /** The text `fetch_english_text` returns. */
  function EnglishText(response: ApiResponse): (r: string)
    ensures response.RequestFailed? || response.status != 200 || response.json.None? ==> r == FetchError
    ensures response.ApiResponse? && response.status == 200 && response.json.Some?
            && response.json.value.verses.None? && response.json.value.text.Some?
            ==> r == response.json.value.text.value
  {
    match response
    case RequestFailed => FetchError
    case ApiResponse(status, json) =>
      if status != 200 || json.None? then FetchError
      else if json.value.verses.Some? then FormatVerses(json.value.verses.value)
      else if json.value.text.Some? then json.value.text.value
      // a body with neither key raises KeyError, caught by the same handler
      else FetchError
  }

  /** Given N verses none of whose fields contains a newline, the text splits on
      newlines into exactly N lines, the i-th being `**verse** text` of the i-th
      verse in array order. */
  lemma EnglishVerseLines(response: ApiResponse, verses: seq<Verse>)
    requires response.ApiResponse? && response.status == 200 && response.json.Some?
    requires response.json.value.verses == Some(verses)
    requires |verses| >= 1
    requires forall i | 0 <= i < |verses| :: '\n' !in verses[i].verse && '\n' !in verses[i].text
    ensures |Split(EnglishText(response), '\n')| == |verses|
    ensures forall i | 0 <= i < |verses| ::
      Split(EnglishText(response), '\n')[i] == "**" + verses[i].verse + "** " + verses[i].text
  {
    var lines := VerseLines(verses);
    forall i | 0 <= i < |lines| ensures '\n' !in lines[i] {
      assert lines[i] == "**" + verses[i].verse + "** " + verses[i].text;
    }
    SplitJoin(lines, '\n');
  }

  /** An empty `verses` array gives the empty text (which the poster later replaces). */
  lemma EnglishNoVerses(response: ApiResponse)
    requires response.ApiResponse? && response.status == 200 && response.json.Some?
    requires response.json.value.verses == Some([])
    ensures EnglishText(response) == ""
  {
  }
}
