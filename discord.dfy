/** `post_to_discord`: the two passage texts are made fit for an embed field
    before the webhook call, and the call's status decides success. The payload
    layout, the links and the request itself are outside the model. */
module Discord {
  import opened Text

  /** The per-field limit the script assumes, and the prefix it keeps when cutting. */
  const FieldLimit := 2000
  /** Room the script leaves for the suffix: it keeps `FieldLimit - SuffixRoom` characters. */
  const SuffixRoom := 50
  /** The limit Discord actually places on an embed field's value. */
  const DiscordFieldLimit := 1024

  const EnglishMissing := "Error: No English text available"
  const KoreanMissing := "Error: No Korean text available"
  const EnglishSuffix := "... [Click link above to read full text]"
  const KoreanSuffix := "..."

  /** A field value: blank text is replaced by `missing`, and text longer than
      `limit` is cut to its first `limit - 50` characters followed by `suffix`. */
  function FieldValue(text: string, missing: string, suffix: string, limit: nat): (r: string)
    requires |missing| <= limit && |suffix| <= SuffixRoom <= limit
    ensures !IsBlank(missing) && !IsBlank(suffix) ==> !IsBlank(r)
    ensures |r| <= limit
    ensures IsBlank(text) ==> r == missing
    ensures !IsBlank(text) && |text| <= limit ==> r == text
    ensures !IsBlank(text) && |text| > limit ==>
      |r| == limit - SuffixRoom + |suffix| && r[..limit - SuffixRoom] == text[..limit - SuffixRoom]
      && r[limit - SuffixRoom..] == suffix
  {
    var t := if IsBlank(text) then missing else text;
    if |t| > limit then
      var r := t[..limit - SuffixRoom] + suffix;
      assert !IsBlank(suffix) ==> !IsBlank(r) by {
        if !IsBlank(suffix) {
          var k :| 0 <= k < |suffix| && !IsSpace(suffix[k]);
          assert r[limit - SuffixRoom + k] == suffix[k];
        }
      }
      r
    else t
  }

  /** Normalising a value that is already normalised changes nothing. */
  lemma FieldValueIdempotent(text: string, missing: string, suffix: string, limit: nat)
    requires !IsBlank(missing) && !IsBlank(suffix)
    requires |missing| <= limit && |suffix| <= SuffixRoom <= limit
    ensures FieldValue(FieldValue(text, missing, suffix, limit), missing, suffix, limit)
            == FieldValue(text, missing, suffix, limit)
  {
  }

  /** The reassignments of `eng_text` and `kor_text` before the payload is built:
      each value ends up non-blank and at most 2000 characters long, an untouched
      copy of a non-blank text that fits, or the first 1950 characters of a longer
      one followed by its suffix (1990 characters for English, 1953 for Korean). */
  method PrepareFields(eng: string, kor: string) returns (engValue: string, korValue: string)
    ensures engValue == FieldValue(eng, EnglishMissing, EnglishSuffix, FieldLimit)
    ensures korValue == FieldValue(kor, KoreanMissing, KoreanSuffix, FieldLimit)
    ensures !IsBlank(engValue) && |engValue| <= FieldLimit
    ensures !IsBlank(korValue) && |korValue| <= FieldLimit
    ensures !IsBlank(eng) && |eng| > FieldLimit ==> |engValue| == 1990
    ensures !IsBlank(kor) && |kor| > FieldLimit ==> |korValue| == 1953
  {
    assert !IsSpace(EnglishMissing[0]) && !IsSpace(KoreanMissing[0]);
    assert !IsSpace(EnglishSuffix[0]) && !IsSpace(KoreanSuffix[0]);
    engValue, korValue := eng, kor;
    if IsBlank(engValue) {
      engValue := EnglishMissing;
    }
    if IsBlank(korValue) {
      korValue := KoreanMissing;
    }
    if |engValue| > FieldLimit {
      engValue := engValue[..FieldLimit - SuffixRoom] + EnglishSuffix;
    }
    if |korValue| > FieldLimit {
      korValue := korValue[..FieldLimit - SuffixRoom] + KoreanSuffix;
    }
  }

  /** As written, every non-blank text of 1025 to 2000 characters is posted
      whole, past the 1024 characters Discord accepts in one embed field, in
      the English field and in the Korean field alike. */
  lemma AsWrittenPassesOversizedText(text: string)
    requires !IsBlank(text) && DiscordFieldLimit < |text| <= FieldLimit
    ensures FieldValue(text, EnglishMissing, EnglishSuffix, FieldLimit) == text
    ensures FieldValue(text, KoreanMissing, KoreanSuffix, FieldLimit) == text
    ensures |text| > DiscordFieldLimit
  {
  }

  /** One such input: a 1500-character English text of `a`s. */
  lemma AsWrittenExceedsDiscordLimit(text: string)
    requires |text| == 1500 && forall i | 0 <= i < |text| :: text[i] == 'a'
    ensures |FieldValue(text, EnglishMissing, EnglishSuffix, FieldLimit)| > DiscordFieldLimit
  {
    assert !IsSpace(EnglishMissing[0]) && !IsSpace(EnglishSuffix[0]);
    assert !IsSpace(text[0]);
  }

  /** The normalisation with Discord's own field limit: the value always fits. */
  function DiscordFieldValue(text: string, missing: string, suffix: string): (r: string)
    requires |missing| <= DiscordFieldLimit && |suffix| <= SuffixRoom
    ensures !IsBlank(missing) && !IsBlank(suffix) ==> !IsBlank(r)
    ensures |r| <= DiscordFieldLimit
    ensures !IsBlank(text) && |text| <= DiscordFieldLimit ==> r == text
  {
    FieldValue(text, missing, suffix, DiscordFieldLimit)
  }

  /** The status check after the webhook call. */
  predicate PostSucceeded(status: int)
  {
    status in [200, 204]
  }

  /** Success is reported for exactly the two statuses 200 (OK) and 204 (No
      Content). */
  lemma PostSucceededStatuses(status: int)
    ensures PostSucceeded(status) <==> status == 200 || status == 204
  {
  }
}
