/** What `consultar_metar` and `consultar_taf` do with the messages the weather
    service returns: decode each one, or report that there were none or that the
    request failed. The request and the JSON parsing themselves are not modelled. */
module Feeds {
  import opened Text
  import opened Decoder
  import opened DecoderFacts
  import opened Alerts

  /** The outcome of one request to the weather service: it failed (network error,
      malformed JSON, a message without text), or it returned raw messages. */
  datatype Feed = Failed | Messages(mens: seq<string>)

  const MetarNoData := "Sem informações METAR" + " disponíveis para" + " este aeródromo."
  const MetarFailure := "Erro ao consultar METAR"
  const TafNoData := "Sem informações TAF" + " disponíveis para" + " este aeródromo."
  const TafFailure := "Erro ao consultar TAF"

  /** The texts `consultar_metar` returns. */
  function MetarTexts(feed: Feed): (texts: seq<string>)
    ensures |texts| == if feed.Messages? && |feed.mens| > 0 then |feed.mens| else 1
  {
    match feed
    case Failed => [MetarFailure]
    case Messages(ms) =>
      if |ms| == 0 then [MetarNoData]
      else seq(|ms|, k requires 0 <= k < |ms| => MetarSummary(ms[k]))
  }

  /** The texts `consultar_taf` returns. */
  function TafTexts(feed: Feed): (texts: seq<string>)
    ensures |texts| == if feed.Messages? && |feed.mens| > 0 then |feed.mens| else 1
  {
    match feed
    case Failed => [TafFailure]
    case Messages(ms) =>
      if |ms| == 0 then [TafNoData]
      else seq(|ms|, k requires 0 <= k < |ms| => TafSummary(ms[k]))
  }

  /** Some message of the feed, once normalised, contains `TSRA`, `FG` or `SN`. */
  predicate MetarFeedHazard(feed: Feed) {
    feed.Messages? && exists k | 0 <= k < |feed.mens| :: MetarHazard(Normalize(feed.mens[k]))
  }

  /** Some message of the feed, once normalised, contains `TSRA`, `FG`, `SN` or `RA`. */
  predicate TafFeedHazard(feed: Feed) {
    feed.Messages? && exists k | 0 <= k < |feed.mens| :: TafHazard(Normalize(feed.mens[k]))
  }

  lemma MarkerLetters()
    ensures AlertMarker[1] == 'l' && AlertMarker[2] == 'e'
  {
  }

  lemma MetarTextLetters()
    ensures 'l' !in MetarNoData && 'e' !in MetarFailure
  {
  }

  lemma TafTextLetters()
    ensures 'l' !in TafNoData && 'e' !in TafFailure
  {
  }

  /** None of the fixed texts says `Alerta`. */
  lemma FixedTextsQuiet()
    ensures !AnyAlert([MetarNoData]) && !AnyAlert([MetarFailure])
    ensures !AnyAlert([TafNoData]) && !AnyAlert([TafFailure])
  {
    MarkerLetters();
    MetarTextLetters();
    TafTextLetters();
    AbsentChar(MetarNoData, AlertMarker, 1);
    AbsentChar(MetarFailure, AlertMarker, 2);
    AbsentChar(TafNoData, AlertMarker, 1);
    AbsentChar(TafFailure, AlertMarker, 2);
    AnyAlertSingle(MetarNoData);
    AnyAlertSingle(MetarFailure);
    AnyAlertSingle(TafNoData);
    AnyAlertSingle(TafFailure);
  }

  /** `ha_alertas` over the METAR texts of a feed holds exactly when some message has
      a hazard: a failed or empty feed never raises one. */
  lemma MetarFeedAlertIff(feed: Feed)
    ensures AnyAlert(MetarTexts(feed)) <==> MetarFeedHazard(feed)
  {
    FixedTextsQuiet();
    if feed.Messages? && |feed.mens| > 0 {
      var ms := feed.mens;
      var texts := MetarTexts(feed);
      forall k | 0 <= k < |ms| ensures Contains(texts[k], AlertMarker) <==> MetarHazard(Normalize(ms[k])) {
        MetarAlertIff(ms[k]);
      }
    }
  }

  /** The same for the TAF texts. */
  lemma TafFeedAlertIff(feed: Feed)
    ensures AnyAlert(TafTexts(feed)) <==> TafFeedHazard(feed)
  {
    FixedTextsQuiet();
    if feed.Messages? && |feed.mens| > 0 {
      var ms := feed.mens;
      var texts := TafTexts(feed);
      forall k | 0 <= k < |ms| ensures Contains(texts[k], AlertMarker) <==> TafHazard(Normalize(ms[k])) {
        TafAlertIff(ms[k]);
      }
    }
  }
}
