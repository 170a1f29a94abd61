/** The two alert predicates: `ha_alertas` over decoded weather summaries and
    `ha_alerta_notam` over NOTAM records. */
module Alerts {
  import opened Text
  import opened Decoder
  import opened DecoderFacts

  // ---------------------------------------------------------------------------
  // `ha_alertas`
  // ---------------------------------------------------------------------------

  /** Some text of the list contains the word `Alerta`. */
  predicate AnyAlert(texts: seq<string>) {
    exists k | 0 <= k < |texts| :: Contains(texts[k], AlertMarker)
  }

  /** `ha_alertas`: scan the texts in order and stop at the first one that contains
      `Alerta`. */
  method HasAlerts(textos: seq<string>) returns (found: bool)
    ensures found <==> AnyAlert(textos)
    ensures !found ==> forall k | 0 <= k < |textos| :: !Contains(textos[k], AlertMarker)
  {
    var n := 0;
    while n < |textos|
      invariant n <= |textos|
      invariant forall k | 0 <= k < n :: !Contains(textos[k], AlertMarker)
    {
      if Contains(textos[n], AlertMarker) {
        return true;
      }
      n := n + 1;
    }
    return false;
  }

  /** Alerts in a concatenation are alerts in one of its parts. */
  lemma AnyAlertAppend(a: seq<string>, b: seq<string>)
    ensures AnyAlert(a + b) <==> AnyAlert(a) || AnyAlert(b)
  {
    if AnyAlert(a + b) {
      var k :| 0 <= k < |a + b| && Contains((a + b)[k], AlertMarker);
      if k >= |a| {
        assert (a + b)[k] == b[k - |a|];
      }
    }
    if AnyAlert(a) {
      var k :| 0 <= k < |a| && Contains(a[k], AlertMarker);
      assert (a + b)[k] == a[k];
    }
    if AnyAlert(b) {
      var k :| 0 <= k < |b| && Contains(b[k], AlertMarker);
      assert (a + b)[|a| + k] == b[k];
    }
  }

  /** A list of one text raises an alert exactly when that text contains `Alerta`. */
  lemma AnyAlertSingle(t: string)
    ensures AnyAlert([t]) <==> Contains(t, AlertMarker)
  {
    assert [t][0] == t;
  }

  /** A list holding one METAR summary raises an alert exactly when the normalised
      message contains `TSRA`, `FG` or `SN`. */
  lemma MetarSummaryAlert(metar: string)
    ensures AnyAlert([MetarSummary(metar)]) <==> MetarHazard(Normalize(metar))
  {
    MetarAlertIff(metar);
    AnyAlertSingle(MetarSummary(metar));
  }

  /** A list holding one TAF summary raises an alert exactly when the normalised
      message contains `TSRA`, `FG`, `SN` or `RA`. */
  lemma TafSummaryAlert(taf: string)
    ensures AnyAlert([TafSummary(taf)]) <==> TafHazard(Normalize(taf))
  {
    TafAlertIff(taf);
    AnyAlertSingle(TafSummary(taf));
  }

  // ---------------------------------------------------------------------------
  // `ha_alerta_notam`
  // ---------------------------------------------------------------------------

  /** The record built for one NOTAM item: code, location, date and free text. */
  datatype Notam = Notam(codigo: string, localidade: string, dataHora: string, informacao: string)

  const ClosedWord := "FECHADO"
  const CancelledWord := "CANCELADO"

  /** The NOTAM text, upper-cased, says the aerodrome is closed or something is
      cancelled. */
  predicate NotamHazard(n: Notam) {
    var info := AsciiUpper(n.informacao);
    Contains(info, ClosedWord) || Contains(info, CancelledWord)
  }

  /** `ha_alerta_notam`: `any` over the records, left to right. */
  function HasNotamAlert(notams: seq<Notam>): (b: bool)
    ensures b <==> exists k | 0 <= k < |notams| :: NotamHazard(notams[k])
  {
    if |notams| == 0 then false
    else if NotamHazard(notams[0]) then true
    else
      var rest := HasNotamAlert(notams[1..]);
      assert forall k | 1 <= k < |notams| :: notams[k] == notams[1..][k - 1];
      rest
  }

  /** NOTAM alerts in a concatenation are alerts in one of its parts. */
  lemma NotamAlertAppend(a: seq<Notam>, b: seq<Notam>)
    ensures HasNotamAlert(a + b) <==> HasNotamAlert(a) || HasNotamAlert(b)
  {
    if HasNotamAlert(a + b) {
      var k :| 0 <= k < |a + b| && NotamHazard((a + b)[k]);
      if k >= |a| {
        assert (a + b)[k] == b[k - |a|];
      }
    }
    if HasNotamAlert(a) {
      var k :| 0 <= k < |a| && NotamHazard(a[k]);
      assert (a + b)[k] == a[k];
    }
    if HasNotamAlert(b) {
      var k :| 0 <= k < |b| && NotamHazard(b[k]);
      assert (a + b)[|a| + k] == b[k];
    }
  }

  /** The test ignores the case of ASCII letters: any spelling of `fechado` or
      `cancelado` in the text raises the alert. */
  lemma NotamHazardIgnoresCase(n: Notam, word: string)
    requires AsciiUpper(word) == ClosedWord || AsciiUpper(word) == CancelledWord
    requires Contains(n.informacao, word)
    ensures NotamHazard(n)
  {
    ContainsUpper(n.informacao, word);
  }

  /** Upper-casing the text first changes nothing. */
  lemma NotamHazardUpper(n: Notam)
    ensures NotamHazard(n.(informacao := AsciiUpper(n.informacao))) <==> NotamHazard(n)
  {
    AsciiUpperIdempotent(n.informacao);
  }

  /** The text given to a NOTAM that has none. */
  const DefaultInfo := "Sem descrição"

  lemma DefaultInfoLetters()
    ensures 'F' !in DefaultInfo && 'f' !in DefaultInfo && 'L' !in DefaultInfo && 'l' !in DefaultInfo
  {
  }

  /** The default text `Sem descrição` given to a NOTAM without one raises no alert. */
  lemma DefaultInfoIsQuiet(n: Notam)
    requires n.informacao == DefaultInfo
    ensures !NotamHazard(n)
  {
    var info := AsciiUpper(n.informacao);
    DefaultInfoLetters();
    UpperLacks(n.informacao, 'F');
    UpperLacks(n.informacao, 'L');
    assert ClosedWord[0] == 'F' && CancelledWord[5] == 'L';
    AbsentChar(info, ClosedWord, 0);
    AbsentChar(info, CancelledWord, 5);
  }
}
