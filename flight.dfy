/** The decision at the end of the route check: the runway flag of both legs and
    the alerts of both aerodromes give a safe, conditional or unsafe verdict. */
module Flight {
  import opened Alerts
  import opened Runways
  import opened Feeds

  /** The three verdicts the page can show. */
  datatype Condition = Safe | Conditional | Unsafe

  /** The verdict branch: runways decide first; alerts only lower a pass to
      conditional. */
  function Verdict(pistaOk: bool, alertas: bool): (c: Condition)
    ensures c == Safe <==> pistaOk && !alertas
    ensures c == Conditional <==> pistaOk && alertas
    ensures c == Unsafe <==> !pistaOk
  {
    if pistaOk && !alertas then Safe
    else if pistaOk then Conditional
    else Unsafe
  }

  /** Everything fetched for one aerodrome: its runway data, its NOTAMs and the texts
      of its METAR and TAF feeds. */
  datatype Aerodrome = Aerodrome(rotaer: RunwayData, notam: seq<Notam>, metar: seq<string>, taf: seq<string>)

  /** The alert disjunction over both aerodromes, in the source's order: METAR of
      origin and destination, TAF of origin and destination, NOTAMs of both. It is
      the same as one scan over all the weather texts and one over all the NOTAMs. */
  function RouteAlerts(origem: Aerodrome, destino: Aerodrome): (b: bool)
    ensures b <==> AnyAlert(origem.metar + destino.metar + origem.taf + destino.taf)
                   || HasNotamAlert(origem.notam + destino.notam)
  {
    AnyAlertAppend(origem.metar, destino.metar);
    AnyAlertAppend(origem.metar + destino.metar, origem.taf);
    AnyAlertAppend(origem.metar + destino.metar + origem.taf, destino.taf);
    NotamAlertAppend(origem.notam, destino.notam);
    AnyAlert(origem.metar) || AnyAlert(destino.metar) || AnyAlert(origem.taf) || AnyAlert(destino.taf)
      || HasNotamAlert(origem.notam) || HasNotamAlert(destino.notam)
  }

  /** The two legs of the route, origin first. */
  function RouteLegs(origem: Aerodrome, destino: Aerodrome): seq<Leg> {
    [Leg("Origem", origem.rotaer), Leg("Destino", destino.rotaer)]
  }

  /** The verdict for the route. */
  function FlightCondition(origem: Aerodrome, destino: Aerodrome, takeoff: nat, landing: nat): Condition {
    Verdict(LegsOk(RouteLegs(origem, destino), takeoff, landing), RouteAlerts(origem, destino))
  }

  /** The route check as the page runs it: the loop over the legs, the six alert
      tests, then the verdict. */
  method EvaluateFlight(origem: Aerodrome, destino: Aerodrome, takeoff: nat, landing: nat)
    returns (relatorios: seq<string>, condicao: Condition)
    ensures relatorios == LegsReport(RouteLegs(origem, destino), takeoff, landing)
    ensures condicao == FlightCondition(origem, destino, takeoff, landing)
  {
    var pistaOk;
    relatorios, pistaOk := AssessLegs(RouteLegs(origem, destino), takeoff, landing);
    var alertas := HasAlerts(origem.metar);
    if !alertas {
      alertas := HasAlerts(destino.metar);
    }
    if !alertas {
      alertas := HasAlerts(origem.taf);
    }
    if !alertas {
      alertas := HasAlerts(destino.taf);
    }
    alertas := alertas || HasNotamAlert(origem.notam) || HasNotamAlert(destino.notam);
    condicao := Verdict(pistaOk, alertas);
  }

  /** The route is safe exactly when both aerodromes have runway data, every runway
      reaches both minima, and no weather text or NOTAM raises an alert. */
  lemma SafeIff(origem: Aerodrome, destino: Aerodrome, takeoff: nat, landing: nat)
    ensures FlightCondition(origem, destino, takeoff, landing) == Safe
      <==> && HasRunways(origem.rotaer) && AllAdequate(origem.rotaer.pistas, takeoff, landing)
           && HasRunways(destino.rotaer) && AllAdequate(destino.rotaer.pistas, takeoff, landing)
           && !RouteAlerts(origem, destino)
  {
    TwoLegs(Leg("Origem", origem.rotaer), Leg("Destino", destino.rotaer), takeoff, landing);
  }

  /** An aerodrome without runway data, including one whose lookup failed, makes the
      route unsafe whatever the alerts say. */
  lemma MissingRunwayDataIsUnsafe(origem: Aerodrome, destino: Aerodrome, takeoff: nat, landing: nat)
    requires !HasRunways(origem.rotaer) || !HasRunways(destino.rotaer)
    ensures FlightCondition(origem, destino, takeoff, landing) == Unsafe
  {
    TwoLegs(Leg("Origem", origem.rotaer), Leg("Destino", destino.rotaer), takeoff, landing);
  }

  /** Alerts never make a route unsafe: changing only the weather and NOTAMs moves the
      verdict between safe and conditional, or leaves it unsafe. */
  lemma AlertsNeverUnsafe(origem: Aerodrome, destino: Aerodrome, origem2: Aerodrome, destino2: Aerodrome,
                          takeoff: nat, landing: nat)
    requires origem2.rotaer == origem.rotaer && destino2.rotaer == destino.rotaer
    ensures FlightCondition(origem, destino, takeoff, landing) == Unsafe
        <==> FlightCondition(origem2, destino2, takeoff, landing) == Unsafe
  {
    assert RouteLegs(origem, destino) == RouteLegs(origem2, destino2);
  }

  /** When the weather texts are what the two feeds produced, the route raises an
      alert exactly when some METAR or TAF message of either aerodrome has a hazard
      or some NOTAM of either aerodrome says closed or cancelled. */
  lemma RouteAlertsFromFeeds(origem: Aerodrome, destino: Aerodrome, metarOrigem: Feed, metarDestino: Feed,
                             tafOrigem: Feed, tafDestino: Feed)
    requires origem.metar == MetarTexts(metarOrigem) && destino.metar == MetarTexts(metarDestino)
    requires origem.taf == TafTexts(tafOrigem) && destino.taf == TafTexts(tafDestino)
    ensures RouteAlerts(origem, destino)
      <==> || MetarFeedHazard(metarOrigem) || MetarFeedHazard(metarDestino)
           || TafFeedHazard(tafOrigem) || TafFeedHazard(tafDestino)
           || HasNotamAlert(origem.notam) || HasNotamAlert(destino.notam)
  {
    MetarFeedAlertIff(metarOrigem);
    MetarFeedAlertIff(metarDestino);
    TafFeedAlertIff(tafOrigem);
    TafFeedAlertIff(tafDestino);
  }
}
