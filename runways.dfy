/** The runway check `avaliar_pistas` and the loop over the two legs of the route
    that collects its report lines and combines its flags. */
module Runways {
  import opened Text

  // ---------------------------------------------------------------------------
  // Records
  // ---------------------------------------------------------------------------

  /** One runway of the aerodrome record: its designator and its length in metres. */
  datatype Runway = Runway(ident: string, length: nat)

  /** What the aerodrome lookup returned: the list of runways, or the record that only
      carries the error message. */
  datatype RunwayData = RunwayList(pistas: seq<Runway>) | FetchError(erro: string)

  /** One leg of the route: its label (`Origem` or `Destino`) and its runway data. */
  datatype Leg = Leg(local: string, data: RunwayData)

  datatype Phase = Takeoff | Landing

  function PhaseName(phase: Phase): string {
    match phase
    case Takeoff => "Decolagem"
    case Landing => "Pouso"
  }

  const PassMark := '\U{2705}'
  const FailMark := '\U{1F6AB}'
  const NoDataPrefix := "\U{26A0}\U{FE0F} Sem dados de pista para "

  // ---------------------------------------------------------------------------
  // `avaliar_pistas`
  // ---------------------------------------------------------------------------

  /** One comparison made by the check: the runway, the phase it was compared for,
      and whether its length reached that phase's minimum. */
  datatype Check = Check(runway: Runway, phase: Phase, passed: bool)

  /** The comparison `comprimento >= minimum`; the boundary is inclusive. */
  function Compare(r: Runway, phase: Phase, minimum: nat): Check {
    Check(r, phase, r.length >= minimum)
  }

  /** The comparisons for a list of runways: for each runway in turn, takeoff and
      then landing. */
  function Checks(pistas: seq<Runway>, takeoff: nat, landing: nat): (cs: seq<Check>)
    ensures |cs| == 2 * |pistas|
    decreases |pistas|
  {
    if |pistas| == 0 then []
    else
      var n := |pistas| - 1;
      Checks(pistas[..n], takeoff, landing) + [Compare(pistas[n], Takeoff, takeoff), Compare(pistas[n], Landing, landing)]
  }

  /** `Pista <ident> (<local>) - <phase>: <length>m` */
  function CheckText(local: string, c: Check): string {
    "Pista " + c.runway.ident + " (" + local + ") - " + PhaseName(c.phase) + ": " + NatToDecimal(c.runway.length) + "m"
  }

  /** The report line for one comparison: a check mark and `OK`, or a prohibition
      sign and `insuficiente`. */
  function CheckLine(local: string, c: Check): string {
    if c.passed then [PassMark] + " " + CheckText(local, c) + " OK"
    else [FailMark] + " " + CheckText(local, c) + " insuficiente"
  }

  /** A line reports a passed comparison. */
  predicate Passed(line: string) {
    |line| > 0 && line[0] == PassMark
  }

  /** A line reports a pass exactly when its comparison passed. */
  lemma CheckLinePasses(local: string, c: Check)
    ensures Passed(CheckLine(local, c)) <==> c.passed
  {
    var text := CheckText(local, c);
    assert ([PassMark] + " " + text + " OK")[0] == PassMark;
    assert ([FailMark] + " " + text + " insuficiente")[0] == FailMark;
  }

  /** The report lines of a list of comparisons, one line each, in order. */
  function RenderChecks(local: string, cs: seq<Check>): (lines: seq<string>)
    ensures |lines| == |cs|
    decreases |cs|
  {
    if |cs| == 0 then []
    else
      var n := |cs| - 1;
      RenderChecks(local, cs[..n]) + [CheckLine(local, cs[n])]
  }

  lemma RenderAppendOne(local: string, cs: seq<Check>, c: Check)
    ensures RenderChecks(local, cs + [c]) == RenderChecks(local, cs) + [CheckLine(local, c)]
  {
    assert (cs + [c])[..|cs|] == cs;
  }

  /** Line `j` of the rendering is the line of comparison `j`. */
  lemma {:induction false} RenderLines(local: string, cs: seq<Check>)
    ensures forall j | 0 <= j < |cs| :: RenderChecks(local, cs)[j] == CheckLine(local, cs[j])
    decreases |cs|
  {
    if |cs| > 0 {
      var n := |cs| - 1;
      var lines := RenderChecks(local, cs);
      var prev := RenderChecks(local, cs[..n]);
      assert lines == prev + [CheckLine(local, cs[n])];
      RenderLines(local, cs[..n]);
      forall j | 0 <= j < n ensures lines[j] == CheckLine(local, cs[j]) {
        assert cs[..n][j] == cs[j];
        assert lines[j] == prev[j];
      }
    }
  }

  lemma {:induction false} RenderAppend(local: string, a: seq<Check>, b: seq<Check>)
    ensures RenderChecks(local, a + b) == RenderChecks(local, a) + RenderChecks(local, b)
    decreases |b|
  {
    if |b| == 0 {
      assert a + b == a;
    } else {
      var n := |b| - 1;
      assert a + b == (a + b[..n]) + [b[n]];
      RenderAppend(local, a, b[..n]);
      RenderAppendOne(local, a + b[..n], b[n]);
    }
  }

  /** The lines `avaliar_pistas` reports for a list of runways. */
  function RunwayReport(local: string, pistas: seq<Runway>, takeoff: nat, landing: nat): seq<string> {
    RenderChecks(local, Checks(pistas, takeoff, landing))
  }

  /** Every runway reaches both minima. */
  predicate AllAdequate(pistas: seq<Runway>, takeoff: nat, landing: nat) {
    forall k | 0 <= k < |pistas| :: pistas[k].length >= takeoff && pistas[k].length >= landing
  }

  /** `avaliar_pistas`: two lines per runway, in runway order, and a flag cleared by
      any comparison that fails. */
  method AssessRunways(local: string, pistas: seq<Runway>, takeoff: nat, landing: nat)
    returns (relatorio: seq<string>, pistaOk: bool)
    ensures relatorio == RunwayReport(local, pistas, takeoff, landing)
    ensures pistaOk <==> AllAdequate(pistas, takeoff, landing)
  {
    relatorio := [];
    pistaOk := true;
    for n := 0 to |pistas|
      invariant relatorio == RunwayReport(local, pistas[..n], takeoff, landing)
      invariant pistaOk <==> AllAdequate(pistas[..n], takeoff, landing)
    {
      ReportStep(local, pistas, n, takeoff, landing);
      var pista := pistas[n];
      var comprimento := pista.length;
      if comprimento >= takeoff {
        relatorio := relatorio + [CheckLine(local, Check(pista, Takeoff, true))];
      } else {
        relatorio := relatorio + [CheckLine(local, Check(pista, Takeoff, false))];
        pistaOk := false;
      }
      if comprimento >= landing {
        relatorio := relatorio + [CheckLine(local, Check(pista, Landing, true))];
      } else {
        relatorio := relatorio + [CheckLine(local, Check(pista, Landing, false))];
        pistaOk := false;
      }
    }
    assert pistas[..|pistas|] == pistas;
  }

  /** One more runway adds its two lines and its two comparisons. */
  lemma ReportStep(local: string, pistas: seq<Runway>, n: nat, takeoff: nat, landing: nat)
    requires n < |pistas|
    ensures RunwayReport(local, pistas[..n + 1], takeoff, landing)
      == RunwayReport(local, pistas[..n], takeoff, landing)
        + [CheckLine(local, Compare(pistas[n], Takeoff, takeoff)), CheckLine(local, Compare(pistas[n], Landing, landing))]
    ensures AllAdequate(pistas[..n + 1], takeoff, landing)
      <==> AllAdequate(pistas[..n], takeoff, landing) && pistas[n].length >= takeoff && pistas[n].length >= landing
  {
    var p := pistas[..n + 1];
    assert p[..n] == pistas[..n];
    assert p[n] == pistas[n];
    var cs := Checks(pistas[..n], takeoff, landing);
    var c1 := Compare(pistas[n], Takeoff, takeoff);
    var c2 := Compare(pistas[n], Landing, landing);
    assert Checks(p, takeoff, landing) == (cs + [c1]) + [c2];
    RenderAppendOne(local, cs, c1);
    RenderAppendOne(local, cs + [c1], c2);
    if AllAdequate(pistas[..n], takeoff, landing) && pistas[n].length >= takeoff && pistas[n].length >= landing {
      forall k | 0 <= k < n + 1 ensures p[k].length >= takeoff && p[k].length >= landing {
        if k < n {
          assert p[k] == pistas[..n][k];
        }
      }
    }
  }

  /** Comparison `2k` is the takeoff check of runway `k`, comparison `2k + 1` its
      landing check. */
  lemma {:induction false} ChecksLayout(pistas: seq<Runway>, takeoff: nat, landing: nat)
    ensures var cs := Checks(pistas, takeoff, landing);
      forall k | 0 <= k < |pistas| ::
        cs[2 * k] == Compare(pistas[k], Takeoff, takeoff) && cs[2 * k + 1] == Compare(pistas[k], Landing, landing)
    decreases |pistas|
  {
    if |pistas| > 0 {
      var n := |pistas| - 1;
      var cs := Checks(pistas, takeoff, landing);
      var prev := Checks(pistas[..n], takeoff, landing);
      ChecksLayout(pistas[..n], takeoff, landing);
      forall k | 0 <= k < n
        ensures cs[2 * k] == Compare(pistas[k], Takeoff, takeoff)
        ensures cs[2 * k + 1] == Compare(pistas[k], Landing, landing)
      {
        assert pistas[..n][k] == pistas[k];
        assert cs[2 * k] == prev[2 * k] && cs[2 * k + 1] == prev[2 * k + 1];
      }
    }
  }

  /** Line `2k` of the report is the takeoff line of runway `k`, line `2k + 1` its
      landing line: exactly two lines per runway, in runway order. */
  lemma ReportLines(local: string, pistas: seq<Runway>, takeoff: nat, landing: nat)
    ensures var lines := RunwayReport(local, pistas, takeoff, landing);
      |lines| == 2 * |pistas|
      && forall k | 0 <= k < |pistas| ::
        lines[2 * k] == CheckLine(local, Compare(pistas[k], Takeoff, takeoff))
        && lines[2 * k + 1] == CheckLine(local, Compare(pistas[k], Landing, landing))
  {
    ChecksLayout(pistas, takeoff, landing);
    RenderLines(local, Checks(pistas, takeoff, landing));
  }

  predicate AllPassed(cs: seq<Check>) {
    forall j | 0 <= j < |cs| :: cs[j].passed
  }

  /** Every line of a report is a pass. */
  predicate AllLinesPass(lines: seq<string>) {
    forall j | 0 <= j < |lines| :: Passed(lines[j])
  }

  /** Every comparison passes exactly when every runway is adequate. */
  lemma ChecksPass(pistas: seq<Runway>, takeoff: nat, landing: nat)
    ensures AllAdequate(pistas, takeoff, landing) <==> AllPassed(Checks(pistas, takeoff, landing))
  {
    var cs := Checks(pistas, takeoff, landing);
    ChecksLayout(pistas, takeoff, landing);
    if AllAdequate(pistas, takeoff, landing) {
      forall j | 0 <= j < |cs| ensures cs[j].passed {
        var k := j / 2;
        assert j == 2 * k || j == 2 * k + 1;
      }
    }
    if forall j | 0 <= j < |cs| :: cs[j].passed {
      forall k | 0 <= k < |pistas| ensures pistas[k].length >= takeoff && pistas[k].length >= landing {
        assert cs[2 * k].passed && cs[2 * k + 1].passed;
      }
    }
  }

  /** The flag and the lines agree: every runway is adequate exactly when every line
      of the report is a pass. */
  lemma ReportFlagAgrees(local: string, pistas: seq<Runway>, takeoff: nat, landing: nat)
    ensures AllAdequate(pistas, takeoff, landing) <==> AllLinesPass(RunwayReport(local, pistas, takeoff, landing))
  {
    var cs := Checks(pistas, takeoff, landing);
    var lines := RenderChecks(local, cs);
    assert lines == RunwayReport(local, pistas, takeoff, landing);
    ChecksPass(pistas, takeoff, landing);
    RenderLines(local, cs);
    if AllAdequate(pistas, takeoff, landing) {
      forall j | 0 <= j < |lines| ensures Passed(lines[j]) {
        assert lines[j] == CheckLine(local, cs[j]);
        CheckLinePasses(local, cs[j]);
      }
    }
    if AllLinesPass(lines) {
      forall j | 0 <= j < |cs| ensures cs[j].passed {
        assert Passed(lines[j]);
        CheckLinePasses(local, cs[j]);
      }
    }
  }

  /** The report of a concatenation of runway lists is the concatenation of their
      reports. */
  lemma {:induction false} ReportAppend(local: string, a: seq<Runway>, b: seq<Runway>, takeoff: nat, landing: nat)
    ensures RunwayReport(local, a + b, takeoff, landing)
      == RunwayReport(local, a, takeoff, landing) + RunwayReport(local, b, takeoff, landing)
  {
    ChecksAppend(a, b, takeoff, landing);
    RenderAppend(local, Checks(a, takeoff, landing), Checks(b, takeoff, landing));
  }

  lemma {:induction false} ChecksAppend(a: seq<Runway>, b: seq<Runway>, takeoff: nat, landing: nat)
    ensures Checks(a + b, takeoff, landing) == Checks(a, takeoff, landing) + Checks(b, takeoff, landing)
    decreases |b|
  {
    if |b| > 0 {
      var n := |b| - 1;
      assert (a + b)[..|a| + n] == a + b[..n];
      assert (a + b)[|a| + n] == b[n];
      ChecksAppend(a, b[..n], takeoff, landing);
    } else {
      assert a + b == a;
    }
  }

  /** A runway whose length was missing from the record, and so defaulted to 0, fails
      every positive minimum, and its report says so. */
  lemma MissingLengthFails(local: string, ident: string, takeoff: nat, landing: nat)
    requires takeoff > 0 || landing > 0
    ensures !AllAdequate([Runway(ident, 0)], takeoff, landing)
    ensures !AllLinesPass(RunwayReport(local, [Runway(ident, 0)], takeoff, landing))
  {
    var r := Runway(ident, 0);
    assert [r][0] == r;
    ReportFlagAgrees(local, [r], takeoff, landing);
  }

  // ---------------------------------------------------------------------------
  // The loop over the legs
  // ---------------------------------------------------------------------------

  /** `rotaer.get("pistas")` is truthy: the record has a runway list and it is not
      empty. The error record has no such list. */
  predicate HasRunways(data: RunwayData) {
    data.RunwayList? && |data.pistas| > 0
  }

  /** The lines one leg contributes to the report. */
  function LegLines(leg: Leg, takeoff: nat, landing: nat): seq<string> {
    if HasRunways(leg.data) then RunwayReport(leg.local, leg.data.pistas, takeoff, landing)
    else [NoDataPrefix + leg.local]
  }

  /** A leg passes when it has runway data and every runway is adequate. */
  predicate LegOk(leg: Leg, takeoff: nat, landing: nat) {
    HasRunways(leg.data) && AllAdequate(leg.data.pistas, takeoff, landing)
  }

  /** The lines of all the legs, leg after leg. */
  function LegsReport(legs: seq<Leg>, takeoff: nat, landing: nat): seq<string>
    decreases |legs|
  {
    if |legs| == 0 then []
    else
      var n := |legs| - 1;
      LegsReport(legs[..n], takeoff, landing) + LegLines(legs[n], takeoff, landing)
  }

  predicate LegsOk(legs: seq<Leg>, takeoff: nat, landing: nat) {
    forall k | 0 <= k < |legs| :: LegOk(legs[k], takeoff, landing)
  }

  /** The loop over the legs: a leg without runway data adds the line saying so and
      fails the route; otherwise its runway lines are appended and its flag joins
      the route's. */
  method AssessLegs(legs: seq<Leg>, takeoff: nat, landing: nat) returns (relatorios: seq<string>, pistaOk: bool)
    ensures relatorios == LegsReport(legs, takeoff, landing)
    ensures pistaOk <==> LegsOk(legs, takeoff, landing)
  {
    relatorios := [];
    pistaOk := true;
    for n := 0 to |legs|
      invariant relatorios == LegsReport(legs[..n], takeoff, landing)
      invariant pistaOk <==> LegsOk(legs[..n], takeoff, landing)
    {
      LegsStep(legs, n, takeoff, landing);
      var leg := legs[n];
      if !HasRunways(leg.data) {
        relatorios := relatorios + [NoDataPrefix + leg.local];
        pistaOk := false;
      } else {
        var rel, ok := AssessRunways(leg.local, leg.data.pistas, takeoff, landing);
        relatorios := relatorios + rel;
        if !ok {
          pistaOk := false;
        }
      }
    }
    assert legs[..|legs|] == legs;
  }

  /** One more leg adds its lines and its verdict. */
  lemma LegsStep(legs: seq<Leg>, n: nat, takeoff: nat, landing: nat)
    requires n < |legs|
    ensures LegsReport(legs[..n + 1], takeoff, landing) == LegsReport(legs[..n], takeoff, landing) + LegLines(legs[n], takeoff, landing)
    ensures LegsOk(legs[..n + 1], takeoff, landing) <==> LegsOk(legs[..n], takeoff, landing) && LegOk(legs[n], takeoff, landing)
  {
    var p := legs[..n + 1];
    assert p[..n] == legs[..n];
    assert p[n] == legs[n];
    if LegsOk(p, takeoff, landing) {
      forall k | 0 <= k < n ensures LegOk(legs[..n][k], takeoff, landing) {
        assert legs[..n][k] == p[k];
      }
    }
    if LegsOk(legs[..n], takeoff, landing) && LegOk(legs[n], takeoff, landing) {
      forall k | 0 <= k < n + 1 ensures LegOk(p[k], takeoff, landing) {
        if k < n {
          assert p[k] == legs[..n][k];
        }
      }
    }
  }

  /** A leg without runway data, including the error record, contributes exactly the
      one line that says so and fails the route. */
  lemma NoDataLeg(legs: seq<Leg>, k: nat, takeoff: nat, landing: nat)
    requires k < |legs| && !HasRunways(legs[k].data)
    ensures !LegsOk(legs, takeoff, landing)
    ensures LegLines(legs[k], takeoff, landing) == [NoDataPrefix + legs[k].local]
  {
  }

  /** The report of a concatenation of legs is the concatenation of their reports. */
  lemma {:induction false} LegsReportAppend(a: seq<Leg>, b: seq<Leg>, takeoff: nat, landing: nat)
    ensures LegsReport(a + b, takeoff, landing) == LegsReport(a, takeoff, landing) + LegsReport(b, takeoff, landing)
    decreases |b|
  {
    if |b| > 0 {
      var n := |b| - 1;
      assert (a + b)[..|a| + n] == a + b[..n];
      assert (a + b)[|a| + n] == b[n];
      LegsReportAppend(a, b[..n], takeoff, landing);
    } else {
      assert a + b == a;
    }
  }

  /** For the route's two legs: the origin's lines come before the destination's,
      and the route passes exactly when both legs do. */
  lemma TwoLegs(origin: Leg, destination: Leg, takeoff: nat, landing: nat)
    ensures LegsReport([origin, destination], takeoff, landing)
      == LegLines(origin, takeoff, landing) + LegLines(destination, takeoff, landing)
    ensures LegsOk([origin, destination], takeoff, landing)
      <==> LegOk(origin, takeoff, landing) && LegOk(destination, takeoff, landing)
  {
    var legs := [origin, destination];
    assert legs[..1] == [origin];
    assert [origin][..0] == [];
    assert LegsReport([origin], takeoff, landing) == LegLines(origin, takeoff, landing);
    assert LegsReport(legs, takeoff, landing) == LegsReport([origin], takeoff, landing) + LegLines(destination, takeoff, landing);
  }
}
