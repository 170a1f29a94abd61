/** What the two decoders promise about their summaries as a whole: when they fall
    back, when a summary carries an alert, which lines can appear and in what order,
    and that `=` signs and repeated normalisation make no difference. */
module DecoderFacts {
  import opened Text
  import opened Decoder

  // ---------------------------------------------------------------------------
  // Fixed texts
  // ---------------------------------------------------------------------------

  /** The word the temperature line starts with. */
  const TemperatureWord := "Temperatura"

  /** The two words searched for are non-empty and hold no newline. */
  lemma WordShapes()
    ensures |AlertMarker| == 6 && '\n' !in AlertMarker
    ensures AlertMarker[0] == 'A' && AlertMarker[1] == 'l' && AlertMarker[3] == 'r'
    ensures |TemperatureWord| == 11 && '\n' !in TemperatureWord
    ensures TemperatureWord[0] == 'T' && TemperatureWord[2] == 'm'
  {
  }

  /** The alert lines start with `Alerta`. */
  lemma AlertLinesStartWithMarker()
    ensures MetarAlertLine[0] == 'A' && Contains(MetarAlertLine, AlertMarker)
    ensures TafAlertLine[0] == 'A' && Contains(TafAlertLine, AlertMarker)
  {
    assert MetarAlertLine[..6] == AlertMarker;
    OccursAtWitness(MetarAlertLine, AlertMarker, 0);
    assert TafAlertLine[..6] == AlertMarker;
    OccursAtWitness(TafAlertLine, AlertMarker, 0);
  }

  /** Neither the METAR CAVOK line nor the METAR fallback contains `Alerta`. */
  lemma MetarFixedTextsLackMarker()
    ensures !Contains(MetarCavokLine, AlertMarker) && !Contains(MetarFallback, AlertMarker)
  {
    WordShapes();
    AbsentChar(MetarCavokLine, AlertMarker, 3);
    AbsentChar(MetarFallback, AlertMarker, 1);
  }

  /** Characters of `Alerta` absent from the fixed TAF texts. */
  lemma TafTextsLackA()
    ensures 'A' !in TafCavokLine && 'A' !in BecmgLine && 'l' !in TafFallback
  {
    assert 'A' !in TafCavokLine;
    assert 'A' !in BecmgLine;
  }

  /** Neither the TAF CAVOK line, the BECMG line nor the TAF fallback contains `Alerta`. */
  lemma TafFixedTextsLackMarker()
    ensures !Contains(TafCavokLine, AlertMarker) && !Contains(BecmgLine, AlertMarker)
    ensures !Contains(TafFallback, AlertMarker)
  {
    WordShapes();
    TafTextsLackA();
    AbsentChar(TafCavokLine, AlertMarker, 0);
    AbsentChar(BecmgLine, AlertMarker, 0);
    AbsentChar(TafFallback, AlertMarker, 1);
  }

  lemma TafAlertLineLacksT()
    ensures 'T' !in TafAlertLine
  {
    assert 'T' !in " - Previsão de";
    assert 'T' !in " fenômenos";
    assert 'T' !in " meteorológicos adversos";
  }

  /** Characters of `Temperatura` absent from the fixed TAF texts. */
  lemma TafTextsLackT()
    ensures 'T' !in TafCavokLine && 'T' !in BecmgLine && 'T' !in TafAlertLine && 'm' !in TafFallback
  {
    TafAlertLineLacksT();
  }

  /** No fixed TAF text contains `Temperatura`. */
  lemma TafFixedTextsLackTemperature()
    ensures !Contains(TafCavokLine, TemperatureWord) && !Contains(BecmgLine, TemperatureWord)
    ensures !Contains(TafAlertLine, TemperatureWord) && !Contains(TafFallback, TemperatureWord)
  {
    WordShapes();
    TafTextsLackT();
    AbsentChar(TafCavokLine, TemperatureWord, 0);
    AbsentChar(BecmgLine, TemperatureWord, 0);
    AbsentChar(TafAlertLine, TemperatureWord, 0);
    AbsentChar(TafFallback, TemperatureWord, 2);
  }

  // ---------------------------------------------------------------------------
  // Shapes of the computed lines
  // ---------------------------------------------------------------------------

  /** Characters absent from the fixed words of a wind line. */
  lemma WindWordsLack(c: char)
    requires c == 'A' || c == 'T' || c == '\n'
    ensures c !in "variável" && c !in " a " && c !in " kt"
  {
  }

  /** A character that is not a digit does not occur in a run of digits. */
  lemma DigitsLack(t: string, c: char)
    requires forall k | 0 <= k < |t| :: IsDigit(t[k])
    requires !IsDigit(c)
    ensures c !in t
  {
  }

  /** Neither `A`, `T` nor a newline occurs in a wind line whose prefix
      lacks it: the rest of the line is digits, `variável` and lower-case words. */
  lemma WindLineLacks(prefix: string, s: string, i: nat, c: char)
    requires WindAt(s, i) && c !in prefix && (c == 'A' || c == 'T' || c == '\n')
    ensures c !in WindLine(prefix, s, i)
  {
    WindWordsLack(c);
    var direction := if s[i..i + 3] == "VRB" then "variável" else s[i..i + 3];
    if s[i..i + 3] != "VRB" {
      DigitsLack(direction, c);
    }
    var speed := s[i + 3..i + 5];
    DigitsLack(speed, c);
    assert WindLine(prefix, s, i) == prefix + direction + " a " + speed + " kt";
  }

  /** Characters absent from the fixed words of a temperature line. */
  lemma TempWordsLack(c: char)
    requires c == 'A' || c == '\n'
    ensures c !in TemperaturePrefix && c !in " °C / Ponto de orvalho: " && c !in " °C"
  {
  }

  /** A temperature field holds digits and at most a leading `M`. */
  lemma FieldLacks(s: string, i: nat, c: char)
    requires FieldAt(s, i) && c != 'M' && !IsDigit(c)
    ensures c !in s[i..i + FieldLength(s, i)]
  {
    var n := FieldLength(s, i);
    var t := s[i..i + n];
    forall k | 0 <= k < n ensures t[k] != c {
      assert t[k] == s[i + k];
      assert k == 0 && n == 3 ==> s[i] == 'M';
    }
  }

  /** The temperature line, whose fields hold digits and `M` only, has neither `A` nor
      a newline. */
  lemma TempLineLacks(s: string, i: nat, c: char)
    requires TempAt(s, i) && (c == 'A' || c == '\n')
    ensures c !in TempLine(s, i)
  {
    TempWordsLack(c);
    var j := i + FieldLength(s, i) + 1;
    FieldLacks(s, i, c);
    FieldLacks(s, j, c);
    var t := TempField(s, i);
    var d := DewPointField(s, i);
    assert TempLine(s, i) == TemperaturePrefix + t + " °C / Ponto de orvalho: " + d + " °C";
  }

  /** Characters absent from the two wind prefixes. */
  lemma WindPrefixesLack(c: char)
    requires c == 'A' || c == 'T' || c == '\n'
    ensures c !in MetarWindPrefix && c !in TafWindPrefix
  {
  }

  /** A property that holds of every line a METAR rule can contribute holds of every
      line of the METAR summary. */
  lemma MetarLinesSatisfy(p: string, P: string -> bool)
    requires Contains(p, "CAVOK") ==> P(MetarCavokLine)
    requires forall i: nat | WindAt(p, i) :: P(WindLine(MetarWindPrefix, p, i))
    requires forall i: nat | TempAt(p, i) :: P(TempLine(p, i))
    requires MetarHazard(p) ==> P(MetarAlertLine)
    ensures forall k | 0 <= k < |MetarLines(p)| :: P(MetarLines(p)[k])
  {
    var rules := MetarRules(p);
    var lines := MetarLines(p);
    FiredMembers(rules);
    WindRuleFrom(p, MetarWindPrefix, FindFirst(p, 0, WindAt));
    TempRuleFrom(p, FindFirst(p, 0, TempAt));
    forall k | 0 <= k < |lines| ensures P(lines[k]) {
      assert lines[k] in lines;
      assert Some(lines[k]) in rules;
    }
  }

  /** The same for the TAF summary. */
  lemma TafLinesSatisfy(p: string, P: string -> bool)
    requires Contains(p, "CAVOK") ==> P(TafCavokLine)
    requires forall i: nat | WindAt(p, i) :: P(WindLine(TafWindPrefix, p, i))
    requires Contains(p, "BECMG") ==> P(BecmgLine)
    requires TafHazard(p) ==> P(TafAlertLine)
    ensures forall k | 0 <= k < |TafLines(p)| :: P(TafLines(p)[k])
  {
    var rules := TafRules(p);
    var lines := TafLines(p);
    FiredMembers(rules);
    WindRuleFrom(p, TafWindPrefix, FindFirst(p, 0, WindAt));
    forall k | 0 <= k < |lines| ensures P(lines[k]) {
      assert lines[k] in lines;
      assert Some(lines[k]) in rules;
    }
  }

  /** Every METAR line is non-empty and starts with `C`, `V`, `T` or `A`, never with the
      `M` the fallback starts with. */
  lemma MetarLineHeads(p: string)
    ensures forall k | 0 <= k < |MetarLines(p)| ::
      |MetarLines(p)[k]| > 0 && MetarLines(p)[k][0] != MetarFallback[0]
  {
    var P := (line: string) => |line| > 0 && line[0] != 'M';
    forall i: nat | WindAt(p, i) ensures P(WindLine(MetarWindPrefix, p, i)) {
      assert WindLine(MetarWindPrefix, p, i)[0] == 'V';
    }
    forall i: nat | TempAt(p, i) ensures P(TempLine(p, i)) {
      assert TempLine(p, i)[0] == 'T';
    }
    AlertLinesStartWithMarker();
    assert P(MetarCavokLine);
    MetarLinesSatisfy(p, P);
  }

  /** Every TAF line is non-empty and starts with `C`, `V`, a newline or `A`, never with
      the `T` the fallback starts with. */
  lemma TafLineHeads(p: string)
    ensures forall k | 0 <= k < |TafLines(p)| ::
      |TafLines(p)[k]| > 0 && TafLines(p)[k][0] != TafFallback[0]
  {
    var P := (line: string) => |line| > 0 && line[0] != 'T';
    forall i: nat | WindAt(p, i) ensures P(WindLine(TafWindPrefix, p, i)) {
      assert WindLine(TafWindPrefix, p, i)[0] == 'V';
    }
    AlertLinesStartWithMarker();
    assert P(TafCavokLine) && P(BecmgLine);
    TafLinesSatisfy(p, P);
  }

  // ---------------------------------------------------------------------------
  // Line order
  // ---------------------------------------------------------------------------

  /** The METAR summary lists the CAVOK, wind, temperature and alert lines, each only
      if its rule fired, in that order. */
  lemma MetarLinesInOrder(p: string)
    ensures MetarLines(p) == Emitted(CavokRule(p, MetarCavokLine)) + Emitted(WindRule(p, MetarWindPrefix))
      + Emitted(TempRule(p)) + Emitted(FlagRule(MetarHazard(p), MetarAlertLine))
  {
    var rules := MetarRules(p);
    var r1 := Emitted(rules[0]);
    var r2 := r1 + Emitted(rules[1]);
    var r3 := r2 + Emitted(rules[2]);
    RulesApplied(rules, r1, r2, r3, r3 + Emitted(rules[3]));
  }

  /** The TAF summary lists the CAVOK, wind, BECMG and alert lines in that order. */
  lemma TafLinesInOrder(p: string)
    ensures TafLines(p) == Emitted(CavokRule(p, TafCavokLine)) + Emitted(WindRule(p, TafWindPrefix))
      + Emitted(FlagRule(Contains(p, "BECMG"), BecmgLine)) + Emitted(FlagRule(TafHazard(p), TafAlertLine))
  {
    var rules := TafRules(p);
    var r1 := Emitted(rules[0]);
    var r2 := r1 + Emitted(rules[1]);
    var r3 := r2 + Emitted(rules[2]);
    RulesApplied(rules, r1, r2, r3, r3 + Emitted(rules[3]));
  }

  // ---------------------------------------------------------------------------
  // Rendering
  // ---------------------------------------------------------------------------

  /** When no line can start like the fallback, the rendered text is the fallback
      exactly when there are no lines. */
  lemma RenderFallback(lines: seq<string>, fallback: string)
    requires |fallback| > 0
    requires forall k | 0 <= k < |lines| :: |lines[k]| > 0 && lines[k][0] != fallback[0]
    ensures Render(lines, fallback) == fallback <==> lines == []
  {
    if lines != [] {
      JoinHead(lines, "\n");
    }
  }

  /** A rendered summary whose lines are all non-empty contains a pattern free of
      newlines exactly when one of its lines does; with no line it is the fallback. */
  lemma RenderContains(lines: seq<string>, fallback: string, pat: string)
    requires |pat| > 0 && '\n' !in pat
    requires forall k | 0 <= k < |lines| :: |lines[k]| > 0
    ensures lines == [] ==> Render(lines, fallback) == fallback
    ensures lines != [] ==>
      (Contains(Render(lines, fallback), pat) <==> exists k | 0 <= k < |lines| :: Contains(lines[k], pat))
  {
    if lines != [] {
      JoinHead(lines, "\n");
      JoinContains(lines, '\n', pat);
    }
  }

  // ---------------------------------------------------------------------------
  // The fallback
  // ---------------------------------------------------------------------------

  /** The METAR rules produce no line exactly when none of them fires. */
  lemma MetarSilentIff(p: string)
    ensures MetarLines(p) == []
      <==> !Contains(p, "CAVOK") && (forall i: nat :: !WindAt(p, i)) && (forall i: nat :: !TempAt(p, i)) && !MetarHazard(p)
  {
    var rules := MetarRules(p);
    FiredEmpty(rules);
    assert (forall k | 0 <= k < |rules| :: rules[k].None?)
      <==> rules[0].None? && rules[1].None? && rules[2].None? && rules[3].None?;
    WindRuleNone(p, MetarWindPrefix);
    TempRuleNone(p);
  }

  /** The TAF rules produce no line exactly when none of them fires. */
  lemma TafSilentIff(p: string)
    ensures TafLines(p) == []
      <==> !Contains(p, "CAVOK") && (forall i: nat :: !WindAt(p, i)) && !Contains(p, "BECMG") && !TafHazard(p)
  {
    var rules := TafRules(p);
    FiredEmpty(rules);
    assert (forall k | 0 <= k < |rules| :: rules[k].None?)
      <==> rules[0].None? && rules[1].None? && rules[2].None? && rules[3].None?;
    WindRuleNone(p, TafWindPrefix);
  }

  /** `decodificar_metar` returns `METAR não decodificado` exactly when none of its four
      rules fires on the normalised text. */
  lemma MetarFallbackIff(metar: string)
    ensures var p := Normalize(metar);
      MetarSummary(metar) == MetarFallback
      <==> !Contains(p, "CAVOK") && (forall i: nat :: !WindAt(p, i)) && (forall i: nat :: !TempAt(p, i)) && !MetarHazard(p)
  {
    var p := Normalize(metar);
    MetarLineHeads(p);
    RenderFallback(MetarLines(p), MetarFallback);
    MetarSilentIff(p);
  }

  /** `decodificar_taf` returns `TAF não decodificado` exactly when none of its four
      rules fires on the normalised text. */
  lemma TafFallbackIff(taf: string)
    ensures var p := Normalize(taf);
      TafSummary(taf) == TafFallback
      <==> !Contains(p, "CAVOK") && (forall i: nat :: !WindAt(p, i)) && !Contains(p, "BECMG") && !TafHazard(p)
  {
    var p := Normalize(taf);
    TafLineHeads(p);
    RenderFallback(TafLines(p), TafFallback);
    TafSilentIff(p);
  }

  // ---------------------------------------------------------------------------
  // Alerts: only the alert line carries the word `Alerta`
  // ---------------------------------------------------------------------------

  /** The only METAR line that can contain `Alerta` is the alert line, which is there
      exactly when there is a hazard. */
  lemma MetarMarkerLines(p: string)
    ensures forall k | 0 <= k < |MetarLines(p)| :: Contains(MetarLines(p)[k], AlertMarker) ==> MetarHazard(p)
    ensures MetarHazard(p) ==> exists k | 0 <= k < |MetarLines(p)| :: Contains(MetarLines(p)[k], AlertMarker)
  {
    var P := (line: string) => Contains(line, AlertMarker) ==> MetarHazard(p);
    forall i: nat | WindAt(p, i) ensures P(WindLine(MetarWindPrefix, p, i)) {
      WindPrefixesLack('A');
      WindLineLacks(MetarWindPrefix, p, i, 'A');
      WordShapes();
      AbsentChar(WindLine(MetarWindPrefix, p, i), AlertMarker, 0);
    }
    forall i: nat | TempAt(p, i) ensures P(TempLine(p, i)) {
      TempLineLacks(p, i, 'A');
      WordShapes();
      AbsentChar(TempLine(p, i), AlertMarker, 0);
    }
    MetarFixedTextsLackMarker();
    MetarLinesSatisfy(p, P);
    if MetarHazard(p) {
      var rules := MetarRules(p);
      FiredMembers(rules);
      assert rules[3] == Some(MetarAlertLine);
      var lines := MetarLines(p);
      assert MetarAlertLine in lines;
      var k :| 0 <= k < |lines| && lines[k] == MetarAlertLine;
      AlertLinesStartWithMarker();
      assert Contains(lines[k], AlertMarker);
    }
  }

  /** The rendered METAR lines contain `Alerta` exactly when there is a hazard. */
  lemma MetarRenderedAlertIff(p: string)
    ensures Contains(Render(MetarLines(p), MetarFallback), AlertMarker) <==> MetarHazard(p)
  {
    var lines := MetarLines(p);
    MetarLineHeads(p);
    WordShapes();
    RenderContains(lines, MetarFallback, AlertMarker);
    MetarMarkerLines(p);
    if lines == [] {
      MetarFixedTextsLackMarker();
    }
  }

  /** A METAR summary contains `Alerta` exactly when the normalised message contains
      `TSRA`, `FG` or `SN`: no other METAR line, and not the fallback, contains it. */
  lemma MetarAlertIff(metar: string)
    ensures Contains(MetarSummary(metar), AlertMarker) <==> MetarHazard(Normalize(metar))
  {
    MetarRenderedAlertIff(Normalize(metar));
  }

  /** The only TAF line that can contain `Alerta` is the alert line, which is there
      exactly when there is a hazard. */
  lemma TafMarkerLines(p: string)
    ensures forall k | 0 <= k < |TafLines(p)| :: Contains(TafLines(p)[k], AlertMarker) ==> TafHazard(p)
    ensures TafHazard(p) ==> exists k | 0 <= k < |TafLines(p)| :: Contains(TafLines(p)[k], AlertMarker)
  {
    var P := (line: string) => Contains(line, AlertMarker) ==> TafHazard(p);
    forall i: nat | WindAt(p, i) ensures P(WindLine(TafWindPrefix, p, i)) {
      WindPrefixesLack('A');
      WindLineLacks(TafWindPrefix, p, i, 'A');
      WordShapes();
      AbsentChar(WindLine(TafWindPrefix, p, i), AlertMarker, 0);
    }
    TafFixedTextsLackMarker();
    TafLinesSatisfy(p, P);
    if TafHazard(p) {
      var rules := TafRules(p);
      FiredMembers(rules);
      assert rules[3] == Some(TafAlertLine);
      var lines := TafLines(p);
      assert TafAlertLine in lines;
      var k :| 0 <= k < |lines| && lines[k] == TafAlertLine;
      AlertLinesStartWithMarker();
      assert Contains(lines[k], AlertMarker);
    }
  }

  /** The rendered TAF lines contain `Alerta` exactly when there is a hazard. */
  lemma TafRenderedAlertIff(p: string)
    ensures Contains(Render(TafLines(p), TafFallback), AlertMarker) <==> TafHazard(p)
  {
    var lines := TafLines(p);
    TafLineHeads(p);
    WordShapes();
    RenderContains(lines, TafFallback, AlertMarker);
    TafMarkerLines(p);
    if lines == [] {
      TafFixedTextsLackMarker();
    }
  }

  /** A TAF summary contains `Alerta` exactly when the normalised message contains
      `TSRA`, `FG`, `SN` or `RA`. */
  lemma TafAlertIff(taf: string)
    ensures Contains(TafSummary(taf), AlertMarker) <==> TafHazard(Normalize(taf))
  {
    TafRenderedAlertIff(Normalize(taf));
  }

  // ---------------------------------------------------------------------------
  // The TAF decoder has no temperature rule
  // ---------------------------------------------------------------------------

  /** No TAF line mentions `Temperatura`. */
  lemma TafLinesLackTemperature(p: string)
    ensures forall k | 0 <= k < |TafLines(p)| :: !Contains(TafLines(p)[k], TemperatureWord)
  {
    var P := (line: string) => !Contains(line, TemperatureWord);
    forall i: nat | WindAt(p, i) ensures P(WindLine(TafWindPrefix, p, i)) {
      WindPrefixesLack('T');
      WindLineLacks(TafWindPrefix, p, i, 'T');
      WordShapes();
      AbsentChar(WindLine(TafWindPrefix, p, i), TemperatureWord, 0);
    }
    TafFixedTextsLackTemperature();
    TafLinesSatisfy(p, P);
  }

  /** The rendered TAF lines never mention `Temperatura`. */
  lemma TafRenderedLacksTemperature(p: string)
    ensures !Contains(Render(TafLines(p), TafFallback), TemperatureWord)
  {
    var lines := TafLines(p);
    TafLineHeads(p);
    TafLinesLackTemperature(p);
    WordShapes();
    RenderContains(lines, TafFallback, TemperatureWord);
    TafFixedTextsLackTemperature();
  }

  /** The TAF decoder has no temperature rule: no TAF summary mentions `Temperatura`. */
  lemma TafHasNoTemperature(taf: string)
    ensures !Contains(TafSummary(taf), TemperatureWord)
  {
    TafRenderedLacksTemperature(Normalize(taf));
  }
  // ---------------------------------------------------------------------------
  // Normalisation seen through the summaries
  // ---------------------------------------------------------------------------

  /** `=` signs make no difference to the METAR summary. */
  lemma MetarIgnoresEquals(metar: string)
    ensures MetarSummary(RemoveChar(metar, '=')) == MetarSummary(metar)
  {
    NormalizeIgnoresEquals(metar);
  }

  /** `=` signs make no difference to the TAF summary. */
  lemma TafIgnoresEquals(taf: string)
    ensures TafSummary(RemoveChar(taf, '=')) == TafSummary(taf)
  {
    NormalizeIgnoresEquals(taf);
  }

  /** Decoding already normalised text gives the same METAR summary. */
  lemma MetarNormalizedInput(metar: string)
    ensures MetarSummary(Normalize(metar)) == MetarSummary(metar)
  {
    NormalizeIdempotent(metar);
  }

  /** Decoding already normalised text gives the same TAF summary. */
  lemma TafNormalizedInput(taf: string)
    ensures TafSummary(Normalize(taf)) == TafSummary(taf)
  {
    NormalizeIdempotent(taf);
  }

  // ---------------------------------------------------------------------------
  // The leftmost groups appear in the summaries
  // ---------------------------------------------------------------------------

  /** A line without newlines that is among non-empty rendered lines can be found in
      the rendered text. */
  lemma LineShown(lines: seq<string>, fallback: string, line: string)
    requires line in lines && '\n' !in line
    requires forall k | 0 <= k < |lines| :: |lines[k]| > 0
    ensures Contains(Render(lines, fallback), line)
  {
    var k :| 0 <= k < |lines| && lines[k] == line;
    assert line[0..|line|] == line;
    OccursAtWitness(line, line, 0);
    RenderContains(lines, fallback, line);
  }

  /** The leftmost wind group gives a METAR line. */
  lemma MetarWindInLines(p: string, i: nat)
    requires WindAt(p, i) && forall j: nat | j < i :: !WindAt(p, j)
    ensures WindLine(MetarWindPrefix, p, i) in MetarLines(p)
  {
    WindRuleLeftmost(p, MetarWindPrefix, i);
    var rules := MetarRules(p);
    FiredMembers(rules);
    assert rules[1].Some?;
  }

  /** The leftmost wind group gives a TAF line. */
  lemma TafWindInLines(p: string, i: nat)
    requires WindAt(p, i) && forall j: nat | j < i :: !WindAt(p, j)
    ensures WindLine(TafWindPrefix, p, i) in TafLines(p)
  {
    WindRuleLeftmost(p, TafWindPrefix, i);
    var rules := TafRules(p);
    FiredMembers(rules);
    assert rules[1].Some?;
  }

  /** The leftmost temperature group gives a METAR line. */
  lemma MetarTempInLines(p: string, i: nat)
    requires TempAt(p, i) && forall j: nat | j < i :: !TempAt(p, j)
    ensures TempLine(p, i) in MetarLines(p)
  {
    TempRuleLeftmost(p, i);
    var rules := MetarRules(p);
    FiredMembers(rules);
    assert rules[2].Some?;
  }

  /** The METAR summary shows the wind line of the leftmost wind group. */
  lemma MetarWindShown(metar: string, i: nat)
    requires WindAt(Normalize(metar), i) && forall j: nat | j < i :: !WindAt(Normalize(metar), j)
    ensures Contains(MetarSummary(metar), WindLine(MetarWindPrefix, Normalize(metar), i))
  {
    var p := Normalize(metar);
    MetarWindInLines(p, i);
    WindPrefixesLack('\n');
    WindLineLacks(MetarWindPrefix, p, i, '\n');
    MetarLineHeads(p);
    LineShown(MetarLines(p), MetarFallback, WindLine(MetarWindPrefix, p, i));
  }

  /** The TAF summary shows the wind line of the leftmost wind group. */
  lemma TafWindShown(taf: string, i: nat)
    requires WindAt(Normalize(taf), i) && forall j: nat | j < i :: !WindAt(Normalize(taf), j)
    ensures Contains(TafSummary(taf), WindLine(TafWindPrefix, Normalize(taf), i))
  {
    var p := Normalize(taf);
    TafWindInLines(p, i);
    WindPrefixesLack('\n');
    WindLineLacks(TafWindPrefix, p, i, '\n');
    TafLineHeads(p);
    LineShown(TafLines(p), TafFallback, WindLine(TafWindPrefix, p, i));
  }

  /** The METAR summary shows the temperature line of the leftmost temperature group,
      its two fields copied as written, `M` included. */
  lemma MetarTempShown(metar: string, i: nat)
    requires TempAt(Normalize(metar), i) && forall j: nat | j < i :: !TempAt(Normalize(metar), j)
    ensures Contains(MetarSummary(metar), TempLine(Normalize(metar), i))
  {
    var p := Normalize(metar);
    MetarTempInLines(p, i);
    TempLineLacks(p, i, '\n');
    MetarLineHeads(p);
    LineShown(MetarLines(p), MetarFallback, TempLine(p, i));
  }
}
