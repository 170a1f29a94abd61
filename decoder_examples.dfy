/** Worked examples of the two decoders on short messages, each computed to the
    exact summary text. */
module DecoderExamples {
  import opened Text
  import opened Decoder
  import opened DecoderFacts

  /** Text with no newline, no `=` and no white space at either end is already
      normalised. */
  lemma NormalizeUnchanged(s: string)
    requires '\n' !in s && '=' !in s
    requires s == [] || (!IsSpace(s[0]) && !IsSpace(s[|s| - 1]))
    ensures Normalize(s) == s
  {
    ReplaceCharUnchanged(s, '\n', ' ');
    RemoveCharUnchanged(s, '=');
    StripUnchanged(s, IsSpace);
  }

  /** Without a `K` there is no wind group. */
  lemma NoWindWithoutK(s: string)
    requires 'K' !in s
    ensures forall i: nat :: !WindAt(s, i)
  {
    forall i: nat ensures !WindAt(s, i) {
      if i + 7 <= |s| {
        assert s[i + 5] in s;
      }
    }
  }

  /** Without a `/` there is no temperature group. */
  lemma NoTempWithoutSlash(s: string)
    requires '/' !in s
    ensures forall i: nat :: !TempAt(s, i)
  {
    forall i: nat ensures !TempAt(s, i) {
      var j := i + FieldLength(s, i);
      if j < |s| {
        assert s[j] in s;
      }
    }
  }

  /** A one-line summary is that line. */
  lemma RenderOne(line: string, fallback: string)
    requires |line| > 0
    ensures Render([line], fallback) == line
  {
  }

  // ---------------------------------------------------------------------------
  // `00000KT`: calm wind keeps its digits
  // ---------------------------------------------------------------------------

  const CalmWind := "00000KT"

  lemma CalmWindLetters()
    ensures '\n' !in CalmWind && '=' !in CalmWind && !IsSpace(CalmWind[0]) && !IsSpace(CalmWind[6])
    ensures 'C' !in CalmWind && 'S' !in CalmWind && 'F' !in CalmWind && '/' !in CalmWind
  {
  }

  lemma CalmWindQuiet()
    ensures !Contains(CalmWind, "CAVOK") && !MetarHazard(CalmWind)
    ensures TempRule(CalmWind) == None
  {
    var s := CalmWind;
    CalmWindLetters();
    AbsentChar(s, "CAVOK", 0);
    AbsentChar(s, "TSRA", 1);
    AbsentChar(s, "FG", 0);
    AbsentChar(s, "SN", 0);
    NoTempWithoutSlash(s);
    TempRuleNone(s);
  }

  lemma CalmWindLine()
    ensures WindAt(CalmWind, 0)
    ensures WindLine(MetarWindPrefix, CalmWind, 0) == "Vento: 000 a 00 kt"
  {
    var s := CalmWind;
    assert WindAt(s, 0);
    assert s[0..3] == "000" && s[3..5] == "00";
  }

  /** The only rule that fires on `00000KT` is the wind rule. */
  lemma CalmWindLines()
    ensures MetarLines(CalmWind) == ["Vento: 000 a 00 kt"]
  {
    var s := CalmWind;
    CalmWindQuiet();
    CalmWindLine();
    WindRuleLeftmost(s, MetarWindPrefix, 0);
    MetarLinesInOrder(s);
  }

  /** `00000KT` is decoded as direction `000` and speed `00`: the digits are copied,
      not read as a number. */
  lemma CalmWindExample()
    ensures MetarSummary(CalmWind) == "Vento: 000 a 00 kt"
  {
    CalmWindLetters();
    NormalizeUnchanged(CalmWind);
    CalmWindLines();
    RenderOne("Vento: 000 a 00 kt", MetarFallback);
  }

  // ---------------------------------------------------------------------------
  // `M05/M10`: the `M` is passed through
  // ---------------------------------------------------------------------------

  const Freezing := "M05/M10"

  /** The temperature line for `M05/M10`. */
  const FreezingLine := TemperaturePrefix + "M05" + " °C / Ponto de orvalho: " + "M10" + " °C"

  lemma FreezingLetters()
    ensures '\n' !in Freezing && '=' !in Freezing && !IsSpace(Freezing[0]) && !IsSpace(Freezing[6])
    ensures 'C' !in Freezing && 'S' !in Freezing && 'F' !in Freezing && 'K' !in Freezing
  {
  }

  lemma FreezingQuiet()
    ensures !Contains(Freezing, "CAVOK") && !MetarHazard(Freezing)
    ensures WindRule(Freezing, MetarWindPrefix) == None
  {
    var s := Freezing;
    FreezingLetters();
    AbsentChar(s, "CAVOK", 0);
    AbsentChar(s, "TSRA", 1);
    AbsentChar(s, "FG", 0);
    AbsentChar(s, "SN", 0);
    NoWindWithoutK(s);
    WindRuleNone(s, MetarWindPrefix);
  }

  lemma FreezingTemp()
    ensures TempAt(Freezing, 0) && TempLine(Freezing, 0) == FreezingLine
  {
    var s := Freezing;
    assert FieldLength(s, 0) == 3 && FieldLength(s, 4) == 3;
    assert TempAt(s, 0);
    assert TempField(s, 0) == "M05" && DewPointField(s, 0) == "M10";
  }

  /** The only rule that fires on `M05/M10` is the temperature rule. */
  lemma FreezingLines()
    ensures MetarLines(Freezing) == [FreezingLine]
  {
    FreezingQuiet();
    FreezingTemp();
    TempRuleLeftmost(Freezing, 0);
    MetarLinesInOrder(Freezing);
  }

  /** `M05/M10` keeps both `M` prefixes: there is no conversion to a minus sign. */
  lemma FreezingExample()
    ensures MetarSummary(Freezing) == TemperaturePrefix + "M05" + " °C / Ponto de orvalho: " + "M10" + " °C"
  {
    FreezingLetters();
    NormalizeUnchanged(Freezing);
    FreezingLines();
    RenderOne(FreezingLine, MetarFallback);
  }

  // ---------------------------------------------------------------------------
  // `BECMG`: the line keeps its leading newline
  // ---------------------------------------------------------------------------

  const Becoming := "BECMG"

  lemma BecomingLetters()
    ensures '\n' !in Becoming && '=' !in Becoming && !IsSpace(Becoming[0]) && !IsSpace(Becoming[4])
    ensures 'A' !in Becoming && 'K' !in Becoming && 'F' !in Becoming && 'S' !in Becoming && 'R' !in Becoming
  {
  }

  /** A TAF holding only `BECMG` is summarised by the BECMG line alone, newline first:
      the summary starts with an empty line. */
  lemma BecomingExample()
    ensures TafSummary(Becoming) == BecmgLine
    ensures TafSummary(Becoming)[0] == '\n'
  {
    var s := Becoming;
    BecomingLetters();
    NormalizeUnchanged(s);
    AbsentChar(s, "CAVOK", 1);
    NoWindWithoutK(s);
    WindRuleNone(s, TafWindPrefix);
    assert s[0..5] == "BECMG";
    OccursAtWitness(s, "BECMG", 0);
    TafHazardTerms3(s);
    AbsentChar(s, "FG", 0);
    AbsentChar(s, "SN", 0);
    AbsentChar(s, "RA", 0);
    TafLinesInOrder(s);
    RenderOne(BecmgLine, TafFallback);
  }

  // ---------------------------------------------------------------------------
  // Hazards are plain substrings
  // ---------------------------------------------------------------------------

  /** The station identifier `SNBR` contains `SN`, so a METAR naming it alone raises
      the alert. */
  const Identifier := "SNBR"

  lemma IdentifierLetters()
    ensures '\n' !in Identifier && '=' !in Identifier
    ensures !IsSpace(Identifier[0]) && !IsSpace(Identifier[3])
    ensures 'C' !in Identifier && 'K' !in Identifier && '/' !in Identifier
    ensures Contains(Identifier, "SN")
  {
    assert Identifier[0..2] == "SN";
    OccursAtWitness(Identifier, "SN", 0);
  }

  /** On `SNBR` only the hazard rule fires. */
  lemma IdentifierLines()
    ensures MetarLines(Identifier) == [MetarAlertLine]
  {
    var s := Identifier;
    IdentifierLetters();
    AbsentChar(s, "CAVOK", 1);
    NoWindWithoutK(s);
    WindRuleNone(s, MetarWindPrefix);
    NoTempWithoutSlash(s);
    TempRuleNone(s);
    MetarLinesInOrder(s);
  }

  /** A METAR naming only the station `SNBR` is summarised by the alert line: the
      identifier contains `SN` and the test is a plain substring test. */
  lemma IdentifierRaisesAlert()
    ensures MetarSummary(Identifier) == MetarAlertLine
    ensures Contains(MetarSummary(Identifier), AlertMarker)
  {
    IdentifierLetters();
    NormalizeUnchanged(Identifier);
    IdentifierLines();
    AlertLinesStartWithMarker();
    RenderOne(MetarAlertLine, MetarFallback);
  }
}
