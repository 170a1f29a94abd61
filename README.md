# Flight Safety Decision: a verified model of the decision engine

`app.py` is a small Streamlit page. It takes an origin and a destination aerodrome
and the aircraft's minimum takeoff and landing distances. It then fetches, for each
aerodrome:

- the runway record (ROTAER);
- the NOTAMs;
- the METAR and TAF messages.

From these it shows a safe, conditional or unsafe verdict. This project models the
deterministic part of the page in Dafny and proves properties of it:

- **Decoders** (`decoder.dfy`). `decodificar_metar` and `decodificar_taf` each turn a
  raw weather message into a summary. They normalise the text (newline to space,
  every `=` removed, strip). Then they test four rules in a fixed order: `CAVOK`, the
  leftmost wind group, then the leftmost temperature group (METAR) or `BECMG` (TAF),
  then the hazard tokens. The lines of the rules that fired are joined with
  newlines; when no rule fired, the decoder returns a fallback text.
  - Each rule is a function returning `Option<string>`.
  - The list of lines is `Fired` of the rule list.
  - `CollectMetarLines` and `CollectTafLines` are the append-by-append methods the
    source runs, proved equal to those functions.
  - The regular expressions are fixed-width, leftmost searches. `WindAt` is
    `(\d{3}|VRB)(\d{2})KT` at a position. `TempAt` is `(M?\d{2})/(M?\d{2})` at a
    position. `FindFirst` is the leftmost search.
- **Decoder properties** (`decoder_facts.dfy`):
  - the order of the lines;
  - the exact condition for the fallback;
  - `Alerta` appears in a summary exactly when a hazard token does;
  - a TAF summary never has a temperature line;
  - `=` is invisible;
  - the leftmost wind and temperature groups are shown.

  `decoder_examples.dfy` computes four summaries to the exact text.
- **Alerts** (`alerts.dfy`). `ha_alertas` is a loop with early return over the
  texts. `ha_alerta_notam` is an `any` over the NOTAM records, on the upper-cased
  text.
- **Feeds** (`feeds.dfy`). `consultar_metar` and `consultar_taf` map the list of
  messages to their summaries. They substitute a fixed text when there is no
  message or the request failed. This is what the alert scan actually sees.
- **Runways** (`runways.dfy`):
  - `avaliar_pistas`, the loop that writes two lines per runway and clears a flag on
    any failed comparison;
  - the loop over the two legs, which reports a leg without runway data and fails
    the route.

  Each loop is a method proved against a left-fold function (`RunwayReport`,
  `LegsReport`).
- **Verdict** (`flight.dfy`). The alert disjunction and the three-way verdict are
  lifted out of the page into functions; `EvaluateFlight` runs the whole decision.

The record shapes are the ones the page builds:

- a runway is an ident and a length;
- the aerodrome lookup gives a runway list or an error record;
- a NOTAM is code, location, date and text.

The length is an already-parsed natural number. Where the lookup left the length
out, the page's default of `"0"` is a runway of length 0.

## Model

| member | source | states |
|---|---|---|
| Text.ReplaceChar | app.py:94 | `replace("\n", " ")`: same length, every `from` becomes `to` and every other character stays at its place |
| Text.RemoveChar | app.py:94 | `replace("=", "")`: no `=` left and the text does not grow |
| Text.RemoveCharAppend | app.py:94 | removing `=` from a concatenation removes it from each part, so the kept characters keep their order |
| Text.RemoveCharSingle | app.py:94 | on one character, `=` disappears and any other character stays; with `RemoveCharAppend` this fixes the result on every text |
| Text.RemoveCharKeeps | app.py:94 | removing `=` keeps exactly the characters that are not `=` |
| Text.RemoveReplaceCommute | app.py:94 | removing `=` and turning newlines into spaces can be done in either order |
| Text.TrimStart | app.py:94 | `lstrip`: the result is a suffix that does not start with white space |
| Text.TrimStartDropsSpace | app.py:94 | everything `lstrip` drops is white space |
| Text.TrimEnd | app.py:94 | `rstrip`: the result is a prefix that does not end with white space |
| Text.TrimEndDropsSpace | app.py:94 | everything `rstrip` drops is white space |
| Text.Strip | app.py:94 | `strip`: the result is a slice `s[a..b]` of the input with only white space before `a` and after `b`, and neither of its ends is white space |
| Text.StripChars | app.py:94 | `strip` introduces no character |
| Text.StripUnchanged | app.py:94 | text without white space at either end is left as it is |
| Text.IsSpace | app.py:94 | the characters `strip()` removes: the code points for which `str.isspace()` holds (ASCII space, tab to carriage return, the separators `\x1c`-`\x1f`, NEL, no-break space and the Unicode space separators) |
| Text.JoinHead | app.py:105 | `"\n".join` of lines starts with the first character of the first line |
| Text.JoinContains | app.py:105 | a pattern without newline is in the joined text exactly when it is in one of the lines |
| Text.ContainsAcross | app.py:105 | a pattern without the separator is in `a + sep + b` exactly when it is in `a` or in `b` |
| Text.Join | app.py:105 | `sep.join(lines)`: empty for no line, the line itself for one, otherwise the first line, the separator and the join of the rest |
| Text.Contains | app.py:96 | Python's `pat in s`: `pat` occurs at some position of `s` |
| Text.AsciiUpper | app.py:128 | `upper()`: each ASCII lower-case letter replaced by its capital, every other character kept |
| Text.FindFirst | app.py:98 | `re.search` at fixed width: the result is the leftmost position that matches, or no match anywhere |
| Text.UpperLacks | app.py:128 | a letter missing from the text in both cases is missing from `upper()` of it |
| Text.AsciiUpperIdempotent | app.py:128 | `upper()` twice is `upper()` once |
| Text.ContainsUpper | app.py:128 | if `word` is in the text, then `upper(word)` is in `upper(text)` |
| Text.NatToDecimal | app.py:196 | the `{comprimento}` text is non-empty, all digits and has no leading zero |
| Text.DecimalValue | app.py:194 | `int()` of a string of digits: the value of the digits read left to right in base ten, 0 for the empty string |
| Text.DecimalRoundTrip | app.py:194-196 | reading the printed length back with `int()` gives the length |
| Decoder.Normalize | app.py:94 | the normalised text has no newline and no `=`, and no white space at either end |
| Decoder.NormalizeIdempotent | app.py:94 | normalising twice equals normalising once |
| Decoder.NormalizeIgnoresEquals | app.py:94 | removing `=` first does not change the normalised text |
| Decoder.WindAt | app.py:98 | `(\d{3}\|VRB)(\d{2})KT` matches at position `i`: three digits or `VRB`, two digits, then `KT` |
| Decoder.WindLine | app.py:99-100 | the f-string: prefix, `variável` for `VRB` or else the three digits, ` a `, the two digits, ` kt` |
| Decoder.FieldLength | app.py:101 | the width of an `M?\d{2}` group at `i`: 3 when an `M` stands at `i`, else 2 (a digit cannot stand there, so taking the `M` is the only way to match) |
| Decoder.FieldAt | app.py:101 | an `M?\d{2}` group matches at `i`: the two characters after the optional `M` are digits and lie inside the text |
| Decoder.TempAt | app.py:101 | `(M?\d{2})/(M?\d{2})` matches at position `i`: a field, `/`, a field, each an optional `M` and two digits |
| Decoder.TempField | app.py:101-102 | `match[1]` of the temperature group at `i`: the characters of the first `M?\d{2}` group, `M` included |
| Decoder.DewPointField | app.py:101-102 | `match[2]` of the temperature group at `i`: the characters of the group after the `/`, `M` included |
| Decoder.TempLine | app.py:102 | the f-string: `Temperatura: `, the first field, ` °C / Ponto de orvalho: `, the second field, ` °C` |
| Decoder.WindDirection | app.py:98-100 | the direction shown is `variável` exactly for `VRB`, else the three digits verbatim; the speed shown is the two digits verbatim |
| Decoder.FieldLengthOf | app.py:101 | a temperature field is 2 characters, or 3 with a leading `M`, read deterministically |
| Decoder.TempMatchUnique | app.py:101 | `g1/g2` (each of shape `M?dd`) occurs at a position exactly when the temperature group matches there with fields `g1` and `g2`: the match is unique |
| Decoder.TempMatchFields | app.py:101-102 | the temperature line's two fields are exactly the matched groups, `M` prefixes included |
| Decoder.TafHazardTerms3 | app.py:117 | `TSRA` adds nothing to the TAF test: `RA` already covers it |
| Decoder.MetarHazard | app.py:103 | the normalised METAR contains `TSRA`, `FG` or `SN` |
| Decoder.TafHazard | app.py:117 | the normalised TAF contains one of `TSRA`, `FG`, `SN`, `RA` |
| Decoder.CavokRule | app.py:96-97 | the CAVOK line when the text contains `CAVOK`, else nothing |
| Decoder.WindRule | app.py:98-100 | the wind line of the leftmost wind match, else nothing |
| Decoder.TempRule | app.py:101-102 | the temperature line of the leftmost temperature match, else nothing |
| Decoder.FlagRule | app.py:103-104 | a fixed line when its test holds, else nothing |
| Decoder.MetarRules | app.py:95-104 | the four METAR rules in source order: CAVOK, wind, temperature, alert |
| Decoder.TafRules | app.py:109-118 | the four TAF rules in source order: CAVOK, wind, BECMG, alert |
| Decoder.WindRuleNone | app.py:98 | the wind rule is silent exactly when no position matches |
| Decoder.WindRuleLeftmost | app.py:98-100 | the wind line is built from the leftmost match |
| Decoder.TempRuleNone | app.py:101 | the temperature rule is silent exactly when no position matches |
| Decoder.TempRuleLeftmost | app.py:101-102 | the temperature line is built from the leftmost match |
| Decoder.MetarLines | app.py:95-104 | the `resumo` list of `decodificar_metar` after its four conditional appends: the lines fired by the METAR rules |
| Decoder.TafLines | app.py:109-118 | the `resumo` list of `decodificar_taf` after its four conditional appends: the lines fired by the TAF rules |
| Decoder.Fired | app.py:95-104 | the lines the rules produce, in rule order; never more lines than rules (which line comes from which rule is `FiredRules`) |
| Decoder.FiredMembers | app.py:95-104 | every emitted line comes from a rule that fired, and every rule that fired emitted its line |
| Decoder.FiredEmpty | app.py:95-105 | no line is produced exactly when no rule fires |
| Decoder.RulesApplied | app.py:95-104 | four successive conditional appends produce the lines of the rule list |
| Decoder.FiredRules | app.py:95-104 | the lines come from strictly increasing rule positions: rule order is kept |
| Decoder.Render | app.py:105 | `"\n".join(resumo) or fallback`: the joined lines, or the fallback when the join is empty |
| Decoder.MetarSummary | app.py:93-105 | the text `decodificar_metar` returns: the METAR rule lines of the normalised text, rendered |
| Decoder.TafSummary | app.py:107-119 | the text `decodificar_taf` returns: the TAF rule lines of the normalised text, rendered |
| Decoder.CollectMetarLines | app.py:95-104 | the appends of `decodificar_metar` give the METAR rule lines, CAVOK, wind, temperature, alert |
| Decoder.DecodeMetar | app.py:93-105 | `decodificar_metar` returns the joined lines of the normalised text, or the fallback |
| Decoder.CollectTafLines | app.py:109-118 | the appends of `decodificar_taf` give the TAF rule lines, CAVOK, wind, BECMG, alert |
| Decoder.DecodeTaf | app.py:107-119 | `decodificar_taf` returns the joined lines of the normalised text, or the fallback |
| DecoderFacts.AlertLinesStartWithMarker | app.py:104 | both alert lines start with `Alerta` |
| DecoderFacts.MetarFixedTextsLackMarker | app.py:97-105 | the CAVOK line and the fallback do not contain `Alerta` |
| DecoderFacts.TafFixedTextsLackMarker | app.py:111-119 | the TAF CAVOK line, the BECMG line and the fallback do not contain `Alerta` |
| DecoderFacts.TafFixedTextsLackTemperature | app.py:111-119 | no fixed TAF text contains `Temperatura` |
| DecoderFacts.WindLineLacks | app.py:100 | a wind line contains no `A`, no `T` and no newline beyond its prefix's |
| DecoderFacts.TempLineLacks | app.py:102 | a temperature line contains no `A` and no newline |
| DecoderFacts.MetarLinesSatisfy | app.py:95-104 | every METAR line is one of the four rule lines |
| DecoderFacts.TafLinesSatisfy | app.py:109-118 | every TAF line is one of the four rule lines |
| DecoderFacts.MetarLineHeads | app.py:97-105 | no METAR line is empty or starts like the fallback |
| DecoderFacts.TafLineHeads | app.py:111-119 | no TAF line is empty or starts like the fallback |
| DecoderFacts.MetarLinesInOrder | app.py:95-104 | the METAR lines are CAVOK, then wind, then temperature, then alert, each present when its rule fires |
| DecoderFacts.TafLinesInOrder | app.py:109-118 | the TAF lines are CAVOK, then wind, then BECMG (with its leading newline), then alert |
| DecoderFacts.RenderFallback | app.py:105 | the output is the fallback exactly when there is no line |
| DecoderFacts.RenderContains | app.py:105 | a pattern without newline is in the output exactly when it is in a line, or in the fallback when there is none |
| DecoderFacts.MetarSilentIff | app.py:96-104 | no METAR line exactly when there is no CAVOK, no wind group, no temperature group and no `TSRA`/`FG`/`SN` |
| DecoderFacts.TafSilentIff | app.py:110-118 | no TAF line exactly when there is no CAVOK, no wind group, no `BECMG` and no hazard term |
| DecoderFacts.MetarFallbackIff | app.py:93-105 | `METAR não decodificado` is returned exactly when none of the four rules fires |
| DecoderFacts.TafFallbackIff | app.py:107-119 | `TAF não decodificado` is returned exactly when none of the four rules fires |
| DecoderFacts.MetarMarkerLines | app.py:96-104 | a METAR line contains `Alerta` only if there is a hazard, and some line does when there is one |
| DecoderFacts.MetarRenderedAlertIff | app.py:96-105 | the rendered METAR summary contains `Alerta` exactly when there is a hazard |
| DecoderFacts.MetarAlertIff | app.py:93-105 | the METAR summary contains `Alerta` exactly when the normalised message contains `TSRA`, `FG` or `SN` |
| DecoderFacts.TafMarkerLines | app.py:110-118 | a TAF line contains `Alerta` only if there is a hazard, and some line does when there is one |
| DecoderFacts.TafRenderedAlertIff | app.py:110-119 | the rendered TAF summary contains `Alerta` exactly when there is a hazard |
| DecoderFacts.TafAlertIff | app.py:107-119 | the TAF summary contains `Alerta` exactly when the normalised message contains `TSRA`, `FG`, `SN` or `RA` |
| DecoderFacts.TafLinesLackTemperature | app.py:109-118 | no TAF line contains `Temperatura` |
| DecoderFacts.TafRenderedLacksTemperature | app.py:109-119 | the rendered TAF summary never contains `Temperatura` |
| DecoderFacts.TafHasNoTemperature | app.py:107-119 | `decodificar_taf` never reports a temperature |
| DecoderFacts.MetarIgnoresEquals | app.py:94 | decoding a METAR with every `=` removed gives the same summary |
| DecoderFacts.TafIgnoresEquals | app.py:108 | decoding a TAF with every `=` removed gives the same summary |
| DecoderFacts.MetarNormalizedInput | app.py:94 | decoding an already normalised METAR gives the same summary |
| DecoderFacts.TafNormalizedInput | app.py:108 | decoding an already normalised TAF gives the same summary |
| DecoderFacts.LineShown | app.py:105 | every line of the list appears in the joined text |
| DecoderFacts.MetarWindInLines | app.py:98-100 | the leftmost wind group's line is among the METAR lines |
| DecoderFacts.TafWindInLines | app.py:112-114 | the leftmost wind group's line is among the TAF lines |
| DecoderFacts.MetarTempInLines | app.py:101-102 | the leftmost temperature group's line is among the METAR lines |
| DecoderFacts.MetarWindShown | app.py:93-105 | the METAR summary shows the leftmost wind group's line |
| DecoderFacts.TafWindShown | app.py:107-119 | the TAF summary shows the leftmost wind group's line |
| DecoderFacts.MetarTempShown | app.py:93-105 | the METAR summary shows the leftmost temperature group's line |
| DecoderExamples.NormalizeUnchanged | app.py:94 | text with no newline, no `=` and no white space at either end is already normalised |
| DecoderExamples.NoWindWithoutK | app.py:98 | without a `K` there is no wind group |
| DecoderExamples.NoTempWithoutSlash | app.py:101 | without a `/` there is no temperature group |
| DecoderExamples.CalmWindLines | app.py:96-104 | for `00000KT` only the wind rule fires |
| DecoderExamples.CalmWindExample | app.py:93-105 | `00000KT` is summarised as `Vento: 000 a 00 kt` |
| DecoderExamples.FreezingLines | app.py:96-104 | for `M05/M10` only the temperature rule fires |
| DecoderExamples.FreezingExample | app.py:93-105 | `M05/M10` is summarised with `M05` and `M10` kept verbatim |
| DecoderExamples.BecomingExample | app.py:107-119 | a TAF of only `BECMG` is summarised by the BECMG line, which starts with a newline |
| DecoderExamples.IdentifierRaisesAlert | app.py:93-105 | a METAR of only the identifier `SNBR` is summarised as exactly the alert line, because `SN` is a plain substring |
| Alerts.HasAlerts | app.py:121-125 | `ha_alertas` is true exactly when some text contains `Alerta`; false says no text does, so it is false on an empty list |
| Alerts.AnyAlertAppend | app.py:121-125 | scanning a concatenation finds an alert exactly when one of its parts has one |
| Alerts.AnyAlertSingle | app.py:121-125 | a one-text list alerts exactly when its text contains `Alerta` |
| Alerts.MetarSummaryAlert | app.py:93-105 | `ha_alertas([decodificar_metar(m)])` holds exactly when the normalised `m` contains a METAR hazard token |
| Alerts.TafSummaryAlert | app.py:107-119 | `ha_alertas([decodificar_taf(t)])` holds exactly when the normalised `t` contains a TAF hazard term |
| Alerts.NotamHazard | app.py:128 | one record's test: its text, upper-cased, contains `FECHADO` or `CANCELADO` |
| Alerts.HasNotamAlert | app.py:128 | `ha_alerta_notam` is true exactly when some record's upper-cased text contains `FECHADO` or `CANCELADO`, so it is false on an empty list |
| Alerts.NotamAlertAppend | app.py:128 | NOTAM alerts in a concatenation are alerts in one of its parts |
| Alerts.NotamHazardIgnoresCase | app.py:128 | any spelling of `fechado` or `cancelado`, in any case, raises the alert |
| Alerts.NotamHazardUpper | app.py:128 | upper-casing the text first does not change the test |
| Alerts.DefaultInfoIsQuiet | app.py:63 | the default text `Sem descrição` raises no alert |
| Feeds.MetarTexts | app.py:75-79 | one text per message, or a single text when there is none or the request failed |
| Feeds.TafTexts | app.py:87-91 | one text per message, or a single text when there is none or the request failed |
| Feeds.FixedTextsQuiet | app.py:76-79 | the no-data and error texts raise no alert |
| Feeds.MetarFeedAlertIff | app.py:75-79 | scanning the METAR texts alerts exactly when some message has a METAR hazard |
| Feeds.TafFeedAlertIff | app.py:87-91 | scanning the TAF texts alerts exactly when some message has a TAF hazard |
| Runways.Compare | app.py:195-201 | `comprimento >= dist_min_*`: the comparison passes exactly when the length reaches the minimum, the boundary included |
| Runways.Checks | app.py:193-205 | two comparisons per runway |
| Runways.CheckLinePasses | app.py:195-205 | a line starts with the check mark exactly when its comparison passed |
| Runways.CheckLine | app.py:196-204 | the f-string: check mark, `Pista <ident> (<local>) - <Decolagem\|Pouso>: <length>m OK`, or prohibition sign and `insuficiente` |
| Runways.RenderChecks | app.py:196-204 | one line per comparison |
| Runways.RenderLines | app.py:196-204 | line `j` reports comparison `j` |
| Runways.RenderAppend | app.py:193-205 | the lines of a concatenation are the concatenation of the lines |
| Runways.AssessRunways | app.py:190-206 | `avaliar_pistas` returns the report of the runways, and its flag is true exactly when every runway reaches both minima, the boundary included |
| Runways.RunwayReport | app.py:190-206 | the report list `avaliar_pistas` builds, as a fold: the rendered comparisons of the runways, takeoff then landing for each |
| Runways.ReportStep | app.py:193-205 | one loop iteration adds the runway's takeoff line then its landing line, and joins its two comparisons into the flag |
| Runways.ChecksLayout | app.py:193-205 | comparison `2k` is runway `k`'s takeoff check, `2k+1` its landing check |
| Runways.ReportLines | app.py:190-206 | exactly two lines per runway, in runway order, takeoff before landing; an empty list gives no line |
| Runways.ChecksPass | app.py:195-205 | every runway is adequate exactly when every comparison passed |
| Runways.ReportFlagAgrees | app.py:190-206 | the flag is true exactly when every line of the report is an `OK` line |
| Runways.ReportAppend | app.py:193-205 | the report of a concatenation of runway lists is the concatenation of the reports |
| Runways.ChecksAppend | app.py:193-205 | the comparisons of a concatenation are the concatenation of the comparisons |
| Runways.MissingLengthFails | app.py:27 | a runway whose length defaulted to `"0"` fails any positive minimum, and its report shows a failure |
| Runways.AssessLegs | app.py:208-218 | the leg loop returns every leg's lines in leg order, and the flag is true exactly when every leg has runway data and all of them are adequate |
| Runways.HasRunways | app.py:211 | `rotaer.get("pistas")` is truthy: the record is a runway list and the list is not empty; the error record has none |
| Runways.LegsReport | app.py:208-218 | the `relatorios` list the leg loop builds, as a fold: each leg's lines after the previous legs' lines |
| Runways.LegLines | app.py:211-218 | a leg's lines: the runway report when it has a non-empty runway list, else the one `Sem dados de pista para <local>` line |
| Runways.LegsStep | app.py:209-218 | one leg adds its lines and joins its flag into the route's |
| Runways.NoDataLeg | app.py:211-213 | a leg without runway data, including the error record, adds exactly the `Sem dados de pista para` line and fails the route |
| Runways.LegsReportAppend | app.py:208-218 | the report of a concatenation of legs is the concatenation of their reports |
| Runways.TwoLegs | app.py:208-218 | origin lines come before destination lines; the route passes exactly when both legs do |
| Flight.Verdict | app.py:229-234 | safe exactly when the runways pass and there is no alert, conditional exactly when they pass with an alert, unsafe exactly when they fail |
| Flight.RouteLegs | app.py:209 | the legs the loop visits: `Origem` with the origin's runway data, then `Destino` with the destination's |
| Flight.FlightCondition | app.py:208-234 | the verdict of the combined runway flag of both legs and the six-way alert disjunction |
| Flight.RouteAlerts | app.py:220-227 | the six-way disjunction equals one scan over all weather texts or one over all NOTAMs |
| Flight.EvaluateFlight | app.py:208-234 | the page's decision returns the legs' report and the verdict of the route |
| Flight.SafeIff | app.py:208-234 | the route is safe exactly when both aerodromes have runways, all of them are adequate, and nothing raises an alert |
| Flight.MissingRunwayDataIsUnsafe | app.py:211-234 | an aerodrome without runway data, or with a failed lookup, makes the route unsafe whatever the alerts |
| Flight.AlertsNeverUnsafe | app.py:229-234 | changing only weather and NOTAMs never moves a route into or out of unsafe |
| Flight.RouteAlertsFromFeeds | app.py:69-91 | the route alerts exactly when some METAR or TAF message of either aerodrome has a hazard, or some NOTAM says closed or cancelled |

Proof steps that only unfold a definition or take one loop or fold step have no row:
`Decoder.WindRuleFrom` and `Decoder.TempRuleFrom` (a search result read as a rule),
`Decoder.EmitStep` (one conditional append), `Decoder.AppendRule` (one rule of the order
proof), `Runways.RenderAppendOne` (one rendered comparison), and the string lemmas of `Text`
the proofs use.

## Left out

- The HTTP requests, the API keys, and the XML and JSON parsing of `consultar_rotaer`, `get_notams_por_localidade`, `consultar_metar` and `consultar_taf` are left out: they are network I/O and third-party parsers. Their outputs are inputs here:
  - `RunwayData` for the runway lookup;
  - a sequence of `Notam` records;
  - a `Feed` of raw messages, or the failure of the request.
- Defaults and lookup failures are represented in the input types:
  - A missing runway length (`or "0"`) is a length of 0.
  - The NOTAM defaults (`N/A`, the ICAO code, `Desconhecida`, `Sem descrição`) are assumed already applied to the record.
  - A NOTAM request that fails gives an empty list.
- The `width` field of the runway record and the coordinates and distance of the aerodrome record are not modelled: no decision reads them.
- Runways.AssessRunways: the length is an already-parsed `nat`. The `int()` parse is not modelled: it raises on non-numeric text, and it accepts a negative length such as `"-30"`, which the page compares like any other and which fails every minimum. A negative length cannot be expressed here. `DecimalRoundTrip` only shows that printing and re-reading a length agrees.
- `Runway.ident` is a string. The case where `findtext("ident")` gives `None` and the line would print `None` is not modelled.
- Text.IsDigit covers ASCII `0`-`9` only; Python's `\d` also matches other Unicode decimal digits. Decoder.WindAt and Decoder.TempAt use it for `\d`, so a wind or temperature group written with non-ASCII digits is not matched here.
- Text.AsciiUpper upper-cases ASCII letters only. Python's `upper()` is Unicode-wide; for example, `ß` becomes `SS`.
- The Streamlit layout, the HTML rendering of the blocks, the fuel and cruise-speed inputs (read but never used) and the UTC timestamp are left out: they are UI and clock.
- The page contains no distance, fuel or autonomy computation, so none is modelled.
- Flight.EvaluateFlight computes the two NOTAM alerts with the `HasNotamAlert` function, as the source's `any` expression does. The weather alerts use the `HasAlerts` loop.
