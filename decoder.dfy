/** The METAR and TAF decoders (`decodificar_metar`, `decodificar_taf`): each turns one
    raw weather message into a short summary by testing a handful of fixed rules in a
    fixed order and joining the lines of the rules that fired with newlines.

    The rules cover a small heuristic subset of the METAR and TAF code forms (WMO FM 15
    and FM 51): the `CAVOK` token, the wind group `dddffKT` / `VRBffKT`, the
    temperature/dew-point group `TT/TdTd` with an optional `M` (minus) prefix, the
    `BECMG` change indicator, and a few present-weather tokens. */
module Decoder {
  import opened Text

  // The longer texts are written as concatenations of shorter pieces; the pieces
  // joined are exactly the texts the decoders emit.
  const MetarFallback := "METAR não decodificado"
  const TafFallback := "TAF não decodificado"
  const MetarCavokLine := "Céu limpo (CAVOK)"
  const TafCavokLine := "Céu limpo durante" + " todo o período"
  const MetarWindPrefix := "Vento: "
  const TafWindPrefix := "Vento previsto: "
  const TemperaturePrefix := "Temperatura: "
  const BecmgLine := "\nHaverá mudanças" + " graduais nas condições"

  /** The word the alert lines start with, and that `ha_alertas` looks for. */
  const AlertMarker := "Alerta"

  const MetarAlertLine := AlertMarker + " - Fenômeno" + " significativo detectado"
  const TafAlertLine := AlertMarker + " - Previsão de" + " fenômenos" + " meteorológicos adversos"

  const TafHazardTerms := ["TSRA", "FG", "SN", "RA"]

  // ---------------------------------------------------------------------------
  // Normalisation
  // ---------------------------------------------------------------------------

  /** `message.replace("\n", " ").replace("=", "").strip()` */
  function Normalize(message: string): (p: string)
    ensures '\n' !in p && '=' !in p
    ensures p == [] || (!IsSpace(p[0]) && !IsSpace(p[|p| - 1]))
  {
    var spaced := ReplaceChar(message, '\n', ' ');
    var t := RemoveChar(spaced, '=');
    RemoveCharKeeps(spaced, '=');
    StripChars(t, IsSpace);
    Strip(t, IsSpace)
  }

  /** Normalising normalised text changes nothing. */
  lemma NormalizeIdempotent(message: string)
    ensures Normalize(Normalize(message)) == Normalize(message)
  {
    var p := Normalize(message);
    ReplaceCharUnchanged(p, '\n', ' ');
    RemoveCharUnchanged(p, '=');
    StripUnchanged(p, IsSpace);
  }

  /** `=` signs are invisible to normalisation: removing them beforehand changes nothing. */
  lemma NormalizeIgnoresEquals(message: string)
    ensures Normalize(RemoveChar(message, '=')) == Normalize(message)
  {
    var spaced := ReplaceChar(message, '\n', ' ');
    RemoveReplaceCommute(message, '=', '\n', ' ');
    RemoveCharUnchanged(RemoveChar(spaced, '='), '=');
  }

  // ---------------------------------------------------------------------------
  // The wind group `(\d{3}|VRB)(\d{2})KT`
  // ---------------------------------------------------------------------------

  /** The seven-character window at `i` matches `(\d{3}|VRB)(\d{2})KT`. */
  predicate WindAt(s: string, i: nat) {
    && i + 7 <= |s|
    && ((IsDigit(s[i]) && IsDigit(s[i + 1]) && IsDigit(s[i + 2])) || s[i..i + 3] == "VRB")
    && IsDigit(s[i + 3]) && IsDigit(s[i + 4])
    && s[i + 5] == 'K' && s[i + 6] == 'T'
  }

  /** The wind line for the window at `i`: the direction is `variável` for `VRB` and
      the three digits verbatim otherwise; the speed is the two digits verbatim. */
  function WindLine(prefix: string, s: string, i: nat): string
    requires WindAt(s, i)
  {
    var direction := if s[i..i + 3] == "VRB" then "variável" else s[i..i + 3];
    prefix + direction + " a " + s[i + 3..i + 5] + " kt"
  }

  /** The rendered direction is `variável` exactly for a `VRB` group, and otherwise the
      three digits of the group; the speed is the group's two digits, just before ` kt`. */
  lemma WindDirection(prefix: string, s: string, i: nat)
    requires WindAt(s, i)
    ensures var line := WindLine(prefix, s, i);
      && |prefix| + 11 <= |line|
      && (s[i..i + 3] == "VRB" <==> line[|prefix|..|prefix| + 8] == "variável")
      && (s[i..i + 3] != "VRB" ==> line[|prefix|..|prefix| + 3] == s[i..i + 3])
      && line[|line| - 5..|line| - 3] == s[i + 3..i + 5]
  {
    var line := WindLine(prefix, s, i);
    if s[i..i + 3] != "VRB" {
      assert line[|prefix|] == s[i];
      assert line[|prefix|..|prefix| + 8][0] != 'v';
    }
  }

  // ---------------------------------------------------------------------------
  // The temperature group `(M?\d{2})/(M?\d{2})`
  // ---------------------------------------------------------------------------

  /** A token of the shape `M?\d{2}`. */
  predicate IsField(t: string) {
    || (|t| == 2 && IsDigit(t[0]) && IsDigit(t[1]))
    || (|t| == 3 && t[0] == 'M' && IsDigit(t[1]) && IsDigit(t[2]))
  }

  /** Length of an `M?\d{2}` field at `i`: the optional `M` is taken whenever it is
      there, because a digit can never stand where the `M` is. */
  function FieldLength(s: string, i: nat): nat {
    if i < |s| && s[i] == 'M' then 3 else 2
  }

  predicate FieldAt(s: string, i: nat) {
    var n := FieldLength(s, i);
    i + n <= |s| && IsDigit(s[i + n - 2]) && IsDigit(s[i + n - 1])
  }

  /** `(M?\d{2})/(M?\d{2})` matches at `i`. */
  predicate TempAt(s: string, i: nat) {
    && FieldAt(s, i)
    && var j := i + FieldLength(s, i);
    && j < |s| && s[j] == '/' && FieldAt(s, j + 1)
  }

  function TempField(s: string, i: nat): string
    requires TempAt(s, i)
  {
    s[i..i + FieldLength(s, i)]
  }

  function DewPointField(s: string, i: nat): string
    requires TempAt(s, i)
  {
    var j := i + FieldLength(s, i) + 1;
    s[j..j + FieldLength(s, j)]
  }

  function TempLine(s: string, i: nat): string
    requires TempAt(s, i)
  {
    TemperaturePrefix + TempField(s, i) + " °C / Ponto de orvalho: " + DewPointField(s, i) + " °C"
  }

  /** A field's first character alone fixes its length: `M` opens a three-character
      field, a digit a two-character one. */
  lemma FieldLengthOf(s: string, i: nat, g: string)
    requires IsField(g) && i < |s| && s[i] == g[0]
    ensures FieldLength(s, i) == |g|
  {
  }

  /** The regular expression can match at `i` in exactly one way: a text of the form
      `g1 + "/" + g2`, with `g1` and `g2` of the shape `M?\d{2}`, starts at `i` if and
      only if `TempAt` holds there and `g1`, `g2` are the two fields it reports. */
  lemma TempMatchUnique(s: string, i: nat, g1: string, g2: string)
    requires IsField(g1) && IsField(g2)
    ensures OccursAt(s, g1 + "/" + g2, i)
        <==> TempAt(s, i) && g1 == TempField(s, i) && g2 == DewPointField(s, i)
  {
    var t := g1 + "/" + g2;
    if OccursAt(s, t, i) {
      TempMatchFields(s, i, g1, g2);
    }
    if TempAt(s, i) && g1 == TempField(s, i) && g2 == DewPointField(s, i) {
      var j := i + |g1| + 1;
      assert s[i..i + |t|] == s[i..i + |g1|] + [s[i + |g1|]] + s[j..j + |g2|];
      OccursAtWitness(s, t, i);
    }
  }

  /** An occurrence of `g1 + "/" + g2` is a match of the temperature group reporting
      exactly `g1` and `g2`. */
  lemma TempMatchFields(s: string, i: nat, g1: string, g2: string)
    requires IsField(g1) && IsField(g2) && OccursAt(s, g1 + "/" + g2, i)
    ensures TempAt(s, i) && g1 == TempField(s, i) && g2 == DewPointField(s, i)
  {
    var t := g1 + "/" + g2;
    var j := i + |g1| + 1;
    OccursSlice(s, t, i, 0, |g1|);
    assert t[..|g1|] == g1;
    OccursSlice(s, t, i, |g1|, |g1| + 1);
    assert t[|g1|..|g1| + 1] == "/";
    assert s[i + |g1|] == s[i + |g1|..i + |g1| + 1][0];
    OccursSlice(s, t, i, |g1| + 1, |t|);
    assert t[|g1| + 1..] == g2;
    assert s[i] == g1[0];
    FieldLengthOf(s, i, g1);
    assert s[j] == g2[0];
    FieldLengthOf(s, j, g2);
    assert s[i + |g1| - 2] == g1[|g1| - 2] && s[i + |g1| - 1] == g1[|g1| - 1];
    assert s[j + |g2| - 2] == g2[|g2| - 2] && s[j + |g2| - 1] == g2[|g2| - 1];
  }

  // ---------------------------------------------------------------------------
  // The rules and the summary
  // ---------------------------------------------------------------------------

  predicate MetarHazard(p: string) {
    Contains(p, "TSRA") || Contains(p, "FG") || Contains(p, "SN")
  }

  predicate TafHazard(p: string) {
    exists term | term in TafHazardTerms :: Contains(p, term)
  }

  /** `TSRA` holds `RA`, so the TAF hazard test is a test for `FG`, `SN` or `RA`. */
  lemma TafHazardTerms3(p: string)
    ensures TafHazard(p) <==> Contains(p, "FG") || Contains(p, "SN") || Contains(p, "RA")
  {
    if Contains(p, "TSRA") {
      assert OccursAt("TSRA", "RA", 2);
      OccursAtWitness("TSRA", "RA", 2);
      ContainsTransitive(p, "TSRA", "RA");
    }
    assert "RA" in TafHazardTerms;
  }

  /** One rule: the line it contributes, if it fires. */
  function CavokRule(p: string, line: string): Option<string> {
    if Contains(p, "CAVOK") then Some(line) else None
  }

  function WindRule(p: string, prefix: string): Option<string> {
    match FindFirst(p, 0, WindAt)
    case Some(i) => Some(WindLine(prefix, p, i))
    case None => None
  }

  function TempRule(p: string): Option<string> {
    match FindFirst(p, 0, TempAt)
    case Some(i) => Some(TempLine(p, i))
    case None => None
  }

  /** The wind rule in terms of the leftmost match the decoder searched for. */
  lemma WindRuleFrom(p: string, prefix: string, found: Option<nat>)
    requires found == FindFirst(p, 0, WindAt)
    ensures found.Some? ==> WindAt(p, found.value)
    ensures WindRule(p, prefix) == if found.Some? then Some(WindLine(prefix, p, found.value)) else None
  {
  }

  /** The temperature rule in terms of the leftmost match the decoder searched for. */
  lemma TempRuleFrom(p: string, found: Option<nat>)
    requires found == FindFirst(p, 0, TempAt)
    ensures found.Some? ==> TempAt(p, found.value)
    ensures TempRule(p) == if found.Some? then Some(TempLine(p, found.value)) else None
  {
  }

  /** The wind rule stays silent exactly when no seven-character window anywhere in the
      text is a wind group. */
  lemma WindRuleNone(p: string, prefix: string)
    ensures WindRule(p, prefix).None? <==> forall i: nat :: !WindAt(p, i)
  {
    var found := FindFirst(p, 0, WindAt);
    if found.None? {
      forall i: nat ensures !WindAt(p, i) {
        if i < |p| {
          assert !WindAt(p, i);
        }
      }
    }
  }

  /** When the wind group first occurs at `i`, the wind rule reports the window at `i`:
      the search is leftmost. */
  lemma WindRuleLeftmost(p: string, prefix: string, i: nat)
    requires WindAt(p, i) && forall j: nat | j < i :: !WindAt(p, j)
    ensures WindRule(p, prefix) == Some(WindLine(prefix, p, i))
  {
    var found := FindFirst(p, 0, WindAt);
    assert i < |p|;
    assert found.Some?;
    assert !(found.value < i);
    assert !(i < found.value);
  }

  /** The temperature rule stays silent exactly when the group matches nowhere. */
  lemma TempRuleNone(p: string)
    ensures TempRule(p).None? <==> forall i: nat :: !TempAt(p, i)
  {
    var found := FindFirst(p, 0, TempAt);
    if found.None? {
      forall i: nat ensures !TempAt(p, i) {
        if i < |p| {
          assert !TempAt(p, i);
        }
      }
    }
  }

  /** When the temperature group first matches at `i`, the temperature rule reports the
      fields matched at `i`. */
  lemma TempRuleLeftmost(p: string, i: nat)
    requires TempAt(p, i) && forall j: nat | j < i :: !TempAt(p, j)
    ensures TempRule(p) == Some(TempLine(p, i))
  {
    var found := FindFirst(p, 0, TempAt);
    assert i < |p|;
    assert found.Some?;
    assert !(found.value < i);
    assert !(i < found.value);
  }

  function FlagRule(fires: bool, line: string): Option<string> {
    if fires then Some(line) else None
  }

  /** The METAR rules in the order the decoder tests them. */
  function MetarRules(p: string): seq<Option<string>> {
    [CavokRule(p, MetarCavokLine), WindRule(p, MetarWindPrefix), TempRule(p),
     FlagRule(MetarHazard(p), MetarAlertLine)]
  }

  /** The TAF rules in the order the decoder tests them. */
  function TafRules(p: string): seq<Option<string>> {
    [CavokRule(p, TafCavokLine), WindRule(p, TafWindPrefix),
     FlagRule(Contains(p, "BECMG"), BecmgLine), FlagRule(TafHazard(p), TafAlertLine)]
  }

  /** The line a rule contributes: none, or the one it carries. */
  function Emitted(rule: Option<string>): seq<string> {
    if rule.Some? then [rule.value] else []
  }

  /** The lines of the rules that fired, in rule order: each rule in turn appends its
      contribution, as the decoders append to their list. */
  function Fired(rules: seq<Option<string>>): (lines: seq<string>)
    ensures |lines| <= |rules|
    decreases |rules|
  {
    if |rules| == 0 then [] else Fired(rules[..|rules| - 1]) + Emitted(rules[|rules| - 1])
  }

  /** Every output line is the line of some rule that fired, and every rule that fired
      contributes its line. */
  lemma {:induction false} FiredMembers(rules: seq<Option<string>>)
    ensures forall line | line in Fired(rules) :: Some(line) in rules
    ensures forall k | 0 <= k < |rules| :: rules[k].Some? ==> rules[k].value in Fired(rules)
    decreases |rules|
  {
    if |rules| > 0 {
      var n := |rules| - 1;
      FiredMembers(rules[..n]);
      forall line | line in Fired(rules) ensures Some(line) in rules {
        if line in Fired(rules[..n]) {
          var k :| 0 <= k < n && rules[..n][k] == Some(line);
          assert rules[k] == Some(line);
        }
      }
      forall k | 0 <= k < n && rules[k].Some? ensures rules[k].value in Fired(rules) {
        assert rules[k] == rules[..n][k];
      }
    }
  }

  /** One decoder step: the list after the rule's `if` is the list before it plus the
      rule's contribution. */
  lemma EmitStep(before: seq<string>, after: seq<string>, rule: Option<string>)
    requires rule.Some? ==> after == before + [rule.value]
    requires rule.None? ==> after == before
    ensures after == before + Emitted(rule)
  {
    if rule.None? {
      assert before + [] == before;
    }
  }

  /** No line comes out exactly when no rule fires. */
  lemma {:induction false} FiredEmpty(rules: seq<Option<string>>)
    ensures Fired(rules) == [] <==> forall k | 0 <= k < |rules| :: rules[k].None?
    decreases |rules|
  {
    if |rules| > 0 {
      var n := |rules| - 1;
      FiredEmpty(rules[..n]);
      assert forall k | 0 <= k < n :: rules[..n][k] == rules[k];
    }
  }

  /** Lines gathered by appending each rule's contribution in turn, for the four rules
      both decoders have, are the fired lines. */
  lemma RulesApplied(rules: seq<Option<string>>, r1: seq<string>, r2: seq<string>, r3: seq<string>, r4: seq<string>)
    requires |rules| == 4
    requires r1 == Emitted(rules[0]) && r2 == r1 + Emitted(rules[1])
    requires r3 == r2 + Emitted(rules[2]) && r4 == r3 + Emitted(rules[3])
    ensures Fired(rules) == r4
  {
    assert Fired(rules[..1]) == r1 by {
      assert rules[..1][..0] == [];
      assert [] + r1 == r1;
    }
    assert Fired(rules[..2]) == r2 by {
      assert rules[..2][..1] == rules[..1];
    }
    assert Fired(rules[..3]) == r3 by {
      assert rules[..3][..2] == rules[..2];
    }
    assert rules[..4] == rules;
  }

  /** The positions, among the rules, of the rules that fired: strictly increasing,
      one per output line, and line `k` is the line of rule `ks[k]`. So lines come out
      in rule order and no rule contributes twice. */
  function FiredRules(rules: seq<Option<string>>): (ks: seq<nat>)
    ensures RuleOrder(rules, Fired(rules), ks)
    decreases |rules|
  {
    if |rules| == 0 then []
    else
      var n := |rules| - 1;
      var init := FiredRules(rules[..n]);
      AppendRule(rules, Fired(rules[..n]), init);
      init + (if rules[n].Some? then [n] else [])
  }

  /** `ks` lists, in increasing order, the rule positions that produced `lines`. */
  predicate RuleOrder(rules: seq<Option<string>>, lines: seq<string>, ks: seq<nat>) {
    && |ks| == |lines|
    && (forall k | 0 <= k < |ks| :: ks[k] < |rules| && rules[ks[k]] == Some(lines[k]))
    && (forall k, l | 0 <= k < l < |ks| :: ks[k] < ks[l])
  }

  /** The last rule's contribution goes after the lines of the rules before it. */
  lemma AppendRule(rules: seq<Option<string>>, lines: seq<string>, ks: seq<nat>)
    requires |rules| > 0 && RuleOrder(rules[..|rules| - 1], lines, ks)
    ensures var n := |rules| - 1;
      RuleOrder(rules, lines + Emitted(rules[n]), ks + (if rules[n].Some? then [n] else []))
  {
    var n := |rules| - 1;
    var ks' := ks + (if rules[n].Some? then [n] else []);
    var lines' := lines + Emitted(rules[n]);
    forall k | 0 <= k < |ks| ensures ks'[k] < |rules| && rules[ks'[k]] == Some(lines'[k]) {
      assert ks'[k] == ks[k] && lines'[k] == lines[k];
      assert rules[..n][ks[k]] == rules[ks[k]];
    }
    forall k, l | 0 <= k < l < |ks'| ensures ks'[k] < ks'[l] {
      assert ks'[k] == ks[k];
      if l < |ks| {
        assert ks'[l] == ks[l];
      }
    }
  }

  /** `"\n".join(lines) or fallback` */
  function Render(lines: seq<string>, fallback: string): string {
    var text := Join(lines, "\n");
    if text == "" then fallback else text
  }

  function MetarLines(p: string): seq<string> {
    Fired(MetarRules(p))
  }

  function TafLines(p: string): seq<string> {
    Fired(TafRules(p))
  }

  /** The text `decodificar_metar` returns. */
  function MetarSummary(metar: string): string {
    Render(MetarLines(Normalize(metar)), MetarFallback)
  }

  /** The text `decodificar_taf` returns. */
  function TafSummary(taf: string): string {
    Render(TafLines(Normalize(taf)), TafFallback)
  }

  // ---------------------------------------------------------------------------
  // The decoders as the source writes them: successive appends to a list
  // ---------------------------------------------------------------------------

  /** The rule tests of `decodificar_metar` on the normalised text `partes`, appending
      to `resumo` in the order the source does. */
  method CollectMetarLines(partes: string) returns (resumo: seq<string>)
    ensures resumo == MetarLines(partes)
  {
    resumo := [];
    if Contains(partes, "CAVOK") {
      resumo := resumo + [MetarCavokLine];
    }
    EmitStep([], resumo, CavokRule(partes, MetarCavokLine));
    ghost var r1 := resumo;
    var wind := FindFirst(partes, 0, WindAt);
    WindRuleFrom(partes, MetarWindPrefix, wind);
    if wind.Some? {
      resumo := resumo + [WindLine(MetarWindPrefix, partes, wind.value)];
    }
    EmitStep(r1, resumo, WindRule(partes, MetarWindPrefix));
    ghost var r2 := resumo;
    var temp := FindFirst(partes, 0, TempAt);
    TempRuleFrom(partes, temp);
    if temp.Some? {
      resumo := resumo + [TempLine(partes, temp.value)];
    }
    EmitStep(r2, resumo, TempRule(partes));
    ghost var r3 := resumo;
    var hazard := Contains(partes, "TSRA") || Contains(partes, "FG") || Contains(partes, "SN");
    if hazard {
      resumo := resumo + [MetarAlertLine];
    }
    EmitStep(r3, resumo, FlagRule(hazard, MetarAlertLine));
    RulesApplied(MetarRules(partes), r1, r2, r3, resumo);
  }

  /** `decodificar_metar`: normalise, test the rules, join the lines or fall back. */
  method DecodeMetar(metar: string) returns (summary: string)
    ensures summary == MetarSummary(metar)
  {
    var partes := Normalize(metar);
    var resumo := CollectMetarLines(partes);
    summary := Render(resumo, MetarFallback);
  }

  /** The rule tests of `decodificar_taf` on the normalised text `partes`. */
  method CollectTafLines(partes: string) returns (resumo: seq<string>)
    ensures resumo == TafLines(partes)
  {
    resumo := [];
    if Contains(partes, "CAVOK") {
      resumo := resumo + [TafCavokLine];
    }
    EmitStep([], resumo, CavokRule(partes, TafCavokLine));
    ghost var r1 := resumo;
    var wind := FindFirst(partes, 0, WindAt);
    WindRuleFrom(partes, TafWindPrefix, wind);
    if wind.Some? {
      resumo := resumo + [WindLine(TafWindPrefix, partes, wind.value)];
    }
    EmitStep(r1, resumo, WindRule(partes, TafWindPrefix));
    ghost var r2 := resumo;
    if Contains(partes, "BECMG") {
      resumo := resumo + [BecmgLine];
    }
    EmitStep(r2, resumo, FlagRule(Contains(partes, "BECMG"), BecmgLine));
    ghost var r3 := resumo;
    if TafHazard(partes) {
      resumo := resumo + [TafAlertLine];
    }
    EmitStep(r3, resumo, FlagRule(TafHazard(partes), TafAlertLine));
    RulesApplied(TafRules(partes), r1, r2, r3, resumo);
  }

  /** `decodificar_taf`: normalise, test the rules, join the lines or fall back. */
  method DecodeTaf(taf: string) returns (summary: string)
    ensures summary == TafSummary(taf)
  {
    var partes := Normalize(taf);
    var resumo := CollectTafLines(partes);
    summary := Render(resumo, TafFallback);
  }
}
