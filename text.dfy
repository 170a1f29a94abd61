/** String helpers that stand for the Python string operations the decision engine
    uses: `in` on strings, `str.replace` with one-character arguments, `str.strip()`,
    `"\n".join`, ASCII `str.upper()`, `str(int)` and `int(str)` on digit strings, and
    the leftmost-position search that `re.search` performs. */
module Text {

  datatype Option<T> = None | Some(value: T)

  /** An ASCII decimal digit (what `\d` matches on ASCII text). */
  predicate IsDigit(c: char) {
    '0' <= c <= '9'
  }

  /** The characters Python's `str.strip()` removes when called without arguments
      (the code points for which `str.isspace()` holds). */
  predicate IsSpace(c: char) {
    || c == ' '
    || '\t' <= c <= '\r'
    || '\U{1c}' <= c <= '\U{1f}'
    || c == '\U{85}' || c == '\U{a0}' || c == '\U{1680}'
    || '\U{2000}' <= c <= '\U{200a}'
    || c == '\U{2028}' || c == '\U{2029}' || c == '\U{202f}' || c == '\U{205f}' || c == '\U{3000}'
  }

  // ---------------------------------------------------------------------------
  // Substring test: Python's `pat in s`
  // ---------------------------------------------------------------------------

  predicate OccursAt(s: string, pat: string, i: nat) {
    i + |pat| <= |s| && s[i..i + |pat|] == pat
  }

  predicate Contains(s: string, pat: string) {
    exists i | 0 <= i <= |s| :: OccursAt(s, pat, i)
  }

  lemma OccursAtWitness(s: string, pat: string, i: nat)
    requires OccursAt(s, pat, i)
    ensures Contains(s, pat)
  {
    assert 0 <= i <= |s|;
  }

  /** An occurrence of `pat` at `i` puts every slice of `pat` at the matching place. */
  lemma OccursSlice(s: string, pat: string, i: nat, a: nat, b: nat)
    requires OccursAt(s, pat, i) && a <= b <= |pat|
    ensures s[i + a..i + b] == pat[a..b]
  {
    var w := s[i..i + |pat|];
    forall k | 0 <= k < b - a ensures s[i + a..i + b][k] == pat[a..b][k] {
      assert w[a + k] == s[i + a + k];
    }
  }

  /** A pattern one of whose characters does not occur in `s` is not a substring of it. */
  lemma AbsentChar(s: string, pat: string, k: nat)
    requires k < |pat| && pat[k] !in s
    ensures !Contains(s, pat)
  {
  }

  /** Every character covered by an occurrence of a pattern is a character of the pattern. */
  lemma CoveredChar(s: string, pat: string, i: nat, p: nat)
    requires OccursAt(s, pat, i) && i <= p < i + |pat|
    ensures s[p] in pat
  {
    assert s[p] == s[i..i + |pat|][p - i];
  }

  /** A substring of a part is a substring of the whole. */
  lemma ContainsInConcat(a: string, b: string, pat: string)
    ensures Contains(a, pat) ==> Contains(a + b, pat)
    ensures Contains(b, pat) ==> Contains(a + b, pat)
  {
    if Contains(a, pat) {
      var i :| 0 <= i <= |a| && OccursAt(a, pat, i);
      assert (a + b)[i..i + |pat|] == a[i..i + |pat|];
      OccursAtWitness(a + b, pat, i);
    }
    if Contains(b, pat) {
      var i :| 0 <= i <= |b| && OccursAt(b, pat, i);
      assert (a + b)[|a| + i..|a| + i + |pat|] == b[i..i + |pat|];
      OccursAtWitness(a + b, pat, |a| + i);
    }
  }

  /** An occurrence that ends within the left part of a concatenation is one in it. */
  lemma OccursLeft(a: string, b: string, pat: string, i: nat)
    requires OccursAt(a + b, pat, i) && i + |pat| <= |a|
    ensures OccursAt(a, pat, i)
  {
    forall k | 0 <= k < |pat| ensures a[i + k] == pat[k] {
      assert (a + b)[i..i + |pat|][k] == (a + b)[i + k];
    }
  }

  /** An occurrence that starts within the right part of a concatenation is one in it. */
  lemma OccursRight(a: string, b: string, pat: string, i: nat)
    requires OccursAt(a + b, pat, i) && i >= |a|
    ensures OccursAt(b, pat, i - |a|)
  {
    forall k | 0 <= k < |pat| ensures b[i - |a| + k] == pat[k] {
      assert (a + b)[i..i + |pat|][k] == (a + b)[i + k];
    }
  }

  /** An occurrence of a pattern that does not contain the separator `c` lies entirely
      on one side of it. */
  lemma ContainsAcross(a: string, c: char, b: string, pat: string)
    requires c !in pat
    ensures Contains(a + [c] + b, pat) <==> Contains(a, pat) || Contains(b, pat)
  {
    var s := a + [c] + b;
    if Contains(s, pat) {
      var i :| 0 <= i <= |s| && OccursAt(s, pat, i);
      if i + |pat| <= |a| {
        OccursLeft(a, [c] + b, pat, i);
        OccursAtWitness(a, pat, i);
      } else if i > |a| {
        assert s == (a + [c]) + b;
        OccursRight(a + [c], b, pat, i);
        OccursAtWitness(b, pat, i - |a| - 1);
      } else {
        assert s[|a|] == c;
        CoveredChar(s, pat, i, |a|);
        assert false;
      }
    }
    ContainsInConcat(a + [c], b, pat);
    ContainsInConcat(a, [c], pat);
  }

  /** A pattern that occurs inside a sub-pattern occurs wherever the sub-pattern does. */
  lemma ContainsTransitive(s: string, mid: string, pat: string)
    requires Contains(mid, pat) && Contains(s, mid)
    ensures Contains(s, pat)
  {
    var i :| 0 <= i <= |s| && OccursAt(s, mid, i);
    var j :| 0 <= j <= |mid| && OccursAt(mid, pat, j);
    forall k | 0 <= k < |pat| ensures s[i + j + k] == pat[k] {
      assert pat[k] == mid[j..j + |pat|][k] == mid[j + k];
      assert mid[j + k] == s[i..i + |mid|][j + k];
    }
    assert s[i + j..i + j + |pat|] == pat;
    OccursAtWitness(s, pat, i + j);
  }

  // ---------------------------------------------------------------------------
  // `sep.join(lines)`
  // ---------------------------------------------------------------------------

  function Join(lines: seq<string>, sep: string): string
    decreases |lines|
  {
    if |lines| == 0 then ""
    else if |lines| == 1 then lines[0]
    else lines[0] + sep + Join(lines[1..], sep)
  }

  /** Joining starts with the first line, so a non-empty first line makes the
      joined text non-empty and fixes its first character. */
  lemma JoinHead(lines: seq<string>, sep: string)
    requires |lines| > 0 && |lines[0]| > 0
    ensures |Join(lines, sep)| > 0 && Join(lines, sep)[0] == lines[0][0]
  {
  }

  /** A pattern free of the one-character separator occurs in the joined text
      exactly when it occurs in one of the lines. */
  lemma {:induction false} JoinContains(lines: seq<string>, c: char, pat: string)
    requires |pat| > 0 && c !in pat
    ensures Contains(Join(lines, [c]), pat) <==> exists k | 0 <= k < |lines| :: Contains(lines[k], pat)
    decreases |lines|
  {
    if |lines| <= 1 {
    } else {
      var rest := lines[1..];
      JoinContains(rest, c, pat);
      assert Join(lines, [c]) == lines[0] + [c] + Join(rest, [c]);
      ContainsAcross(lines[0], c, Join(rest, [c]), pat);
      if exists k | 0 <= k < |lines| :: Contains(lines[k], pat) {
        var k :| 0 <= k < |lines| && Contains(lines[k], pat);
        if k > 0 {
          assert Contains(rest[k - 1], pat);
        }
      }
      if exists k | 0 <= k < |rest| :: Contains(rest[k], pat) {
        var k :| 0 <= k < |rest| && Contains(rest[k], pat);
        assert Contains(lines[k + 1], pat);
      }
    }
  }

  // ---------------------------------------------------------------------------
  // `str.replace` with one-character arguments
  // ---------------------------------------------------------------------------

  /** `s.replace(from, to)` for one-character `from` and `to`. */
  function ReplaceChar(s: string, from: char, to: char): (r: string)
    ensures |r| == |s|
    ensures from != to ==> from !in r
    ensures forall k | 0 <= k < |s| :: s[k] != from ==> r[k] == s[k]
    ensures forall k | 0 <= k < |s| :: s[k] == from ==> r[k] == to
    decreases |s|
  {
    if |s| == 0 then ""
    else [if s[0] == from then to else s[0]] + ReplaceChar(s[1..], from, to)
  }

  /** `s.replace(c, "")`: every occurrence of `c` removed, the rest kept in order. */
  function RemoveChar(s: string, c: char): (r: string)
    ensures c !in r
    ensures |r| <= |s|
    decreases |s|
  {
    if |s| == 0 then ""
    else (if s[0] == c then "" else [s[0]]) + RemoveChar(s[1..], c)
  }

  /** Removing `c` from a concatenation removes it from each part: the characters that
      stay keep their order. */
  lemma {:induction false} RemoveCharAppend(a: string, b: string, c: char)
    ensures RemoveChar(a + b, c) == RemoveChar(a, c) + RemoveChar(b, c)
    decreases |a|
  {
    if |a| > 0 {
      assert (a + b)[1..] == a[1..] + b;
      RemoveCharAppend(a[1..], b, c);
    } else {
      assert a + b == b;
    }
  }

  /** On one character, `c` disappears and any other character stays. With
      `RemoveCharAppend` this fixes the result on every text. */
  lemma RemoveCharSingle(x: char, c: char)
    ensures RemoveChar([x], c) == if x == c then [] else [x]
  {
    assert [x][1..] == [];
  }

  /** Removing `c` keeps every other character and brings none in. */
  lemma {:induction false} RemoveCharKeeps(s: string, c: char)
    ensures forall x :: x in RemoveChar(s, c) <==> x in s && x != c
    decreases |s|
  {
    if |s| > 0 {
      RemoveCharKeeps(s[1..], c);
      assert s == [s[0]] + s[1..];
    }
  }

  lemma {:induction false} ReplaceCharUnchanged(s: string, from: char, to: char)
    requires from !in s
    ensures ReplaceChar(s, from, to) == s
    decreases |s|
  {
    if |s| > 0 {
      ReplaceCharUnchanged(s[1..], from, to);
    }
  }

  lemma {:induction false} RemoveCharUnchanged(s: string, c: char)
    requires c !in s
    ensures RemoveChar(s, c) == s
    decreases |s|
  {
    if |s| > 0 {
      RemoveCharUnchanged(s[1..], c);
    }
  }

  /** Replacing one character and removing another, different and unrelated one,
      can be done in either order. */
  lemma {:induction false} RemoveReplaceCommute(s: string, c: char, from: char, to: char)
    requires c != from && c != to
    ensures RemoveChar(ReplaceChar(s, from, to), c) == ReplaceChar(RemoveChar(s, c), from, to)
    decreases |s|
  {
    if |s| > 0 {
      RemoveReplaceCommute(s[1..], c, from, to);
      var x := if s[0] == from then to else s[0];
      assert ReplaceChar(s, from, to) == [x] + ReplaceChar(s[1..], from, to);
      if s[0] == c {
        assert RemoveChar(s, c) == RemoveChar(s[1..], c);
      } else {
        assert RemoveChar(s, c) == [s[0]] + RemoveChar(s[1..], c);
        assert ReplaceChar([s[0]] + RemoveChar(s[1..], c), from, to)
            == [x] + ReplaceChar(RemoveChar(s[1..], c), from, to);
      }
    }
  }

  // ---------------------------------------------------------------------------
  // `str.strip()`
  // ---------------------------------------------------------------------------

  /** Drops the leading characters `ws` accepts (white space, for `strip()`): the result
      is a suffix of `s`, and what remains is empty or starts with a character `ws` refuses. */
  function TrimStart(s: string, ws: char -> bool): (r: string)
    ensures |r| <= |s| && r == s[|s| - |r|..]
    ensures r == [] || !ws(r[0])
    decreases |s|
  {
    if |s| > 0 && ws(s[0]) then TrimStart(s[1..], ws) else s
  }

  /** Everything `TrimStart` drops is accepted by `ws`. */
  lemma {:induction false} TrimStartDropsSpace(s: string, ws: char -> bool)
    ensures forall k | 0 <= k < |s| - |TrimStart(s, ws)| :: ws(s[k])
    decreases |s|
  {
    if |s| > 0 && ws(s[0]) {
      TrimStartDropsSpace(s[1..], ws);
      forall k | 1 <= k < |s| - |TrimStart(s, ws)| ensures ws(s[k]) {
        assert s[k] == s[1..][k - 1];
      }
    }
  }

  /** Drops the trailing characters `ws` accepts: the result is a prefix of `s`, and what
      remains is empty or ends with a character `ws` refuses. */
  function TrimEnd(s: string, ws: char -> bool): (r: string)
    ensures |r| <= |s| && r == s[..|r|]
    ensures r == [] || !ws(r[|r| - 1])
    decreases |s|
  {
    if |s| > 0 && ws(s[|s| - 1]) then TrimEnd(s[..|s| - 1], ws) else s
  }

  /** Everything `TrimEnd` drops is accepted by `ws`. */
  lemma {:induction false} TrimEndDropsSpace(s: string, ws: char -> bool)
    ensures forall k | |TrimEnd(s, ws)| <= k < |s| :: ws(s[k])
    decreases |s|
  {
    if |s| > 0 && ws(s[|s| - 1]) {
      TrimEndDropsSpace(s[..|s| - 1], ws);
      forall k | |TrimEnd(s, ws)| <= k < |s| - 1 ensures ws(s[k]) {
        assert s[k] == s[..|s| - 1][k];
      }
    }
  }

  /** `r` is `s[a..b]`, and every character of `s` outside that slice is accepted
      by `ws`. */
  predicate TrimmedSlice(s: string, ws: char -> bool, r: string, a: nat, b: nat) {
    && a <= b <= |s|
    && r == s[a..b]
    && (forall k | 0 <= k < a :: ws(s[k]))
    && (forall k | b <= k < |s| :: ws(s[k]))
  }

  /** A prefix of a suffix is a slice. */
  lemma PrefixOfSuffix(s: string, t: string, r: string, a: nat)
    requires a <= |s| && t == s[a..] && |r| <= |t| && r == t[..|r|]
    ensures a + |r| <= |s| && r == s[a..a + |r|]
  {
    forall i | 0 <= i < |r| ensures r[i] == s[a + i] {
      assert r[i] == t[i];
    }
  }

  /** What lies past a prefix of a suffix, in the suffix, lies past the slice in the whole. */
  lemma PastSlice(s: string, t: string, a: nat, n: nat, ws: char -> bool)
    requires a <= |s| && t == s[a..] && n <= |t|
    requires forall k | n <= k < |t| :: ws(t[k])
    ensures forall k | a + n <= k < |s| :: ws(s[k])
  {
    forall k | a + n <= k < |s| ensures ws(s[k]) {
      assert s[k] == t[k - a];
    }
  }

  /** Dropping a prefix of white space and then a suffix of white space leaves the
      slice between them. */
  lemma TrimBoth(s: string, t: string, r: string, ws: char -> bool)
    requires |t| <= |s| && t == s[|s| - |t|..] && forall k | 0 <= k < |s| - |t| :: ws(s[k])
    requires |r| <= |t| && r == t[..|r|] && forall k | |r| <= k < |t| :: ws(t[k])
    ensures TrimmedSlice(s, ws, r, |s| - |t|, |s| - |t| + |r|)
  {
    var a := |s| - |t|;
    PrefixOfSuffix(s, t, r, a);
    PastSlice(s, t, a, |r|, ws);
  }

  /** `s.strip()` with `ws` as the white-space test: the result is the slice of `s`
      left after dropping characters `ws` accepts from both ends, and neither end of
      it is accepted by `ws`. */
  function Strip(s: string, ws: char -> bool): (r: string)
    ensures r == [] || (!ws(r[0]) && !ws(r[|r| - 1]))
    ensures |r| <= |s|
    ensures exists a: nat, b: nat :: TrimmedSlice(s, ws, r, a, b)
  {
    var t := TrimStart(s, ws);
    var r := TrimEnd(t, ws);
    assert r == [] || r[0] == t[0];
    TrimStartDropsSpace(s, ws);
    TrimEndDropsSpace(t, ws);
    TrimBoth(s, t, r, ws);
    r
  }

  /** A slice holds only characters of the whole. */
  lemma SliceChars(s: string, a: nat, b: nat)
    requires a <= b <= |s|
    ensures forall x | x in s[a..b] :: x in s
  {
    forall x | x in s[a..b] ensures x in s {
      var k :| 0 <= k < b - a && s[a..b][k] == x;
      assert s[a + k] == x;
    }
  }

  /** `strip()` introduces no character. */
  lemma StripChars(s: string, ws: char -> bool)
    ensures forall x | x in Strip(s, ws) :: x in s
  {
    var t := TrimStart(s, ws);
    var r := TrimEnd(t, ws);
    SliceChars(t, 0, |r|);
    SliceChars(s, |s| - |t|, |s|);
  }

  /** Text that neither starts nor ends with white space is left alone by `strip()`. */
  lemma StripUnchanged(s: string, ws: char -> bool)
    requires s == [] || (!ws(s[0]) && !ws(s[|s| - 1]))
    ensures Strip(s, ws) == s
  {
  }

  // ---------------------------------------------------------------------------
  // ASCII `str.upper()`
  // ---------------------------------------------------------------------------

  function UpperChar(c: char): char {
    if 'a' <= c <= 'z' then (c as int - 32) as char else c
  }

  function AsciiUpper(s: string): string {
    seq(|s|, k requires 0 <= k < |s| => UpperChar(s[k]))
  }

  /** An upper-case letter is absent from the upper-cased text when neither it nor its
      lower-case form occurs in the original. */
  lemma UpperLacks(s: string, c: char)
    requires 'A' <= c <= 'Z' && c !in s && (c as int + 32) as char !in s
    ensures c !in AsciiUpper(s)
  {
    forall k | 0 <= k < |s| ensures AsciiUpper(s)[k] != c {
      assert s[k] != c && s[k] != (c as int + 32) as char;
    }
  }

  /** Upper-casing twice is upper-casing once. */
  lemma AsciiUpperIdempotent(s: string)
    ensures AsciiUpper(AsciiUpper(s)) == AsciiUpper(s)
  {
  }

  /** Upper-casing maps every occurrence of a pattern to an occurrence of the
      upper-cased pattern. */
  lemma ContainsUpper(s: string, pat: string)
    requires Contains(s, pat)
    ensures Contains(AsciiUpper(s), AsciiUpper(pat))
  {
    var i :| 0 <= i <= |s| && OccursAt(s, pat, i);
    assert AsciiUpper(s)[i..i + |pat|] == AsciiUpper(pat) by {
      forall k | 0 <= k < |pat| ensures AsciiUpper(s)[i + k] == AsciiUpper(pat)[k] {
        assert s[i + k] == s[i..i + |pat|][k];
      }
    }
    OccursAtWitness(AsciiUpper(s), AsciiUpper(pat), i);
  }

  // ---------------------------------------------------------------------------
  // `str(n)` and `int(s)` for natural numbers written in ASCII decimal
  // ---------------------------------------------------------------------------

  function DigitChar(d: nat): char
    requires d < 10
  {
    ('0' as int + d) as char
  }

  /** `str(n)`: the canonical decimal numeral of `n`, with no leading zero. */
  function NatToDecimal(n: nat): (r: string)
    ensures |r| > 0
    ensures forall k | 0 <= k < |r| :: IsDigit(r[k])
    ensures r[0] == '0' ==> n == 0 && r == "0"
    decreases n
  {
    if n < 10 then [DigitChar(n)] else NatToDecimal(n / 10) + [DigitChar(n % 10)]
  }

  /** `int(s)` on a string of ASCII digits. */
  function DecimalValue(s: string): (v: nat)
    requires forall k | 0 <= k < |s| :: IsDigit(s[k])
    decreases |s|
  {
    if |s| == 0 then 0
    else assert IsDigit(s[|s| - 1]); DecimalValue(s[..|s| - 1]) * 10 + (s[|s| - 1] as int - '0' as int)
  }

  /** `int(str(n)) == n`. */
  lemma {:induction false} DecimalRoundTrip(n: nat)
    ensures DecimalValue(NatToDecimal(n)) == n
    decreases n
  {
    if n >= 10 {
      DecimalRoundTrip(n / 10);
      var r := NatToDecimal(n);
      assert r[..|r| - 1] == NatToDecimal(n / 10);
    }
  }

  // ---------------------------------------------------------------------------
  // Leftmost match: the position `re.search` reports for a fixed-shape pattern
  // ---------------------------------------------------------------------------

  /** The least position `i` with `k <= i < |s|` at which `matchAt` holds, if any. */
  function FindFirst(s: string, k: nat, matchAt: (string, nat) -> bool): (r: Option<nat>)
    ensures r.Some? ==> k <= r.value < |s| && matchAt(s, r.value)
    ensures r.Some? ==> forall j | k <= j < r.value :: !matchAt(s, j)
    ensures r.None? ==> forall j | k <= j < |s| :: !matchAt(s, j)
    decreases |s| - k
  {
    if k >= |s| then None
    else if matchAt(s, k) then Some(k)
    else FindFirst(s, k + 1, matchAt)
  }
}
