/** The field matcher `filter_datum`.

    The source builds the pattern `(f1|f2|...|fn)=([^;]+)` from the field
    names and rewrites every match of it with `re.sub`, putting back the
    matched name, `=` and the redaction text. This module models that one
    pattern as a left-to-right scan over the message: at each position the
    alternatives are tried in list order, the first one followed by `=` and
    at least one character other than `;` wins, the greedy `[^;]+` takes
    every character up to the next `;` (or the end), and the scan resumes
    after it; where no alternative matches, one character is copied. */
module Redaction {

  /** A character allowed in a field name. Names are spliced into the
      pattern without escaping, so only names made of these characters
      stand for themselves. */
  predicate IsNameChar(c: char) {
    ('a' <= c <= 'z') || ('A' <= c <= 'Z') || ('0' <= c <= '9') || c == '_'
  }

  predicate IsFieldName(f: string) {
    forall i :: 0 <= i < |f| ==> IsNameChar(f[i])
  }

  predicate AllFieldNames(fields: seq<string>) {
    forall k {:trigger IsFieldName(fields[k])} :: 0 <= k < |fields| ==> IsFieldName(fields[k])
  }

  /** A key or value text that holds neither `=` nor `;`. */
  predicate Plain(x: string) {
    forall i :: 0 <= i < |x| ==> x[i] != '=' && x[i] != ';'
  }

  /** The alternatives of the group `(f1|...|fn)`. Joining an empty list
      gives the empty group `()`, which matches the empty name. */
  function Alternatives(fields: seq<string>): seq<string> {
    if fields == [] then [""] else fields
  }

  /** The alternative `g`, then `=`, then a character other than `;` start
      at position `i` of `s`. */
  predicate MatchesAt(g: string, s: string, i: nat) {
    i + |g| + 1 < |s| && s[i..i + |g|] == g && s[i + |g|] == '=' && s[i + |g| + 1] != ';'
  }

  /** The first of `alts[j..]` that matches at `i`, or `|alts|`. */
  function FirstFrom(alts: seq<string>, s: string, i: nat, j: nat): (k: nat)
    requires j <= |alts|
    ensures j <= k <= |alts|
    decreases |alts| - j
  {
    if j == |alts| then j
    else if MatchesAt(alts[j], s, i) then j
    else FirstFrom(alts, s, i, j + 1)
  }

  /** The index of the alternative the pattern takes at position `i`: the
      first one in list order that matches there, or `|alts|` when none does. */
  function FirstAlternative(alts: seq<string>, s: string, i: nat): (k: nat)
    ensures k <= |alts|
  {
    FirstFrom(alts, s, i, 0)
  }

  /** Where the greedy `[^;]*` that starts at `i` stops: the next `;`, or
      the end of `s`. */
  function RunEnd(s: string, i: nat): (e: nat)
    requires i <= |s|
    ensures i <= e <= |s|
    ensures e == |s| || s[e] == ';'
    decreases |s| - i
  {
    if i == |s| || s[i] == ';' then i else RunEnd(s, i + 1)
  }

  /** The substitution from position `i` on, over the alternatives `alts`. */
  function ScanFrom(alts: seq<string>, redaction: string, s: string, i: nat): string
    requires i <= |s|
    decreases |s| - i
  {
    if i == |s| then []
    else
      var k := FirstAlternative(alts, s, i);
      if k == |alts| then [s[i]] + ScanFrom(alts, redaction, s, i + 1)
      else
        FirstAlternativeMatches(alts, s, i);
        alts[k] + "=" + redaction + ScanFrom(alts, redaction, s, RunEnd(s, i + |alts[k]| + 1))
  }

  function Scan(alts: seq<string>, redaction: string, s: string): string {
    ScanFrom(alts, redaction, s, 0)
  }

  /** `filter_datum(fields, redaction, message, separator)`. The separator
      takes no part: the pattern hard-codes `;`. */
  function FilterDatum(fields: seq<string>, redaction: string, message: string, separator: string): string
    requires AllFieldNames(fields)
  {
    Scan(Alternatives(fields), redaction, message)
  }

  /** Messages of the form `k1=v1;k2=v2;...;` with every pair terminated. */
  function Terminated(parts: seq<string>): string {
    if parts == [] then "" else parts[0] + ";" + Terminated(parts[1..])
  }

  /** Some suffix of `key` from `i` on (the whole rest, a shorter suffix or
      the empty suffix) is one of the alternatives. */
  predicate SuffixFrom(alts: seq<string>, key: string, i: nat)
    requires i <= |key|
    decreases |key| - i
  {
    key[i..] in alts || (i < |key| && SuffixFrom(alts, key, i + 1))
  }

  /** Some suffix of `key` is one of the alternatives: matching is not
      anchored to the start of a key, so such a suffix followed by `=` is a
      match. */
  predicate SuffixIsAlternative(alts: seq<string>, key: string) {
    SuffixFrom(alts, key, 0)
  }

  /** What one `key=value` pair becomes. */
  function RedactedPair(alts: seq<string>, redaction: string, key: string, value: string): string {
    key + "=" + (if value != [] && SuffixIsAlternative(alts, key) then redaction else value)
  }

  /** A `key=value` field of a log message. */
  datatype Pair = Pair(key: string, value: string)

  predicate PlainPairs(pairs: seq<Pair>) {
    forall j :: 0 <= j < |pairs| ==> Plain(pairs[j].key) && Plain(pairs[j].value)
  }

  /** The texts `key=value` of the pairs. */
  function PairTexts(pairs: seq<Pair>): seq<string> {
    seq(|pairs|, j requires 0 <= j < |pairs| => pairs[j].key + "=" + pairs[j].value)
  }

  /** What each pair becomes under the alternatives `alts`. */
  function RedactedPairs(alts: seq<string>, redaction: string, pairs: seq<Pair>): seq<string> {
    seq(|pairs|, j requires 0 <= j < |pairs| => RedactedPair(alts, redaction, pairs[j].key, pairs[j].value))
  }

  /** Each of `parts` scanned on its own. */
  function ScanEach(alts: seq<string>, redaction: string, parts: seq<string>): seq<string> {
    seq(|parts|, j requires 0 <= j < |parts| => Scan(alts, redaction, parts[j]))
  }

  // ---------------------------------------------------------------------
  // Which alternative is taken

  lemma {:induction false} FirstFromIsFirst(alts: seq<string>, s: string, i: nat, j: nat, m: nat)
    requires j <= m && j <= |alts| && m < FirstFrom(alts, s, i, j)
    ensures !MatchesAt(alts[m], s, i)
    decreases |alts| - j
  {
    if j < m {
      FirstFromIsFirst(alts, s, i, j + 1, m);
    }
  }

  lemma {:induction false} FirstFromMatches(alts: seq<string>, s: string, i: nat, j: nat)
    requires j <= |alts|
    ensures FirstFrom(alts, s, i, j) < |alts| ==> MatchesAt(alts[FirstFrom(alts, s, i, j)], s, i)
    decreases |alts| - j
  {
    if j < |alts| && !MatchesAt(alts[j], s, i) {
      FirstFromMatches(alts, s, i, j + 1);
    }
  }

  /** The alternative taken, if any, does match. */
  lemma {:induction false} FirstAlternativeMatches(alts: seq<string>, s: string, i: nat)
    ensures FirstAlternative(alts, s, i) < |alts| ==> MatchesAt(alts[FirstAlternative(alts, s, i)], s, i)
  {
    FirstFromMatches(alts, s, i, 0);
  }

  lemma {:induction false} FirstFromNone(alts: seq<string>, s: string, i: nat, j: nat)
    requires j <= |alts|
    requires forall m :: j <= m < |alts| ==> !MatchesAt(alts[m], s, i)
    ensures FirstFrom(alts, s, i, j) == |alts|
    decreases |alts| - j
  {
    if j < |alts| {
      FirstFromNone(alts, s, i, j + 1);
    }
  }

  /** When no alternative matches at `i`, none is taken. */
  lemma {:induction false} NoAlternative(alts: seq<string>, s: string, i: nat)
    requires forall m :: 0 <= m < |alts| ==> !MatchesAt(alts[m], s, i)
    ensures FirstAlternative(alts, s, i) == |alts|
  {
    FirstFromNone(alts, s, i, 0);
  }

  /** No alternative listed before the one taken matches: the pattern tries
      the alternatives of the group in order. */
  lemma {:induction false} FirstAlternativeIsFirst(alts: seq<string>, s: string, i: nat, m: nat)
    requires m < FirstAlternative(alts, s, i)
    ensures !MatchesAt(alts[m], s, i)
  {
    FirstFromIsFirst(alts, s, i, 0, m);
  }

  /** Two places where the same alternatives match take the same one. */
  lemma {:induction false} SameFirstFrom(alts: seq<string>, s: string, i: nat, t: string, n: nat, j: nat)
    requires j <= |alts|
    requires forall m :: j <= m < |alts| ==> (MatchesAt(alts[m], s, i) <==> MatchesAt(alts[m], t, n))
    ensures FirstFrom(alts, s, i, j) == FirstFrom(alts, t, n, j)
    decreases |alts| - j
  {
    if j < |alts| {
      SameFirstFrom(alts, s, i, t, n, j + 1);
    }
  }

  /** The characters under a field name that matches are name characters. */
  lemma {:induction false} NameChars(g: string, s: string, i: nat)
    requires IsFieldName(g) && i + |g| <= |s| && s[i..i + |g|] == g
    ensures forall m :: i <= m < i + |g| ==> IsNameChar(s[m])
  {
    forall m | i <= m < i + |g|
      ensures IsNameChar(s[m])
    {
      assert s[m] == s[i..i + |g|][m - i];
    }
  }

  /** Two field names that both sit in front of an `=` at the same place
      are the same name. */
  lemma {:induction false} SameKey(g: string, f: string, s: string, i: nat)
    requires IsFieldName(g) && IsFieldName(f)
    requires i + |g| < |s| && s[i..i + |g|] == g && s[i + |g|] == '='
    requires i + |f| < |s| && s[i..i + |f|] == f && s[i + |f|] == '='
    ensures g == f
  {
    NameChars(g, s, i);
    NameChars(f, s, i);
  }

  /** A character that is neither `=` nor a name character starts no match. */
  lemma {:induction false} NoMatchAtSeparator(alts: seq<string>, s: string, i: nat)
    requires AllFieldNames(alts)
    requires i < |s| && s[i] != '=' && !IsNameChar(s[i])
    ensures FirstAlternative(alts, s, i) == |alts|
  {
    forall m | 0 <= m < |alts|
      ensures !MatchesAt(alts[m], s, i)
    {
      var g := alts[m];
      assert IsFieldName(g);
      if i + |g| < |s| && s[i..i + |g|] == g {
        NameChars(g, s, i);
      }
    }
    NoAlternative(alts, s, i);
  }

  // ---------------------------------------------------------------------
  // The value run

  /** The run from `i` up to `RunEnd(s, i)` holds no `;`. */
  lemma {:induction false} RunHasNoSemicolon(s: string, i: nat, m: nat)
    requires i <= m && i <= |s| && m < RunEnd(s, i)
    ensures s[m] != ';'
    decreases |s| - i
  {
    if i < m {
      RunHasNoSemicolon(s, i + 1, m);
    }
  }

  /** The value run that starts at `n` with a character other than `;`:
      it is not empty, holds no `;`, and is followed by `;` or the end. */
  lemma ValueRun(s: string, n: nat)
    requires n < |s| && s[n] != ';'
    ensures n < RunEnd(s, n)
    ensures forall m :: n <= m < RunEnd(s, n) ==> s[m] != ';'
    ensures RunEnd(s, n) == |s| || s[RunEnd(s, n)] == ';'
  {
    forall m | n <= m < RunEnd(s, n)
      ensures s[m] != ';'
    {
      RunHasNoSemicolon(s, n, m);
    }
  }

  /** A `;`-free stretch from `i` to `j`, followed by `;` or the end, is
      the whole run. */
  lemma {:induction false} RunEndAt(s: string, i: nat, j: nat)
    requires i <= j <= |s|
    requires forall m :: i <= m < j ==> s[m] != ';'
    requires j == |s| || s[j] == ';'
    ensures RunEnd(s, i) == j
    decreases j - i
  {
    if i < j {
      RunEndAt(s, i + 1, j);
    }
  }

  // ---------------------------------------------------------------------
  // Text outside the matches is copied verbatim and in order

  lemma {:induction false} ConsSlice(s: string, i: nat, p: nat, x: string)
    requires i < p <= |s|
    ensures [s[i]] + (s[i + 1..p] + x) == s[i..p] + x
  {
    assert s[i..p] == [s[i]] + s[i + 1..p];
  }

  /** One step of the scan where the alternative `k` is taken: `f=` and the
      redaction are emitted and the value run from `n` on is skipped. */
  lemma {:induction false} ScanMatchStep(alts: seq<string>, redaction: string, s: string, i: nat, k: nat, n: nat)
    requires i < |s| && k == FirstAlternative(alts, s, i) && k < |alts| && n == i + |alts[k]| + 1
    ensures n <= |s|
    ensures ScanFrom(alts, redaction, s, i) == alts[k] + "=" + redaction + ScanFrom(alts, redaction, s, RunEnd(s, n))
  {
    FirstAlternativeMatches(alts, s, i);
  }

  /** One step of the scan where no alternative matches. */
  lemma {:induction false} ScanCopyStep(alts: seq<string>, redaction: string, s: string, i: nat)
    requires i < |s| && FirstAlternative(alts, s, i) == |alts|
    ensures ScanFrom(alts, redaction, s, i) == [s[i]] + ScanFrom(alts, redaction, s, i + 1)
  {
  }

  /** If no alternative matches at any position from `i` up to `p`, those
      characters are copied unchanged and the scan continues from `p`. */
  lemma {:induction false} ScanCopiesUnmatched(alts: seq<string>, redaction: string, s: string, i: nat, p: nat)
    requires i <= p <= |s|
    requires forall m :: i <= m < p ==> FirstAlternative(alts, s, m) == |alts|
    ensures ScanFrom(alts, redaction, s, i) == s[i..p] + ScanFrom(alts, redaction, s, p)
    decreases p - i
  {
    if i < p {
      ScanCopiesUnmatched(alts, redaction, s, i + 1, p);
      ScanCopyStep(alts, redaction, s, i);
      ConsSlice(s, i, p, ScanFrom(alts, redaction, s, p));
    }
  }

  /** The leftmost match at `p`, where the alternative `k` is taken: text
      before it is copied, `f=` and the redaction are emitted in place of
      `f=v`, and the scan resumes where the value run ends (`ValueRun`
      says what that run is). */
  lemma {:induction false} LeftmostMatch(alts: seq<string>, redaction: string, s: string, i: nat, p: nat, k: nat)
    requires i <= p < |s|
    requires forall m :: i <= m < p ==> FirstAlternative(alts, s, m) == |alts|
    requires k == FirstAlternative(alts, s, p) && k < |alts|
    ensures MatchesAt(alts[k], s, p)
    ensures ScanFrom(alts, redaction, s, i)
         == s[i..p] + (alts[k] + "=" + redaction + ScanFrom(alts, redaction, s, RunEnd(s, p + |alts[k]| + 1)))
  {
    ScanCopiesUnmatched(alts, redaction, s, i, p);
    FirstAlternativeMatches(alts, s, p);
    ScanMatchStep(alts, redaction, s, p, k, p + |alts[k]| + 1);
  }

  /** Passthrough: when no alternative is followed, anywhere in the message,
      by `=` and a character other than `;`, the message comes back
      unchanged. */
  lemma {:induction false} FilterDatumPassthrough(fields: seq<string>, redaction: string, message: string, separator: string)
    requires AllFieldNames(fields)
    requires forall i, k :: 0 <= i < |message| && 0 <= k < |Alternatives(fields)| ==>
               !MatchesAt(Alternatives(fields)[k], message, i)
    ensures FilterDatum(fields, redaction, message, separator) == message
  {
    var alts := Alternatives(fields);
    forall m | 0 <= m < |message|
      ensures FirstAlternative(alts, message, m) == |alts|
    {
      NoAlternative(alts, message, m);
    }
    ScanCopiesUnmatched(alts, redaction, message, 0, |message|);
    assert message[0..|message|] == message;
  }

  /** A message in which every `=` is followed by `;` or ends the message
      (in particular a message with no `=`, or one whose only values are
      empty, such as `password=;`) comes back unchanged, whatever the fields. */
  lemma {:induction false} NoValuePassthrough(fields: seq<string>, redaction: string, message: string, separator: string)
    requires AllFieldNames(fields)
    requires forall i :: 0 <= i < |message| - 1 && message[i] == '=' ==> message[i + 1] == ';'
    ensures FilterDatum(fields, redaction, message, separator) == message
  {
    FilterDatumPassthrough(fields, redaction, message, separator);
  }

  // ---------------------------------------------------------------------
  // The scan does not look back: what precedes a position does not matter

  lemma {:induction false} MatchesAtShift(g: string, u: string, t: string, i: nat)
    ensures MatchesAt(g, u + t, |u| + i) <==> MatchesAt(g, t, i)
  {
    var s := u + t;
    if |u| + i + |g| + 1 < |s| {
      assert s[|u| + i..|u| + i + |g|] == t[i..i + |g|];
      assert s[|u| + i + |g|] == t[i + |g|];
      assert s[|u| + i + |g| + 1] == t[i + |g| + 1];
    }
  }

  lemma {:induction false} RunEndShift(u: string, t: string, i: nat)
    requires i <= |t|
    ensures RunEnd(u + t, |u| + i) == |u| + RunEnd(t, i)
    decreases |t| - i
  {
    if i < |t| {
      assert (u + t)[|u| + i] == t[i];
      if t[i] != ';' {
        RunEndShift(u, t, i + 1);
      }
    }
  }

  lemma {:induction false} FirstAlternativeShift(alts: seq<string>, u: string, t: string, i: nat)
    ensures FirstAlternative(alts, u + t, |u| + i) == FirstAlternative(alts, t, i)
  {
    forall m | 0 <= m < |alts|
      ensures MatchesAt(alts[m], u + t, |u| + i) <==> MatchesAt(alts[m], t, i)
    {
      MatchesAtShift(alts[m], u, t, i);
    }
    SameFirstFrom(alts, u + t, |u| + i, t, i, 0);
  }

  lemma {:induction false} ShiftCopyStep(alts: seq<string>, redaction: string, u: string, t: string, i: nat)
    requires i < |t| && FirstAlternative(alts, t, i) == |alts|
    ensures ScanFrom(alts, redaction, u + t, |u| + i) == [t[i]] + ScanFrom(alts, redaction, u + t, |u| + i + 1)
  {
    FirstAlternativeShift(alts, u, t, i);
    assert (u + t)[|u| + i] == t[i];
    ScanCopyStep(alts, redaction, u + t, |u| + i);
  }

  lemma {:induction false} ShiftMatchStep(alts: seq<string>, redaction: string, u: string, t: string, i: nat, k: nat, n: nat)
    requires i < |t| && k == FirstAlternative(alts, t, i) && k < |alts| && n == i + |alts[k]| + 1
    ensures n <= |t|
    ensures ScanFrom(alts, redaction, u + t, |u| + i)
         == alts[k] + "=" + redaction + ScanFrom(alts, redaction, u + t, |u| + RunEnd(t, n))
  {
    FirstAlternativeShift(alts, u, t, i);
    FirstAlternativeMatches(alts, t, i);
    RunEndShift(u, t, n);
    ScanMatchStep(alts, redaction, u + t, |u| + i, k, |u| + n);
  }

  lemma {:induction false} ShiftCopyClose(alts: seq<string>, redaction: string, u: string, t: string, i: nat)
    requires i < |t| && FirstAlternative(alts, t, i) == |alts|
    requires ScanFrom(alts, redaction, u + t, |u| + i + 1) == ScanFrom(alts, redaction, t, i + 1)
    ensures ScanFrom(alts, redaction, u + t, |u| + i) == ScanFrom(alts, redaction, t, i)
  {
    ShiftCopyStep(alts, redaction, u, t, i);
    ScanCopyStep(alts, redaction, t, i);
  }

  lemma {:induction false} ShiftMatchClose(alts: seq<string>, redaction: string, u: string, t: string, i: nat, k: nat, n: nat)
    requires i < |t| && k == FirstAlternative(alts, t, i) && k < |alts| && n == i + |alts[k]| + 1 && n <= |t|
    requires ScanFrom(alts, redaction, u + t, |u| + RunEnd(t, n)) == ScanFrom(alts, redaction, t, RunEnd(t, n))
    ensures ScanFrom(alts, redaction, u + t, |u| + i) == ScanFrom(alts, redaction, t, i)
  {
    ShiftMatchStep(alts, redaction, u, t, i, k, n);
    ScanMatchStep(alts, redaction, t, i, k, n);
  }

  /** Scanning `t` inside `u + t` from any position of `t` gives what
      scanning `t` alone gives. */
  lemma {:induction false} ScanShift(alts: seq<string>, redaction: string, u: string, t: string, i: nat)
    requires i <= |t|
    ensures ScanFrom(alts, redaction, u + t, |u| + i) == ScanFrom(alts, redaction, t, i)
    decreases |t| - i
  {
    if i == |t| {
      assert |u + t| == |u| + i;
    } else if FirstAlternative(alts, t, i) == |alts| {
      ScanShift(alts, redaction, u, t, i + 1);
      ShiftCopyClose(alts, redaction, u, t, i);
    } else {
      var k := FirstAlternative(alts, t, i);
      var n := i + |alts[k]| + 1;
      FirstAlternativeMatches(alts, t, i);
      ScanShift(alts, redaction, u, t, RunEnd(t, n));
      ShiftMatchClose(alts, redaction, u, t, i, k, n);
    }
  }

  /** A character that is neither `=` nor a name character (`;`, a space)
      is copied, and the rest is scanned on its own. */
  lemma {:induction false} ScanCopiesSeparatorChar(alts: seq<string>, redaction: string, c: char, t: string)
    requires AllFieldNames(alts)
    requires c != '=' && !IsNameChar(c)
    ensures Scan(alts, redaction, [c] + t) == [c] + Scan(alts, redaction, t)
  {
    NoMatchAtSeparator(alts, [c] + t, 0);
    ScanCopyStep(alts, redaction, [c] + t, 0);
    ScanShift(alts, redaction, [c], t, 0);
  }

  // ---------------------------------------------------------------------
  // A `;` ends every match: the text on either side is scanned separately

  /** A name, its `=` and the first value character never reach across a
      `;`, so a match that starts before `p + ";"` lies inside `p`. */
  lemma {:induction false} MatchesBeforeSemicolon(g: string, p: string, t: string, i: nat)
    requires IsFieldName(g) && i < |p|
    ensures MatchesAt(g, p + ";" + t, i) <==> MatchesAt(g, p, i)
  {
    var s := p + ";" + t;
    assert s[|p|] == ';';
    if i + |g| <= |s| && s[i..i + |g|] == g {
      NameChars(g, s, i);
    }
    if i + |g| + 1 < |p| {
      assert s[i..i + |g|] == p[i..i + |g|];
      assert s[i + |g|] == p[i + |g|];
      assert s[i + |g| + 1] == p[i + |g| + 1];
    }
  }

  lemma {:induction false} SameAlternativeBeforeSemicolon(alts: seq<string>, p: string, t: string, i: nat)
    requires AllFieldNames(alts) && i < |p|
    ensures FirstAlternative(alts, p + ";" + t, i) == FirstAlternative(alts, p, i)
  {
    forall m | 0 <= m < |alts|
      ensures MatchesAt(alts[m], p + ";" + t, i) <==> MatchesAt(alts[m], p, i)
    {
      assert IsFieldName(alts[m]);
      MatchesBeforeSemicolon(alts[m], p, t, i);
    }
    SameFirstFrom(alts, p + ";" + t, i, p, i, 0);
  }

  /** A value run inside `p` stops at the `;` after `p` at the latest. */
  lemma {:induction false} RunEndBeforeSemicolon(p: string, t: string, n: nat)
    requires n <= |p|
    ensures RunEnd(p + ";" + t, n) == RunEnd(p, n)
    decreases |p| - n
  {
    var s := p + ";" + t;
    if n == |p| {
      assert s[n] == ';';
    } else {
      assert s[n] == p[n];
      if p[n] != ';' {
        RunEndBeforeSemicolon(p, t, n + 1);
      }
    }
  }

  lemma Regroup(a: string, x: string, y: string)
    ensures a + (x + ";" + y) == a + x + ";" + y
  {
  }

  /** The `;` itself is copied and what follows is scanned on its own. */
  lemma {:induction false} ScanAtSemicolon(alts: seq<string>, redaction: string, p: string, t: string)
    requires AllFieldNames(alts)
    ensures ScanFrom(alts, redaction, p + ";" + t, |p|) == ";" + Scan(alts, redaction, t)
  {
    var s := p + ";" + t;
    assert s[|p|] == ';';
    assert !IsNameChar(';');
    NoMatchAtSeparator(alts, s, |p|);
    ScanCopyStep(alts, redaction, s, |p|);
    ScanShift(alts, redaction, p + ";", t, 0);
  }

  lemma {:induction false} StopCopyClose(alts: seq<string>, redaction: string, p: string, t: string, i: nat)
    requires i < |p|
    requires FirstAlternative(alts, p + ";" + t, i) == |alts| && FirstAlternative(alts, p, i) == |alts|
    requires ScanFrom(alts, redaction, p + ";" + t, i + 1)
          == ScanFrom(alts, redaction, p, i + 1) + ";" + Scan(alts, redaction, t)
    ensures ScanFrom(alts, redaction, p + ";" + t, i)
         == ScanFrom(alts, redaction, p, i) + ";" + Scan(alts, redaction, t)
  {
    assert (p + ";" + t)[i] == p[i];
    ScanCopyStep(alts, redaction, p + ";" + t, i);
    ScanCopyStep(alts, redaction, p, i);
    Regroup([p[i]], ScanFrom(alts, redaction, p, i + 1), Scan(alts, redaction, t));
  }

  lemma {:induction false} StopMatchClose(alts: seq<string>, redaction: string, p: string, t: string, i: nat, k: nat, n: nat)
    requires i < |p| && k < |alts| && n == i + |alts[k]| + 1 && n <= |p|
    requires k == FirstAlternative(alts, p + ";" + t, i) && k == FirstAlternative(alts, p, i)
    requires RunEnd(p + ";" + t, n) == RunEnd(p, n)
    requires ScanFrom(alts, redaction, p + ";" + t, RunEnd(p, n))
          == ScanFrom(alts, redaction, p, RunEnd(p, n)) + ";" + Scan(alts, redaction, t)
    ensures ScanFrom(alts, redaction, p + ";" + t, i)
         == ScanFrom(alts, redaction, p, i) + ";" + Scan(alts, redaction, t)
  {
    ScanMatchStep(alts, redaction, p + ";" + t, i, k, n);
    ScanMatchStep(alts, redaction, p, i, k, n);
    Regroup(alts[k] + "=" + redaction, ScanFrom(alts, redaction, p, RunEnd(p, n)), Scan(alts, redaction, t));
  }

  /** Scanning `p;t` from a position in `p` scans the rest of `p` alone,
      copies the `;`, and scans `t` alone. */
  lemma {:induction false} ScanStopsAtSemicolon(alts: seq<string>, redaction: string, p: string, t: string, i: nat)
    requires AllFieldNames(alts) && i <= |p|
    ensures ScanFrom(alts, redaction, p + ";" + t, i)
         == ScanFrom(alts, redaction, p, i) + ";" + Scan(alts, redaction, t)
    decreases |p| - i
  {
    if i == |p| {
      ScanAtSemicolon(alts, redaction, p, t);
    } else {
      SameAlternativeBeforeSemicolon(alts, p, t, i);
      var k := FirstAlternative(alts, p, i);
      if k == |alts| {
        ScanStopsAtSemicolon(alts, redaction, p, t, i + 1);
        StopCopyClose(alts, redaction, p, t, i);
      } else {
        var n := i + |alts[k]| + 1;
        FirstAlternativeMatches(alts, p, i);
        RunEndBeforeSemicolon(p, t, n);
        ScanStopsAtSemicolon(alts, redaction, p, t, RunEnd(p, n));
        StopMatchClose(alts, redaction, p, t, i, k, n);
      }
    }
  }

  /** `filter_datum` on `p;t` is `filter_datum` on `p` and on `t`, joined
      by the `;`. */
  lemma {:induction false} FilterDatumSplitsAtSemicolon(fields: seq<string>, redaction: string, p: string, t: string, separator: string)
    requires AllFieldNames(fields)
    ensures FilterDatum(fields, redaction, p + ";" + t, separator)
         == FilterDatum(fields, redaction, p, separator) + ";" + FilterDatum(fields, redaction, t, separator)
  {
    ScanStopsAtSemicolon(Alternatives(fields), redaction, p, t, 0);
  }

  // ---------------------------------------------------------------------
  // One `key=value` pair

  lemma {:induction false} FirstFromAtMost(alts: seq<string>, s: string, i: nat, j: nat, m: nat)
    requires j <= m < |alts| && MatchesAt(alts[m], s, i)
    ensures FirstFrom(alts, s, i, j) <= m
    decreases |alts| - j
  {
    if j < m && !MatchesAt(alts[j], s, i) {
      FirstFromAtMost(alts, s, i, j + 1, m);
    }
  }

  /** When an alternative matches, the one taken is it or an earlier one. */
  lemma {:induction false} FirstAlternativeAtMost(alts: seq<string>, s: string, i: nat, m: nat)
    requires m < |alts| && MatchesAt(alts[m], s, i)
    ensures FirstAlternative(alts, s, i) <= m
  {
    FirstFromAtMost(alts, s, i, 0, m);
  }

  /** In `key=value` with neither part holding `=` or `;`, the alternative
      `g` matches at a position `i` of the key exactly when it is the rest
      of the key from `i` and the value is not empty; it matches nowhere
      after the `=`. */
  lemma {:induction false} MatchInPair(g: string, key: string, value: string, i: nat)
    requires Plain(key) && Plain(value)
    ensures i <= |key| ==> (MatchesAt(g, key + "=" + value, i) <==> g == key[i..] && value != [])
    ensures |key| < i ==> !MatchesAt(g, key + "=" + value, i)
  {
    var s := key + "=" + value;
    assert forall j :: 0 <= j < |key| ==> s[j] == key[j];
    assert forall j :: |key| < j < |s| ==> s[j] == value[j - |key| - 1];
    if i <= |key| {
      assert s[i..|key|] == key[i..];
      if value != [] {
        assert s[|key| + 1] == value[0];
      }
    }
  }

  /** In `key=value`, an alternative is taken at a position `i` of the key
      exactly when the value is not empty and the rest of the key from `i`
      is an alternative; that rest is then the name taken. */
  lemma {:induction false} FirstAlternativeInPair(alts: seq<string>, key: string, value: string, i: nat)
    requires Plain(key) && Plain(value) && i <= |key|
    ensures FirstAlternative(alts, key + "=" + value, i) < |alts| <==> value != [] && key[i..] in alts
    ensures FirstAlternative(alts, key + "=" + value, i) < |alts|
            ==> alts[FirstAlternative(alts, key + "=" + value, i)] == key[i..]
  {
    var s := key + "=" + value;
    var k := FirstAlternative(alts, s, i);
    FirstAlternativeMatches(alts, s, i);
    if k < |alts| {
      MatchInPair(alts[k], key, value, i);
    }
    if value != [] && key[i..] in alts {
      var m :| 0 <= m < |alts| && alts[m] == key[i..];
      MatchInPair(alts[m], key, value, i);
      FirstAlternativeAtMost(alts, s, i, m);
    }
  }

  /** Nothing after the `=` of a pair starts a match. */
  lemma {:induction false} NoMatchInValue(alts: seq<string>, key: string, value: string, i: nat)
    requires Plain(key) && Plain(value) && |key| < i
    ensures FirstAlternative(alts, key + "=" + value, i) == |alts|
  {
    forall m | 0 <= m < |alts|
      ensures !MatchesAt(alts[m], key + "=" + value, i)
    {
      MatchInPair(alts[m], key, value, i);
    }
    NoAlternative(alts, key + "=" + value, i);
  }

  lemma {:induction false} ConsKey(key: string, i: nat, x: string)
    requires i < |key|
    ensures [key[i]] + (key[i + 1..] + "=" + x) == key[i..] + "=" + x
  {
    assert key[i..] == [key[i]] + key[i + 1..];
  }

  /** After the `=` of a pair whose `=` starts no match, the value is
      copied. */
  lemma {:induction false} ScanPairAtEquals(alts: seq<string>, redaction: string, key: string, value: string)
    requires Plain(key) && Plain(value)
    requires FirstAlternative(alts, key + "=" + value, |key|) == |alts|
    ensures ScanFrom(alts, redaction, key + "=" + value, |key|) == "=" + value
  {
    var s := key + "=" + value;
    assert s[|key|] == '=';
    ScanCopyStep(alts, redaction, s, |key|);
    forall m | |key| + 1 <= m < |s|
      ensures FirstAlternative(alts, s, m) == |alts|
    {
      NoMatchInValue(alts, key, value, m);
    }
    ScanCopiesUnmatched(alts, redaction, s, |key| + 1, |s|);
    assert s[|key| + 1..|s|] == value;
  }

  /** Where the name `key[i..]` is taken, the whole value is replaced. */
  lemma {:induction false} ScanPairMatch(alts: seq<string>, redaction: string, key: string, value: string, i: nat, k: nat)
    requires Plain(key) && Plain(value) && i <= |key|
    requires k == FirstAlternative(alts, key + "=" + value, i) && k < |alts| && alts[k] == key[i..]
    ensures ScanFrom(alts, redaction, key + "=" + value, i) == key[i..] + "=" + redaction
  {
    var s := key + "=" + value;
    forall m | |key| + 1 <= m < |s|
      ensures s[m] != ';'
    {
      assert s[m] == value[m - |key| - 1];
    }
    RunEndAt(s, |key| + 1, |s|);
    ScanMatchStep(alts, redaction, s, i, k, |key| + 1);
  }

  /** Scanning `key=value` from a position `i` of the key: the rest of the
      key and the `=` are kept, and the value becomes the redaction exactly
      when it is not empty and some suffix of `key[i..]` is an alternative. */
  lemma {:induction false} ScanPairFrom(alts: seq<string>, redaction: string, key: string, value: string, i: nat)
    requires Plain(key) && Plain(value) && i <= |key|
    ensures ScanFrom(alts, redaction, key + "=" + value, i)
         == key[i..] + "=" + (if value != [] && SuffixFrom(alts, key, i) then redaction else value)
    decreases |key| - i
  {
    var s := key + "=" + value;
    FirstAlternativeInPair(alts, key, value, i);
    var k := FirstAlternative(alts, s, i);
    if k < |alts| {
      ScanPairMatch(alts, redaction, key, value, i, k);
    } else if i == |key| {
      ScanPairAtEquals(alts, redaction, key, value);
    } else {
      assert s[i] == key[i];
      ScanCopyStep(alts, redaction, s, i);
      ScanPairFrom(alts, redaction, key, value, i + 1);
      ConsKey(key, i, if value != [] && SuffixFrom(alts, key, i + 1) then redaction else value);
    }
  }

  /** `SuffixFrom` holds exactly when some suffix of the key from `i` on is
      an alternative. */
  lemma {:induction false} SuffixFromExists(alts: seq<string>, key: string, i: nat)
    requires i <= |key|
    ensures SuffixFrom(alts, key, i) <==> exists m :: i <= m <= |key| && key[m..] in alts
    decreases |key| - i
  {
    if i < |key| {
      SuffixFromExists(alts, key, i + 1);
    }
  }

  /** A key that is itself an alternative ends with one. */
  lemma KeyIsAlternative(alts: seq<string>, key: string)
    requires key in alts
    ensures SuffixIsAlternative(alts, key)
  {
    assert key[0..] == key;
  }

  /** With the empty alternative (an empty field list), every key ends
      with an alternative. */
  lemma {:induction false} EmptyAlternativeEveryKey(alts: seq<string>, key: string)
    requires "" in alts
    ensures SuffixIsAlternative(alts, key)
  {
    SuffixFromExists(alts, key, 0);
    assert key[|key|..] == "";
  }

  /** A key shorter than every alternative ends with none of them. */
  lemma {:induction false} KeyShorterThanAlternatives(alts: seq<string>, key: string)
    requires forall k :: 0 <= k < |alts| ==> |key| < |alts[k]|
    ensures !SuffixIsAlternative(alts, key)
  {
    SuffixFromExists(alts, key, 0);
  }

  /** `filter_datum` on one `key=value` pair (neither part holding `=` or
      `;`): the value is redacted exactly when it is not empty and the key
      ends with one of the fields (the empty field list counting as the
      empty name); the key is always kept. */
  lemma {:induction false} FilterDatumPair(fields: seq<string>, redaction: string, key: string, value: string, separator: string)
    requires AllFieldNames(fields) && Plain(key) && Plain(value)
    ensures FilterDatum(fields, redaction, key + "=" + value, separator)
         == RedactedPair(Alternatives(fields), redaction, key, value)
    ensures SuffixIsAlternative(Alternatives(fields), key)
            <==> exists m :: 0 <= m <= |key| && key[m..] in Alternatives(fields)
  {
    ScanPairFrom(Alternatives(fields), redaction, key, value, 0);
    SuffixFromExists(Alternatives(fields), key, 0);
  }

  // ---------------------------------------------------------------------
  // Idempotence: redacting redacted text changes nothing

  lemma {:induction false} FirstFromIs(alts: seq<string>, s: string, i: nat, j: nat, k: nat)
    requires j <= k < |alts| && MatchesAt(alts[k], s, i)
    requires forall m :: j <= m < k ==> !MatchesAt(alts[m], s, i)
    ensures FirstFrom(alts, s, i, j) == k
    decreases k - j
  {
    if j < k {
      FirstFromIs(alts, s, i, j + 1, k);
    }
  }

  /** The first alternative that matches is the one taken. */
  lemma {:induction false} FirstAlternativeIs(alts: seq<string>, s: string, i: nat, k: nat)
    requires k < |alts| && MatchesAt(alts[k], s, i)
    requires forall m :: 0 <= m < k ==> !MatchesAt(alts[m], s, i)
    ensures FirstAlternative(alts, s, i) == k
  {
    FirstFromIs(alts, s, i, 0, k);
  }

  /** The scan starts its output with the character it starts from: a
      copied character, or the first character of the name (or the `=`)
      of a match. */
  lemma {:induction false} ScanKeepsFirstChar(alts: seq<string>, redaction: string, s: string, i: nat)
    requires i < |s|
    ensures ScanFrom(alts, redaction, s, i) != [] && ScanFrom(alts, redaction, s, i)[0] == s[i]
  {
    var k := FirstAlternative(alts, s, i);
    if k == |alts| {
      ScanCopyStep(alts, redaction, s, i);
    } else {
      FirstAlternativeMatches(alts, s, i);
      ScanMatchStep(alts, redaction, s, i, k, i + |alts[k]| + 1);
      if alts[k] != [] {
        assert s[i..i + |alts[k]|][0] == s[i];
      }
    }
  }

  /** A match of a non-empty name at `i` is its first character there
      followed by a match of the rest of the name at `i + 1`. */
  lemma {:induction false} MatchesAtCons(g: string, s: string, i: nat)
    requires g != [] && i < |s|
    ensures MatchesAt(g, s, i) <==> s[i] == g[0] && MatchesAt(g[1..], s, i + 1)
  {
    if i + |g| + 1 < |s| {
      assert s[i..i + |g|] == [s[i]] + s[i + 1..i + 1 + |g[1..]|];
      assert g == [g[0]] + g[1..];
    }
  }

  /** What the scan emits for a match starts with the name and `=`. */
  lemma {:induction false} EmittedKey(f: string, redaction: string, rest: string)
    ensures var out := f + "=" + redaction + rest;
            |f| < |out| && out[0..|f|] == f && out[|f|] == '='
  {
    var out := f + "=" + redaction + rest;
    assert out[0..|f|] == f;
  }

  /** No match starts inside an emitted `f=` with an empty redaction:
      the only `=` there is the one after `f`, and it is followed by `;`
      or by nothing. */
  lemma {:induction false} NoMatchInEmptyValue(alts: seq<string>, f: string, rest: string, m: nat)
    requires AllFieldNames(alts) && IsFieldName(f) && m <= |f|
    requires rest == [] || rest[0] == ';'
    ensures FirstAlternative(alts, f + "=" + rest, m) == |alts|
  {
    var out := f + "=" + rest;
    forall j | 0 <= j < |alts|
      ensures !MatchesAt(alts[j], out, m)
    {
      var g := alts[j];
      assert IsFieldName(g);
      if m + |g| < |f| {
        assert out[m + |g|] == f[m + |g|];
        assert IsNameChar(f[m + |g|]);
        assert !MatchesAt(g, out, m);
      } else if m + |g| > |f| {
        assert IsNameChar(g[|f| - m]);
        if m + |g| <= |out| {
          assert out[m..m + |g|][|f| - m] == '=';
        }
        assert !MatchesAt(g, out, m);
      } else if rest != [] {
        assert out[|f| + 1] == rest[0];
        assert !MatchesAt(g, out, m);
      } else {
        assert |out| == |f| + 1;
        assert !MatchesAt(g, out, m);
      }
    }
    NoAlternative(alts, out, m);
  }

  /** With an empty redaction a match is emitted as `f=`, which a second
      scan copies unchanged. */
  lemma {:induction false} EmptyMatchIdempotent(alts: seq<string>, f: string, rest: string)
    requires AllFieldNames(alts) && IsFieldName(f)
    requires rest == [] || rest[0] == ';'
    requires Scan(alts, [], rest) == rest
    ensures Scan(alts, [], f + "=" + rest) == f + "=" + rest
  {
    var out := f + "=" + rest;
    forall m | 0 <= m < |f| + 1
      ensures FirstAlternative(alts, out, m) == |alts|
    {
      NoMatchInEmptyValue(alts, f, rest, m);
    }
    ScanCopiesUnmatched(alts, [], out, 0, |f| + 1);
    ScanShift(alts, [], f + "=", rest, 0);
    assert out[0..|f| + 1] == f + "=";
  }

  /** What the scan emits for a match, followed by `;` or nothing, is
      itself a match of the same name. */
  lemma {:induction false} EmittedMatches(f: string, redaction: string, rest: string)
    requires redaction != [] && ';' !in redaction
    ensures MatchesAt(f, f + "=" + redaction + rest, 0)
  {
    var out := f + "=" + redaction + rest;
    assert out[0..|f|] == f;
    assert out[|f| + 1] == redaction[0];
  }

  /** Output that starts with a match's `f=` and redaction matches only
      the name `f`, which matched in the input. */
  lemma {:induction false} MatchInOutputAtMatch(alts: seq<string>, redaction: string, s: string, i: nat, g: string, k: nat)
    requires AllFieldNames(alts) && IsFieldName(g) && i < |s|
    requires k == FirstAlternative(alts, s, i) && k < |alts|
    ensures MatchesAt(g, ScanFrom(alts, redaction, s, i), 0) ==> MatchesAt(g, s, i)
  {
    FirstAlternativeMatches(alts, s, i);
    ScanMatchStep(alts, redaction, s, i, k, i + |alts[k]| + 1);
    assert IsFieldName(alts[k]);
    var out := ScanFrom(alts, redaction, s, i);
    EmittedKey(alts[k], redaction, ScanFrom(alts, redaction, s, RunEnd(s, i + |alts[k]| + 1)));
    if MatchesAt(g, out, 0) {
      SameKey(g, alts[k], out, 0);
    }
  }

  /** A copied `=` followed in the output by a character other than `;`
      was followed by that character in the input. */
  lemma {:induction false} MatchInOutputAtEquals(alts: seq<string>, redaction: string, s: string, i: nat)
    requires i < |s| && FirstAlternative(alts, s, i) == |alts|
    ensures MatchesAt([], ScanFrom(alts, redaction, s, i), 0) ==> MatchesAt([], s, i)
  {
    ScanCopyStep(alts, redaction, s, i);
    if i + 1 < |s| {
      ScanKeepsFirstChar(alts, redaction, s, i + 1);
    }
  }

  lemma {:induction false} MatchInCopied(g: string, rest: string, s: string, i: nat)
    requires g != [] && i < |s|
    requires MatchesAt(g[1..], rest, 0) ==> MatchesAt(g[1..], s, i + 1)
    ensures MatchesAt(g, [s[i]] + rest, 0) ==> MatchesAt(g, s, i)
  {
    MatchesAtCons(g, [s[i]] + rest, 0);
    MatchesAtShift(g[1..], [s[i]], rest, 0);
    MatchesAtCons(g, s, i);
  }

  /** A match at the start of the scan's output was already a match at the
      position scanned: the scan creates no new name before an `=`. */
  lemma {:induction false} MatchInOutput(alts: seq<string>, redaction: string, s: string, i: nat, g: string)
    requires AllFieldNames(alts) && IsFieldName(g) && i <= |s|
    ensures MatchesAt(g, ScanFrom(alts, redaction, s, i), 0) ==> MatchesAt(g, s, i)
    decreases |g|
  {
    if i < |s| {
      var k := FirstAlternative(alts, s, i);
      if k < |alts| {
        MatchInOutputAtMatch(alts, redaction, s, i, g, k);
      } else if g == [] {
        MatchInOutputAtEquals(alts, redaction, s, i);
      } else {
        ScanCopyStep(alts, redaction, s, i);
        MatchInOutput(alts, redaction, s, i + 1, g[1..]);
        MatchInCopied(g, ScanFrom(alts, redaction, s, i + 1), s, i);
      }
    }
  }

  lemma {:induction false} CopyIdempotent(alts: seq<string>, redaction: string, c: char, rest: string)
    requires FirstAlternative(alts, [c] + rest, 0) == |alts|
    requires Scan(alts, redaction, rest) == rest
    ensures Scan(alts, redaction, [c] + rest) == [c] + rest
  {
    ScanCopyStep(alts, redaction, [c] + rest, 0);
    ScanShift(alts, redaction, [c], rest, 0);
  }

  lemma {:induction false} MatchIdempotent(alts: seq<string>, redaction: string, k: nat, rest: string)
    requires redaction != [] && ';' !in redaction
    requires k < |alts| && k == FirstAlternative(alts, alts[k] + "=" + redaction + rest, 0)
    requires rest == [] || rest[0] == ';'
    requires Scan(alts, redaction, rest) == rest
    ensures Scan(alts, redaction, alts[k] + "=" + redaction + rest) == alts[k] + "=" + redaction + rest
  {
    var u := alts[k] + "=" + redaction;
    var out := u + rest;
    var n := |alts[k]| + 1;
    forall m | n <= m < |u|
      ensures out[m] != ';'
    {
      assert out[m] == redaction[m - n];
    }
    RunEndAt(out, n, |u|);
    ScanMatchStep(alts, redaction, out, 0, k, n);
    ScanShift(alts, redaction, u, rest, 0);
  }

  /** The output of the scan from any position scans to itself, provided
      the redaction holds no `;`. */
  lemma {:induction false} ScanFromIdempotent(alts: seq<string>, redaction: string, s: string, i: nat)
    requires AllFieldNames(alts) && ';' !in redaction && i <= |s|
    ensures Scan(alts, redaction, ScanFrom(alts, redaction, s, i)) == ScanFrom(alts, redaction, s, i)
    decreases |s| - i
  {
    if i < |s| {
      var out := ScanFrom(alts, redaction, s, i);
      var k := FirstAlternative(alts, s, i);
      if k == |alts| {
        ScanCopyStep(alts, redaction, s, i);
        ScanFromIdempotent(alts, redaction, s, i + 1);
        forall m | 0 <= m < |alts|
          ensures !MatchesAt(alts[m], out, 0)
        {
          assert IsFieldName(alts[m]);
          MatchInOutput(alts, redaction, s, i, alts[m]);
          FirstAlternativeIsFirst(alts, s, i, m);
        }
        NoAlternative(alts, out, 0);
        CopyIdempotent(alts, redaction, s[i], ScanFrom(alts, redaction, s, i + 1));
      } else {
        var n := i + |alts[k]| + 1;
        FirstAlternativeMatches(alts, s, i);
        ScanMatchStep(alts, redaction, s, i, k, n);
        var e := RunEnd(s, n);
        var rest := ScanFrom(alts, redaction, s, e);
        ScanFromIdempotent(alts, redaction, s, e);
        if e < |s| {
          ScanKeepsFirstChar(alts, redaction, s, e);
        }
        assert IsFieldName(alts[k]);
        if redaction == [] {
          assert out == alts[k] + "=" + rest;
          EmptyMatchIdempotent(alts, alts[k], rest);
        } else {
          forall m | 0 <= m < k
            ensures !MatchesAt(alts[m], out, 0)
          {
            assert IsFieldName(alts[m]);
            MatchInOutput(alts, redaction, s, i, alts[m]);
            FirstAlternativeIsFirst(alts, s, i, m);
          }
          EmittedMatches(alts[k], redaction, rest);
          FirstAlternativeIs(alts, out, 0, k);
          MatchIdempotent(alts, redaction, k, rest);
        }
      }
    }
  }

  /** Redacting an already redacted message changes nothing, for a
      redaction text that holds no `;`. */
  lemma {:induction false} FilterDatumIdempotent(fields: seq<string>, redaction: string, message: string, separator: string)
    requires AllFieldNames(fields) && ';' !in redaction
    ensures var once := FilterDatum(fields, redaction, message, separator);
            FilterDatum(fields, redaction, once, separator) == once
  {
    ScanFromIdempotent(Alternatives(fields), redaction, message, 0);
  }

  // ---------------------------------------------------------------------
  // Whole messages of `;`-terminated pairs

  /** A message whose parts each end with `;` is redacted part by part. */
  lemma {:induction false} ScanTerminated(alts: seq<string>, redaction: string, parts: seq<string>)
    requires AllFieldNames(alts)
    ensures Scan(alts, redaction, Terminated(parts)) == Terminated(ScanEach(alts, redaction, parts))
    decreases |parts|
  {
    if parts != [] {
      ScanStopsAtSemicolon(alts, redaction, parts[0], Terminated(parts[1..]), 0);
      ScanTerminated(alts, redaction, parts[1..]);
      assert ScanEach(alts, redaction, parts) == [Scan(alts, redaction, parts[0])] + ScanEach(alts, redaction, parts[1..]);
    }
  }

  /** Scanning each `key=value` text on its own gives the redacted pairs. */
  lemma {:induction false} ScanEachPair(alts: seq<string>, redaction: string, pairs: seq<Pair>)
    requires PlainPairs(pairs)
    ensures ScanEach(alts, redaction, PairTexts(pairs)) == RedactedPairs(alts, redaction, pairs)
  {
    forall j | 0 <= j < |pairs|
      ensures Scan(alts, redaction, PairTexts(pairs)[j]) == RedactedPairs(alts, redaction, pairs)[j]
    {
      ScanPairFrom(alts, redaction, pairs[j].key, pairs[j].value, 0);
    }
  }

  /** `filter_datum` on `k1=v1;...;kn=vn;` (no key or value holding `=`
      or `;`) redacts each pair as `RedactedPair` says and keeps every
      key, `=` and `;` in place. */
  lemma {:induction false} FilterDatumTerminatedPairs(fields: seq<string>, redaction: string, pairs: seq<Pair>, separator: string)
    requires AllFieldNames(fields) && PlainPairs(pairs)
    ensures FilterDatum(fields, redaction, Terminated(PairTexts(pairs)), separator)
         == Terminated(RedactedPairs(Alternatives(fields), redaction, pairs))
  {
    ScanTerminated(Alternatives(fields), redaction, PairTexts(pairs));
    ScanEachPair(Alternatives(fields), redaction, pairs);
  }

  /** With an empty field list the pattern's group is empty and matches
      before every `=`: every non-empty value is redacted, whatever its key. */
  lemma {:induction false} FilterDatumNoFields(redaction: string, pairs: seq<Pair>, separator: string)
    requires PlainPairs(pairs)
    ensures FilterDatum([], redaction, Terminated(PairTexts(pairs)), separator)
         == Terminated(seq(|pairs|, j requires 0 <= j < |pairs| =>
                             pairs[j].key + "=" + (if pairs[j].value != [] then redaction else pairs[j].value)))
  {
    FilterDatumTerminatedPairs([], redaction, pairs, separator);
    assert Alternatives([]) == [""];
    forall j | 0 <= j < |pairs|
      ensures SuffixIsAlternative([""], pairs[j].key)
    {
      EmptyAlternativeEveryKey([""], pairs[j].key);
    }
    assert RedactedPairs([""], redaction, pairs)
        == seq(|pairs|, j requires 0 <= j < |pairs| =>
                 pairs[j].key + "=" + (if pairs[j].value != [] then redaction else pairs[j].value));
  }
}
