/**
 * The JavaScript string operations the report analyzer relies on, as total
 * functions on `string` (a `seq<char>`): `trim`, `indexOf`/`includes`,
 * `split`/`join`, `replace` of a first occurrence, `toLowerCase`,
 * `startsWith`/`endsWith`, the regular-expression classes `\s` and `\w`,
 * and decimal rendering of page numbers.
 */
module Text {
  import opened Wrappers

  /** Whitespace as `trim()` and the regular-expression class `\s` see it (ASCII part). */
  predicate IsSpace(c: char) {
    c == ' ' || c == '\t' || c == '\n' || c == '\r' || c == '\U{000B}' || c == '\U{000C}'
  }

  /** The regular-expression class `\w` (no `u` flag): ASCII letters, digits and `_`. */
  predicate IsWordChar(c: char) {
    ('a' <= c <= 'z') || ('A' <= c <= 'Z') || ('0' <= c <= '9') || c == '_'
  }

  predicate IsUpper(c: char) { 'A' <= c <= 'Z' }

  predicate IsLower(c: char) { 'a' <= c <= 'z' }

  predicate AllSpace(s: string) {
    forall i :: 0 <= i < |s| ==> IsSpace(s[i])
  }

  /** No whitespace at either end, as `trim()` leaves a string. */
  predicate IsTrimmed(s: string) {
    s == [] || (!IsSpace(s[0]) && !IsSpace(s[|s| - 1]))
  }

  /** `p` occurs in `s` starting at index `k`. */
  predicate OccursAt(s: string, p: string, k: int) {
    0 <= k && k + |p| <= |s| && s[k..k + |p|] == p
  }

  predicate StartsWith(s: string, p: string) {
    |p| <= |s| && s[..|p|] == p
  }

  predicate EndsWith(s: string, p: string) {
    |p| <= |s| && s[|s| - |p|..] == p
  }

  // ---------------------------------------------------------------------------
  // trim

  /** The number of whitespace characters at the start of `s`. */
  function LeadingSpaces(s: string): (n: nat)
    ensures n <= |s|
    ensures forall i :: 0 <= i < n ==> IsSpace(s[i])
    ensures n < |s| ==> !IsSpace(s[n])
    decreases |s|
  {
    if s != [] && IsSpace(s[0]) then
      var m := LeadingSpaces(s[1..]);
      assert forall i :: 1 <= i < 1 + m ==> s[i] == s[1..][i - 1];
      1 + m
    else 0
  }

  /** The number of whitespace characters at the end of `s`. */
  function TrailingSpaces(s: string): (n: nat)
    ensures n <= |s|
    ensures forall i :: |s| - n <= i < |s| ==> IsSpace(s[i])
    ensures n < |s| ==> !IsSpace(s[|s| - 1 - n])
    decreases |s|
  {
    if s != [] && IsSpace(s[|s| - 1]) then
      var m := TrailingSpaces(s[..|s| - 1]);
      assert forall i :: |s| - 1 - m <= i < |s| - 1 ==> s[i] == s[..|s| - 1][i];
      1 + m
    else 0
  }

  /**
   * `String.prototype.trim`: the slice of `s` between its leading and its
   * trailing whitespace; empty exactly when `s` is all whitespace.
   */
  function Trim(s: string): (r: string)
    ensures |r| <= |s|
    ensures r == [] <==> AllSpace(s)
    ensures IsTrimmed(r)
    ensures r != [] ==> LeadingSpaces(s) + TrailingSpaces(s) < |s| &&
                        r == s[LeadingSpaces(s)..|s| - TrailingSpaces(s)]
  {
    var a, b := LeadingSpaces(s), TrailingSpaces(s);
    if a == |s| then
      ""
    else
      s[a..|s| - b]
  }

  /** Trimming text that has no whitespace at either end changes nothing. */
  lemma TrimNoop(s: string)
    requires IsTrimmed(s)
    ensures Trim(s) == s
  {
  }

  lemma TrimIdempotent(s: string)
    ensures Trim(Trim(s)) == Trim(s)
  {
    TrimNoop(Trim(s));
  }

  // ---------------------------------------------------------------------------
  // indexOf, includes

  lemma OccursInSlice(s: string, a: nat, b: nat, p: string, j: int)
    requires a <= b <= |s|
    requires OccursAt(s[a..b], p, j)
    ensures OccursAt(s, p, a + j)
  {
    assert forall i :: 0 <= i < |p| ==> p[i] == s[a..b][j + i] == s[a + j + i];
    assert p == s[a + j..a + j + |p|];
  }

  /** `s.indexOf(p, from)`: the first index at or after `from` where `p` occurs. */
  function IndexOf(s: string, p: string, from: nat): (r: Option<nat>)
    ensures r.Some? ==> from <= r.value && OccursAt(s, p, r.value)
    ensures r.Some? ==> forall k :: from <= k < r.value ==> !OccursAt(s, p, k)
    ensures r.None? ==> forall k :: from <= k ==> !OccursAt(s, p, k)
    decreases |s| - from
  {
    if from + |p| > |s| then None
    else if s[from..from + |p|] == p then Some(from)
    else IndexOf(s, p, from + 1)
  }

  /** An occurrence with none before it is the one `indexOf` finds. */
  lemma FirstOccurrence(s: string, p: string, k: nat)
    requires OccursAt(s, p, k)
    requires forall j :: 0 <= j < k ==> !OccursAt(s, p, j)
    ensures IndexOf(s, p, 0) == Some(k)
  {
  }

  /** `s.includes(p)`. */
  predicate Contains(s: string, p: string) {
    IndexOf(s, p, 0).Some?
  }

  lemma ContainsIff(s: string, p: string)
    ensures Contains(s, p) <==> exists k :: OccursAt(s, p, k)
  {
    if Contains(s, p) {
      assert OccursAt(s, p, IndexOf(s, p, 0).value);
    }
  }

  /** A slice of a text in which `p` never occurs does not contain `p` either. */
  lemma NoOccurrenceInSlice(s: string, a: nat, b: nat, p: string)
    requires a <= b <= |s|
    requires !Contains(s, p)
    ensures !Contains(s[a..b], p)
  {
    if Contains(s[a..b], p) {
      OccursInSlice(s, a, b, p, IndexOf(s[a..b], p, 0).value);
    }
  }

  /** Trimming never introduces an occurrence of `p`. */
  lemma TrimKeepsAbsence(s: string, p: string)
    requires !Contains(s, p)
    ensures !Contains(Trim(s), p)
  {
    if Trim(s) != [] {
      NoOccurrenceInSlice(s, LeadingSpaces(s), |s| - TrailingSpaces(s), p);
    }
  }

  /**
   * For a non-empty pattern without whitespace at its ends, trimming the text
   * first does not change whether the pattern occurs.
   */
  lemma TrimKeepsContains(s: string, q: string)
    requires q != [] && IsTrimmed(q)
    ensures Contains(Trim(s), q) <==> Contains(s, q)
  {
    if Contains(Trim(s), q) {
      ContainedBeforeTrim(s, q);
    }
    if Contains(s, q) {
      ContainedAfterTrim(s, q);
    }
  }

  lemma ContainedBeforeTrim(s: string, q: string)
    requires q != [] && Contains(Trim(s), q)
    ensures Contains(s, q)
  {
    var j := IndexOf(Trim(s), q, 0).value;
    assert Trim(s) != [];
    OccursInSlice(s, LeadingSpaces(s), |s| - TrailingSpaces(s), q, j);
    ContainsIff(s, q);
  }

  lemma ContainedAfterTrim(s: string, q: string)
    requires q != [] && IsTrimmed(q) && Contains(s, q)
    ensures Contains(Trim(s), q)
  {
    var k := IndexOf(s, q, 0).value;
    var a, b := LeadingSpaces(s), |s| - TrailingSpaces(s);
    assert s[k] == q[0] && s[k + |q| - 1] == q[|q| - 1] by {
      assert s[k..k + |q|] == q;
    }
    assert a <= k && k + |q| <= b;
    var t := Trim(s);
    assert t == s[a..b];
    OccursInEnclosingSlice(s, a, b, q, k);
    ContainsIff(t, q);
  }

  /** An occurrence that lies within `s[a..b]` is an occurrence in that slice. */
  lemma OccursInEnclosingSlice(s: string, a: nat, b: nat, p: string, k: nat)
    requires a <= k && k + |p| <= b <= |s| && OccursAt(s, p, k)
    ensures OccursAt(s[a..b], p, k - a)
  {
    var t := s[a..b];
    var u := t[k - a..k - a + |p|];
    assert forall i :: 0 <= i < |p| ==> u[i] == s[k..k + |p|][i];
    assert u == s[k..k + |p|];
  }

  // ---------------------------------------------------------------------------
  // split, join

  /** `parts.join(sep)`. */
  function Join(parts: seq<string>, sep: string): string
  {
    if parts == [] then ""
    else if |parts| == 1 then parts[0]
    else parts[0] + sep + Join(parts[1..], sep)
  }

  /** A sequence is its slices before, between and after two cut points. */
  lemma SliceAround<T>(s: seq<T>, i: nat, j: nat)
    requires i <= j <= |s|
    ensures s == s[..i] + s[i..j] + s[j..]
  {
  }

  /**
   * `s.split(sep)` for a non-empty separator: the pieces between successive
   * non-overlapping occurrences, scanning from the left. Joining them back
   * with the separator gives the input, and no piece contains the separator.
   */
  function Split(s: string, sep: string): (r: seq<string>)
    requires sep != []
    ensures r != []
    ensures Join(r, sep) == s
    ensures forall i :: 0 <= i < |r| ==> !Contains(r[i], sep)
    ensures |r| == 1 <==> !Contains(s, sep)
    ensures |r| > 1 ==> IndexOf(s, sep, 0) == Some(|r[0]|) && r[1..] == Split(s[|r[0]| + |sep|..], sep)
    decreases |s|
  {
    match IndexOf(s, sep, 0)
    case None => [s]
    case Some(k) =>
      var rest := Split(s[k + |sep|..], sep);
      assert !Contains(s[..k], sep) by {
        if Contains(s[..k], sep) {
          OccursInSlice(s, 0, k, sep, IndexOf(s[..k], sep, 0).value);
        }
      }
      SliceAround(s, k, k + |sep|);
      [s[..k]] + rest
  }

  /** Every part of a joined text is a slice of it, so a pattern absent from the whole is absent from each part. */
  lemma {:induction false} JoinPartsAbsence(parts: seq<string>, sep: string, p: string)
    requires !Contains(Join(parts, sep), p)
    ensures forall i :: 0 <= i < |parts| ==> !Contains(parts[i], p)
  {
    if |parts| > 1 {
      var whole, rest := Join(parts, sep), Join(parts[1..], sep);
      assert whole == parts[0] + sep + rest;
      assert parts[0] == whole[0..|parts[0]|];
      assert rest == whole[|parts[0]| + |sep|..|whole|];
      NoOccurrenceInSlice(whole, 0, |parts[0]|, p);
      NoOccurrenceInSlice(whole, |parts[0]| + |sep|, |whole|, p);
      JoinPartsAbsence(parts[1..], sep, p);
      assert forall i :: 1 <= i < |parts| ==> parts[i] == parts[1..][i - 1];
    }
  }

  /** A joined text is all whitespace exactly when the separator (if used) and every part are. */
  lemma {:induction false} JoinAllSpace(parts: seq<string>, sep: string)
    requires |parts| > 1 ==> AllSpace(sep)
    ensures AllSpace(Join(parts, sep)) <==> forall i :: 0 <= i < |parts| ==> AllSpace(parts[i])
  {
    if |parts| > 1 {
      var whole, rest := Join(parts, sep), Join(parts[1..], sep);
      assert whole == parts[0] + sep + rest;
      JoinAllSpace(parts[1..], sep);
      assert forall i :: 1 <= i < |parts| ==> parts[i] == parts[1..][i - 1];
      if AllSpace(whole) {
        assert forall i :: 0 <= i < |parts[0]| ==> parts[0][i] == whole[i];
        assert forall i :: 0 <= i < |rest| ==> rest[i] == whole[|parts[0]| + |sep| + i];
      }
    }
  }

  /** A text without the separator splits into itself alone. */
  lemma SplitNoSeparator(s: string, sep: string)
    requires sep != [] && !Contains(s, sep)
    ensures Split(s, sep) == [s]
  {
  }

  // ---------------------------------------------------------------------------
  // replace (string pattern, first occurrence only)

  /**
   * The replacement text `replace` inserts for a match: `$$` becomes `$`,
   * `$&` the matched text, `` $` `` the text before the match and `$'` the
   * text after it; with a string pattern there are no capture groups, so any
   * other `$` stands for itself.
   */
  function Substitution(rep: string, matched: string, before: string, after: string): (r: string)
    ensures '$' !in rep ==> r == rep
    decreases |rep|
  {
    if rep == [] then []
    else if rep[0] == '$' && |rep| >= 2 && rep[1] in "$&`'" then
      var expansion := if rep[1] == '$' then "$" else if rep[1] == '&' then matched
                       else if rep[1] == '`' then before else after;
      expansion + Substitution(rep[2..], matched, before, after)
    else [rep[0]] + Substitution(rep[1..], matched, before, after)
  }

  /**
   * `s.replace(pat, rep)` with a string pattern: only the first occurrence
   * is replaced, by the expansion of `rep`; without an occurrence the text is
   * unchanged.
   */
  function ReplaceFirst(s: string, pat: string, rep: string): (r: string)
    ensures !Contains(s, pat) ==> r == s
    ensures Contains(s, pat) ==>
      exists k :: OccursAt(s, pat, k) && (forall j :: 0 <= j < k ==> !OccursAt(s, pat, j)) &&
        r == s[..k] + Substitution(rep, pat, s[..k], s[k + |pat|..]) + s[k + |pat|..]
  {
    match IndexOf(s, pat, 0)
    case None => s
    case Some(k) => s[..k] + Substitution(rep, pat, s[..k], s[k + |pat|..]) + s[k + |pat|..]
  }

  /** Taking the head off a concatenation. */
  lemma ConsConcat<T>(a: seq<T>, u: seq<T>, v: seq<T>)
    requires a != []
    ensures a + u + v == [a[0]] + (a[1..] + u + v)
  {
    assert a == [a[0]] + a[1..];
  }

  /** With an occurrence, the first one is replaced by the expansion of `rep`. */
  lemma ReplaceFirstOccurrence(s: string, pat: string, rep: string)
    requires Contains(s, pat)
    ensures exists k ::
      && OccursAt(s, pat, k)
      && (forall j :: 0 <= j < k ==> !OccursAt(s, pat, j))
      && ReplaceFirst(s, pat, rep) == s[..k] + Substitution(rep, pat, s[..k], s[k + |pat|..]) + s[k + |pat|..]
  {
  }

  /** A replacement without `$` is inserted literally in place of the first occurrence. */
  lemma ReplaceFirstLiteral(s: string, pat: string, rep: string)
    requires Contains(s, pat) && '$' !in rep
    ensures exists k ::
      && OccursAt(s, pat, k)
      && (forall j :: 0 <= j < k ==> !OccursAt(s, pat, j))
      && ReplaceFirst(s, pat, rep) == s[..k] + rep + s[k + |pat|..]
  {
    var k := IndexOf(s, pat, 0).value;
    assert Substitution(rep, pat, s[..k], s[k + |pat|..]) == rep;
    assert ReplaceFirst(s, pat, rep) == s[..k] + rep + s[k + |pat|..];
  }

  /** Trimming keeps every character that is not whitespace. */
  lemma TrimKeepsNonSpace(s: string, x: char)
    requires x in s && !IsSpace(x)
    ensures x in Trim(s)
  {
    var i :| 0 <= i < |s| && s[i] == x;
    var a, b := LeadingSpaces(s), TrailingSpaces(s);
    assert !AllSpace(s);
    assert a <= i < |s| - b;
    assert Trim(s)[i - a] == x;
  }

  /** Trimming keeps a character out. */
  lemma TrimKeepsCharAbsent(s: string, c: char)
    requires c !in s
    ensures c !in Trim(s)
  {
    var t := Trim(s);
    forall i | 0 <= i < |t| ensures t[i] != c {
      assert t[i] == s[LeadingSpaces(s) + i];
    }
  }

  /** A character other than `$` is copied. */
  lemma SubstitutionPlainHead(c: char, rest: string, matched: string, before: string, after: string)
    requires c != '$'
    ensures Substitution([c] + rest, matched, before, after) == [c] + Substitution(rest, matched, before, after)
  {
    assert ([c] + rest)[1..] == rest;
  }

  /** A leading `$&` expands to the matched text. */
  lemma SubstitutionMatchHead(rest: string, matched: string, before: string, after: string)
    ensures Substitution("$&" + rest, matched, before, after) == matched + Substitution(rest, matched, before, after)
  {
    var rep := "$&" + rest;
    assert rep[0] == '$' && rep[1] == '&' && rep[2..] == rest;
  }

  /** `$&` in the replacement re-inserts the matched text. */
  lemma {:induction false} SubstitutionEchoesMatch(a: string, b: string, matched: string, before: string, after: string)
    requires '$' !in a && '$' !in b
    ensures Substitution(a + "$&" + b, matched, before, after) == a + matched + b
    decreases |a|
  {
    if a == [] {
      SubstitutionEchoBase(a, b, matched, before, after);
    } else {
      assert '$' !in a[1..] && a[0] != '$';
      SubstitutionEchoesMatch(a[1..], b, matched, before, after);
      SubstitutionEchoStep(a, b, matched, before, after);
    }
  }

  /** The base of `SubstitutionEchoesMatch`: `$&` with plain text after it. */
  lemma SubstitutionEchoBase(a: string, b: string, matched: string, before: string, after: string)
    requires a == [] && '$' !in b
    ensures Substitution(a + "$&" + b, matched, before, after) == a + matched + b
  {
    assert a + "$&" + b == "$&" + b;
    SubstitutionMatchHead(b, matched, before, after);
    assert a + matched + b == matched + b;
  }

  /** One step of `SubstitutionEchoesMatch`: a leading plain character is copied before the rest. */
  lemma SubstitutionEchoStep(a: string, b: string, matched: string, before: string, after: string)
    requires a != [] && a[0] != '$'
    requires Substitution(a[1..] + "$&" + b, matched, before, after) == a[1..] + matched + b
    ensures Substitution(a + "$&" + b, matched, before, after) == a + matched + b
  {
    ConsConcat(a, "$&", b);
    SubstitutionPlainHead(a[0], a[1..] + "$&" + b, matched, before, after);
    ConsConcat(a, matched, b);
  }

  // ---------------------------------------------------------------------------
  // case mapping

  /** `toLowerCase` on one character (ASCII letters only). */
  function LowerChar(c: char): char {
    if IsUpper(c) then (c as int + 32) as char else c
  }

  /** `toUpperCase` on one character (ASCII letters only). */
  function UpperChar(c: char): char {
    if IsLower(c) then (c as int - 32) as char else c
  }

  function ToLower(s: string): (r: string)
    ensures |r| == |s|
    ensures forall i :: 0 <= i < |s| ==> r[i] == LowerChar(s[i])
  {
    if s == [] then [] else [LowerChar(s[0])] + ToLower(s[1..])
  }

  // ---------------------------------------------------------------------------
  // decimal numbers, as template literals print them

  function DigitChar(d: nat): char
    requires d < 10
  {
    ('0' as int + d) as char
  }

  predicate IsDigit(c: char) { '0' <= c <= '9' }

  function NatToString(n: nat): (r: string)
    ensures r != [] && forall i :: 0 <= i < |r| ==> IsDigit(r[i])
    ensures |r| > 1 ==> r[0] != '0'
    decreases n
  {
    if n < 10 then [DigitChar(n)] else NatToString(n / 10) + [DigitChar(n % 10)]
  }

  /** The number a string of decimal digits denotes. */
  function DecimalValue(s: string): nat
    requires forall i :: 0 <= i < |s| ==> IsDigit(s[i])
  {
    if s == [] then 0
    else
      assert IsDigit(s[|s| - 1]);
      DecimalValue(s[..|s| - 1]) * 10 + (s[|s| - 1] as int - '0' as int) as nat
  }

  /** Printing a number in decimal loses nothing: reading the digits back gives the number. */
  lemma {:induction false} DecimalRoundTrip(n: nat)
    ensures DecimalValue(NatToString(n)) == n
    decreases n
  {
    var r := NatToString(n);
    if n >= 10 {
      DecimalRoundTrip(n / 10);
      assert r[..|r| - 1] == NatToString(n / 10);
    }
  }
}
