/** The JavaScript string operations the card script relies on, with the
    semantics ECMA-262 gives them: `trim`, a `/^@/` replacement,
    `replace` with a string pattern, `toLowerCase`, `String(n)` and
    `padStart`. */
module JsString {
  import opened Wrappers

  /** The WhiteSpace and LineTerminator code points of ECMA-262, which
      `String.prototype.trim` removes from both ends. */
  predicate IsWhitespace(c: char) {
    c == '\t' || c == '\n' || c == '\U{000B}' || c == '\U{000C}' || c == '\r' || c == ' '
    || c == '\U{00A0}' || c == '\U{1680}' || ('\U{2000}' <= c <= '\U{200A}')
    || c == '\U{2028}' || c == '\U{2029}' || c == '\U{202F}' || c == '\U{205F}'
    || c == '\U{3000}' || c == '\U{FEFF}'
  }

  predicate AllWhitespace(w: string) {
    forall i :: 0 <= i < |w| ==> IsWhitespace(w[i])
  }

  /** Neither end of `m` is whitespace (vacuous for the empty string). */
  predicate Unpadded(m: string) {
    m == [] || (!IsWhitespace(m[0]) && !IsWhitespace(m[|m| - 1]))
  }

  lemma AllWhitespaceCons(c: char, w: string)
    requires IsWhitespace(c) && AllWhitespace(w)
    ensures AllWhitespace([c] + w)
  {
    var cw := [c] + w;
    forall i | 0 <= i < |cw| ensures IsWhitespace(cw[i]) {
      if i > 0 {
        assert cw[i] == w[i - 1];
      }
    }
  }

  lemma AllWhitespaceSnoc(w: string, c: char)
    requires AllWhitespace(w) && IsWhitespace(c)
    ensures AllWhitespace(w + [c])
  {
    var wc := w + [c];
    forall i | 0 <= i < |wc| ensures IsWhitespace(wc[i]) {
      if i < |w| {
        assert wc[i] == w[i];
      }
    }
  }

  function TrimStart(s: string): (r: string)
    ensures |r| <= |s| && r == s[|s| - |r|..]
    ensures AllWhitespace(s[..|s| - |r|])
    ensures r == [] || !IsWhitespace(r[0])
  {
    if |s| > 0 && IsWhitespace(s[0]) then
      var r := TrimStart(s[1..]);
      var w := s[1..][..|s| - 1 - |r|];
      AllWhitespaceCons(s[0], w);
      assert s[..|s| - |r|] == [s[0]] + w;
      r
    else s
  }

  function TrimEnd(s: string): (r: string)
    ensures |r| <= |s| && r == s[..|r|]
    ensures AllWhitespace(s[|r|..])
    ensures r == [] || !IsWhitespace(r[|r| - 1])
  {
    if |s| > 0 && IsWhitespace(s[|s| - 1]) then
      var r := TrimEnd(s[..|s| - 1]);
      var w := s[..|s| - 1][|r|..];
      AllWhitespaceSnoc(w, s[|s| - 1]);
      assert s[|r|..] == w + [s[|s| - 1]];
      r
    else s
  }

  /** `String.prototype.trim`. */
  function Trim(s: string): string {
    TrimEnd(TrimStart(s))
  }

  lemma {:induction false} TrimStartPadded(w: string, t: string)
    requires AllWhitespace(w)
    requires t == [] || !IsWhitespace(t[0])
    ensures TrimStart(w + t) == t
  {
    if w != [] {
      assert (w + t)[1..] == w[1..] + t;
      TrimStartPadded(w[1..], t);
    }
  }

  lemma {:induction false} TrimEndPadded(t: string, w: string)
    requires AllWhitespace(w)
    requires t == [] || !IsWhitespace(t[|t| - 1])
    ensures TrimEnd(t + w) == t
  {
    if w != [] {
      assert (t + w)[..|t + w| - 1] == t + w[..|w| - 1];
      TrimEndPadded(t, w[..|w| - 1]);
    }
  }

  /** Trimming a string that is whitespace, an unpadded middle and whitespace
      gives the middle back. */
  lemma TrimOfPadded(w1: string, m: string, w2: string)
    requires AllWhitespace(w1) && AllWhitespace(w2) && Unpadded(m)
    ensures Trim(w1 + m + w2) == m
  {
    if m == [] {
      assert w1 + m + w2 == (w1 + w2) + [];
      TrimStartPadded(w1 + w2, []);
    } else {
      assert w1 + m + w2 == w1 + (m + w2);
      TrimStartPadded(w1, m + w2);
      TrimEndPadded(m, w2);
    }
  }

  /** Conversely, every string is whitespace, its trimmed form and whitespace,
      and the trimmed form is unpadded. With TrimOfPadded this pins Trim down. */
  lemma TrimDecomposes(s: string) returns (w1: string, w2: string)
    ensures AllWhitespace(w1) && AllWhitespace(w2) && Unpadded(Trim(s))
    ensures s == w1 + Trim(s) + w2
  {
    var ts := TrimStart(s);
    w1 := s[..|s| - |ts|];
    assert s == w1 + ts;
    w2 := TrimEndSplit(ts);
    TrimUnpadded(s);
    ConcatAssoc(w1, Trim(s), w2);
  }

  /** Concatenation is associative; stated once for the proofs that regroup
      literal pieces. */
  lemma ConcatAssoc(a: string, b: string, c: string)
    ensures a + (b + c) == a + b + c
  {
  }

  lemma TrimUnpadded(s: string)
    ensures Unpadded(Trim(s))
  {
    var ts := TrimStart(s);
    var m := TrimEnd(ts);
    if m != [] {
      assert m[0] == ts[0];
    }
  }

  lemma TrimEndSplit(ts: string) returns (w2: string)
    ensures AllWhitespace(w2) && ts == TrimEnd(ts) + w2
  {
    w2 := ts[|TrimEnd(ts)|..];
    assert ts == ts[..|TrimEnd(ts)|] + w2;
  }

  lemma TrimIdempotent(s: string)
    ensures Trim(Trim(s)) == Trim(s)
  {
    var _, _ := TrimDecomposes(s);
    assert Trim(s) == [] + Trim(s) + [];
    TrimOfPadded([], Trim(s), []);
  }

  /** `s.replace(/^@/, "")`: removes one leading `@`, if there is one. */
  function StripAt(s: string): (r: string)
    ensures if |s| > 0 && s[0] == '@' then s == "@" + r else r == s
  {
    if |s| > 0 && s[0] == '@' then s[1..] else s
  }

  /** A string is its `@`-stripped form with at most one `@` in front. */
  lemma StripAtSplit(s: string) returns (at: string)
    ensures (at == "" || at == "@") && s == at + StripAt(s)
  {
    at := if |s| > 0 && s[0] == '@' then "@" else "";
  }

  lemma StripAtOnce(r: string)
    ensures StripAt("@" + r) == r
  {
  }

  predicate OccursAt(s: string, pat: string, i: nat) {
    i + |pat| <= |s| && s[i..i + |pat|] == pat
  }

  /** The least index at or after `from` where `pat` occurs in `s`. */
  function IndexOfFrom(s: string, pat: string, from: nat): (r: Option<nat>)
    ensures r.Some? ==> from <= r.value && OccursAt(s, pat, r.value)
    ensures r.Some? ==> forall j :: from <= j < r.value ==> !OccursAt(s, pat, j)
    ensures r.None? ==> forall j :: from <= j ==> !OccursAt(s, pat, j)
    decreases |s| - from
  {
    if from + |pat| > |s| then None
    else if s[from..from + |pat|] == pat then Some(from)
    else IndexOfFrom(s, pat, from + 1)
  }

  /** `s.replace(pat, rep)` with a string pattern: only the first occurrence
      of `pat` is replaced, by `rep` taken literally (the `$` patterns a
      replacement string may hold are not expanded). */
  function ReplaceFirst(s: string, pat: string, rep: string): (r: string)
    ensures (forall j: nat :: !OccursAt(s, pat, j)) ==> r == s
    ensures forall i: nat ::
      (OccursAt(s, pat, i) && forall j: nat :: j < i ==> !OccursAt(s, pat, j))
      ==> r == s[..i] + rep + s[i + |pat|..]
  {
    match IndexOfFrom(s, pat, 0)
    case None => s
    case Some(i) => s[..i] + rep + s[i + |pat|..]
  }

  /** `String.prototype.toLowerCase`, on the ASCII letters. */
  function LowerChar(c: char): char {
    if 'A' <= c <= 'Z' then (c as int + 32) as char else c
  }

  function ToLower(s: string): (r: string)
    ensures |r| == |s| && forall i :: 0 <= i < |s| ==> r[i] == LowerChar(s[i])
  {
    seq(|s|, i requires 0 <= i < |s| => LowerChar(s[i]))
  }

  /** The result holds no upper-case ASCII letter, and lowering it again
      changes nothing. */
  lemma ToLowerSpec(s: string)
    ensures forall i :: 0 <= i < |s| ==> !('A' <= ToLower(s)[i] <= 'Z')
    ensures ToLower(ToLower(s)) == ToLower(s)
  {
    var u := ToLower(s);
    forall i | 0 <= i < |u| ensures LowerChar(u[i]) == u[i] {
      assert u[i] == LowerChar(s[i]);
    }
  }

  predicate IsDigit(c: char) {
    '0' as int <= c as int <= '9' as int
  }

  predicate AllDigits(s: string) {
    forall i :: 0 <= i < |s| ==> IsDigit(s[i])
  }

  function DigitChar(d: nat): (c: char)
    requires d < 10
    ensures IsDigit(c) && c as int - '0' as int == d
  {
    ('0' as int + d) as char
  }

  /** The number a string of decimal digits denotes. */
  function DecimalValue(s: string): nat
    requires AllDigits(s)
  {
    if s == [] then 0
    else
      assert IsDigit(s[|s| - 1]);
      10 * DecimalValue(s[..|s| - 1]) + (s[|s| - 1] as int - '0' as int)
  }

  /** `String(n)` for a non-negative integer below 10^21: its decimal
      digits, without leading zeros. */
  function NatToString(n: nat): (r: string)
    ensures |r| >= 1 && AllDigits(r)
    ensures |r| > 1 ==> r[0] != '0'
    ensures |r| == 1 <==> n < 10
  {
    if n < 10 then [DigitChar(n)] else NatToString(n / 10) + [DigitChar(n % 10)]
  }

  lemma {:induction false} NatToStringValue(n: nat)
    ensures DecimalValue(NatToString(n)) == n
  {
    if n >= 10 {
      var r := NatToString(n);
      assert r[..|r| - 1] == NatToString(n / 10);
      NatToStringValue(n / 10);
    }
  }

  /** `s.padStart(len, fill)` with a one-character fill string. */
  function PadStart(s: string, len: nat, fill: char): (r: string)
    ensures |r| == if |s| >= len then |s| else len
    ensures r[|r| - |s|..] == s
    ensures forall i :: 0 <= i < |r| - |s| ==> r[i] == fill
  {
    if |s| >= len then s else seq(len - |s|, _ => fill) + s
  }
}
