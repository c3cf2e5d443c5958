/** The handful of JavaScript string operations the core relies on. */
module Text {

  /** ECMAScript WhiteSpace and LineTerminator code points: the set `String.prototype.trim` removes. */
  predicate IsJsWhitespace(c: char) {
    var n := c as int;
    n == 0x09 || n == 0x0A || n == 0x0B || n == 0x0C || n == 0x0D || n == 0x20
    || n == 0xA0 || n == 0x1680 || (0x2000 <= n <= 0x200A) || n == 0x2028 || n == 0x2029
    || n == 0x202F || n == 0x205F || n == 0x3000 || n == 0xFEFF
  }

  predicate AllWhitespace(s: string) {
    forall k :: 0 <= k < |s| ==> IsJsWhitespace(s[k])
  }

  /** Number of whitespace characters at the front of `s`. */
  function LeadingSpace(s: string): (n: nat)
    ensures n <= |s|
    ensures AllWhitespace(s[..n])
    ensures n == |s| || !IsJsWhitespace(s[n])
  {
    if |s| == 0 || !IsJsWhitespace(s[0]) then 0
    else
      var m := LeadingSpace(s[1..]);
      assert s[1..][..m] == s[1..m + 1];
      1 + m
  }

  /** Number of whitespace characters at the end of `s`. */
  function TrailingSpace(s: string): (n: nat)
    ensures n <= |s|
    ensures AllWhitespace(s[|s| - n..])
    ensures n == |s| || !IsJsWhitespace(s[|s| - n - 1])
  {
    if |s| == 0 || !IsJsWhitespace(s[|s| - 1]) then 0
    else
      var m := TrailingSpace(s[..|s| - 1]);
      assert s[..|s| - 1][|s| - 1 - m..] == s[|s| - 1 - m..|s| - 1];
      1 + m
  }

  /** `String.prototype.trim`. */
  function Trim(s: string): (r: string)
    ensures |r| <= |s|
    ensures r == "" <==> AllWhitespace(s)
    ensures r != "" ==> !IsJsWhitespace(r[0]) && !IsJsWhitespace(r[|r| - 1])
    ensures |s| > 0 && !IsJsWhitespace(s[0]) && !IsJsWhitespace(s[|s| - 1]) ==> r == s
  {
    var i := LeadingSpace(s);
    var t := s[i..];
    var j := TrailingSpace(t);
    TrimCutEmpty(s, i, j);
    TrimCutEnds(s, i, j);
    t[..|t| - j]
  }

  /**
   * `trim` removes exactly the outer whitespace: the result starts right after
   * the leading whitespace run, and only whitespace follows it in `s`.
   */
  lemma {:induction false} TrimRemovesOuterWhitespace(s: string)
    ensures var i, r := LeadingSpace(s), Trim(s);
      i + |r| <= |s| && r == s[i..i + |r|] && AllWhitespace(s[i + |r|..])
  {
    var i := LeadingSpace(s);
    var t := s[i..];
    var j := TrailingSpace(t);
    assert Trim(s) == t[..|t| - j];
    SliceParts(s, i, j);
    assert AllWhitespace(t[|t| - j..]);
  }

  /** Dropping `i` characters from the front and then `j` from the back cuts `s` into three consecutive slices. */
  lemma {:induction false} SliceParts(s: string, i: nat, j: nat)
    requires i + j <= |s|
    ensures var t := s[i..]; var r := t[..|t| - j];
      i + |r| <= |s| && r == s[i..i + |r|] && s[i + |r|..] == t[|t| - j..]
  {
  }

  lemma {:induction false} TrimCutEmpty(s: string, i: nat, j: nat)
    requires i == LeadingSpace(s) && j == TrailingSpace(s[i..])
    ensures s[i..][..|s| - i - j] == "" <==> AllWhitespace(s)
  {
    if i == |s| {
      assert s[..i] == s;
    } else {
      assert !AllWhitespace(s) by { assert !IsJsWhitespace(s[i]); }
      assert s[i..][0] == s[i];
    }
  }

  lemma {:induction false} TrimCutEnds(s: string, i: nat, j: nat)
    requires i == LeadingSpace(s) && j == TrailingSpace(s[i..])
    ensures var r := s[i..][..|s| - i - j];
      (r != "" ==> !IsJsWhitespace(r[0]) && !IsJsWhitespace(r[|r| - 1]))
      && (|s| > 0 && !IsJsWhitespace(s[0]) && !IsJsWhitespace(s[|s| - 1]) ==> r == s)
  {
    var t := s[i..];
    var r := t[..|t| - j];
    if r != "" {
      assert r[0] == s[i];
      assert r[|r| - 1] == t[|t| - j - 1];
    }
    if |s| > 0 && !IsJsWhitespace(s[0]) && !IsJsWhitespace(s[|s| - 1]) {
      assert i == 0;
      assert t == s;
    }
  }

  /** Trimming twice trims no more. */
  lemma {:induction false} TrimIdempotent(s: string)
    ensures Trim(Trim(s)) == Trim(s)
  {
  }

  /** `s.replace(/^p/, "")` for a literal pattern `p`: drop one leading occurrence of `p`. */
  function StripPrefix(s: string, p: string): (r: string)
    ensures p <= s ==> s == p + r
    ensures !(p <= s) ==> r == s
  {
    if p <= s then s[|p|..] else s
  }

  /** Lower-casing of a single character as far as it can reach an ASCII letter. */
  function ToLower(c: char): (r: char)
    ensures 'A' <= c <= 'Z' ==> 'a' <= r <= 'z' && r as int == c as int + 32
    ensures !('A' <= c <= 'Z') ==> r == c
  {
    if 'A' <= c <= 'Z' then (c as int + 32) as char else c
  }

  /** Concatenation of a sequence of strings, in order. */
  function Concat(ss: seq<string>): string {
    if |ss| == 0 then "" else Concat(ss[..|ss| - 1]) + ss[|ss| - 1]
  }

  lemma {:induction false} ConcatAppend(a: seq<string>, b: seq<string>)
    ensures Concat(a + b) == Concat(a) + Concat(b)
    decreases |b|
  {
    if |b| == 0 {
      assert a + b == a;
    } else {
      var b' := b[..|b| - 1];
      assert (a + b)[..|a + b| - 1] == a + b';
      ConcatAppend(a, b');
    }
  }

  /** The reads before `k`, read `k`, and the reads after it. */
  lemma {:induction false} ConcatAround(ss: seq<string>, k: int)
    requires 0 <= k < |ss|
    ensures Concat(ss) == Concat(ss[..k]) + ss[k] + Concat(ss[k + 1..])
  {
    var head := ss[..k + 1];
    assert ss == head + ss[k + 1..];
    ConcatAppend(head, ss[k + 1..]);
    assert head[..|head| - 1] == ss[..k];
    assert Concat(head) == Concat(ss[..k]) + ss[k];
  }

  lemma {:induction false} ConcatCons(x: string, rest: seq<string>)
    ensures Concat([x] + rest) == x + Concat(rest)
  {
    ConcatAppend([x], rest);
    assert [x][..0] == [];
  }

  function DigitChar(d: nat): (c: char)
    requires d < 10
    ensures '0' <= c <= '9'
  {
    ('0' as int + d) as char
  }

  /** Decimal rendering of a number, as a template literal renders an HTTP status code. */
  function NatToString(n: nat): (r: string)
    ensures |r| >= 1
    ensures forall k :: 0 <= k < |r| ==> '0' <= r[k] <= '9'
  {
    if n < 10 then [DigitChar(n)] else NatToString(n / 10) + [DigitChar(n % 10)]
  }

  /** Value of a string of decimal digits. */
  function DecimalValue(s: string): nat
    requires forall k :: 0 <= k < |s| ==> '0' <= s[k] <= '9'
  {
    if |s| == 0 then 0
    else DecimalValue(s[..|s| - 1]) * 10 + (s[|s| - 1] as int - '0' as int)
  }

  lemma {:induction false} NatToStringRoundTrip(n: nat)
    ensures DecimalValue(NatToString(n)) == n
    decreases n
  {
    if n >= 10 {
      var r := NatToString(n);
      assert r[..|r| - 1] == NatToString(n / 10);
      NatToStringRoundTrip(n / 10);
    }
  }
}
