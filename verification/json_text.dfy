/**
 * `JSON.stringify` applied to a string (ECMA-262 QuoteJSONString): the
 * quotation mark and reverse solidus are escaped, and so is every control
 * character (section 7 of RFC 8259), which keeps a serialized payload on one line.
 */
module JsonText {

  function HexDigit(n: nat): (c: char)
    requires n < 16
  {
    if n < 10 then ('0' as int + n) as char else ('a' as int + n - 10) as char
  }

  /** No control character: the text stays on one line. */
  predicate Printable(s: string) {
    forall k :: 0 <= k < |s| ==> s[k] as int >= 0x20
  }

  lemma {:induction false} PrintableJoin(a: string, b: string)
    requires Printable(a) && Printable(b)
    ensures Printable(a + b)
  {
    assert forall k :: |a| <= k < |a + b| ==> (a + b)[k] == b[k - |a|];
  }

  predicate NeedsEscape(c: char) {
    c as int < 0x20 || c == '"' || c == '\\'
  }

  /** The JSON text for one character of a string literal. */
  function EscapeChar(c: char): (r: string)
    ensures |r| >= 1
    ensures Printable(r)
    ensures !NeedsEscape(c) <==> r == [c]
  {
    var n := c as int;
    if c == '"' then "\\\""
    else if c == '\\' then "\\\\"
    else if n == 0x08 then "\\b"
    else if n == 0x0C then "\\f"
    else if c == '\n' then "\\n"
    else if c == '\r' then "\\r"
    else if c == '\t' then "\\t"
    else if n < 0x20 then "\\u00" + [HexDigit(n / 16), HexDigit(n % 16)]
    else [c]
  }

  /** The body of a JSON string literal for `s`, without the surrounding quotation marks. */
  function Escape(s: string): (r: string)
    ensures Printable(r)
    ensures (forall k :: 0 <= k < |s| ==> !NeedsEscape(s[k])) ==> r == s
    ensures |r| >= |s|
  {
    if |s| == 0 then ""
    else
      var head := EscapeChar(s[0]);
      var tail := Escape(s[1..]);
      PrintableJoin(head, tail);
      head + tail
  }

  /** `JSON.stringify(s)` for a string `s`. */
  function Quote(s: string): (r: string)
    ensures |r| >= 2 && r[0] == '"' && r[|r| - 1] == '"'
    ensures Printable(r)
  {
    var body := Escape(s);
    PrintableJoin("\"", body);
    PrintableJoin("\"" + body, "\"");
    "\"" + body + "\""
  }
}
