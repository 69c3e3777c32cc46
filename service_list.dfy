/**
 * The `service_id` column: a list of service ids written with `JSON.stringify(services)`
 * (app/page.js:892) and read back by `parseServices` (app/page.js:44-47), which also
 * accepts the older form where the column holds one plain id.
 *
 * Encode is `JSON.stringify` of an array of strings; Decode is `JSON.parse` restricted to
 * arrays of strings without whitespace between tokens, which is everything Encode writes.
 */
module ServiceList {
  import opened Wrappers

  const Quote: char := '"'
  const Backslash: char := '\\'
  const BackspaceChar: char := 8 as char
  const FormFeedChar: char := 12 as char

  function HexDigit(n: nat): (c: char)
    requires n < 16
  {
    "0123456789abcdef"[n]
  }

  function HexValue(c: char): (r: Option<nat>)
    ensures r.Some? ==> r.value < 16
  {
    if '0' <= c <= '9' then Some((c as int) - ('0' as int))
    else if 'a' <= c <= 'f' then Some((c as int) - ('a' as int) + 10)
    else if 'A' <= c <= 'F' then Some((c as int) - ('A' as int) + 10)
    else None
  }

  /** How `JSON.stringify` writes one character inside a string literal. */
  function EscapeChar(c: char): string
  {
    if c == Quote then [Backslash, Quote]
    else if c == Backslash then [Backslash, Backslash]
    else if c == BackspaceChar then [Backslash, 'b']
    else if c == FormFeedChar then [Backslash, 'f']
    else if c == '\n' then [Backslash, 'n']
    else if c == '\r' then [Backslash, 'r']
    else if c == '\t' then [Backslash, 't']
    else if c < ' ' then [Backslash, 'u', '0', '0', HexDigit((c as int) / 16), HexDigit((c as int) % 16)]
    else [c]
  }

  function Escape(s: string): string
  {
    if s == [] then [] else EscapeChar(s[0]) + Escape(s[1..])
  }

  function EncodeString(s: string): string
  {
    [Quote] + Escape(s) + [Quote]
  }

  function EncodeItems(l: seq<string>): string
    requires |l| > 0
  {
    if |l| == 1 then EncodeString(l[0]) else EncodeString(l[0]) + "," + EncodeItems(l[1..])
  }

  /** `JSON.stringify(l)` for an array of strings. */
  function Encode(l: seq<string>): (s: string)
    ensures |s| >= 2 && s[0] == '[' && s[|s| - 1] == ']'
  {
    if l == [] then "[]" else "[" + EncodeItems(l) + "]"
  }

  /** The character of a one-letter escape `\x`, if `x` is one. */
  function ShortEscape(x: char): Option<char>
  {
    if x == Quote then Some(Quote)
    else if x == Backslash then Some(Backslash)
    else if x == '/' then Some('/')
    else if x == 'b' then Some(BackspaceChar)
    else if x == 'f' then Some(FormFeedChar)
    else if x == 'n' then Some('\n')
    else if x == 'r' then Some('\r')
    else if x == 't' then Some('\t')
    else None
  }

  /** The character of `\uXXXX`; a lone surrogate half is refused. */
  function UnicodeEscape(h: string): Option<char>
    requires |h| == 4
  {
    var a, b, c, d := HexValue(h[0]), HexValue(h[1]), HexValue(h[2]), HexValue(h[3]);
    if a.None? || b.None? || c.None? || d.None? then None
    else
      var code := 4096 * a.value + 256 * b.value + 16 * c.value + d.value;
      if 0xD800 <= code < 0xE000 then None else Some(code as char)
  }

  /**
   * The body of a string literal up to and including its closing quote: the characters
   * it stands for and what follows the quote.
   */
  function ParseBody(s: string): (r: Option<(string, string)>)
    ensures r.Some? ==> |r.value.1| < |s|
  {
    if s == [] then None
    else if s[0] == Quote then Some(([], s[1..]))
    else if s[0] == Backslash then
      if |s| < 2 then None
      else if s[1] == 'u' then
        if |s| < 6 then None
        else match UnicodeEscape(s[2..6])
          case None => None
          case Some(c) => Prepend(c, ParseBody(s[6..]))
      else match ShortEscape(s[1])
        case None => None
        case Some(c) => Prepend(c, ParseBody(s[2..]))
    else if s[0] < ' ' then None
    else Prepend(s[0], ParseBody(s[1..]))
  }

  function Prepend(c: char, r: Option<(string, string)>): (p: Option<(string, string)>)
    ensures p.Some? <==> r.Some?
    ensures p.Some? ==> p.value.1 == r.value.1
  {
    match r
    case None => None
    case Some((body, rest)) => Some(([c] + body, rest))
  }

  /** A string literal at the front of `s`, and what follows it. */
  function ParseString(s: string): (r: Option<(string, string)>)
    ensures r.Some? ==> |r.value.1| < |s|
  {
    if s == [] || s[0] != Quote then None else ParseBody(s[1..])
  }

  /** String items separated by commas, up to and including the closing bracket. */
  function ParseItems(s: string): Option<(seq<string>, string)>
    decreases |s|
  {
    match ParseString(s)
    case None => None
    case Some((item, rest)) =>
      if rest == [] then None
      else if rest[0] == ']' then Some(([item], rest[1..]))
      else if rest[0] == ',' then
        match ParseItems(rest[1..])
        case None => None
        case Some((items, tail)) => Some(([item] + items, tail))
      else None
  }

  /** `JSON.parse(s)` when `s` is an array of strings with no whitespace; otherwise None. */
  function Decode(s: string): Option<seq<string>>
  {
    if s == "[]" then Some([])
    else if |s| < 2 || s[0] != '[' then None
    else match ParseItems(s[1..])
      case Some((items, tail)) => if tail == [] then Some(items) else None
      case None => None
  }

  /**
   * `parseServices`: no value or the empty string gives no services; an encoded array
   * gives its items; anything else is taken as one service id.
   */
  function ParseServices(s: Option<string>): (r: seq<string>)
    ensures s.None? || s == Some("") ==> r == []
    ensures s.Some? && s.value != "" && Decode(s.value).None? ==> r == [s.value]
    ensures s.Some? && Decode(s.value).Some? ==> r == Decode(s.value).value
  {
    if s.None? || s.value == "" then []
    else match Decode(s.value)
      case Some(items) => items
      case None => [s.value]
  }

  // ---------------------------------------------------------------------------------------
  // Round trip
  // ---------------------------------------------------------------------------------------

  lemma HexRoundTrip(n: nat)
    requires n < 16
    ensures HexValue(HexDigit(n)) == Some(n)
  {
  }

  lemma EscapeCharParses(c: char, t: string)
    ensures ParseBody(EscapeChar(c) + t) == Prepend(c, ParseBody(t))
  {
    if c < ' ' && c != BackspaceChar && c != FormFeedChar && c != '\n' && c != '\r' && c != '\t' {
      ControlCharParses(c, t);
    } else if c == Quote || c == Backslash || c == BackspaceChar || c == FormFeedChar || c == '\n' || c == '\r'
           || c == '\t' {
      assert (EscapeChar(c) + t)[2..] == t;
    } else {
      assert (EscapeChar(c) + t)[1..] == t;
    }
  }

  /** A control character without a short escape goes through `\u00XX`. */
  lemma ControlCharParses(c: char, t: string)
    requires c < ' ' && c != BackspaceChar && c != FormFeedChar && c != '\n' && c != '\r' && c != '\t'
    ensures ParseBody(EscapeChar(c) + t) == Prepend(c, ParseBody(t))
  {
    var n := c as int;
    var e := EscapeChar(c);
    assert e == [Backslash, 'u', '0', '0', HexDigit(n / 16), HexDigit(n % 16)];
    HexRoundTrip(n / 16);
    HexRoundTrip(n % 16);
    assert UnicodeEscape(e[2..6]) == Some(c);
    assert (e + t)[2..6] == e[2..6];
    assert (e + t)[6..] == t;
  }

  /** The body of an encoded string parses back to that string, whatever follows it. */
  lemma {:induction false} EscapeParses(s: string, t: string)
    ensures ParseBody(Escape(s) + [Quote] + t) == Some((s, t))
  {
    if s == [] {
      assert Escape(s) + [Quote] + t == [Quote] + t;
    } else {
      EscapeParses(s[1..], t);
      assert Escape(s) + [Quote] + t == EscapeChar(s[0]) + (Escape(s[1..]) + [Quote] + t);
      EscapeCharParses(s[0], Escape(s[1..]) + [Quote] + t);
      assert [s[0]] + s[1..] == s;
    }
  }

  /** An encoded string parses back to that string, whatever follows it. */
  lemma StringParses(s: string, t: string)
    ensures ParseString(EncodeString(s) + t) == Some((s, t))
  {
    var body := Escape(s) + [Quote] + t;
    var u := EncodeString(s) + t;
    assert u == [Quote] + body;
    QuotedString(u);
    assert u[1..] == body;
    EscapeParses(s, t);
  }

  lemma QuotedString(u: string)
    requires |u| > 0 && u[0] == Quote
    ensures ParseString(u) == ParseBody(u[1..])
  {
  }

  /** The last item, then the closing bracket. */
  lemma LastItemParses(x: string, t: string)
    ensures ParseItems(EncodeString(x) + ("]" + t)) == Some(([x], t))
  {
    StringParses(x, "]" + t);
    ItemsUnfold(EncodeString(x) + ("]" + t), x, "]" + t);
    assert ("]" + t)[1..] == t;
  }

  /** An item, a comma, and the items after it. */
  lemma ItemThenMoreParses(x: string, more: string, items: seq<string>, t: string)
    requires ParseItems(more) == Some((items, t))
    ensures ParseItems(EncodeString(x) + ("," + more)) == Some(([x] + items, t))
  {
    StringParses(x, "," + more);
    ItemsUnfold(EncodeString(x) + ("," + more), x, "," + more);
    assert ("," + more)[1..] == more;
  }

  /** One unfolding of ParseItems after a string literal. */
  lemma ItemsUnfold(u: string, item: string, rest: string)
    requires ParseString(u) == Some((item, rest))
    ensures ParseItems(u) ==
              if rest == [] then None
              else if rest[0] == ']' then Some(([item], rest[1..]))
              else if rest[0] == ',' then
                match ParseItems(rest[1..])
                case None => None
                case Some((items, tail)) => Some(([item] + items, tail))
              else None
  {
  }

  lemma {:induction false} ItemsParse(l: seq<string>, t: string)
    requires |l| > 0
    ensures ParseItems(EncodeItems(l) + "]" + t) == Some((l, t))
    decreases |l|
  {
    EncodeItemsSplit(l, t);
    if |l| == 1 {
      LastItemParses(l[0], t);
      assert l == [l[0]];
    } else {
      ItemsParse(l[1..], t);
      ItemThenMoreParses(l[0], EncodeItems(l[1..]) + "]" + t, l[1..], t);
      assert [l[0]] + l[1..] == l;
    }
  }

  /** The encoded items, split after the first string literal. */
  lemma EncodeItemsSplit(l: seq<string>, t: string)
    requires |l| > 0
    ensures |l| == 1 ==> EncodeItems(l) + "]" + t == EncodeString(l[0]) + ("]" + t)
    ensures |l| > 1 ==>
              EncodeItems(l) + "]" + t == EncodeString(l[0]) + ("," + (EncodeItems(l[1..]) + "]" + t))
  {
    var head := EncodeString(l[0]);
    if |l| == 1 {
      Associate(head, "]", t);
    } else {
      var rest := EncodeItems(l[1..]);
      assert EncodeItems(l) == head + "," + rest;
      Associate(head + "," + rest, "]", t);
      Associate(rest, "]", t);
      Associate4(head, ",", rest, "]" + t);
    }
  }

  lemma Associate(a: string, b: string, c: string)
    ensures a + b + c == a + (b + c)
  {
  }

  lemma Associate4(a: string, b: string, c: string, d: string)
    ensures a + b + c + d == a + (b + (c + d))
  {
  }

  /** Decoding what Encode wrote gives the list back. */
  lemma DecodeEncode(l: seq<string>)
    ensures Decode(Encode(l)) == Some(l)
  {
    if l != [] {
      var s := Encode(l);
      ItemsParse(l, "");
      assert s[1..] == EncodeItems(l) + "]" + "";
      assert s != "[]" by {
        assert s[1] == Quote;
      }
    }
  }

  /** The services written at submit are the services `parseServices` reads back. */
  lemma ParseServicesOfEncoded(l: seq<string>)
    ensures ParseServices(Some(Encode(l))) == l
  {
    DecodeEncode(l);
  }

  /** A plain service id (the older single-id form) is read as a one-element list. */
  lemma PlainIdIsOneService(id: string)
    requires id != [] && id[0] != '['
    ensures ParseServices(Some(id)) == [id]
  {
  }
}
