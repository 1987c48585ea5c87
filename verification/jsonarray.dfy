/** The text encoding of the journal's id lists (`serializeArray` and
    `parseArray`): `JSON.stringify` of an array of strings, and `JSON.parse`
    read back as an array of strings, with anything that is not one
    decoding to the empty list. */
module JsonArray {
  import opened Optional
  import opened Strings

  // ---------------------------------------------------------------------
  // Encoding, as `JSON.stringify` writes strings and arrays.

  function HexDigit(d: int): (c: char)
    requires 0 <= d < 16
  {
    if d < 10 then DigitChar(d) else (('a' as int) + d - 10) as char
  }

  /** How `JSON.stringify` writes one character inside a string literal: the
      quote and the backslash are escaped, the control characters with a
      short form use it, the other control characters become `\u00xx`
      (lower-case hex), and everything else is written as it is. */
  function EscapeChar(c: char): (r: string)
    ensures |r| >= 1
    ensures r[0] == '\\' <==> c == '"' || c == '\\' || (c as int) < 0x20
  {
    if c == '"' then "\\\""
    else if c == '\\' then "\\\\"
    else if c as int == 0x08 then "\\b"
    else if c == '\t' then "\\t"
    else if c == '\n' then "\\n"
    else if c as int == 0x0C then "\\f"
    else if c == '\r' then "\\r"
    else if (c as int) < 0x20 then "\\u00" + [HexDigit((c as int) / 16), HexDigit((c as int) % 16)]
    else [c]
  }

  function Escape(s: string): string {
    if |s| == 0 then "" else EscapeChar(s[0]) + Escape(s[1..])
  }

  /** A JSON string literal. */
  function Quote(s: string): string {
    "\"" + Escape(s) + "\""
  }

  function Quoted(xs: seq<string>): (r: seq<string>)
    ensures |r| == |xs|
    ensures forall i | 0 <= i < |xs| :: r[i] == Quote(xs[i])
  {
    seq(|xs|, i requires 0 <= i < |xs| => Quote(xs[i]))
  }

  /** `serializeArray(value)`: `JSON.stringify` of an array of strings.
      `parseArray` reads the text back as the same list. */
  function SerializeArray(xs: seq<string>): (r: string)
    ensures ParseArray(r) == xs
  {
    var s := "[" + Join(Quoted(xs), ",") + "]";
    if |xs| == 0 then
      assert s == "[]";
      s
    else
      assert s == "[" + ItemsText(xs);
      ItemsRoundTrip(xs, "");
      ItemsTextStart(xs, "");
      assert ItemsText(xs) + "" == ItemsText(xs);
      ReadArrayItems("[" + ItemsText(xs), xs);
      s
  }

  // ---------------------------------------------------------------------
  // Decoding: the part of the JSON grammar an array of strings uses.

  predicate IsJsonWs(c: char) {
    c == ' ' || c == '\t' || c == '\n' || c == '\r'
  }

  function SkipWs(s: string): (r: string)
    ensures |r| <= |s|
    ensures |r| > 0 ==> !IsJsonWs(r[0])
    decreases |s|
  {
    if |s| > 0 && IsJsonWs(s[0]) then SkipWs(s[1..]) else s
  }

  /** Skipping white space drops a run of white space and nothing else. */
  lemma {:induction false} SkipWsDrops(s: string)
    ensures var r := SkipWs(s);
      && r == s[|s| - |r|..]
      && forall i | 0 <= i < |s| - |r| :: IsJsonWs(s[i])
    decreases |s|
  {
    if |s| > 0 && IsJsonWs(s[0]) {
      SkipWsDrops(s[1..]);
      var r := SkipWs(s);
      assert r == s[1..][|s| - 1 - |r|..];
      forall i | 0 <= i < |s| - |r| ensures IsJsonWs(s[i]) {
        if i > 0 {
          assert s[i] == s[1..][i - 1];
        }
      }
    }
  }

  function HexValue(c: char): Option<nat> {
    if '0' <= c <= '9' then Some((c as int) - ('0' as int))
    else if 'a' <= c <= 'f' then Some((c as int) - ('a' as int) + 10)
    else if 'A' <= c <= 'F' then Some((c as int) - ('A' as int) + 10)
    else None
  }

  /** The value of four hex digits. */
  function Hex4(t: string): (r: Option<nat>)
    requires |t| == 4
    ensures r.Some? ==> r.value < 0x10000
  {
    var a, b, c, d := HexValue(t[0]), HexValue(t[1]), HexValue(t[2]), HexValue(t[3]);
    if a.Some? && b.Some? && c.Some? && d.Some? && a.value < 16 && b.value < 16 && c.value < 16 && d.value < 16
    then Some(((a.value * 16 + b.value) * 16 + c.value) * 16 + d.value)
    else None
  }

  /** The escape after a backslash: the character it stands for and the text
      after it. */
  function ReadEscape(s: string): (r: Option<(char, string)>)
    ensures r.Some? ==> |r.value.1| < |s|
  {
    if |s| == 0 then None
    else if s[0] == '"' || s[0] == '\\' || s[0] == '/' then Some((s[0], s[1..]))
    else if s[0] == 'b' then Some((0x08 as char, s[1..]))
    else if s[0] == 't' then Some(('\t', s[1..]))
    else if s[0] == 'n' then Some(('\n', s[1..]))
    else if s[0] == 'f' then Some((0x0C as char, s[1..]))
    else if s[0] == 'r' then Some(('\r', s[1..]))
    else if s[0] == 'u' && |s| >= 5 then
      var v := Hex4(s[1..5]);
      if v.Some? && !(0xD800 <= v.value < 0xE000) then Some((v.value as char, s[5..])) else None
    else None
  }

  /** The rest of a string literal after its opening quote: its value and
      the text after the closing quote. */
  function ReadString(s: string): (r: Option<(string, string)>)
    ensures r.Some? ==> |r.value.1| < |s|
    decreases |s|
  {
    if |s| == 0 then None
    else if s[0] == '"' then Some(("", s[1..]))
    else if s[0] == '\\' then
      match ReadEscape(s[1..])
      case None => None
      case Some((c, rest)) =>
        match ReadString(rest)
        case None => None
        case Some((t, after)) => Some(([c] + t, after))
    else if (s[0] as int) < 0x20 then None
    else
      match ReadString(s[1..])
      case None => None
      case Some((t, after)) => Some(([s[0]] + t, after))
  }

  /** One or more string elements separated by commas, up to and including
      the closing bracket. */
  function ReadItems(s: string): (r: Option<(seq<string>, string)>)
    ensures r.Some? ==> |r.value.0| > 0 && |r.value.1| < |s|
    decreases |s|
  {
    if |s| == 0 || s[0] != '"' then None
    else
      match ReadString(s[1..])
      case None => None
      case Some((x, rest)) =>
        var t := SkipWs(rest);
        if |t| > 0 && t[0] == ']' then Some(([x], t[1..]))
        else if |t| > 0 && t[0] == ',' then Prepend(x, ReadItems(SkipWs(t[1..])))
        else None
  }

  /** One element in front of the elements read after it, if those were read. */
  function Prepend(x: string, r: Option<(seq<string>, string)>): (p: Option<(seq<string>, string)>)
    ensures p.Some? <==> r.Some?
    ensures p.Some? ==> p.value == ([x] + r.value.0, r.value.1)
  {
    match r
    case None => None
    case Some((more, after)) => Some(([x] + more, after))
  }

  /** The whole text as a JSON array of strings, if it is one. */
  function ReadArray(s: string): Option<seq<string>> {
    var t := SkipWs(s);
    if |t| == 0 || t[0] != '[' then None
    else
      var u := SkipWs(t[1..]);
      var items: Option<(seq<string>, string)> :=
        if |u| > 0 && u[0] == ']' then Some(([], u[1..])) else ReadItems(u);
      match items
      case None => None
      case Some((xs, rest)) => if |SkipWs(rest)| == 0 then Some(xs) else None
  }

  /** `parseArray(value)`: the array the text holds, or the empty list when
      the text is not JSON or not an array. Text that does not begin (after
      white space) with `[` — an object, a string, a number, `null` or not
      JSON at all — is never an array. */
  function ParseArray(s: string): (r: seq<string>)
    ensures (|SkipWs(s)| == 0 || SkipWs(s)[0] != '[') ==> r == []
    ensures r != [] ==> ReadArray(s) == Some(r)
  {
    var a := ReadArray(s);
    if a.Some? then a.value else []
  }

  // ---------------------------------------------------------------------
  // The round trip.

  lemma HexRoundTrip(d: int)
    requires 0 <= d < 16
    ensures HexValue(HexDigit(d)) == Some(d)
  {
  }

  /** Reading back one escaped character. */
  lemma EscapeCharRoundTrip(c: char, rest: string)
    ensures EscapeChar(c)[0] == '\\' ==> ReadEscape(EscapeChar(c)[1..] + rest) == Some((c, rest))
  {
    var e := EscapeChar(c);
    if c != '"' && c != '\\' && (c as int) < 0x20 && c as int != 0x08 && c != '\t' && c != '\n'
       && c as int != 0x0C && c != '\r' {
      var hi, lo := (c as int) / 16, (c as int) % 16;
      HexRoundTrip(hi);
      HexRoundTrip(lo);
      var s := e[1..] + rest;
      assert s[0] == 'u';
      assert s[1..5] == ['0', '0', HexDigit(hi), HexDigit(lo)];
      assert Hex4(s[1..5]) == Some(c as int);
      assert s[5..] == rest;
    }
  }

  /** Reading a string literal consumes one written character at a time. */
  lemma ReadStringStep(c: char, tail: string)
    ensures ReadString(EscapeChar(c) + tail)
         == match ReadString(tail)
            case None => None
            case Some((t, after)) => Some(([c] + t, after))
  {
    var e := EscapeChar(c);
    var s := e + tail;
    if e[0] == '\\' {
      EscapeCharRoundTrip(c, tail);
      assert s[1..] == e[1..] + tail;
      assert ReadEscape(s[1..]) == Some((c, tail));
    } else {
      assert e == [c];
      assert s[1..] == tail;
    }
  }

  lemma {:induction false} StringRoundTrip(x: string, rest: string)
    ensures ReadString(Escape(x) + "\"" + rest) == Some((x, rest))
    decreases |x|
  {
    var s := Escape(x) + "\"" + rest;
    if |x| == 0 {
      assert s == "\"" + rest;
    } else {
      var tail := Escape(x[1..]) + "\"" + rest;
      assert s == EscapeChar(x[0]) + tail;
      StringRoundTrip(x[1..], rest);
      ReadStringStep(x[0], tail);
      assert [x[0]] + x[1..] == x;
    }
  }

  /** The elements of a non-empty array as written: the quoted strings,
      comma-separated, and the closing bracket. */
  function ItemsText(xs: seq<string>): string {
    Join(Quoted(xs), ",") + "]"
  }

  lemma {:induction false} ItemsRoundTrip(xs: seq<string>, rest: string)
    requires |xs| > 0
    ensures ReadItems(ItemsText(xs) + rest) == Some((xs, rest))
    decreases |xs|
  {
    if |xs| == 1 {
      ItemsTextLast(xs, rest);
      LastItem(xs[0], "]" + rest);
      assert xs == [xs[0]];
    } else {
      var more := ItemsText(xs[1..]) + rest;
      ItemsTextStep(xs, rest);
      ItemsRoundTrip(xs[1..], rest);
      assert more[0] == '"' by {
        ItemsTextStart(xs[1..], rest);
      }
      NextItem(xs[0], "," + more, xs[1..], rest);
      assert [xs[0]] + xs[1..] == xs;
    }
  }

  lemma ItemsTextLast(xs: seq<string>, rest: string)
    requires |xs| == 1
    ensures ItemsText(xs) + rest == Quote(xs[0]) + ("]" + rest)
  {
    assert Join(Quoted(xs), ",") == Quote(xs[0]);
  }

  lemma ItemsTextStep(xs: seq<string>, rest: string)
    requires |xs| > 1
    ensures ItemsText(xs) + rest == Quote(xs[0]) + ("," + (ItemsText(xs[1..]) + rest))
  {
    var q := Quoted(xs);
    assert q[1..] == Quoted(xs[1..]);
    var tail := Join(Quoted(xs[1..]), ",");
    assert Join(q, ",") == Quote(xs[0]) + "," + tail;
  }

  lemma ItemsTextStart(xs: seq<string>, rest: string)
    requires |xs| > 0
    ensures |ItemsText(xs) + rest| > 0 && (ItemsText(xs) + rest)[0] == '"'
  {
    var q := Quoted(xs);
    assert |q[0]| > 0 && q[0][0] == '"';
    if |xs| > 1 {
      assert Join(q, ",") == q[0] + "," + Join(q[1..], ",");
    }
  }

  /** A written string followed by text starts with the quote and leaves
      the escaped characters, the closing quote and the text. */
  lemma QuoteThen(x: string, after: string)
    ensures |Quote(x) + after| > 0 && (Quote(x) + after)[0] == '"'
    ensures (Quote(x) + after)[1..] == Escape(x) + "\"" + after
  {
  }

  lemma LastItem(x: string, after: string)
    requires |after| > 0 && after[0] == ']'
    ensures ReadItems(Quote(x) + after) == Some(([x], after[1..]))
  {
    var s := Quote(x) + after;
    QuoteThen(x, after);
    StringRoundTrip(x, after);
    assert ReadString(s[1..]) == Some((x, after));
    assert SkipWs(after) == after;
  }

  lemma NextItem(x: string, after: string, xs: seq<string>, rest: string)
    requires |after| > 1 && after[0] == ',' && after[1] == '"'
    requires ReadItems(after[1..]) == Some((xs, rest))
    ensures ReadItems(Quote(x) + after) == Some(([x] + xs, rest))
  {
    var s := Quote(x) + after;
    QuoteThen(x, after);
    StringRoundTrip(x, after);
    ReadItemsComma(s, x, after, xs, rest);
  }

  /** An element followed by a comma and more elements. */
  lemma ReadItemsComma(s: string, x: string, after: string, xs: seq<string>, rest: string)
    requires |s| > 0 && s[0] == '"' && ReadString(s[1..]) == Some((x, after))
    requires |after| > 1 && after[0] == ',' && after[1] == '"'
    requires ReadItems(after[1..]) == Some((xs, rest))
    ensures ReadItems(s) == Some(([x] + xs, rest))
  {
    assert SkipWs(after) == after;
    assert SkipWs(after[1..]) == after[1..];
  }

  /** An opening bracket followed by elements that end the text. */
  lemma ReadArrayItems(s: string, xs: seq<string>)
    requires |s| > 1 && s[0] == '[' && s[1] == '"'
    requires ReadItems(s[1..]) == Some((xs, ""))
    ensures ParseArray(s) == xs
  {
    var t := SkipWs(s);
    assert t == s;
    var u := SkipWs(t[1..]);
    assert u == s[1..];
    assert ReadItems(u) == Some((xs, ""));
    assert ReadArray(s) == Some(xs);
  }
}
