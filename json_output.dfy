/**
 * The text of `dependencies.json` (task-for-gradle-android.kts, lines
 * 183-197) and a reader for it that follows the JSON grammar of RFC 8259
 * for an object whose member values are strings, as `JSON.parse` reads it
 * on the comparing side.
 */
module JsonOutput {
  import opened Wrappers
  import opened DepMaps

  // ---------------------------------------------------------------------
  // Escaping

  /** `replace("\"", "\\\"")`, the escaping the task applies: only `"` is escaped. */
  function EscapeQuotes(s: string): (r: string)
    ensures |r| >= |s|
  {
    if s == [] then []
    else (if s[0] == '"' then ['\\', '"'] else [s[0]]) + EscapeQuotes(s[1..])
  }

  function HexDigit(d: nat): (c: char)
    requires d < 16
  {
    if d < 10 then ('0' as int + d) as char else ('a' as int + d - 10) as char
  }

  /** The JSON escape of one character (section 7 of RFC 8259). */
  function EscapeChar(c: char): string
  {
    if c == '"' then ['\\', '"']
    else if c == '\\' then ['\\', '\\']
    else if c < ' ' then ['\\', 'u', '0', '0', HexDigit(c as int / 16), HexDigit(c as int % 16)]
    else [c]
  }

  /** Escaping that makes any string JSON string content: `"`, `\` and control characters. */
  function EscapeJson(s: string): string
  {
    if s == [] then [] else EscapeChar(s[0]) + EscapeJson(s[1..])
  }

  // ---------------------------------------------------------------------
  // The text written

  /** One member line: `  "key": "version"`, a comma unless it is the last, then a line break. */
  function Line(e: Entry, escape: string -> string, last: bool): string
  {
    "  \"" + escape(e.key) + "\": \"" + escape(e.version) + "\"" + (if last then "" else ",") + "\n"
  }

  /** The member lines from index `i` on, then the closing `}`. */
  function LinesFrom(es: seq<Entry>, escape: string -> string, i: nat): string
    decreases |es| - i
  {
    if i >= |es| then "}" else Line(es[i], escape, i == |es| - 1) + LinesFrom(es, escape, i + 1)
  }

  /** `appendLine("{")`, the member lines, `append("}")`. */
  function JsonText(es: seq<Entry>, escape: string -> string): string
  {
    "{\n" + LinesFrom(es, escape, 0)
  }

  // ---------------------------------------------------------------------
  // Reading JSON text

  predicate IsWs(c: char)
  {
    c == ' ' || c == '\t' || c == '\n' || c == '\r'
  }

  function SkipWs(s: string): (r: string)
    ensures |r| <= |s|
    ensures r == [] || !IsWs(r[0])
  {
    if s != [] && IsWs(s[0]) then SkipWs(s[1..]) else s
  }

  function HexValue(c: char): Option<nat>
  {
    if '0' <= c <= '9' then Some(c as int - '0' as int)
    else if 'a' <= c <= 'f' then Some(c as int - 'a' as int + 10)
    else if 'A' <= c <= 'F' then Some(c as int - 'A' as int + 10)
    else None
  }

  /** The value of four hexadecimal digits. */
  function Hex4(s: string): (r: Option<nat>)
    requires |s| == 4
    ensures r.Some? ==> r.value < 0x10000
  {
    match (HexValue(s[0]), HexValue(s[1]), HexValue(s[2]), HexValue(s[3]))
    case (Some(a), Some(b), Some(c), Some(d)) =>
      if a < 16 && b < 16 && c < 16 && d < 16 then Some(((a * 16 + b) * 16 + c) * 16 + d) else None
    case _ => None
  }

  /** The character an escape sequence after a `\` stands for, and how many characters it takes. */
  function Unescape(s: string): (r: Option<(char, nat)>)
    ensures r.Some? ==> 1 <= r.value.1 <= |s|
  {
    if s == [] then None
    else if s[0] == '"' || s[0] == '\\' || s[0] == '/' then Some((s[0], 1))
    else if s[0] == 'b' then Some(('\U{8}', 1))
    else if s[0] == 'f' then Some(('\U{C}', 1))
    else if s[0] == 'n' then Some(('\n', 1))
    else if s[0] == 'r' then Some(('\r', 1))
    else if s[0] == 't' then Some(('\t', 1))
    else if s[0] == 'u' && |s| >= 5 then
      match Hex4(s[1..5])
      case Some(v) => if 0xD800 <= v < 0xE000 then None else Some((v as char, 5))
      case None => None
    else None
  }

  /** `c` in front of the content read, if any. */
  function Prepend(c: char, r: Option<(string, string)>): Option<(string, string)>
  {
    match r
    case None => None
    case Some((t, rest)) => Some(([c] + t, rest))
  }

  /** The content of a string whose opening `"` has been read, and what follows its closing `"`. */
  function ReadString(s: string): (r: Option<(string, string)>)
    ensures r.Some? ==> |r.value.1| < |s|
    decreases |s|
  {
    if s == [] then None
    else if s[0] == '"' then Some(([], s[1..]))
    else if s[0] == '\\' then
      match Unescape(s[1..])
      case None => None
      case Some((c, n)) => Prepend(c, ReadString(s[1 + n..]))
    else if s[0] < ' ' then None
    else Prepend(s[0], ReadString(s[1..]))
  }

  // The object grammar, one function per place in a member: at its
  // opening `"`, after its key, at its value, after its value.

  /** Members from the `"` of a key on, up to the closing `}` and the end of the text. */
  function ReadMembers(s: string): Option<seq<Entry>>
    decreases |s|, 3
  {
    if s == [] || s[0] != '"' then None
    else match ReadString(s[1..])
      case None => None
      case Some((key, s1)) => AfterKey(key, s1)
  }

  function AfterKey(key: string, s: string): Option<seq<Entry>>
    decreases |s|, 2
  {
    var s1 := SkipWs(s);
    if s1 == [] || s1[0] != ':' then None else ReadValue(key, SkipWs(s1[1..]))
  }

  function ReadValue(key: string, s: string): Option<seq<Entry>>
    decreases |s|, 1
  {
    if s == [] || s[0] != '"' then None
    else match ReadString(s[1..])
      case None => None
      case Some((value, s1)) => AfterMember(Entry(key, value), SkipWs(s1))
  }

  /** After a member: `,` and further members, or `}` and nothing more. */
  function AfterMember(e: Entry, s: string): Option<seq<Entry>>
    decreases |s|, 0
  {
    if s == [] then None
    else if s[0] == ',' then
      match ReadMembers(SkipWs(s[1..]))
      case None => None
      case Some(rest) => Some([e] + rest)
    else if s[0] == '}' && SkipWs(s[1..]) == [] then Some([e])
    else None
  }

  /** A whole text holding one object whose member values are strings, in member order. */
  function ReadObject(s: string): Option<seq<Entry>>
  {
    var s1 := SkipWs(s);
    if s1 == [] || s1[0] != '{' then None
    else
      var s2 := SkipWs(s1[1..]);
      if s2 != [] && s2[0] == '}' then (if SkipWs(s2[1..]) == [] then Some([]) else None)
      else ReadMembers(s2)
  }

  // ---------------------------------------------------------------------
  // Reading back what is written

  lemma HexDigitValue(d: nat)
    requires d < 16
    ensures HexValue(HexDigit(d)) == Some(d)
  {
  }

  /** Reading the escape of `c` in front of string content gives `c` in front of that content. */
  lemma ReadEscapedChar(c: char, more: string)
    ensures ReadString(EscapeChar(c) + more) == Prepend(c, ReadString(more))
  {
    if c == '"' || c == '\\' {
      ReadTwoCharEscape(c, more);
    } else if c < ' ' {
      ReadControlEscape(c, more);
    } else {
      assert (EscapeChar(c) + more)[1..] == more;
    }
  }

  lemma ReadPlainChar(c: char, more: string)
    requires c != '"' && c != '\\' && c >= ' '
    ensures ReadString([c] + more) == Prepend(c, ReadString(more))
  {
    assert ([c] + more)[1..] == more;
  }

  lemma ReadTwoCharEscape(c: char, more: string)
    requires c == '"' || c == '\\'
    ensures ReadString(['\\', c] + more) == Prepend(c, ReadString(more))
  {
    var s := ['\\', c] + more;
    assert s[1..] == [c] + more;
    assert s[1 + 1..] == more;
  }

  lemma ReadControlEscape(c: char, more: string)
    requires c < ' '
    ensures ReadString(EscapeChar(c) + more) == Prepend(c, ReadString(more))
  {
    var hi, lo := c as int / 16, c as int % 16;
    var w := ['0', '0', HexDigit(hi), HexDigit(lo)];
    var u := ['u'] + (w + more);
    var s := ['\\'] + u;
    assert EscapeChar(c) + more == s;
    assert Hex4(w) == Some(c as int) by {
      HexDigitValue(hi);
      HexDigitValue(lo);
    }
    assert s[0] == '\\' && s[1..] == u;
    assert u[0] == 'u' && u[1..] == w + more;
    assert u[1..5] == w by {
      assert (w + more)[..4] == w;
    }
    assert (c as int) as char == c;
    assert Unescape(u) == Some((c, 5));
    assert s[1 + 5..] == more by {
      assert s[1 + 5..] == (w + more)[4..];
    }
  }

  /** Escaped content, its closing `"`, and what follows. */
  function Quoted(escape: string -> string, s: string, rest: string): string
  {
    escape(s) + (['"'] + rest)
  }

  lemma Assoc(a: string, b: string, c: string)
    ensures (a + b) + c == a + (b + c)
  {
  }

  /** Escaped content followed by a closing `"` reads back as the original string. */
  lemma {:induction false} ReadEscaped(s: string, rest: string)
    ensures ReadString(Quoted(EscapeJson, s, rest)) == Some((s, rest))
  {
    if s == [] {
      assert Quoted(EscapeJson, s, rest) == ['"'] + rest;
    } else {
      var more := Quoted(EscapeJson, s[1..], rest);
      ReadEscaped(s[1..], rest);
      ReadEscapedChar(s[0], more);
      Assoc(EscapeChar(s[0]), EscapeJson(s[1..]), ['"'] + rest);
      assert [s[0]] + s[1..] == s;
    }
  }

  lemma SkipWsOfWs(w: string, s: string)
    requires forall k :: 0 <= k < |w| ==> IsWs(w[k])
    ensures SkipWs(w + s) == SkipWs(s)
    decreases |w|
  {
    if w != [] {
      assert (w + s)[1..] == w[1..] + s;
      SkipWsOfWs(w[1..], s);
    } else {
      assert w + s == s;
    }
  }

  /** `"key"` and then `rest`, read from its opening `"`. */
  lemma ReadKey(key: string, k: string, rest: string)
    requires ReadString(k) == Some((key, rest))
    ensures ReadMembers(['"'] + k) == AfterKey(key, rest)
  {
    assert (['"'] + k)[1..] == k;
  }

  /** `: "value"` and then `rest`. */
  lemma ReadColonValue(key: string, value: string, v: string, rest: string)
    requires ReadString(v) == Some((value, rest))
    ensures AfterKey(key, [':', ' ', '"'] + v) == AfterMember(Entry(key, value), SkipWs(rest))
  {
    var x := ['"'] + v;
    var s := [':', ' ', '"'] + v;
    assert s == [':'] + ([' '] + x);
    assert SkipWs(s) == s;
    assert s[1..] == [' '] + x;
    SkipWsOfWs([' '], x);
    assert SkipWs(x) == x;
    assert x[1..] == v;
  }

  /** After a member that is not the last: a comma, a line break, more members. */
  lemma ReadComma(e: Entry, tail: string)
    ensures AfterMember(e, SkipWs([',', '\n'] + tail)) ==
      match ReadMembers(SkipWs(tail))
      case None => None
      case Some(rest) => Some([e] + rest)
  {
    var s := [',', '\n'] + tail;
    assert SkipWs(s) == s;
    assert s[1..] == ['\n'] + tail;
    SkipWsOfWs(['\n'], tail);
  }

  /** After the last member: a line break and the closing `}`. */
  lemma ReadClose(e: Entry)
    ensures AfterMember(e, SkipWs(['\n', '}'])) == Some([e])
  {
    SkipWsOfWs(['\n'], ['}']);
    assert SkipWs(['}']) == ['}'];
    assert ['}'][1..] == [];
  }

  /** A line, in the pieces the reader takes it apart into. */
  lemma LinePieces(e: Entry, escape: string -> string, last: bool, tail: string)
    ensures Line(e, escape, last) + tail ==
      [' ', ' '] + (['"'] + (escape(e.key) + (['"'] + ([':', ' ', '"'] + (escape(e.version) +
        (['"'] + ((if last then [] else [',']) + (['\n'] + tail))))))))
  {
    assert "  \"" == [' ', ' '] + ['"'];
    assert "\": \"" == ['"'] + [':', ' ', '"'];
  }

  /** What follows the value of a line: a comma unless it is the last, a line break, `tail`. */
  function AfterValue(last: bool, tail: string): string
  {
    (if last then [] else [',']) + (['\n'] + tail)
  }

  /** What follows the key of a line. */
  function AfterKeyText(e: Entry, escape: string -> string, last: bool, tail: string): string
  {
    [':', ' ', '"'] + (escape(e.version) + (['"'] + AfterValue(last, tail)))
  }

  /** A line whose key and value read back, followed by `tail`, reads as its member. */
  lemma ReadLine(e: Entry, escape: string -> string, last: bool, tail: string)
    requires ReadString(Quoted(escape, e.key, AfterKeyText(e, escape, last, tail))) ==
      Some((e.key, AfterKeyText(e, escape, last, tail)))
    requires ReadString(Quoted(escape, e.version, AfterValue(last, tail))) ==
      Some((e.version, AfterValue(last, tail)))
    ensures ReadMembers(SkipWs(Line(e, escape, last) + tail)) == AfterMember(e, SkipWs(AfterValue(last, tail)))
  {
    var afterKey := AfterKeyText(e, escape, last, tail);
    var member := ['"'] + (escape(e.key) + (['"'] + afterKey));
    LinePieces(e, escape, last, tail);
    assert Line(e, escape, last) + tail == [' ', ' '] + member;
    SkipWsOfWs([' ', ' '], member);
    assert SkipWs(member) == member;
    ReadKey(e.key, escape(e.key) + (['"'] + afterKey), afterKey);
    ReadColonValue(e.key, e.version, escape(e.version) + (['"'] + AfterValue(last, tail)), AfterValue(last, tail));
  }

  /** Escaped content followed by a closing `"` reads back as the original string. */
  ghost predicate ReadsBack(escape: string -> string)
  {
    forall s: string, rest: string {:trigger Quoted(escape, s, rest)} ::
      ReadString(Quoted(escape, s, rest)) == Some((s, rest))
  }

  lemma EscapeJsonReadsBack()
    ensures ReadsBack(EscapeJson)
  {
    forall s: string, rest: string ensures ReadString(Quoted(EscapeJson, s, rest)) == Some((s, rest)) {
      ReadEscaped(s, rest);
    }
  }

  /** A line whose key and value read back, then either the closing `}` or further members. */
  lemma ReadLineThen(e: Entry, escape: string -> string, last: bool, tail: string, more: seq<Entry>)
    requires ReadsBack(escape)
    requires last ==> tail == "}"
    requires !last ==> ReadMembers(SkipWs(tail)) == Some(more)
    ensures ReadMembers(SkipWs(Line(e, escape, last) + tail)) == Some([e] + (if last then [] else more))
  {
    var after := AfterValue(last, tail);
    assert ReadString(Quoted(escape, e.key, AfterKeyText(e, escape, last, tail))) ==
      Some((e.key, AfterKeyText(e, escape, last, tail)));
    assert ReadString(Quoted(escape, e.version, after)) == Some((e.version, after));
    ReadLine(e, escape, last, tail);
    if last {
      assert after == ['\n', '}'];
      ReadClose(e);
      assert [e] + [] == [e];
    } else {
      assert after == [',', '\n'] + tail;
      ReadComma(e, tail);
    }
  }

  /** The member lines from `i` on, then `}`, read back as the entries from `i` on. */
  lemma {:induction false} ReadLines(es: seq<Entry>, escape: string -> string, i: nat)
    requires ReadsBack(escape) && i < |es|
    ensures ReadMembers(SkipWs(LinesFrom(es, escape, i))) == Some(es[i..])
    decreases |es| - i
  {
    var last := i == |es| - 1;
    if !last {
      ReadLines(es, escape, i + 1);
    }
    ReadLineThen(es[i], escape, last, LinesFrom(es, escape, i + 1), es[i + 1..]);
    assert es[i..] == [es[i]] + es[i + 1..];
  }

  /** The member lines start, after their indentation, with the `"` of the first key. */
  lemma LinesStartWithKey(es: seq<Entry>, escape: string -> string)
    requires es != []
    ensures var s := SkipWs(LinesFrom(es, escape, 0)); s != [] && s[0] == '"'
  {
    var tail := LinesFrom(es, escape, 1);
    var member := ['"'] + (escape(es[0].key) + (['"'] + AfterKeyText(es[0], escape, |es| == 1, tail)));
    LinePieces(es[0], escape, |es| == 1, tail);
    assert LinesFrom(es, escape, 0) == [' ', ' '] + member;
    SkipWsOfWs([' ', ' '], member);
    assert SkipWs(member) == member;
  }

  /** The written text reads back as exactly the entries written, in order, when the escaping reads back. */
  lemma TextReadsBack(es: seq<Entry>, escape: string -> string)
    requires ReadsBack(escape)
    ensures ReadObject(JsonText(es, escape)) == Some(es)
  {
    var body := LinesFrom(es, escape, 0);
    var text := JsonText(es, escape);
    assert SkipWs(text[1..]) == SkipWs(body) && SkipWs(text) == text && text[0] == '{' by {
      assert text == ['{'] + (['\n'] + body);
      assert text[1..] == ['\n'] + body;
      SkipWsOfWs(['\n'], body);
    }
    if es == [] {
      assert body == ['}'];
      assert SkipWs(body) == body;
    } else {
      LinesStartWithKey(es, escape);
      ReadLines(es, escape, 0);
      assert es[0..] == es;
    }
  }

  /** With full JSON escaping the written text reads back as exactly the entries written, in order. */
  lemma JsonTextRoundTrip(es: seq<Entry>)
    ensures ReadObject(JsonText(es, EscapeJson)) == Some(es)
  {
    EscapeJsonReadsBack();
    TextReadsBack(es, EscapeJson);
  }

  // ---------------------------------------------------------------------
  // The escaping as written

  /**
   * Escaping only `"` does not read back: a key ending in `\` turns its
   * closing `"` into an escaped one, and the text written for it is not
   * JSON at all.
   */
  lemma BackslashKeyIsUnreadable()
    ensures ReadObject(JsonText([Entry(['\\'], ['1'])], EscapeQuotes)) == None
  {
    assert EscapeQuotes(['\\']) == ['\\'] && EscapeQuotes(['1']) == ['1'];
    assert JsonText([Entry(['\\'], ['1'])], EscapeQuotes) ==
      ['{', '\n', ' ', ' '] + (['"', '\\', '"', ':', ' ', '"'] + ['1', '"', '\n', '}']);
    UnreadableAfterBackslash(['1', '"', '\n', '}']);
  }

  /** An escaped quote does not close the key: the colon and the space after it become part of it. */
  lemma EscapedQuoteSwallowsColon(rest: string)
    ensures ReadString(['\\', '"', ':', ' ', '"'] + rest) == Some((['"', ':', ' '], rest))
  {
    assert ReadString(['"'] + rest) == Some(([], rest));
    ReadPlainChar(' ', ['"'] + rest);
    assert [' '] + (['"'] + rest) == [' ', '"'] + rest;
    assert [' '] + [] == [' '];
    assert ReadString([' ', '"'] + rest) == Some(([' '], rest));
    ReadPlainChar(':', [' ', '"'] + rest);
    assert [':'] + ([' ', '"'] + rest) == [':', ' ', '"'] + rest;
    assert [':'] + [' '] == [':', ' '];
    assert ReadString([':', ' ', '"'] + rest) == Some(([':', ' '], rest));
    ReadTwoCharEscape('"', [':', ' ', '"'] + rest);
    assert ['\\', '"'] + ([':', ' ', '"'] + rest) == ['\\', '"', ':', ' ', '"'] + rest;
    assert ['"'] + [':', ' '] == ['"', ':', ' '];
  }

  /** `{`, indentation, then a key `\"`: the escaped quote swallows the colon, and a `1` follows the key. */
  lemma UnreadableAfterBackslash(rest: string)
    requires rest != [] && rest[0] == '1'
    ensures ReadObject(['{', '\n', ' ', ' '] + (['"', '\\', '"', ':', ' ', '"'] + rest)) == None
  {
    var member := ['"', '\\', '"', ':', ' ', '"'] + rest;
    var text := ['{', '\n', ' ', ' '] + member;
    assert SkipWs(text) == text && SkipWs(text[1..]) == member by {
      assert text[1..] == ['\n', ' ', ' '] + member;
      SkipWsOfWs(['\n', ' ', ' '], member);
    }
    assert ReadMembers(member) == None by {
      EscapedQuoteSwallowsColon(rest);
      assert member[1..] == ['\\', '"', ':', ' ', '"'] + rest;
      assert SkipWs(rest) == rest;
    }
  }


  /** Text without `\` and control characters: the text escaping only `"` handles. */
  predicate Plain(s: string)
  {
    forall k :: 0 <= k < |s| ==> s[k] != '\\' && s[k] >= ' '
  }

  /** Without `\` and control characters, escaping only `"` is the full JSON escaping. */
  lemma {:induction false} EscapeQuotesOnPlainText(s: string)
    requires Plain(s)
    ensures EscapeQuotes(s) == EscapeJson(s)
  {
    if s != [] {
      assert Plain(s[1..]) by {
        forall k | 0 <= k < |s[1..]| ensures s[1..][k] != '\\' && s[1..][k] >= ' ' {
          assert s[1..][k] == s[k + 1];
        }
      }
      EscapeQuotesOnPlainText(s[1..]);
    }
  }

  /** On plain entries the member lines written with either escaping are the same text. */
  lemma {:induction false} PlainLinesAgree(es: seq<Entry>, i: nat)
    requires forall j :: 0 <= j < |es| ==> Plain(es[j].key) && Plain(es[j].version)
    ensures LinesFrom(es, EscapeQuotes, i) == LinesFrom(es, EscapeJson, i)
    decreases |es| - i
  {
    if i < |es| {
      EscapeQuotesOnPlainText(es[i].key);
      EscapeQuotesOnPlainText(es[i].version);
      PlainLinesAgree(es, i + 1);
    }
  }

  /** The file as the task writes it reads back when no key or version holds `\` or a control character. */
  lemma PlainTextReadsBack(es: seq<Entry>)
    requires forall j :: 0 <= j < |es| ==> Plain(es[j].key) && Plain(es[j].version)
    ensures ReadObject(JsonText(es, EscapeQuotes)) == Some(es)
  {
    PlainLinesAgree(es, 0);
    JsonTextRoundTrip(es);
  }
}
