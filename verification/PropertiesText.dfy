/** The text form of properties: what the lexer of magiconair/properties/lex.go makes of a text, what
    the parser of parser.go makes of its items, and what the printer of properties.go writes. */
module PropertiesText {
  const FF: char := '\U{000C}'

  // ---------- character classes

  predicate IsWhitespace(c: char) { c == ' ' || c == FF || c == '\t' }
  predicate IsEOL(c: char) { c == '\n' || c == '\r' }
  predicate IsComment(c: char) { c == '#' || c == '!' }
  predicate IsEndOfKey(c: char) { IsWhitespace(c) || IsEOL(c) || c == ':' || c == '=' }
  predicate IsEscapedCharacter(c: char) { c == ' ' || c == ':' || c == '=' || c == 'f' || c == 'n' || c == 'r' || c == 't' }
  predicate IsHex(c: char) { '0' <= c <= '9' || 'a' <= c <= 'f' || 'A' <= c <= 'F' }

  function DecodeEscapedCharacter(c: char): (r: char) {
    match c
    case 'f' => FF
    case 'n' => '\n'
    case 'r' => '\r'
    case 't' => '\t'
    case _ => c
  }

  function HexDigit(c: char): (d: nat)
    requires IsHex(c)
    ensures d < 16
  {
    if '0' <= c <= '9' then c as int - '0' as int
    else if 'a' <= c <= 'f' then c as int - 'a' as int + 10
    else c as int - 'A' as int + 10
  }

  /** The rune of four hexadecimal digits; a surrogate becomes the replacement character. */
  function HexRune(d: string): (r: char)
    requires |d| == 4 && forall i :: 0 <= i < 4 ==> IsHex(d[i])
  {
    var x := HexDigit(d[0]) * 0x1000 + HexDigit(d[1]) * 0x100 + HexDigit(d[2]) * 0x10 + HexDigit(d[3]);
    if 0xd800 <= x <= 0xdfff then '\U{fffd}' else x as char
  }

  // ---------- scanning

  /** Runes collected, and the text left. */
  datatype Scan = Scanned(runes: string, rest: string) | Invalid

  function Prepend(r: string, s: Scan): (t: Scan) {
    if s.Scanned? then Scanned(r + s.runes, s.rest) else Invalid
  }

  function SkipWhitespace(s: string): (t: string)
    ensures |t| <= |s|
  {
    if s != "" && IsWhitespace(s[0]) then SkipWhitespace(s[1..]) else s
  }

  /** The rune of an escape sequence; `s` starts behind the escape character. */
  function Escape(s: string): (r: Scan)
    ensures r.Scanned? ==> |r.runes| == 1 && |r.rest| < |s|
  {
    if s == "" then Invalid
    else if IsEscapedCharacter(s[0]) then Scanned([DecodeEscapedCharacter(s[0])], s[1..])
    else if s[0] == 'u' then
      if |s| >= 5 && (forall i :: 1 <= i < 5 ==> IsHex(s[i])) then Scanned([HexRune(s[1..5])], s[5..])
      else Invalid
    else Scanned([s[0]], s[1..])
  }

  /** A key, up to an unescaped delimiter. */
  function ScanKey(s: string): (r: Scan)
    ensures r.Scanned? ==> |r.rest| <= |s| && (r.rest != "" ==> IsEndOfKey(r.rest[0]))
    ensures r.Scanned? && r.runes == "" ==> r.rest == s
    decreases |s|
  {
    if s == "" then Scanned("", "")
    else if s[0] == '\\' then
      var e := Escape(s[1..]);
      if e.Invalid? then Invalid else Prepend(e.runes, ScanKey(e.rest))
    else if IsEndOfKey(s[0]) then Scanned("", s)
    else Prepend([s[0]], ScanKey(s[1..]))
  }

  /** A value, up to the end of a line; an escaped line end and the whitespace behind it are dropped. */
  function ScanValue(s: string): (r: Scan)
    ensures r.Scanned? ==> |r.rest| <= |s| && (r.rest != "" ==> IsEOL(r.rest[0]))
    decreases |s|
  {
    if s == "" then Scanned("", "")
    else if s[0] == '\\' then
      if |s| > 1 && IsEOL(s[1]) then ScanValue(SkipWhitespace(s[2..]))
      else
        var e := Escape(s[1..]);
        if e.Invalid? then Invalid else Prepend(e.runes, ScanValue(e.rest))
    else if IsEOL(s[0]) then Scanned("", s)
    else Prepend([s[0]], ScanValue(s[1..]))
  }

  function ScanComment(s: string): (r: Scan)
    ensures r.Scanned? && |r.rest| <= |s| && (r.rest != "" ==> IsEOL(r.rest[0]))
  {
    if s == "" || IsEOL(s[0]) then Scanned("", s) else Prepend([s[0]], ScanComment(s[1..]))
  }

  /** Behind the delimiter between key and value. */
  function AfterDelimiter(s: string): (t: string)
    ensures |t| <= |s|
  {
    var u := SkipWhitespace(s);
    SkipWhitespace(if u != "" && (u[0] == ':' || u[0] == '=') then u[1..] else u)
  }

  // ---------- items

  datatype Item = Error | EOF(val: string) | Key(val: string) | Value(val: string) | Comment(val: string)

  /** The items of a text, from where a key may begin. */
  function Lex(s: string): (items: seq<Item>)
    decreases |s|, 3
  {
    if s == "" then [EOF("")]
    else if IsEOL(s[0]) then Lex(s[1..])
    else if IsComment(s[0]) then LexComment(s[1..])
    else LexKey(if IsWhitespace(s[0]) then SkipWhitespace(s[1..]) else s)
  }

  function LexComment(s: string): (items: seq<Item>)
    decreases |s|, 4
  {
    var c := ScanComment(SkipWhitespace(s));
    if c.rest == "" then [EOF(c.runes)] else [Comment(c.runes)] + Lex(c.rest[1..])
  }

  function LexKey(s: string): (items: seq<Item>)
    decreases |s|, 2
  {
    var k := ScanKey(s);
    if k.Invalid? then [Error]
    else (if k.runes != "" then [Key(k.runes)] else []) + if k.rest == "" then [EOF("")] else LexBeforeValue(k.rest)
  }

  function LexBeforeValue(s: string): (items: seq<Item>)
    decreases |s|, 1
  {
    LexValue(AfterDelimiter(s))
  }

  function LexValue(s: string): (items: seq<Item>)
    decreases |s|, 0
  {
    var v := ScanValue(s);
    if v.Invalid? then [Error]
    else [Value(v.runes)] + if v.rest == "" then [EOF("")] else Lex(v.rest[1..])
  }

  // ---------- parsing

  /** Keys in order of appearance, their values, and their comments. */
  datatype Properties = Properties(k: seq<string>, m: map<string, string>, c: map<string, seq<string>>)

  datatype Result<+T> = Ok(value: T) | Err

  function NoProperties(): (p: Properties) {
    Properties([], map[], map[])
  }

  /** One entry taken up: the key is listed when it is new, and pending comments become its own. */
  function WithEntry(p: Properties, comments: seq<string>, key: string, value: string): (r: Properties) {
    Properties(if key in p.m then p.k else p.k + [key], p.m[key := value],
               if comments == [] then p.c else p.c[key := comments])
  }

  /** The parser, from where a key is expected; `comments` wait for the next key. */
  function ParseItems(items: seq<Item>, p: Properties, comments: seq<string>): (r: Result<Properties>)
    decreases |items|
  {
    if items == [] then Err
    else match items[0]
      case EOF(_) => Ok(p)
      case Comment(c) => ParseItems(items[1..], p, comments + [c])
      case Key(key) =>
        if |items| < 2 then Err
        else (match items[1]
              case EOF(_) => Ok(WithEntry(p, comments, key, ""))
              case Value(v) => ParseItems(items[2..], WithEntry(p, comments, key, v), [])
              case _ => Err)
      case _ => Err
  }

  function Parse(text: string): (r: Result<Properties>) {
    ParseItems(Lex(text), NoProperties(), [])
  }

  // ---------- printing

  function EscapeRune(r: char, special: string): (s: string)
    ensures 1 <= |s| <= 2
  {
    if r == FF then "\\f"
    else if r == '\n' then "\\n"
    else if r == '\r' then "\\r"
    else if r == '\t' then "\\t"
    else if r in special then ['\\', r]
    else [r]
  }

  function Encode(s: string, special: string): (t: string) {
    if s == "" then "" else EscapeRune(s[0], special) + Encode(s[1..], special)
  }

  const KEY_SPECIAL: string := " :"

  function Line(key: string, value: string): (t: string) {
    Encode(key, KEY_SPECIAL) + " = " + Encode(value, "") + "\n"
  }

  /** What Write puts out for the keys `ks`: one line each. */
  function Print(ks: seq<string>, m: map<string, string>): (t: string) {
    if ks == [] then "" else Line(ks[0], if ks[0] in m then m[ks[0]] else "") + Print(ks[1..], m)
  }
}
