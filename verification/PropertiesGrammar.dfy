/** The text format of properties as a grammar: every way of writing a key, a value, a delimiter and a
    comment, and what the lexer makes of it. The character classes are spelt out here. */
module PropertiesGrammar {
  import opened Common
  import opened PropertiesText

  // ---------- pieces of text

  /** A rune as itself, behind an escape character, by its number in hexadecimal (each digit in either
      case), or an escaped line end with the indentation of the line it continues in. */
  datatype Piece =
    | Raw(c: char)
    | Escaped(c: char)
    | Number(x: nat, upper: seq<bool>)
    | Continued(eol: char, indent: string)

  predicate Blank(s: string) {
    forall i :: 0 <= i < |s| ==> s[i] in " \t\U{000C}"
  }

  const LOWER: string := "0123456789abcdef"
  const UPPER: string := "0123456789ABCDEF"

  function HexChar(d: nat, upper: bool): (c: char)
    requires d < 16
  {
    if upper then UPPER[d] else LOWER[d]
  }

  predicate WellFormed(p: Piece) {
    match p
    case Raw(c) => c !in "\\\n\r"
    case Escaped(c) => c != 'u'
    case Number(x, upper) => x < 0x1_0000 && |upper| == 4
    case Continued(eol, indent) => eol in "\n\r" && Blank(indent)
  }

  function Text(p: Piece): (s: string)
    requires WellFormed(p)
    ensures s != ""
  {
    match p
    case Raw(c) => [c]
    case Escaped(c) => ['\\', c]
    case Number(x, u) =>
      ['\\', 'u', HexChar(x / 0x1000, u[0]), HexChar(x / 0x100 % 0x10, u[1]), HexChar(x / 0x10 % 0x10, u[2]), HexChar(x % 0x10, u[3])]
    case Continued(eol, indent) => ['\\', eol] + indent
  }

  /** What a piece stands for; a surrogate's number stands for the replacement character. */
  function Meaning(p: Piece): (s: string)
    requires WellFormed(p)
  {
    match p
    case Raw(c) => [c]
    case Escaped(c) => [if c == 'f' then '\U{000C}' else if c == 'n' then '\n' else if c == 'r' then '\r' else if c == 't' then '\t' else c]
    case Number(x, _) => [if 0xd800 <= x <= 0xdfff then '\U{FFFD}' else x as char]
    case Continued(_, _) => ""
  }

  /** A piece of a key: delimiters are escaped, and lines are not continued. */
  predicate InKey(p: Piece) {
    WellFormed(p) && !p.Continued? && (p.Raw? ==> p.c !in " \t\U{000C}:=")
  }

  /** A piece of a value: line ends are numbered or continued, not escaped. */
  predicate InValue(p: Piece) {
    WellFormed(p) && (p.Escaped? ==> p.c !in "\n\r")
  }

  ghost predicate KeyPieces(ps: seq<Piece>) {
    forall i :: 0 <= i < |ps| ==> InKey(ps[i])
  }

  predicate StartsBlank(s: string) {
    s != "" && s[0] in " \t\U{000C}"
  }

  /** Pieces of a value; the indentation of a continued line is all of its leading whitespace. */
  predicate ValuePieces(ps: seq<Piece>) {
    ps == [] ||
    (InValue(ps[0]) && ValuePieces(ps[1..]) && (ps[0].Continued? ==> !StartsBlank(Texts(ps[1..]))))
  }

  function Texts(ps: seq<Piece>): (s: string) {
    if ps == [] then "" else (if WellFormed(ps[0]) then Text(ps[0]) else "") + Texts(ps[1..])
  }

  function Meanings(ps: seq<Piece>): (s: string) {
    if ps == [] then "" else (if WellFormed(ps[0]) then Meaning(ps[0]) else "") + Meanings(ps[1..])
  }

  // ---------- reading pieces

  lemma HexCharReads(d: nat, upper: bool)
    requires d < 16
    ensures IsHex(HexChar(d, upper)) && HexDigit(HexChar(d, upper)) == d
  {}

  lemma NumberReads(x: nat, u: seq<bool>, t: string)
    requires WellFormed(Number(x, u))
    ensures Escape(Text(Number(x, u))[1..] + t) == Scanned(Meaning(Number(x, u)), t)
  {
    hide HexChar, HexDigit, IsHex;
    HexCharReads(x / 0x1000, u[0]);
    HexCharReads(x / 0x100 % 0x10, u[1]);
    HexCharReads(x / 0x10 % 0x10, u[2]);
    HexCharReads(x % 0x10, u[3]);
    var s := Text(Number(x, u))[1..] + t;
    var d := Text(Number(x, u))[2..];
    assert s[0] == 'u' && s[1..5] == d && s[5..] == t;
    assert forall i :: 1 <= i < 5 ==> s[i] == d[i - 1];
    HexRuneOf(d, x);
  }

  lemma HexRuneOf(d: string, x: nat)
    requires |d| == 4 && (forall i :: 0 <= i < 4 ==> IsHex(d[i])) && x < 0x1_0000
    requires HexDigit(d[0]) == x / 0x1000 && HexDigit(d[1]) == x / 0x100 % 0x10
    requires HexDigit(d[2]) == x / 0x10 % 0x10 && HexDigit(d[3]) == x % 0x10
    ensures HexRune(d) == if 0xd800 <= x <= 0xdfff then '\U{FFFD}' else x as char
  {
    hide HexDigit, IsHex;
    FourDigits(x);
  }

  lemma FourDigits(x: nat)
    ensures x / 0x1000 * 0x1000 + x / 0x100 % 0x10 * 0x100 + x / 0x10 % 0x10 * 0x10 + x % 0x10 == x
  {
    var a := x / 0x10;
    var b := a / 0x10;
    assert b == x / 0x100 && b / 0x10 == x / 0x1000;
  }

  /** An escape sequence that is no number. */
  lemma EscapedReads(c: char, t: string)
    requires c != 'u'
    ensures Escape([c] + t) == Scanned(Meaning(Escaped(c)), t)
  {
    assert ([c] + t)[1..] == t;
  }

  lemma EscapeReads(p: Piece, t: string)
    requires WellFormed(p) && (p.Escaped? || p.Number?)
    ensures Text(p)[0] == '\\' && Escape(Text(p)[1..] + t) == Scanned(Meaning(p), t)
  {
    hide Escape;
    if p.Escaped? {
      assert Text(p)[1..] == [p.c];
      EscapedReads(p.c, t);
    } else {
      NumberReads(p.x, p.upper, t);
    }
  }

  /** The text of the first piece, and then of the others. */
  lemma TextsCons(ps: seq<Piece>, t: string)
    requires ps != [] && WellFormed(ps[0])
    ensures Texts(ps) + t == Text(ps[0]) + (Texts(ps[1..]) + t)
    ensures Texts(ps) + t == [Text(ps[0])[0]] + (Text(ps[0])[1..] + (Texts(ps[1..]) + t))
  {
    hide Text;
  }

  lemma KeyPieceReads(p: Piece, u: string)
    requires InKey(p)
    ensures ScanKey(Text(p) + u) == Prepend(Meaning(p), ScanKey(u))
  {
    hide Escape, Text, Meaning, Prepend;
    var s := Text(p) + u;
    assert s[1..] == Text(p)[1..] + u;
    if p.Raw? {
      RawText(p.c);
      assert s[1..] == u;
    } else {
      EscapeReads(p, u);
    }
  }

  /** Every spelling of a key is read as the key it means, up to a delimiter, a line end or the end. */
  lemma {:induction false} KeyReads(ps: seq<Piece>, t: string)
    requires KeyPieces(ps) && (t == "" || t[0] in " \t\U{000C}\n\r:=")
    ensures ScanKey(Texts(ps) + t) == Scanned(Meanings(ps), t)
    decreases |ps|
  {
    hide Text, Meaning;
    if ps == [] {
      assert Texts(ps) + t == t;
    } else {
      hide ScanKey;
      assert InKey(ps[0]);
      TextsCons(ps, t);
      KeyReads(ps[1..], t);
      KeyPieceReads(ps[0], Texts(ps[1..]) + t);
    }
  }

  lemma RawText(c: char)
    requires WellFormed(Raw(c))
    ensures Text(Raw(c)) == [c] && Text(Raw(c))[1..] == "" && Meaning(Raw(c)) == [c]
  {}

  lemma {:induction false} BlankSkipped(ws: string, t: string)
    requires Blank(ws) && !StartsBlank(t)
    ensures SkipWhitespace(ws + t) == t
    decreases |ws|
  {
    if ws == "" {
      assert ws + t == t;
    } else {
      assert (ws + t)[1..] == ws[1..] + t;
      assert Blank(ws[1..]);
      BlankSkipped(ws[1..], t);
    }
  }

  lemma ValuePieceReads(p: Piece, u: string)
    requires InValue(p) && (p.Continued? ==> !StartsBlank(u))
    ensures ScanValue(Text(p) + u) == Prepend(Meaning(p), ScanValue(u))
  {
    hide Escape, Text, Meaning, SkipWhitespace, StartsBlank;
    var s := Text(p) + u;
    assert s[1..] == Text(p)[1..] + u;
    if p.Raw? {
      RawText(p.c);
      assert s[1..] == u;
    } else if p.Continued? {
      ContinuedText(p, u);
      BlankSkipped(p.indent, u);
      assert |s| > 1 && IsEOL(s[1]) && SkipWhitespace(s[2..]) == u;
      PrependNothing(ScanValue(u));
    } else {
      EscapeReads(p, u);
      NotALineEnd(p);
      assert s[1] == Text(p)[1];
    }
  }

  lemma PrependNothing(s: Scan)
    ensures Prepend("", s) == s
  {}

  /** Every spelling of a value is read as the value it means, up to a line end or the end. */
  lemma {:induction false} ValueReads(ps: seq<Piece>, t: string)
    requires ValuePieces(ps) && (t == "" || t[0] in "\n\r")
    ensures ScanValue(Texts(ps) + t) == Scanned(Meanings(ps), t)
    decreases |ps|
  {
    hide Text, Meaning, SkipWhitespace;
    if ps == [] {
      assert Texts(ps) + t == t;
    } else {
      hide ScanValue;
      TextsCons(ps, t);
      ValueReads(ps[1..], t);
      assert StartsBlank(Texts(ps[1..]) + t) ==> StartsBlank(Texts(ps[1..]));
      ValuePieceReads(ps[0], Texts(ps[1..]) + t);
    }
  }

  lemma ContinuedText(p: Piece, u: string)
    requires WellFormed(p) && p.Continued?
    ensures var s := Text(p) + u; |s| >= 2 && s[0] == '\\' && IsEOL(s[1]) && s[2..] == p.indent + u && Meaning(p) == ""
  {}

  lemma NotALineEnd(p: Piece)
    requires InValue(p) && (p.Escaped? || p.Number?)
    ensures |Text(p)| >= 2 && Text(p)[1] !in "\n\r"
  {}

  // ---------- lines

  /** What may stand between key and value: whitespace, at most one ':' or '=', whitespace. */
  datatype Separator = Separator(before: string, sign: string, behind: string) {
    function Full(): (s: string) {
      before + sign + behind
    }
  }

  /** The separator is read as such: the value does not start with whitespace, nor with a sign when there
      is none yet; and there is one unless the value is empty. */
  ghost predicate Separates(sep: Separator, value: string) {
    && Blank(sep.before) && Blank(sep.behind) && sep.sign in ["", ":", "="]
    && !StartsBlank(value)
    && (sep.sign == "" ==> value == "" || (value[0] !in ":=" && sep.before + sep.behind != ""))
  }

  lemma BlankAppend(a: string, b: string)
    requires Blank(a) && Blank(b)
    ensures Blank(a + b)
  {}

  lemma SeparatorReads(sep: Separator, v: string, t: string)
    requires Separates(sep, v) && (t == "" || t[0] in "\n\r")
    ensures AfterDelimiter(sep.Full() + (v + t)) == v + t
    ensures var s := sep.Full() + (v + t); s == "" || s[0] in " \t\U{000C}\n\r:="
  {
    hide SkipWhitespace, AfterDelimiter;
    assert v == "" ==> v + t == t;
    if sep.sign == "" {
      BlankAppend(sep.before, sep.behind);
      assert sep.Full() == sep.before + sep.behind;
      BlankSeparator(sep.before + sep.behind, v + t);
    } else {
      assert sep.Full() + (v + t) == sep.before + (sep.sign + (sep.behind + (v + t)));
      SignSeparator(sep.before, sep.sign, sep.behind, v + t);
    }
  }

  lemma BlankSeparator(ws: string, u: string)
    requires Blank(ws) && !StartsBlank(u) && (u == "" || u[0] !in ":=")
    ensures AfterDelimiter(ws + u) == u && (ws != "" ==> (ws + u)[0] in " \t\U{000C}")
  {
    hide SkipWhitespace;
    BlankSkipped(ws, u);
    BlankSkipped("", u);
    assert "" + u == u;
  }

  lemma SignSeparator(before: string, sign: string, behind: string, u: string)
    requires Blank(before) && Blank(behind) && sign in [":", "="] && !StartsBlank(u)
    ensures var s := before + (sign + (behind + u)); AfterDelimiter(s) == u && s[0] in " \t\U{000C}:="
  {
    hide SkipWhitespace;
    var w := sign + (behind + u);
    assert w[0] == sign[0] && w[1..] == behind + u;
    BlankSkipped(before, w);
    BlankSkipped(behind, u);
    assert before == "" ==> before + w == w;
  }

  /** A line is read as its key and its value, however they are written and separated. A key that starts
      the line does not start with a comment character. */
  lemma LineReads(indent: string, key: seq<Piece>, sep: Separator, value: seq<Piece>, eol: char, rest: string)
    requires Blank(indent) && key != [] && KeyPieces(key) && ValuePieces(value) && eol in "\n\r"
    requires Separates(sep, Texts(value))
    requires indent == "" && key[0].Raw? ==> key[0].c !in "#!"
    ensures Lex(indent + (Texts(key) + (sep.Full() + (Texts(value) + ([eol] + rest))))) ==
      [Key(Meanings(key)), Value(Meanings(value))] + Lex(rest)
  {
    hide ScanKey, ScanValue, SkipWhitespace, Meanings, AfterDelimiter, Texts, Lex, LexKey, Separates, KeyPieces, ValuePieces, Blank;
    var end := [eol] + rest;
    var s := sep.Full() + (Texts(value) + end);
    SeparatorReads(sep, Texts(value), end);
    KeyReads(key, s);
    ValueReads(value, end);
    KeyMeans(key);
    assert end[1..] == rest && |s| >= |end|;
    ItemsOfLine(Texts(key) + s, Meanings(key), s, Meanings(value), end);
    LineStarts(indent, key, s);
  }

  lemma ItemsOfLine(line: string, key: string, s: string, value: string, end: string)
    requires key != "" && s != "" && end != ""
    requires ScanKey(line) == Scanned(key, s) && ScanValue(AfterDelimiter(s)) == Scanned(value, end)
    ensures LexKey(line) == [Key(key), Value(value)] + Lex(end[1..])
  {
    hide ScanKey, ScanValue, AfterDelimiter, Lex;
    assert LexValue(AfterDelimiter(s)) == [Value(value)] + Lex(end[1..]);
    assert LexKey(line) == [Key(key)] + LexBeforeValue(s);
    assert [Key(key)] + ([Value(value)] + Lex(end[1..])) == [Key(key), Value(value)] + Lex(end[1..]);
  }

  /** The last line may lack its line end; a key alone there has no value item. */
  lemma LastLineReads(indent: string, key: seq<Piece>, sep: Separator, value: seq<Piece>)
    requires Blank(indent) && key != [] && KeyPieces(key) && ValuePieces(value)
    requires Separates(sep, Texts(value))
    requires indent == "" && key[0].Raw? ==> key[0].c !in "#!"
    ensures var s := sep.Full() + Texts(value);
      Lex(indent + (Texts(key) + s)) ==
      if s == "" then [Key(Meanings(key)), EOF("")] else [Key(Meanings(key)), Value(Meanings(value)), EOF("")]
  {
    hide ScanKey, ScanValue, SkipWhitespace, Meanings, AfterDelimiter, Texts, Lex, LexKey, Separates, KeyPieces, ValuePieces, Blank;
    var s := sep.Full() + Texts(value);
    assert Texts(value) + "" == Texts(value);
    SeparatorReads(sep, Texts(value), "");
    KeyReads(key, s);
    ValueReads(value, "");
    KeyMeans(key);
    ItemsOfLastLine(Texts(key) + s, Meanings(key), s, Meanings(value));
    LineStarts(indent, key, s);
  }

  lemma ItemsOfLastLine(line: string, key: string, s: string, value: string)
    requires key != "" && ScanKey(line) == Scanned(key, s)
    requires s != "" ==> ScanValue(AfterDelimiter(s)) == Scanned(value, "")
    ensures LexKey(line) == if s == "" then [Key(key), EOF("")] else [Key(key), Value(value), EOF("")]
  {
    hide ScanKey, ScanValue, AfterDelimiter, Lex;
    if s != "" {
      assert LexValue(AfterDelimiter(s)) == [Value(value)] + [EOF("")];
      assert LexKey(line) == [Key(key)] + LexBeforeValue(s);
    }
  }

  lemma KeyMeans(key: seq<Piece>)
    requires key != [] && KeyPieces(key)
    ensures Meanings(key) != ""
  {
    assert InKey(key[0]);
  }

  /** Behind its indentation a line is read as a key. */
  lemma LineStarts(indent: string, key: seq<Piece>, s: string)
    requires Blank(indent) && key != [] && KeyPieces(key)
    requires indent == "" && key[0].Raw? ==> key[0].c !in "#!"
    ensures Lex(indent + (Texts(key) + s)) == LexKey(Texts(key) + s)
  {
    hide LexKey, LexComment, SkipWhitespace, Text, Texts, Meaning;
    assert InKey(key[0]);
    TextsCons(key, s);
    FirstOfPiece(key[0]);
    var line := Texts(key) + s;
    if indent == "" {
      assert indent + line == line;
    } else {
      assert (indent + line)[1..] == indent[1..] + line;
      assert Blank(indent[1..]);
      BlankSkipped(indent[1..], line);
    }
  }

  lemma FirstOfPiece(p: Piece)
    requires InKey(p)
    ensures Text(p)[0] !in " \t\U{000C}\n\r" && (Text(p)[0] in "#!" ==> p.Raw? && p.c in "#!")
  {}

  /** A comment: '#' or '!' in front, leading whitespace dropped, up to the line end. */
  lemma CommentReads(mark: char, indent: string, text: string, eol: char, rest: string)
    requires mark in "#!" && Blank(indent) && !StartsBlank(text) && eol in "\n\r"
    requires forall i :: 0 <= i < |text| ==> text[i] !in "\n\r"
    ensures Lex([mark] + (indent + (text + ([eol] + rest)))) == [Comment(text)] + Lex(rest)
  {
    hide ScanComment, SkipWhitespace, Lex;
    var end := [eol] + rest;
    var s := [mark] + (indent + (text + end));
    assert s[1..] == indent + (text + end) && end[1..] == rest;
    assert !StartsBlank(text + end) by {
      assert text == "" ==> text + end == end;
    }
    BlankSkipped(indent, text + end);
    CommentText(text, end);
    LexMarked(s);
  }

  /** A comment that the text ends in is not an item of its own: its text comes with the end. */
  lemma LastCommentReads(mark: char, indent: string, text: string)
    requires mark in "#!" && Blank(indent) && !StartsBlank(text)
    requires forall i :: 0 <= i < |text| ==> text[i] !in "\n\r"
    ensures Lex([mark] + (indent + text)) == [EOF(text)]
  {
    hide ScanComment, SkipWhitespace, Lex;
    var s := [mark] + (indent + text);
    assert s[1..] == indent + text && text + "" == text;
    BlankSkipped(indent, text);
    CommentText(text, "");
    LexMarked(s);
  }

  lemma LexMarked(s: string)
    requires s != "" && s[0] in "#!"
    ensures Lex(s) == LexComment(s[1..])
  {}

  lemma {:induction false} CommentText(text: string, end: string)
    requires (end == "" || end[0] in "\n\r") && forall i :: 0 <= i < |text| ==> text[i] !in "\n\r"
    ensures ScanComment(text + end) == Scanned(text, end)
    decreases |text|
  {
    if text == "" {
      assert text + end == end;
    } else {
      assert (text + end)[1..] == text[1..] + end;
      CommentText(text[1..], end);
    }
  }

  /** Line ends between lines say nothing; a line of whitespace is a value without a key. */
  lemma EmptyLines(ws: string, eol: char, rest: string)
    requires Blank(ws) && eol in "\n\r"
    ensures Lex([eol] + rest) == Lex(rest)
    ensures ws != "" ==> Lex(ws + ([eol] + rest)) == [Value("")] + Lex(rest)
  {
    hide SkipWhitespace, LexKey;
    var end := [eol] + rest;
    assert end[1..] == rest;
    if ws != "" {
      var s := ws + end;
      assert s[1..] == ws[1..] + end;
      assert Blank(ws[1..]);
      BlankSkipped(ws[1..], end);
      NoKeyNoValue(end);
    }
  }

  lemma NoKeyNoValue(end: string)
    requires end != "" && end[0] in "\n\r"
    ensures LexKey(end) == [Value("")] + Lex(end[1..])
  {
    hide Lex;
    assert ScanKey(end) == Scanned("", end);
    assert AfterDelimiter(end) == end && ScanValue(end) == Scanned("", end);
    assert LexKey(end) == [] + LexBeforeValue(end) == LexValue(end);
  }

  /** An escape sequence that stops short is an error, in a key and in a value. */
  lemma BadEscape(ps: seq<Piece>, bad: string)
    requires bad == "" || (bad[0] == 'u' && (|bad| < 5 || exists i :: 1 <= i < 5 && bad[i] !in "0123456789abcdefABCDEF"))
    ensures KeyPieces(ps) ==> ScanKey(Texts(ps) + ("\\" + bad)) == Invalid
    ensures ValuePieces(ps) ==> ScanValue(Texts(ps) + ("\\" + bad)) == Invalid
  {
    assert Escape(bad) == Invalid by {
      if bad != "" && |bad| >= 5 {
        var i :| 1 <= i < 5 && bad[i] !in "0123456789abcdefABCDEF";
        NotHex(bad[i]);
      }
    }
    if KeyPieces(ps) {
      BadEscapeInKey(ps, bad);
    }
    if ValuePieces(ps) {
      BadEscapeInValue(ps, bad);
    }
  }

  lemma NotHex(c: char)
    ensures c !in "0123456789abcdefABCDEF" ==> !IsHex(c)
  {}

  lemma {:induction false} BadEscapeInKey(ps: seq<Piece>, bad: string)
    requires Escape(bad) == Invalid && KeyPieces(ps)
    ensures ScanKey(Texts(ps) + ("\\" + bad)) == Invalid
    decreases |ps|
  {
    hide Escape, Text, Meaning;
    var t := "\\" + bad;
    assert t[1..] == bad;
    if ps == [] {
      assert Texts(ps) + t == t;
    } else {
      assert InKey(ps[0]);
      TextsCons(ps, t);
      BadEscapeInKey(ps[1..], bad);
      KeyPieceReads(ps[0], Texts(ps[1..]) + t);
    }
  }

  lemma {:induction false} BadEscapeInValue(ps: seq<Piece>, bad: string)
    requires Escape(bad) == Invalid && ValuePieces(ps) && (bad == "" || bad[0] == 'u')
    ensures ScanValue(Texts(ps) + ("\\" + bad)) == Invalid
    decreases |ps|
  {
    hide Escape, Text, Meaning, SkipWhitespace;
    var t := "\\" + bad;
    assert t[1..] == bad;
    if ps == [] {
      assert Texts(ps) + t == t;
      assert |t| > 1 ==> t[1] == bad[0];
    } else {
      TextsCons(ps, t);
      BadEscapeInValue(ps[1..], bad);
      assert StartsBlank(Texts(ps[1..]) + t) ==> StartsBlank(Texts(ps[1..]));
      ValuePieceReads(ps[0], Texts(ps[1..]) + t);
    }
  }
}
