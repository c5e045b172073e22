/** The lexer, parser and printer as they work: a lexer that moves through the text and collects runes
    and items, a parser loop over the items, and a printer that appends line by line. */
module PropertiesLexer {
  import opened Common
  import opened PropertiesText
  import opened PropertiesRoundTrip
  import opened PropertiesExact

  const WHITESPACE: string := [' ', FF, '\t']
  const DELIMITERS: string := ":="
  const HEX: string := "0123456789abcdefABCDEF"

  /** The state functions; Stop is the nil function. */
  datatype StateFn = BeforeKey | InComment | InKey | BeforeValue | InValue | Stop

  /** The items still to come from a state. */
  ghost function ItemsFrom(state: StateFn, s: string): (items: seq<Item>) {
    match state
    case BeforeKey => Lex(s)
    case InComment => LexComment(s)
    case InKey => LexKey(s)
    case BeforeValue => LexBeforeValue(s)
    case InValue => LexValue(s)
    case Stop => []
  }

  function Rank(state: StateFn): (n: nat) {
    match state
    case BeforeKey => 4
    case InComment => 3
    case InKey => 2
    case BeforeValue => 1
    case InValue => 0
    case Stop => 0
  }

  class Lexer {
    const input: string
    var pos: nat
    var width: nat
    var runes: string
    var items: seq<Item>

    ghost predicate Valid()
      reads this
    {
      pos <= |input|
    }

    ghost function Rest(): (s: string)
      requires Valid()
      reads this
    {
      input[pos..]
    }

    constructor (input: string)
      ensures Valid() && Rest() == input && runes == "" && items == [] && this.input == input
    {
      this.input := input;
      pos, width, runes, items := 0, 0, "", [];
    }

    /** The next rune, or none at the end. */
    method Next() returns (r: Option<char>)
      requires Valid()
      modifies `pos, `width
      ensures Valid() && width <= pos
      ensures old(Rest()) == "" ==> r == None && Rest() == "" && width == 0
      ensures old(Rest()) != "" ==> r == Some(old(Rest())[0]) && Rest() == old(Rest())[1..] && width == 1
      ensures pos - width == old(pos) && (r.Some? ==> input[pos - 1] == r.value)
    {
      if pos >= |input| {
        width := 0;
        return None;
      }
      r := Some(input[pos]);
      width := 1;
      pos := pos + width;
    }

    /** Steps back one rune. */
    method Backup()
      requires Valid() && width <= pos
      modifies `pos
      ensures Valid() && pos == old(pos - width)
    {
      pos := pos - width;
    }

    method Peek() returns (r: Option<char>)
      requires Valid()
      modifies `pos, `width
      ensures Valid() && Rest() == old(Rest())
      ensures r == if Rest() == "" then None else Some(Rest()[0])
    {
      r := Next();
      Backup();
    }

    /** Consumes one rune if it is of the valid set. */
    method Accept(valid: string)
      requires Valid()
      modifies `pos, `width
      ensures Valid()
      ensures Rest() == if old(Rest()) != "" && old(Rest())[0] in valid then old(Rest())[1..] else old(Rest())
    {
      var r := Next();
      if r.Some? && r.value in valid { return; }
      Backup();
    }

    /** Consumes the longest run of runes of the valid set. */
    method AcceptRun(valid: string)
      requires Valid()
      modifies `pos, `width
      ensures Valid() && IsRun(valid, old(Rest()), Rest())
      ensures valid == WHITESPACE ==> Rest() == SkipWhitespace(old(Rest()))
    {
      hide SkipWhitespace, IsRun;
      var r := Next();
      while r.Some? && r.value in valid
        invariant Valid() && old(pos) <= pos - width
        invariant forall i :: old(pos) <= i < pos - width ==> input[i] in valid
        invariant if r.Some? then width == 1 && input[pos - 1] == r.value else width == 0 && pos == |input|
        decreases |input| - pos, r.Some?
      {
        r := Next();
      }
      Backup();
      RunBetween(valid, input, old(pos), pos);
      if valid == WHITESPACE {
        WhitespaceRun(old(Rest()), Rest());
      }
    }

    method Emit(item: Item)
      modifies `items, `runes
      ensures items == old(items) + [item] && runes == ""
    {
      items := items + [item];
      runes := "";
    }

    method AppendRune(r: char)
      modifies `runes
      ensures runes == old(runes) + [r]
    {
      runes := runes + [r];
    }

    /** An escape sequence; the escape character has been read. */
    method ScanEscapeSequence() returns (ok: bool)
      requires Valid()
      modifies `pos, `width, `runes
      ensures Valid()
      ensures ok <==> Escape(old(Rest())).Scanned?
      ensures ok ==> Rest() == Escape(old(Rest())).rest && runes == old(runes) + Escape(old(Rest())).runes
    {
      var r := Next();
      if r.None? { return false; }
      if IsEscapedCharacter(r.value) {
        AppendRune(DecodeEscapedCharacter(r.value));
        return true;
      }
      if r.value == 'u' {
        ok := ScanUnicodeLiteral();
        return;
      }
      AppendRune(r.value);
      return true;
    }

    /** Four hexadecimal digits; the "u" has been read. */
    method ScanUnicodeLiteral() returns (ok: bool)
      requires Valid()
      modifies `pos, `width, `runes
      ensures Valid()
      ensures ok <==> |old(Rest())| >= 4 && forall i :: 0 <= i < 4 ==> IsHex(old(Rest())[i])
      ensures ok ==> Rest() == old(Rest())[4..] && runes == old(runes) + [HexRune(old(Rest())[..4])]
    {
      ghost var s := Rest();
      var d := "";
      for i := 0 to 4
        invariant Valid() && |s| >= i && Rest() == s[i..] && d == s[..i] && runes == old(runes)
        invariant forall j :: 0 <= j < i ==> IsHex(s[j])
      {
        var r := Next();
        if r.None? || r.value !in HEX {
          HexIsHex(if r.Some? then r.value else ' ');
          return false;
        }
        HexIsHex(r.value);
        d := d + [r.value];
      }
      AppendRune(HexRune(d));
      return true;
    }

    /** Scans until a key begins. */
    method LexBeforeKey() returns (next: StateFn)
      requires Valid() && runes == ""
      modifies this
      ensures Valid() && runes == ""
      ensures items + ItemsFrom(next, Rest()) == old(items) + Lex(old(Rest()))
      ensures next.Stop? || |Rest()| < |old(Rest())| || (|Rest()| == |old(Rest())| && Rank(next) < Rank(BeforeKey))
    {
      hide LexComment, LexKey, SkipWhitespace, IsRun;
      var r := Next();
      if r.None? {
        Emit(EOF(runes));
        return Stop;
      }
      if IsEOL(r.value) { return BeforeKey; }
      if IsComment(r.value) { return InComment; }
      if IsWhitespace(r.value) {
        AcceptRun(WHITESPACE);
        return InKey;
      }
      Backup();
      return InKey;
    }

    /** Collects a comment up to its line end, behind the character that opens it. */
    method LexInComment() returns (next: StateFn)
      requires Valid() && runes == ""
      modifies this
      ensures Valid() && runes == ""
      ensures items + ItemsFrom(next, Rest()) == old(items) + LexComment(old(Rest()))
      ensures next.Stop? || |Rest()| < |old(Rest())|
    {
      hide Lex, SkipWhitespace, IsRun, ScanComment, Prepend;
      AcceptRun(WHITESPACE);
      ghost var s := Rest();
      PrependNothing(ScanComment(s));
      while true
        invariant Valid() && |Rest()| <= |s| && items == old(items)
        invariant ScanComment(s) == Prepend(runes, ScanComment(Rest()))
        decreases |input| - pos
      {
        ghost var here, got := Rest(), runes;
        CommentScan(here, got);
        var r := Next();
        if r.None? {
          Emit(EOF(runes));
          return Stop;
        }
        if IsEOL(r.value) {
          Emit(Comment(runes));
          return BeforeKey;
        }
        AppendRune(r.value);
      }
    }

    /** Scans a key up to a delimiter. */
    method LexInKey() returns (next: StateFn)
      requires Valid() && runes == ""
      modifies this
      ensures Valid() && (next.Stop? || runes == "")
      ensures items + ItemsFrom(next, Rest()) == old(items) + LexKey(old(Rest()))
      ensures next.Stop? || |Rest()| < |old(Rest())| || (|Rest()| == |old(Rest())| && Rank(next) < Rank(InKey))
    {
      hide Escape, LexBeforeValue, ScanKey, Prepend;
      ghost var s := Rest();
      PrependNothing(ScanKey(s));
      var r;
      while true
        invariant Valid() && |Rest()| <= |s| && items == old(items)
        invariant ScanKey(s) == Prepend(runes, ScanKey(Rest()))
        decreases |input| - pos
      {
        ghost var here, got := Rest(), runes;
        KeyScan(here, got);
        r := Next();
        if r.Some? && r.value == '\\' {
          var ok := ScanEscapeSequence();
          if !ok {
            items := items + [Error];
            return Stop;
          }
        } else if r.Some? && IsEndOfKey(r.value) {
          Backup();
          break;
        } else if r.None? {
          break;
        } else {
          AppendRune(r.value);
        }
      }
      assert ScanKey(s) == Scanned(runes, Rest());
      if runes != "" {
        Emit(Key(runes));
      }
      if r.None? {
        Emit(EOF(runes));
        return Stop;
      }
      return BeforeValue;
    }

    /** Skips what separates a key from its value. */
    method LexBeforeVal() returns (next: StateFn)
      requires Valid() && runes == ""
      modifies this
      ensures Valid() && runes == "" && items == old(items)
      ensures next == InValue && Rest() == AfterDelimiter(old(Rest()))
    {
      hide SkipWhitespace, IsRun;
      AcceptRun(WHITESPACE);
      Accept(DELIMITERS);
      AcceptRun(WHITESPACE);
      return InValue;
    }

    /** Collects a value up to its line end. */
    method LexInValue() returns (next: StateFn)
      requires Valid() && runes == ""
      modifies this
      ensures Valid() && (next.Stop? || runes == "")
      ensures items + ItemsFrom(next, Rest()) == old(items) + LexValue(old(Rest()))
      ensures next.Stop? || |Rest()| < |old(Rest())|
    {
      hide Escape, Lex, SkipWhitespace, IsRun, ScanValue, Prepend;
      ghost var s := Rest();
      PrependNothing(ScanValue(s));
      while true
        invariant Valid() && |Rest()| <= |s| && items == old(items)
        invariant ScanValue(s) == Prepend(runes, ScanValue(Rest()))
        decreases |input| - pos
      {
        ghost var here, got := Rest(), runes;
        ValueScan(here, got);
        var r := Next();
        if r.Some? && r.value == '\\' {
          var c := Peek();
          if c.Some? && IsEOL(c.value) {
            var _ := Next();
            AcceptRun(WHITESPACE);
            assert here[1..][1..] == here[2..];
          } else {
            var ok := ScanEscapeSequence();
            if !ok {
              items := items + [Error];
              return Stop;
            }
          }
        } else if r.Some? && IsEOL(r.value) {
          Emit(Value(runes));
          return BeforeKey;
        } else if r.None? {
          Emit(Value(runes));
          Emit(EOF(runes));
          return Stop;
        } else {
          AppendRune(r.value);
        }
      }
    }

    /** Runs the state functions to the end: the items are those of the text. */
    method Run()
      requires Valid() && runes == "" && items == []
      modifies this
      ensures items == Lex(old(Rest()))
    {
      hide Lex, LexComment, LexKey, LexValue, AfterDelimiter;
      var state := LexBeforeKey();
      while !state.Stop?
        invariant Valid() && (state.Stop? || runes == "")
        invariant items + ItemsFrom(state, Rest()) == Lex(old(Rest()))
        decreases !state.Stop?, |Rest()|, Rank(state)
      {
        match state {
          case BeforeKey => state := LexBeforeKey();
          case InComment => state := LexInComment();
          case InKey => state := LexInKey();
          case BeforeValue => state := LexBeforeVal();
          case InValue => state := LexInValue();
        }
      }
    }
  }

  lemma HexIsHex(c: char)
    ensures c in HEX <==> IsHex(c)
  {}

  /** `t` is `s` behind its longest run of runes of the valid set. */
  ghost predicate IsRun(valid: string, s: string, t: string) {
    && Tail(t, s)
    && (forall i :: 0 <= i < |s| - |t| ==> s[i] in valid)
    && (t != "" ==> t[0] !in valid)
  }

  lemma RunBetween(valid: string, s: string, a: nat, b: nat)
    requires a <= b <= |s| && (forall i :: a <= i < b ==> s[i] in valid) && (b < |s| ==> s[b] !in valid)
    ensures IsRun(valid, s[a..], s[b..])
  {
    assert s[a..][b - a..] == s[b..];
  }

  lemma {:induction false} WhitespaceRun(s: string, t: string)
    requires IsRun(WHITESPACE, s, t)
    ensures SkipWhitespace(s) == t
    decreases |s|
  {
    if |t| < |s| {
      assert s[0] in WHITESPACE;
      assert s[1..][|s| - 1 - |t|..] == s[|s| - |t|..];
      assert forall i :: 0 <= i < |s| - 1 - |t| ==> s[1..][i] == s[i + 1];
      WhitespaceRun(s[1..], t);
    }
  }

  lemma PrependNothing(s: Scan)
    ensures Prepend("", s) == s
  {}

  lemma PrependTwice(a: string, b: string, s: Scan)
    ensures Prepend(a, Prepend(b, s)) == Prepend(a + b, s)
    ensures Prepend(a, Invalid) == Invalid
    ensures Prepend(a, Scanned("", b)) == Scanned(a, b)
  {
    if s.Scanned? {
      assert a + (b + s.runes) == (a + b) + s.runes;
    }
  }

  // Scanning `s` with the runes `got` already collected, one step at a time.

  lemma CommentScan(s: string, got: string)
    ensures s == "" || IsEOL(s[0]) ==> Prepend(got, ScanComment(s)) == Scanned(got, s)
    ensures s != "" && !IsEOL(s[0]) ==> Prepend(got, ScanComment(s)) == Prepend(got + [s[0]], ScanComment(s[1..]))
  {
    PrependTwice(got, s, Invalid);
    if s != "" {
      PrependTwice(got, [s[0]], ScanComment(s[1..]));
    }
  }

  lemma KeyScan(s: string, got: string)
    ensures s == "" || IsEndOfKey(s[0]) ==> Prepend(got, ScanKey(s)) == Scanned(got, s)
    ensures s != "" && s[0] == '\\' ==>
      var e := Escape(s[1..]);
      Prepend(got, ScanKey(s)) == if e.Invalid? then Invalid else Prepend(got + e.runes, ScanKey(e.rest))
    ensures s != "" && s[0] != '\\' && !IsEndOfKey(s[0]) ==>
      Prepend(got, ScanKey(s)) == Prepend(got + [s[0]], ScanKey(s[1..]))
  {
    hide Escape;
    PrependTwice(got, s, Invalid);
    if s != "" {
      PrependTwice(got, [s[0]], ScanKey(s[1..]));
      var e := Escape(s[1..]);
      if e.Scanned? {
        PrependTwice(got, e.runes, ScanKey(e.rest));
      }
    }
  }

  lemma ValueScan(s: string, got: string)
    ensures s == "" || IsEOL(s[0]) ==> Prepend(got, ScanValue(s)) == Scanned(got, s)
    ensures |s| > 1 && s[0] == '\\' && IsEOL(s[1]) ==>
      Prepend(got, ScanValue(s)) == Prepend(got, ScanValue(SkipWhitespace(s[2..])))
    ensures s != "" && s[0] == '\\' && !(|s| > 1 && IsEOL(s[1])) ==>
      var e := Escape(s[1..]);
      Prepend(got, ScanValue(s)) == if e.Invalid? then Invalid else Prepend(got + e.runes, ScanValue(e.rest))
    ensures s != "" && s[0] != '\\' && !IsEOL(s[0]) ==>
      Prepend(got, ScanValue(s)) == Prepend(got + [s[0]], ScanValue(s[1..]))
  {
    hide Escape, SkipWhitespace;
    PrependTwice(got, s, Invalid);
    if s != "" {
      PrependTwice(got, [s[0]], ScanValue(s[1..]));
      var e := Escape(s[1..]);
      if e.Scanned? {
        PrependTwice(got, e.runes, ScanValue(e.rest));
      }
    }
  }

  // ---------- the parser

  /** The parser's loop over the items. */
  method ParseLoop(items: seq<Item>) returns (r: Result<Properties>)
    ensures r == ParseItems(items, NoProperties(), [])
  {
    var k: seq<string>, m: map<string, string>, c: map<string, seq<string>> := [], map[], map[];
    var comments: seq<string> := [];
    var i := 0;
    assert items[0..] == items;
    while i < |items|
      invariant 0 <= i <= |items|
      invariant ParseItems(items[i..], Properties(k, m, c), comments) == ParseItems(items, NoProperties(), [])
    {
      ghost var p, pending := Properties(k, m, c), comments;
      ParseStep(items[i..], p, pending);
      assert items[i..][1..] == items[i + 1..];
      match items[i] {
        case EOF(_) => return Ok(Properties(k, m, c));
        case Comment(text) =>
          comments := comments + [text];
          i := i + 1;
        case Key(key) =>
          if key !in m {
            k := k + [key];
          }
          if i + 1 >= |items| { return Err; }
          var token := items[i + 1];
          if !token.Value? && !token.EOF? { return Err; }
          if |comments| > 0 {
            c := c[key := comments];
            comments := [];
          }
          if token.EOF? {
            m := m[key := ""];
            return Ok(Properties(k, m, c));
          }
          m := m[key := token.val];
          assert items[i..][2..] == items[i + 2..];
          assert Properties(k, m, c) == WithEntry(p, pending, key, token.val);
          i := i + 2;
        case _ => return Err;
      }
    }
    return Err;
  }

  lemma ParseStep(items: seq<Item>, p: Properties, comments: seq<string>)
    requires items != []
    ensures items[0].EOF? ==> ParseItems(items, p, comments) == Ok(p)
    ensures items[0].Comment? ==> ParseItems(items, p, comments) == ParseItems(items[1..], p, comments + [items[0].val])
    ensures items[0].Key? && |items| >= 2 && items[1].EOF? ==>
      ParseItems(items, p, comments) == Ok(WithEntry(p, comments, items[0].val, ""))
    ensures items[0].Key? && |items| >= 2 && items[1].Value? ==>
      ParseItems(items, p, comments) == ParseItems(items[2..], WithEntry(p, comments, items[0].val, items[1].val), [])
    ensures items[0].Key? && (|items| < 2 || !(items[1].Value? || items[1].EOF?)) ==> ParseItems(items, p, comments) == Err
    ensures items[0].Value? || items[0].Error? ==> ParseItems(items, p, comments) == Err
  {}

  method ParseText(text: string) returns (r: Result<Properties>)
    ensures r == Parse(text)
  {
    var lexer := new Lexer(text);
    lexer.Run();
    r := ParseLoop(lexer.items);
  }

  // ---------- the printer

  lemma Assoc(a: string, b: string, c: string)
    ensures a + (b + c) == (a + b) + c
  {}

  method EncodeUtf8(s: string, special: string) returns (v: string)
    ensures v == Encode(s, special)
  {
    hide EscapeRune;
    v := "";
    var pos := 0;
    assert s[0..] == s;
    while pos < |s|
      invariant 0 <= pos <= |s| && v + Encode(s[pos..], special) == Encode(s, special)
    {
      ghost var rest := Encode(s[pos + 1..], special);
      assert s[pos..][1..] == s[pos + 1..];
      Assoc(v, EscapeRune(s[pos], special), rest);
      v := v + EscapeRune(s[pos], special);
      pos := pos + 1;
    }
    assert s[pos..] == "";
  }

  method WriteLine(key: string, value: string) returns (line: string)
    ensures line == Line(key, value)
  {
    hide Encode;
    var k := EncodeUtf8(key, KEY_SPECIAL);
    var v := EncodeUtf8(value, "");
    line := k + " = " + v + "\n";
  }

  /** Writes one line for each key. */
  method WriteText(ks: seq<string>, m: map<string, string>) returns (out: string)
    ensures out == Print(ks, m)
  {
    hide Line;
    out := "";
    assert ks[0..] == ks;
    for i := 0 to |ks|
      invariant out + Print(ks[i..], m) == Print(ks, m)
    {
      var value := if ks[i] in m then m[ks[i]] else "";
      var line := WriteLine(ks[i], value);
      ghost var rest := Print(ks[i + 1..], m);
      assert ks[i..][1..] == ks[i + 1..];
      Assoc(out, line, rest);
      out := out + line;
    }
    assert ks[|ks|..] == [];
  }

  /** Writing and parsing as performed: the properties come back exactly when all keys and values are
      covered by the escaping. */
  method WriteAndParse(ks: seq<string>, m: map<string, string>) returns (r: Result<Properties>)
    requires Distinct(ks) && (forall k :: k in ks <==> k in m)
    ensures SameEntries(r, ks, m) <==> forall k :: k in ks ==> GoodKey(k) && GoodValue(m[k])
    ensures SameEntries(r, ks, m) ==> r.value.c == map[]
  {
    hide Print, Parse, Distinct, GoodKey, GoodValue;
    var text := WriteText(ks, m);
    r := ParseText(text);
    RoundTripIff(ks, m);
  }
}
