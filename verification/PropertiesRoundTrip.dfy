/** Printing properties and parsing the text gives them back exactly when every key and value is one
    that the escaping covers. */
module PropertiesRoundTrip {
  import opened Common
  import opened PropertiesText

  // ---------- the covered domain

  /** A key that survives: not empty, no escape character, no '=', not the start of a comment. */
  predicate GoodKey(k: string) {
    k != "" && '\\' !in k && '=' !in k && k[0] != '#' && k[0] != '!'
  }

  /** A value that survives: no escape character, no leading space. */
  predicate GoodValue(v: string) {
    '\\' !in v && (v != "" ==> v[0] != ' ')
  }

  // ---------- good text reads back

  /** The escape that stands for a rune reads as that rune. */
  lemma EscapedRune(c: char, special: string, t: string)
    requires special == KEY_SPECIAL || special == ""
    requires |EscapeRune(c, special)| == 2
    ensures EscapeRune(c, special)[0] == '\\'
    ensures Escape((EscapeRune(c, special) + t)[1..]) == Scanned([c], t)
  {
    var e := EscapeRune(c, special);
    assert (e + t)[1..] == [e[1]] + t;
    assert ([e[1]] + t)[1..] == t;
  }

  /** Reading the encoding of a rune of a key. */
  lemma KeyRune(c: char, u: string)
    requires c != '\\' && c != '='
    ensures ScanKey(EscapeRune(c, KEY_SPECIAL) + u) == Prepend([c], ScanKey(u))
  {
    var e := EscapeRune(c, KEY_SPECIAL);
    if |e| == 2 {
      EscapedRune(c, KEY_SPECIAL, u);
    } else {
      assert (e + u)[1..] == u;
    }
  }

  lemma KeyEnds(t: string)
    requires t != "" && IsEndOfKey(t[0])
    ensures ScanKey(t) == Scanned("", t)
  {}

  /** Reading the encoding of a rune of a value. */
  lemma ValueRune(c: char, u: string)
    requires c != '\\'
    ensures ScanValue(EscapeRune(c, "") + u) == Prepend([c], ScanValue(u))
  {
    var e := EscapeRune(c, "");
    if |e| == 2 {
      EscapedRune(c, "", u);
    } else {
      assert (e + u)[1..] == u;
    }
  }

  lemma ValueEnds(t: string)
    requires t != "" && IsEOL(t[0])
    ensures ScanValue(t) == Scanned("", t)
  {}

  /** The encoding of a text, rune by rune, before what follows it. */
  lemma EncodedCons(s: string, special: string, t: string)
    requires s != ""
    ensures Encode(s, special) + t == EscapeRune(s[0], special) + (Encode(s[1..], special) + t)
    ensures [s[0]] + s[1..] == s
  {
    hide EscapeRune;
    assert Encode(s, special) == EscapeRune(s[0], special) + Encode(s[1..], special);
  }

  lemma {:induction false} ScanKeyEncoded(k: string, t: string)
    requires '\\' !in k && '=' !in k && t != "" && t[0] == ' '
    ensures ScanKey(Encode(k, KEY_SPECIAL) + t) == Scanned(k, t)
    decreases |k|
  {
    hide ScanKey, EscapeRune;
    if k == "" {
      assert Encode(k, KEY_SPECIAL) + t == t;
      KeyEnds(t);
    } else {
      EncodedCons(k, KEY_SPECIAL, t);
      KeyRune(k[0], Encode(k[1..], KEY_SPECIAL) + t);
      ScanKeyEncoded(k[1..], t);
    }
  }

  lemma {:induction false} ScanValueEncoded(v: string, t: string)
    requires '\\' !in v && t != "" && t[0] == '\n'
    ensures ScanValue(Encode(v, "") + t) == Scanned(v, t)
    decreases |v|
  {
    hide ScanValue, EscapeRune;
    if v == "" {
      assert Encode(v, "") + t == t;
      ValueEnds(t);
    } else {
      EncodedCons(v, "", t);
      ValueRune(v[0], Encode(v[1..], "") + t);
      ScanValueEncoded(v[1..], t);
    }
  }

  /** The first rune of an encoded text. */
  lemma EncodedStart(s: string, special: string, t: string)
    requires s != ""
    ensures Encode(s, special) + t != ""
    ensures (Encode(s, special) + t)[0] == if |EscapeRune(s[0], special)| == 2 then '\\' else s[0]
  {}

  /** The delimiter as printed, before a text that does not start with whitespace. */
  lemma DelimiterSkipped(t: string)
    ensures AfterDelimiter(" = " + t) == SkipWhitespace(t)
  {
    hide SkipWhitespace;
    var s := " = " + t;
    var u, v := s[1..], s[2..];
    assert s[0] == ' ' && u[0] == '=' && v[0] == ' ';
    assert u[1..] == v && v[1..] == t;
    SkipOne(s);
    SkipOne(u);
    SkipOne(v);
  }

  lemma SkipOne(s: string)
    requires s != ""
    ensures SkipWhitespace(s) == if IsWhitespace(s[0]) then SkipWhitespace(s[1..]) else s
  {}

  lemma ValueStart(v: string, t: string)
    requires (v != "" ==> v[0] != ' ') && t != "" && t[0] == '\n'
    ensures SkipWhitespace(Encode(v, "") + t) == Encode(v, "") + t
  {
    if v != "" {
      EncodedStart(v, "", t);
    }
  }

  /** A key that starts no comment puts the lexer where keys are read. */
  lemma KeyStart(k: string, t: string)
    requires k != "" && !IsComment(k[0])
    ensures Lex(Encode(k, KEY_SPECIAL) + t) == LexKey(Encode(k, KEY_SPECIAL) + t)
  {
    EncodedStart(k, KEY_SPECIAL, t);
  }

  /** A line, in the pieces in which it is read. */
  lemma LinePieces(k: string, v: string, rest: string)
    ensures Line(k, v) + rest == Encode(k, KEY_SPECIAL) + (" = " + (Encode(v, "") + ("\n" + rest)))
  {}

  lemma GoodLine(k: string, v: string, rest: string)
    requires GoodKey(k) && GoodValue(v)
    ensures Lex(Line(k, v) + rest) == [Key(k), Value(v)] + Lex(rest)
  {
    hide Encode, ScanKey, ScanValue, Lex;
    var tail := "\n" + rest;
    var value := Encode(v, "") + tail;
    LinePieces(k, v, rest);
    KeyStart(k, " = " + value);
    ScanKeyEncoded(k, " = " + value);
    DelimiterSkipped(value);
    ValueStart(v, tail);
    ScanValueEncoded(v, tail);
    assert tail[1..] == rest && tail != "";
    assert LexValue(value) == [Value(v)] + Lex(rest);
    assert [Key(k)] + ([Value(v)] + Lex(rest)) == [Key(k), Value(v)] + Lex(rest);
  }

  /** The properties with entries appended. */
  function Extended(p: Properties, ks: seq<string>, m: map<string, string>): (r: Properties)
    requires forall k :: k in ks ==> k in m
    decreases |ks|
  {
    if ks == [] then p else Extended(WithEntry(p, [], ks[0], m[ks[0]]), ks[1..], m)
  }

  lemma {:induction false} PrintedParses(ks: seq<string>, m: map<string, string>, p: Properties)
    requires forall k :: k in ks ==> k in m && GoodKey(k) && GoodValue(m[k])
    ensures ParseItems(Lex(Print(ks, m)), p, []) == Ok(Extended(p, ks, m))
    decreases |ks|
  {
    hide Lex, Line, GoodKey, GoodValue;
    if ks == [] {
      LexNothing();
    } else {
      var k, rest := ks[0], Print(ks[1..], m);
      GoodLine(k, m[k], rest);
      var items := [Key(k), Value(m[k])] + Lex(rest);
      assert items[2..] == Lex(rest);
      PrintedParses(ks[1..], m, WithEntry(p, [], k, m[k]));
    }
  }

  lemma LexNothing()
    ensures Lex("") == [EOF("")]
  {}

  /** Appending distinct new keys lists them in order and records their values. */
  lemma {:induction false} ExtendedIs(p: Properties, ks: seq<string>, m: map<string, string>)
    requires Distinct(ks) && (forall k :: k in ks ==> k in m && k !in p.m)
    ensures var r := Extended(p, ks, m);
      && r.k == p.k + ks && r.c == p.c
      && (forall x :: x in r.m <==> x in p.m || x in ks)
      && (forall x :: x in p.m ==> r.m[x] == p.m[x])
      && (forall x :: x in ks ==> r.m[x] == m[x])
    decreases |ks|
  {
    hide Distinct;
    if ks != [] {
      var k, p' := ks[0], WithEntry(p, [], ks[0], m[ks[0]]);
      DistinctHead(ks);
      ExtendedIs(p', ks[1..], m);
    }
  }

  lemma DistinctHead(ks: seq<string>)
    requires ks != [] && Distinct(ks)
    ensures ks[0] !in ks[1..] && Distinct(ks[1..])
    ensures forall x :: x in ks <==> x == ks[0] || x in ks[1..]
  {}

  /** Sufficiency: covered properties are read back with the same map and the same order of keys. */
  lemma GoodRoundTrip(ks: seq<string>, m: map<string, string>)
    requires Distinct(ks) && (forall k :: k in ks <==> k in m)
    requires forall k :: k in ks ==> GoodKey(k) && GoodValue(m[k])
    ensures Parse(Print(ks, m)) == Ok(Properties(ks, m, map[]))
  {
    hide Extended, Print, Lex, ParseItems, Distinct, GoodKey, GoodValue;
    var p := NoProperties();
    PrintedParses(ks, m, p);
    ExtendedIs(p, ks, m);
    assert p.k + ks == ks;
    assert Extended(p, ks, m).m == m;
  }

  // ---------- how far scanning goes

  /** `t` is a tail of `s`. */
  predicate Tail(t: string, s: string) {
    |t| <= |s| && t == s[|s| - |t|..]
  }

  lemma TailTrans(a: string, b: string, c: string)
    requires Tail(a, b) && Tail(b, c)
    ensures Tail(a, c)
  {
    assert b[|b| - |a|..] == c[|c| - |b|..][|b| - |a|..] == c[|c| - |a|..];
  }

  lemma {:induction false} SkipWhitespaceTail(s: string)
    ensures Tail(SkipWhitespace(s), s)
    decreases |s|
  {
    if s != "" && IsWhitespace(s[0]) {
      SkipWhitespaceTail(s[1..]);
      TailTrans(SkipWhitespace(s), s[1..], s);
    }
  }

  lemma EscapeTail(s: string)
    requires Escape(s).Scanned?
    ensures Tail(Escape(s).rest, s)
  {}

  lemma {:induction false} ScanKeyTail(s: string)
    requires ScanKey(s).Scanned?
    ensures Tail(ScanKey(s).rest, s)
    decreases |s|
  {
    hide Escape;
    if s != "" {
      if s[0] == '\\' {
        var e := Escape(s[1..]);
        EscapeTail(s[1..]);
        TailTrans(e.rest, s[1..], s);
        ScanKeyTail(e.rest);
        TailTrans(ScanKey(s).rest, e.rest, s);
      } else if !IsEndOfKey(s[0]) {
        ScanKeyTail(s[1..]);
        TailTrans(ScanKey(s).rest, s[1..], s);
      }
    }
  }

  lemma {:induction false} ScanValueTail(s: string)
    requires ScanValue(s).Scanned?
    ensures Tail(ScanValue(s).rest, s)
    decreases |s|
  {
    hide Escape, SkipWhitespace;
    if s != "" {
      if s[0] == '\\' && |s| > 1 && IsEOL(s[1]) {
        var t := SkipWhitespace(s[2..]);
        SkipWhitespaceTail(s[2..]);
        TailTrans(t, s[2..], s);
        ScanValueTail(t);
        TailTrans(ScanValue(s).rest, t, s);
      } else if s[0] == '\\' {
        var e := Escape(s[1..]);
        EscapeTail(s[1..]);
        TailTrans(e.rest, s[1..], s);
        ScanValueTail(e.rest);
        TailTrans(ScanValue(s).rest, e.rest, s);
      } else if !IsEOL(s[0]) {
        ScanValueTail(s[1..]);
        TailTrans(ScanValue(s).rest, s[1..], s);
      }
    }
  }

  lemma {:induction false} ScanCommentTail(s: string)
    ensures Tail(ScanComment(s).rest, s)
    decreases |s|
  {
    if s != "" && !IsEOL(s[0]) {
      ScanCommentTail(s[1..]);
      TailTrans(ScanComment(s).rest, s[1..], s);
    }
  }

  lemma AfterDelimiterTail(s: string)
    ensures Tail(AfterDelimiter(s), s)
  {
    var u := SkipWhitespace(s);
    SkipWhitespaceTail(s);
    var w := if u != "" && (u[0] == ':' || u[0] == '=') then u[1..] else u;
    TailTrans(w, u, s);
    SkipWhitespaceTail(w);
    TailTrans(AfterDelimiter(s), w, s);
  }

  // ---------- each line yields at most one key

  function Eols(s: string): (n: nat) {
    if s == "" then 0 else (if IsEOL(s[0]) then 1 else 0) + Eols(s[1..])
  }

  /** The text stops at a line end, if it has any text. */
  predicate EndsLine(s: string) {
    s == "" || s[|s| - 1] == '\n'
  }

  lemma {:induction false} EolsAppend(a: string, b: string)
    ensures Eols(a + b) == Eols(a) + Eols(b)
    decreases |a|
  {
    if a == "" {
      assert a + b == b;
    } else {
      assert (a + b)[1..] == a[1..] + b;
      EolsAppend(a[1..], b);
    }
  }

  lemma TailEols(t: string, s: string)
    requires Tail(t, s)
    ensures Eols(t) <= Eols(s) && (EndsLine(s) ==> EndsLine(t))
  {
    assert s == s[..|s| - |t|] + t;
    EolsAppend(s[..|s| - |t|], t);
  }

  lemma EndsLineEols(s: string)
    requires EndsLine(s) && s != ""
    ensures Eols(s) >= 1
  {
    assert s == s[..|s| - 1] + "\n";
    EolsAppend(s[..|s| - 1], "\n");
    assert Eols("\n") == 1;
  }

  /** The number of keys among the items. */
  function Keys(items: seq<Item>): (n: nat) {
    if items == [] then 0 else (if items[0].Key? then 1 else 0) + Keys(items[1..])
  }

  lemma KeysCons(i: Item, items: seq<Item>)
    ensures Keys([i] + items) == (if i.Key? then 1 else 0) + Keys(items)
  {
    assert ([i] + items)[1..] == items;
  }

  lemma EolsHead(s: string)
    requires s != ""
    ensures Eols(s) == (if IsEOL(s[0]) then 1 else 0) + Eols(s[1..])
  {}

  lemma {:induction false} LexKeys(s: string)
    requires EndsLine(s)
    ensures Keys(Lex(s)) <= Eols(s)
    decreases |s|, 3
  {
    hide LexKey, LexComment, SkipWhitespace;
    if s == "" {
      KeysCons(EOF(""), []);
      assert [EOF("")] + [] == Lex(s);
    } else {
      EndsLineEols(s);
      TailEols(s[1..], s);
      if IsEOL(s[0]) {
        LexKeys(s[1..]);
      } else if IsComment(s[0]) {
        LexCommentKeys(s[1..]);
      } else if IsWhitespace(s[0]) {
        var t := SkipWhitespace(s[1..]);
        SkipWhitespaceTail(s[1..]);
        TailEols(t, s[1..]);
        LexKeyKeys(t);
      } else {
        LexKeyKeys(s);
      }
    }
  }

  lemma {:induction false} LexCommentKeys(s: string)
    requires EndsLine(s)
    ensures Keys(LexComment(s)) <= Eols(s)
    decreases |s|, 4
  {
    hide Lex, SkipWhitespace, ScanComment;
    var t := SkipWhitespace(s);
    SkipWhitespaceTail(s);
    ScanCommentTail(t);
    var c := ScanComment(t);
    TailTrans(c.rest, t, s);
    TailEols(c.rest, s);
    if c.rest == "" {
      KeysCons(EOF(c.runes), []);
      assert [EOF(c.runes)] + [] == LexComment(s);
    } else {
      TailEols(c.rest[1..], c.rest);
      LexKeys(c.rest[1..]);
      KeysCons(Comment(c.runes), Lex(c.rest[1..]));
    }
  }

  lemma {:induction false} LexKeyKeys(s: string)
    requires EndsLine(s)
    ensures Keys(LexKey(s)) <= 1 || Keys(LexKey(s)) <= Eols(s)
    decreases |s|, 2
  {
    hide Lex, ScanKey, LexBeforeValue, Eols, Keys, EndsLine, Tail;
    var k := ScanKey(s);
    KeysOfEnd();
    if k.Scanned? {
      ScanKeyTail(s);
      TailEols(k.rest, s);
      var more := if k.rest == "" then [EOF("")] else LexBeforeValue(k.rest);
      if k.rest != "" {
        LexBeforeValueKeys(k.rest);
      }
      KeysCons(Key(k.runes), more);
      assert [] + more == more;
    }
  }

  lemma {:induction false} LexBeforeValueKeys(s: string)
    requires EndsLine(s)
    ensures Keys(LexBeforeValue(s)) == 0 || Keys(LexBeforeValue(s)) <= Eols(s) - 1
    decreases |s|, 1
  {
    hide LexValue;
    AfterDelimiterTail(s);
    TailEols(AfterDelimiter(s), s);
    LexValueKeys(AfterDelimiter(s));
  }

  lemma KeysOfEnd()
    ensures Keys([EOF("")]) == 0 && Keys([Error]) == 0
  {}

  lemma {:induction false} LexValueKeys(s: string)
    requires EndsLine(s)
    ensures Keys(LexValue(s)) == 0 || Keys(LexValue(s)) <= Eols(s) - 1
    decreases |s|, 0, 1
  {
    hide Lex, ScanValue, Eols, Keys, LexValue;
    if ScanValue(s).Invalid? {
      LexValueEnds(s);
    } else {
      ScanValueTail(s);
      TailEols(ScanValue(s).rest, s);
      LexValueRest(s);
    }
  }

  lemma LexValueEnds(s: string)
    requires ScanValue(s).Invalid?
    ensures Keys(LexValue(s)) == 0
  {
    hide ScanValue;
    KeysOfEnd();
  }

  /** Behind a value, the keys are those of the lines that follow. */
  lemma {:induction false} LexValueRest(s: string)
    requires EndsLine(s) && ScanValue(s).Scanned?
    ensures var rest := ScanValue(s).rest;
      if rest == "" then Keys(LexValue(s)) == 0 else Keys(LexValue(s)) <= Eols(rest) - 1
    decreases |s|, 0, 0
  {
    hide Lex, ScanValue, Eols, Keys;
    var v := ScanValue(s);
    if v.rest == "" {
      KeysOfEnd();
      KeysCons(Value(v.runes), [EOF("")]);
    } else {
      ScanValueTail(s);
      TailEols(v.rest, s);
      EolsHead(v.rest);
      TailEols(v.rest[1..], v.rest);
      LexKeys(v.rest[1..]);
      KeysCons(Value(v.runes), Lex(v.rest[1..]));
    }
  }
}
