/** The other half of the round trip: properties outside the covered domain are not read back. */
module PropertiesExact {
  import opened Common
  import opened PropertiesText
  import opened PropertiesRoundTrip

  // ---------- keys

  /** Hexadecimal digits at the front of encoded text are runes of the text itself. */
  lemma {:induction false} HexRun(q: string, special: string, t: string, n: nat)
    requires t != "" && !IsHex(t[0]) && n <= |Encode(q, special) + t|
    requires forall i :: 0 <= i < n ==> IsHex((Encode(q, special) + t)[i])
    ensures n <= |q| && (Encode(q, special) + t)[n..] == Encode(q[n..], special) + t
    decreases n
  {
    var s := Encode(q, special) + t;
    if n > 0 {
      assert q == "" ==> s == t;
      EncodedCons(q, special, t);
      var u := Encode(q[1..], special) + t;
      assert s[0] == EscapeRune(q[0], special)[0];
      assert s[1..] == u;
      assert forall i :: 0 <= i < n - 1 ==> u[i] == s[i + 1];
      HexRun(q[1..], special, t, n - 1);
      assert q[1..][n - 1..] == q[n..];
      assert s[n..] == u[n - 1..];
    }
  }

  /** What an escape sequence starting with `d` leaves: all of the rest, or all but four digits. */
  lemma EscapeLeaves(d: char, u: string)
    requires Escape([d] + u).Scanned?
    ensures var e := Escape([d] + u);
      || e.rest == u
      || (|u| >= 4 && (forall i :: 0 <= i < 4 ==> IsHex(u[i])) && e.rest == u[4..])
    ensures d == '\\' ==> Escape([d] + u) == Scanned("\\", u)
  {
    var s := [d] + u;
    assert s[1..] == u;
    if d == 'u' {
      assert forall i :: 0 <= i < 4 ==> u[i] == s[i + 1];
      assert s[5..] == u[4..];
    }
  }

  /** An escape character in front of text that is encoded as itself stands for one rune, and leaves
      text that is shorter by a rune at least. */
  lemma EscapeSwallows(r: string, special: string, t: string) returns (n: nat)
    requires r != "" && |EscapeRune(r[0], special)| == 1 && t != "" && !IsHex(t[0])
    requires Escape(Encode(r, special) + t).Scanned?
    ensures 1 <= n <= |r| && Escape(Encode(r, special) + t).rest == Encode(r[n..], special) + t
  {
    hide Encode, Escape;
    EncodedCons(r, special, t);
    var u := Encode(r[1..], special) + t;
    EscapeLeaves(r[0], u);
    n := 1;
    if Escape([r[0]] + u).rest != u {
      HexRun(r[1..], special, t, 4);
      assert r[1..][4..] == r[5..];
      n := 5;
    }
  }

  /** An escape character in front of an escape comes out itself, and the escape is spoilt. */
  lemma EscapeSpoils(r: string, special: string, t: string)
    requires r != "" && |EscapeRune(r[0], special)| == 2
    ensures Escape(Encode(r, special) + t) ==
      Scanned("\\", [EscapeRune(r[0], special)[1]] + (Encode(r[1..], special) + t))
  {
    hide Encode, Escape;
    EncodedCons(r, special, t);
    var x, u := EscapeRune(r[0], special), Encode(r[1..], special) + t;
    assert x + u == ['\\'] + ([x[1]] + u);
    EscapeScanned([x[1]] + u);
    EscapeLeaves('\\', [x[1]] + u);
  }

  lemma EscapeScanned(u: string)
    ensures Escape(['\\'] + u).Scanned?
  {}

  /** The delimiter that is printed behind a key. */
  predicate IsDelimiter(t: string) {
    |t| >= 2 && t[0] == ' ' && t[1] == '='
  }

  lemma ScanKeyEscape(u: string)
    ensures ScanKey(['\\'] + u) == if Escape(u).Invalid? then Invalid else Prepend(Escape(u).runes, ScanKey(Escape(u).rest))
  {
    assert (['\\'] + u)[1..] == u;
  }

  lemma ScanKeyRaw(c: char, u: string)
    requires c != '\\'
    ensures ScanKey([c] + u) == if IsEndOfKey(c) then Scanned("", [c] + u) else Prepend([c], ScanKey(u))
  {
    assert ([c] + u)[1..] == u;
  }

  /** A key never comes out longer than it went in, and comes out the same only if it has neither an
      escape character nor a '='. */
  lemma {:induction false} KeyComesOut(r: string, t: string)
    requires IsDelimiter(t) && ScanKey(Encode(r, KEY_SPECIAL) + t).Scanned?
    ensures var out := ScanKey(Encode(r, KEY_SPECIAL) + t).runes;
      |out| <= |r| && (out == r ==> '\\' !in r && '=' !in r)
    decreases |r|
  {
    hide ScanKey, Escape, Encode;
    if r == "" {
      EncodeNothing(KEY_SPECIAL, t);
      KeyEnds(t);
    } else {
      var c, u := r[0], Encode(r[1..], KEY_SPECIAL) + t;
      EncodedCons(r, KEY_SPECIAL, t);
      if c == '=' {
        ScanKeyRaw(c, u);
      } else if c == '\\' {
        ScanKeyEscape(u);
        EscapedKeyShrinks(r, t);
      } else {
        KeyRune(c, u);
        KeyComesOut(r[1..], t);
        assert ([c] + ScanKey(u).runes)[1..] == ScanKey(u).runes;
      }
    }
  }

  lemma EncodeNothing(special: string, t: string)
    ensures Encode("", special) + t == t
  {}

  lemma {:induction false} EscapedKeyShrinks(r: string, t: string)
    requires IsDelimiter(t) && r != "" && r[0] == '\\'
    requires var e := Escape(Encode(r[1..], KEY_SPECIAL) + t); e.Scanned? && ScanKey(e.rest).Scanned?
    ensures var e := Escape(Encode(r[1..], KEY_SPECIAL) + t);
      var out := e.runes + ScanKey(e.rest).runes; |out| <= |r| && out != r
    decreases |r|, 0
  {
    hide ScanKey, Escape, Encode;
    var q := r[1..];
    var e := Escape(Encode(q, KEY_SPECIAL) + t);
    if q == "" {
      EncodeNothing(KEY_SPECIAL, t);
      assert t == [' '] + t[1..];
      EscapedBlank(t[1..]);
      KeyEnds(t[1..]);
    } else if |EscapeRune(q[0], KEY_SPECIAL)| == 2 {
      EscapeSpoils(q, KEY_SPECIAL, t);
      var x, u := EscapeRune(q[0], KEY_SPECIAL)[1], Encode(q[1..], KEY_SPECIAL) + t;
      ScanKeyRaw(x, u);
      assert r[1] == q[0];
      if !IsEndOfKey(x) {
        KeyComesOut(q[1..], t);
        assert (e.runes + ScanKey(e.rest).runes)[1] == x;
      }
    } else {
      var n := EscapeSwallows(q, KEY_SPECIAL, t);
      KeyComesOut(q[n..], t);
    }
  }

  lemma EscapedBlank(u: string)
    ensures Escape([' '] + u) == Scanned(" ", u)
  {
    assert ([' '] + u)[1..] == u;
  }

  // ---------- values

  /** What becomes of the encoding of `r` before the lines `t`: it ends with its line, no longer than
      it went in and the same only if it has no escape character; or a trailing escape character joins
      it to what follows. */
  ghost predicate ValueOutcome(s: Scan, r: string, t: string) {
    && s.Scanned?
    && (|| (s.rest == "\n" + t && |s.runes| <= |r| && (s.runes == r ==> '\\' !in r))
        || (&& ScanValue(SkipWhitespace(t)).Scanned? && s.rest == ScanValue(SkipWhitespace(t)).rest
            && (t == "" ==> |s.runes| < |r|)))
  }

  lemma ScanValueEscape(u: string)
    requires u == "" || !IsEOL(u[0])
    ensures ScanValue(['\\'] + u) == if Escape(u).Invalid? then Invalid else Prepend(Escape(u).runes, ScanValue(Escape(u).rest))
  {
    assert (['\\'] + u)[1..] == u;
  }

  lemma ScanValueRaw(c: char, u: string)
    requires c != '\\' && !IsEOL(c)
    ensures ScanValue([c] + u) == Prepend([c], ScanValue(u))
  {
    assert ([c] + u)[1..] == u;
  }

  lemma ScanValueJoin(u: string)
    ensures ScanValue("\\" + ("\n" + u)) == ScanValue(SkipWhitespace(u))
  {
    var s := "\\" + ("\n" + u);
    assert s[1] == '\n' && s[2..] == u;
  }

  lemma {:induction false} ValueComesOut(r: string, t: string)
    requires ScanValue(Encode(r, "") + ("\n" + t)).Scanned?
    ensures ValueOutcome(ScanValue(Encode(r, "") + ("\n" + t)), r, t)
    decreases |r|
  {
    hide ScanValue, Escape, Encode, SkipWhitespace;
    var line := "\n" + t;
    if r == "" {
      EncodeNothing("", line);
      ValueEnds(line);
    } else {
      var c, u := r[0], Encode(r[1..], "") + line;
      EncodedCons(r, "", line);
      if c == '\\' {
        EscapedValueOutcome(r, t);
      } else {
        ValueRune(c, u);
        ValueComesOut(r[1..], t);
        assert ([c] + ScanValue(u).runes)[1..] == ScanValue(u).runes;
      }
    }
  }

  lemma {:induction false} EscapedValueOutcome(r: string, t: string)
    requires r != "" && r[0] == '\\' && ScanValue(['\\'] + (Encode(r[1..], "") + ("\n" + t))).Scanned?
    ensures ValueOutcome(ScanValue(['\\'] + (Encode(r[1..], "") + ("\n" + t))), r, t)
    decreases |r|, 0
  {
    hide ScanValue, Escape, Encode, SkipWhitespace;
    var q, line := r[1..], "\n" + t;
    if q == "" {
      EncodeNothing("", line);
      ScanValueJoin(t);
      if t == "" {
        NothingFollows();
      }
    } else {
      EncodedStart(q, "", line);
      var u := Encode(q, "") + line;
      ScanValueEscape(u);
      var e := Escape(u);
      if |EscapeRune(q[0], "")| == 2 {
        EscapeSpoils(q, "", line);
        var x := EscapeRune(q[0], "")[1];
        ScanValueRaw(x, Encode(q[1..], "") + line);
        ValueComesOut(q[1..], t);
        assert r[1] == q[0];
        assert (e.runes + ScanValue(e.rest).runes)[1] == x;
      } else {
        var n := EscapeSwallows(q, "", line);
        ValueComesOut(q[n..], t);
      }
    }
  }

  lemma NothingFollows()
    ensures SkipWhitespace("") == "" && ScanValue("") == Scanned("", "")
  {}

  // ---------- what parsing can have seen

  /** Parsing only adds: as many keys as there are key items at most, and if as many, it leaves the
      entries it started with alone. Pending comments end up with a key, if there is any. */
  lemma {:induction false} ParseGrows(items: seq<Item>, p: Properties, comments: seq<string>)
    requires ParseItems(items, p, comments).Ok?
    ensures var r := ParseItems(items, p, comments).value;
      && p.k <= r.k && |r.k| - |p.k| <= Keys(items)
      && (|r.k| - |p.k| == Keys(items) ==> forall x :: x in p.m ==> x in r.m && r.m[x] == p.m[x])
      && p.c.Keys <= r.c.Keys
      && (comments != [] && r.k != p.k ==> r.c.Keys != {})
    decreases |items|
  {
    match items[0] {
      case EOF(_) =>
      case Comment(c) => ParseGrows(items[1..], p, comments + [c]);
      case Key(key) =>
        KeysCons(items[0], items[1..]);
        assert [items[0]] + items[1..] == items;
        if items[1].Value? {
          var p' := WithEntry(p, comments, key, items[1].val);
          ParseGrows(items[2..], p', []);
          assert [items[1]] + items[2..] == items[1..];
          KeysCons(items[1], items[2..]);
        }
        assert comments != [] ==> key in ParseItems(items, p, comments).value.c.Keys;
      case Value(_) =>
      case Error =>
    }
  }

  /** Encoded text has no line ends. */
  lemma {:induction false} EncodeEols(s: string, special: string)
    requires special == KEY_SPECIAL || special == ""
    ensures Eols(Encode(s, special)) == 0
    decreases |s|
  {
    if s != "" {
      EncodeEols(s[1..], special);
      EscapeEols(s[0], special);
      EolsAppend(EscapeRune(s[0], special), Encode(s[1..], special));
    }
  }

  lemma EscapeEols(c: char, special: string)
    requires special == KEY_SPECIAL || special == ""
    ensures Eols(EscapeRune(c, special)) == 0
  {
    var e := EscapeRune(c, special);
    EolsHead(e);
    if |e| == 2 {
      EolsHead(e[1..]);
      assert e[1..][1..] == "";
    } else {
      assert e[1..] == "";
    }
  }

  lemma {:induction false} PrintEols(ks: seq<string>, m: map<string, string>)
    ensures Eols(Print(ks, m)) == |ks| && EndsLine(Print(ks, m))
    decreases |ks|
  {
    hide Eols, Line;
    if ks == [] {
      NoEols();
    } else {
      var v := if ks[0] in m then m[ks[0]] else "";
      LineEols(ks[0], v);
      EolsAppend(Line(ks[0], v), Print(ks[1..], m));
      PrintEols(ks[1..], m);
    }
  }

  lemma NoEols()
    ensures Eols("") == 0
  {}

  lemma LineEols(k: string, v: string)
    ensures Eols(Line(k, v)) == 1 && EndsLine(Line(k, v)) && Line(k, v) != ""
  {
    var a, b, c := Encode(k, KEY_SPECIAL), " = ", Encode(v, "");
    EncodeEols(k, KEY_SPECIAL);
    EncodeEols(v, "");
    EolsAppend(a + b + c, "\n");
    EolsAppend(a + b, c);
    EolsAppend(a, b);
    assert b[1..] == "= " && b[1..][1..] == " " && b[1..][1..][1..] == "";
    assert "\n"[1..] == "";
  }

  /** A text without line ends, scanned as a comment, is a comment as a whole. */
  lemma {:induction false} CommentOfLine(s: string, t: string)
    requires Eols(s) == 0 && t != "" && IsEOL(t[0])
    ensures ScanComment(s + t).rest == t
    decreases |s|
  {
    if s == "" {
      assert s + t == t;
    } else {
      assert (s + t)[1..] == s[1..] + t;
      CommentOfLine(s[1..], t);
    }
  }

  // ---------- the three ways in which a first line goes wrong

  lemma EmptyKeyFails(v: string, rest: string, p: Properties)
    ensures ParseItems(Lex(Line("", v) + rest), p, []).Err?
  {
    hide Encode, ScanValue, SkipWhitespace, AfterDelimiter;
    var t := "= " + (Encode(v, "") + ("\n" + rest));
    LinePieces("", v, rest);
    EncodeNothing(KEY_SPECIAL, " " + t);
    var s := " " + t;
    assert Line("", v) + rest == s && s[1..] == t;
    NoBlank(t);
    assert Lex(s) == LexKey(t);
    KeyEnds(t);
    assert LexKey(t) == [] + LexBeforeValue(t) == LexBeforeValue(t);
  }

  lemma NoBlank(t: string)
    requires t != "" && !IsWhitespace(t[0])
    ensures SkipWhitespace(t) == t
  {}

  /** A line whose key starts a comment is one. */
  lemma CommentLine(k: string, v: string, rest: string)
    requires k != "" && IsComment(k[0])
    ensures exists c :: Lex(Line(k, v) + rest) == [Comment(c)] + Lex(rest)
  {
    hide Encode, Eols, ScanComment, SkipWhitespace, Lex;
    var body := Encode(k[1..], KEY_SPECIAL) + " = " + Encode(v, "");
    var line := "\n" + rest;
    LinePieces(k, v, rest);
    EncodedCons(k, KEY_SPECIAL, " = " + (Encode(v, "") + line));
    var s := Line(k, v) + rest;
    assert s == [k[0]] + (body + line);
    assert s[1..] == body + line && s[0] == k[0];
    LexOfComment(s);
    BodyEols(k[1..], v);
    var u := SkipBody(body, line);
    CommentOfLine(u, line);
    assert line[1..] == rest;
  }

  lemma LexOfComment(s: string)
    requires s != "" && IsComment(s[0])
    ensures Lex(s) == LexComment(s[1..])
  {}

  lemma BodyEols(k: string, v: string)
    ensures Eols(Encode(k, KEY_SPECIAL) + " = " + Encode(v, "")) == 0
  {
    var a, b, c := Encode(k, KEY_SPECIAL), " = ", Encode(v, "");
    EncodeEols(k, KEY_SPECIAL);
    EncodeEols(v, "");
    EolsAppend(a + b, c);
    EolsAppend(a, b);
    assert b[1..] == "= " && b[1..][1..] == " " && b[1..][1..][1..] == "";
  }

  /** Skipping whitespace stays within a line. */
  lemma {:induction false} SkipBody(s: string, t: string) returns (u: string)
    requires Eols(s) == 0 && t != "" && IsEOL(t[0])
    ensures Eols(u) == 0 && SkipWhitespace(s + t) == u + t
    decreases |s|
  {
    if s != "" && IsWhitespace(s[0]) {
      assert (s + t)[1..] == s[1..] + t;
      u := SkipBody(s[1..], t);
    } else {
      u := s;
      assert s == "" ==> s + t == t;
    }
  }

  /** Leading spaces of a value are skipped with the delimiter. */
  lemma {:induction false} SkipSpaces(v: string, t: string) returns (r: string)
    requires t != "" && t[0] == '\n'
    ensures SkipWhitespace(Encode(v, "") + t) == Encode(r, "") + t
    ensures |r| <= |v| && (|r| == |v| ==> r == v) && (v != "" && v[0] == ' ' ==> |r| < |v|)
    decreases |v|
  {
    if v != "" && v[0] == ' ' {
      EncodedCons(v, "", t);
      assert (Encode(v, "") + t)[1..] == Encode(v[1..], "") + t;
      r := SkipSpaces(v[1..], t);
    } else {
      r := v;
      ValueStart(v, t);
    }
  }

  // ---------- necessity

  /** Parsing `text` on top of `p` adds exactly the entries `ks`. */
  ghost predicate ReadsBack(text: string, p: Properties, ks: seq<string>, m: map<string, string>) {
    && ParseItems(Lex(text), p, []).Ok?
    && var r := ParseItems(Lex(text), p, []).value;
    && r.k == p.k + ks
    && forall k :: k in ks ==> k in m && k in r.m && r.m[k] == m[k]
  }

  /** The items of a line whose key is neither empty nor the start of a comment: its key must be read
      as it was printed. */
  lemma FirstKeyGood(k: string, v: string, ks: seq<string>, m: map<string, string>, p: Properties)
    requires k != "" && !IsComment(k[0])
    requires ReadsBack(Line(k, v) + Print(ks, m), p, [k] + ks, m)
    ensures GoodKey(k)
  {
    hide Lex, Line, Print, Encode, ScanKey, Eols, Keys, LexBeforeValue;
    var rest := Print(ks, m);
    var text := Line(k, v) + rest;
    var t := " = " + (Encode(v, "") + ("\n" + rest));
    LinePieces(k, v, rest);
    KeyStart(k, t);
    var s := ScanKey(Encode(k, KEY_SPECIAL) + t);
    NoKeyFails(text, p);
    LineEols(k, v);
    PrintEols(ks, m);
    EolsAppend(Line(k, v), rest);
    assert EndsLine(text);
    LexKeys(text);
    FirstKeyIs(Lex(text), p, s.runes, k, ks);
    KeyComesOut(k, t);
  }

  /** Without a key at the front, parsing fails. */
  lemma NoKeyFails(text: string, p: Properties)
    requires text != ""
    ensures var s := ScanKey(text);
      if s.Invalid? || s.runes == "" then ParseItems(LexKey(text), p, []).Err?
      else LexKey(text) != [] && LexKey(text)[0] == Key(s.runes)
  {
    hide ScanKey, Lex, ScanValue, AfterDelimiter;
    var s := ScanKey(text);
    if s.Scanned? && s.runes == "" {
      assert LexKey(text) == [] + LexBeforeValue(text) == LexValue(AfterDelimiter(text));
    }
  }

  /** When there are no more key items than keys to be read, the first key item is the first key. */
  lemma FirstKeyIs(items: seq<Item>, p: Properties, key: string, k: string, ks: seq<string>)
    requires items != [] && items[0] == Key(key) && Keys(items) <= 1 + |ks|
    requires ParseItems(items, p, []).Ok? && ParseItems(items, p, []).value.k == p.k + ([k] + ks)
    ensures key == k && k !in p.m && |items| >= 2
    ensures items[1].Value? ==>
      var p' := WithEntry(p, [], k, items[1].val);
      ParseItems(items[2..], p', []) == ParseItems(items, p, []) && Keys(items[2..]) <= |ks|
    ensures !items[1].Value? ==> items[1].EOF? && ks == []
  {
    KeysCons(items[0], items[1..]);
    assert [items[0]] + items[1..] == items;
    var r := ParseItems(items, p, []).value;
    assert r.k[|p.k|] == k;
    if items[1].Value? {
      var p' := WithEntry(p, [], key, items[1].val);
      ParseGrows(items[2..], p', []);
      assert [items[1]] + items[2..] == items[1..];
      KeysCons(items[1], items[2..]);
    }
  }

  /** The value of a line whose key is good must be read as it was printed, and by itself. */
  lemma FirstValueGood(k: string, v: string, ks: seq<string>, m: map<string, string>, p: Properties)
    requires GoodKey(k) && k in m && m[k] == v
    requires ReadsBack(Line(k, v) + Print(ks, m), p, [k] + ks, m)
    ensures GoodValue(v)
  {
    hide Lex, Line, Print, Encode, ScanKey, ScanValue, Eols, Keys, ParseItems, SkipWhitespace;
    var rest := Print(ks, m);
    var text := Line(k, v) + rest;
    var line := "\n" + rest;
    var value := Encode(v, "") + line;
    LinePieces(k, v, rest);
    KeyStart(k, " = " + value);
    ScanKeyEncoded(k, " = " + value);
    DelimiterSkipped(value);
    var u := SkipWhitespace(value);
    var items := Lex(text);
    assert items == [Key(k)] + LexValue(u);
    var r := SkipSpaces(v, line);
    LineEols(k, v);
    PrintEols(ks, m);
    EolsAppend(Line(k, v), rest);
    assert EndsLine(text);
    LexKeys(text);
    FirstKeyIs(items, p, k, k, ks);
    assert [k] + ks == [k] + ks && k in [k] + ks;
    var out := ScanValue(u);
    assert out.Scanned? && items[1] == Value(out.runes) by { ValueItem(u); }
    ValueComesOut(r, rest);
    var p' := WithEntry(p, [], k, out.runes);
    var more := items[2..];
    assert more == if out.rest == "" then [EOF("")] else Lex(out.rest[1..]);
    var q := ParseItems(items, p, []).value;
    ParseGrows(more, p', []);
    assert q.k == p.k + ([k] + ks) && p'.k == p.k + [k];
    assert |q.k| - |p'.k| == |ks|;
    assert q.m[k] == out.runes;
    OutcomeGood(out, r, v, rest, more, |ks|);
  }

  lemma ValueItem(u: string)
    ensures LexValue(u) != [] && (LexValue(u)[0].Value? || LexValue(u)[0].Error?)
    ensures LexValue(u)[0].Value? ==> ScanValue(u).Scanned? && LexValue(u)[0] == Value(ScanValue(u).runes)
  {
    hide ScanValue, Lex;
  }

  /** A value read whole is good: joined lines would cost a key. */
  lemma OutcomeGood(out: Scan, r: string, v: string, rest: string, more: seq<Item>, n: nat)
    requires ValueOutcome(out, r, rest) && out.runes == v && EndsLine(rest) && Eols(rest) == n
    requires |r| <= |v| && (|r| == |v| ==> r == v) && (v != "" && v[0] == ' ' ==> |r| < |v|)
    requires out.rest != "" ==> IsEOL(out.rest[0])
    requires more == (if out.rest == "" then [EOF("")] else Lex(out.rest[1..])) && Keys(more) >= n
    ensures GoodValue(v)
  {
    hide Lex, ScanValue, Eols, Keys, SkipWhitespace;
    if out.rest == "\n" + rest && |out.runes| <= |r| && (out.runes == r ==> '\\' !in r) {
    } else {
      var s := SkipWhitespace(rest);
      SkipWhitespaceTail(rest);
      ScanValueTail(s);
      TailTrans(out.rest, s, rest);
      TailEols(out.rest, rest);
      if out.rest == "" {
        KeysOfEnd();
        if rest != "" {
          EndsLineEols(rest);
        }
      } else {
        EolsHead(out.rest);
        TailEols(out.rest[1..], out.rest);
        LexKeys(out.rest[1..]);
      }
    }
  }

  /** A parse result with the keys `ks`, in that order, and the values `m`. */
  predicate SameEntries(r: Result<Properties>, ks: seq<string>, m: map<string, string>) {
    r.Ok? && r.value.k == ks && r.value.m == m
  }

  /** If printed entries are read back, all of them are good. */
  lemma {:induction false} OnlyGoodReadsBack(ks: seq<string>, m: map<string, string>, p: Properties)
    requires Distinct(ks) && (forall k :: k in ks ==> k in m && k !in p.m)
    requires ReadsBack(Print(ks, m), p, ks, m)
    ensures forall k :: k in ks ==> GoodKey(k) && GoodValue(m[k])
    decreases |ks|
  {
    hide Lex, Line, ParseItems, Keys, Distinct;
    if ks != [] {
      var k, rest := ks[0], ks[1..];
      var v := m[k];
      assert [k] + rest == ks;
      if k == "" {
        EmptyKeyFails(v, Print(rest, m), p);
      } else if IsComment(k[0]) {
        CommentFails(k, v, rest, m, p);
      } else {
        FirstKeyGood(k, v, rest, m, p);
        FirstValueGood(k, v, rest, m, p);
        DistinctHead(ks);
        RestReadsBack(k, v, rest, m, p);
        OnlyGoodReadsBack(rest, m, WithEntry(p, [], k, v));
      }
    }
  }

  lemma CommentFails(k: string, v: string, ks: seq<string>, m: map<string, string>, p: Properties)
    requires k != "" && IsComment(k[0])
    ensures !ReadsBack(Line(k, v) + Print(ks, m), p, [k] + ks, m)
  {
    hide Lex, Line, Print, Keys, Eols, EndsLine;
    var rest := Print(ks, m);
    PrintEols(ks, m);
    LexKeys(rest);
    CommentLine(k, v, rest);
    var c :| Lex(Line(k, v) + rest) == [Comment(c)] + Lex(rest);
    var items := [Comment(c)] + Lex(rest);
    assert items[1..] == Lex(rest) && [] + [c] == [c];
    if ParseItems(items, p, []).Ok? {
      ParseGrows(Lex(rest), p, [c]);
    }
  }

  /** Behind a good first line, the other entries are read back on their own. */
  lemma RestReadsBack(k: string, v: string, ks: seq<string>, m: map<string, string>, p: Properties)
    requires GoodKey(k) && GoodValue(v)
    requires ReadsBack(Line(k, v) + Print(ks, m), p, [k] + ks, m) && k !in p.m
    ensures ReadsBack(Print(ks, m), WithEntry(p, [], k, v), ks, m)
  {
    hide Lex, Line, Print, GoodKey, GoodValue;
    var rest := Print(ks, m);
    GoodLine(k, v, rest);
    var items := [Key(k), Value(v)] + Lex(rest);
    assert items[2..] == Lex(rest);
    assert p.k + ([k] + ks) == p.k + [k] + ks;
  }

  /** Printing and parsing give properties back, with the same map and the same order of keys, if and
      only if every key and every value is covered; there are no comments then. */
  lemma RoundTripIff(ks: seq<string>, m: map<string, string>)
    requires Distinct(ks) && (forall k :: k in ks <==> k in m)
    ensures SameEntries(Parse(Print(ks, m)), ks, m) <==> forall k :: k in ks ==> GoodKey(k) && GoodValue(m[k])
    ensures SameEntries(Parse(Print(ks, m)), ks, m) ==> Parse(Print(ks, m)).value.c == map[]
  {
    hide Distinct, GoodKey, GoodValue, Print, Lex, ParseItems;
    if forall k :: k in ks ==> GoodKey(k) && GoodValue(m[k]) {
      GoodRoundTrip(ks, m);
    }
    if SameEntries(Parse(Print(ks, m)), ks, m) {
      assert [] + ks == ks;
      OnlyGoodReadsBack(ks, m, NoProperties());
    }
  }
}
