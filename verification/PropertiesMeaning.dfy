/** What a parsed text means, told by its items alone: which keys there are and in which order, whose
    value counts when a key is repeated, and whose comments. */
module PropertiesMeaning {
  import opened Common
  import opened PropertiesText

  // ---------- the shape of a text's items

  predicate Final(i: Item) {
    i.EOF? || i.Error?
  }

  /** The end or an error comes last and only there, and a key is followed by its value or by that. */
  ghost predicate Shaped(items: seq<Item>) {
    && items != [] && Final(items[|items| - 1])
    && forall i :: 0 <= i < |items| - 1 ==>
         !Final(items[i]) && (items[i].Key? ==> items[i + 1].Value? || Final(items[i + 1]))
  }

  lemma ShapedCons(i: Item, items: seq<Item>)
    requires Shaped(items) && !Final(i) && (i.Key? ==> items[0].Value? || Final(items[0]))
    ensures Shaped([i] + items)
  {
    var all := [i] + items;
    forall j | 0 <= j < |all| - 1
      ensures !Final(all[j]) && (all[j].Key? ==> all[j + 1].Value? || Final(all[j + 1]))
    {
      assert all[j + 1] == items[j];
      if j > 0 {
        assert all[j] == items[j - 1];
      }
    }
    assert all[|all| - 1] == items[|items| - 1];
  }

  lemma ShapedEnd()
    ensures Shaped([EOF("")]) && Shaped([Error])
  {}

  lemma {:induction false} LexShaped(s: string)
    ensures Shaped(Lex(s))
    decreases |s|, 3
  {
    hide LexKey, LexComment, SkipWhitespace;
    if s != "" {
      if IsEOL(s[0]) {
        LexShaped(s[1..]);
      } else if IsComment(s[0]) {
        LexCommentShaped(s[1..]);
      } else {
        LexKeyShaped(if IsWhitespace(s[0]) then SkipWhitespace(s[1..]) else s);
      }
    }
  }

  lemma {:induction false} LexCommentShaped(s: string)
    ensures Shaped(LexComment(s))
    decreases |s|, 4
  {
    hide Lex, SkipWhitespace, ScanComment;
    var c := ScanComment(SkipWhitespace(s));
    if c.rest != "" {
      LexShaped(c.rest[1..]);
      ShapedCons(Comment(c.runes), Lex(c.rest[1..]));
    }
  }

  lemma {:induction false} LexKeyShaped(s: string)
    ensures Shaped(LexKey(s))
    decreases |s|, 2
  {
    hide Lex, ScanKey, LexBeforeValue, Shaped;
    var k := ScanKey(s);
    ShapedEnd();
    if k.Scanned? {
      var more := if k.rest == "" then [EOF("")] else LexBeforeValue(k.rest);
      if k.rest != "" {
        LexBeforeValueShaped(k.rest);
      }
      assert [] + more == more;
      ShapedCons(Key(k.runes), more);
    }
  }

  lemma {:induction false} LexBeforeValueShaped(s: string)
    ensures Shaped(LexBeforeValue(s)) && (LexBeforeValue(s)[0].Value? || Final(LexBeforeValue(s)[0]))
    decreases |s|, 1
  {
    hide Lex, ScanValue, AfterDelimiter;
    var v := ScanValue(AfterDelimiter(s));
    if v.Scanned? {
      if v.rest != "" {
        LexShaped(v.rest[1..]);
      }
      ShapedCons(Value(v.runes), if v.rest == "" then [EOF("")] else Lex(v.rest[1..]));
    }
  }

  // ---------- reading the items

  /** The first of the first `n` items that is the key `x`, or `n`. */
  function FirstKey(items: seq<Item>, n: nat, x: string): (i: nat)
    requires n <= |items|
    ensures i <= n
  {
    if n == 0 then 0
    else
      var i := FirstKey(items, n - 1, x);
      if i < n - 1 || items[n - 1] == Key(x) then i else n
  }

  /** The last of the first `n` items that is the key `x`, or -1. */
  function LastKey(items: seq<Item>, n: nat, x: string): (i: int)
    requires n <= |items|
    ensures -1 <= i < n
  {
    if n == 0 then -1 else if items[n - 1] == Key(x) then n - 1 else LastKey(items, n - 1, x)
  }

  /** The comments directly before an item. */
  function CommentsBefore(items: seq<Item>, n: nat): (cs: seq<string>)
    requires n <= |items|
  {
    if n == 0 || !items[n - 1].Comment? then [] else CommentsBefore(items, n - 1) + [items[n - 1].val]
  }

  /** The last of the first `n` items that is the key `x` with comments before it, or -1. */
  function LastCommented(items: seq<Item>, n: nat, x: string): (i: int)
    requires n <= |items|
    ensures -1 <= i < n
  {
    if n == 0 then -1
    else if items[n - 1] == Key(x) && CommentsBefore(items, n - 1) != [] then n - 1
    else LastCommented(items, n - 1, x)
  }

  lemma {:induction false} FirstKeyIs(items: seq<Item>, n: nat, x: string)
    requires n <= |items|
    ensures var i := FirstKey(items, n, x);
      (i < n ==> items[i] == Key(x)) && forall j :: 0 <= j < i ==> items[j] != Key(x)
  {
    if n > 0 {
      FirstKeyIs(items, n - 1, x);
    }
  }

  lemma {:induction false} LastKeyIs(items: seq<Item>, n: nat, x: string)
    requires n <= |items|
    ensures var i := LastKey(items, n, x);
      (i >= 0 ==> items[i] == Key(x)) && forall j :: i < j < n ==> items[j] != Key(x)
  {
    if n > 0 {
      LastKeyIs(items, n - 1, x);
    }
  }

  lemma {:induction false} LastCommentedIs(items: seq<Item>, n: nat, x: string)
    requires n <= |items|
    ensures var i := LastCommented(items, n, x);
      && (i >= 0 ==> items[i] == Key(x) && CommentsBefore(items, i) != [])
      && forall j :: i < j < n ==> items[j] != Key(x) || CommentsBefore(items, j) == []
  {
    if n > 0 {
      LastCommentedIs(items, n - 1, x);
    }
  }

  /** They are the longest run of comments that ends there. */
  lemma {:induction false} CommentsBeforeIs(items: seq<Item>, n: nat)
    requires n <= |items|
    ensures var cs := CommentsBefore(items, n);
      && |cs| <= n && (forall j :: 0 <= j < |cs| ==> items[n - |cs| + j] == Comment(cs[j]))
      && (|cs| < n ==> !items[n - |cs| - 1].Comment?)
  {
    if n > 0 && items[n - 1].Comment? {
      CommentsBeforeIs(items, n - 1);
    }
  }

  /** The value of the key at `i`: that of the value item behind it, and empty when there is none. */
  function ValueAt(items: seq<Item>, i: nat): (v: string) {
    if i + 1 < |items| && items[i + 1].Value? then items[i + 1].val else ""
  }

  /** The keys and the last value of each. */
  ghost predicate SaysValues(items: seq<Item>, n: nat, m: map<string, string>)
    requires n <= |items|
  {
    && (forall x :: x in m <==> LastKey(items, n, x) >= 0)
    && (forall x :: x in m ==> m[x] == ValueAt(items, LastKey(items, n, x)))
  }

  /** The keys in order of first occurrence. */
  ghost predicate SaysOrder(items: seq<Item>, n: nat, ks: seq<string>)
    requires n <= |items|
  {
    && (forall x :: x in ks <==> LastKey(items, n, x) >= 0)
    && (forall i, j :: 0 <= i < j < |ks| ==> FirstKey(items, n, ks[i]) < FirstKey(items, n, ks[j]))
  }

  /** For each key, the comments before its last occurrence that has any. */
  ghost predicate SaysComments(items: seq<Item>, n: nat, c: map<string, seq<string>>)
    requires n <= |items|
  {
    && (forall x :: x in c <==> LastCommented(items, n, x) >= 0)
    && (forall x :: x in c ==> c[x] == CommentsBefore(items, LastCommented(items, n, x)))
  }

  /** `p` is what the first `n` items say. */
  ghost predicate Says(items: seq<Item>, n: nat, p: Properties)
    requires n <= |items|
  {
    SaysValues(items, n, p.m) && SaysOrder(items, n, p.k) && SaysComments(items, n, p.c)
  }

  lemma FirstAndLast(items: seq<Item>, n: nat, x: string)
    requires n <= |items|
    ensures LastKey(items, n, x) >= 0 <==> FirstKey(items, n, x) < n
  {
    hide FirstKey, LastKey;
    FirstKeyIs(items, n, x);
    LastKeyIs(items, n, x);
  }

  lemma KeyStep(items: seq<Item>, n: nat, x: string)
    requires n < |items|
    ensures LastKey(items, n + 1, x) == if items[n] == Key(x) then n else LastKey(items, n, x)
    ensures LastCommented(items, n + 1, x) ==
      if items[n] == Key(x) && CommentsBefore(items, n) != [] then n else LastCommented(items, n, x)
    ensures FirstKey(items, n, x) < n ==> FirstKey(items, n + 1, x) == FirstKey(items, n, x)
    ensures FirstKey(items, n, x) == n && items[n] == Key(x) ==> FirstKey(items, n + 1, x) == n
  {
    hide CommentsBefore;
  }

  /** An item that is no key says nothing more. */
  lemma SaysMore(items: seq<Item>, n: nat, p: Properties)
    requires n < |items| && !items[n].Key? && Says(items, n, p)
    ensures Says(items, n + 1, p)
  {
    hide FirstKey, LastKey, LastCommented, CommentsBefore, ValueAt;
    forall x
      ensures LastKey(items, n + 1, x) == LastKey(items, n, x)
      ensures LastCommented(items, n + 1, x) == LastCommented(items, n, x)
    {
      KeyStep(items, n, x);
    }
    forall i | 0 <= i < |p.k| ensures FirstKey(items, n + 1, p.k[i]) == FirstKey(items, n, p.k[i]) {
      assert p.k[i] in p.k;
      FirstAndLast(items, n, p.k[i]);
      KeyStep(items, n, p.k[i]);
    }
  }

  /** A key says what its entry is. */
  lemma SaysEntry(items: seq<Item>, n: nat, p: Properties)
    requires n < |items| && items[n].Key? && Says(items, n, p)
    ensures Says(items, n + 1, WithEntry(p, CommentsBefore(items, n), items[n].val, ValueAt(items, n)))
  {
    hide CommentsBefore, ValueAt, SaysValues, SaysOrder, SaysComments;
    ValuesWithEntry(items, n, p.m);
    SameKeys(items, n, p);
    OrderWithEntry(items, n, p.k);
    CommentsWithEntry(items, n, p.c);
  }

  lemma SameKeys(items: seq<Item>, n: nat, p: Properties)
    requires n < |items| && items[n].Key? && SaysValues(items, n, p.m) && SaysOrder(items, n, p.k)
    ensures items[n].val in p.m <==> items[n].val in p.k
  {
    hide FirstKey, LastKey;
  }

  lemma ValuesWithEntry(items: seq<Item>, n: nat, m: map<string, string>)
    requires n < |items| && items[n].Key? && SaysValues(items, n, m)
    ensures SaysValues(items, n + 1, m[items[n].val := ValueAt(items, n)])
  {
    hide ValueAt, LastKey, LastCommented, FirstKey;
    var key, m' := items[n].val, m[items[n].val := ValueAt(items, n)];
    forall x ensures x in m' <==> LastKey(items, n + 1, x) >= 0 {
      KeyStep(items, n, x);
      assert x in m <==> LastKey(items, n, x) >= 0;
    }
    forall x | x in m' ensures LastKey(items, n + 1, x) >= 0 && m'[x] == ValueAt(items, LastKey(items, n + 1, x)) {
      KeyStep(items, n, x);
      assert x != key ==> x in m;
    }
  }

  lemma CommentsWithEntry(items: seq<Item>, n: nat, c: map<string, seq<string>>)
    requires n < |items| && items[n].Key? && SaysComments(items, n, c)
    ensures var cs := CommentsBefore(items, n);
      SaysComments(items, n + 1, if cs == [] then c else c[items[n].val := cs])
  {
    hide CommentsBefore, LastKey, LastCommented, FirstKey;
    var key, cs := items[n].val, CommentsBefore(items, n);
    var c' := if cs == [] then c else c[key := cs];
    forall x ensures x in c' <==> LastCommented(items, n + 1, x) >= 0 {
      KeyStep(items, n, x);
      assert x in c <==> LastCommented(items, n, x) >= 0;
    }
    forall x | x in c'
      ensures LastCommented(items, n + 1, x) >= 0 && c'[x] == CommentsBefore(items, LastCommented(items, n + 1, x))
    {
      KeyStep(items, n, x);
      assert x != key || cs == [] ==> x in c;
    }
  }

  lemma OrderWithEntry(items: seq<Item>, n: nat, ks: seq<string>)
    requires n < |items| && items[n].Key? && SaysOrder(items, n, ks)
    ensures var key := items[n].val; SaysOrder(items, n + 1, if key in ks then ks else ks + [key])
  {
    hide LastCommented, CommentsBefore, LastKey, FirstKey;
    var key := items[n].val;
    var all := if key in ks then ks else ks + [key];
    forall i | 0 <= i < |ks| ensures FirstKey(items, n + 1, ks[i]) == FirstKey(items, n, ks[i]) < n {
      assert ks[i] in ks;
      FirstAndLast(items, n, ks[i]);
      KeyStep(items, n, ks[i]);
    }
    FirstAndLast(items, n, key);
    KeyStep(items, n, key);
    forall i, j | 0 <= i < j < |all| ensures FirstKey(items, n + 1, all[i]) < FirstKey(items, n + 1, all[j]) {
      assert all[i] == ks[i];
      if j < |ks| {
        assert all[j] == ks[j];
      }
    }
    forall x ensures x in all <==> LastKey(items, n + 1, x) >= 0 {
      KeyStep(items, n, x);
    }
  }

  /** Parsing the rest of the items says the rest. */
  lemma {:induction false} ParseSays(items: seq<Item>, n: nat, p: Properties)
    requires Shaped(items) && n < |items| && Says(items, n, p)
    requires ParseItems(items[n..], p, CommentsBefore(items, n)).Ok?
    ensures Says(items, |items|, ParseItems(items[n..], p, CommentsBefore(items, n)).value)
    decreases |items| - n
  {
    hide Says;
    var rest, comments := items[n..], CommentsBefore(items, n);
    assert rest[0] == items[n] && rest[1..] == items[n + 1..];
    match items[n] {
      case EOF(_) =>
        assert n == |items| - 1;
        SaysMore(items, n, p);
      case Comment(c) =>
        SaysMore(items, n, p);
        ParseSays(items, n + 1, p);
      case Key(key) =>
        assert rest[1] == items[n + 1] && rest[2..] == items[n + 2..];
        var q := WithEntry(p, comments, key, ValueAt(items, n));
        SaysEntry(items, n, p);
        SaysMore(items, n + 1, q);
        if items[n + 1].Value? {
          assert CommentsBefore(items, n + 2) == [];
          ParseSays(items, n + 2, q);
        }
      case Value(_) =>
      case Error =>
    }
  }

  /** Item `i` is no error, and if it is a value, a key of the items from `n` on stands before it. */
  ghost predicate Fine(items: seq<Item>, n: nat, i: nat)
    requires n <= i < |items|
  {
    !items[i].Error? && (items[i].Value? ==> i > n && items[i - 1].Key?)
  }

  /** All items from `n` on are fine. */
  ghost predicate Sensible(items: seq<Item>, n: nat) {
    forall i :: n <= i < |items| ==> Fine(items, n, i)
  }

  lemma {:induction false} ParseSucceeds(items: seq<Item>, n: nat, p: Properties, comments: seq<string>)
    requires Shaped(items) && n < |items|
    ensures ParseItems(items[n..], p, comments).Ok? <==> Sensible(items, n)
    decreases |items| - n
  {
    var rest := items[n..];
    assert rest[0] == items[n] && rest[1..] == items[n + 1..];
    match items[n] {
      case EOF(_) => assert n == |items| - 1;
      case Comment(c) =>
        ParseSucceeds(items, n + 1, p, comments + [c]);
        SensibleFrom(items, n);
      case Key(key) =>
        assert rest[1] == items[n + 1] && rest[2..] == items[n + 2..];
        if items[n + 1].Value? {
          ParseSucceeds(items, n + 2, WithEntry(p, comments, key, items[n + 1].val), []);
          SensibleEntry(items, n);
        } else {
          assert n + 1 == |items| - 1;
          assert Fine(items, n, n + 1) <==> items[n + 1].EOF?;
        }
      case Value(_) => assert !Fine(items, n, n);
      case Error => assert !Fine(items, n, n);
    }
  }

  lemma SensibleFrom(items: seq<Item>, n: nat)
    requires n < |items| && items[n].Comment?
    ensures Sensible(items, n) <==> Sensible(items, n + 1)
  {
    if Sensible(items, n) {
      var next := n + 1;
      forall i | next <= i < |items| ensures Fine(items, next, i) {
        assert Fine(items, n, i);
      }
    }
    if Sensible(items, n + 1) {
      forall i | n <= i < |items| ensures Fine(items, n, i) {
        assert i > n ==> Fine(items, n + 1, i);
      }
    }
  }

  lemma SensibleEntry(items: seq<Item>, n: nat)
    requires n + 2 < |items| && items[n].Key? && items[n + 1].Value?
    ensures Sensible(items, n) <==> Sensible(items, n + 2)
  {
    if Sensible(items, n) {
      var next := n + 2;
      forall i | next <= i < |items| ensures Fine(items, next, i) {
        assert Fine(items, n, i);
      }
    }
    if Sensible(items, n + 2) {
      forall i | n <= i < |items| ensures Fine(items, n, i) {
        assert i > n + 1 ==> Fine(items, n + 2, i);
      }
    }
  }

  /** Parsing a text succeeds if and only if no item is an error and every value has a key. */
  lemma ParsesIff(text: string)
    ensures Parse(text).Ok? <==> Sensible(Lex(text), 0)
  {
    hide Lex, ParseItems, Sensible;
    var items := Lex(text);
    LexShaped(text);
    assert items[0..] == items;
    ParseSucceeds(items, 0, NoProperties(), []);
  }

  /** A key with comments before it, and no later occurrence with comments. */
  ghost predicate LastWithComments(items: seq<Item>, i: nat)
    requires i < |items|
  {
    && items[i].Key? && CommentsBefore(items, i) != []
    && forall j :: i < j < |items| && items[j] == items[i] ==> CommentsBefore(items, j) == []
  }

  lemma ParsedSays(text: string)
    requires Parse(text).Ok?
    ensures Says(Lex(text), |Lex(text)|, Parse(text).value)
  {
    hide Lex, ParseItems, Says;
    var items := Lex(text);
    LexShaped(text);
    assert items[0..] == items;
    NothingSaid(items);
    ParseSays(items, 0, NoProperties());
  }

  /** A parsed text has the keys among its items, each with the last value given to it. */
  lemma LastValueCounts(text: string)
    requires Parse(text).Ok?
    ensures var items, p := Lex(text), Parse(text).value;
      && (forall x :: x in p.m <==> Key(x) in items)
      && (forall i :: 0 <= i < |items| && items[i].Key? && items[i] !in items[i + 1..] ==>
            items[i].val in p.m && p.m[items[i].val] == ValueAt(items, i))
  {
    hide Lex, ParseItems, LastKey, ValueAt, SaysOrder, SaysComments, Parse;
    var items, p := Lex(text), Parse(text).value;
    ParsedSays(text);
    forall x ensures x in p.m <==> Key(x) in items {
      LastKeyIs(items, |items|, x);
      assert x in p.m <==> LastKey(items, |items|, x) >= 0;
    }
    forall i | 0 <= i < |items| && items[i].Key? && items[i] !in items[i + 1..]
      ensures items[i].val in p.m && p.m[items[i].val] == ValueAt(items, i)
    {
      OnlyLast(items, i);
      assert items[i].val in p.m <==> LastKey(items, |items|, items[i].val) >= 0;
    }
  }

  /** Its keys are listed once each, in order of first occurrence. */
  lemma KeysInOrder(text: string)
    requires Parse(text).Ok?
    ensures var items, p := Lex(text), Parse(text).value;
      && (forall x :: x in p.k <==> Key(x) in items) && Distinct(p.k)
      && (forall i, j :: 0 <= i < j < |p.k| ==> FirstKey(items, |items|, p.k[i]) < FirstKey(items, |items|, p.k[j]))
  {
    hide Lex, ParseItems, LastKey, FirstKey, SaysValues, SaysComments, Parse;
    var items, p := Lex(text), Parse(text).value;
    ParsedSays(text);
    forall x ensures x in p.k <==> Key(x) in items {
      LastKeyIs(items, |items|, x);
      assert x in p.k <==> LastKey(items, |items|, x) >= 0;
    }
    forall i, j | 0 <= i < j < |p.k| ensures p.k[i] != p.k[j] {
      assert FirstKey(items, |items|, p.k[i]) < FirstKey(items, |items|, p.k[j]);
    }
  }

  /** And each key has the comments directly before its last occurrence that has any. */
  lemma CommentsOfLast(text: string)
    requires Parse(text).Ok?
    ensures var items, p := Lex(text), Parse(text).value;
      && (forall x :: x in p.c <==> exists i :: 0 <= i < |items| && items[i] == Key(x) && CommentsBefore(items, i) != [])
      && (forall i :: 0 <= i < |items| && LastWithComments(items, i) ==>
            items[i].val in p.c && p.c[items[i].val] == CommentsBefore(items, i))
  {
    hide Lex, ParseItems, LastCommented, CommentsBefore, SaysValues, SaysOrder, Parse;
    var items, p := Lex(text), Parse(text).value;
    ParsedSays(text);
    forall x ensures x in p.c <==> exists i :: 0 <= i < |items| && items[i] == Key(x) && CommentsBefore(items, i) != [] {
      LastCommentedIs(items, |items|, x);
      assert x in p.c <==> LastCommented(items, |items|, x) >= 0;
    }
    forall i | 0 <= i < |items| && LastWithComments(items, i)
      ensures items[i].val in p.c && p.c[items[i].val] == CommentsBefore(items, i)
    {
      LastCommentedIs(items, |items|, items[i].val);
      assert LastCommented(items, |items|, items[i].val) == i;
      assert items[i].val in p.c <==> LastCommented(items, |items|, items[i].val) >= 0;
    }
  }

  lemma OnlyLast(items: seq<Item>, i: nat)
    requires i < |items| && items[i].Key? && items[i] !in items[i + 1..]
    ensures LastKey(items, |items|, items[i].val) == i
  {
    hide LastKey;
    var l := LastKey(items, |items|, items[i].val);
    LastKeyIs(items, |items|, items[i].val);
    assert forall j :: i < j < |items| ==> items[j] == items[i + 1..][j - i - 1];
  }

  lemma NothingSaid(items: seq<Item>)
    ensures Says(items, 0, NoProperties()) && CommentsBefore(items, 0) == []
  {}
}
