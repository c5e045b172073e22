/** Property expansion of magiconair/properties/properties.go: `expand` replaces expressions
    (prefix)key(postfix), leftmost first, until none is left. */
module Expand {
  import opened Common

  datatype Result<+T> = Ok(value: T) | Malformed | Circular

  predicate OccursAt(s: string, sub: string, i: nat) {
    i + |sub| <= |s| && s[i..i + |sub|] == sub
  }

  /** The first place where `sub` occurs in `s`, or -1. */
  function Index(s: string, sub: string): (i: int)
    ensures -1 <= i && (i >= 0 ==> OccursAt(s, sub, i))
    ensures forall j :: 0 <= j && OccursAt(s, sub, j) ==> 0 <= i <= j
  {
    if OccursAt(s, sub, 0) then 0
    else if s == "" then -1
    else
      var i := Index(s[1..], sub);
      OccursLater(s, sub);
      if i < 0 then -1 else 1 + i
  }

  /** Occurrences behind the first rune are occurrences in the tail. */
  lemma OccursLater(s: string, sub: string)
    requires s != ""
    ensures forall j: nat {:trigger OccursAt(s, sub, j)} :: 1 <= j ==> (OccursAt(s, sub, j) <==> OccursAt(s[1..], sub, j - 1))
    ensures forall j: nat {:trigger OccursAt(s[1..], sub, j)} :: OccursAt(s[1..], sub, j) <==> OccursAt(s, sub, j + 1)
  {
    forall j: nat ensures OccursAt(s[1..], sub, j) <==> OccursAt(s, sub, j + 1) {
      if j + 1 + |sub| <= |s| {
        assert s[1..][j..j + |sub|] == s[j + 1..j + 1 + |sub|];
      }
    }
    forall j: nat | 1 <= j ensures OccursAt(s, sub, j) <==> OccursAt(s[1..], sub, j - 1) {
      assert OccursAt(s[1..], sub, j - 1) <==> OccursAt(s, sub, j - 1 + 1);
    }
  }

  /** What expansion depends on: the delimiters, the properties and the environment. */
  datatype Context = Context(prefix: string, postfix: string, values: map<string, string>, env: map<string, string>) {
    /** A key's value; an undefined one is empty. */
    function Lookup(key: string): (v: string) {
      if key in values then values[key] else if key in env then env[key] else ""
    }

    ghost predicate Defined(key: string) {
      key in values || key in env
    }
  }

  /** An expression found in a string: what precedes it, its key, and what follows. */
  datatype Expression = Expression(before: string, key: string, after: string)

  /** The leftmost expression of a string with a prefix: Malformed when no postfix follows the prefix. */
  function Leftmost(ctx: Context, s: string): (r: Result<Expression>)
    requires Index(s, ctx.prefix) != -1
    ensures r.Ok? ==> |s| == |r.value.before| + |ctx.prefix| + |r.value.key| + |ctx.postfix| + |r.value.after|
    ensures !r.Circular?
  {
    var start := Index(s, ctx.prefix);
    var keyStart := start + |ctx.prefix|;
    var keyLen := Index(s[keyStart..], ctx.postfix);
    if keyLen == -1 then Malformed
    else
      var end := keyStart + keyLen + |ctx.postfix|;
      Ok(Expression(s[..start], s[keyStart..keyStart + keyLen], s[end..]))
  }

  /** The expression found is there: the string is its parts put together. */
  lemma LeftmostSplits(ctx: Context, s: string)
    requires Index(s, ctx.prefix) != -1 && Leftmost(ctx, s).Ok?
    ensures var e := Leftmost(ctx, s).value; s == e.before + ctx.prefix + e.key + ctx.postfix + e.after
  {
    hide Index;
    var a := Index(s, ctx.prefix);
    var b := a + |ctx.prefix|;
    var k := Index(s[b..], ctx.postfix);
    var c, d := b + k, b + k + |ctx.postfix|;
    SliceOfTail(s, b, k, k + |ctx.postfix|);
    FiveParts(s, a, b, c, d);
  }

  lemma FiveParts(s: string, a: nat, b: nat, c: nat, d: nat)
    requires a <= b <= c <= d <= |s|
    ensures s[..a] + s[a..b] + s[b..c] + s[c..d] + s[d..] == s
  {
    assert s[..a] + s[a..b] == s[..b];
    assert s[..b] + s[b..c] == s[..c];
    assert s[..c] + s[c..d] == s[..d];
  }

  /** The string with an expression replaced by its value. */
  function Substituted(ctx: Context, e: Expression): (s: string) {
    e.before + ctx.Lookup(e.key) + e.after
  }

  /** The keys that have a value and have not been seen: each can be expanded only once more. */
  ghost function Fresh(ctx: Context, seen: set<string>): (ks: set<string>) {
    (ctx.values.Keys + ctx.env.Keys) - seen
  }

  /** Remembering a key uses it up when it has a value, and otherwise changes nothing. */
  lemma UsesUp(ctx: Context, seen: set<string>, key: string)
    requires key !in seen
    ensures ctx.Defined(key) ==> |Fresh(ctx, seen + {key})| < |Fresh(ctx, seen)|
    ensures !ctx.Defined(key) ==> Fresh(ctx, seen + {key}) == Fresh(ctx, seen)
  {
    if ctx.Defined(key) {
      assert Fresh(ctx, seen + {key}) == Fresh(ctx, seen) - {key};
    } else {
      assert Fresh(ctx, seen + {key}) == Fresh(ctx, seen);
    }
  }

  /** Expansion is defined for every input: a step uses up a defined key, or shortens the string, or
      (with both delimiters empty) sees the empty key for the first time. */
  function ExpandFrom(ctx: Context, s: string, seen: set<string>): (r: Result<string>)
    ensures r.Ok? ==> Index(r.value, ctx.prefix) == -1
    decreases |Fresh(ctx, seen)|, |s|, if "" in seen then 0 else 1
  {
    if Index(s, ctx.prefix) == -1 then Ok(s)
    else match Leftmost(ctx, s)
      case Malformed => Malformed
      case Circular => Circular
      case Ok(e) =>
        if e.key in seen then Circular
        else
          UsesUp(ctx, seen, e.key);
          ExpandFrom(ctx, Substituted(ctx, e), seen + {e.key})
  }

  /** The expansion of a value; with no delimiters at all there is nothing to expand. */
  function ExpandValue(ctx: Context, s: string): (r: Result<string>)
    ensures r.Ok? && !(ctx.prefix == "" && ctx.postfix == "") ==> Index(r.value, ctx.prefix) == -1
    ensures ctx.prefix == "" && ctx.postfix == "" ==> r == Ok(s)
  {
    if ctx.prefix == "" && ctx.postfix == "" then Ok(s) else ExpandFrom(ctx, s, {})
  }

  // ---------- what a successful expansion is

  /** `n` leftmost replacements, made without asking which keys have been seen. */
  function Rewritten(ctx: Context, s: string, n: nat): (r: Result<string>)
    decreases n
  {
    if n == 0 then Ok(s)
    else if Index(s, ctx.prefix) == -1 then Malformed
    else match Leftmost(ctx, s)
      case Ok(e) => Rewritten(ctx, Substituted(ctx, e), n - 1)
      case _ => Malformed
  }

  /** The keys that the first `n` leftmost replacements replace, in order. */
  function KeysUsed(ctx: Context, s: string, n: nat): (ks: seq<string>)
    requires Rewritten(ctx, s, n).Ok?
    ensures |ks| == n
    decreases n
  {
    if n == 0 then []
    else
      var e := Leftmost(ctx, s).value;
      [e.key] + KeysUsed(ctx, Substituted(ctx, e), n - 1)
  }

  /** The number of replacements until expansion stops. */
  ghost function Steps(ctx: Context, s: string, seen: set<string>): (n: nat)
    decreases |Fresh(ctx, seen)|, |s|, if "" in seen then 0 else 1
  {
    if Index(s, ctx.prefix) == -1 then 0
    else match Leftmost(ctx, s)
      case Ok(e) =>
        if e.key in seen then 0
        else
          UsesUp(ctx, seen, e.key);
          1 + Steps(ctx, Substituted(ctx, e), seen + {e.key})
      case _ => 0
  }

  /** A successful expansion is the normal form of plain leftmost replacement: the bookkeeping of keys
      only decides when to give up. */
  lemma {:induction false} SuccessIsNormalForm(ctx: Context, s: string, seen: set<string>)
    requires ExpandFrom(ctx, s, seen).Ok?
    ensures Rewritten(ctx, s, Steps(ctx, s, seen)) == ExpandFrom(ctx, s, seen)
    ensures Index(ExpandFrom(ctx, s, seen).value, ctx.prefix) == -1
    decreases Steps(ctx, s, seen)
  {
    hide Index;
    if Index(s, ctx.prefix) != -1 {
      var e := Leftmost(ctx, s).value;
      SuccessIsNormalForm(ctx, Substituted(ctx, e), seen + {e.key});
    }
  }

  /** What has been seen can only turn success into failure, never change a result. */
  lemma {:induction false} SeenOnlyRefuses(ctx: Context, s: string, seen: set<string>, fewer: set<string>)
    requires fewer <= seen && ExpandFrom(ctx, s, seen).Ok?
    ensures ExpandFrom(ctx, s, fewer) == ExpandFrom(ctx, s, seen)
    decreases Steps(ctx, s, seen)
  {
    hide Index;
    if Index(s, ctx.prefix) != -1 {
      var e := Leftmost(ctx, s).value;
      SeenOnlyRefuses(ctx, Substituted(ctx, e), seen + {e.key}, fewer + {e.key});
    }
  }

  // ---------- when expansion is refused

  /** The elements of `seen` and `ks` are all different. */
  ghost predicate Unrepeated(ks: seq<string>, seen: set<string>) {
    Distinct(ks) && forall i :: 0 <= i < |ks| ==> ks[i] !in seen
  }

  ghost function Elements(ks: seq<string>): (r: set<string>) {
    set k | k in ks
  }

  lemma UnrepeatedCons(key: string, ks: seq<string>, seen: set<string>)
    ensures Unrepeated([key] + ks, seen) <==> key !in seen && Unrepeated(ks, seen + {key})
    ensures Elements([key] + ks) == {key} + Elements(ks)
  {
    var all := [key] + ks;
    assert all[0] == key && all[1..] == ks;
    assert forall i :: 0 <= i < |ks| ==> ks[i] == all[i + 1];
    if Unrepeated(all, seen) {
      forall i, j | 0 <= i < j < |ks| ensures ks[i] != ks[j] {
        assert all[i + 1] != all[j + 1];
      }
    }
  }

  /** Expansion follows plain replacement for as long as no key comes a second time, and gives up as
      soon as one does. */
  lemma {:induction false} Follows(ctx: Context, s: string, seen: set<string>, n: nat)
    requires Rewritten(ctx, s, n).Ok?
    ensures var ks := KeysUsed(ctx, s, n);
      ExpandFrom(ctx, s, seen) ==
      if Unrepeated(ks, seen) then ExpandFrom(ctx, Rewritten(ctx, s, n).value, seen + Elements(ks)) else Circular
    decreases n
  {
    hide Index, Leftmost, Substituted, ExpandFrom, Unrepeated, Elements;
    if n == 0 {
      NothingUsed(seen);
    } else {
      var e := Leftmost(ctx, s).value;
      var next, more := Substituted(ctx, e), seen + {e.key};
      Follows(ctx, next, more, n - 1);
      var ks := KeysUsed(ctx, next, n - 1);
      UnrepeatedCons(e.key, ks, seen);
      ExpandStep(ctx, s, seen);
      assert seen + ({e.key} + Elements(ks)) == more + Elements(ks);
    }
  }

  lemma NothingUsed(seen: set<string>)
    ensures Unrepeated([], seen) && seen + Elements([]) == seen
  {}

  /** Plain replacement comes to an end after `n` replacements: no expression is left. */
  ghost predicate Finishes(ctx: Context, s: string, n: nat) {
    Rewritten(ctx, s, n).Ok? && Index(Rewritten(ctx, s, n).value, ctx.prefix) == -1
  }

  /** Plain replacement cannot go on after `n` replacements: the next expression is malformed. */
  ghost predicate Breaks(ctx: Context, s: string, n: nat) {
    && Rewritten(ctx, s, n).Ok?
    && Index(Rewritten(ctx, s, n).value, ctx.prefix) != -1
    && Leftmost(ctx, Rewritten(ctx, s, n).value).Malformed?
  }

  /** Plain replacement can go on after `n` replacements, of different keys, but with one of these. */
  ghost predicate Returns(ctx: Context, s: string, n: nat) {
    && Rewritten(ctx, s, n).Ok? && Distinct(KeysUsed(ctx, s, n))
    && Index(Rewritten(ctx, s, n).value, ctx.prefix) != -1
    && Leftmost(ctx, Rewritten(ctx, s, n).value).Ok?
    && Leftmost(ctx, Rewritten(ctx, s, n).value).value.key in KeysUsed(ctx, s, n)
  }

  /** Where plain replacement finishes, expansion gives its result, except that it is refused if and
      only if some key was replaced twice on the way. */
  lemma FinishedExpansion(ctx: Context, s: string, n: nat)
    requires Finishes(ctx, s, n)
    ensures ExpandFrom(ctx, s, {}) == if Distinct(KeysUsed(ctx, s, n)) then Rewritten(ctx, s, n) else Circular
  {
    hide Index, Leftmost, ExpandFrom, Rewritten, KeysUsed;
    Follows(ctx, s, {}, n);
    ExpandStep(ctx, Rewritten(ctx, s, n).value, {} + Elements(KeysUsed(ctx, s, n)));
  }

  /** Where plain replacement breaks, expansion says so, unless a key was replaced twice before. */
  lemma BrokenExpansion(ctx: Context, s: string, n: nat)
    requires Breaks(ctx, s, n)
    ensures ExpandFrom(ctx, s, {}) == if Distinct(KeysUsed(ctx, s, n)) then Malformed else Circular
  {
    hide Index, Leftmost, ExpandFrom, Rewritten, KeysUsed;
    Follows(ctx, s, {}, n);
    ExpandStep(ctx, Rewritten(ctx, s, n).value, {} + Elements(KeysUsed(ctx, s, n)));
  }

  /** Every expansion follows plain replacement to an end of one of the three kinds. */
  lemma {:induction false} Ends(ctx: Context, s: string, seen: set<string>)
    ensures var n := Steps(ctx, s, seen);
      && Rewritten(ctx, s, n).Ok? && Unrepeated(KeysUsed(ctx, s, n), seen)
      && match ExpandFrom(ctx, s, seen)
         case Ok(_) => Finishes(ctx, s, n)
         case Malformed => Breaks(ctx, s, n)
         case Circular =>
           && Index(Rewritten(ctx, s, n).value, ctx.prefix) != -1
           && Leftmost(ctx, Rewritten(ctx, s, n).value).Ok?
           && Leftmost(ctx, Rewritten(ctx, s, n).value).value.key in seen + Elements(KeysUsed(ctx, s, n))
    decreases Steps(ctx, s, seen)
  {
    hide Index, Leftmost, Substituted, Unrepeated, Elements;
    NothingUsed(seen);
    if Index(s, ctx.prefix) != -1 && Leftmost(ctx, s).Ok? && Leftmost(ctx, s).value.key !in seen {
      var e := Leftmost(ctx, s).value;
      var next, more := Substituted(ctx, e), seen + {e.key};
      Ends(ctx, next, more);
      var ks := KeysUsed(ctx, next, Steps(ctx, next, more));
      UnrepeatedCons(e.key, ks, seen);
      assert seen + ({e.key} + Elements(ks)) == more + Elements(ks);
    }
  }

  /** Expansion is refused as circular if and only if plain replacement comes to a key for the second
      time: it comes back to one of the keys before it, and has then replaced a key twice. */
  lemma CircularIff(ctx: Context, s: string)
    ensures ExpandFrom(ctx, s, {}) == Circular <==> exists n: nat :: Returns(ctx, s, n)
    ensures ExpandFrom(ctx, s, {}) == Circular <==>
      exists n: nat :: Rewritten(ctx, s, n).Ok? && !Distinct(KeysUsed(ctx, s, n))
  {
    hide Index, Leftmost, ExpandFrom, Rewritten, KeysUsed;
    if ExpandFrom(ctx, s, {}) == Circular {
      Ends(ctx, s, {});
      var n := Steps(ctx, s, {});
      assert Returns(ctx, s, n);
      ReturnRepeats(ctx, s, n);
    }
    forall n: nat | Rewritten(ctx, s, n).Ok? && !Distinct(KeysUsed(ctx, s, n)) ensures ExpandFrom(ctx, s, {}) == Circular {
      Follows(ctx, s, {}, n);
    }
    forall n: nat | Returns(ctx, s, n) ensures ExpandFrom(ctx, s, {}) == Circular {
      Follows(ctx, s, {}, n);
      ExpandStep(ctx, Rewritten(ctx, s, n).value, {} + Elements(KeysUsed(ctx, s, n)));
    }
  }

  /** Expansion fails as malformed if and only if plain replacement breaks before any key repeats. */
  lemma MalformedIff(ctx: Context, s: string)
    ensures ExpandFrom(ctx, s, {}) == Malformed <==>
      exists n: nat :: Breaks(ctx, s, n) && Distinct(KeysUsed(ctx, s, n))
  {
    hide Index, Leftmost, ExpandFrom, Rewritten, KeysUsed;
    if ExpandFrom(ctx, s, {}) == Malformed {
      Ends(ctx, s, {});
      assert Breaks(ctx, s, Steps(ctx, s, {}));
    }
    forall n: nat | Breaks(ctx, s, n) && Distinct(KeysUsed(ctx, s, n)) ensures ExpandFrom(ctx, s, {}) == Malformed {
      BrokenExpansion(ctx, s, n);
    }
  }

  /** Expansion succeeds if and only if plain replacement finishes before any key repeats. */
  lemma OkIff(ctx: Context, s: string, r: string)
    ensures ExpandFrom(ctx, s, {}) == Ok(r) <==>
      exists n: nat :: Finishes(ctx, s, n) && Distinct(KeysUsed(ctx, s, n)) && Rewritten(ctx, s, n).value == r
  {
    hide Index, Leftmost, ExpandFrom, Rewritten, KeysUsed;
    if ExpandFrom(ctx, s, {}) == Ok(r) {
      Ends(ctx, s, {});
      FinishedExpansion(ctx, s, Steps(ctx, s, {}));
    }
    forall n: nat | Finishes(ctx, s, n) && Distinct(KeysUsed(ctx, s, n)) && Rewritten(ctx, s, n).value == r
      ensures ExpandFrom(ctx, s, {}) == Ok(r)
    {
      FinishedExpansion(ctx, s, n);
    }
  }

  /** A circular reference is refused: when plain replacement goes on for ever, so that there is no
      result to give, expansion stops with Circular. */
  lemma EndlessIsCircular(ctx: Context, s: string)
    requires forall n: nat :: !Finishes(ctx, s, n) && !Breaks(ctx, s, n)
    ensures ExpandFrom(ctx, s, {}) == Circular
  {
    hide Index, Leftmost, ExpandFrom, Rewritten, KeysUsed, Finishes, Breaks;
    Ends(ctx, s, {});
  }

  /** An expression that is its own value is such a reference. */
  lemma {:induction false} SelfReferenceIsEndless(ctx: Context, s: string, n: nat)
    requires Index(s, ctx.prefix) != -1 && Leftmost(ctx, s).Ok? && Substituted(ctx, Leftmost(ctx, s).value) == s
    ensures Rewritten(ctx, s, n) == Ok(s) && !Finishes(ctx, s, n) && !Breaks(ctx, s, n)
    ensures ExpandFrom(ctx, s, {}) == Circular
    decreases n
  {
    hide Index, Leftmost, Substituted;
    if n > 0 {
      SelfReferenceIsEndless(ctx, s, n - 1);
    } else {
      var e := Leftmost(ctx, s).value;
      ExpandStep(ctx, s, {});
      ExpandStep(ctx, s, {} + {e.key});
    }
  }

  /** One more replacement adds the next key. */
  lemma {:induction false} OneMoreKey(ctx: Context, s: string, n: nat)
    requires Rewritten(ctx, s, n).Ok?
    requires var t := Rewritten(ctx, s, n).value; Index(t, ctx.prefix) != -1 && Leftmost(ctx, t).Ok?
    ensures Rewritten(ctx, s, n + 1).Ok?
    ensures KeysUsed(ctx, s, n + 1) == KeysUsed(ctx, s, n) + [Leftmost(ctx, Rewritten(ctx, s, n).value).value.key]
    decreases n
  {
    hide Index, Leftmost, Substituted;
    if n > 0 {
      OneMoreKey(ctx, Substituted(ctx, Leftmost(ctx, s).value), n - 1);
    } else {
      var next := Substituted(ctx, Leftmost(ctx, s).value);
      assert Rewritten(ctx, next, 0).Ok? && KeysUsed(ctx, next, 0) == [];
    }
  }

  lemma ReturnRepeats(ctx: Context, s: string, n: nat)
    requires Returns(ctx, s, n)
    ensures Rewritten(ctx, s, n + 1).Ok? && !Distinct(KeysUsed(ctx, s, n + 1))
  {
    hide Index, Leftmost, Rewritten, KeysUsed;
    OneMoreKey(ctx, s, n);
    var ks, key := KeysUsed(ctx, s, n), Leftmost(ctx, Rewritten(ctx, s, n).value).value.key;
    var i :| 0 <= i < n && ks[i] == key;
    assert (ks + [key])[i] == (ks + [key])[n];
  }

  // ---------- one expression, in terms of properties and environment

  /** `s` has its first prefix behind `before`, and the first postfix behind that is behind `key`. */
  ghost predicate Reads(ctx: Context, s: string, before: string, key: string, after: string) {
    && s == before + ctx.prefix + (key + ctx.postfix + after)
    && Index(s, ctx.prefix) == |before|
    && Index(key + ctx.postfix + after, ctx.postfix) == |key|
  }

  lemma ReadsLeftmost(ctx: Context, s: string, before: string, key: string, after: string)
    requires Reads(ctx, s, before, key, after)
    ensures Leftmost(ctx, s) == Ok(Expression(before, key, after))
  {
    hide Index;
    var rest := key + ctx.postfix + after;
    var start, keyStart := |before|, |before| + |ctx.prefix|;
    assert s[keyStart..] == rest && s[..start] == before;
    assert s[keyStart..keyStart + |key|] == rest[..|key|] == key;
    assert s[keyStart + |key| + |ctx.postfix|..] == rest[|key| + |ctx.postfix|..] == after;
  }

  /** The first expression of a string is replaced by the value of its property, or without one by that
      of the environment variable, or without either by nothing; unless its key has been seen. */
  lemma ReplacesExpression(ctx: Context, s: string, before: string, key: string, after: string, seen: set<string>)
    requires Reads(ctx, s, before, key, after)
    ensures var v := if key in ctx.values then ctx.values[key] else if key in ctx.env then ctx.env[key] else "";
      ExpandFrom(ctx, s, seen) ==
      if key in seen then Circular else ExpandFrom(ctx, before + v + after, seen + {key})
  {
    hide Index, Leftmost, ExpandFrom;
    ReadsLeftmost(ctx, s, before, key, after);
    ExpandStep(ctx, s, seen);
  }

  /** A value with one expression expands to the value with its property, or without one its environment
      variable, in place. */
  lemma SingleExpression(ctx: Context, s: string, before: string, key: string, after: string)
    requires Reads(ctx, s, before, key, after)
    requires var v := if key in ctx.values then ctx.values[key] else if key in ctx.env then ctx.env[key] else "";
      Index(before + v + after, ctx.prefix) == -1
    ensures var v := if key in ctx.values then ctx.values[key] else if key in ctx.env then ctx.env[key] else "";
      ExpandValue(ctx, s) == Ok(before + v + after)
  {
    hide Index, ExpandFrom;
    var v := if key in ctx.values then ctx.values[key] else if key in ctx.env then ctx.env[key] else "";
    ReplacesExpression(ctx, s, before, key, after, {});
    ExpandStep(ctx, before + v + after, {} + {key});
    if ctx.prefix == "" {
      EmptyOccurs(before + v + after);
    }
  }

  lemma EmptyOccurs(s: string)
    ensures Index(s, "") == 0
  {
    assert OccursAt(s, "", 0);
  }

  /** A prefix without a postfix behind it is malformed; a string without prefix is its own expansion. */
  lemma UnfinishedExpression(ctx: Context, s: string, before: string, rest: string, seen: set<string>)
    requires s == before + ctx.prefix + rest && Index(s, ctx.prefix) == |before|
    ensures Index(rest, ctx.postfix) == -1 ==> ExpandFrom(ctx, s, seen) == Malformed
  {
    hide Index, ExpandFrom;
    assert s[|before| + |ctx.prefix|..] == rest;
    ExpandStep(ctx, s, seen);
  }

  /** What a variable contributes: nothing when it is not set. */
  function Getenv(env: map<string, string>, key: string): (v: string) {
    if key in env then env[key] else ""
  }

  /** The environment is only asked for keys that are no properties: two environments that agree on the
      others expand every string alike. */
  lemma {:induction false} EnvironmentIsFallback(a: Context, b: Context, s: string, seen: set<string>)
    requires a.prefix == b.prefix && a.postfix == b.postfix && a.values == b.values
    requires forall k :: k !in a.values ==> Getenv(a.env, k) == Getenv(b.env, k)
    ensures ExpandFrom(a, s, seen) == ExpandFrom(b, s, seen)
    decreases Steps(a, s, seen)
  {
    hide Index, ExpandFrom;
    ExpandStep(a, s, seen);
    ExpandStep(b, s, seen);
    if Index(s, a.prefix) != -1 && Leftmost(a, s).Ok? && Leftmost(a, s).value.key !in seen {
      var e := Leftmost(a, s).value;
      assert a.Lookup(e.key) == b.Lookup(e.key) by {
        assert e.key !in a.values ==> Getenv(a.env, e.key) == Getenv(b.env, e.key);
      }
      EnvironmentIsFallback(a, b, Substituted(a, e), seen + {e.key});
    }
  }

  /** With an empty prefix nothing ever expands successfully. */
  lemma EmptyPrefixFails(ctx: Context, s: string, seen: set<string>)
    requires ctx.prefix == ""
    ensures !ExpandFrom(ctx, s, seen).Ok?
  {
    hide ExpandFrom;
    assert forall t: string :: OccursAt(t, "", 0);
  }

  /** Where a one-rune delimiter is first found. */
  lemma IndexOfRune(s: string, c: char, i: nat)
    requires i < |s| && s[i] == c && c !in s[..i]
    ensures Index(s, [c]) == i
  {
    assert OccursAt(s, [c], i);
    var k := Index(s, [c]);
    assert s[k..k + 1] == [c];
    assert s[k] == c;
    assert forall j :: 0 <= j < i ==> s[j] == s[..i][j];
  }

  /** A property "a" with value "x", written <a>. */
  function Sample(): (ctx: Context) {
    Context("<", ">", map["a" := "x"], map[])
  }

  lemma SampleExpression(s: string, before: string, after: string)
    requires '<' !in before && s == before + "<a>" + after
    ensures Index(s, Sample().prefix) != -1
    ensures Leftmost(Sample(), s) == Ok(Expression(before, "a", after))
    ensures Substituted(Sample(), Expression(before, "a", after)) == before + "x" + after
  {
    hide Index;
    var b := |before|;
    assert s[..b] == before;
    IndexOfRune(s, '<', b);
    var t := s[b + 1..];
    assert t == "a>" + after && t[..1] == "a";
    IndexOfRune(t, '>', 1);
    assert s[b + 1..b + 2] == "a" && s[b + 3..] == after;
  }

  /** The check for circular references also refuses a key that is merely used twice, where plain
      replacement finishes. */
  lemma RepeatedKeyIsRefused()
    ensures ExpandValue(Sample(), "<a>") == Ok("x")
    ensures ExpandValue(Sample(), "<a><a>") == Circular
    ensures Finishes(Sample(), "<a><a>", 2) && Rewritten(Sample(), "<a><a>", 2) == Ok("xx")
  {
    hide Index, Leftmost, Substituted, ExpandFrom, Rewritten;
    var one, two, rest := "<a>", "<a><a>", "x<a>";
    SampleExpression(one, "", "");
    SampleExpression(two, "", one);
    SampleExpression(rest, "x", "");
    NoDelimiter("x");
    ExpandStep(Sample(), one, {});
    ExpandStep(Sample(), "x", {} + {"a"});
    ExpandStep(Sample(), two, {});
    ExpandStep(Sample(), rest, {} + {"a"});
    assert "" + "x" + "" == "x" && "" + "x" + one == rest && "x" + "x" + "" == "xx";
    RewriteStep(Sample(), two, 2);
    RewriteStep(Sample(), rest, 1);
    RewriteStep(Sample(), "xx", 0);
    NoDelimiter("xx");
  }

  lemma ExpandStep(ctx: Context, s: string, seen: set<string>)
    ensures Index(s, ctx.prefix) == -1 ==> ExpandFrom(ctx, s, seen) == Ok(s)
    ensures Index(s, ctx.prefix) != -1 && Leftmost(ctx, s).Ok? ==>
      var e := Leftmost(ctx, s).value;
      ExpandFrom(ctx, s, seen) == if e.key in seen then Circular else ExpandFrom(ctx, Substituted(ctx, e), seen + {e.key})
    ensures Index(s, ctx.prefix) != -1 && !Leftmost(ctx, s).Ok? ==> ExpandFrom(ctx, s, seen) == Malformed
  {
    hide Index, Leftmost;
  }

  lemma RewriteStep(ctx: Context, s: string, n: nat)
    ensures n == 0 ==> Rewritten(ctx, s, n) == Ok(s)
    ensures n > 0 && Index(s, ctx.prefix) != -1 && Leftmost(ctx, s).Ok? ==>
      Rewritten(ctx, s, n) == Rewritten(ctx, Substituted(ctx, Leftmost(ctx, s).value), n - 1)
  {
    hide Index, Leftmost;
  }

  lemma NoDelimiter(s: string)
    requires '<' !in s
    ensures Index(s, "<") == -1
  {
    assert forall j :: 0 <= j && OccursAt(s, "<", j) ==> s[j..j + 1][0] in s;
  }
}
