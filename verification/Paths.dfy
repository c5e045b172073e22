/** Lexical paths on Unix (MichaelTJones/walk/walk.go): the element-list meaning of a path. */
module Paths {
  const SEP: char := '/'

  /** The elements of a path: the stretches between separators, empty ones included. */
  function Elements(path: string): (es: seq<string>)
    ensures |es| >= 1
  {
    if path == [] then [""]
    else
      var rest := Elements(path[1..]);
      if path[0] == SEP then [""] + rest else [[path[0]] + rest[0]] + rest[1..]
  }

  /** Elements with single separators in between. */
  function Joined(es: seq<string>): (path: string) {
    if es == [] then "" else if |es| == 1 then es[0] else es[0] + [SEP] + Joined(es[1..])
  }

  predicate Rooted(path: string) {
    path != [] && path[0] == SEP
  }

  /** One element applied to the elements kept so far. */
  function Push(rooted: bool, stack: seq<string>, e: string): (r: seq<string>) {
    if e == "" || e == "." then stack
    else if e != ".." then stack + [e]
    else if stack != [] && stack[|stack| - 1] != ".." then stack[..|stack| - 1]
    else if rooted then stack
    else stack + [e]
  }

  function Resolve(rooted: bool, stack: seq<string>, es: seq<string>): (r: seq<string>)
    decreases |es|
  {
    if es == [] then stack else Resolve(rooted, Push(rooted, stack, es[0]), es[1..])
  }

  /** The text of resolved elements before an empty result becomes ".". */
  function Text(rooted: bool, stack: seq<string>): (path: string) {
    (if rooted then [SEP] else "") + Joined(stack)
  }

  function Render(rooted: bool, stack: seq<string>): (path: string) {
    if Text(rooted, stack) == "" then "." else Text(rooted, stack)
  }

  /** The shortest equivalent path: drop "" and ".", let ".." cancel what precedes it, rejoin. */
  function Cleaned(path: string): (r: string) {
    Render(Rooted(path), Resolve(Rooted(path), [], Elements(path)))
  }

  // ---------- canonical element lists

  predicate Plain(e: string) {
    e != "" && e != "." && SEP !in e
  }

  /** What resolving produces: plain elements, with ".." only in front and only when unrooted. */
  ghost predicate Canonical(rooted: bool, stack: seq<string>) {
    && (forall i :: 0 <= i < |stack| ==> Plain(stack[i]))
    && (forall i :: 0 <= i < |stack| && stack[i] == ".." ==> !rooted && (i > 0 ==> stack[i - 1] == ".."))
  }

  lemma PushCanonical(rooted: bool, stack: seq<string>, e: string)
    requires Canonical(rooted, stack) && SEP !in e
    ensures Canonical(rooted, Push(rooted, stack, e))
  {}

  lemma {:induction false} ElementsPlain(path: string)
    ensures forall i :: 0 <= i < |Elements(path)| ==> SEP !in Elements(path)[i]
  {
    if path != [] {
      ElementsPlain(path[1..]);
    }
  }

  lemma {:induction false} ResolveCanonical(rooted: bool, stack: seq<string>, es: seq<string>)
    requires Canonical(rooted, stack) && forall i :: 0 <= i < |es| ==> SEP !in es[i]
    ensures Canonical(rooted, Resolve(rooted, stack, es))
    decreases |es|
  {
    if es != [] {
      PushCanonical(rooted, stack, es[0]);
      ResolveCanonical(rooted, Push(rooted, stack, es[0]), es[1..]);
    }
  }

  lemma {:induction false} ResolveAppend(rooted: bool, stack: seq<string>, a: seq<string>, b: seq<string>)
    ensures Resolve(rooted, stack, a + b) == Resolve(rooted, Resolve(rooted, stack, a), b)
    decreases |a|
  {
    if a == [] {
      assert a + b == b;
    } else {
      assert (a + b)[1..] == a[1..] + b;
      ResolveAppend(rooted, Push(rooted, stack, a[0]), a[1..], b);
    }
  }

  /** Pushing the tail of a canonical list onto its head gives the whole list back. */
  lemma {:induction false} ResolveSelf(rooted: bool, stack: seq<string>, k: nat)
    requires Canonical(rooted, stack) && k <= |stack|
    ensures Resolve(rooted, stack[..k], stack[k..]) == stack
    decreases |stack| - k
  {
    if k == |stack| {
      assert stack[..k] == stack;
    } else {
      assert stack[..k] + [stack[k]] == stack[..k + 1];
      if stack[k] == ".." && k > 0 {
        assert stack[..k][k - 1] == "..";
      }
      assert Push(rooted, stack[..k], stack[k]) == stack[..k + 1];
      assert stack[k..][1..] == stack[k + 1..];
      ResolveSelf(rooted, stack, k + 1);
    }
  }

  // ---------- splitting and joining

  /** Splitting at a separator splits the element list. */
  lemma {:induction false} ElementsOfConcat(a: string, b: string)
    ensures Elements(a + [SEP] + b) == Elements(a) + Elements(b)
    decreases |a|
  {
    var p := a + [SEP] + b;
    if a == [] {
      assert p[1..] == b;
    } else {
      assert p[1..] == a[1..] + [SEP] + b;
      ElementsOfConcat(a[1..], b);
    }
  }

  lemma {:induction false} ElementsOfPlain(e: string)
    requires SEP !in e
    ensures Elements(e) == [e]
  {
    if e != [] {
      assert SEP !in e[1..];
      ElementsOfPlain(e[1..]);
      assert [e[0]] + e[1..] == e;
    }
  }

  lemma {:induction false} ElementsOfJoined(es: seq<string>)
    requires es != [] && forall i :: 0 <= i < |es| ==> SEP !in es[i]
    ensures Elements(Joined(es)) == es
    decreases |es|
  {
    ElementsOfPlain(es[0]);
    if |es| > 1 {
      ElementsOfJoined(es[1..]);
      ElementsOfConcat(es[0], Joined(es[1..]));
      assert [es[0]] + es[1..] == es;
    }
  }

  /** A rendered canonical list reads back as itself. */
  lemma {:induction false} ResolveText(rooted: bool, stack: seq<string>)
    requires Canonical(rooted, stack)
    ensures Rooted(Render(rooted, stack)) == rooted
    ensures Resolve(rooted, [], Elements(Render(rooted, stack))) == stack
  {
    var path, text := Render(rooted, stack), Joined(stack);
    if stack != [] {
      ElementsOfJoined(stack);
      JoinedStart(stack);
      ResolveSelf(rooted, stack, 0);
      assert stack[..0] == [] && stack[0..] == stack;
    }
    if rooted {
      assert path == "" + [SEP] + text;
      ElementsOfConcat("", text);
      assert Elements(path) == [""] + Elements(text);
      assert Elements(path)[1..] == Elements(text);
      assert Resolve(rooted, [], Elements(path)) == Resolve(rooted, [], Elements(text));
    } else if stack == [] {
      ElementsOfPlain(path);
    } else {
      assert path == text;
    }
  }

  lemma JoinedStart(es: seq<string>)
    requires es != [] && Plain(es[0])
    ensures Joined(es) != "" && Joined(es)[0] != SEP
  {
    assert es[0][0] in es[0];
  }

  /** The elements of any path resolve to a canonical list. */
  lemma CleanedCanonical(path: string)
    ensures Canonical(Rooted(path), Resolve(Rooted(path), [], Elements(path)))
  {
    ElementsPlain(path);
    ResolveCanonical(Rooted(path), [], Elements(path));
  }

  /** Cleaning is idempotent. */
  lemma CleanedIdempotent(path: string)
    ensures Cleaned(Cleaned(path)) == Cleaned(path)
  {
    CleanedCanonical(path);
    ResolveText(Rooted(path), Resolve(Rooted(path), [], Elements(path)));
  }

  // ---------- cleaning gives the shortest equivalent

  /** Two paths that start at the same place and resolve to the same elements. */
  predicate Equivalent(p: string, q: string) {
    Rooted(p) == Rooted(q) && Resolve(Rooted(p), [], Elements(p)) == Resolve(Rooted(q), [], Elements(q))
  }

  /** The length of the elements, each with a separator. */
  function Width(es: seq<string>): (n: nat) {
    if es == [] then 0 else |es[0]| + 1 + Width(es[1..])
  }

  lemma {:induction false} WidthOfElements(path: string)
    ensures Width(Elements(path)) == |path| + 1
  {
    if path != [] {
      WidthOfElements(path[1..]);
      var rest := Elements(path[1..]);
      assert ([""] + rest)[1..] == rest;
      assert ([[path[0]] + rest[0]] + rest[1..])[1..] == rest[1..];
    }
  }

  lemma {:induction false} WidthOfJoined(es: seq<string>)
    requires es != []
    ensures |Joined(es)| + 1 == Width(es)
    decreases |es|
  {
    if |es| > 1 {
      WidthOfJoined(es[1..]);
    }
  }

  lemma {:induction false} WidthSnoc(es: seq<string>, e: string)
    ensures Width(es + [e]) == Width(es) + |e| + 1
    decreases |es|
  {
    if es != [] {
      assert (es + [e])[1..] == es[1..] + [e];
      WidthSnoc(es[1..], e);
    }
  }

  /** Resolving keeps elements or drops them, so that it never widens. */
  lemma {:induction false} ResolveNarrows(rooted: bool, stack: seq<string>, es: seq<string>)
    ensures Width(Resolve(rooted, stack, es)) <= Width(stack) + Width(es)
    decreases |es|
  {
    if es != [] {
      WidthSnoc(stack, es[0]);
      if stack != [] {
        var front := stack[..|stack| - 1];
        assert front + [stack[|stack| - 1]] == stack;
        WidthSnoc(front, stack[|stack| - 1]);
      }
      ResolveNarrows(rooted, Push(rooted, stack, es[0]), es[1..]);
    }
  }

  /** Cleaning never lengthens a path, except that the empty path becomes ".". */
  lemma CleanedNoLonger(path: string)
    requires path != ""
    ensures |Cleaned(path)| <= |path|
  {
    hide Resolve;
    var rooted, stack := Rooted(path), Resolve(Rooted(path), [], Elements(path));
    if stack != [] {
      WidthOfJoined(stack);
      if rooted {
        var rest := Elements(path[1..]);
        assert Elements(path) == [""] + rest && ([""] + rest)[1..] == rest;
        SkipEmpty(rooted, rest);
        ResolveNarrows(rooted, [], rest);
        WidthOfElements(path[1..]);
      } else {
        ResolveNarrows(rooted, [], Elements(path));
        WidthOfElements(path);
      }
    }
  }

  lemma SkipEmpty(rooted: bool, es: seq<string>)
    ensures Resolve(rooted, [], [""] + es) == Resolve(rooted, [], es)
  {
    assert ([""] + es)[1..] == es;
  }

  /** The cleaned path is equivalent to the path, and no other path that is, is shorter. */
  lemma CleanedShortest(path: string, other: string)
    ensures Equivalent(Cleaned(path), path)
    ensures other != "" && Equivalent(other, path) ==> |Cleaned(path)| <= |other|
  {
    hide Resolve, Render;
    CleanedCanonical(path);
    ResolveText(Rooted(path), Resolve(Rooted(path), [], Elements(path)));
    if other != "" {
      CleanedNoLonger(other);
    }
  }

  // ---------- consuming a path element by element

  /** The stretch of `p` up to a separator or the end is its first element. */
  lemma {:induction false} FirstElement(p: string, k: nat)
    requires k <= |p| && SEP !in p[..k] && (k < |p| ==> p[k] == SEP)
    ensures Elements(p) == [p[..k]] + Elements(p[k..])[1..] && Elements(p[k..])[0] == ""
    decreases k
  {
    if k == 0 {
      assert p[0..] == p;
    } else {
      assert p[..k][0] == p[0];
      assert p[1..][..k - 1] == p[..k][1..] && p[1..][k - 1..] == p[k..];
      FirstElement(p[1..], k - 1);
      assert [p[0]] + p[1..][..k - 1] == p[..k];
    }
  }

  /** Resolving a path is applying its first element and resolving the rest. */
  lemma Consume(rooted: bool, stack: seq<string>, p: string, k: nat)
    requires k <= |p| && SEP !in p[..k] && (k < |p| ==> p[k] == SEP)
    ensures Resolve(rooted, stack, Elements(p)) == Resolve(rooted, Push(rooted, stack, p[..k]), Elements(p[k..]))
  {
    FirstElement(p, k);
    var e, rest := p[..k], Elements(p[k..]);
    assert ([e] + rest[1..])[1..] == rest[1..];
  }

  lemma {:induction false} JoinedSnoc(es: seq<string>, e: string)
    requires es != []
    ensures Joined(es + [e]) == Joined(es) + [SEP] + e
    decreases |es|
  {
    if |es| == 1 {
      assert (es + [e])[1..] == [e];
    } else {
      assert (es + [e])[1..] == es[1..] + [e];
      JoinedSnoc(es[1..], e);
    }
  }

  /** The text with one more element: a separator comes first unless it is the only one. */
  lemma TextSnoc(rooted: bool, stack: seq<string>, e: string)
    ensures Text(rooted, stack + [e]) == Text(rooted, stack) + (if stack == [] then "" else [SEP]) + e
  {
    if stack != [] {
      JoinedSnoc(stack, e);
    }
  }

  /** The root separator, if any, is all the text there is exactly when there are no elements. */
  lemma TextLength(rooted: bool, stack: seq<string>)
    requires forall i :: 0 <= i < |stack| ==> Plain(stack[i])
    ensures |Text(rooted, stack)| >= if rooted then 1 else 0
    ensures |Text(rooted, stack)| == (if rooted then 1 else 0) <==> stack == []
  {
    if stack != [] {
      JoinedStart(stack);
    }
  }

  lemma {:induction false} TextGrows(rooted: bool, stack: seq<string>, k: nat)
    requires k <= |stack|
    ensures |Text(rooted, stack[..k])| <= |Text(rooted, stack)|
    decreases |stack| - k
  {
    if k == |stack| {
      assert stack[..k] == stack;
    } else {
      assert stack[..k + 1] == stack[..k] + [stack[k]];
      TextSnoc(rooted, stack[..k], stack[k]);
      TextGrows(rooted, stack, k + 1);
    }
  }
}
