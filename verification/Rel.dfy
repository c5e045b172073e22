/** `Join` and `Rel` of MichaelTJones/walk/walk.go. */
module Rel {
  import opened Common
  import opened Paths
  import Clean

  // ---------- Join

  /** Joins path elements and cleans the result; leading empty elements are ignored. */
  function Join(elems: seq<string>): (path: string) {
    if elems == [] then ""
    else if elems[0] == "" then Join(elems[1..])
    else Cleaned(Joined(elems))
  }

  method JoinPaths(elems: seq<string>) returns (path: string)
    ensures path == Join(elems)
  {
    hide Cleaned, Joined;
    assert elems[0..] == elems;
    for i := 0 to |elems|
      invariant Join(elems[i..]) == Join(elems)
    {
      assert elems[i..][1..] == elems[i + 1..];
      if elems[i] != "" {
        path := Clean.CleanPath(Joined(elems[i..]));
        return;
      }
    }
    return "";
  }

  // ---------- the meaning of Rel

  /** The resolved elements of a path. */
  function Resolved(path: string): (stack: seq<string>) {
    Resolve(Rooted(path), [], Elements(path))
  }

  function CommonPrefix(a: seq<string>, b: seq<string>): (k: nat)
    ensures k <= |a| && k <= |b| && a[..k] == b[..k]
    ensures k < |a| && k < |b| ==> a[k] != b[k]
  {
    if a == [] || b == [] || a[0] != b[0] then 0
    else
      var k := CommonPrefix(a[1..], b[1..]);
      assert a[..k + 1] == [a[0]] + a[1..][..k] && b[..k + 1] == [b[0]] + b[1..][..k];
      1 + k
  }

  function DotDots(n: nat): (es: seq<string>) {
    seq(n, _ => "..")
  }

  /** The target's elements as they are written: "." for none. */
  function Written(rooted: bool, stack: seq<string>): (es: seq<string>) {
    if stack == [] && !rooted then ["."] else stack
  }

  /** There is a relative path unless one path is rooted and the other is not, or the base leads up
      by a ".." that the target does not share. */
  predicate Relatable(basepath: string, targpath: string) {
    var b, t := Resolved(basepath), Resolved(targpath);
    var k := CommonPrefix(b, t);
    Rooted(basepath) == Rooted(targpath) && (k < |b| ==> b[k] != "..")
  }

  /** Up from what the base does not share, then down the rest of the target. */
  function Relative(basepath: string, targpath: string): (path: string) {
    var b, t := Resolved(basepath), Resolved(targpath);
    var k := CommonPrefix(b, t);
    if b == t then "."
    else Joined(DotDots(|b| - k) + (if t == [] then Written(Rooted(targpath), t) else t[k..]))
  }

  // ---------- Join undoes Rel

  lemma NoDotDotAfter(rooted: bool, stack: seq<string>, c: nat, i: nat)
    requires Canonical(rooted, stack) && c <= i < |stack| && stack[c] != ".."
    ensures stack[i] != ".."
  {
    if i > c {
      NoDotDotAfter(rooted, stack, c, i - 1);
    }
  }

  /** As many ".." as there are elements above `k` lead back to the first `k`. */
  lemma {:induction false} GoUp(rooted: bool, stack: seq<string>, k: nat)
    requires Canonical(rooted, stack) && k <= |stack| && (k < |stack| ==> stack[k] != "..")
    ensures Resolve(rooted, stack, DotDots(|stack| - k)) == stack[..k]
    decreases |stack|
  {
    if k == |stack| {
      assert stack[..k] == stack;
    } else {
      var up := stack[..|stack| - 1];
      NoDotDotAfter(rooted, stack, k, |stack| - 1);
      assert DotDots(|stack| - k)[1..] == DotDots(|up| - k);
      GoUp(rooted, up, k);
      assert up[..k] == stack[..k];
    }
  }

  /** The elements of a relative path lead from the base to the target. */
  lemma RelativeResolves(basepath: string, targpath: string)
    requires Relatable(basepath, targpath)
    ensures Rooted(Relative(basepath, targpath)) == false && Relative(basepath, targpath) != ""
    ensures Resolve(Rooted(basepath), Resolved(basepath), Elements(Relative(basepath, targpath))) == Resolved(targpath)
  {
    hide Resolve, Elements, Joined;
    var rooted, b, t := Rooted(basepath), Resolved(basepath), Resolved(targpath);
    CleanedCanonical(basepath);
    CleanedCanonical(targpath);
    var k := CommonPrefix(b, t);
    if b == t {
      DotElement(rooted, b);
    } else if t == [] {
      assert b[..k] == [];
      GoUp(rooted, b, k);
      UpThenDown(rooted, b, DotDots(|b| - k), Written(rooted, t), []);
      if !rooted {
        DotElement(rooted, []);
        ElementsOfPlain(".");
      } else {
        NoElements(rooted, []);
      }
    } else {
      GoUp(rooted, b, k);
      ResolveSelf(rooted, t, k);
      assert b == t[..k] && t[k..] == [] ==> b == t;
      UpThenDown(rooted, b, DotDots(|b| - k), t[k..], t[..k]);
    }
  }

  lemma NoElements(rooted: bool, stack: seq<string>)
    ensures Resolve(rooted, stack, []) == stack
  {}

  lemma DotElement(rooted: bool, stack: seq<string>)
    ensures Elements(".") == ["."] && Resolve(rooted, stack, ["."]) == stack
  {
    ElementsOfPlain(".");
    assert ["."][1..] == [];
  }

  lemma UpThenDown(rooted: bool, base: seq<string>, up: seq<string>, down: seq<string>, mid: seq<string>)
    requires up + down != [] && Resolve(rooted, base, up) == mid
    requires forall e :: e in up + down ==> e != "" && SEP !in e
    ensures Joined(up + down) != "" && Joined(up + down)[0] != SEP
    ensures Resolve(rooted, base, Elements(Joined(up + down))) == Resolve(rooted, mid, down)
  {
    var es := up + down;
    assert es[0] in es;
    ElementsOfJoined(es);
    ResolveAppend(rooted, base, up, down);
    assert es[0][0] in es[0];
  }

  /** Joining the base with a relative path gives the cleaned target. */
  lemma JoinInvertsRelative(basepath: string, targpath: string)
    requires Relatable(basepath, targpath)
    ensures Join([basepath, Relative(basepath, targpath)]) == Cleaned(targpath)
  {
    hide Resolve, Elements, Relatable, Relative;
    var rel := Relative(basepath, targpath);
    RelativeResolves(basepath, targpath);
    SameRoot(basepath, targpath);
    if basepath == "" {
      assert [basepath, rel][1..] == [rel];
      EmptyResolved();
    } else {
      assert [basepath, rel][1..] == [rel];
      assert Joined([basepath, rel]) == basepath + [SEP] + rel;
      ElementsOfConcat(basepath, rel);
      ResolveAppend(Rooted(basepath), [], Elements(basepath), Elements(rel));
    }
  }

  /** Joining resolves the relative path from where the base leads. */
  lemma JoinResolves(basepath: string, q: string)
    requires !Rooted(q) && (basepath != "" || q != "")
    ensures Join([basepath, q]) == Render(Rooted(basepath), Resolve(Rooted(basepath), Resolved(basepath), Elements(q)))
  {
    hide Resolve, Elements, Render;
    assert [basepath, q][1..] == [q];
    if basepath == "" {
      EmptyResolved();
    } else {
      assert Joined([basepath, q]) == basepath + [SEP] + q;
      ElementsOfConcat(basepath, q);
      ResolveAppend(Rooted(basepath), [], Elements(basepath), Elements(q));
      assert Rooted(basepath + [SEP] + q) == Rooted(basepath);
    }
  }

  /** A ".." in front is never lost again. */
  lemma {:induction false} DotDotsStay(rooted: bool, stack: seq<string>, es: seq<string>, d: nat)
    requires d <= |stack| && (forall i :: 0 <= i < d ==> stack[i] == "..")
    ensures var r := Resolve(rooted, stack, es); d <= |r| && forall i :: 0 <= i < d ==> r[i] == ".."
    decreases |es|
  {
    if es != [] {
      DotDotsStay(rooted, Push(rooted, stack, es[0]), es[1..], d);
    }
  }

  lemma {:induction false} DotDotsInFront(rooted: bool, stack: seq<string>, k: nat)
    requires Canonical(rooted, stack) && k < |stack| && stack[k] == ".."
    ensures forall i :: 0 <= i <= k ==> stack[i] == ".."
    decreases k
  {
    if k > 0 {
      DotDotsInFront(rooted, stack, k - 1);
    }
  }

  /** There is a relative path from the base to the target if and only if they are relatable: no other
      way of going from one to the other is missed. */
  lemma RelatableIff(basepath: string, targpath: string)
    ensures Relatable(basepath, targpath) <==>
      exists q :: !Rooted(q) && Join([basepath, q]) == Cleaned(targpath)
  {
    hide Resolve, Elements, Join, Relatable, Relative;
    if Relatable(basepath, targpath) {
      RelativeResolves(basepath, targpath);
      JoinInvertsRelative(basepath, targpath);
    }
    forall q | !Rooted(q) && Join([basepath, q]) == Cleaned(targpath) ensures Relatable(basepath, targpath) {
      LedThere(basepath, targpath, q);
    }
  }

  lemma LedThere(basepath: string, targpath: string, q: string)
    requires !Rooted(q) && Join([basepath, q]) == Cleaned(targpath)
    ensures Relatable(basepath, targpath)
  {
    hide Resolve, Elements;
    var rooted, b, t := Rooted(basepath), Resolved(basepath), Resolved(targpath);
    CleanedNotEmpty(targpath);
    assert basepath != "" || q != "" by {
      NothingJoined();
    }
    JoinResolves(basepath, q);
    var r := Resolve(rooted, b, Elements(q));
    CleanedCanonical(basepath);
    CleanedCanonical(targpath);
    ElementsPlain(q);
    ResolveCanonical(rooted, b, Elements(q));
    ResolveText(rooted, r);
    ResolveText(Rooted(targpath), t);
    assert r == t && rooted == Rooted(targpath);
    var k := CommonPrefix(b, t);
    if k < |b| && b[k] == ".." {
      DotDotsInFront(rooted, b, k);
      DotDotsStay(rooted, b, Elements(q), k + 1);
    }
  }

  lemma CleanedNotEmpty(path: string)
    ensures Cleaned(path) != ""
  {
    hide Resolve, Elements;
  }

  lemma NothingJoined()
    ensures Join(["", ""]) == ""
  {
    assert ["", ""][1..] == [""] && [""][1..] == [];
  }

  lemma SameRoot(basepath: string, targpath: string)
    requires Relatable(basepath, targpath)
    ensures Rooted(basepath) == Rooted(targpath)
  {}

  lemma EmptyResolved()
    ensures Resolved("") == []
  {
    assert [""][1..] == [];
  }

  // ---------- the byte loops of Rel

  /** A canonical stack as it appears in `base` or `targ`: its elements are non-empty and slash-free. */
  ghost predicate Segments(es: seq<string>) {
    forall i :: 0 <= i < |es| ==> es[i] != "" && SEP !in es[i]
  }

  /** The first segment of a text: an element, or the empty one before a root or at the end. */
  function Segment(root: bool, es: seq<string>): (e: string) {
    if root || es == [] then "" else es[0]
  }

  /** What is left of a text after its first segment and the separator behind it. */
  function After(root: bool, es: seq<string>): (rest: seq<string>) {
    if root || es == [] then es else es[1..]
  }

  /** The first separator from `from` on, or the end. */
  method ScanToSeparator(p: string, from: nat) returns (i: nat)
    requires from <= |p|
    ensures from <= i <= |p| && SEP !in p[from..i] && (i < |p| ==> p[i] == SEP)
  {
    i := from;
    while i < |p| && p[i] != SEP
      invariant from <= i <= |p| && SEP !in p[from..i]
    {
      assert p[from..i + 1] == p[from..i] + [p[i]];
      i := i + 1;
    }
  }

  /** Finds the end of the segment that starts at `from`. */
  method ScanSegment(p: string, from: nat, ghost root: bool, ghost es: seq<string>) returns (i: nat)
    requires from <= |p| && p[from..] == Text(root, es) && Segments(es)
    ensures from <= i <= |p| && p[from..i] == Segment(root, es)
    ensures (i < |p| ==> p[i] == SEP) && p[if i < |p| then i + 1 else i..] == Joined(After(root, es))
  {
    hide Text, Joined, Segments, Segment, After;
    i := ScanToSeparator(p, from);
    ghost var k, m := i - from, if i < |p| then i + 1 else i;
    SliceOfTail(p, from, 0, k);
    SliceOfTail(p, from, m - from, |p| - from);
    SegmentFound(p[from..], k, root, es);
  }

  lemma SegmentFound(p: string, k: nat, root: bool, es: seq<string>)
    requires p == Text(root, es) && Segments(es)
    requires k <= |p| && SEP !in p[..k] && (k < |p| ==> p[k] == SEP)
    ensures p[..k] == Segment(root, es)
    ensures p[if k < |p| then k + 1 else k..] == Joined(After(root, es))
  {
    assert forall i :: 0 <= i < k ==> p[i] == p[..k][i];
    if root {
      assert p[0] == SEP && p[1..] == Joined(es);
    } else if es != [] {
      var e := es[0];
      assert forall i :: 0 <= i < |e| ==> p[i] == e[i];
      assert p[..|e|] == e;
      if |es| > 1 {
        assert p[|e|] == SEP;
        assert p[|e| + 1..] == Joined(es[1..]);
      }
    }
  }

  function CountSeps(p: string): (n: nat) {
    if p == "" then 0 else (if p[0] == SEP then 1 else 0) + CountSeps(p[1..])
  }

  lemma {:induction false} CountSepsAppend(a: string, b: string)
    ensures CountSeps(a + b) == CountSeps(a) + CountSeps(b)
    decreases |a|
  {
    if a == "" {
      assert a + b == b;
    } else {
      assert (a + b)[1..] == a[1..] + b;
      CountSepsAppend(a[1..], b);
    }
  }

  lemma {:induction false} CountSepsPlain(e: string)
    requires SEP !in e
    ensures CountSeps(e) == 0
    decreases |e|
  {
    if e != "" {
      CountSepsPlain(e[1..]);
    }
  }

  /** Separators are one fewer than elements. */
  lemma {:induction false} CountSepsJoined(es: seq<string>)
    requires es != [] && Segments(es)
    ensures CountSeps(Joined(es)) == |es| - 1
    decreases |es|
  {
    CountSepsPlain(es[0]);
    if |es| > 1 {
      CountSepsJoined(es[1..]);
      CountSepsAppend(es[0] + [SEP], Joined(es[1..]));
      CountSepsAppend(es[0], [SEP]);
      assert [SEP][1..] == "";
    }
  }

  lemma {:induction false} JoinedConcat(a: seq<string>, b: seq<string>)
    requires a != [] && b != []
    ensures Joined(a + b) == Joined(a) + [SEP] + Joined(b)
    decreases |a|
  {
    if |a| == 1 {
      assert (a + b)[1..] == b;
    } else {
      assert (a + b)[1..] == a[1..] + b;
      JoinedConcat(a[1..], b);
    }
  }

  /** Builds "..", `seps` times "/..", and "/tail" unless the tail is empty; the buffer's size is
      computed beforehand and is filled exactly. */
  method UpPath(seps: nat, tail: string) returns (path: string)
    ensures path == Joined(DotDots(seps + 1)) + (if tail == "" then "" else [SEP] + tail)
  {
    hide Joined;
    var size := 2 + seps * 3;
    if tail != "" {
      size := size + 1 + |tail|;
    }
    var buf := new char[size];
    buf[0], buf[1] := '.', '.';
    var n := 2;
    OneDotDot();
    assert buf[..n] == "..";
    for i := 0 to seps
      invariant n == 2 + 3 * i <= size
      invariant buf[..n] == Joined(DotDots(i + 1))
    {
      PutDotDot(buf, n);
      n := n + 3;
      MoreDotDots(i + 1);
    }
    if tail != "" {
      ghost var before := buf[..n];
      buf[n] := SEP;
      forall k | 0 <= k < |tail| { buf[n + 1 + k] := tail[k]; }
      assert buf[..] == before + ([SEP] + tail);
    } else {
      assert buf[..] == buf[..n];
    }
    return buf[..];
  }

  method PutDotDot(buf: array<char>, n: nat)
    requires n + 3 <= buf.Length
    modifies buf
    ensures buf[..n + 3] == old(buf[..n]) + [SEP] + ".."
  {
    buf[n], buf[n + 1], buf[n + 2] := SEP, '.', '.';
  }

  lemma OneDotDot()
    ensures Joined(DotDots(1)) == ".."
  {
    assert DotDots(1) == [".."];
  }

  lemma MoreDotDots(n: nat)
    requires n > 0
    ensures Joined(DotDots(n + 1)) == Joined(DotDots(n)) + [SEP] + ".."
  {
    JoinedSnoc(DotDots(n), "..");
    assert DotDots(n) + [".."] == DotDots(n + 1);
  }

  /** Positions both texts at their first differing segments. The loop ends because two different
      lists differ somewhere. */
  method SkipCommon(base: string, targ: string, ghost rooted: bool, ghost b: seq<string>, ghost t: seq<string>)
    returns (b0: nat, bi: nat, t0: nat)
    requires base == Text(rooted, b) && targ == Text(rooted, t) && Segments(b) && Segments(t) && b != t
    ensures b0 <= bi <= |base| && t0 <= |targ|
    ensures var k := CommonPrefix(b, t);
      base[b0..] == Joined(b[k..]) && targ[t0..] == Joined(t[k..]) && base[b0..bi] == Segment(false, b[k..])
  {
    hide Text, Joined, Segment, After;
    var ti: nat := 0;
    b0, bi, t0 := 0, 0, 0;
    ghost var k: nat, root := 0, rooted;
    assert base[0..] == base && targ[0..] == targ && b[0..] == b && t[0..] == t;
    while true
      invariant bi == b0 <= |base| && ti == t0 <= |targ|
      invariant k <= |b| && k <= |t| && b[..k] == t[..k] && (root ==> k == 0)
      invariant base[b0..] == Text(root, b[k..]) && targ[t0..] == Text(root, t[k..])
      decreases |b| - k, root
    {
      bi := ScanSegment(base, bi, root, b[k..]);
      ti := ScanSegment(targ, ti, root, t[k..]);
      if targ[t0..ti] != base[b0..bi] {
        Differ(b, t, k, root);
        return;
      }
      if bi < |base| { bi := bi + 1; }
      if ti < |targ| { ti := ti + 1; }
      b0, t0 := bi, ti;
      NoRootText(After(root, b[k..]));
      NoRootText(After(root, t[k..]));
      Shared(b, t, k, root);
      k, root := if root then k else k + 1, false;
    }
  }

  /** Where the segments differ, the shared elements end. */
  lemma Differ(b: seq<string>, t: seq<string>, k: nat, root: bool)
    requires k <= |b| && k <= |t| && b[..k] == t[..k]
    requires Segment(root, b[k..]) != Segment(root, t[k..])
    ensures !root && CommonPrefix(b, t) == k
    ensures Text(root, b[k..]) == Joined(b[k..]) && Text(root, t[k..]) == Joined(t[k..])
  {
    hide Joined;
    CommonPrefixIs(b, t, k);
    NoRootText(b[k..]);
    NoRootText(t[k..]);
  }

  /** Where they are the same, they are one more shared element, or the root. */
  lemma Shared(b: seq<string>, t: seq<string>, k: nat, root: bool)
    requires k <= |b| && k <= |t| && b[..k] == t[..k] && Segments(b) && Segments(t) && b != t
    requires Segment(root, b[k..]) == Segment(root, t[k..])
    ensures root ==> After(root, b[k..]) == b[k..] && After(root, t[k..]) == t[k..]
    ensures !root ==>
      && k < |b| && k < |t| && b[..k + 1] == t[..k + 1]
      && After(root, b[k..]) == b[k + 1..] && After(root, t[k..]) == t[k + 1..]
  {
    if !root {
      BothLeft(b, t, k);
      assert b[k..][1..] == b[k + 1..] && t[k..][1..] == t[k + 1..];
      assert b[..k + 1] == b[..k] + [b[k]] && t[..k + 1] == t[..k] + [t[k]];
    }
  }

  lemma NoRootText(es: seq<string>)
    ensures Text(false, es) == Joined(es)
  {}

  lemma CommonPrefixIs(a: seq<string>, b: seq<string>, k: nat)
    requires k <= |a| && k <= |b| && a[..k] == b[..k]
    requires k == |a| || k == |b| || a[k] != b[k]
    ensures CommonPrefix(a, b) == k
  {
    var c := CommonPrefix(a, b);
    assert forall i :: 0 <= i < k ==> a[i] == a[..k][i] && b[i] == b[..k][i];
    assert forall i :: 0 <= i < c ==> a[i] == a[..c][i] && b[i] == b[..c][i];
  }

  /** Equal segments of different lists are elements of both. */
  lemma BothLeft(b: seq<string>, t: seq<string>, k: nat)
    requires k <= |b| && k <= |t| && b[..k] == t[..k] && Segments(b) && Segments(t) && b != t
    requires Segment(false, b[k..]) == Segment(false, t[k..])
    ensures k < |b| && k < |t| && b[k] == t[k]
  {
    assert b[..|b|] == b && t[..|t|] == t;
  }

  /** `Rel` succeeds exactly on relatable paths, and what it returns, joined to the base, is the target. */
  method RelPath(basepath: string, targpath: string) returns (r: Option<string>)
    ensures r.Some? <==> Relatable(basepath, targpath)
    ensures r.Some? ==> r.value == Relative(basepath, targpath)
    ensures r.Some? ==> Join([basepath, r.value]) == Cleaned(targpath)
  {
    hide Resolve, Elements, Joined, Join;
    if Relatable(basepath, targpath) {
      JoinInvertsRelative(basepath, targpath);
    }
    var base := Clean.CleanPath(basepath);
    var targ := Clean.CleanPath(targpath);
    ghost var b, t := Resolved(basepath), Resolved(targpath);
    CleanedCanonical(basepath);
    CleanedCanonical(targpath);
    ResolveText(Rooted(basepath), b);
    ResolveText(Rooted(targpath), t);
    if targ == base {
      assert b[..|b|] == b;
      return Some(".");
    }
    if base == "." {
      base := "";
    }
    BaseText(Rooted(basepath), b);
    assert base == Text(Rooted(basepath), b);
    assert Rooted(base) == Rooted(basepath);
    if Rooted(base) != Rooted(targ) { return None; }
    r := RelDistinct(base, targ, Rooted(basepath), b, t);
  }

  lemma BaseText(rooted: bool, stack: seq<string>)
    requires Canonical(rooted, stack)
    ensures Render(rooted, stack) == "." <==> Text(rooted, stack) == ""
    ensures Rooted(Text(rooted, stack)) == rooted
    ensures Text(rooted, Written(rooted, stack)) == Render(rooted, stack)
  {
    if stack != [] {
      JoinedStart(stack);
      assert !rooted ==> Text(rooted, stack) == Joined(stack);
      assert |stack| == 1 ==> Joined(stack) == stack[0];
      assert |stack| > 1 ==> |Joined(stack)| >= 2;
    }
    if rooted {
      assert Text(rooted, stack)[0] == SEP;
    }
  }

  /** The part of `Rel` for different cleaned paths that are both rooted or both not. */
  method RelDistinct(base: string, targ: string, ghost rooted: bool, ghost b: seq<string>, ghost t: seq<string>)
    returns (r: Option<string>)
    requires Canonical(rooted, b) && Canonical(rooted, t) && b != t
    requires base == Text(rooted, b) && targ == Render(rooted, t)
    ensures var k := CommonPrefix(b, t);
      r == if k < |b| && b[k] == ".." then None
           else Some(Joined(DotDots(|b| - k) + (if t == [] then Written(rooted, t) else t[k..])))
  {
    hide Joined, Text;
    ghost var tw := Written(rooted, t);
    BaseText(rooted, t);
    ghost var k := CommonPrefix(b, tw);
    WrittenPrefix(rooted, b, t);
    var b0, bi, t0 := SkipCommon(base, targ, rooted, b, tw);
    if base[b0..bi] == ".." { return None; }
    JoinedNonEmpty(b[k..]);
    JoinedNonEmpty(tw[k..]);
    if b0 != |base| {
      var seps := CountSeps(base[b0..]);
      CountSepsJoined(b[k..]);
      var path := UpPath(seps, targ[t0..]);
      UpPathText(seps, tw[k..]);
      return Some(path);
    }
    assert DotDots(0) + tw[k..] == tw[k..];
    return Some(targ[t0..]);
  }

  /** Ups, a separator and the rest of the target are the ups and the rest, joined. */
  lemma UpPathText(seps: nat, down: seq<string>)
    requires Segments(down)
    ensures Joined(DotDots(seps + 1) + down) == Joined(DotDots(seps + 1)) + (if Joined(down) == "" then "" else [SEP] + Joined(down))
  {
    hide Joined;
    JoinedNonEmpty(down);
    if down == [] {
      assert DotDots(seps + 1) + down == DotDots(seps + 1);
    } else {
      JoinedConcat(DotDots(seps + 1), down);
    }
  }

  lemma JoinedNonEmpty(es: seq<string>)
    requires Segments(es)
    ensures Joined(es) == "" <==> es == []
  {}

  /** Writing "." for no elements does not change what is shared. */
  lemma WrittenPrefix(rooted: bool, b: seq<string>, t: seq<string>)
    requires Canonical(rooted, b) && Canonical(rooted, t) && b != t
    ensures var tw := Written(rooted, t);
      && CommonPrefix(b, tw) == CommonPrefix(b, t) && b != tw && Segments(tw)
      && tw[CommonPrefix(b, t)..] == if t == [] then tw else t[CommonPrefix(b, t)..]
  {}
}
