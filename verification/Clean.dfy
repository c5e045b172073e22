/** The byte-level `Clean` of MichaelTJones/walk/walk.go, with its lazily allocated output buffer. */
module Clean {
  import opened Paths

  /** Output that is not copied out of `path` until it differs from it. */
  class LazyBuf {
    const path: string
    var buf: array?<char>
    var w: nat

    ghost predicate Valid()
      reads this
    {
      w <= |path| && (buf != null ==> buf.Length == |path|)
    }

    /** The eager buffer that this one stands for. */
    ghost function Contents(): (s: string)
      requires Valid()
      reads this, buf
    {
      if buf == null then path[..w] else buf[..w]
    }

    constructor (path: string)
      ensures Valid() && this.path == path && Contents() == "" && buf == null && w == 0
    {
      this.path, buf, w := path, null, 0;
    }

    /** Any byte of the contents, and the byte just given up by a backtracking step. */
    function Index(i: nat): (c: char)
      requires Valid() && i < |path|
      reads this, buf
      ensures i < w ==> c == Contents()[i]
    {
      if buf != null then buf[i] else path[i]
    }

    method Append(c: char)
      requires Valid() && w < |path|
      modifies this, buf
      ensures Valid() && Contents() == old(Contents()) + [c] && w == old(w) + 1
      ensures buf == old(buf) || fresh(buf)
    {
      if buf == null {
        if w < |path| && path[w] == c {
          w := w + 1;
          return;
        }
        buf := new char[|path|];
        forall i | 0 <= i < w { buf[i] := path[i]; }
        assert buf[..w] == path[..w];
      }
      ghost var before := buf[..w];
      buf[w] := c;
      w := w + 1;
      assert buf[..w] == before + [c];
    }

    /** Gives the last byte up; it stays readable through Index. */
    method Retract()
      requires Valid() && w > 0
      modifies this`w
      ensures Valid() && w == old(w) - 1 && Contents() == old(Contents())[..w]
      ensures Index(w) == old(Contents())[w]
    {
      w := w - 1;
    }

    method String() returns (s: string)
      requires Valid()
      ensures s == Contents()
    {
      if buf == null {
        s := path[..w];
      } else {
        s := buf[..w];
      }
    }
  }

  /** `dotdot` marks the end of the leading `lead` elements "..", behind which ".." cannot retract. */
  ghost predicate DotDotMark(rooted: bool, stack: seq<string>, lead: nat, dotdot: nat) {
    && lead <= |stack| && (rooted ==> lead == 0)
    && (forall i :: 0 <= i < lead ==> stack[i] == "..")
    && (forall i :: lead <= i < |stack| ==> stack[i] != "..")
    && dotdot == |Text(rooted, stack[..lead])|
  }

  /** The output so far is the text of `stack`, and what is left of the path completes its meaning.
      The output is behind the input, strictly so at the start of an element that needs a separator. */
  ghost predicate Progress(out: LazyBuf, path: string, rooted: bool, r: nat, stack: seq<string>)
    reads out, out.buf
  {
    && out.Valid() && out.path == path && rooted == Rooted(path) && r <= |path|
    && Canonical(rooted, stack)
    && out.Contents() == Text(rooted, stack)
    && Resolve(rooted, stack, Elements(path[r..])) == Resolve(rooted, [], Elements(path))
    && out.w <= r && (r < |path| && path[r] != SEP && stack != [] ==> out.w < r)
  }

  /** The last element of the output is given up, byte by byte. */
  method Backtrack(out: LazyBuf, dotdot: nat, ghost rooted: bool, ghost stack: seq<string>, ghost lead: nat)
    requires out.Valid() && out.Contents() == Text(rooted, stack)
    requires Canonical(rooted, stack) && DotDotMark(rooted, stack, lead, dotdot) && out.w > dotdot
    modifies out`w
    ensures lead < |stack|
    ensures out.Valid() && out.Contents() == Text(rooted, stack[..|stack| - 1]) && out.w < old(out.w)
  {
    hide Text, Canonical, DotDotMark;
    ghost var full := out.Contents();
    MarkBehind(rooted, stack, lead, dotdot);
    ghost var kept := stack[..|stack| - 1];
    ghost var t := |Text(rooted, kept)|;
    LastElement(rooted, stack);
    out.Retract();
    while out.w > dotdot && out.Index(out.w) != SEP
      invariant out.Valid() && dotdot <= t <= out.w < |full| == old(out.w)
      invariant out.Contents() == full[..out.w] && out.Index(out.w) == full[out.w]
    {
      out.Retract();
    }
  }

  /** Where the last element starts in the text: behind a separator, unless it is the only one. */
  lemma LastElement(rooted: bool, stack: seq<string>)
    requires Canonical(rooted, stack) && stack != []
    ensures var full, kept := Text(rooted, stack), Text(rooted, stack[..|stack| - 1]);
      && |kept| < |full| && full[..|kept|] == kept
      && (|stack| > 1 ==> full[|kept|] == SEP)
      && forall i :: |kept| < i < |full| ==> full[i] != SEP
  {
    var full, kept, last := Text(rooted, stack), Text(rooted, stack[..|stack| - 1]), stack[|stack| - 1];
    assert stack == stack[..|stack| - 1] + [last];
    TextSnoc(rooted, stack[..|stack| - 1], last);
    var at := |full| - |last|;
    assert forall i :: at <= i < |full| ==> full[i] == last[i - at];
  }

  lemma MarkBehind(rooted: bool, stack: seq<string>, lead: nat, dotdot: nat)
    requires Canonical(rooted, stack) && DotDotMark(rooted, stack, lead, dotdot) && |Text(rooted, stack)| > dotdot
    ensures lead < |stack|
    ensures dotdot <= |Text(rooted, stack[..|stack| - 1])|
    ensures |stack| == 1 ==> dotdot == |Text(rooted, [])|
  {
    assert stack[..|stack|] == stack;
    var kept := stack[..|stack| - 1];
    assert kept[..lead] == stack[..lead];
    TextGrows(rooted, kept, lead);
    assert |stack| == 1 ==> stack[..lead] == [];
  }

  /** Appends the separator that an element needs when it is not the first. */
  method AppendSeparator(out: LazyBuf, ghost rooted: bool, ghost stack: seq<string>, needed: bool)
    requires out.Valid() && out.Contents() == Text(rooted, stack) && needed == (stack != []) && out.w < |out.path|
    modifies out, out.buf
    ensures out.Valid() && out.Contents() == Text(rooted, stack) + (if stack == [] then "" else [SEP])
    ensures out.w == old(out.w) + (if needed then 1 else 0)
    ensures out.buf == old(out.buf) || fresh(out.buf)
  {
    if needed {
      out.Append(SEP);
    }
  }

  /** Appends ".." to an unrooted output that cannot retract. */
  method AppendDotDot(out: LazyBuf, ghost stack: seq<string>)
    requires out.Valid() && out.Contents() == Text(false, stack) && Canonical(false, stack)
    requires out.w + (if stack == [] then 2 else 3) <= |out.path|
    modifies out, out.buf
    ensures out.Valid() && out.Contents() == Text(false, stack + [".."])
    ensures out.w == old(out.w) + (if stack == [] then 2 else 3)
    ensures out.buf == old(out.buf) || fresh(out.buf)
  {
    TextLength(false, stack);
    TextSnoc(false, stack, "..");
    hide Text;
    AppendSeparator(out, false, stack, out.w > 0);
    out.Append('.');
    out.Append('.');
  }

  /** A ".." element. */
  method StepUp(out: LazyBuf, path: string, rooted: bool, r: nat, dotdot: nat, ghost stack: seq<string>, ghost lead: nat)
    returns (dotdot': nat, ghost stack': seq<string>, ghost lead': nat)
    requires Progress(out, path, rooted, r, stack) && DotDotMark(rooted, stack, lead, dotdot)
    requires r + 2 <= |path| && path[r..r + 2] == ".." && (r + 2 < |path| ==> path[r + 2] == SEP)
    modifies out, out.buf
    ensures Progress(out, path, rooted, r + 2, stack') && DotDotMark(rooted, stack', lead', dotdot')
    ensures out.buf == old(out.buf) || fresh(out.buf)
  {
    hide Resolve, Elements, Text;
    ghost var rest := path[r..];
    assert rest[..2] == ".." && rest[2..] == path[r + 2..];
    Consume(rooted, stack, rest, 2);
    PushCanonical(rooted, stack, "..");
    stack', lead', dotdot' := Push(rooted, stack, ".."), lead, dotdot;
    if out.w > dotdot {
      Backtrack(out, dotdot, rooted, stack, lead);
      assert stack'[..lead] == stack[..lead];
    } else {
      AtMark(rooted, stack, lead, dotdot);
      if !rooted {
        AppendDotDot(out, stack);
        dotdot', lead' := out.w, |stack'|;
        assert stack'[..lead'] == stack';
      }
    }
  }

  lemma AtMark(rooted: bool, stack: seq<string>, lead: nat, dotdot: nat)
    requires Canonical(rooted, stack) && DotDotMark(rooted, stack, lead, dotdot) && |Text(rooted, stack)| <= dotdot
    ensures lead == |stack|
  {
    if lead < |stack| {
      assert stack[..lead + 1] == stack[..lead] + [stack[lead]];
      TextSnoc(rooted, stack[..lead], stack[lead]);
      TextGrows(rooted, stack, lead + 1);
    }
  }

  /** A real element: copied up to the next separator. */
  method CopyElement(out: LazyBuf, path: string, rooted: bool, r0: nat, ghost stack: seq<string>)
    returns (r: nat)
    requires Progress(out, path, rooted, r0, stack)
    requires r0 < |path| && path[r0] != SEP
    modifies out, out.buf
    ensures r0 < r <= |path| && SEP !in path[r0..r] && (r < |path| ==> path[r] == SEP)
    ensures out.Valid() && out.w <= r
    ensures out.Contents() == Text(rooted, stack) + (if stack == [] then "" else [SEP]) + path[r0..r]
    ensures out.buf == old(out.buf) || fresh(out.buf)
  {
    hide Resolve, Elements;
    TextLength(rooted, stack);
    AppendSeparator(out, rooted, stack, if rooted then out.w != 1 else out.w != 0);
    ghost var before := out.Contents();
    r := r0;
    while r < |path| && path[r] != SEP
      invariant r0 <= r <= |path| && SEP !in path[r0..r]
      invariant out.Valid() && out.w <= r && out.Contents() == before + path[r0..r]
      invariant out.buf == old(out.buf) || fresh(out.buf)
    {
      out.Append(path[r]);
      assert path[r0..r + 1] == path[r0..r] + [path[r]];
      r := r + 1;
    }
  }

  /** A real element, as a step of the loop. */
  method StepElement(out: LazyBuf, path: string, rooted: bool, r: nat, ghost dotdot: nat, ghost stack: seq<string>, ghost lead: nat)
    returns (r': nat, ghost stack': seq<string>)
    requires Progress(out, path, rooted, r, stack) && DotDotMark(rooted, stack, lead, dotdot)
    requires r < |path| && path[r] != SEP
    requires !(path[r] == '.' && (r + 1 == |path| || path[r + 1] == SEP))
    requires !(path[r] == '.' && path[r + 1] == '.' && (r + 2 == |path| || path[r + 2] == SEP))
    modifies out, out.buf
    ensures r < r' && Progress(out, path, rooted, r', stack') && DotDotMark(rooted, stack', lead, dotdot)
    ensures out.buf == old(out.buf) || fresh(out.buf)
  {
    hide Resolve, Elements, Text;
    r' := CopyElement(out, path, rooted, r, stack);
    ghost var e := path[r..r'];
    RealElement(path, r, r');
    assert path[r..][..r' - r] == e && path[r..][r' - r..] == path[r'..];
    Consume(rooted, stack, path[r..], r' - r);
    PushCanonical(rooted, stack, e);
    TextSnoc(rooted, stack, e);
    stack' := stack + [e];
    assert stack'[..lead] == stack[..lead];
  }

  /** Skipping a separator or a "." element. */
  lemma StepOver(out: LazyBuf, path: string, rooted: bool, r: nat, stack: seq<string>)
    requires Progress(out, path, rooted, r, stack) && r < |path|
    requires path[r] == SEP || (path[r] == '.' && (r + 1 == |path| || path[r + 1] == SEP))
    ensures Progress(out, path, rooted, r + 1, stack)
  {
    hide Resolve, Elements, Text;
    if path[r] == SEP {
      SkipSeparator(rooted, stack, path, r);
    } else {
      assert path[r..][..1] == "." && path[r..][1..] == path[r + 1..];
      Consume(rooted, stack, path[r..], 1);
    }
  }

  /** The initial state: at the root separator's right, or at the start. */
  method Begin(path: string, rooted: bool) returns (out: LazyBuf, r: nat, dotdot: nat)
    requires path != "" && rooted == Rooted(path)
    ensures Progress(out, path, rooted, r, []) && DotDotMark(rooted, [], 0, dotdot)
    ensures fresh(out) && (out.buf != null ==> fresh(out.buf))
  {
    hide Resolve, Elements;
    out := new LazyBuf(path);
    r, dotdot := 0, 0;
    assert path[0..] == path;
    if rooted {
      SkipSeparator(rooted, [], path, 0);
      out.Append(SEP);
      r, dotdot := 1, 1;
    }
  }

  /** The loop with its backtracking computes the cleaned path. */
  method CleanPath(path: string) returns (s: string)
    ensures s == Cleaned(path)
  {
    hide Progress, DotDotMark;
    if path == "" {
      CleanedEmpty();
      return path + ".";
    }
    var rooted, n := path[0] == SEP, |path|;
    var out, r, dotdot := Begin(path, rooted);
    ghost var stack: seq<string>, lead: nat := [], 0;
    while r < n
      invariant Progress(out, path, rooted, r, stack) && DotDotMark(rooted, stack, lead, dotdot)
      invariant fresh(out) && (out.buf != null ==> fresh(out.buf))
      decreases n - r
    {
      if path[r] == SEP {
        StepOver(out, path, rooted, r, stack);
        r := r + 1;
      } else if path[r] == '.' && (r + 1 == n || path[r + 1] == SEP) {
        StepOver(out, path, rooted, r, stack);
        r := r + 1;
      } else if path[r] == '.' && path[r + 1] == '.' && (r + 2 == n || path[r + 2] == SEP) {
        dotdot, stack, lead := StepUp(out, path, rooted, r, dotdot, stack, lead);
        r := r + 2;
      } else {
        r, stack := StepElement(out, path, rooted, r, dotdot, stack, lead);
      }
    }
    s := Finish(out, path, rooted, r, stack);
  }

  /** Turns the empty string into ".". */
  method Finish(out: LazyBuf, path: string, rooted: bool, r: nat, ghost stack: seq<string>) returns (s: string)
    requires Progress(out, path, rooted, r, stack) && r >= |path| && path != ""
    modifies out, out.buf
    ensures s == Cleaned(path)
  {
    hide Resolve, Elements;
    Finished(path, rooted, r, stack);
    if out.w == 0 {
      out.Append('.');
    }
    s := out.String();
  }

  lemma CleanedEmpty()
    ensures Cleaned("") == "."
  {}

  lemma SkipSeparator(rooted: bool, stack: seq<string>, path: string, r: nat)
    requires r < |path| && path[r] == SEP
    ensures Resolve(rooted, stack, Elements(path[r..])) == Resolve(rooted, stack, Elements(path[r + 1..]))
  {
    assert path[r..][1..] == path[r + 1..];
    assert ([""] + Elements(path[r + 1..]))[1..] == Elements(path[r + 1..]);
  }

  /** A stretch that the earlier branches refused is an element to keep. */
  lemma RealElement(path: string, r: nat, r': nat)
    requires r < r' <= |path| && SEP !in path[r..r'] && (r' < |path| ==> path[r'] == SEP)
    requires !(path[r] == '.' && (r + 1 == |path| || path[r + 1] == SEP))
    requires !(path[r] == '.' && path[r + 1] == '.' && (r + 2 == |path| || path[r + 2] == SEP))
    ensures Plain(path[r..r']) && path[r..r'] != ".."
  {
    var e := path[r..r'];
    assert e[0] == path[r];
    if |e| == 2 {
      assert e[1] == path[r + 1];
    }
  }

  lemma Finished(path: string, rooted: bool, r: nat, stack: seq<string>)
    requires r == |path| && Resolve(rooted, stack, Elements(path[r..])) == Resolve(rooted, [], Elements(path))
    ensures Resolve(rooted, [], Elements(path)) == stack
  {
    assert path[r..] == "";
    assert [""][1..] == [];
  }
}
