/**
 * Node's POSIX `path.join` and `path.normalize`, on which the file-serving
 * route's containment check rests. The character scan of Node's
 * `normalizeString` is written here as the segment stack it implements.
 */
module PosixPath {
  import opened JsText

  type Segment = JsString

  const DotSegment: Segment := [Dot]
  const DotDotSegment: Segment := [Dot, Dot]

  /** `s.split('/')`: the pieces between slashes, empty pieces included. */
  function Split(s: JsString): (r: seq<Segment>)
    ensures |r| >= 1
  {
    if s == [] then [[]]
    else
      var t := Split(s[1..]);
      if s[0] == Slash then [[]] + t else [[s[0]] + t[0]] + t[1..]
  }

  /** `parts.join('/')`. */
  function JoinWith(parts: seq<JsString>): JsString
  {
    if |parts| == 0 then []
    else if |parts| == 1 then parts[0]
    else parts[0] + [Slash] + JoinWith(parts[1..])
  }

  /** The pieces of every string in `parts`, one after the other. */
  function SplitAll(parts: seq<JsString>): seq<Segment>
  {
    if parts == [] then [] else Split(parts[0]) + SplitAll(parts[1..])
  }

  /** The arguments `path.join` keeps: the non-empty ones. */
  function NonEmpty(args: seq<JsString>): seq<JsString>
  {
    if args == [] then []
    else if args[0] == [] then NonEmpty(args[1..])
    else [args[0]] + NonEmpty(args[1..])
  }

  /**
   * One segment of `normalizeString`: an empty or `.` segment is skipped; `..`
   * pops the last segment unless that is itself `..`, and is kept only above
   * the start of a relative path; any other segment is pushed.
   */
  function Step(stack: seq<Segment>, seg: Segment, allowAboveRoot: bool): seq<Segment>
  {
    if seg == [] || seg == DotSegment then stack
    else if seg == DotDotSegment then
      if |stack| > 0 && stack[|stack| - 1] != DotDotSegment then stack[..|stack| - 1]
      else if allowAboveRoot then stack + [DotDotSegment]
      else stack
    else stack + [seg]
  }

  /** `Step` over the segments from left to right. */
  function Resolve(stack: seq<Segment>, segs: seq<Segment>, allowAboveRoot: bool): seq<Segment>
    decreases segs
  {
    if segs == [] then stack else Resolve(Step(stack, segs[0], allowAboveRoot), segs[1..], allowAboveRoot)
  }

  predicate IsAbsolute(p: JsString) { p != [] && p[0] == Slash }

  predicate HasTrailingSlash(p: JsString) { p != [] && p[|p| - 1] == Slash }

  /** The segments that survive normalisation of `p`. */
  function Segments(p: JsString): seq<Segment>
  {
    Resolve([], Split(p), !IsAbsolute(p))
  }

  /** How `normalize` writes a resolved stack back as a string. */
  function Render(absolute: bool, stack: seq<Segment>, trailing: bool): JsString
  {
    var body := JoinWith(stack);
    if body == [] then
      (if absolute then [Slash] else if trailing then [Dot, Slash] else [Dot])
    else
      (if absolute then [Slash] else []) + body + (if trailing then [Slash] else [])
  }

  /** `path.posix.normalize(p)`. */
  function Normalize(p: JsString): JsString
  {
    if p == [] then DotSegment
    else Render(IsAbsolute(p), Segments(p), HasTrailingSlash(p))
  }

  /** `path.posix.join(...args)`. */
  function Join(args: seq<JsString>): JsString
  {
    var kept := NonEmpty(args);
    if kept == [] then DotSegment else Normalize(JoinWith(kept))
  }

  /** A segment that normalisation leaves in place without removing or popping it. */
  predicate IsPlain(seg: Segment)
  {
    seg != [] && seg != DotSegment && seg != DotDotSegment && Slash !in seg
  }

  /**
   * A stack `Resolve` can produce: no empty or `.` segments, no slashes inside a
   * segment, and `..` only as a leading run, and only in a relative path.
   */
  predicate IsCanonical(stack: seq<Segment>, allowAboveRoot: bool)
  {
    (forall i | 0 <= i < |stack| :: stack[i] != [] && stack[i] != DotSegment && Slash !in stack[i]) &&
    (forall i | 0 <= i < |stack| :: stack[i] == DotDotSegment ==> allowAboveRoot) &&
    (forall i, j | 0 <= i < j < |stack| :: stack[j] == DotDotSegment ==> stack[i] == DotDotSegment)
  }

  /** No piece of `s` is `..`. */
  predicate NoDotDot(s: JsString)
  {
    forall seg | seg in Split(s) :: seg != DotDotSegment
  }

  // ---------------------------------------------------------------------------
  // Splitting and joining

  lemma {:induction false} SplitAppend(a: JsString, b: JsString)
    ensures Split(a + [Slash] + b) == Split(a) + Split(b)
  {
    if a == [] {
      assert a + [Slash] + b == [Slash] + b;
    } else {
      assert (a + [Slash] + b)[1..] == a[1..] + [Slash] + b;
      SplitAppend(a[1..], b);
    }
  }

  lemma {:induction false} SplitNoSlash(a: JsString)
    requires Slash !in a
    ensures Split(a) == [a]
  {
    if a != [] {
      assert a[0] in a;
      SplitNoSlash(a[1..]);
      assert [a[0]] + a[1..] == a;
    }
  }

  /** No piece produced by `split('/')` contains a slash. */
  lemma {:induction false} SplitPiecesHaveNoSlash(s: JsString)
    ensures forall seg | seg in Split(s) :: Slash !in seg
  {
    if s != [] {
      SplitPiecesHaveNoSlash(s[1..]);
      var t := Split(s[1..]);
      if s[0] != Slash {
        assert Slash !in [s[0]] + t[0];
        assert Split(s) == [[s[0]] + t[0]] + t[1..];
      }
    }
  }

  lemma {:induction false} SplitJoinWith(parts: seq<JsString>)
    requires parts != []
    ensures Split(JoinWith(parts)) == SplitAll(parts)
  {
    if |parts| == 1 {
      assert SplitAll(parts) == Split(parts[0]) + SplitAll([]);
    } else {
      SplitAppend(parts[0], JoinWith(parts[1..]));
      SplitJoinWith(parts[1..]);
    }
  }

  /** Splitting a stack of slash-free segments joined by `/` gives the stack back. */
  lemma {:induction false} SplitJoinRoundTrip(parts: seq<JsString>)
    requires parts != []
    requires forall i | 0 <= i < |parts| :: Slash !in parts[i]
    ensures Split(JoinWith(parts)) == parts
  {
    SplitNoSlash(parts[0]);
    if |parts| > 1 {
      SplitAppend(parts[0], JoinWith(parts[1..]));
      SplitJoinRoundTrip(parts[1..]);
    }
  }

  lemma {:induction false} JoinWithAppend(a: seq<JsString>, b: seq<JsString>)
    requires a != [] && b != []
    ensures JoinWith(a + b) == JoinWith(a) + [Slash] + JoinWith(b)
  {
    if |a| == 1 {
      assert (a + b)[1..] == b;
    } else {
      assert (a + b)[1..] == a[1..] + b;
      JoinWithAppend(a[1..], b);
    }
  }

  /** Joining non-empty segments gives a string that starts and ends inside them. */
  lemma {:induction false} JoinWithEnds(parts: seq<JsString>)
    requires parts != []
    requires forall i | 0 <= i < |parts| :: parts[i] != []
    ensures JoinWith(parts) != []
    ensures JoinWith(parts)[0] == parts[0][0]
    ensures JoinWith(parts)[|JoinWith(parts)| - 1] == parts[|parts| - 1][|parts[|parts| - 1]| - 1]
  {
    if |parts| > 1 {
      var tail := parts[1..];
      assert forall i | 0 <= i < |tail| :: tail[i] == parts[i + 1];
      JoinWithEnds(tail);
      var j := JoinWith(tail);
      var w := parts[0] + [Slash] + j;
      assert JoinWith(parts) == w;
      assert tail[|tail| - 1] == parts[|parts| - 1];
      assert w[0] == parts[0][0];
      assert w[|w| - 1] == j[|j| - 1];
    }
  }

  // ---------------------------------------------------------------------------
  // Resolving segments

  lemma {:induction false} ResolveAppend(stack: seq<Segment>, a: seq<Segment>, b: seq<Segment>, allow: bool)
    ensures Resolve(stack, a + b, allow) == Resolve(Resolve(stack, a, allow), b, allow)
    decreases a
  {
    if a == [] {
      assert a + b == b;
    }
    if a != [] {
      assert (a + b)[0] == a[0];
      assert (a + b)[1..] == a[1..] + b;
      ResolveAppend(Step(stack, a[0], allow), a[1..], b, allow);
    }
  }

  lemma StepCanonical(stack: seq<Segment>, seg: Segment, allow: bool)
    requires IsCanonical(stack, allow)
    requires Slash !in seg
    ensures IsCanonical(Step(stack, seg, allow), allow)
  {
  }

  lemma {:induction false} ResolveCanonical(stack: seq<Segment>, segs: seq<Segment>, allow: bool)
    requires IsCanonical(stack, allow)
    requires forall seg | seg in segs :: Slash !in seg
    ensures IsCanonical(Resolve(stack, segs, allow), allow)
    decreases segs
  {
    if segs != [] {
      StepCanonical(stack, segs[0], allow);
      ResolveCanonical(Step(stack, segs[0], allow), segs[1..], allow);
    }
  }

  /** Every stack `Segments` produces is canonical; an absolute path keeps no `..`. */
  lemma SegmentsCanonical(p: JsString)
    ensures IsCanonical(Segments(p), !IsAbsolute(p))
  {
    SplitPiecesHaveNoSlash(p);
    ResolveCanonical([], Split(p), !IsAbsolute(p));
  }

  /** Resolving a canonical continuation of a stack pushes it unchanged. */
  lemma {:induction false} ResolveCanonicalIdentity(stack: seq<Segment>, segs: seq<Segment>, allow: bool)
    requires IsCanonical(stack + segs, allow)
    ensures Resolve(stack, segs, allow) == stack + segs
    decreases segs
  {
    if segs != [] {
      assert (stack + segs)[|stack|] == segs[0];
      if segs[0] == DotDotSegment && |stack| > 0 {
        assert (stack + segs)[|stack| - 1] == stack[|stack| - 1];
      }
      assert Step(stack, segs[0], allow) == stack + [segs[0]];
      assert stack + [segs[0]] + segs[1..] == stack + segs;
      ResolveCanonicalIdentity(stack + [segs[0]], segs[1..], allow);
    }
  }

  /** The segments that a `..`-free list keeps: the plain ones. */
  function PlainOnly(segs: seq<Segment>): seq<Segment>
  {
    if segs == [] then []
    else if segs[0] == [] || segs[0] == DotSegment then PlainOnly(segs[1..])
    else [segs[0]] + PlainOnly(segs[1..])
  }

  /** Without `..`, resolving only drops empty and `.` segments: nothing already on the stack is popped. */
  lemma {:induction false} ResolveWithoutDotDot(stack: seq<Segment>, segs: seq<Segment>, allow: bool)
    requires forall seg | seg in segs :: seg != DotDotSegment
    ensures Resolve(stack, segs, allow) == stack + PlainOnly(segs)
    decreases segs
  {
    if segs != [] {
      var s, tail := segs[0], segs[1..];
      assert s in segs;
      assert forall seg | seg in tail :: seg in segs;
      if s == [] || s == DotSegment {
        assert Step(stack, s, allow) == stack;
        ResolveWithoutDotDot(stack, tail, allow);
        assert PlainOnly(segs) == PlainOnly(tail);
      } else {
        assert Step(stack, s, allow) == stack + [s];
        ResolveWithoutDotDot(stack + [s], tail, allow);
        assert PlainOnly(segs) == [s] + PlainOnly(tail);
        SeqAssoc(stack, [s], PlainOnly(tail));
      }
    }
  }

  /** Empty arguments to `join` contribute only empty pieces, which `Resolve` skips. */
  lemma {:induction false} ResolveNonEmpty(stack: seq<Segment>, args: seq<JsString>, allow: bool)
    ensures Resolve(stack, SplitAll(NonEmpty(args)), allow) == Resolve(stack, SplitAll(args), allow)
    decreases args
  {
    if args != [] {
      ResolveNonEmpty(stack, args[1..], allow);
      if args[0] == [] {
        assert SplitAll(args) == [[]] + SplitAll(args[1..]);
      } else {
        assert SplitAll(NonEmpty(args)) == Split(args[0]) + SplitAll(NonEmpty(args[1..]));
        ResolveAppend(stack, Split(args[0]), SplitAll(NonEmpty(args[1..])), allow);
        ResolveAppend(stack, Split(args[0]), SplitAll(args[1..]), allow);
        ResolveNonEmpty(Resolve(stack, Split(args[0]), allow), args[1..], allow);
      }
    }
  }

  // ---------------------------------------------------------------------------
  // Properties of normalize

  /** The string `normalize` writes for a non-empty stack: root slash, body, trailing slash. */
  lemma RenderNonEmpty(absolute: bool, stack: seq<Segment>, trailing: bool)
    requires stack != []
    requires forall i | 0 <= i < |stack| :: stack[i] != []
    ensures Render(absolute, stack, trailing) ==
      (if absolute then [Slash] else []) + JoinWith(stack) + (if trailing then [Slash] else [])
  {
    JoinWithEnds(stack);
  }

  /** Writing out a non-empty stack of slash-free segments and splitting it again gives the stack back, with the root and trailing pieces. */
  lemma RenderSplit(absolute: bool, stack: seq<Segment>, trailing: bool)
    requires stack != []
    requires forall i | 0 <= i < |stack| :: stack[i] != [] && Slash !in stack[i]
    ensures Split(Render(absolute, stack, trailing)) ==
      (if absolute then [[]] else []) + stack + (if trailing then [[]] else [])
  {
    RenderNonEmpty(absolute, stack, trailing);
    SplitJoinRoundTrip(stack);
    WrapSplit(absolute, JoinWith(stack), trailing);
  }

  /** Splitting a string with an optional slash before it and after it. */
  lemma WrapSplit(before: bool, body: JsString, after: bool)
    ensures Split((if before then [Slash] else []) + body + (if after then [Slash] else [])) ==
      (if before then [[]] else []) + Split(body) + (if after then [[]] else [])
  {
    var none: JsString := [];
    var pre, post: JsString := (if before then [Slash] else []), (if after then [Slash] else []);
    var pre1, post1: seq<Segment> := (if before then [[]] else []), (if after then [[]] else []);
    var mid := body + post;
    SeqAssoc(pre, body, post);
    assert Split(mid) == Split(body) + post1 by {
      if after {
        SplitAppend(body, none);
        assert mid == body + [Slash] + none;
      } else {
        assert mid == body;
      }
    }
    assert Split(pre + mid) == pre1 + Split(mid) by {
      if before {
        SlashThenSplit(mid);
      } else {
        assert pre + mid == mid;
      }
    }
    SeqAssoc(pre1, Split(body), post1);
  }

  /** A leading slash adds one empty piece in front. */
  lemma SlashThenSplit(s: JsString)
    ensures Split([Slash] + s) == [[]] + Split(s)
  {
    assert ([Slash] + s)[1..] == s;
  }

  /** Where the first and last code units of a written-out non-empty stack come from. */
  lemma RenderEnds(absolute: bool, stack: seq<Segment>, trailing: bool)
    requires stack != []
    requires forall i | 0 <= i < |stack| :: stack[i] != [] && Slash !in stack[i]
    ensures IsAbsolute(Render(absolute, stack, trailing)) == absolute
    ensures HasTrailingSlash(Render(absolute, stack, trailing)) == trailing
  {
    RenderNonEmpty(absolute, stack, trailing);
    JoinWithEnds(stack);
    var body := JoinWith(stack);
    var first, last := stack[0], stack[|stack| - 1];
    assert body[0] != Slash by {
      assert first[0] in first;
    }
    assert body[|body| - 1] != Slash by {
      assert last[|last| - 1] in last;
    }
    var pre, post: JsString := (if absolute then [Slash] else []), (if trailing then [Slash] else []);
    var w := pre + body + post;
    assert w[0] == if absolute then Slash else body[0];
    assert w[|w| - 1] == if trailing then Slash else body[|body| - 1];
  }

  /**
   * A normalised path is the canonical stack of the input written out: a root
   * slash for an absolute path, the kept segments between single slashes, and a
   * trailing slash if the input had one. So it has no empty, `.` or `..`
   * segments (an absolute path none at all, a relative one only a leading run
   * of `..`) apart from the pieces around the root and trailing slashes.
   */
  lemma NormalizeSplit(p: JsString)
    requires Segments(p) != []
    ensures IsCanonical(Segments(p), !IsAbsolute(p))
    ensures Split(Normalize(p)) ==
      (if IsAbsolute(p) then [[]] else []) + Segments(p) + (if HasTrailingSlash(p) then [[]] else [])
  {
    SegmentsOfEmpty();
    SegmentsCanonical(p);
    RenderSplit(IsAbsolute(p), Segments(p), HasTrailingSlash(p));
  }

  lemma SegmentsOfEmpty()
    ensures Segments([]) == []
  {
    assert Split([]) == [[]];
  }

  /** A canonical stack, written out and read back, resolves to itself. */
  lemma ResolveWrapped(absolute: bool, stack: seq<Segment>, trailing: bool)
    requires IsCanonical(stack, !absolute)
    ensures Resolve([], (if absolute then [[]] else []) + stack + (if trailing then [[]] else []), !absolute) == stack
  {
    var pre: seq<Segment> := if absolute then [[]] else [];
    var post: seq<Segment> := if trailing then [[]] else [];
    assert pre + stack + post == pre + (stack + post);
    ResolveAppend([], pre, stack + post, !absolute);
    ResolveAppend([], stack, post, !absolute);
    assert Resolve([], pre, !absolute) == [];
    assert [] + stack == stack;
    ResolveCanonicalIdentity([], stack, !absolute);
    assert Resolve(stack, post, !absolute) == stack;
  }

  /** Normalising a normalised path changes nothing. */
  lemma NormalizeIdempotent(p: JsString)
    ensures Normalize(Normalize(p)) == Normalize(p)
  {
    if p != [] && Segments(p) != [] {
      var st, abs, trail := Segments(p), IsAbsolute(p), HasTrailingSlash(p);
      NormalizeSplit(p);
      RenderEnds(abs, st, trail);
      ResolveWrapped(abs, st, trail);
      assert Segments(Normalize(p)) == st;
    } else {
      NormalizeEmptyStack();
    }
  }

  /** The three ways `normalize` writes an empty stack are fixed points. */
  lemma NormalizeEmptyStack()
    ensures Normalize([Slash]) == [Slash]
    ensures Normalize([Dot, Slash]) == [Dot, Slash]
    ensures Normalize([Dot]) == [Dot]
  {
    var none: JsString := [];
    assert Split(none) == [[]];
    assert [Slash][1..] == none;
    assert Split([Slash]) == [[], []];
    assert Resolve([], [[], []], false) == [];
    assert [Dot][1..] == none;
    assert Split([Dot]) == [[Dot] + none] + [];
    assert Resolve([], [[Dot]], true) == [];
    assert [Dot, Slash][1..] == [Slash];
    assert Split([Dot, Slash]) == [[Dot] + none] + [[]];
    assert Resolve([], [[Dot], []], true) == [];
  }

  // ---------------------------------------------------------------------------
  // Properties of join

  lemma {:induction false} NonEmptyFacts(args: seq<JsString>)
    ensures forall i | 0 <= i < |NonEmpty(args)| :: NonEmpty(args)[i] != []
    ensures args != [] && args[0] != [] ==> NonEmpty(args) != [] && NonEmpty(args)[0] == args[0]
  {
    if args != [] {
      NonEmptyFacts(args[1..]);
    }
  }

  /**
   * `join` with an absolute first argument: the joined string is absolute and
   * its surviving segments are those of all arguments resolved in order.
   */
  lemma JoinAbsolute(args: seq<JsString>)
    requires args != [] && IsAbsolute(args[0])
    ensures NonEmpty(args) != []
    ensures IsAbsolute(JoinWith(NonEmpty(args)))
    ensures Join(args) == Normalize(JoinWith(NonEmpty(args)))
    ensures Segments(JoinWith(NonEmpty(args))) == Resolve([], SplitAll(args), false)
  {
    NonEmptyFacts(args);
    var kept := NonEmpty(args);
    JoinWithEnds(kept);
    SplitJoinWith(kept);
    ResolveNonEmpty([], args, false);
  }

  /**
   * Appending segments to a non-empty stack writes a path that is the shorter
   * one, or the shorter one followed by a slash: containment by whole segments.
   */
  lemma RenderExtends(stack: seq<Segment>, more: seq<Segment>, trailing: bool)
    requires stack != []
    requires forall i | 0 <= i < |stack| :: stack[i] != []
    requires forall i | 0 <= i < |more| :: more[i] != []
    ensures var whole, base := Render(true, stack + more, trailing), Render(true, stack, false);
      whole == base || StartsWith(whole, base + [Slash])
  {
    var all := stack + more;
    assert forall i | 0 <= i < |all| :: all[i] != [];
    RenderNonEmpty(true, all, trailing);
    RenderNonEmpty(true, stack, false);
    var base := [Slash] + JoinWith(stack);
    if more == [] {
      assert all == stack;
    } else {
      JoinWithAppend(stack, more);
      assert Render(true, all, trailing) == base + [Slash] + (JoinWith(more) + (if trailing then [Slash] else []));
    }
  }

  /** What `PlainOnly` keeps is non-empty, not `.`, and taken from its input. */
  lemma {:induction false} PlainOnlyNonEmpty(segs: seq<Segment>)
    ensures forall i | 0 <= i < |PlainOnly(segs)| :: PlainOnly(segs)[i] != [] && PlainOnly(segs)[i] != DotSegment
    ensures forall seg | seg in PlainOnly(segs) :: seg in segs
  {
    if segs != [] {
      PlainOnlyNonEmpty(segs[1..]);
    }
  }

  /** `join` keeps its last argument when that is non-empty. */
  lemma {:induction false} NonEmptyLast(args: seq<JsString>)
    requires args != [] && args[|args| - 1] != []
    ensures NonEmpty(args) != []
    ensures NonEmpty(args)[|NonEmpty(args)| - 1] == args[|args| - 1]
  {
    if |args| > 1 {
      var tail := args[1..];
      assert tail[|tail| - 1] == args[|args| - 1];
      NonEmptyLast(tail);
    }
  }

  /** A joined string ends with the last code unit of its last argument, when that is non-empty. */
  lemma JoinLastUnit(args: seq<JsString>)
    requires args != [] && args[|args| - 1] != []
    ensures var j, last := JoinWith(NonEmpty(args)), args[|args| - 1];
      j != [] && j[|j| - 1] == last[|last| - 1]
  {
    var kept := NonEmpty(args);
    NonEmptyLast(args);
    NonEmptyFacts(args);
    JoinWithEnds(kept);
  }

  /** An empty last argument to `join` is dropped. */
  lemma {:induction false} NonEmptyDropsEmptyLast(args: seq<JsString>)
    ensures NonEmpty(args + [[]]) == NonEmpty(args)
  {
    if args != [] {
      assert (args + [[]])[1..] == args[1..] + [[]];
      NonEmptyDropsEmptyLast(args[1..]);
    }
  }

  lemma {:induction false} NonEmptyKeepsAll(args: seq<JsString>)
    requires forall i | 0 <= i < |args| :: args[i] != []
    ensures NonEmpty(args) == args
  {
    if args != [] {
      NonEmptyKeepsAll(args[1..]);
      assert [args[0]] + args[1..] == args;
    }
  }

  /** Appending a stack of non-empty segments to another keeps every segment non-empty. */
  lemma NonEmptyConcat(a: seq<Segment>, b: seq<Segment>)
    requires forall i | 0 <= i < |a| :: a[i] != []
    requires forall i | 0 <= i < |b| :: b[i] != []
    ensures forall i | 0 <= i < |a + b| :: (a + b)[i] != []
  {
    forall i | 0 <= i < |a + b|
      ensures (a + b)[i] != []
    {
      if i < |a| {
        assert (a + b)[i] == a[i];
      } else {
        assert (a + b)[i] == b[i - |a|];
      }
    }
  }

  lemma SeqAssoc<T>(a: seq<T>, b: seq<T>, c: seq<T>)
    ensures a + b + c == a + (b + c)
  {
  }

  /** The segments of any path are non-empty. */
  lemma SegmentsNonEmpty(p: JsString)
    ensures forall i | 0 <= i < |Segments(p)| :: Segments(p)[i] != []
  {
    SegmentsCanonical(p);
  }
}
