/**
 * String helpers that the modelled Java code takes from its libraries:
 * Guava's `Splitter.on(c).omitEmptyStrings().trimResults()`, Java's
 * `String.split("\\.")` (of which only the last element is used) and
 * `String.equalsIgnoreCase` against an ASCII constant.
 */
module TextSplit {
  import opened Optional

  /**
   * Guava's `CharMatcher.whitespace()`, the trimmer of `trimResults()`: the
   * characters with the Unicode White_Space property.
   */
  predicate IsWhitespace(c: char) {
    ('\t' <= c <= '\r') || c == ' ' || c == '\U{85}' || c == '\U{A0}' || c == '\U{1680}'
    || ('\U{2000}' <= c <= '\U{200A}') || c == '\U{2028}' || c == '\U{2029}'
    || c == '\U{202F}' || c == '\U{205F}' || c == '\U{3000}'
  }

  predicate AllWhitespace(s: string) {
    forall i :: 0 <= i < |s| ==> IsWhitespace(s[i])
  }

  /** Neither end of `s` is whitespace. */
  predicate IsTrimmed(s: string) {
    s == [] || (!IsWhitespace(s[0]) && !IsWhitespace(s[|s| - 1]))
  }

  // ---------------------------------------------------------------------------
  // Splitting on one character

  /** Pieces joined back with `sep` between consecutive ones. */
  function Join(pieces: seq<string>, sep: char): string
    requires |pieces| >= 1
  {
    if |pieces| == 1 then pieces[0] else pieces[0] + [sep] + Join(pieces[1..], sep)
  }

  /**
   * The pieces after the character `c` is put in front of a text split into
   * `rest`: a separator starts a new empty piece, anything else joins the
   * first piece.
   */
  function Push(c: char, sep: char, rest: seq<string>): (r: seq<string>)
    requires |rest| >= 1
    ensures |r| >= 1
  {
    if c == sep then [""] + rest else [[c] + rest[0]] + rest[1..]
  }

  /**
   * The pieces of `s` between occurrences of `sep`, in order: n separators give
   * n + 1 pieces, some of which may be empty.
   */
  function SplitOn(s: string, sep: char): (r: seq<string>)
    ensures |r| >= 1
  {
    if |s| == 0 then [""] else Push(s[0], sep, SplitOn(s[1..], sep))
  }

  lemma SplitOnCons(c: char, t: string, sep: char)
    ensures SplitOn([c] + t, sep) == Push(c, sep, SplitOn(t, sep))
  {
    var s := [c] + t;
    assert s[0] == c && s[1..] == t;
  }

  lemma PushFree(c: char, sep: char, rest: seq<string>)
    requires |rest| >= 1 && forall i :: 0 <= i < |rest| ==> sep !in rest[i]
    ensures forall i :: 0 <= i < |Push(c, sep, rest)| ==> sep !in Push(c, sep, rest)[i]
  {
    var r := Push(c, sep, rest);
    if c != sep {
      forall i | 0 <= i < |r| ensures sep !in r[i] {
        if i == 0 {
          assert r[0] == [c] + rest[0];
        } else {
          assert r[i] == rest[i];
        }
      }
    }
  }

  /** No piece holds the separator. */
  lemma {:induction false} SplitOnFree(s: string, sep: char)
    ensures forall i :: 0 <= i < |SplitOn(s, sep)| ==> sep !in SplitOn(s, sep)[i]
    decreases |s|
  {
    if |s| > 0 {
      SplitOnFree(s[1..], sep);
      PushFree(s[0], sep, SplitOn(s[1..], sep));
    }
  }

  lemma JoinPush(c: char, sep: char, rest: seq<string>)
    requires |rest| >= 1
    ensures Join(Push(c, sep, rest), sep) == [c] + Join(rest, sep)
  {
    var r := Push(c, sep, rest);
    if c == sep {
      assert r[1..] == rest;
    } else if |rest| > 1 {
      assert r[1..] == rest[1..];
    }
  }

  /** Joining the pieces gives the text back. */
  lemma {:induction false} JoinSplit(s: string, sep: char)
    ensures Join(SplitOn(s, sep), sep) == s
    decreases |s|
  {
    if |s| > 0 {
      JoinSplit(s[1..], sep);
      JoinPush(s[0], sep, SplitOn(s[1..], sep));
      assert [s[0]] + s[1..] == s;
    }
  }

  /** Splitting undoes joining when no piece holds the separator. */
  lemma {:induction false} SplitJoin(pieces: seq<string>, sep: char)
    requires |pieces| >= 1
    requires forall i :: 0 <= i < |pieces| ==> sep !in pieces[i]
    ensures SplitOn(Join(pieces, sep), sep) == pieces
    decreases |pieces|
  {
    SplitPieceFree(pieces[0], sep);
    if |pieces| > 1 {
      SplitJoin(pieces[1..], sep);
      SplitConcat(pieces[0], Join(pieces[1..], sep), sep);
      assert [pieces[0]] + pieces[1..] == pieces;
    }
  }

  lemma {:induction false} SplitPieceFree(p: string, sep: char)
    requires sep !in p
    ensures SplitOn(p, sep) == [p]
    decreases |p|
  {
    if |p| > 0 {
      assert p[0] in p;
      assert sep !in p[1..] by {
        forall c | c in p[1..] ensures c in p { }
      }
      SplitPieceFree(p[1..], sep);
      assert [p[0]] + p[1..] == p;
    }
  }

  lemma PushAppend(c: char, sep: char, p: seq<string>, q: seq<string>)
    requires |p| >= 1
    ensures Push(c, sep, p + q) == Push(c, sep, p) + q
  {
    if c != sep {
      assert (p + q)[0] == p[0];
      assert (p + q)[1..] == p[1..] + q;
    }
  }

  lemma SplitConcatStep(c: char, t: string, b: string, sep: char)
    requires SplitOn(t + [sep] + b, sep) == SplitOn(t, sep) + SplitOn(b, sep)
    ensures SplitOn([c] + (t + [sep] + b), sep) == SplitOn([c] + t, sep) + SplitOn(b, sep)
  {
    SplitOnCons(c, t + [sep] + b, sep);
    SplitOnCons(c, t, sep);
    PushAppend(c, sep, SplitOn(t, sep), SplitOn(b, sep));
  }

  /** A separator splits the text into the pieces of each side. */
  lemma {:induction false} SplitConcat(a: string, b: string, sep: char)
    ensures SplitOn(a + [sep] + b, sep) == SplitOn(a, sep) + SplitOn(b, sep)
    decreases |a|
  {
    if a == [] {
      assert a + [sep] + b == [sep] + b;
      SplitOnCons(sep, b, sep);
    } else {
      SplitConcat(a[1..], b, sep);
      SplitConcatStep(a[0], a[1..], b, sep);
      assert [a[0]] + a[1..] == a;
      assert a + [sep] + b == [a[0]] + (a[1..] + [sep] + b);
    }
  }

  /** The first piece lengthened by `w` in front. */
  function ExtendFirst(w: string, p: seq<string>): (r: seq<string>)
    requires |p| >= 1
    ensures |r| == |p|
  {
    [w + p[0]] + p[1..]
  }

  /** The last piece lengthened by `w` at the end. */
  function ExtendLast(p: seq<string>, w: string): (r: seq<string>)
    requires |p| >= 1
    ensures |r| == |p|
  {
    p[..|p| - 1] + [p[|p| - 1] + w]
  }

  lemma PushExtendFirst(c: char, sep: char, w: string, p: seq<string>)
    requires c != sep && |p| >= 1
    ensures Push(c, sep, ExtendFirst(w, p)) == ExtendFirst([c] + w, p)
  {
    assert [c] + (w + p[0]) == ([c] + w) + p[0];
  }

  lemma PushExtendLast(c: char, sep: char, p: seq<string>, w: string)
    requires |p| >= 1
    ensures Push(c, sep, ExtendLast(p, w)) == ExtendLast(Push(c, sep, p), w)
  {
    var n := |p|;
    var e := ExtendLast(p, w);
    if c == sep {
      assert ([""] + p)[..n] == [""] + p[..n - 1];
    } else if n == 1 {
      assert e == [p[0] + w];
      assert [c] + (p[0] + w) == ([c] + p[0]) + w;
    } else {
      assert e[0] == p[0];
      assert e[1..] == p[1..n - 1] + [p[n - 1] + w];
      var r := Push(c, sep, p);
      assert r[..n - 1] == [[c] + p[0]] + p[1..n - 1];
    }
  }

  lemma SplitPrefixStep(c: char, w: string, b: string, sep: char)
    requires c != sep
    requires SplitOn(w + b, sep) == ExtendFirst(w, SplitOn(b, sep))
    ensures SplitOn([c] + (w + b), sep) == ExtendFirst([c] + w, SplitOn(b, sep))
  {
    SplitOnCons(c, w + b, sep);
    PushExtendFirst(c, sep, w, SplitOn(b, sep));
  }

  /** Text without the separator glued in front only lengthens the first piece. */
  lemma {:induction false} SplitPrefixFree(w: string, b: string, sep: char)
    requires sep !in w
    ensures SplitOn(w + b, sep) == ExtendFirst(w, SplitOn(b, sep))
    decreases |w|
  {
    if w == [] {
      assert w + b == b;
      var pb := SplitOn(b, sep);
      assert w + pb[0] == pb[0];
      assert [pb[0]] + pb[1..] == pb;
    } else {
      assert w[0] in w;
      assert sep !in w[1..] by {
        forall c | c in w[1..] ensures c in w { }
      }
      SplitPrefixFree(w[1..], b, sep);
      SplitPrefixStep(w[0], w[1..], b, sep);
      assert [w[0]] + w[1..] == w;
      assert w + b == [w[0]] + (w[1..] + b);
    }
  }

  lemma SplitSuffixStep(c: char, a: string, w: string, sep: char)
    requires SplitOn(a + w, sep) == ExtendLast(SplitOn(a, sep), w)
    ensures SplitOn([c] + (a + w), sep) == ExtendLast(SplitOn([c] + a, sep), w)
  {
    SplitOnCons(c, a + w, sep);
    SplitOnCons(c, a, sep);
    PushExtendLast(c, sep, SplitOn(a, sep), w);
  }

  /** Text without the separator glued at the end only lengthens the last piece. */
  lemma {:induction false} SplitSuffixFree(a: string, w: string, sep: char)
    requires sep !in w
    ensures SplitOn(a + w, sep) == ExtendLast(SplitOn(a, sep), w)
    decreases |a|
  {
    if a == [] {
      assert a + w == w;
      SplitPieceFree(w, sep);
      assert ExtendLast([""], w) == [w];
    } else {
      SplitSuffixFree(a[1..], w, sep);
      SplitSuffixStep(a[0], a[1..], w, sep);
      assert [a[0]] + a[1..] == a;
      assert a + w == [a[0]] + (a[1..] + w);
    }
  }

  // ---------------------------------------------------------------------------
  // Trimming

  /** `s` without its leading whitespace. */
  function TrimStart(s: string): (r: string)
    ensures |r| <= |s| && r == s[|s| - |r|..]
    ensures forall i :: 0 <= i < |s| - |r| ==> IsWhitespace(s[i])
    ensures r == [] || !IsWhitespace(r[0])
  {
    if s != [] && IsWhitespace(s[0]) then
      var r := TrimStart(s[1..]);
      assert forall i :: 1 <= i < |s| - |r| ==> s[i] == s[1..][i - 1];
      r
    else s
  }

  /** `s` without its trailing whitespace. */
  function TrimEnd(s: string): (r: string)
    ensures |r| <= |s| && r == s[..|r|]
    ensures forall i :: |r| <= i < |s| ==> IsWhitespace(s[i])
    ensures r == [] || !IsWhitespace(r[|r| - 1])
  {
    if s != [] && IsWhitespace(s[|s| - 1]) then
      var r := TrimEnd(s[..|s| - 1]);
      assert forall i :: |r| <= i < |s| - 1 ==> s[i] == s[..|s| - 1][i];
      r
    else s
  }

  /** `s` without whitespace at either end, as `trimResults()` gives it. */
  function Trim(s: string): (r: string)
    ensures |r| <= |s|
    ensures IsTrimmed(r)
  {
    var t := TrimStart(s);
    var r := TrimEnd(t);
    if r == [] then r
    else
      assert r[0] == t[0];
      r
  }

  /** Trimming keeps a middle part of the text. */
  lemma TrimIsSlice(s: string)
    ensures exists k :: 0 <= k <= |s| - |Trim(s)| && Trim(s) == s[k..][..|Trim(s)|]
  {
    var t := TrimStart(s);
    assert Trim(s) == t[..|Trim(s)|];
    assert t == s[|s| - |t|..];
  }

  lemma {:induction false} TrimStartPadded(w: string, p: string)
    requires AllWhitespace(w)
    ensures TrimStart(w + p) == TrimStart(p)
    decreases |w|
  {
    if w != [] {
      assert (w + p)[0] == w[0];
      assert (w + p)[1..] == w[1..] + p;
      TrimStartPadded(w[1..], p);
    } else {
      assert w + p == p;
    }
  }

  lemma {:induction false} TrimEndPadded(p: string, w: string)
    requires AllWhitespace(w)
    ensures TrimEnd(p + w) == TrimEnd(p)
    decreases |w|
  {
    if w != [] {
      var pw := p + w;
      assert pw[|pw| - 1] == w[|w| - 1];
      assert pw[..|pw| - 1] == p + w[..|w| - 1];
      TrimEndPadded(p, w[..|w| - 1]);
    } else {
      assert p + w == p;
    }
  }

  lemma {:induction false} TrimStartKeepsTail(p: string, w: string)
    requires TrimStart(p) != []
    ensures TrimStart(p + w) == TrimStart(p) + w
    decreases |p|
  {
    assert p != [];
    var pw := p + w;
    assert pw[0] == p[0];
    if IsWhitespace(p[0]) {
      assert pw[1..] == p[1..] + w;
      assert TrimStart(pw) == TrimStart(p[1..] + w);
      assert TrimStart(p) == TrimStart(p[1..]);
      TrimStartKeepsTail(p[1..], w);
    } else {
      assert TrimStart(pw) == pw;
    }
  }

  /** Whitespace in front of a piece does not survive trimming. */
  lemma TrimPaddedStart(w: string, p: string)
    requires AllWhitespace(w)
    ensures Trim(w + p) == Trim(p)
  {
    TrimStartPadded(w, p);
  }

  /** Whitespace after a piece does not survive trimming. */
  lemma TrimPaddedEnd(p: string, w: string)
    requires AllWhitespace(w)
    ensures Trim(p + w) == Trim(p)
  {
    var t := TrimStart(p);
    if t == [] {
      assert AllWhitespace(p);
      assert AllWhitespace(p + w);
      AllWhitespaceTrimStart(p + w);
      AllWhitespaceTrimStart(p);
    } else {
      TrimStartKeepsTail(p, w);
      TrimEndPadded(t, w);
    }
  }

  lemma {:induction false} AllWhitespaceTrimStart(s: string)
    requires AllWhitespace(s)
    ensures TrimStart(s) == []
    decreases |s|
  {
    if s != [] {
      AllWhitespaceTrimStart(s[1..]);
    }
  }

  lemma TrimOfTrimmed(s: string)
    requires IsTrimmed(s)
    ensures Trim(s) == s
  {
    if s != [] {
      assert TrimStart(s) == s;
      assert TrimEnd(s) == s;
    }
  }

  lemma TrimmedFree(p: string, sep: char)
    requires sep !in p
    ensures sep !in Trim(p)
  {
    var t := TrimStart(p);
    var r := Trim(p);
    assert r == t[..|r|];
    assert t == p[|p| - |t|..];
    forall i | 0 <= i < |r| ensures r[i] != sep {
      assert r[i] == p[|p| - |t| + i];
    }
  }

  // ---------------------------------------------------------------------------
  // Guava's Splitter.on(sep).omitEmptyStrings().trimResults()

  /** A piece trimmed, and dropped when that leaves it empty. */
  function TrimItem(p: string): (r: seq<string>)
    ensures |r| <= 1
  {
    if Trim(p) == [] then [] else [Trim(p)]
  }

  /** The lists `f` gives for the elements, concatenated in order. */
  function FlatMap(f: string -> seq<string>, xs: seq<string>): seq<string>
    decreases |xs|
  {
    if xs == [] then [] else f(xs[0]) + FlatMap(f, xs[1..])
  }

  lemma FlatMapCons(f: string -> seq<string>, x: string, ys: seq<string>)
    ensures FlatMap(f, [x] + ys) == f(x) + FlatMap(f, ys)
  {
    var xs := [x] + ys;
    assert xs[0] == x && xs[1..] == ys;
  }

  lemma FlatMapStep(f: string -> seq<string>, x: string, xs: seq<string>, ys: seq<string>)
    requires FlatMap(f, xs + ys) == FlatMap(f, xs) + FlatMap(f, ys)
    ensures FlatMap(f, [x] + (xs + ys)) == FlatMap(f, [x] + xs) + FlatMap(f, ys)
  {
    FlatMapCons(f, x, xs + ys);
    FlatMapCons(f, x, xs);
    AppendAssoc(f(x), FlatMap(f, xs), FlatMap(f, ys));
  }

  lemma AppendAssoc(a: seq<string>, b: seq<string>, c: seq<string>)
    ensures a + (b + c) == (a + b) + c
  {
  }

  lemma {:induction false} FlatMapAppend(f: string -> seq<string>, xs: seq<string>, ys: seq<string>)
    ensures FlatMap(f, xs + ys) == FlatMap(f, xs) + FlatMap(f, ys)
    decreases |xs|
  {
    if xs == [] {
      assert xs + ys == ys;
    } else {
      FlatMapAppend(f, xs[1..], ys);
      FlatMapStep(f, xs[0], xs[1..], ys);
      assert [xs[0]] + xs[1..] == xs;
      assert xs + ys == [xs[0]] + (xs[1..] + ys);
    }
  }

  /** Each piece trimmed, and the pieces that are then empty dropped. */
  function TrimAndOmitEmpty(pieces: seq<string>): seq<string> {
    FlatMap(TrimItem, pieces)
  }

  lemma TrimAndOmitEmptyCons(x: string, ys: seq<string>)
    ensures TrimAndOmitEmpty([x] + ys) == TrimItem(x) + TrimAndOmitEmpty(ys)
  {
    FlatMapCons(TrimItem, x, ys);
  }

  lemma TrimAndOmitEmptyAppend(xs: seq<string>, ys: seq<string>)
    ensures TrimAndOmitEmpty(xs + ys) == TrimAndOmitEmpty(xs) + TrimAndOmitEmpty(ys)
  {
    FlatMapAppend(TrimItem, xs, ys);
  }

  /** Every item is non-empty, trimmed and free of the separator. */
  predicate CleanItems(r: seq<string>, sep: char) {
    forall i :: 0 <= i < |r| ==> r[i] != [] && IsTrimmed(r[i]) && sep !in r[i]
  }

  lemma CleanAppend(a: seq<string>, b: seq<string>, sep: char)
    requires CleanItems(a, sep) && CleanItems(b, sep)
    ensures CleanItems(a + b, sep)
  {
    forall i | 0 <= i < |a + b| ensures (a + b)[i] != [] && IsTrimmed((a + b)[i]) && sep !in (a + b)[i] {
      if i < |a| {
        assert (a + b)[i] == a[i];
      } else {
        assert (a + b)[i] == b[i - |a|];
      }
    }
  }

  lemma TrimItemClean(p: string, sep: char)
    requires sep !in p
    ensures CleanItems(TrimItem(p), sep)
  {
    TrimmedFree(p, sep);
  }

  /** The items are non-empty and trimmed, and free of the separator when the pieces are. */
  lemma {:induction false} TrimAndOmitEmptyFree(pieces: seq<string>, sep: char)
    requires forall i :: 0 <= i < |pieces| ==> sep !in pieces[i]
    ensures CleanItems(TrimAndOmitEmpty(pieces), sep)
    decreases |pieces|
  {
    if pieces != [] {
      TrimItemClean(pieces[0], sep);
      TrimAndOmitEmptyFree(pieces[1..], sep);
      TrimAndOmitEmptyCons(pieces[0], pieces[1..]);
      assert [pieces[0]] + pieces[1..] == pieces;
      CleanAppend(TrimItem(pieces[0]), TrimAndOmitEmpty(pieces[1..]), sep);
    }
  }

  /**
   * The list `Splitter.on(sep).omitEmptyStrings().trimResults().splitToList(s)`:
   * the pieces of `s` between separators, trimmed, with the empty ones left
   * out. Every item is non-empty, trimmed and free of the separator.
   */
  function SplitTrimmed(s: string, sep: char): (r: seq<string>)
    ensures CleanItems(r, sep)
  {
    SplitOnFree(s, sep);
    TrimAndOmitEmptyFree(SplitOn(s, sep), sep);
    TrimAndOmitEmpty(SplitOn(s, sep))
  }

  /** A separator splits the item list into the items of each side. */
  lemma SplitTrimmedConcat(a: string, b: string, sep: char)
    ensures SplitTrimmed(a + [sep] + b, sep) == SplitTrimmed(a, sep) + SplitTrimmed(b, sep)
  {
    SplitConcat(a, b, sep);
    TrimAndOmitEmptyAppend(SplitOn(a, sep), SplitOn(b, sep));
  }

  lemma FlatMapExtendFirst(f: string -> seq<string>, w: string, p: seq<string>)
    requires |p| >= 1 && f(w + p[0]) == f(p[0])
    ensures FlatMap(f, ExtendFirst(w, p)) == FlatMap(f, p)
  {
    FlatMapReplaceHead(f, w + p[0], p[0], p[1..]);
    assert [p[0]] + p[1..] == p;
  }

  lemma TrimItemPaddedStart(w: string, p: string)
    requires AllWhitespace(w)
    ensures TrimItem(w + p) == TrimItem(p)
  {
    TrimPaddedStart(w, p);
  }

  lemma FlatMapReplaceHead(f: string -> seq<string>, x: string, y: string, rest: seq<string>)
    requires f(x) == f(y)
    ensures FlatMap(f, [x] + rest) == FlatMap(f, [y] + rest)
  {
    FlatMapCons(f, x, rest);
    FlatMapCons(f, y, rest);
  }

  /** Sides with the same items give, around a separator, the same items. */
  lemma SplitTrimmedSides(x: string, y: string, a: string, b: string, sep: char)
    requires SplitTrimmed(x, sep) == SplitTrimmed(a, sep)
    requires SplitTrimmed(y, sep) == SplitTrimmed(b, sep)
    ensures SplitTrimmed(x + [sep] + y, sep) == SplitTrimmed(a + [sep] + b, sep)
  {
    SplitTrimmedConcat(x, y, sep);
    SplitTrimmedConcat(a, b, sep);
  }

  lemma TrimAndOmitEmptyExtendLast(p: seq<string>, w: string)
    requires AllWhitespace(w) && |p| >= 1
    ensures TrimAndOmitEmpty(ExtendLast(p, w)) == TrimAndOmitEmpty(p)
  {
    var init, last := p[..|p| - 1], p[|p| - 1];
    assert init + [last] == p;
    TrimPaddedEnd(last, w);
    TrimAndOmitEmptyAppend(init, [last + w]);
    TrimAndOmitEmptyAppend(init, [last]);
    TrimAndOmitEmptySingle(last + w);
    TrimAndOmitEmptySingle(last);
  }

  lemma TrimAndOmitEmptySingle(x: string)
    ensures TrimAndOmitEmpty([x]) == TrimItem(x)
  {
    TrimAndOmitEmptyCons(x, []);
    assert [x] + [] == [x];
  }

  /** Whitespace in front of the text changes no item. */
  lemma SplitTrimmedPaddedStart(w: string, b: string, sep: char)
    requires AllWhitespace(w) && sep !in w
    ensures SplitTrimmed(w + b, sep) == SplitTrimmed(b, sep)
  {
    SplitPrefixFree(w, b, sep);
    TrimItemPaddedStart(w, SplitOn(b, sep)[0]);
    FlatMapExtendFirst(TrimItem, w, SplitOn(b, sep));
  }

  /** Whitespace after the text changes no item. */
  lemma SplitTrimmedPaddedEnd(a: string, w: string, sep: char)
    requires AllWhitespace(w) && sep !in w
    ensures SplitTrimmed(a + w, sep) == SplitTrimmed(a, sep)
  {
    SplitSuffixFree(a, w, sep);
    TrimAndOmitEmptyExtendLast(SplitOn(a, sep), w);
  }

  /** Text that is only whitespace has no item. */
  lemma SplitTrimmedBlank(w: string, sep: char)
    requires AllWhitespace(w) && sep !in w
    ensures SplitTrimmed(w, sep) == []
  {
    SplitPieceFree(w, sep);
    AllWhitespaceTrimStart(w);
    assert Trim(w) == [];
    TrimAndOmitEmptySingle(w);
  }

  /** A single item that needs no trimming is the only item. */
  lemma SplitTrimmedSingle(p: string, sep: char)
    requires p != [] && IsTrimmed(p) && sep !in p
    ensures SplitTrimmed(p, sep) == [p]
  {
    SplitPieceFree(p, sep);
    TrimOfTrimmed(p);
    TrimAndOmitEmptySingle(p);
  }

  lemma CleanItemsSplit(items: seq<string>, sep: char)
    requires |items| >= 2 && CleanItems(items, sep)
    ensures items[0] != [] && IsTrimmed(items[0]) && sep !in items[0] && CleanItems(items[1..], sep)
    ensures Join(items, sep) == items[0] + [sep] + Join(items[1..], sep)
  {
    forall i | 0 <= i < |items[1..]| ensures items[1..][i] == items[i + 1] { }
  }

  lemma SplitTrimmedJoinStep(item: string, rest: seq<string>, sep: char)
    requires |rest| >= 1 && item != [] && IsTrimmed(item) && sep !in item
    requires SplitTrimmed(Join(rest, sep), sep) == rest
    ensures SplitTrimmed(item + [sep] + Join(rest, sep), sep) == [item] + rest
  {
    SplitTrimmedSingle(item, sep);
    SplitTrimmedConcat(item, Join(rest, sep), sep);
  }

  /** Items that are non-empty, trimmed and separator-free come back unchanged from their join. */
  lemma {:induction false} SplitTrimmedJoin(items: seq<string>, sep: char)
    requires |items| >= 1 && CleanItems(items, sep)
    ensures SplitTrimmed(Join(items, sep), sep) == items
    decreases |items|
  {
    if |items| == 1 {
      SplitTrimmedSingle(items[0], sep);
    } else {
      var rest := items[1..];
      CleanItemsSplit(items, sep);
      SplitTrimmedJoin(rest, sep);
      SplitTrimmedJoinStep(items[0], rest, sep);
      assert [items[0]] + rest == items;
    }
  }

  // ---------------------------------------------------------------------------
  // Java's String.split on a one-character literal pattern

  /**
   * The last element of Java's `s.split(p)` for a pattern `p` that matches the
   * single character `sep`: when `sep` does not occur the array is `{s}`;
   * otherwise it holds the pieces with the trailing empty ones removed, and it
   * is empty when every piece is empty (None here, where indexing its last
   * element throws).
   */
  function JavaSplitLast(s: string, sep: char): (r: Option<string>)
    ensures r.Some? ==> sep !in r.value
  {
    var pieces := SplitOn(s, sep);
    SplitOnFree(s, sep);
    if |pieces| == 1 then Some(pieces[0]) else LastNonEmpty(pieces, sep)
  }

  function LastNonEmpty(pieces: seq<string>, sep: char): (r: Option<string>)
    requires forall i :: 0 <= i < |pieces| ==> sep !in pieces[i]
    ensures r.Some? ==> r.value != [] && sep !in r.value
    ensures r.None? <==> forall i :: 0 <= i < |pieces| ==> pieces[i] == []
  {
    if pieces == [] then None
    else if pieces[|pieces| - 1] != [] then Some(pieces[|pieces| - 1])
    else LastNonEmpty(pieces[..|pieces| - 1], sep)
  }

  /** Without the separator, the whole text is the last element. */
  lemma JavaSplitLastWhole(s: string, sep: char)
    requires sep !in s
    ensures JavaSplitLast(s, sep) == Some(s)
  {
    SplitPieceFree(s, sep);
  }

  /** After the last separator, a non-empty tail is the last element. */
  lemma JavaSplitLastQualified(a: string, b: string, sep: char)
    requires sep !in b && b != []
    ensures JavaSplitLast(a + [sep] + b, sep) == Some(b)
  {
    SplitConcat(a, b, sep);
    SplitPieceFree(b, sep);
  }

  /** Java throws exactly for a non-empty text made only of separators. */
  lemma JavaSplitLastFails(s: string, sep: char)
    ensures JavaSplitLast(s, sep).None? <==> (s != [] && forall i :: 0 <= i < |s| ==> s[i] == sep)
  {
    var pieces := SplitOn(s, sep);
    SplitOnFree(s, sep);
    JoinSplit(s, sep);
    if JavaSplitLast(s, sep).None? {
      assert |pieces| != 1;
      assert LastNonEmpty(pieces, sep).None?;
      forall i | 0 <= i < |s| ensures s[i] == sep {
        JoinOfEmpties(pieces, sep, i);
      }
      assert s != [] by { assert |pieces| > 1; JoinLength(pieces, sep); }
    } else if s != [] && forall i :: 0 <= i < |s| ==> s[i] == sep {
      OnlySeparators(s, sep);
    }
  }

  lemma {:induction false} JoinLength(pieces: seq<string>, sep: char)
    requires |pieces| >= 1
    ensures |Join(pieces, sep)| >= |pieces| - 1
    decreases |pieces|
  {
    if |pieces| > 1 { JoinLength(pieces[1..], sep); }
  }

  lemma {:induction false} JoinOfEmpties(pieces: seq<string>, sep: char, i: nat)
    requires |pieces| >= 1 && i < |Join(pieces, sep)|
    requires forall j :: 0 <= j < |pieces| ==> pieces[j] == []
    ensures Join(pieces, sep)[i] == sep
    decreases |pieces|
  {
    if |pieces| > 1 {
      assert Join(pieces, sep) == [sep] + Join(pieces[1..], sep);
      if i > 0 { JoinOfEmpties(pieces[1..], sep, i - 1); }
    }
  }

  lemma {:induction false} OnlySeparators(s: string, sep: char)
    requires s != [] && forall i :: 0 <= i < |s| ==> s[i] == sep
    ensures |SplitOn(s, sep)| > 1
    ensures forall j :: 0 <= j < |SplitOn(s, sep)| ==> SplitOn(s, sep)[j] == []
    decreases |s|
  {
    if |s| > 1 {
      OnlySeparators(s[1..], sep);
    }
  }

  // ---------------------------------------------------------------------------
  // Java's String.equalsIgnoreCase

  /**
   * Java compares two characters ignoring case when they are equal, when their
   * upper cases are equal, or when the lower cases of their upper cases are
   * equal. Against an upper-case ASCII character the outcome depends only on
   * this key: ASCII letters go to upper case, and so do the four non-ASCII
   * characters whose Java case mapping reaches an ASCII letter (dotless i and
   * dotted capital I to I, long s to S, the Kelvin sign to K).
   */
  function CaseKey(c: char): (k: char)
    ensures c < '\U{80}' && !('a' <= c <= 'z') ==> k == c
    ensures 'a' <= c <= 'z' ==> k as int == c as int - 32
  {
    if 'a' <= c <= 'z' then (c as int - 32) as char
    else if c == '\U{131}' || c == '\U{130}' then 'I'
    else if c == '\U{17F}' then 'S'
    else if c == '\U{212A}' then 'K'
    else c
  }

  /**
   * `upper.equalsIgnoreCase(s)` for a constant `upper` written in upper-case
   * ASCII, which every constant compared this way is.
   */
  predicate EqualsIgnoreCase(upper: string, s: string) {
    |upper| == |s| && forall i :: 0 <= i < |s| ==> CaseKey(s[i]) == upper[i]
  }
}
