/** The few Python `str` operations the notifier relies on, with the semantics
    CPython gives them: `isspace`, `split(sep)`, `sep.join`, `strip()` and
    `replace`, with the leftmost search that `split` and `replace` perform. Strings are sequences of Unicode code points. */
module Strings {

  import opened Wrappers

  /** `c.isspace()` in Python 3; also the class matched by `\s` in a `str` regex. */
  predicate IsSpace(c: char) {
    c == ' ' || ('\t' <= c <= '\r') || ('\U{1C}' <= c <= '\U{1F}')
    || c == '\U{85}' || c == '\U{A0}' || c == '\U{1680}'
    || ('\U{2000}' <= c <= '\U{200A}') || c == '\U{2028}' || c == '\U{2029}'
    || c == '\U{202F}' || c == '\U{205F}' || c == '\U{3000}'
  }

  predicate AllSpace(s: string) {
    forall k :: 0 <= k < |s| ==> IsSpace(s[k])
  }

  predicate NoNewline(s: string) {
    forall k :: 0 <= k < |s| ==> s[k] != '\n'
  }

  /** A separator made only of line feeds, such as "\n\n" or "\n\n\n". */
  predicate AllNewlines(s: string) {
    forall k :: 0 <= k < |s| ==> s[k] == '\n'
  }

  predicate OccursAt(s: string, pat: string, i: int) {
    0 <= i && i + |pat| <= |s| && s[i..i + |pat|] == pat
  }

  ghost predicate NoOcc(s: string, pat: string) {
    forall i :: !OccursAt(s, pat, i)
  }

  /** No occurrence of `pat` starts inside `p` when `pat` is written after it,
      so in `p + pat + rest` the first occurrence is the one right after `p`. */
  ghost predicate Clean(p: string, pat: string) {
    forall i :: 0 <= i < |p| ==> !OccursAt(p + pat, pat, i)
  }

  /** The leftmost occurrence of `pat` in `s`, if any: the search that
      `split` and `replace` perform (characterised by `FindSpec`). */
  function Find(s: string, pat: string): (r: Option<nat>)
    requires |pat| > 0
    ensures r.Some? ==> r.value + |pat| <= |s|
    decreases |s|
  {
    if |s| < |pat| then None
    else if s[..|pat|] == pat then Some(0)
    else
      match Find(s[1..], pat)
      case Some(k) => Some(k + 1)
      case None => None
  }

  /** The search returns the leftmost occurrence, and nothing exactly when there is
      none. */
  lemma {:induction false} FindSpec(s: string, pat: string)
    requires |pat| > 0
    ensures var r := Find(s, pat);
            && (r.Some? ==> OccursAt(s, pat, r.value))
            && (r.Some? ==> forall j :: 0 <= j < r.value ==> !OccursAt(s, pat, j))
            && (r.None? <==> NoOcc(s, pat))
    decreases |s|
  {
    if |s| < |pat| {
    } else if s[..|pat|] == pat {
      assert OccursAt(s, pat, 0);
    } else {
      var tail := s[1..];
      FindSpec(tail, pat);
      assert forall j :: OccursAt(s, pat, j + 1) <==> OccursAt(tail, pat, j) by {
        forall j ensures OccursAt(s, pat, j + 1) <==> OccursAt(tail, pat, j) {
          if 0 <= j && j + 1 + |pat| <= |s| {
            assert s[j + 1..j + 1 + |pat|] == tail[j..j + |pat|];
          }
        }
      }
      assert !OccursAt(s, pat, 0);
      match Find(tail, pat)
      case Some(k) =>
        forall j | 1 <= j < k + 1 ensures !OccursAt(s, pat, j) {
          assert !OccursAt(tail, pat, j - 1);
        }
      case None =>
        forall j | j != 0 ensures !OccursAt(s, pat, j) {
          assert !OccursAt(tail, pat, j - 1);
        }
    }
  }

  /** `sep.join(parts)`. */
  function Join(parts: seq<string>, sep: string): string
    decreases |parts|
  {
    if |parts| == 0 then ""
    else if |parts| == 1 then parts[0]
    else parts[0] + sep + Join(parts[1..], sep)
  }

  /** `s.split(sep)` for a non-empty separator: the pieces between the
      non-overlapping occurrences found from the left. */
  function Split(s: string, sep: string): (parts: seq<string>)
    requires |sep| > 0
    ensures |parts| >= 1
    decreases |s|
  {
    match Find(s, sep)
    case None => [s]
    case Some(i) => [s[..i]] + Split(s[i + |sep|..], sep)
  }

  /** No piece of a split holds the separator. */
  lemma {:induction false} SplitPieces(s: string, sep: string)
    requires |sep| > 0
    ensures forall k :: 0 <= k < |Split(s, sep)| ==> NoOcc(Split(s, sep)[k], sep)
    decreases |s|
  {
    FindSpec(s, sep);
    match Find(s, sep)
    case None =>
    case Some(i) =>
      var rest := s[i + |sep|..];
      SplitPieces(rest, sep);
      assert NoOcc(s[..i], sep) by {
        forall j | 0 <= j && j + |sep| <= i ensures !OccursAt(s[..i], sep, j) {
          assert s[j..j + |sep|] == s[..i][j..j + |sep|];
          assert !OccursAt(s, sep, j);
        }
      }
      var parts := Split(s, sep);
      assert parts == [s[..i]] + Split(rest, sep);
      forall k | 0 <= k < |parts| ensures NoOcc(parts[k], sep) {
        if k > 0 {
          assert parts[k] == Split(rest, sep)[k - 1];
        }
      }
  }

  /** `s.replace(pat, repl)`: every non-overlapping occurrence, from the left. */
  function Replace(s: string, pat: string, repl: string): string
    requires |pat| > 0
    decreases |s|
  {
    match Find(s, pat)
    case None => s
    case Some(i) => s[..i] + repl + Replace(s[i + |pat|..], pat, repl)
  }

  /** Joining the pieces of a split with the same separator gives the text back. */
  lemma {:induction false} JoinSplit(s: string, sep: string)
    requires |sep| > 0
    ensures Join(Split(s, sep), sep) == s
    decreases |s|
  {
    match Find(s, sep)
    case None =>
    case Some(i) =>
      var tail := s[i + |sep|..];
      var parts := Split(s, sep);
      JoinSplit(tail, sep);
      FindSpec(s, sep);
      SplitAt(s, sep, i);
      assert parts[0] == s[..i] && parts[1..] == Split(tail, sep);
      assert Join(parts, sep) == s[..i] + sep + Join(parts[1..], sep);
      assert s == s[..i] + s[i..i + |sep|] + tail;
  }

  /** Replacing is splitting on the pattern and joining with the replacement. */
  lemma {:induction false} ReplaceSpec(s: string, pat: string, repl: string)
    requires |pat| > 0
    ensures Replace(s, pat, repl) == Join(Split(s, pat), repl)
    decreases |s|
  {
    match Find(s, pat)
    case None =>
    case Some(i) =>
      var tail := s[i + |pat|..];
      ReplaceSpec(tail, pat, repl);
      assert Split(s, pat) == [s[..i]] + Split(tail, pat);
  }

  /** `s.lstrip()`: what is left after dropping leading whitespace
      (characterised by `LStripSpec`). */
  function LStrip(s: string): string
    decreases |s|
  {
    if |s| > 0 && IsSpace(s[0]) then LStrip(s[1..]) else s
  }

  /** `s.rstrip()`: what is left after dropping trailing whitespace
      (characterised by `RStripSpec`). */
  function RStrip(s: string): string
    decreases |s|
  {
    if |s| > 0 && IsSpace(s[|s| - 1]) then RStrip(s[..|s| - 1]) else s
  }

  /** `s.strip()`. */
  function Strip(s: string): string {
    RStrip(LStrip(s))
  }

  /** The pieces written one after another: the text that repeated `+=`
      builds. */
  function Concat(ss: seq<string>): string
    decreases |ss|
  {
    if |ss| == 0 then "" else Concat(ss[..|ss| - 1]) + ss[|ss| - 1]
  }

  // ---------------------------------------------------------------------------
  // Facts about splitting, joining and stripping

  lemma FindFirst(s: string, pat: string, i: nat)
    requires |pat| > 0 && OccursAt(s, pat, i)
    requires forall j :: 0 <= j < i ==> !OccursAt(s, pat, j)
    ensures Find(s, pat) == Some(i)
  {
    FindSpec(s, pat);
  }

  lemma CleanNoOcc(p: string, pat: string)
    requires |pat| > 0 && Clean(p, pat)
    ensures NoOcc(p, pat)
  {
    forall i ensures !OccursAt(p, pat, i) {
      if 0 <= i && i + |pat| <= |p| {
        assert (p + pat)[i..i + |pat|] == p[i..i + |pat|];
        assert !OccursAt(p + pat, pat, i);
      }
    }
  }

  /** Splitting undoes joining, provided no piece lets the separator start early. */
  lemma {:induction false} SplitJoin(parts: seq<string>, sep: string)
    requires |sep| > 0 && |parts| >= 1
    requires forall k :: 0 <= k < |parts| ==> Clean(parts[k], sep)
    ensures Split(Join(parts, sep), sep) == parts
    decreases |parts|
  {
    var p := parts[0];
    CleanNoOcc(p, sep);
    if |parts| == 1 {
      SplitNone(p, sep);
    } else {
      var rest := Join(parts[1..], sep);
      var s := p + sep + rest;
      assert s[|p|..|p| + |sep|] == sep;
      forall j | 0 <= j < |p| ensures !OccursAt(s, sep, j) {
        assert !OccursAt(p + sep, sep, j);
        assert s[j..j + |sep|] == (p + sep)[j..j + |sep|];
      }
      FindFirst(s, sep, |p|);
      assert s[|p| + |sep|..] == rest;
      assert s[..|p|] == p;
      SplitAt(s, sep, |p|);
      SplitJoin(parts[1..], sep);
      assert parts == [p] + parts[1..];
    }
  }

  /** A piece that does not end in a line feed and holds no separator made of
      line feeds cannot let that separator start early. */
  lemma CleanNewlines(p: string, sep: string)
    requires AllNewlines(sep) && NoOcc(p, sep)
    requires p == [] || p[|p| - 1] != '\n'
    ensures Clean(p, sep)
  {
    forall i | 0 <= i < |p| ensures !OccursAt(p + sep, sep, i) {
      if i + |sep| <= |p| {
        assert (p + sep)[i..i + |sep|] == p[i..i + |sep|];
        assert !OccursAt(p, sep, i);
      } else if i + |sep| <= |p + sep| {
        assert (p + sep)[i..i + |sep|][|p| - 1 - i] == p[|p| - 1];
      }
    }
  }

  lemma NoOccConcat(a: string, b: string, sep: string)
    requires AllNewlines(sep) && NoOcc(a, sep) && NoOcc(b, sep)
    requires !(|a| > 0 && |b| > 0 && a[|a| - 1] == '\n' && b[0] == '\n')
    ensures NoOcc(a + b, sep)
  {
    var s := a + b;
    forall i | 0 <= i && i + |sep| <= |s| ensures !OccursAt(s, sep, i) {
      if i + |sep| <= |a| {
        assert s[i..i + |sep|] == a[i..i + |sep|];
        assert !OccursAt(a, sep, i);
      } else if i >= |a| {
        assert s[i..i + |sep|] == b[i - |a|..i - |a| + |sep|];
        assert !OccursAt(b, sep, i - |a|);
      } else {
        assert s[i..i + |sep|][|a| - 1 - i] == a[|a| - 1];
        assert s[i..i + |sep|][|a| - i] == b[0];
      }
    }
  }

  lemma NoNewlineNoOcc(s: string, sep: string)
    requires AllNewlines(sep) && |sep| > 0 && NoNewline(s)
    ensures NoOcc(s, sep)
  {
    forall i | 0 <= i && i + |sep| <= |s| ensures !OccursAt(s, sep, i) {
      assert s[i..i + |sep|][0] == s[i];
    }
  }

  /** A string free of `short` is free of every pattern that begins with `short`. */
  lemma NoOccExtended(s: string, short: string, long: string)
    requires |short| <= |long| && long[..|short|] == short
    requires NoOcc(s, short)
    ensures NoOcc(s, long)
  {
    forall i | 0 <= i && i + |long| <= |s| ensures !OccursAt(s, long, i) {
      assert s[i..i + |short|] == s[i..i + |long|][..|short|];
      assert !OccursAt(s, short, i);
    }
  }

  lemma FindAppendNone(c: string, sep: string, u: string)
    requires |sep| > 0 && AllNewlines(sep) && NoOcc(c, sep)
    requires |c| > 0 && c[|c| - 1] != '\n'
    ensures Find(c + sep + u, sep) == Some(|c|)
  {
    var s := c + sep + u;
    assert s[|c|..|c| + |sep|] == sep;
    forall j | 0 <= j < |c| ensures !OccursAt(s, sep, j) {
      if j + |sep| <= |c| {
        assert s[j..j + |sep|] == c[j..j + |sep|];
        assert !OccursAt(c, sep, j);
      } else if j + |sep| <= |s| {
        assert s[j..j + |sep|][|c| - 1 - j] == c[|c| - 1];
      }
    }
    FindFirst(s, sep, |c|);
  }

  lemma FindAppendSome(c: string, sep: string, u: string, i: nat)
    requires |sep| > 0 && Find(c, sep) == Some(i)
    ensures Find(c + sep + u, sep) == Some(i)
  {
    FindSpec(c, sep);
    var s := c + sep + u;
    assert s[i..i + |sep|] == c[i..i + |sep|];
    forall j | 0 <= j < i ensures !OccursAt(s, sep, j) {
      assert s[j..j + |sep|] == c[j..j + |sep|];
      assert !OccursAt(c, sep, j);
    }
    FindFirst(s, sep, i);
  }

  lemma SliceOfAppend(c: string, sep: string, u: string, k: nat)
    requires k <= |c|
    ensures (c + sep + u)[k..] == c[k..] + sep + u
    ensures (c + sep + u)[..k] == c[..k]
  {
  }

  lemma SplitAt(s: string, sep: string, i: nat)
    requires |sep| > 0 && Find(s, sep) == Some(i)
    ensures Split(s, sep) == [s[..i]] + Split(s[i + |sep|..], sep)
  {
  }

  lemma Regroup<T>(x: seq<T>, z: seq<T>, h: T, y: seq<T>, a: seq<T>, b: seq<T>)
    requires x == [h] + y && y == a + b && z == [h] + a
    ensures x == z + b
  {
  }

  /** Splitting a text that is glued to another by the separator, when the first
      does not end in a line feed, splits each of them separately. */
  lemma {:induction false} SplitAppend(c: string, sep: string, u: string)
    requires |sep| > 0 && AllNewlines(sep)
    requires |c| > 0 && c[|c| - 1] != '\n'
    ensures Split(c + sep + u, sep) == Split(c, sep) + Split(u, sep)
    decreases |c|
  {
    match Find(c, sep)
    case None =>
      FindSpec(c, sep);
      FindAppendNone(c, sep, u);
      var s := c + sep + u;
      SplitAt(s, sep, |c|);
      assert s[|c| + |sep|..] == u;
      assert s[..|c|] == c;
      SplitNone(c, sep);
    case Some(i) =>
      var s := c + sep + u;
      var h, tail := c[..i], c[i + |sep|..];
      SplitAppendStep(c, sep, u, i);
      SplitAppend(tail, sep, u);
      Regroup(Split(s, sep), Split(c, sep), h, Split(tail + sep + u, sep), Split(tail, sep), Split(u, sep));
  }

  /** The first separator of `c` is also the first of `c + sep + u`, and what
      follows it still does not end in a line feed. */
  lemma SplitAppendStep(c: string, sep: string, u: string, i: nat)
    requires |sep| > 0 && AllNewlines(sep)
    requires |c| > 0 && c[|c| - 1] != '\n'
    requires Find(c, sep) == Some(i)
    ensures var tail := c[i + |sep|..];
            && |tail| > 0 && tail[|tail| - 1] != '\n' && |tail| < |c|
            && Split(c + sep + u, sep) == [c[..i]] + Split(tail + sep + u, sep)
            && Split(c, sep) == [c[..i]] + Split(tail, sep)
  {
    FindSpec(c, sep);
    TailAfterSep(c, sep, i);
    SplitAt(c, sep, i);
    FindAppendSome(c, sep, u, i);
    SplitAtAppended(c, sep, u, i);
  }

  lemma SplitAtAppended(c: string, sep: string, u: string, i: nat)
    requires |sep| > 0 && i + |sep| <= |c| && Find(c + sep + u, sep) == Some(i)
    ensures Split(c + sep + u, sep) == [c[..i]] + Split(c[i + |sep|..] + sep + u, sep)
  {
    var s := c + sep + u;
    SplitAt(s, sep, i);
    SliceOfAppend(c, sep, u, i + |sep|);
    SliceOfAppend(c, sep, u, i);
  }

  /** What follows a separator made of line feeds, in a text that does not end
      in a line feed, is not empty and does not end in one either. */
  lemma TailAfterSep(c: string, sep: string, i: nat)
    requires |sep| > 0 && AllNewlines(sep) && OccursAt(c, sep, i)
    requires |c| > 0 && c[|c| - 1] != '\n'
    ensures var tail := c[i + |sep|..];
            |tail| > 0 && tail[|tail| - 1] != '\n' && |tail| < |c|
  {
    assert c[i..i + |sep|][|sep| - 1] == '\n';
  }

  lemma SplitNone(s: string, sep: string)
    requires |sep| > 0 && NoOcc(s, sep)
    ensures Split(s, sep) == [s]
  {
    FindSpec(s, sep);
  }

  /** A line break followed by one line holds no run of two or more line breaks. */
  lemma BreakThenLine(u: string, sep: string)
    requires |sep| >= 2 && AllNewlines(sep) && NoNewline(u)
    ensures Split("\n" + u, sep) == ["\n" + u]
  {
    var s := "\n" + u;
    forall i | 0 <= i && i + |sep| <= |s| ensures !OccursAt(s, sep, i) {
      assert s[i + 1] == u[i];
      assert s[i..i + |sep|][1] == s[i + 1];
    }
    SplitNone(s, sep);
  }

  /** A head free of the separator that does not end in a line break, and a
      one-line tail, around a middle part come apart as themselves, with the
      middle split on its own. */
  lemma SplitFramedBy(t: string, c: string, u: string, sep: string)
    requires |sep| > 0 && AllNewlines(sep)
    requires |t| > 0 && t[|t| - 1] != '\n' && NoOcc(t, sep) && NoNewline(u)
    requires |c| > 0 && c[|c| - 1] != '\n'
    ensures Split(t + sep + (c + sep + u), sep) == [t] + Split(c, sep) + [u]
  {
    assert Split(t + sep + (c + sep + u), sep) == Split(t, sep) + Split(c + sep + u, sep) by {
      SplitAppend(t, sep, c + sep + u);
    }
    assert Split(c + sep + u, sep) == Split(c, sep) + Split(u, sep) by {
      SplitAppend(c, sep, u);
    }
    SplitNone(t, sep);
    NoNewlineNoOcc(u, sep);
    SplitNone(u, sep);
  }

  /** `lstrip` keeps a suffix, drops only whitespace and stops at the first
      non-space character. */
  lemma {:induction false} LStripSpec(s: string)
    ensures var r := LStrip(s);
            && |r| <= |s| && r == s[|s| - |r|..]
            && AllSpace(s[..|s| - |r|])
            && (r == [] || !IsSpace(r[0]))
    decreases |s|
  {
    if |s| > 0 && IsSpace(s[0]) {
      var t := s[1..];
      LStripSpec(t);
      var r := LStrip(t);
      assert LStrip(s) == r;
      assert r == s[|s| - |r|..] by {
        assert t[|t| - |r|..] == s[|s| - |r|..];
      }
      assert AllSpace(s[..|s| - |r|]) by {
        forall k | 0 <= k < |s| - |r| ensures IsSpace(s[k]) {
          if k > 0 {
            assert s[k] == t[..|t| - |r|][k - 1];
          }
        }
      }
    }
  }

  /** `rstrip` keeps a prefix, drops only whitespace and stops at the last
      non-space character. */
  lemma {:induction false} RStripSpec(s: string)
    ensures var r := RStrip(s);
            && |r| <= |s| && r == s[..|r|]
            && AllSpace(s[|r|..])
            && (r == [] || !IsSpace(r[|r| - 1]))
    decreases |s|
  {
    if |s| > 0 && IsSpace(s[|s| - 1]) {
      var t := s[..|s| - 1];
      RStripSpec(t);
      var r := RStrip(t);
      assert RStrip(s) == r;
      assert r == s[..|r|] by {
        assert t[..|r|] == s[..|r|];
      }
      assert AllSpace(s[|r|..]) by {
        forall k | |r| <= k < |s| ensures IsSpace(s[k]) {
          if k < |t| {
            assert s[k] == t[|r|..][k - |r|];
          }
        }
      }
    }
  }

  lemma {:induction false} LStripOf(w: string, y: string)
    requires AllSpace(w) && (y == [] || !IsSpace(y[0]))
    ensures LStrip(w + y) == y
    decreases |w|
  {
    if |w| > 0 {
      assert (w + y)[1..] == w[1..] + y;
      LStripOf(w[1..], y);
    } else {
      assert w + y == y;
    }
  }

  lemma {:induction false} RStripOf(y: string, w: string)
    requires AllSpace(w) && (y == [] || !IsSpace(y[|y| - 1]))
    ensures RStrip(y + w) == y
    decreases |w|
  {
    if |w| > 0 {
      assert (y + w)[..|y + w| - 1] == y + w[..|w| - 1];
      RStripOf(y, w[..|w| - 1]);
    } else {
      assert y + w == y;
    }
  }

  /** `strip()` gives back a text framed by non-space characters, whatever
      whitespace surrounds it. */
  lemma StripFramed(w1: string, x: string, w2: string)
    requires AllSpace(w1) && AllSpace(w2)
    requires |x| > 0 && !IsSpace(x[0]) && !IsSpace(x[|x| - 1])
    ensures Strip(w1 + x + w2) == x
  {
    assert w1 + x + w2 == w1 + (x + w2);
    LStripOf(w1, x + w2);
    RStripOf(x, w2);
  }

  /** `s.strip()` is empty exactly when `s` is blank. */
  lemma StripEmpty(s: string)
    ensures Strip(s) == "" <==> AllSpace(s)
  {
    var l := LStrip(s);
    LStripSpec(s);
    RStripSpec(l);
    if Strip(s) == "" {
      // `l` is all whitespace, yet does not start with whitespace: it is empty.
      assert l[|RStrip(l)|..] == l;
      assert AllSpace(l);
      forall k | 0 <= k < |s| ensures IsSpace(s[k]) {
        assert s[..|s| - |l|][k] == s[k];
      }
    }
  }

  lemma ConcatAppend(xs: seq<string>, ys: seq<string>)
    ensures Concat(xs + ys) == Concat(xs) + Concat(ys)
    decreases |ys|
  {
    if |ys| > 0 {
      assert (xs + ys)[..|xs + ys| - 1] == xs + ys[..|ys| - 1];
      ConcatAppend(xs, ys[..|ys| - 1]);
    } else {
      assert xs + ys == xs;
    }
  }

  /** Pieces that each end with the separator concatenate to their join
      followed by one separator. */
  lemma {:induction false} ConcatTerminated(bodies: seq<string>, sep: string)
    requires |bodies| >= 1
    ensures Concat(seq(|bodies|, k requires 0 <= k < |bodies| => bodies[k] + sep))
         == Join(bodies, sep) + sep
    decreases |bodies|
  {
    var ts := seq(|bodies|, k requires 0 <= k < |bodies| => bodies[k] + sep);
    if |bodies| == 1 {
      assert ts == [] + [bodies[0] + sep];
    } else {
      var tail := seq(|bodies| - 1, k requires 0 <= k < |bodies| - 1 => bodies[1..][k] + sep);
      assert ts == [bodies[0] + sep] + tail;
      ConcatAppend([bodies[0] + sep], tail);
      assert Concat([bodies[0] + sep]) == bodies[0] + sep by {
        assert [bodies[0] + sep][..0] == [];
      }
      ConcatTerminated(bodies[1..], sep);
    }
  }

  lemma JoinEnds(parts: seq<string>, sep: string)
    requires |parts| >= 1 && forall k :: 0 <= k < |parts| ==> |parts[k]| > 0
    ensures |Join(parts, sep)| > 0
    ensures Join(parts, sep)[0] == parts[0][0]
    ensures Join(parts, sep)[|Join(parts, sep)| - 1] == parts[|parts| - 1][|parts[|parts| - 1]| - 1]
    decreases |parts|
  {
    if |parts| > 1 {
      JoinEnds(parts[1..], sep);
    }
  }
}
