/** The three regular-expression rewrites `post_to_slack` applies to an
    article's summary before sending it, written as left-to-right scanners with
    the semantics of Python's `re.sub`: non-overlapping matches tried at each
    position in turn, `^` and `$` in MULTILINE mode, `.` not matching a line
    feed, and `\s` matching exactly the characters `str.isspace` accepts.

    `^` in MULTILINE mode holds at the start of the text and right after a line
    feed of the ORIGINAL text, even one that an earlier match consumed; each
    scanner therefore carries `atLineStart`, which says whether the character
    just before the remaining text was a line feed (or there was none). */
module Markdown {

  import opened Wrappers
  import opened Strings

  /** What a list marker is turned into: a bullet glyph and a space. */
  const BulletPrefix: string := "\U{2022} "

  predicate IsMarker(c: char) {
    c == '-' || c == '*'
  }

  /** Position `i` of `t` is the start of a line (`atLineStart` stands for the
      character before `t`). */
  predicate LineStart(t: string, atLineStart: bool, i: nat)
    requires i < |t|
  {
    if i == 0 then atLineStart else t[i - 1] == '\n'
  }

  // ---------------------------------------------------------------------------
  // re.sub(r'^[-*]\s', '• ', content, flags=re.MULTILINE)

  function Bullets(s: string, atLineStart: bool): string
    decreases |s|
  {
    if |s| == 0 then ""
    else if atLineStart && |s| >= 2 && IsMarker(s[0]) && IsSpace(s[1]) then
      BulletPrefix + Bullets(s[2..], s[1] == '\n')
    else [s[0]] + Bullets(s[1..], s[0] == '\n')
  }

  /** A marker and its space become the two-character bullet prefix, so the
      rewrite keeps every other character where it was. */
  lemma {:induction false} BulletsLength(s: string, atLineStart: bool)
    ensures |Bullets(s, atLineStart)| == |s|
    decreases |s|
  {
    if |s| >= 2 && atLineStart && IsMarker(s[0]) && IsSpace(s[1]) {
      BulletsLength(s[2..], s[1] == '\n');
    } else if |s| > 0 {
      BulletsLength(s[1..], s[0] == '\n');
    }
  }

  /** A line of `t` that starts with a list marker followed by whitespace. */
  predicate MarkerLineAt(t: string, atLineStart: bool, i: nat)
    requires i < |t|
  {
    LineStart(t, atLineStart, i) && i + 1 < |t| && IsMarker(t[i]) && IsSpace(t[i + 1])
  }

  predicate NoMarkerLine(t: string, atLineStart: bool) {
    forall i :: 0 <= i < |t| ==> !MarkerLineAt(t, atLineStart, i)
  }

  /** Away from a line start, the scanner copies the first character. */
  lemma BulletsHead(s: string)
    requires |s| > 0
    ensures Bullets(s, false)[0] == s[0]
  {
  }

  /** After the rewrite no line starts with a list marker and whitespace. */
  lemma {:induction false} BulletsLeaveNoMarker(s: string, atLineStart: bool)
    ensures NoMarkerLine(Bullets(s, atLineStart), atLineStart)
    decreases |s|
  {
    var r := Bullets(s, atLineStart);
    if |s| == 0 {
    } else if atLineStart && |s| >= 2 && IsMarker(s[0]) && IsSpace(s[1]) {
      var rest := Bullets(s[2..], s[1] == '\n');
      BulletsLeaveNoMarker(s[2..], s[1] == '\n');
      assert r == BulletPrefix + rest;
      forall i | 0 <= i < |r| ensures !MarkerLineAt(r, atLineStart, i) {
        if i >= 2 {
          assert r[i - 1] == if i == 2 then ' ' else rest[i - 3];
          if i > 2 {
            assert !MarkerLineAt(rest, s[1] == '\n', i - 2);
          }
        }
      }
    } else {
      var rest := Bullets(s[1..], s[0] == '\n');
      BulletsLeaveNoMarker(s[1..], s[0] == '\n');
      assert r == [s[0]] + rest;
      forall i | 0 <= i < |r| ensures !MarkerLineAt(r, atLineStart, i) {
        if i == 0 && |s| >= 2 && s[0] != '\n' {
          BulletsHead(s[1..]);
        } else if i >= 1 {
          assert !MarkerLineAt(rest, s[0] == '\n', i - 1);
        }
      }
    }
  }

  /** A text with no marker line is left as it is. */
  lemma {:induction false} BulletsIdentity(s: string, atLineStart: bool)
    requires NoMarkerLine(s, atLineStart)
    ensures Bullets(s, atLineStart) == s
    decreases |s|
  {
    if |s| > 0 {
      var nl := s[0] == '\n';
      assert !MarkerLineAt(s, atLineStart, 0);
      forall i | 0 <= i < |s| - 1 ensures !MarkerLineAt(s[1..], nl, i) {
        assert !MarkerLineAt(s, atLineStart, i + 1);
      }
      BulletsIdentity(s[1..], nl);
    }
  }

  /** Rewriting twice changes nothing more than rewriting once. */
  lemma BulletsIdempotent(s: string)
    ensures Bullets(Bullets(s, true), true) == Bullets(s, true)
  {
    BulletsLeaveNoMarker(s, true);
    BulletsIdentity(Bullets(s, true), true);
  }

  /** What the rewrite puts at position `i`: the bullet glyph for a marker
      that starts a line, a space for the whitespace after it, and otherwise
      the character that was there. */
  function BulletedAt(s: string, atLineStart: bool, i: nat): char
    requires i < |s|
  {
    if MarkerLineAt(s, atLineStart, i) then '\U{2022}'
    else if i > 0 && MarkerLineAt(s, atLineStart, i - 1) then ' '
    else s[i]
  }

  /** Position by position, the rewrite changes only marker lines' first two
      characters and copies every other character where it was. */
  lemma {:induction false} BulletsAt(s: string, atLineStart: bool)
    ensures |Bullets(s, atLineStart)| == |s|
    ensures forall i :: 0 <= i < |s| ==> Bullets(s, atLineStart)[i] == BulletedAt(s, atLineStart, i)
    decreases |s|
  {
    var r := Bullets(s, atLineStart);
    if |s| == 0 {
    } else if atLineStart && |s| >= 2 && IsMarker(s[0]) && IsSpace(s[1]) {
      var t, g := s[2..], s[1] == '\n';
      BulletsAt(t, g);
      assert r == BulletPrefix + Bullets(t, g);
      assert MarkerLineAt(s, atLineStart, 0) && !MarkerLineAt(s, atLineStart, 1);
      forall i | 2 <= i < |s| ensures r[i] == BulletedAt(s, atLineStart, i) {
        assert r[i] == Bullets(t, g)[i - 2];
        BulletedShift(s, atLineStart, 2, i);
      }
    } else {
      var t, g := s[1..], s[0] == '\n';
      BulletsAt(t, g);
      assert r == [s[0]] + Bullets(t, g);
      assert !MarkerLineAt(s, atLineStart, 0);
      forall i | 1 <= i < |s| ensures r[i] == BulletedAt(s, atLineStart, i) {
        assert r[i] == Bullets(t, g)[i - 1];
        BulletedShift(s, atLineStart, 1, i);
      }
    }
  }

  /** Past a position that starts no marker line, the rewrite of a suffix
      agrees with the rewrite of the whole text. */
  lemma BulletedShift(s: string, atLineStart: bool, d: nat, i: nat)
    requires 1 <= d <= i < |s| && !MarkerLineAt(s, atLineStart, d - 1)
    ensures BulletedAt(s[d..], s[d - 1] == '\n', i - d) == BulletedAt(s, atLineStart, i)
  {
    MarkerLineShift(s, atLineStart, d, i - d);
    if i - d > 0 {
      MarkerLineShift(s, atLineStart, d, i - d - 1);
    }
  }

  /** Marker lines of a suffix are those of the whole text, shifted. */
  lemma MarkerLineShift(s: string, atLineStart: bool, d: nat, j: nat)
    requires 1 <= d && j + d < |s|
    ensures MarkerLineAt(s[d..], s[d - 1] == '\n', j) <==> MarkerLineAt(s, atLineStart, j + d)
  {
    if j > 0 {
      assert s[d..][j - 1] == s[j + d - 1];
    }
  }

  /** A line "- item" (or "* item") becomes "• item". */
  lemma BulletItem(marker: char, item: string)
    requires IsMarker(marker) && NoNewline(item)
    ensures Bullets([marker, ' '] + item, true) == BulletPrefix + item
  {
    assert ([marker, ' '] + item)[2..] == item;
    BulletsIdentity(item, false);
  }

  // ---------------------------------------------------------------------------
  // re.sub(r'\*\*(.*?)\*\*', r'*\1*', content)

  predicate PairAt(s: string, j: int) {
    0 <= j && j + 1 < |s| && s[j] == '*' && s[j + 1] == '*'
  }

  /** Where the lazy group `(.*?)` opened at `k` closes: the first "**" at or
      after `k`, provided no line feed comes before it. */
  function CloseAt(s: string, k: nat): (r: Option<nat>)
    requires k <= |s|
    ensures r.Some? ==> k <= r.value && PairAt(s, r.value) && NoNewline(s[k..r.value])
    ensures r.Some? ==> forall j :: k <= j < r.value ==> !PairAt(s, j)
    ensures r.None? ==> forall j :: k <= j && PairAt(s, j) ==> !NoNewline(s[k..j])
    decreases |s| - k
  {
    if k + 1 >= |s| then None
    else if s[k] == '*' && s[k + 1] == '*' then Some(k)
    else if s[k] == '\n' then
      assert forall j :: k < j <= |s| ==> s[k..j][0] == '\n';
      None
    else
      var r := CloseAt(s, k + 1);
      assert forall j :: k + 1 <= j <= |s| ==> s[k..j] == [s[k]] + s[k + 1..j];
      r
  }

  function Bold(s: string): string
    decreases |s|
  {
    if |s| == 0 then ""
    else if PairAt(s, 0) then
      match CloseAt(s, 2)
      case Some(j) => "*" + s[2..j] + "*" + Bold(s[j + 2..])
      case None => [s[0]] + Bold(s[1..])
    else [s[0]] + Bold(s[1..])
  }

  /** The text with every asterisk taken out. */
  function Unstarred(s: string): string
    decreases |s|
  {
    if |s| == 0 then "" else (if s[0] == '*' then "" else [s[0]]) + Unstarred(s[1..])
  }

  lemma {:induction false} UnstarredAppend(a: string, b: string)
    ensures Unstarred(a + b) == Unstarred(a) + Unstarred(b)
    decreases |a|
  {
    if |a| > 0 {
      assert (a + b)[1..] == a[1..] + b;
      UnstarredAppend(a[1..], b);
    } else {
      assert a + b == b;
    }
  }

  /** The bold rewrite only ever deletes asterisks: every other character is
      kept, in order. */
  lemma {:induction false} BoldOnlyDropsAsterisks(s: string)
    ensures Unstarred(Bold(s)) == Unstarred(s)
    decreases |s|
  {
    if |s| == 0 {
    } else if PairAt(s, 0) && CloseAt(s, 2).Some? {
      var j := CloseAt(s, 2).value;
      BoldOnlyDropsAsterisks(s[j + 2..]);
      assert Bold(s) == "*" + s[2..j] + "*" + Bold(s[j + 2..]);
      UnstarredFramed(s[2..j], Bold(s[j + 2..]));
      UnstarredPaired(s, j);
    } else {
      BoldOnlyDropsAsterisks(s[1..]);
    }
  }

  lemma UnstarredFramed(x: string, r: string)
    ensures Unstarred("*" + x + "*" + r) == Unstarred(x) + Unstarred(r)
  {
    UnstarredAppend("*" + x + "*", r);
    UnstarredAppend("*" + x, "*");
    UnstarredAppend("*", x);
  }

  lemma UnstarredPaired(s: string, j: nat)
    requires 2 <= j && PairAt(s, 0) && PairAt(s, j)
    ensures Unstarred(s) == Unstarred(s[2..j]) + Unstarred(s[j + 2..])
  {
    assert s == s[..2] + s[2..j] + s[j..j + 2] + s[j + 2..];
    UnstarredAppend(s[..2] + s[2..j] + s[j..j + 2], s[j + 2..]);
    UnstarredAppend(s[..2] + s[2..j], s[j..j + 2]);
    UnstarredAppend(s[..2], s[2..j]);
    assert Unstarred(s[..2]) == "" by { assert s[..2][1..] == [s[1]]; }
    assert Unstarred(s[j..j + 2]) == "" by { assert s[j..j + 2][1..] == [s[j + 1]]; }
  }

  /** A text without "**" is left as it is. */
  lemma {:induction false} BoldIdentity(s: string)
    requires forall j :: !PairAt(s, j)
    ensures Bold(s) == s
    decreases |s|
  {
    if |s| > 0 {
      assert forall j :: PairAt(s[1..], j) ==> PairAt(s, j + 1);
      BoldIdentity(s[1..]);
    }
  }

  /** "**x**" becomes "*x*" when `x` holds no asterisk and no line feed. */
  lemma BoldSpan(x: string, rest: string)
    requires NoNewline(x) && (forall k :: !PairAt(x, k)) && (|x| == 0 || x[|x| - 1] != '*')
    ensures Bold("**" + x + "**" + rest) == "*" + x + "*" + Bold(rest)
  {
    var s := "**" + x + "**" + rest;
    var j := |x| + 2;
    assert PairAt(s, j);
    assert s[2..j] == x;
    forall i | 2 <= i < j ensures !PairAt(s, i) {
      if i + 1 < j {
        assert s[i] == x[i - 2] && s[i + 1] == x[i - 1];
        assert !PairAt(x, i - 2);
      } else {
        assert s[i] == x[|x| - 1];
      }
    }
    assert CloseAt(s, 2) == Some(j);
    assert s[j + 2..] == rest;
  }

  /** Text holding no asterisk is copied as it is, and the rewrite carries on
      with what follows it. */
  lemma {:induction false} BoldCopy(p: string, s: string)
    requires forall k :: 0 <= k < |p| ==> p[k] != '*'
    ensures Bold(p + s) == p + Bold(s)
    decreases |p|
  {
    if |p| == 0 {
      assert p + s == s;
    } else {
      var x := p + s;
      assert x[0] == p[0] && !PairAt(x, 0);
      assert x[1..] == p[1..] + s;
      BoldCopy(p[1..], s);
    }
  }

  /** "**x**" becomes "*x*" wherever it stands after asterisk-free text. */
  lemma BoldSpanAfter(p: string, x: string, rest: string)
    requires forall k :: 0 <= k < |p| ==> p[k] != '*'
    requires NoNewline(x) && (forall k :: !PairAt(x, k)) && (|x| == 0 || x[|x| - 1] != '*')
    ensures Bold(p + ("**" + x + "**" + rest)) == p + ("*" + x + "*" + Bold(rest))
  {
    BoldCopy(p, "**" + x + "**" + rest);
    BoldSpan(x, rest);
  }

  // ---------------------------------------------------------------------------
  // re.sub(r'^###\s*(.*?)$', r'*\1*', content, flags=re.MULTILINE)

  /** The end of the whitespace run starting at `k` (greedy `\s*`). */
  function SpaceRunEnd(s: string, k: nat): (e: nat)
    requires k <= |s|
    ensures k <= e <= |s| && AllSpace(s[k..e]) && (e == |s| || !IsSpace(s[e]))
    decreases |s| - k
  {
    if k < |s| && IsSpace(s[k]) then
      var e := SpaceRunEnd(s, k + 1);
      assert s[k..e] == [s[k]] + s[k + 1..e];
      e
    else k
  }

  /** The first line feed at or after `k`, or the end of the text: where the lazy
      group `(.*?)` stops for `$`. */
  function LineEnd(s: string, k: nat): (e: nat)
    requires k <= |s|
    ensures k <= e <= |s| && NoNewline(s[k..e]) && (e == |s| || s[e] == '\n')
    decreases |s| - k
  {
    if k < |s| && s[k] != '\n' then
      var e := LineEnd(s, k + 1);
      assert s[k..e] == [s[k]] + s[k + 1..e];
      e
    else k
  }

  lemma {:induction false} SpaceRunEndIs(s: string, k: nat, w: nat)
    requires k <= w <= |s| && AllSpace(s[k..w]) && (w == |s| || !IsSpace(s[w]))
    ensures SpaceRunEnd(s, k) == w
    decreases w - k
  {
    if k < w {
      assert s[k] == s[k..w][0];
      assert s[k + 1..w] == s[k..w][1..];
      SpaceRunEndIs(s, k + 1, w);
    }
  }

  lemma {:induction false} LineEndIs(s: string, k: nat, e: nat)
    requires k <= e <= |s| && NoNewline(s[k..e]) && (e == |s| || s[e] == '\n')
    ensures LineEnd(s, k) == e
    decreases e - k
  {
    if k < e {
      assert s[k] == s[k..e][0];
      assert s[k + 1..e] == s[k..e][1..];
      LineEndIs(s, k + 1, e);
    }
  }

  function Headers(s: string, atLineStart: bool): string
    decreases |s|
  {
    if |s| == 0 then ""
    else if atLineStart && |s| >= 3 && s[..3] == "###" then
      var w := SpaceRunEnd(s, 3);
      var e := LineEnd(s, w);
      "*" + s[w..e] + "*" + Headers(s[e..], s[e - 1] == '\n')
    else [s[0]] + Headers(s[1..], s[0] == '\n')
  }

  predicate HeadingLineAt(t: string, atLineStart: bool, i: nat)
    requires i < |t|
  {
    LineStart(t, atLineStart, i) && i + 3 <= |t| && t[i..i + 3] == "###"
  }

  predicate NoHeadingLine(t: string, atLineStart: bool) {
    forall i :: 0 <= i < |t| ==> !HeadingLineAt(t, atLineStart, i)
  }

  /** Away from a line start, the scanner copies the first character. */
  lemma HeadersHead(s: string)
    requires |s| > 0
    ensures |Headers(s, false)| > 0 && Headers(s, false)[0] == s[0]
  {
  }

  /** Away from a line start, two characters that are not line feeds are copied. */
  lemma HeadersHead2(s: string)
    requires |s| > 1 && s[0] != '\n'
    ensures |Headers(s, false)| > 1 && Headers(s, false)[..2] == s[..2]
  {
    HeadersHead(s[1..]);
  }

  /** A single-line heading wrapped in asterisks starts no heading line, so
      the result has one only where `rest` has. */
  lemma StarredNoHeading(h: string, rest: string, restAtLineStart: bool, atLineStart: bool)
    requires NoNewline(h) && NoHeadingLine(rest, restAtLineStart)
    ensures NoHeadingLine("*" + h + "*" + rest, atLineStart)
  {
    var r := "*" + h + "*" + rest;
    forall i | 0 <= i < |r| ensures !HeadingLineAt(r, atLineStart, i) {
      if i == 0 {
        assert r[0] == '*';
      } else if i <= |h| + 1 {
        assert r[i - 1] == if i == 1 then '*' else h[i - 2];
      } else if i == |h| + 2 {
        assert r[i - 1] == '*';
      } else {
        var j := i - |h| - 2;
        assert r[i - 1] == rest[j - 1];
        assert !HeadingLineAt(rest, restAtLineStart, j);
        if i + 3 <= |r| {
          assert r[i..i + 3] == rest[j..j + 3];
        }
      }
    }
  }

  /** After the rewrite no line starts with "###". */
  lemma {:induction false} HeadersLeaveNoHeading(s: string, atLineStart: bool)
    ensures NoHeadingLine(Headers(s, atLineStart), atLineStart)
    decreases |s|
  {
    var r := Headers(s, atLineStart);
    if |s| == 0 {
    } else if atLineStart && |s| >= 3 && s[..3] == "###" {
      var w := SpaceRunEnd(s, 3);
      var e := LineEnd(s, w);
      var h := s[w..e];
      var rest := Headers(s[e..], s[e - 1] == '\n');
      HeadersLeaveNoHeading(s[e..], s[e - 1] == '\n');
      assert r == "*" + h + "*" + rest;
      StarredNoHeading(h, rest, s[e - 1] == '\n', atLineStart);
    } else {
      var rest := Headers(s[1..], s[0] == '\n');
      HeadersLeaveNoHeading(s[1..], s[0] == '\n');
      assert r == [s[0]] + rest;
      CopiedFirstNoHeading(s, atLineStart);
      CopiedNoHeading(s[0], rest, s[0] == '\n', atLineStart);
    }
  }

  /** A character copied at the front does not start a heading line. */
  lemma CopiedFirstNoHeading(s: string, atLineStart: bool)
    requires |s| > 0 && !(atLineStart && |s| >= 3 && s[..3] == "###")
    ensures !HeadingLineAt([s[0]] + Headers(s[1..], s[0] == '\n'), atLineStart, 0)
  {
    var r := [s[0]] + Headers(s[1..], s[0] == '\n');
    if atLineStart && |s| >= 2 && s[0] != '\n' {
      HeadersHead(s[1..]);
      if |s| >= 3 && s[1] != '\n' {
        HeadersHead2(s[1..]);
        assert r[..3] == s[..3];
      } else if |s| >= 3 {
        assert r[1] == s[1] == '\n';
      }
    }
  }

  /** Past the copied first character, heading lines are those of `rest`. */
  lemma CopiedNoHeading(c: char, rest: string, restAtLineStart: bool, atLineStart: bool)
    requires restAtLineStart == (c == '\n') && NoHeadingLine(rest, restAtLineStart)
    requires |rest| == 0 || !HeadingLineAt([c] + rest, atLineStart, 0)
    ensures NoHeadingLine([c] + rest, atLineStart)
  {
    var r := [c] + rest;
    forall i | 1 <= i < |r| ensures !HeadingLineAt(r, atLineStart, i) {
      assert !HeadingLineAt(rest, restAtLineStart, i - 1);
      assert r[i - 1] == if i == 1 then c else rest[i - 2];
      if i + 3 <= |r| {
        assert r[i..i + 3] == rest[i - 1..i + 2];
      }
    }
  }

  /** A text with no heading line is left as it is. */
  lemma {:induction false} HeadersIdentity(s: string, atLineStart: bool)
    requires NoHeadingLine(s, atLineStart)
    ensures Headers(s, atLineStart) == s
    decreases |s|
  {
    if |s| > 0 {
      var nl := s[0] == '\n';
      assert !HeadingLineAt(s, atLineStart, 0);
      forall i | 0 <= i < |s| - 1 ensures !HeadingLineAt(s[1..], nl, i) {
        assert !HeadingLineAt(s, atLineStart, i + 1);
        assert s[1..][i..] == s[i + 1..];
      }
      HeadersIdentity(s[1..], nl);
    }
  }

  lemma HeadersIdempotent(s: string)
    ensures Headers(Headers(s, true), true) == Headers(s, true)
  {
    HeadersLeaveNoHeading(s, true);
    HeadersIdentity(Headers(s, true), true);
  }

  /** A line "###", whitespace, then a heading becomes "*heading*". The
      whitespace may include line feeds, as `\s*` does: "###\nfoo" gives "*foo*". */
  lemma HeadingLine(ws: string, h: string, rest: string)
    requires AllSpace(ws) && NoNewline(h) && |h| > 0 && !IsSpace(h[0])
    requires rest == [] || rest[0] == '\n'
    ensures Headers("###" + ws + h + rest, true) == "*" + h + "*" + Headers(rest, false)
  {
    var s := "###" + ws + h + rest;
    var w := 3 + |ws|;
    assert s[3..w] == ws;
    assert s[w] == h[0];
    SpaceRunEndIs(s, 3, w);
    var e := w + |h|;
    assert s[w..e] == h;
    LineEndIs(s, w, e);
    assert s[e..] == rest;
    assert s[e - 1] == h[|h| - 1];
  }

  /** A line that is not a heading is copied as it is, and the next line is
      rewritten as a line of its own. */
  lemma {:induction false} HeadersAfterLine(p: string, s: string, atLineStart: bool)
    requires NoNewline(p) && !(atLineStart && |p| >= 3 && p[..3] == "###")
    ensures Headers(p + "\n" + s, atLineStart) == p + "\n" + Headers(s, true)
    decreases |p|
  {
    var x := p + "\n" + s;
    assert !(atLineStart && |x| >= 3 && x[..3] == "###") by {
      if |p| < 3 {
        if |x| >= 3 {
          assert x[..3][|p|] == x[|p|] == '\n';
        }
      } else {
        assert x[..3] == p[..3];
      }
    }
    HeadersCopyFirst(x, atLineStart);
    if |p| == 0 {
      assert x[0] == '\n';
      assert x[1..] == s;
    } else {
      assert x[0] == p[0] != '\n';
      assert x[1..] == p[1..] + "\n" + s;
      HeadersAfterLine(p[1..], s, false);
    }
  }

  /** Where no heading line starts, the first character is copied. */
  lemma HeadersCopyFirst(x: string, atLineStart: bool)
    requires |x| > 0 && !(atLineStart && |x| >= 3 && x[..3] == "###")
    ensures Headers(x, atLineStart) == [x[0]] + Headers(x[1..], x[0] == '\n')
  {
  }

  /** A heading line becomes "*heading*" wherever it stands after a line that
      is not a heading. */
  lemma HeadingLineAfter(p: string, ws: string, h: string, rest: string, atLineStart: bool)
    requires NoNewline(p) && !(atLineStart && |p| >= 3 && p[..3] == "###")
    requires AllSpace(ws) && NoNewline(h) && |h| > 0 && !IsSpace(h[0])
    requires rest == [] || rest[0] == '\n'
    ensures Headers(p + "\n" + ("###" + ws + h + rest), atLineStart)
            == p + "\n" + ("*" + h + "*" + Headers(rest, false))
  {
    HeadersAfterLine(p, "###" + ws + h + rest, atLineStart);
    HeadingLine(ws, h, rest);
  }

  // ---------------------------------------------------------------------------

  /** The three rewrites in the order the script applies them. */
  function Normalise(content: string): string {
    Headers(Bold(Bullets(content, true)), true)
  }
}
