/** How the text written in `main` is read back in `post_to_slack`: the entry
    format of the accumulator (one f-string per article) against the splitting
    on blank lines that recovers title, summary and link. */
module RoundTrip {

  import opened Wrappers
  import opened Strings
  import opened Slack
  import opened Batching
  import opened Pubtype

  /** The title line of an entry. */
  function TitleLine(query: string): string {
    NotificationPrefix + " (" + query + ")"
  }

  /** What the reader gets back for a well-formed entry: the query in
      parentheses, the summary with every blank-line pair turned into one line
      break, and the link. */
  function Expected(query: string, a: Article): ParsedEntry {
    ParsedEntry("(" + query + ")", Replace(a.content, PartSep, "\n"), PubmedUrl(a.id))
  }

  /** The conditions under which an entry survives the trip: the query has no
      blank line and does not repeat the notification words, the summary is
      non-empty, stripped, and has no run of three line breaks, and the id has
      no whitespace. */
  ghost predicate WellFormed(query: string, a: Article) {
    && NoOcc(query, PartSep)
    && NoOcc(" (" + query + ")", NotificationPrefix)
    && |a.content| > 0 && !IsSpace(a.content[0]) && !IsSpace(a.content[|a.content| - 1])
    && NoOcc(a.content, EntrySep)
    && forall k :: 0 <= k < |a.id| ==> !IsSpace(a.id[k])
  }

  // ---------------------------------------------------------------------------
  // One entry

  /** The title line holds no blank line, hence no entry separator either; it
      starts with the notification words and ends with the closing parenthesis. */
  lemma TitleLineShape(query: string)
    requires NoOcc(query, PartSep)
    ensures var t := TitleLine(query);
            && |t| > 0 && t[0] == 'N' && t[|t| - 1] == ')'
            && NoOcc(t, PartSep) && NoOcc(t, EntrySep)
  {
    var h := NotificationPrefix + " (";
    var t := TitleLine(query);
    assert t == h + query + ")";
    assert NoNewline(h) by {
      forall k | 0 <= k < |h| ensures h[k] != '\n' {
        assert h[k] in "New PubMed Article Notification (";
      }
    }
    NoNewlineNoOcc(h, PartSep);
    NoOccConcat(h, query, PartSep);
    NoNewlineNoOcc(")", PartSep);
    NoOccConcat(h + query, ")", PartSep);
    NoOccExtended(t, PartSep, EntrySep);
  }

  lemma UrlNoNewline(id: string)
    requires forall k :: 0 <= k < |id| ==> !IsSpace(id[k])
    ensures NoNewline(PubmedUrl(id))
    ensures !IsSpace(PubmedUrl(id)[|PubmedUrl(id)| - 1])
  {
    var u := PubmedUrl(id);
    forall k | 0 <= k < |u| ensures u[k] != '\n' {
      if k < |PubmedUrlPrefix| {
        assert u[k] == PubmedUrlPrefix[k];
      } else {
        assert u[k] == id[k - |PubmedUrlPrefix|];
      }
    }
    if |id| > 0 {
      assert u[|u| - 1] == id[|id| - 1];
    }
  }

  /** The notification words are removed from the title line and the rest is
      stripped, leaving the query in parentheses. */
  lemma ParseTitle(query: string)
    requires NoOcc(" (" + query + ")", NotificationPrefix)
    ensures Strip(Replace(TitleLine(query), NotificationPrefix, "")) == "(" + query + ")"
  {
    var p := NotificationPrefix;
    var t := TitleLine(query);
    var tail := " (" + query + ")";
    assert t == p + tail;
    assert t[..|p|] == p;
    FindFirst(t, p, 0);
    assert t[|p|..] == tail;
    FindSpec(tail, p);
    assert Replace(tail, p, "") == tail;
    assert Replace(t, p, "") == tail;
    var inner := "(" + query + ")";
    assert tail == " " + inner + "";
    StripFramed(" ", inner, "");
  }

  /** The body of an entry falls into the title line, the summary's own
      paragraphs and the link. */
  lemma SplitBody(query: string, a: Article)
    requires WellFormed(query, a)
    ensures Split(EntryBody(query, a), PartSep)
         == [TitleLine(query)] + Split(a.content, PartSep) + [PubmedUrl(a.id)]
  {
    var t, c, u := TitleLine(query), a.content, PubmedUrl(a.id);
    BodyShape(query, a);
    TitleLineShape(query);
    UrlNoNewline(a.id);
    SplitFramedBy(t, c, u, PartSep);
  }

  lemma BodyShape(query: string, a: Article)
    ensures EntryBody(query, a) == TitleLine(query) + PartSep + (a.content + PartSep + PubmedUrl(a.id))
  {
  }

  /** Build then read back: a well-formed entry is recovered, with the summary's
      blank-line pairs collapsed to single line breaks. */
  lemma EntryRoundTrip(query: string, a: Article)
    requires WellFormed(query, a)
    ensures ParseEntry(EntryBody(query, a)) == Some(Expected(query, a))
  {
    var body := EntryBody(query, a);
    var parts := Split(body, PartSep);
    SplitBody(query, a);
    assert body[0] == 'N';
    StripEmpty(body);
    assert parts[0] == TitleLine(query);
    assert parts[1..|parts| - 1] == Split(a.content, PartSep);
    assert parts[|parts| - 1] == PubmedUrl(a.id);
    ParseTitle(query);
    ReplaceSpec(a.content, PartSep, "\n");
  }

  /** When the summary has no blank line the round trip is exact. */
  lemma EntryRoundTripExact(query: string, a: Article)
    requires WellFormed(query, a) && NoOcc(a.content, PartSep)
    ensures ParseEntry(EntryBody(query, a)) == Some(ParsedEntry("(" + query + ")", a.content, PubmedUrl(a.id)))
  {
    EntryRoundTrip(query, a);
    FindSpec(a.content, PartSep);
    assert Replace(a.content, PartSep, "\n") == a.content;
  }

  // ---------------------------------------------------------------------------
  // A whole post

  function Bodies(query: string, batch: seq<Article>): seq<string> {
    seq(|batch|, k requires 0 <= k < |batch| => EntryBody(query, batch[k]))
  }

  /** A well-formed body contains no entry separator and does not end with a
      line break, so it splits off cleanly when followed by one. */
  lemma BodyClean(query: string, a: Article)
    requires WellFormed(query, a)
    ensures Clean(EntryBody(query, a), EntrySep)
  {
    var t, c, u := TitleLine(query), a.content, PubmedUrl(a.id);
    TitleLineShape(query);
    UrlNoNewline(a.id);
    BodyShape(query, a);
    NoNewlineNoOcc(u, EntrySep);
    var x1 := t + PartSep;
    NoOccConcat(t, PartSep, EntrySep);
    var x2 := x1 + c;
    NoOccConcat(x1, c, EntrySep);
    var x3 := x2 + PartSep;
    NoOccConcat(x2, PartSep, EntrySep);
    NoOccConcat(x3, u, EntrySep);
    assert EntryBody(query, a) == x3 + u;
    CleanNewlines(EntryBody(query, a), EntrySep);
  }

  lemma BodyEnds(query: string, a: Article)
    requires WellFormed(query, a)
    ensures var b := EntryBody(query, a);
            |b| > 0 && b[0] == 'N' && !IsSpace(b[|b| - 1])
  {
    UrlNoNewline(a.id);
    BodyShape(query, a);
  }

  /** The text of a batch of entries is cut back into exactly their bodies. */
  lemma BatchEntries(query: string, batch: seq<Article>)
    requires |batch| > 0
    requires forall k :: 0 <= k < |batch| ==> WellFormed(query, batch[k])
    ensures Entries(Concat(EntryTexts(query, batch))) == Bodies(query, batch)
  {
    var bodies := Bodies(query, batch);
    var j := Join(bodies, EntrySep);
    BatchText(query, batch);
    BodiesClean(query, batch);
    JoinStripped(bodies);
    StripEmpty(j + EntrySep);
    SplitJoin(bodies, EntrySep);
  }

  /** The text of a batch is its bodies joined by, and ended with, the entry
      separator. */
  lemma BatchText(query: string, batch: seq<Article>)
    requires |batch| > 0
    ensures Concat(EntryTexts(query, batch)) == Join(Bodies(query, batch), EntrySep) + EntrySep
  {
    var bodies := Bodies(query, batch);
    assert EntryTexts(query, batch)
        == seq(|bodies|, k requires 0 <= k < |bodies| => bodies[k] + EntrySep);
    ConcatTerminated(bodies, EntrySep);
  }

  lemma BodiesClean(query: string, batch: seq<Article>)
    requires forall k :: 0 <= k < |batch| ==> WellFormed(query, batch[k])
    ensures var bodies := Bodies(query, batch);
            forall k :: 0 <= k < |bodies| ==>
              && |bodies[k]| > 0 && bodies[k][0] == 'N'
              && !IsSpace(bodies[k][|bodies[k]| - 1])
              && Clean(bodies[k], EntrySep)
  {
    var bodies := Bodies(query, batch);
    forall k | 0 <= k < |bodies|
      ensures && |bodies[k]| > 0 && bodies[k][0] == 'N'
              && !IsSpace(bodies[k][|bodies[k]| - 1])
              && Clean(bodies[k], EntrySep)
    {
      BodyEnds(query, batch[k]);
      BodyClean(query, batch[k]);
    }
  }

  /** Stripping the text of a batch removes just the final separator. */
  lemma JoinStripped(bodies: seq<string>)
    requires |bodies| > 0
    requires forall k :: 0 <= k < |bodies| ==>
               |bodies[k]| > 0 && bodies[k][0] == 'N' && !IsSpace(bodies[k][|bodies[k]| - 1])
    ensures var j := Join(bodies, EntrySep);
            |j| > 0 && Strip(j + EntrySep) == j
  {
    var j := Join(bodies, EntrySep);
    JoinEnds(bodies, EntrySep);
    StripFramed("", j, EntrySep);
    assert "" + j + EntrySep == j + EntrySep;
  }

  /** Every entry of a batch of well-formed articles is rendered, in order. */
  lemma BatchKept(query: string, batch: seq<Article>)
    requires |batch| > 0
    requires forall k :: 0 <= k < |batch| ==> WellFormed(query, batch[k])
    ensures Kept(Entries(Concat(EntryTexts(query, batch))))
         == seq(|batch|, k requires 0 <= k < |batch| => Expected(query, batch[k]))
  {
    BatchEntries(query, batch);
    BodiesParsed(query, batch);
  }

  lemma BodiesParsed(query: string, batch: seq<Article>)
    requires forall k :: 0 <= k < |batch| ==> WellFormed(query, batch[k])
    ensures Kept(Bodies(query, batch))
         == seq(|batch|, k requires 0 <= k < |batch| => Expected(query, batch[k]))
  {
    var bodies := Bodies(query, batch);
    var parsed := ParseAll(bodies);
    ParseAllAt(bodies);
    forall k | 0 <= k < |batch| ensures parsed[k] == Some(Expected(query, batch[k])) {
      EntryRoundTrip(query, batch[k]);
    }
    SomesAll(parsed);
  }

  /** The message for a batch of well-formed articles holds the header, the
      message number and three blocks per article. */
  lemma BatchPayload(query: string, searchDate: string, messageCount: nat, batch: seq<Article>)
    requires forall k :: 0 <= k < |batch| ==> WellFormed(query, batch[k])
    ensures |Payload(Concat(EntryTexts(query, batch)), query, searchDate, messageCount)|
         == 2 + 3 * |batch|
  {
    var text := Concat(EntryTexts(query, batch));
    PayloadShape(text, query, searchDate, messageCount);
    if |batch| == 0 {
      assert EntryTexts(query, batch) == [];
      assert AllSpace(text);
      BlankTextPayload(text, query, searchDate, messageCount);
    } else {
      BatchKept(query, batch);
    }
  }

  /** A message whose text is the entry of one article with an empty summary
      has just the two leading blocks: the entry has four line breaks after
      the title line, so the entry separator cuts it into the title line and
      the link, and neither has three parts. */
  lemma EmptyContentDropped(query: string, a: Article, searchDate: string, messageCount: nat)
    requires NoOcc(query, PartSep) && a.content == ""
    requires forall k :: 0 <= k < |a.id| ==> !IsSpace(a.id[k])
    ensures Payload(EntryText(query, a), query, searchDate, messageCount)
         == [Header(HeaderText(query, searchDate)), Section(IndexText(messageCount))]
  {
    var t, u := TitleLine(query), PubmedUrl(a.id);
    TitleLineShape(query);
    UrlNoNewline(a.id);
    var text := EntryText(query, a);
    var body := t + EntrySep + ("\n" + u);
    assert text == body + EntrySep;
    EmptyContentEntries(t, u);
    assert Entries(text) == [t, "\n" + u];
    DroppedPieces(t, u);
    var pieces := [t, "\n" + u];
    ParseAllAt(pieces);
    var none: seq<Option<ParsedEntry>> := [None, None];
    assert ParseAll(pieces) == none;
    assert none[..1][..0] == [];
  }

  lemma EmptyContentEntries(t: string, u: string)
    requires NoOcc(t, EntrySep) && NoNewline(u) && |t| > 0 && t[0] == 'N' && t[|t| - 1] != '\n'
    requires |u| > 0
    requires !IsSpace(u[|u| - 1])
    ensures Entries(t + EntrySep + ("\n" + u) + EntrySep) == [t, "\n" + u]
  {
    var j := t + EntrySep + ("\n" + u);
    StripFramed("", j, EntrySep);
    assert "" + j + EntrySep == j + EntrySep;
    StripEmpty(j + EntrySep);
    SplitAppend(t, EntrySep, "\n" + u);
    SplitNone(t, EntrySep);
    BreakThenLine(u, EntrySep);
  }

  lemma DroppedPieces(t: string, u: string)
    requires NoOcc(t, PartSep) && NoNewline(u) && |u| > 0
    ensures ParseEntry(t) == None && ParseEntry("\n" + u) == None
  {
    SplitNone(t, PartSep);
    BreakThenLine(u, PartSep);
  }

  // ---------------------------------------------------------------------------
  // A whole attempt

  /** How many entries post `k` of an attempt with `n` entries carries. */
  function BatchSize(n: nat, k: nat): nat {
    if 6 * k + 6 <= n then 6 else if 6 * k <= n then n - 6 * k else 0
  }

  lemma QualifyingWellFormed(query: string, articles: seq<Article>)
    requires forall j :: 0 <= j < |articles| && CheckPubtype(articles[j].pubtypes) ==>
               WellFormed(query, articles[j])
    ensures forall k :: 0 <= k < |Qualifying(articles)| ==> WellFormed(query, Qualifying(articles)[k])
  {
    var q := Qualifying(articles);
    forall k | 0 <= k < |q| ensures WellFormed(query, q[k]) {
      QualifyingMembers(articles, q[k]);
      var j :| 0 <= j < |articles| && articles[j] == q[k];
    }
  }

  /** When every qualifying article is well formed, each message of the
      attempt holds the header, its number and three blocks for each of the
      entries its batch carries: six for every full batch, the remainder for
      the last, none when nothing qualified. */
  lemma AttemptPayloads(query: string, searchDate: string, articles: seq<Article>)
    requires forall j :: 0 <= j < |articles| && CheckPubtype(articles[j].pubtypes) ==>
               WellFormed(query, articles[j])
    ensures var q := Qualifying(articles);
            var posts := PlannedPosts(EntryTexts(query, q));
            forall k :: 0 <= k < |posts| ==>
              |Payload(posts[k].text, query, searchDate, posts[k].messageCount)|
              == 2 + 3 * BatchSize(|q|, k)
  {
    var q := Qualifying(articles);
    var entries := EntryTexts(query, q);
    var posts := PlannedPosts(entries);
    QualifyingWellFormed(query, articles);
    PostBatches(entries);
    forall k | 0 <= k < |posts|
      ensures |Payload(posts[k].text, query, searchDate, posts[k].messageCount)|
              == 2 + 3 * BatchSize(|q|, k)
    {
      PostPayload(query, searchDate, posts[k].messageCount, q, k, posts[k].text);
    }
  }

  lemma PostPayload(query: string, searchDate: string, messageCount: nat, q: seq<Article>,
                    k: nat, text: string)
    requires forall i :: 0 <= i < |q| ==> WellFormed(query, q[i])
    requires 6 * k <= |q|
    requires text == Concat(EntryTexts(query, q)[6 * k..if 6 * k + 6 <= |q| then 6 * k + 6 else |q|])
    ensures |Payload(text, query, searchDate, messageCount)| == 2 + 3 * BatchSize(|q|, k)
  {
    var hi := if 6 * k + 6 <= |q| then 6 * k + 6 else |q|;
    var batch := q[6 * k..hi];
    EntryTextsSlice(query, q, 6 * k, hi);
    SliceWellFormed(query, q, 6 * k, hi);
    BatchPayload(query, searchDate, messageCount, batch);
  }

  lemma EntryTextsSlice(query: string, q: seq<Article>, lo: nat, hi: nat)
    requires lo <= hi <= |q|
    ensures EntryTexts(query, q)[lo..hi] == EntryTexts(query, q[lo..hi])
  {
  }

  lemma SliceWellFormed(query: string, q: seq<Article>, lo: nat, hi: nat)
    requires lo <= hi <= |q|
    requires forall i :: 0 <= i < |q| ==> WellFormed(query, q[i])
    ensures forall i :: 0 <= i < hi - lo ==> WellFormed(query, q[lo..hi][i])
  {
    forall i | 0 <= i < hi - lo ensures WellFormed(query, q[lo..hi][i]) {
      assert q[lo..hi][i] == q[lo + i];
    }
  }
}
