/** One attempt of the per-query loop in `main`: the articles found for a
    query are filtered by publication type, each qualifying article's entry
    is appended to the running text, and every sixth entry the text is posted
    and cleared; a final post carries what is left, or the empty text when no
    article qualified. The remote calls are not part of this model: each
    article arrives with the chat model's stripped reply already attached, and
    every call of `post_to_slack` is recorded as a `Post`. */
module Batching {

  import opened Strings
  import opened Pubtype

  /** `MAX_ARTICLES_PER_MESSAGE`. */
  const MaxArticlesPerMessage: nat := 6

  const PubmedUrlPrefix: string := "https://pubmed.ncbi.nlm.nih.gov/"

  /** An article id with its publication types and the stripped summary the
      chat model wrote for it. */
  datatype Article = Article(id: string, pubtypes: seq<string>, content: string)

  /** One call `post_to_slack(webhook, text, query, date, messageCount)`. */
  datatype Post = Post(text: string, messageCount: nat)

  function PubmedUrl(id: string): string {
    PubmedUrlPrefix + id
  }

  /** An entry without its trailing blank lines: title line, summary, link. */
  function EntryBody(query: string, a: Article): string {
    "New PubMed Article Notification (" + query + ")\n\n" + a.content + "\n\n" + PubmedUrl(a.id)
  }

  /** What one qualifying article appends to the running text. */
  function EntryText(query: string, a: Article): string {
    EntryBody(query, a) + "\n\n\n"
  }

  /** What is appended after the final post when no article qualified. */
  function NoArticlesText(query: string): string {
    "New PubMed Article Notification (" + query + ")\n\nNo new articles\n\n"
  }

  /** The articles that pass `check_pubtype`, in order. */
  function Qualifying(articles: seq<Article>): (r: seq<Article>)
    ensures |r| <= |articles|
    ensures forall k :: 0 <= k < |r| ==> CheckPubtype(r[k].pubtypes)
    decreases |articles|
  {
    if |articles| == 0 then []
    else
      var front := Qualifying(articles[..|articles| - 1]);
      var a := articles[|articles| - 1];
      if CheckPubtype(a.pubtypes) then front + [a] else front
  }

  /** Filtering keeps order and multiplicity: the articles of two runs are
      filtered one run after the other. */
  lemma {:induction false} QualifyingAppend(xs: seq<Article>, ys: seq<Article>)
    ensures Qualifying(xs + ys) == Qualifying(xs) + Qualifying(ys)
    decreases |ys|
  {
    if |ys| == 0 {
      assert xs + ys == xs;
    } else {
      assert (xs + ys)[..|xs + ys| - 1] == xs + ys[..|ys| - 1];
      QualifyingAppend(xs, ys[..|ys| - 1]);
    }
  }

  function EntryTexts(query: string, articles: seq<Article>): seq<string> {
    seq(|articles|, k requires 0 <= k < |articles| => EntryText(query, articles[k]))
  }

  /** The posts made inside the loop once `n` full batches have been written. */
  function FullPosts(entries: seq<string>, n: nat): seq<Post>
    requires 6 * n <= |entries|
  {
    seq(n, k requires 0 <= k < n => Post(Concat(entries[6 * k..6 * k + 6]), k + 1))
  }

  /** The posts of one attempt with the given entries: one per full batch of
      six, then one for the remainder, or for the empty text when there were
      no entries at all. */
  function PlannedPosts(entries: seq<string>): seq<Post> {
    var n := |entries| / MaxArticlesPerMessage;
    FullPosts(entries, n)
      + if |entries| % MaxArticlesPerMessage != 0 || |entries| == 0
        then [Post(Concat(entries[6 * n..]), n + 1)]
        else []
  }

  /** The body of `main` for one query, from `output = ""` to the `break`. */
  method RunAttempt(query: string, articles: seq<Article>)
    returns (posts: seq<Post>, output: string, paperCount: nat, messageCount: nat)
    ensures paperCount == |Qualifying(articles)|
    ensures posts == PlannedPosts(EntryTexts(query, Qualifying(articles)))
    ensures messageCount == |posts|
    ensures output == if paperCount == 0 then NoArticlesText(query)
                      else Concat(EntryTexts(query, Qualifying(articles))[6 * (paperCount / 6)..])
  {
    posts, output, paperCount, messageCount := Accumulate(query, articles);
    ghost var entries := EntryTexts(query, Qualifying(articles));
    FinalPost(entries, posts, output);
    if paperCount % MaxArticlesPerMessage != 0 || paperCount == 0 {
      messageCount := messageCount + 1;
      posts := posts + [Post(output, messageCount)];
    }
    if paperCount == 0 {
      output := output + NoArticlesText(query);
    }
  }

  /** The `for` loop of one attempt: every qualifying article's entry is
      appended to the running text, and each sixth one posts it and clears it. */
  method Accumulate(query: string, articles: seq<Article>)
    returns (posts: seq<Post>, output: string, paperCount: nat, messageCount: nat)
    ensures paperCount == |Qualifying(articles)|
    ensures messageCount == paperCount / 6
    ensures posts == FullPosts(EntryTexts(query, Qualifying(articles)), messageCount)
    ensures output == Concat(EntryTexts(query, Qualifying(articles))[6 * messageCount..])
  {
    output := "";
    paperCount := 0;
    messageCount := 0;
    posts := [];
    for i := 0 to |articles|
      invariant Accumulated(query, articles[..i], posts, output, paperCount, messageCount)
    {
      var a := articles[i];
      if !CheckPubtype(a.pubtypes) {
        Skip(query, articles, i, posts, output, paperCount, messageCount);
        continue;
      }
      var e := EntryText(query, a);
      Take(query, articles, i, posts, output, paperCount, messageCount);
      paperCount := paperCount + 1;
      output := output + e;
      if paperCount % MaxArticlesPerMessage == 0 {
        messageCount := messageCount + 1;
        posts := posts + [Post(output, messageCount)];
        output := "";
      }
    }
    assert articles[..|articles|] == articles;
  }

  // ---------------------------------------------------------------------------
  // Steps of the loop

  /** The state of the loop once the articles in `prefix` are processed:
      the entries written so far, the full batches posted, the running text
      holding the entries since the last post. */
  ghost predicate Accumulated(query: string, prefix: seq<Article>, posts: seq<Post>, output: string,
                              paperCount: nat, messageCount: nat)
  {
    var entries := EntryTexts(query, Qualifying(prefix));
    && paperCount == |entries|
    && messageCount == paperCount / 6
    && posts == FullPosts(entries, messageCount)
    && output == Concat(entries[6 * messageCount..])
  }

  /** An article that fails the check leaves the state as it is. */
  lemma Skip(query: string, articles: seq<Article>, i: nat, posts: seq<Post>, output: string,
             paperCount: nat, messageCount: nat)
    requires i < |articles| && !CheckPubtype(articles[i].pubtypes)
    requires Accumulated(query, articles[..i], posts, output, paperCount, messageCount)
    ensures Accumulated(query, articles[..i + 1], posts, output, paperCount, messageCount)
  {
    EntriesSnoc(query, articles, i, EntryTexts(query, Qualifying(articles[..i])));
  }

  /** A qualifying article appends its entry, and every sixth entry turns the
      running text into the next post and clears it. */
  lemma Take(query: string, articles: seq<Article>, i: nat, posts: seq<Post>, output: string,
             paperCount: nat, messageCount: nat)
    requires i < |articles| && CheckPubtype(articles[i].pubtypes)
    requires Accumulated(query, articles[..i], posts, output, paperCount, messageCount)
    ensures var e := EntryText(query, articles[i]);
            (paperCount + 1) % 6 != 0 ==>
              Accumulated(query, articles[..i + 1], posts, output + e, paperCount + 1, messageCount)
    ensures var e := EntryText(query, articles[i]);
            (paperCount + 1) % 6 == 0 ==>
              Accumulated(query, articles[..i + 1], posts + [Post(output + e, messageCount + 1)], "",
                          paperCount + 1, messageCount + 1)
  {
    var entries := EntryTexts(query, Qualifying(articles[..i]));
    var e := EntryText(query, articles[i]);
    EntriesSnoc(query, articles, i, entries);
    Step(entries, e, posts, output, messageCount);
  }

  lemma QualifyingSnoc(articles: seq<Article>, i: nat)
    requires i < |articles|
    ensures CheckPubtype(articles[i].pubtypes) ==>
              Qualifying(articles[..i + 1]) == Qualifying(articles[..i]) + [articles[i]]
    ensures !CheckPubtype(articles[i].pubtypes) ==>
              Qualifying(articles[..i + 1]) == Qualifying(articles[..i])
  {
    assert articles[..i + 1][..i] == articles[..i];
  }

  /** The entries written for one more article: its entry when it qualifies,
      none otherwise. */
  lemma EntriesSnoc(query: string, articles: seq<Article>, i: nat, entries: seq<string>)
    requires i < |articles|
    requires entries == EntryTexts(query, Qualifying(articles[..i]))
    ensures CheckPubtype(articles[i].pubtypes) ==>
              EntryTexts(query, Qualifying(articles[..i + 1]))
              == entries + [EntryText(query, articles[i])]
    ensures !CheckPubtype(articles[i].pubtypes) ==>
              EntryTexts(query, Qualifying(articles[..i + 1])) == entries
  {
    QualifyingSnoc(articles, i);
    EntryTextsSnoc(query, Qualifying(articles[..i]), articles[i]);
  }

  /** After the loop, the final post (when there is one) completes the plan. */
  lemma FinalPost(entries: seq<string>, posts: seq<Post>, output: string)
    requires posts == FullPosts(entries, |entries| / 6)
    requires output == Concat(entries[6 * (|entries| / 6)..])
    ensures |entries| % 6 != 0 || |entries| == 0 ==>
              posts + [Post(output, |entries| / 6 + 1)] == PlannedPosts(entries)
    ensures !(|entries| % 6 != 0 || |entries| == 0) ==> posts == PlannedPosts(entries)
  {
  }

  /** One qualifying entry: the running text grows by it, and when it completes
      a batch of six the text becomes the next full post. */
  lemma Step(entries: seq<string>, e: string, posts: seq<Post>, output: string, m: nat)
    requires m == |entries| / 6
    requires posts == FullPosts(entries, m)
    requires output == Concat(entries[6 * m..])
    ensures |entries + [e]| % 6 != 0 ==>
              && m == |entries + [e]| / 6
              && posts == FullPosts(entries + [e], m)
              && output + e == Concat((entries + [e])[6 * m..])
    ensures |entries + [e]| % 6 == 0 ==>
              && m + 1 == |entries + [e]| / 6
              && posts + [Post(output + e, m + 1)] == FullPosts(entries + [e], m + 1)
              && "" == Concat((entries + [e])[6 * (m + 1)..])
  {
    var es := entries + [e];
    AppendEntry(entries, e, m);
    FullPostsExtend(entries, e, m);
    CountStep(|es|);
    if |es| % 6 == 0 {
      FullPostsSnoc(es, m);
      assert es[6 * m..] == es[6 * m..6 * m + 6];
      assert es[6 * (m + 1)..] == [];
    }
  }

  lemma CountStep(n: nat)
    requires n > 0
    ensures n % 6 == 0 ==> n / 6 == (n - 1) / 6 + 1 && 6 * (n / 6) == n
    ensures n % 6 != 0 ==> n / 6 == (n - 1) / 6
  {
  }

  lemma EntryTextsSnoc(query: string, articles: seq<Article>, a: Article)
    ensures EntryTexts(query, articles + [a]) == EntryTexts(query, articles) + [EntryText(query, a)]
  {
  }

  /** Appending an entry to the running text keeps it equal to the entries
      written since the last full batch. */
  lemma AppendEntry(entries: seq<string>, e: string, m: nat)
    requires 6 * m <= |entries|
    ensures Concat((entries + [e])[6 * m..]) == Concat(entries[6 * m..]) + e
  {
    assert (entries + [e])[6 * m..] == entries[6 * m..] + [e];
    ConcatAppend(entries[6 * m..], [e]);
  }

  lemma FullPostsExtend(entries: seq<string>, e: string, m: nat)
    requires 6 * m <= |entries|
    ensures FullPosts(entries + [e], m) == FullPosts(entries, m)
  {
    forall k | 0 <= k < m
      ensures (entries + [e])[6 * k..6 * k + 6] == entries[6 * k..6 * k + 6]
    {
    }
  }

  lemma FullPostsSnoc(entries: seq<string>, m: nat)
    requires 6 * (m + 1) <= |entries|
    ensures FullPosts(entries, m + 1)
         == FullPosts(entries, m) + [Post(Concat(entries[6 * m..6 * m + 6]), m + 1)]
  {
  }

  // ---------------------------------------------------------------------------
  // What one attempt sends

  function Texts(posts: seq<Post>): seq<string> {
    seq(|posts|, k requires 0 <= k < |posts| => posts[k].text)
  }

  /** An article is processed exactly when it is among the articles found and
      passes the publication-type check. */
  lemma {:induction false} QualifyingMembers(articles: seq<Article>, a: Article)
    ensures a in Qualifying(articles) <==> a in articles && CheckPubtype(a.pubtypes)
    decreases |articles|
  {
    if |articles| > 0 {
      var front := articles[..|articles| - 1];
      QualifyingMembers(front, a);
      assert articles == front + [articles[|articles| - 1]];
    }
  }

  /** An article that fails the check changes nothing: the attempt sends
      exactly what it would send without it. */
  lemma {:induction false} NonQualifyingIgnored(xs: seq<Article>, a: Article, ys: seq<Article>)
    requires !CheckPubtype(a.pubtypes)
    ensures Qualifying(xs + [a] + ys) == Qualifying(xs + ys)
    decreases |ys|
  {
    if |ys| == 0 {
      assert xs + [a] + ys == xs + [a];
      assert (xs + [a])[..|xs|] == xs;
      assert xs + ys == xs;
    } else {
      var front := ys[..|ys| - 1];
      NonQualifyingIgnored(xs, a, front);
      assert (xs + [a] + ys)[..|xs + [a] + ys| - 1] == xs + [a] + front;
      assert (xs + ys)[..|xs + ys| - 1] == xs + front;
    }
  }

  /** One post per six entries, rounded up, and a single post when there are
      none. */
  lemma PostCount(entries: seq<string>)
    ensures |PlannedPosts(entries)| == if |entries| == 0 then 1 else (|entries| + 5) / 6
  {
  }

  /** The message numbers run 1, 2, ..., in order. */
  lemma PostIndices(entries: seq<string>)
    ensures forall k :: 0 <= k < |PlannedPosts(entries)| ==> PlannedPosts(entries)[k].messageCount == k + 1
  {
  }

  /** Post `k` carries entries 6k up to 6k + 6 (or to the end); every post but
      the last carries six, the last carries the remainder of the division by
      six, or six when that is zero, or none when there are no entries. */
  lemma PostBatches(entries: seq<string>)
    ensures var posts := PlannedPosts(entries);
            && (forall k :: 0 <= k < |posts| ==>
                  6 * k <= |entries|
                  && posts[k].text == Concat(entries[6 * k..if 6 * k + 6 <= |entries| then 6 * k + 6 else |entries|]))
            && (forall k :: 0 <= k < |posts| - 1 ==> 6 * k + 6 <= |entries|)
            && |entries| - 6 * (|posts| - 1)
               == if |entries| % 6 == 0 && |entries| > 0 then 6 else |entries| % 6
  {
    var posts := PlannedPosts(entries);
    var n := |entries| / 6;
    forall k | 0 <= k < |posts|
      ensures 6 * k <= |entries|
      ensures posts[k].text == Concat(entries[6 * k..if 6 * k + 6 <= |entries| then 6 * k + 6 else |entries|])
    {
      if k < n {
        assert posts[k] == FullPosts(entries, n)[k];
        assert 6 * k + 6 <= 6 * n <= |entries|;
      } else {
        assert k == n && 6 * n + 6 > |entries|;
        assert posts[k] == Post(Concat(entries[6 * n..]), n + 1);
        assert entries[6 * n..] == entries[6 * n..|entries|];
      }
    }
  }

  lemma {:induction false} FullPostsCover(entries: seq<string>, m: nat)
    requires 6 * m <= |entries|
    ensures Concat(Texts(FullPosts(entries, m))) == Concat(entries[..6 * m])
    decreases m
  {
    if m > 0 {
      FullPostsCover(entries, m - 1);
      var before := Texts(FullPosts(entries, m - 1));
      var batch := entries[6 * (m - 1)..6 * m];
      assert Texts(FullPosts(entries, m)) == before + [Concat(batch)];
      ConcatAppend(before, [Concat(batch)]);
      assert entries[..6 * m] == entries[..6 * (m - 1)] + batch;
      ConcatAppend(entries[..6 * (m - 1)], batch);
    }
  }

  /** No entry is lost or sent twice: the posted texts, one after another, are
      all the entries, one after another. */
  lemma PostsCoverAll(entries: seq<string>)
    ensures Concat(Texts(PlannedPosts(entries))) == Concat(entries)
  {
    var n := |entries| / 6;
    var full := FullPosts(entries, n);
    var rest := Concat(entries[6 * n..]);
    assert Concat(entries) == Concat(Texts(full)) + rest by {
      FullPostsCover(entries, n);
      assert entries[..6 * n] + entries[6 * n..] == entries;
      ConcatAppend(entries[..6 * n], entries[6 * n..]);
    }
    if |entries| % 6 != 0 || |entries| == 0 {
      assert Texts(PlannedPosts(entries)) == Texts(full) + [rest];
      ConcatAppend(Texts(full), [rest]);
      assert Concat([rest]) == rest by {
        var single := [rest];
        assert single[..0] == [];
      }
    } else {
      assert entries[6 * n..] == [];
      assert PlannedPosts(entries) == full;
    }
  }

  /** With no qualifying article a single post with the empty text is made;
      the "No new articles" line is appended to the running text only after
      that post and is never sent. */
  lemma NothingQualifies(query: string, articles: seq<Article>)
    requires forall k :: 0 <= k < |articles| ==> !CheckPubtype(articles[k].pubtypes)
    ensures PlannedPosts(EntryTexts(query, Qualifying(articles))) == [Post("", 1)]
  {
    NoneQualify(articles);
    assert EntryTexts(query, []) == [];
    NoEntriesOnePost();
  }

  lemma NoEntriesOnePost()
    ensures PlannedPosts([]) == [Post("", 1)]
  {
    var none: seq<string> := [];
    assert FullPosts(none, 0) == [];
    assert none[0..] == none;
  }

  lemma {:induction false} NoneQualify(articles: seq<Article>)
    requires forall k :: 0 <= k < |articles| ==> !CheckPubtype(articles[k].pubtypes)
    ensures Qualifying(articles) == []
    decreases |articles|
  {
    if |articles| > 0 {
      NoneQualify(articles[..|articles| - 1]);
    }
  }
}
