/** Building the chat message for one batch (`post_to_slack` up to the HTTP
    request): the accumulated text is cut back into article entries, each entry
    into title, summary and link, and every well-formed entry becomes three
    blocks after a header block and a message-number block. */
module Slack {

  import opened Wrappers
  import opened Strings
  import opened Markdown

  /** The block kinds the message uses. */
  datatype Block =
    | Header(plainText: string)
    | Section(mrkdwn: string)
    | Context(mrkdwn: string)
    | Divider

  /** One article entry read back from the text. */
  datatype ParsedEntry = ParsedEntry(title: string, content: string, url: string)

  /** Between two article entries. */
  const EntrySep: string := "\n\n\n"
  /** Between the title line, the summary and the link of one entry. */
  const PartSep: string := "\n\n"
  /** The leading words of an entry's title line, removed when it is read back. */
  const NotificationPrefix: string := "New PubMed Article Notification"
  /** What stands in for a blank text. */
  const NoNewArticles: string := "No new articles"

  /** The decimal digits of `n`, as an f-string prints an int. */
  function NatToString(n: nat): string
    decreases n
  {
    if n < 10 then ["0123456789"[n]] else NatToString(n / 10) + ["0123456789"[n % 10]]
  }

  function HeaderText(query: string, searchDate: string): string {
    "New Article Notification (" + query + ") - Search Date: " + searchDate
  }

  function IndexText(messageCount: nat): string {
    "*New Article Notification - Message " + NatToString(messageCount) + "*"
  }

  /** The entries the text is cut into: a blank text is replaced by
      "No new articles", then stripped and split on blank-line pairs. */
  function Entries(text: string): seq<string> {
    var t := if Strip(text) == "" then NoNewArticles else text;
    Split(Strip(t), EntrySep)
  }

  /** One entry read back, or nothing when it is blank or has fewer than three
      parts (such an entry is skipped without any error). */
  function ParseEntry(entry: string): Option<ParsedEntry> {
    if Strip(entry) == "" then None else ParseParts(Split(entry, PartSep))
  }

  /** The title line without the notification words, the middle parts joined
      by single line breaks, and the last part as the link. */
  function ParseParts(parts: seq<string>): Option<ParsedEntry> {
    if |parts| < 3 then None
    else
      Some(ParsedEntry(
        Strip(Replace(parts[0], NotificationPrefix, "")),
        Join(parts[1..|parts| - 1], "\n"),
        parts[|parts| - 1]))
  }

  /** Section with bold title and normalised summary, link context, divider. */
  function EntryBlocks(p: ParsedEntry): seq<Block> {
    [Section("*" + p.title + "*\n" + Normalise(p.content)),
     Context("<" + p.url + "|PubMed URL>"),
     Divider]
  }

  /** Every entry read back, in order. */
  function ParseAll(entries: seq<string>): seq<Option<ParsedEntry>> {
    MapSeq(ParseEntry, entries)
  }

  lemma ParseAllAt(entries: seq<string>)
    ensures |ParseAll(entries)| == |entries|
    ensures forall k :: 0 <= k < |entries| ==> ParseAll(entries)[k] == ParseEntry(entries[k])
  {
    MapSeqAt(ParseEntry, entries);
  }

  /** The entries that are rendered, in order. */
  function Kept(entries: seq<string>): seq<ParsedEntry> {
    Somes(ParseAll(entries))
  }

  function ArticleBlocks(ps: seq<ParsedEntry>): seq<Block>
    decreases |ps|
  {
    if |ps| == 0 then [] else ArticleBlocks(ps[..|ps| - 1]) + EntryBlocks(ps[|ps| - 1])
  }

  /** The `blocks` list of the message for `text`. */
  function Payload(text: string, query: string, searchDate: string, messageCount: nat): seq<Block> {
    [Header(HeaderText(query, searchDate)), Section(IndexText(messageCount))]
      + ArticleBlocks(Kept(Entries(text)))
  }

  /** `post_to_slack` up to the request: no webhook URL means nothing is built
      (the empty string stands for an unset URL too). */
  method PostToSlack(webhookUrl: string, text: string, query: string, searchDate: string,
                     messageCount: nat)
    returns (payload: Option<seq<Block>>)
    ensures webhookUrl == "" ==> payload == None
    ensures webhookUrl != "" ==> payload == Some(Payload(text, query, searchDate, messageCount))
  {
    if webhookUrl == "" {
      return None;
    }
    var header := HeaderText(query, searchDate);
    var paperEntries := Entries(text);
    var articleBlocks := RenderEntries(paperEntries);
    payload := Some([Header(header), Section(IndexText(messageCount))] + articleBlocks);
  }

  /** The loop over the entries in `post_to_slack`, appending the blocks of
      every entry that is kept. */
  method RenderEntries(paperEntries: seq<string>) returns (blocks: seq<Block>)
    ensures blocks == ArticleBlocks(Kept(paperEntries))
  {
    blocks := [];
    for i := 0 to |paperEntries|
      invariant blocks == ArticleBlocks(Kept(paperEntries[..i]))
    {
      var parsed := ParseEntry(paperEntries[i]);
      KeptSnoc(paperEntries, i);
      match parsed
      case None =>
      case Some(p) =>
        ArticleBlocksSnoc(Kept(paperEntries[..i]), p);
        blocks := blocks + EntryBlocks(p);
    }
    assert paperEntries[..|paperEntries|] == paperEntries;
  }

  lemma KeptSnoc(entries: seq<string>, i: nat)
    requires i < |entries|
    ensures ParseEntry(entries[i]).None? ==> Kept(entries[..i + 1]) == Kept(entries[..i])
    ensures ParseEntry(entries[i]).Some? ==>
              Kept(entries[..i + 1]) == Kept(entries[..i]) + [ParseEntry(entries[i]).value]
  {
    var xs := ParseAll(entries[..i]);
    var x := ParseEntry(entries[i]);
    MapSeqSnoc(ParseEntry, entries, i);
    SomesAppend(xs, [x]);
    var single := [x];
    assert single[..0] == [];
  }

  lemma ArticleBlocksSnoc(ps: seq<ParsedEntry>, p: ParsedEntry)
    ensures ArticleBlocks(ps + [p]) == ArticleBlocks(ps) + EntryBlocks(p)
  {
    assert (ps + [p])[..|ps|] == ps;
  }

  // ---------------------------------------------------------------------------
  // What the message looks like

  /** Three blocks per rendered entry: its section, its link, a divider. */
  lemma {:induction false} ArticleBlocksShape(ps: seq<ParsedEntry>)
    ensures |ArticleBlocks(ps)| == 3 * |ps|
    ensures forall k :: 0 <= k < |ps| ==>
              ArticleBlocks(ps)[3 * k..3 * k + 3] == EntryBlocks(ps[k])
    decreases |ps|
  {
    if |ps| > 0 {
      var front := ps[..|ps| - 1];
      ArticleBlocksShape(front);
      var b := ArticleBlocks(ps);
      assert b == ArticleBlocks(front) + EntryBlocks(ps[|ps| - 1]);
      forall k | 0 <= k < |ps| ensures b[3 * k..3 * k + 3] == EntryBlocks(ps[k]) {
        if k < |ps| - 1 {
          assert b[3 * k..3 * k + 3] == ArticleBlocks(front)[3 * k..3 * k + 3];
          assert front[k] == ps[k];
        }
      }
    }
  }

  /** The message starts with the header and the message-number section and
      then holds three blocks for each entry that is kept, in order. */
  lemma PayloadShape(text: string, query: string, searchDate: string, messageCount: nat)
    ensures var p := Payload(text, query, searchDate, messageCount);
            var ps := Kept(Entries(text));
            && |p| == 2 + 3 * |ps|
            && p[0] == Header(HeaderText(query, searchDate))
            && p[1] == Section(IndexText(messageCount))
            && forall k :: 0 <= k < |ps| ==> p[2 + 3 * k..5 + 3 * k] == EntryBlocks(ps[k])
  {
    PrefixedShape([Header(HeaderText(query, searchDate)), Section(IndexText(messageCount))],
                  Kept(Entries(text)));
  }

  lemma PrefixedShape(prefix: seq<Block>, ps: seq<ParsedEntry>)
    requires |prefix| == 2
    ensures var p := prefix + ArticleBlocks(ps);
            && |p| == 2 + 3 * |ps|
            && p[..2] == prefix
            && forall k :: 0 <= k < |ps| ==> p[2 + 3 * k..5 + 3 * k] == EntryBlocks(ps[k])
  {
    var p := prefix + ArticleBlocks(ps);
    ArticleBlocksShape(ps);
    forall k | 0 <= k < |ps| ensures p[2 + 3 * k..5 + 3 * k] == EntryBlocks(ps[k]) {
      assert p[2 + 3 * k..5 + 3 * k] == ArticleBlocks(ps)[3 * k..3 * k + 3];
    }
  }

  /** A blank text yields just the header and the message-number section: the
      "No new articles" stand-in is a single part and is itself skipped. */
  lemma BlankTextPayload(text: string, query: string, searchDate: string, messageCount: nat)
    requires AllSpace(text)
    ensures Payload(text, query, searchDate, messageCount)
         == [Header(HeaderText(query, searchDate)), Section(IndexText(messageCount))]
  {
    BlankEntries(text);
    NoArticlesSkipped();
    var none: seq<Option<ParsedEntry>> := [None];
    ParseAllAt([NoNewArticles]);
    assert ParseAll([NoNewArticles]) == none;
    assert none[..0] == [];
  }

  lemma BlankEntries(text: string)
    requires AllSpace(text)
    ensures Entries(text) == [NoNewArticles]
  {
    StripEmpty(text);
    SingleLine(NoNewArticles);
  }

  /** A single stripped line is one entry, and one part. */
  lemma SingleLine(s: string)
    requires NoNewline(s) && |s| > 0 && !IsSpace(s[0]) && !IsSpace(s[|s| - 1])
    ensures Strip(s) == s
    ensures Split(s, EntrySep) == [s] && Split(s, PartSep) == [s]
  {
    StripFramed("", s, "");
    assert "" + s + "" == s;
    NoNewlineNoOcc(s, EntrySep);
    NoNewlineNoOcc(s, PartSep);
    SplitNone(s, EntrySep);
    SplitNone(s, PartSep);
  }

  /** "No new articles" has no part separator, so it is never rendered. */
  lemma NoArticlesSkipped()
    ensures ParseEntry(NoNewArticles) == None
  {
    SingleLine(NoNewArticles);
  }
}
