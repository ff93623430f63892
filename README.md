# PubMed → ChatGPT → Slack notifier: batching and rendering, in Dafny

The script `src/Pubmed_ChatGPT_Slack_multiple_keywords.py` runs once a day for
each search term. It looks up yesterday's PubMed articles, keeps those whose
publication type is on an allow-list, and has a chat model summarise each one.
It then posts the summaries to a Slack webhook, six articles per message.

This project models the part of that script that is not I/O:

- **Publication-type filter** (`check_pubtype`), in module `Pubtype`.
- **One attempt of the per-term loop in `main`**, in module `Batching`. The
  loop appends one fixed-format entry per qualifying article to a running
  text. Every sixth entry posts the text and clears it. After the loop there
  is one last post when the count is not a multiple of six, or is zero. The
  method `RunAttempt` carries out that loop over explicit state. The
  specification function `PlannedPosts` gives the list of (text, message
  number) pairs that it hands to `post_to_slack`.
- **The block list that `post_to_slack` builds before the HTTP POST**, in
  module `Slack`. The steps are:
  - blank text becomes "No new articles";
  - the text is stripped and split on `"\n\n\n"` into entries;
  - each entry is split on `"\n\n"`, and entries with fewer than three parts
    are skipped;
  - each kept entry becomes a section block, a context block and a divider,
    after a header block and a message-number block.
  The method `PostToSlack` and its loop `RenderEntries` are proved against
  the specification function `Payload`.
- **The three `re.sub` markdown rewrites**, in module `Markdown`. Each is a
  recursive scanner over the characters. A flag records whether the scanner
  stands at the start of a line of the original text, which is what
  `re.MULTILINE` `^` means.
- **The Python string operations these rely on**, in module `Strings`:
  `split`, `join`, `replace` and `strip` (with `str.isspace`'s character
  set). `Find` is the leftmost search that `split` and `replace` perform; the
  script does not call `str.find` itself. `Concat` is the text that the
  repeated `+=` at line 75 builds. Each is defined directly and then
  characterised by lemmas.
- **The round trip** between the entry written at line 75 and the parse at
  lines 151-155, in module `RoundTrip`, up to the payload of every message
  of an attempt.

When no article qualifies, the one message of the attempt is sent with empty
text. Line 126 turns that text into "No new articles", but lines 151-152 drop
it, because it is a single part. The message therefore carries only the
header and the message-number blocks, and never the words "No new articles"
(`Batching.NothingQualifies`, `Slack.BlankTextPayload`,
`Slack.NoArticlesSkipped`). The "No new articles" entry appended to `output`
at line 84 is never sent either, because it is added after the last post
(`Batching.RunAttempt`'s `output`).

## Model

| member | source | states |
|---|---|---|
| `Pubtype.CheckPubtype` | src/Pubmed_ChatGPT_Slack_multiple_keywords.py:115-116 | `check_pubtype` as `any` over the type list with exact membership in the allow-list of lines 20-28; characterised by `CheckPubtypeSpec` and `CheckPubtypeAppend` |
| `Pubtype.CheckPubtypeSpec` | src/Pubmed_ChatGPT_Slack_multiple_keywords.py:115-116 | an article qualifies exactly when some element of its type list is one of the seven allow-listed strings; an empty list does not qualify |
| `Pubtype.CheckPubtypeAppend` | src/Pubmed_ChatGPT_Slack_multiple_keywords.py:115-116 | `any` over a concatenation is the disjunction of the two halves |
| `Batching.EntryBody` | src/Pubmed_ChatGPT_Slack_multiple_keywords.py:74-75 | one entry as line 75 writes it, without its trailing separator: the notification title with the query, a blank line, the summary, a blank line, the PubMed link; read back by `RoundTrip.EntryRoundTrip` |
| `Batching.EntryText` | src/Pubmed_ChatGPT_Slack_multiple_keywords.py:75 | the text appended to `output` for one article: `EntryBody` followed by the entry separator; characterised by `RoundTrip.BatchEntries` |
| `Batching.PubmedUrl` | src/Pubmed_ChatGPT_Slack_multiple_keywords.py:74 | the link of an article; `RoundTrip.EntryRoundTrip` shows it comes back as the link of the parsed entry |
| `Batching.NoArticlesText` | src/Pubmed_ChatGPT_Slack_multiple_keywords.py:84 | the text appended when nothing qualified; `Batching.RunAttempt` shows it is left in `output` after the last post |
| `Batching.PlannedPosts` | src/Pubmed_ChatGPT_Slack_multiple_keywords.py:76-82 | the closed form of the posts of one attempt: a post per full batch of six and one final post for a partial batch or when there is none; characterised by `PostCount`, `PostIndices`, `PostBatches` and `PostsCoverAll`, and reached by `RunAttempt` |
| `Batching.RunAttempt` | src/Pubmed_ChatGPT_Slack_multiple_keywords.py:47-84 | the loop with its counters and running text makes exactly the posts `PlannedPosts` lists for the qualifying articles' entries; the paper count is the number of qualifying articles; the message count is the number of posts; and what is left in `output` is the unsent remainder, or the "No new articles" entry when nothing qualified |
| `Batching.Accumulate` | src/Pubmed_ChatGPT_Slack_multiple_keywords.py:50-79 | after the loop over ids, `paper_count` counts the qualifying articles, `message_count` is `paper_count // 6`, the in-loop posts are the full batches of six in order, and `output` holds the entries after the last full batch |
| `Batching.Skip` | src/Pubmed_ChatGPT_Slack_multiple_keywords.py:52-55 | an id whose type check fails leaves the loop state exactly as it was |
| `Batching.Take` | src/Pubmed_ChatGPT_Slack_multiple_keywords.py:56-79 | a qualifying id appends its entry, and on every sixth one posts the running text with the next message number and clears it |
| `Batching.QualifyingMembers` | src/Pubmed_ChatGPT_Slack_multiple_keywords.py:52-56 | an article is processed exactly when it is among the ids and passes the type check |
| `Batching.NonQualifyingIgnored` | src/Pubmed_ChatGPT_Slack_multiple_keywords.py:52-55 | removing an article that fails the type check changes nothing that is processed |
| `Batching.PostCount` | src/Pubmed_ChatGPT_Slack_multiple_keywords.py:76-82 | an attempt with N qualifying articles posts ⌈N/6⌉ times, and once when N = 0 |
| `Batching.PostIndices` | src/Pubmed_ChatGPT_Slack_multiple_keywords.py:77-81 | the message numbers passed are 1, 2, …, m in order |
| `Batching.PostBatches` | src/Pubmed_ChatGPT_Slack_multiple_keywords.py:75-82 | post k carries entries 6k … 6k+5; every post but the last carries six; the last carries N mod 6, or six when N is a positive multiple of six, or none when N = 0 |
| `Batching.FullPostsCover` | src/Pubmed_ChatGPT_Slack_multiple_keywords.py:76-79 | the in-loop posts, read one after another, are exactly the entries of the full batches |
| `Batching.PostsCoverAll` | src/Pubmed_ChatGPT_Slack_multiple_keywords.py:75-82 | every entry is sent once and none twice: the posted texts, concatenated, are all the entries in order |
| `Batching.NothingQualifies` | src/Pubmed_ChatGPT_Slack_multiple_keywords.py:80-82 | when no article qualifies, exactly one post is made, with empty text and message number 1 |
| `Batching.NoneQualify` | src/Pubmed_ChatGPT_Slack_multiple_keywords.py:52-55 | when every article fails the type check, none is processed |
| `Batching.Qualifying` | src/Pubmed_ChatGPT_Slack_multiple_keywords.py:52-55 | no more articles are processed than there are ids, and each one processed passes the type check |
| `Batching.QualifyingAppend` | src/Pubmed_ChatGPT_Slack_multiple_keywords.py:52-55 | filtering keeps order and multiplicity: the articles processed from two runs of ids are those of the first run followed by those of the second |
| `Slack.HeaderText` | src/Pubmed_ChatGPT_Slack_multiple_keywords.py:123 | the header line, with the query and the search date; `Slack.PayloadShape` places it first |
| `Slack.IndexText` | src/Pubmed_ChatGPT_Slack_multiple_keywords.py:143 | the bold message-number line; `Slack.PayloadShape` places it second |
| `Slack.NatToString` | src/Pubmed_ChatGPT_Slack_multiple_keywords.py:143 | the message number written in decimal digits, as the f-string writes it |
| `Slack.Entries` | src/Pubmed_ChatGPT_Slack_multiple_keywords.py:125-129 | blank text becomes "No new articles", then the text is stripped and split on `"\n\n\n"`; characterised by `BlankEntries` and `RoundTrip.BatchEntries` |
| `Slack.ParseEntry` | src/Pubmed_ChatGPT_Slack_multiple_keywords.py:149-155 | a blank entry, or one with fewer than three `"\n\n"` parts, gives nothing; otherwise the title line without the notification words, stripped, the middle parts joined by single line breaks, and the last part as the link; characterised by `RoundTrip.EntryRoundTrip`, `NoArticlesSkipped` and `RoundTrip.DroppedPieces` |
| `Slack.ParseParts` | src/Pubmed_ChatGPT_Slack_multiple_keywords.py:152-155 | the three-part test and the reading of title, summary and link out of the parts; used by `ParseEntry` |
| `Slack.EntryBlocks` | src/Pubmed_ChatGPT_Slack_multiple_keywords.py:166-186 | the section with the bold title and the normalised summary, the context with the link, and the divider; placed by `ArticleBlocksShape` and `PayloadShape` |
| `Slack.Kept` | src/Pubmed_ChatGPT_Slack_multiple_keywords.py:148-152 | the entries that parse, in order; characterised by `ParseAllAt` and `RoundTrip.BatchKept` |
| `Slack.ArticleBlocks` | src/Pubmed_ChatGPT_Slack_multiple_keywords.py:148-186 | the blocks added by the loop over entries; characterised by `ArticleBlocksShape` and reached by `RenderEntries` |
| `Slack.Payload` | src/Pubmed_ChatGPT_Slack_multiple_keywords.py:131-186 | the `blocks` list: header, message number, then the blocks of every kept entry; characterised by `PayloadShape` and `BlankTextPayload`, and reached by `PostToSlack` |
| `Slack.PostToSlack` | src/Pubmed_ChatGPT_Slack_multiple_keywords.py:118-190 | without a webhook URL nothing is built; otherwise the payload is the header block, the message-number block and three blocks per kept entry |
| `Slack.RenderEntries` | src/Pubmed_ChatGPT_Slack_multiple_keywords.py:148-186 | the loop over entries extends the block list with the three blocks of every entry that parses, in order, and skips the rest |
| `Slack.PayloadShape` | src/Pubmed_ChatGPT_Slack_multiple_keywords.py:131-186 | the payload has 2 + 3K blocks for K kept entries; the first two are the header and the message number, and blocks 2+3k … 4+3k render entry k |
| `Slack.BlankTextPayload` | src/Pubmed_ChatGPT_Slack_multiple_keywords.py:125-152 | blank or whitespace-only text gives only the header and message-number blocks |
| `Slack.BlankEntries` | src/Pubmed_ChatGPT_Slack_multiple_keywords.py:125-129 | blank text becomes the single entry "No new articles" |
| `Slack.NoArticlesSkipped` | src/Pubmed_ChatGPT_Slack_multiple_keywords.py:149-152 | "No new articles" has one part, so it is never rendered |
| `Slack.ArticleBlocksShape` | src/Pubmed_ChatGPT_Slack_multiple_keywords.py:166-186 | every kept entry contributes exactly its three blocks, at positions 3k … 3k+2 |
| `Slack.ParseAllAt` | src/Pubmed_ChatGPT_Slack_multiple_keywords.py:148-152 | every entry is parsed independently of the others |
| `Markdown.Normalise` | src/Pubmed_ChatGPT_Slack_multiple_keywords.py:157-164 | the three rewrites in the order the code applies them: bullets, then bold, then headings |
| `Markdown.Bullets` | src/Pubmed_ChatGPT_Slack_multiple_keywords.py:158 | `re.sub(r'^[-*]\s', '• ', …, flags=re.MULTILINE)`: at the start of a line, `-` or `*` followed by one whitespace character becomes "• "; characterised by the `Bullets…` lemmas below |
| `Markdown.BulletsLength` | src/Pubmed_ChatGPT_Slack_multiple_keywords.py:158 | the bullet rewrite replaces a two-character prefix with the two-character "• ", so the length does not change |
| `Markdown.BulletsLeaveNoMarker` | src/Pubmed_ChatGPT_Slack_multiple_keywords.py:158 | after the rewrite no line starts with `-` or `*` followed by whitespace |
| `Markdown.BulletsIdentity` | src/Pubmed_ChatGPT_Slack_multiple_keywords.py:158 | text with no such line is unchanged |
| `Markdown.BulletsIdempotent` | src/Pubmed_ChatGPT_Slack_multiple_keywords.py:158 | rewriting twice is rewriting once |
| `Markdown.BulletsAt` | src/Pubmed_ChatGPT_Slack_multiple_keywords.py:158 | position by position, anywhere in the text: a `-` or `*` that starts a line and is followed by whitespace becomes `•`, that whitespace becomes a space, and every other character is kept where it was |
| `Markdown.BulletItem` | src/Pubmed_ChatGPT_Slack_multiple_keywords.py:158 | a line `- item` or `* item` becomes `• item` |
| `Markdown.Bold` | src/Pubmed_ChatGPT_Slack_multiple_keywords.py:161 | `re.sub(r'\*\*(.*?)\*\*', r'*\1*', …)`: from the left, a `**` that `CloseAt` closes becomes a single `*` on each side; characterised by `BoldOnlyDropsAsterisks`, `BoldIdentity` and `BoldSpan` |
| `Markdown.BoldOnlyDropsAsterisks` | src/Pubmed_ChatGPT_Slack_multiple_keywords.py:161 | the bold rewrite only removes asterisks: with every asterisk deleted, input and output agree |
| `Markdown.BoldIdentity` | src/Pubmed_ChatGPT_Slack_multiple_keywords.py:161 | text without `**` is unchanged |
| `Markdown.BoldSpan` | src/Pubmed_ChatGPT_Slack_multiple_keywords.py:161 | a `**x**` span whose `x` has no line break, no `**` and no final `*` becomes `*x*`, and the rewrite carries on after it |
| `Markdown.BoldCopy` | src/Pubmed_ChatGPT_Slack_multiple_keywords.py:161 | text holding no `*` is copied unchanged, and the rewrite of what follows it is unaffected by it |
| `Markdown.BoldSpanAfter` | src/Pubmed_ChatGPT_Slack_multiple_keywords.py:161 | the `BoldSpan` rewrite holds at any position after text holding no `*`, not only at the start |
| `Markdown.CloseAt` | src/Pubmed_ChatGPT_Slack_multiple_keywords.py:161 | the lazy `(.*?)` closes at the first `**` after the opening one, with no line break in between; when there is none the opening `**` is left as it is |
| `Markdown.Headers` | src/Pubmed_ChatGPT_Slack_multiple_keywords.py:164 | `re.sub(r'^###\s*(.*?)$', r'*\1*', …, flags=re.MULTILINE)`: a line starting with `###` loses the `###` and the whitespace after it, and the rest of the line is starred; characterised by the `Headers…` lemmas and `HeadingLine` |
| `Markdown.HeadersLeaveNoHeading` | src/Pubmed_ChatGPT_Slack_multiple_keywords.py:164 | after the rewrite no line starts with `###` |
| `Markdown.HeadersIdentity` | src/Pubmed_ChatGPT_Slack_multiple_keywords.py:164 | text with no `###` line is unchanged |
| `Markdown.HeadersIdempotent` | src/Pubmed_ChatGPT_Slack_multiple_keywords.py:164 | rewriting twice is rewriting once |
| `Markdown.HeadingLine` | src/Pubmed_ChatGPT_Slack_multiple_keywords.py:164 | a line `###`, then whitespace (line breaks included, as `\s*` allows), then a heading becomes `*heading*` |
| `Markdown.HeadersAfterLine` | src/Pubmed_ChatGPT_Slack_multiple_keywords.py:164 | a line that does not start with `###` is copied unchanged with its line break, and the next line is rewritten as the start of a line |
| `Markdown.HeadingLineAfter` | src/Pubmed_ChatGPT_Slack_multiple_keywords.py:164 | the `HeadingLine` rewrite holds for a heading on any line that follows a non-heading line |
| `Markdown.SpaceRunEndIs` | src/Pubmed_ChatGPT_Slack_multiple_keywords.py:164 | the greedy `\s*` stops at the first non-whitespace character |
| `Markdown.LineEndIs` | src/Pubmed_ChatGPT_Slack_multiple_keywords.py:164 | the lazy `.*?` followed by `$` stops at the first line break or at the end |
| `Markdown.SpaceRunEnd` | src/Pubmed_ChatGPT_Slack_multiple_keywords.py:164 | the end of the run of whitespace at a position: all whitespace before it, a non-space or the end after it |
| `Markdown.LineEnd` | src/Pubmed_ChatGPT_Slack_multiple_keywords.py:164 | the end of the line at a position: no line break before it, a line break or the end after it |
| `Strings.IsSpace` | src/Pubmed_ChatGPT_Slack_multiple_keywords.py:125 | the characters `str.isspace` accepts, which are also those `\s` matches in a `str` pattern |
| `Strings.Find` | src/Pubmed_ChatGPT_Slack_multiple_keywords.py:151 | the leftmost search that `split` (line 151) and `replace` (line 153) perform, giving the index of the first occurrence; the script never calls `str.find`; characterised by `FindSpec` |
| `Strings.Split` | src/Pubmed_ChatGPT_Slack_multiple_keywords.py:151 | `str.split` with a non-empty separator; characterised by `SplitPieces`, `JoinSplit`, `SplitJoin`, `SplitNone` and `SplitAppend` |
| `Strings.Join` | src/Pubmed_ChatGPT_Slack_multiple_keywords.py:154 | `str.join`; its link with `Split` is `JoinSplit` and `SplitJoin` |
| `Strings.Replace` | src/Pubmed_ChatGPT_Slack_multiple_keywords.py:153 | `str.replace` of every non-overlapping occurrence from the left; characterised by `ReplaceSpec` |
| `Strings.LStrip` | src/Pubmed_ChatGPT_Slack_multiple_keywords.py:129 | `str.lstrip`; characterised by `LStripSpec` |
| `Strings.RStrip` | src/Pubmed_ChatGPT_Slack_multiple_keywords.py:129 | `str.rstrip`; characterised by `RStripSpec` |
| `Strings.Strip` | src/Pubmed_ChatGPT_Slack_multiple_keywords.py:129 | `str.strip`, as `rstrip` after `lstrip`; characterised by `StripEmpty` and `StripFramed` |
| `Strings.Concat` | src/Pubmed_ChatGPT_Slack_multiple_keywords.py:75 | the running text that the repeated `output +=` builds, as the entries written one after another; no `"".join` is called; characterised by `ConcatAppend` |
| `Strings.FindSpec` | src/Pubmed_ChatGPT_Slack_multiple_keywords.py:151 | the search returns the leftmost occurrence, and nothing exactly when there is none |
| `Strings.SplitPieces` | src/Pubmed_ChatGPT_Slack_multiple_keywords.py:151 | no piece of a split contains the separator |
| `Strings.JoinSplit` | src/Pubmed_ChatGPT_Slack_multiple_keywords.py:151 | joining the pieces of a split with the separator gives back the text |
| `Strings.SplitJoin` | src/Pubmed_ChatGPT_Slack_multiple_keywords.py:129 | splitting a join gives back the pieces, when no piece lets the separator start early |
| `Strings.SplitNone` | src/Pubmed_ChatGPT_Slack_multiple_keywords.py:151 | a text without the separator splits into itself alone |
| `Strings.SplitAppend` | src/Pubmed_ChatGPT_Slack_multiple_keywords.py:129 | splitting two texts glued by a separator of line breaks splits each separately, when the first does not end in a line break |
| `Strings.ReplaceSpec` | src/Pubmed_ChatGPT_Slack_multiple_keywords.py:153 | `replace` is split on the pattern, then join with the replacement |
| `Strings.LStripSpec` | src/Pubmed_ChatGPT_Slack_multiple_keywords.py:129 | `lstrip` drops exactly the leading whitespace: what it drops is all whitespace, and what is left is a suffix that starts with a non-space |
| `Strings.RStripSpec` | src/Pubmed_ChatGPT_Slack_multiple_keywords.py:129 | `rstrip` drops exactly the trailing whitespace |
| `Strings.StripEmpty` | src/Pubmed_ChatGPT_Slack_multiple_keywords.py:125 | `strip` gives the empty string exactly when the text is all whitespace |
| `Strings.StripFramed` | src/Pubmed_ChatGPT_Slack_multiple_keywords.py:153 | stripping removes whitespace framing and nothing inside |
| `Strings.ConcatAppend` | src/Pubmed_ChatGPT_Slack_multiple_keywords.py:75 | appending to the running text is concatenation |
| `RoundTrip.EntryRoundTrip` | src/Pubmed_ChatGPT_Slack_multiple_keywords.py:72-155 | for a well-formed article (`WellFormed`), an entry built at line 75 is parsed back into the title "(query)", the summary with each blank-line pair collapsed to one line break, and the PubMed link |
| `RoundTrip.EntryRoundTripExact` | src/Pubmed_ChatGPT_Slack_multiple_keywords.py:72-155 | for a well-formed article (`WellFormed`) whose summary holds no blank line, the summary comes back unchanged |
| `RoundTrip.BatchEntries` | src/Pubmed_ChatGPT_Slack_multiple_keywords.py:75-129 | the text of a non-empty batch of well-formed articles (`WellFormed`) splits back into exactly its entries |
| `RoundTrip.BatchKept` | src/Pubmed_ChatGPT_Slack_multiple_keywords.py:75-155 | every entry of a batch of well-formed articles is kept, and parses to what was written |
| `RoundTrip.BatchPayload` | src/Pubmed_ChatGPT_Slack_multiple_keywords.py:75-186 | a batch of k well-formed articles (`WellFormed`) renders to 2 + 3k blocks |
| `RoundTrip.AttemptPayloads` | src/Pubmed_ChatGPT_Slack_multiple_keywords.py:47-186 | in an attempt whose qualifying articles are well formed, message k has 2 + 3·(size of batch k) blocks: 6 for full batches, the remainder for the last, none when nothing qualified |
| `RoundTrip.EmptyContentDropped` | src/Pubmed_ChatGPT_Slack_multiple_keywords.py:72-152 | a message whose text is the entry of one article with an empty summary has just the header and message-number blocks: that entry falls apart into two one-part pieces, both skipped |
| `RoundTrip.DroppedPieces` | src/Pubmed_ChatGPT_Slack_multiple_keywords.py:149-152 | a one-line piece, or a line break followed by one line, has fewer than three parts and is skipped |

## Left out

- Fetching ids, summaries and abstracts from the E-utilities (lines 98-113) is
  HTTP plus JSON and XML parsing. An attempt instead takes the sequence of
  articles, each with its id, its type list and its summary.
- The abstract fetch and the OpenAI completion call (lines 36, 57-72) are
  network I/O and a foreign API. The
  stripped answer is the `content` field of `Batching.Article`.
- The Slack POST and its error handling (lines 192-205) are network I/O. The
  model stops at the payload, as a list of `Slack.Block` values rather than
  JSON.
- The `while True` retry loop with its 300- and 60-second sleeps (lines
  43-44, 86-93) has no termination bound and is driven by exceptions.
  `RunAttempt` is one attempt. Each attempt starts from fresh counters and
  an empty text (lines 47-49). Posts from a failed attempt are not undone.
- The environment and configuration (lines 12-18) are not modelled. The loop
  over search terms (line 42) is a call of `RunAttempt` per term.
- The date arithmetic and `strftime` (lines 38-39, 95-96) are not modelled:
  the search date is a string parameter.
- `print` logging is not modelled.
- A webhook URL of `None` and the empty string both count as unset (`not
  webhook_url`). The model takes a string, with `""` standing for both.
- `Slack.NatToString` writes the message number in decimal, like the
  f-string at line 143. No property of it is stated beyond what the
  payload shape needs.
- `RoundTrip.WellFormed` names the articles for which an entry survives the
  trip unchanged:
  - the query has no blank line and does not contain the notification words;
  - the summary is non-empty, already stripped, and has no run of three
    line breaks;
  - the id has no whitespace.
  Outside these conditions the code can cut or merge entries. The model
  states what happens then only for an empty summary (`EmptyContentDropped`).
- RoundTrip.EntryRoundTrip holds only for well-formed articles (`WellFormed`).
- RoundTrip.EntryRoundTripExact holds only for well-formed articles whose summary has no blank line.
- RoundTrip.BatchEntries holds only for a non-empty batch of well-formed articles.
- RoundTrip.BatchKept holds only for a non-empty batch of well-formed articles.
- RoundTrip.BatchPayload holds only for a batch of well-formed articles; `Slack.PayloadShape` gives the block count for any text.
- RoundTrip.AttemptPayloads holds only when every qualifying article is well formed.
- `Markdown`: `re.sub` is modelled by three scanners written for these three
  patterns, not by a general regular-expression engine.
