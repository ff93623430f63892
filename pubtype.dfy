/** The publication-type filter (`check_pubtype`). */
module Pubtype {

  /** The fixed allow-list of PubMed publication types. */
  const AllowedPubtypes: seq<string> := [
    "Journal Article",
    "Books and Documents",
    "Clinical Trial",
    "Meta-Analysis",
    "Randomized Controlled Trial",
    "Review",
    "Systematic Review"
  ]

  /** `check_pubtype`: an article qualifies when at least one of its types is on
      the allow-list (compared as exact, case-sensitive strings). */
  function CheckPubtype(pubtypes: seq<string>): bool
    decreases |pubtypes|
  {
    if |pubtypes| == 0 then false
    else pubtypes[0] in AllowedPubtypes || CheckPubtype(pubtypes[1..])
  }

  /** The check holds exactly when some listed type is on the allow-list. */
  lemma {:induction false} CheckPubtypeSpec(pubtypes: seq<string>)
    ensures CheckPubtype(pubtypes) <==> exists k :: 0 <= k < |pubtypes| && pubtypes[k] in AllowedPubtypes
    decreases |pubtypes|
  {
    if |pubtypes| > 0 {
      var rest := pubtypes[1..];
      CheckPubtypeSpec(rest);
      if CheckPubtype(rest) {
        var k :| 0 <= k < |rest| && rest[k] in AllowedPubtypes;
        assert pubtypes[k + 1] == rest[k];
      }
      if exists k :: 0 <= k < |pubtypes| && pubtypes[k] in AllowedPubtypes {
        var k :| 0 <= k < |pubtypes| && pubtypes[k] in AllowedPubtypes;
        if k > 0 {
          assert rest[k - 1] == pubtypes[k];
        }
      }
    }
  }

  /** The verdict depends only on which types are listed, not on their order
      or on how the list is cut into pieces. */
  lemma {:induction false} CheckPubtypeAppend(a: seq<string>, b: seq<string>)
    ensures CheckPubtype(a + b) == (CheckPubtype(a) || CheckPubtype(b))
  {
    CheckPubtypeSpec(a);
    CheckPubtypeSpec(b);
    CheckPubtypeSpec(a + b);
    if CheckPubtype(a) {
      var k :| 0 <= k < |a| && a[k] in AllowedPubtypes;
      assert (a + b)[k] == a[k];
    } else if CheckPubtype(b) {
      var k :| 0 <= k < |b| && b[k] in AllowedPubtypes;
      assert (a + b)[|a| + k] == b[k];
    } else {
      forall k | 0 <= k < |a + b| ensures (a + b)[k] !in AllowedPubtypes {
        if k < |a| {
          assert (a + b)[k] == a[k];
        } else {
          assert (a + b)[k] == b[k - |a|];
        }
      }
    }
  }

}
