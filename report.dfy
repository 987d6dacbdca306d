/**
 * `process_issues`: for every issue, the participants (reporter, assignee,
 * watchers and the authors of recent comments), the highlight and lowlight
 * snippets of its recent comments, and a report row when any snippet was
 * found. The watcher and comment lists that the original fetches over HTTP
 * for each issue arrive here as part of the input.
 */
module Report {
  import opened Options
  import opened Recency
  import opened Labels
  import opened Cleanup

  /** One comment: its author's display name, creation time and text. */
  datatype Comment = Comment(author: string, created: Timestamp, body: string)

  /** The fields of an issue that the report reads. `assignee` is the
      assignee's display name when the issue has one. */
  datatype Issue = Issue(
    key: string,
    summary: string,
    description: Option<string>,
    reporter: string,
    assignee: Option<string>)

  /** An issue together with the two lists fetched for it: the display names
      of its watchers and its comments, in the tracker's order. */
  datatype Ticket = Ticket(issue: Issue, watchers: seq<string>, comments: seq<Comment>)

  /** A report row. Participants stay a set: the order in which the original
      joins them is Python's set iteration order, which is unspecified. */
  datatype Row = Row(
    ticketNumber: string,
    title: string,
    description: string,
    participants: set<string>,
    highlights: string,
    lowlights: string)

  const NoDescription: string := "No description available"
  const Separator: string := " | "

  /** `description or 'No description available'`: an absent or empty
      description is replaced by the placeholder. */
  function DescriptionText(description: Option<string>): (r: string)
    ensures r != []
    ensures description.Some? && description.value != [] ==> r == description.value
    ensures description.None? || description.value == [] ==> r == NoDescription
  {
    match description
    case Some(d) => if d != [] then d else NoDescription
    case None => NoDescription
  }

  /** `sep.join(parts)`. */
  function Join(parts: seq<string>, sep: string): (r: string)
    ensures parts == [] ==> r == []
    ensures |parts| == 1 ==> r == parts[0]
    decreases |parts|
  {
    if parts == [] then []
    else if |parts| == 1 then parts[0]
    else parts[0] + sep + Join(parts[1..], sep)
  }

  /** Joining non-empty parts gives the empty string only for no parts. */
  lemma JoinEmptyIff(parts: seq<string>, sep: string)
    requires forall i :: 0 <= i < |parts| ==> parts[i] != []
    ensures Join(parts, sep) == [] <==> parts == []
  {
    if |parts| > 1 {
      assert |Join(parts, sep)| >= |parts[0]| > 0;
    }
  }

  lemma AppendAssociative<T>(a: seq<T>, b: seq<T>, c: seq<T>)
    ensures (a + b) + c == a + (b + c)
  {
  }

  /** Joining one more part puts the separator between it and the rest. */
  lemma {:induction false} JoinSnoc(parts: seq<string>, p: string, sep: string)
    requires parts != []
    ensures Join(parts + [p], sep) == Join(parts, sep) + sep + p
    decreases |parts|
  {
    if |parts| > 1 {
      assert (parts + [p])[1..] == parts[1..] + [p];
      JoinSnoc(parts[1..], p, sep);
    }
  }

  /** Display names of the authors of the recent comments among `cs`. */
  function RecentAuthors(cs: seq<Comment>, now: Timestamp): (r: set<string>)
    ensures r <= set c | c in cs :: c.author
  {
    if cs == [] then {}
    else
      var last := cs[|cs| - 1];
      RecentAuthors(cs[..|cs| - 1], now) + (if IsRecent(last.created, now) then {last.author} else {})
  }

  /** A name is a recent author exactly when some recent comment is by it. */
  lemma {:induction false} RecentAuthorsIff(cs: seq<Comment>, now: Timestamp, name: string)
    ensures name in RecentAuthors(cs, now) <==>
      exists i :: 0 <= i < |cs| && IsRecent(cs[i].created, now) && cs[i].author == name
  {
    if cs != [] {
      var init := cs[..|cs| - 1];
      RecentAuthorsIff(init, now, name);
      if exists i :: 0 <= i < |init| && IsRecent(init[i].created, now) && init[i].author == name {
        var i :| 0 <= i < |init| && IsRecent(init[i].created, now) && init[i].author == name;
        assert cs[i] == init[i];
      }
      if exists i :: 0 <= i < |cs| && IsRecent(cs[i].created, now) && cs[i].author == name {
        var i :| 0 <= i < |cs| && IsRecent(cs[i].created, now) && cs[i].author == name;
        if i < |init| {
          assert init[i] == cs[i];
        }
      }
    }
  }

  /** The snippets of `kind` from the recent comments among `cs`: comment by
      comment, and within a comment in the order of the matches. */
  function Collected(cs: seq<Comment>, now: Timestamp, kind: Kind): (r: seq<string>)
    ensures (forall i :: 0 <= i < |cs| ==> !IsRecent(cs[i].created, now)) ==> r == []
  {
    if cs == [] then []
    else
      var last := cs[|cs| - 1];
      Collected(cs[..|cs| - 1], now, kind) + (if IsRecent(last.created, now) then Snippets(last.body, kind) else [])
  }

  /** Everything collected is a snippet. */
  lemma {:induction false} CollectedAreSnippets(cs: seq<Comment>, now: Timestamp, kind: Kind)
    ensures forall i :: 0 <= i < |Collected(cs, now, kind)| ==> IsSnippet(Collected(cs, now, kind)[i], kind)
  {
    if cs != [] {
      var last := cs[|cs| - 1];
      CollectedAreSnippets(cs[..|cs| - 1], now, kind);
      SnippetsAreSnippets(last.body, kind);
    }
  }

  /** Comments are gathered in order: the snippets of a longer list of
      comments extend those of its first part. */
  lemma {:induction false} CollectedAppend(a: seq<Comment>, b: seq<Comment>, now: Timestamp, kind: Kind)
    ensures Collected(a + b, now, kind) == Collected(a, now, kind) + Collected(b, now, kind)
    decreases |b|
  {
    if b != [] {
      var init := b[..|b| - 1];
      var last := b[|b| - 1];
      assert (a + b)[..|a + b| - 1] == a + init;
      assert (a + b)[|a + b| - 1] == last;
      CollectedAppend(a, init, now, kind);
      AppendAssociative(Collected(a, now, kind), Collected(init, now, kind),
        if IsRecent(last.created, now) then Snippets(last.body, kind) else []);
    } else {
      assert a + b == a;
    }
  }

  /** A comment is recent and yields at least one snippet of `kind`. */
  predicate Yields(c: Comment, now: Timestamp, kind: Kind) {
    IsRecent(c.created, now) && Snippets(c.body, kind) != []
  }

  /** No snippet of `kind` is collected exactly when no comment is recent and
      yields one. */
  lemma {:induction false} CollectedEmptyIff(cs: seq<Comment>, now: Timestamp, kind: Kind)
    ensures Collected(cs, now, kind) == [] <==> forall i :: 0 <= i < |cs| ==> !Yields(cs[i], now, kind)
  {
    if cs != [] {
      var init := cs[..|cs| - 1];
      CollectedEmptyIff(init, now, kind);
      assert Collected(cs, now, kind) == [] <==>
        Collected(init, now, kind) == [] && !Yields(cs[|cs| - 1], now, kind);
      if forall i :: 0 <= i < |cs| ==> !Yields(cs[i], now, kind) {
        forall i | 0 <= i < |init| ensures !Yields(init[i], now, kind) {
          assert init[i] == cs[i];
        }
      }
      if Collected(cs, now, kind) == [] {
        forall i | 0 <= i < |cs| ensures !Yields(cs[i], now, kind) {
          if i < |init| {
            assert cs[i] == init[i];
          } else {
            assert i == |cs| - 1;
          }
        }
      }
    }
  }

  /** A comment older than two weeks changes neither the authors nor the
      snippets: its author is not added and its body is not scanned. */
  lemma StaleCommentIgnored(cs: seq<Comment>, c: Comment, now: Timestamp)
    requires !IsRecent(c.created, now)
    ensures RecentAuthors(cs + [c], now) == RecentAuthors(cs, now)
    ensures Collected(cs + [c], now, Highlight) == Collected(cs, now, Highlight)
    ensures Collected(cs + [c], now, Lowlight) == Collected(cs, now, Lowlight)
  {
    assert (cs + [c])[..|cs|] == cs;
  }

  /** A recent comment without any label still adds its author, and nothing
      to the snippets. */
  lemma UnlabelledCommentAddsOnlyAuthor(cs: seq<Comment>, c: Comment, now: Timestamp)
    requires IsRecent(c.created, now)
    requires NoLabelIn(c.body, Highlight, 0, |c.body|) && NoLabelIn(c.body, Lowlight, 0, |c.body|)
    ensures RecentAuthors(cs + [c], now) == RecentAuthors(cs, now) + {c.author}
    ensures Collected(cs + [c], now, Highlight) == Collected(cs, now, Highlight)
    ensures Collected(cs + [c], now, Lowlight) == Collected(cs, now, Lowlight)
  {
    assert (cs + [c])[..|cs|] == cs;
    NoLabelNoSnippets(c.body, Highlight);
    NoLabelNoSnippets(c.body, Lowlight);
  }

  /** `participants`: reporter, assignee when present, every watcher, and the
      authors of recent comments. */
  function Participants(t: Ticket, now: Timestamp): (r: set<string>)
    ensures t.issue.reporter in r
    ensures forall n :: n in r ==>
      || n == t.issue.reporter
      || (t.issue.assignee.Some? && n == t.issue.assignee.value)
      || n in t.watchers
      || n in set c | c in t.comments :: c.author
  {
    {t.issue.reporter}
    + (if t.issue.assignee.Some? then {t.issue.assignee.value} else {})
    + (set w | w in t.watchers)
    + RecentAuthors(t.comments, now)
  }

  /** Who counts as a participant: the reporter, the assignee when there is
      one, every watcher whatever the age of their activity, and the author
      of every recent comment. */
  lemma ParticipantsIff(t: Ticket, now: Timestamp, name: string)
    ensures name in Participants(t, now) <==>
      || name == t.issue.reporter
      || (t.issue.assignee.Some? && name == t.issue.assignee.value)
      || name in t.watchers
      || exists i :: 0 <= i < |t.comments| && IsRecent(t.comments[i].created, now) && t.comments[i].author == name
  {
    RecentAuthorsIff(t.comments, now, name);
  }

  /** The row `process_issues` emits for one issue, if any. */
  function RowFor(t: Ticket, now: Timestamp): (r: Option<Row>)
    ensures r.Some? ==> r.value.ticketNumber == t.issue.key && t.issue.reporter in r.value.participants
  {
    var highlights := Collected(t.comments, now, Highlight);
    var lowlights := Collected(t.comments, now, Lowlight);
    if highlights == [] && lowlights == [] then None
    else Some(Row(
      t.issue.key,
      t.issue.summary,
      DescriptionText(t.issue.description),
      Participants(t, now),
      Join(highlights, Separator),
      Join(lowlights, Separator)))
  }

  /** The rows of `process_issues(issues)`, in issue order. */
  function Rows(ts: seq<Ticket>, now: Timestamp): (r: seq<Row>)
    ensures |r| <= |ts|
  {
    if ts == [] then []
    else
      var row := RowFor(ts[|ts| - 1], now);
      Rows(ts[..|ts| - 1], now) + (if row.Some? then [row.value] else [])
  }

  /** An issue gets a row exactly when one of its recent comments yields a
      highlight or a lowlight; the row carries the issue's key and title, the
      description or its placeholder, and the joined snippets. */
  lemma RowForIff(t: Ticket, now: Timestamp)
    ensures RowFor(t, now).Some? <==>
      exists i :: 0 <= i < |t.comments| && (Yields(t.comments[i], now, Highlight) || Yields(t.comments[i], now, Lowlight))
    ensures RowFor(t, now).Some? ==>
      var row := RowFor(t, now).value;
      && row.ticketNumber == t.issue.key
      && row.title == t.issue.summary
      && row.description == DescriptionText(t.issue.description)
      && row.participants == Participants(t, now)
      && row.highlights == Join(Collected(t.comments, now, Highlight), Separator)
      && row.lowlights == Join(Collected(t.comments, now, Lowlight), Separator)
  {
    CollectedEmptyIff(t.comments, now, Highlight);
    CollectedEmptyIff(t.comments, now, Lowlight);
  }

  /** Rows keep issue order: the report of a longer list of issues extends
      the report of its first part. */
  lemma {:induction false} RowsAppend(a: seq<Ticket>, b: seq<Ticket>, now: Timestamp)
    ensures Rows(a + b, now) == Rows(a, now) + Rows(b, now)
    decreases |b|
  {
    if b != [] {
      var init := b[..|b| - 1];
      var row := RowFor(b[|b| - 1], now);
      assert (a + b)[..|a + b| - 1] == a + init;
      assert (a + b)[|a + b| - 1] == b[|b| - 1];
      RowsAppend(a, init, now);
      AppendAssociative(Rows(a, now), Rows(init, now), if row.Some? then [row.value] else []);
    } else {
      assert a + b == a;
    }
  }

  /** The loop over the matches of one pattern in one comment body: each
      match is cleaned and appended to `acc` when something is left. */
  method AppendSnippets(body: string, kind: Kind, matches: seq<Span>, acc: seq<string>)
    returns (result: seq<string>)
    requires SpansWithin(body, matches)
    ensures result == acc + Kept(body, matches, kind)
  {
    result := acc;
    for m := 0 to |matches|
      invariant SpansWithin(body, matches[..m])
      invariant result == acc + Kept(body, matches[..m], kind)
    {
      var sp := matches[m];
      var cleanBody := Clean(body[sp.start..sp.end], kind);
      KeptExtend(body, matches, m, kind, acc, result);
      if cleanBody != [] {
        result := result + [cleanBody];
      }
    }
    assert matches[..|matches|] == matches;
  }

  /** One turn of the loop in `AppendSnippets` keeps its invariant. */
  lemma KeptExtend(body: string, matches: seq<Span>, m: nat, kind: Kind, acc: seq<string>, result: seq<string>)
    requires m < |matches| && SpansWithin(body, matches)
    requires SpansWithin(body, matches[..m]) && result == acc + Kept(body, matches[..m], kind)
    ensures SpansWithin(body, matches[..m + 1])
    ensures var c := Clean(body[matches[m].start..matches[m].end], kind);
      acc + Kept(body, matches[..m + 1], kind) == result + (if c == [] then [] else [c])
  {
    KeptStep(body, matches, m, kind);
    var c := Clean(body[matches[m].start..matches[m].end], kind);
    AppendAssociative(acc, Kept(body, matches[..m], kind), if c == [] then [] else [c]);
  }

  /** The loop over the watchers: every watcher's name joins the
      participants. */
  method AddWatchers(participants: set<string>, watchers: seq<string>) returns (result: set<string>)
    ensures result == participants + (set w | w in watchers)
  {
    result := participants;
    for w := 0 to |watchers|
      invariant result == participants + (set x | x in watchers[..w])
    {
      assert watchers[..w + 1] == watchers[..w] + [watchers[w]];
      result := result + {watchers[w]};
    }
    assert watchers[..|watchers|] == watchers;
  }

  /** The loop over the comments: a recent comment adds its author to the
      participants and its snippets to the highlights and lowlights; an older
      one is skipped. */
  method ScanComments(cs: seq<Comment>, now: Timestamp, participants: set<string>)
    returns (result: set<string>, highlights: seq<string>, lowlights: seq<string>)
    ensures result == participants + RecentAuthors(cs, now)
    ensures highlights == Collected(cs, now, Highlight)
    ensures lowlights == Collected(cs, now, Lowlight)
  {
    result := participants;
    highlights := [];
    lowlights := [];
    for c := 0 to |cs|
      invariant result == participants + RecentAuthors(cs[..c], now)
      invariant highlights == Collected(cs[..c], now, Highlight)
      invariant lowlights == Collected(cs[..c], now, Lowlight)
    {
      var comment := cs[c];
      assert cs[..c + 1][..c] == cs[..c];
      if IsRecent(comment.created, now) {
        result := result + {comment.author};
        var body := comment.body;
        var highlightMatches := Sections(body, Highlight, 0);
        var lowlightMatches := Sections(body, Lowlight, 0);

        highlights := AppendSnippets(body, Highlight, highlightMatches, highlights);
        lowlights := AppendSnippets(body, Lowlight, lowlightMatches, lowlights);
      }
    }
    assert cs[..|cs|] == cs;
  }

  /** One turn of the loop of `process_issues`: gather the participants and
      the snippets of one issue, and build its row when a snippet was found. */
  method IssueRow(t: Ticket, now: Timestamp) returns (row: Option<Row>)
    ensures row == RowFor(t, now)
  {
    var issue := t.issue;
    var description := DescriptionText(issue.description);
    var participants: set<string> := {};

    participants := participants + {issue.reporter};
    if issue.assignee.Some? {
      participants := participants + {issue.assignee.value};
    }
    assert participants == {issue.reporter} + (if issue.assignee.Some? then {issue.assignee.value} else {});
    participants := AddWatchers(participants, t.watchers);

    var highlights, lowlights;
    participants, highlights, lowlights := ScanComments(t.comments, now, participants);
    assert participants == Participants(t, now);

    if highlights != [] || lowlights != [] {
      row := Some(Row(issue.key, issue.summary, description, participants,
                      Join(highlights, Separator), Join(lowlights, Separator)));
    } else {
      row := None;
    }
  }

  /** `process_issues`, with the clock and the fetched watcher and comment
      lists passed in. */
  method ProcessIssues(tickets: seq<Ticket>, now: Timestamp) returns (report: seq<Row>)
    ensures report == Rows(tickets, now)
    ensures forall i :: 0 <= i < |report| ==> report[i].highlights != [] || report[i].lowlights != []
  {
    report := [];
    for n := 0 to |tickets|
      invariant report == Rows(tickets[..n], now)
    {
      var row := IssueRow(tickets[n], now);
      assert tickets[..n + 1][..n] == tickets[..n];
      if row.Some? {
        report := report + [row.value];
      }
    }
    assert tickets[..|tickets|] == tickets;
    RowsHaveSnippets(tickets, now);
  }

  /** Every row carries a highlight or a lowlight. */
  lemma {:induction false} RowsHaveSnippets(ts: seq<Ticket>, now: Timestamp)
    ensures forall i :: 0 <= i < |Rows(ts, now)| ==>
      Rows(ts, now)[i].highlights != [] || Rows(ts, now)[i].lowlights != []
  {
    if ts != [] {
      RowsHaveSnippets(ts[..|ts| - 1], now);
      var t := ts[|ts| - 1];
      var highlights := Collected(t.comments, now, Highlight);
      var lowlights := Collected(t.comments, now, Lowlight);
      CollectedAreSnippets(t.comments, now, Highlight);
      CollectedAreSnippets(t.comments, now, Lowlight);
      JoinEmptyIff(highlights, Separator);
      JoinEmptyIff(lowlights, Separator);
    }
  }
}
