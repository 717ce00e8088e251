/**
 * What `build_notes` writes for each release: the link `release_url` builds,
 * the details cell, a Markdown table row for the notes and an HTML `<tr>`
 * block for the local page.
 */
module Render {
  import opened Text
  import opened Dates
  import opened Releases
  import opened Normalise

  /** The two lines of the Markdown table header, without their newlines. */
  const HeaderLine := "| Module " + "| Version " + "| Release Date " + "| Details |  "
  const RuleLine := "|---|---|---|---|  "

  /** What `notes` holds before any row is added. */
  const Header := HeaderLine + "\n" + RuleLine + "\n"

  /** The page of repository `repo` of organisation `org` on host `endpoint`. */
  function RepoUrl(endpoint: string, org: string, repo: string): string {
    "https://" + endpoint + "/" + org + "/" + repo
  }

  /** `release_url`: the page of release `tag` of repository `repo`. */
  function ReleaseUrl(endpoint: string, org: string, repo: string, tag: string): string {
    "https://" + endpoint + "/" + org + "/" + repo + "/releases/tag/" + tag
  }

  /** In `a + "/" + x` with no `/` in `a`, the first `/` is at index `|a|`. */
  lemma SlashAt(a: string, x: string)
    requires '/' !in a
    ensures var s := a + "/" + x; s[|a|] == '/' && forall j :: 0 <= j < |a| ==> s[j] != '/'
  {
    var s := a + "/" + x;
    forall j | 0 <= j < |a| ensures s[j] != '/' {
      assert s[j] == a[j];
    }
  }

  /** Text that is cut at its first `/` determines both the part before and the part after it. */
  lemma FirstSlash(a: string, x: string, b: string, y: string)
    requires '/' !in a && '/' !in b
    requires a + "/" + x == b + "/" + y
    ensures a == b && x == y
  {
    var s := a + "/" + x;
    SlashAt(a, x);
    SlashAt(b, y);
    assert |a| == |b|;
    assert a == s[..|a|] && b == s[..|b|];
    assert x == s[|a| + 1..] && y == s[|b| + 1..];
  }

  /**
   * On one host and organisation, distinct releases get distinct links: a
   * repository name holds no `/`, so the link determines the repository and
   * the tag.
   */
  lemma ReleaseUrlInjective(endpoint: string, org: string, repo1: string, tag1: string, repo2: string, tag2: string)
    requires '/' !in repo1 && '/' !in repo2
    requires ReleaseUrl(endpoint, org, repo1, tag1) == ReleaseUrl(endpoint, org, repo2, tag2)
    ensures repo1 == repo2 && tag1 == tag2
  {
    var p, l := "https://" + endpoint + "/" + org + "/", "releases/tag/";
    assert "/releases/tag/" == "/" + l;
    UrlTail(p, repo1, l, tag1);
    UrlTail(p, repo2, l, tag2);
    CancelPrefix(p, repo1 + "/" + (l + tag1), repo2 + "/" + (l + tag2));
    FirstSlash(repo1, l + tag1, repo2, l + tag2);
    CancelPrefix(l, tag1, tag2);
  }

  /** A release link is the repository link prefix followed by the repository name, a `/` and the rest. */
  lemma UrlTail(p: string, repo: string, l: string, tag: string)
    ensures p + repo + ("/" + l) + tag == p + (repo + "/" + (l + tag))
  {
  }

  lemma CancelPrefix(p: string, u: string, v: string)
    requires p + u == p + v
    ensures u == v
  {
    assert u == (p + u)[|p|..];
  }

  /**
   * The details cell, `get_html_from_markdown(release.body.strip())`: a
   * blank body gives an empty cell, and the cell is one line whatever
   * newlines the body holds.
   */
  function Details(r: Release, md: string -> string): (d: string)
    ensures Strip(r.body) == "" ==> d == ""
    ensures '\n' !in d
  {
    var d := HtmlFromMarkdown(Strip(r.body), md);
    assert forall i :: 0 <= i < |d| ==> d[i] != '\n' by {
      forall i | 0 <= i < |d| ensures d[i] != '\n' {
        assert IsSpace('\n');
      }
    }
    d
  }

  /** The cells of a Markdown row, ending in the two spaces of a Markdown line break. */
  function MarkdownLine(endpoint: string, org: string, r: Release, details: string): string {
    "| `" + r.repo + "` | [" + r.tag + "](" + ReleaseUrl(endpoint, org, r.repo, r.tag) + ") | "
    + FormatDateTime(r.createdAt) + " | " + details + " |  "
  }

  /** The row remote mode appends to `notes` for one release: its line, ended by a newline. */
  function MarkdownRow(endpoint: string, org: string, r: Release, details: string): string {
    MarkdownLine(endpoint, org, r, details) + "\n"
  }

  /** The Markdown line of each release. */
  function LineOf(endpoint: string, org: string, md: string -> string): Release -> string {
    r => MarkdownLine(endpoint, org, r, Details(r, md))
  }

  /** The Markdown lines of `rs`, one per release, in order. */
  function MarkdownLines(endpoint: string, org: string, rs: seq<Release>, md: string -> string): seq<string> {
    Map(LineOf(endpoint, org, md), rs)
  }

  /** The rows remote mode appends to `notes` for `rs`: each release's line, ended by a newline. */
  function MarkdownRows(endpoint: string, org: string, rs: seq<Release>, md: string -> string): string {
    Terminated(MarkdownLines(endpoint, org, rs, md))
  }

  /** One more release appends its row to the rows of the earlier ones. */
  lemma MarkdownRowsAppend(endpoint: string, org: string, rs: seq<Release>, r: Release, md: string -> string)
    ensures MarkdownRows(endpoint, org, rs + [r], md)
            == MarkdownRows(endpoint, org, rs, md) + MarkdownRow(endpoint, org, r, Details(r, md))
  {
    var f := LineOf(endpoint, org, md);
    MapAppend(f, rs, r);
    TerminatedSnoc(Map(f, rs), f(r));
    AppendAssoc(Terminated(Map(f, rs)), f(r), "\n");
  }

  /** A turn of the loop of a remote run: the notes gain the row of the next release. */
  lemma MarkdownRowsStep(notes: string, rs: seq<Release>, i: nat, endpoint: string, org: string, md: string -> string)
    requires i < |rs|
    ensures notes + MarkdownRows(endpoint, org, rs[..i], md) + MarkdownRow(endpoint, org, rs[i], Details(rs[i], md))
            == notes + MarkdownRows(endpoint, org, rs[..i + 1], md)
  {
    TakeSnoc(rs, i);
    MarkdownRowsAppend(endpoint, org, rs[..i], rs[i], md);
    AppendAssoc(notes, MarkdownRows(endpoint, org, rs[..i], md), MarkdownRow(endpoint, org, rs[i], Details(rs[i], md)));
  }

  /** Host, organisation, repository name and tag are each one line. */
  predicate SingleLineFields(endpoint: string, org: string, r: Release) {
    '\n' !in endpoint && '\n' !in org && '\n' !in r.repo && '\n' !in r.tag
  }

  lemma MarkdownLineIsOneLine(endpoint: string, org: string, r: Release, details: string)
    requires SingleLineFields(endpoint, org, r) && '\n' !in details
    ensures '\n' !in MarkdownLine(endpoint, org, r, details)
  {
    assert '\n' !in FormatDateTime(r.createdAt);
  }

  lemma HeaderLinesAreLines()
    ensures '\n' !in HeaderLine && '\n' !in RuleLine
  {
    var a, b, c, d := "| Module ", "| Version ", "| Release Date ", "| Details |  ";
    assert '\n' !in a by { assert forall i :: 0 <= i < |a| ==> a[i] != '\n'; }
    assert '\n' !in b by { assert forall i :: 0 <= i < |b| ==> b[i] != '\n'; }
    assert '\n' !in c by { assert forall i :: 0 <= i < |c| ==> c[i] != '\n'; }
    assert '\n' !in d by { assert forall i :: 0 <= i < |d| ==> d[i] != '\n'; }
    assert '\n' !in RuleLine by { assert forall i :: 0 <= i < |RuleLine| ==> RuleLine[i] != '\n'; }
  }

  /** No row of the table spans two lines. */
  lemma MarkdownLinesAreLines(endpoint: string, org: string, rs: seq<Release>, md: string -> string)
    requires forall r :: r in rs ==> SingleLineFields(endpoint, org, r)
    ensures forall k :: 0 <= k < |rs| ==> '\n' !in MarkdownLines(endpoint, org, rs, md)[k]
  {
    var body := MarkdownLines(endpoint, org, rs, md);
    forall k | 0 <= k < |rs| ensures '\n' !in body[k] {
      assert body[k] == LineOf(endpoint, org, md)(rs[k]);
      assert rs[k] in rs;
      MarkdownLineIsOneLine(endpoint, org, rs[k], Details(rs[k], md));
    }
  }

  /**
   * The notes of a remote run, cut at their newlines: the two header lines,
   * then one line per release in order, then nothing after the last newline.
   * A release body with newlines in it cannot break a row.
   */
  lemma MarkdownTableLines(endpoint: string, org: string, rs: seq<Release>, md: string -> string)
    requires forall r :: r in rs ==> SingleLineFields(endpoint, org, r)
    ensures Split(Header + MarkdownRows(endpoint, org, rs, md), "\n")
            == [HeaderLine, RuleLine] + MarkdownLines(endpoint, org, rs, md) + [""]
  {
    HeaderTerminated();
    HeaderLinesAreLines();
    MarkdownLinesAreLines(endpoint, org, rs, md);
    SplitTerminatedAppend([HeaderLine, RuleLine], MarkdownLines(endpoint, org, rs, md));
  }

  /** The header is its two lines, each ended by a newline. */
  lemma HeaderTerminated()
    ensures Header == Terminated([HeaderLine, RuleLine])
  {
    assert Terminated([HeaderLine, RuleLine]) == HeaderLine + "\n" + Terminated([RuleLine]);
    assert Terminated([RuleLine]) == RuleLine + "\n" + Terminated([]);
  }

  function Spaces(n: nat): (s: string)
    ensures |s| == n && '\n' !in s
  {
    var s := seq(n, _ => ' ');
    assert forall i :: 0 <= i < n ==> s[i] != '\n';
    s
  }

  /**
   * The lines of the `<tr>` block local mode collects for one release; the
   * first is empty, for the block opens with a newline.
   */
  function HtmlLines(endpoint: string, org: string, r: Release, details: string): (lines: seq<string>)
    ensures |lines| == 7
  {
    [ "",
      Spaces(16) + "<tr>",
      Spaces(18) + "<td><a href=\"" + RepoUrl(endpoint, org, r.repo) + "\">" + r.repo + "</a></td>",
      Spaces(18) + "<td><a href=\"" + ReleaseUrl(endpoint, org, r.repo, r.tag) + "\">" + r.tag + "</a></td>",
      Spaces(18) + "<td>" + FormatDateTime(r.createdAt) + "</td>",
      Spaces(18) + "<td>" + details + "</td>",
      Spaces(16) + "</tr>" ]
  }

  /** The `<tr>` block for one release: its lines joined by newlines. */
  function HtmlRow(endpoint: string, org: string, r: Release, details: string): string {
    JoinWith("\n", HtmlLines(endpoint, org, r, details))
  }

  /** The lines of the block of each release. */
  function BlockOf(endpoint: string, org: string, md: string -> string): Release -> seq<string> {
    r => HtmlLines(endpoint, org, r, Details(r, md))
  }

  /** The lines of the blocks of `rs`, block by block. */
  function HtmlBlocks(endpoint: string, org: string, rs: seq<Release>, md: string -> string): seq<seq<string>> {
    Map(BlockOf(endpoint, org, md), rs)
  }

  /** The blocks local mode collects for `rs`, one per release, in order. */
  function HtmlRows(endpoint: string, org: string, rs: seq<Release>, md: string -> string): seq<string> {
    JoinEach("\n", HtmlBlocks(endpoint, org, rs, md))
  }

  /** One more release appends its block to the blocks of the earlier ones. */
  lemma HtmlRowsAppend(endpoint: string, org: string, rs: seq<Release>, r: Release, md: string -> string)
    ensures HtmlRows(endpoint, org, rs + [r], md)
            == HtmlRows(endpoint, org, rs, md) + [HtmlRow(endpoint, org, r, Details(r, md))]
  {
    var f := BlockOf(endpoint, org, md);
    MapAppend(f, rs, r);
    JoinEachAppend("\n", Map(f, rs), f(r));
  }

  /** A turn of the loop of a local run: the blocks gain the block of the next release. */
  lemma HtmlRowsStep(rs: seq<Release>, i: nat, endpoint: string, org: string, md: string -> string)
    requires i < |rs|
    ensures HtmlRows(endpoint, org, rs[..i], md) + [HtmlRow(endpoint, org, rs[i], Details(rs[i], md))]
            == HtmlRows(endpoint, org, rs[..i + 1], md)
  {
    TakeSnoc(rs, i);
    HtmlRowsAppend(endpoint, org, rs[..i], rs[i], md);
  }

  lemma HtmlLinesAreLines(endpoint: string, org: string, r: Release, details: string)
    requires SingleLineFields(endpoint, org, r) && '\n' !in details
    ensures forall k :: 0 <= k < 7 ==> '\n' !in HtmlLines(endpoint, org, r, details)[k]
  {
    var ls := HtmlLines(endpoint, org, r, details);
    assert '\n' !in FormatDateTime(r.createdAt);
    assert '\n' !in RepoUrl(endpoint, org, r.repo);
    assert '\n' !in ReleaseUrl(endpoint, org, r.repo, r.tag);
    assert '\n' !in ls[0];
    assert '\n' !in ls[1];
    assert '\n' !in ls[2];
    assert '\n' !in ls[3];
    assert '\n' !in ls[4];
    assert '\n' !in ls[5];
    assert '\n' !in ls[6];
  }

  /** No line of any `<tr>` block holds a newline. */
  lemma HtmlBlocksAreLines(endpoint: string, org: string, rs: seq<Release>, md: string -> string)
    requires forall r :: r in rs ==> SingleLineFields(endpoint, org, r)
    ensures var blocks := HtmlBlocks(endpoint, org, rs, md);
            forall i, k :: 0 <= i < |blocks| && 0 <= k < |blocks[i]| ==> '\n' !in blocks[i][k]
  {
    var blocks := HtmlBlocks(endpoint, org, rs, md);
    forall i, k | 0 <= i < |blocks| && 0 <= k < |blocks[i]| ensures '\n' !in blocks[i][k] {
      assert blocks[i] == BlockOf(endpoint, org, md)(rs[i]);
      assert rs[i] in rs;
      HtmlLinesAreLines(endpoint, org, rs[i], Details(rs[i], md));
    }
  }

  /**
   * The content local mode substitutes into the page: cut at its newlines,
   * it is the seven lines of each release's block, release after release,
   * so seven lines for each release; no release gives an empty content.
   */
  lemma HtmlContentLines(endpoint: string, org: string, rs: seq<Release>, md: string -> string)
    requires forall r :: r in rs ==> SingleLineFields(endpoint, org, r)
    ensures rs == [] ==> JoinWith("\n", HtmlRows(endpoint, org, rs, md)) == ""
    ensures rs != [] ==> Split(JoinWith("\n", HtmlRows(endpoint, org, rs, md)), "\n")
                         == Flatten(HtmlBlocks(endpoint, org, rs, md))
  {
    HtmlBlocksAreLines(endpoint, org, rs, md);
    if rs != [] {
      SplitJoinBlocks(HtmlBlocks(endpoint, org, rs, md));
    }
  }

  /** Each release gives seven lines of content. */
  lemma HtmlLineCount(endpoint: string, org: string, rs: seq<Release>, md: string -> string)
    ensures |Flatten(HtmlBlocks(endpoint, org, rs, md))| == 7 * |rs|
  {
    FlattenUniform(HtmlBlocks(endpoint, org, rs, md), 7);
  }
}
