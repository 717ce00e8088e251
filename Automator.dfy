/**
 * `ReleaseNotesAutomator`: the settings `__init__` records, the notes text
 * and the HTML page, and `build_notes`, which fills them from the releases
 * of the date window.
 */
module Automator {
  import opened Wrappers
  import opened Text
  import opened Dates
  import opened Releases
  import opened Ordering
  import opened Collector
  import opened Render

  /** The page of `html_template.html`, cut at its `{content}` hole, its doubled braces undone. */
  datatype Template = Template(prefix: string, suffix: string)

  /** `self.html`: the template until `build_notes` fills it, the filled page after. */
  datatype Page = Blank(template: Template) | Filled(text: string)

  /** `template.format(content=content)`: the content in the place of the hole. */
  function Fill(t: Template, content: string): string {
    t.prefix + content + t.suffix
  }

  /** What `build_notes` raises: `ValueError` from `strptime`, or `AttributeError` for a missing `html`. */
  datatype Fault = DateFault(error: DateError) | AttributeError

  /** `html` after `__init__`: set to the template for a local run only. */
  function InitialHtml(localRun: bool, template: Template): Option<Page> {
    if localRun then Some(Blank(template)) else None
  }

  /**
   * The last statement of `build_notes` as written: it formats `html`
   * whatever the mode, and raises when the attribute was never set.
   */
  function FormatHtmlAsWritten(html: Option<Page>, content: string): (r: Result<Page, Fault>)
    requires html.Some? ==> html.value.Blank?
    ensures r.Failure? <==> html.None?
    ensures r.Success? ==> r.value == Filled(Fill(html.value.template, content))
  {
    match html
    case None => Failure(AttributeError)
    case Some(page) => Success(Filled(Fill(page.template, content)))
  }

  /**
   * As written, every remote run raises `AttributeError` at the end of
   * `build_notes`, so the notes it built are never pushed; a local run
   * fills its page.
   */
  lemma RemoteRunCrashesAsWritten(template: Template, content: string)
    ensures FormatHtmlAsWritten(InitialHtml(false, template), content) == Failure(AttributeError)
    ensures FormatHtmlAsWritten(InitialHtml(true, template), content) == Success(Filled(Fill(template, content)))
  {
  }

  class ReleaseNotesAutomator {
    const startDate: string
    const endDate: string
    const endpoint: string
    const org: string
    const localRun: bool
    var html: Option<Page>
    var notes: string

    /** `__init__` up to its call of `build_notes`: the settings, the template of a local run, the table header. */
    constructor (startDate: string, endDate: string, endpoint: string, org: string, localRun: bool, template: Template)
      ensures this.startDate == startDate && this.endDate == endDate
      ensures this.endpoint == endpoint && this.org == org && this.localRun == localRun
      ensures html == InitialHtml(localRun, template)
      ensures notes == Header
    {
      this.startDate := startDate;
      this.endDate := endDate;
      this.endpoint := endpoint;
      this.org := org;
      this.localRun := localRun;
      html := InitialHtml(localRun, template);
      notes := Header;
    }

    /**
     * One turn of the loop of `build_notes`: the details cell of `release`,
     * then its Markdown row appended to `notes` (remote run) or its `<tr>`
     * block appended to `rows` (local run).
     */
    method AddRow(release: Release, md: string -> string, rows: seq<string>) returns (rows': seq<string>)
      modifies this
      ensures html == old(html)
      ensures localRun ==> notes == old(notes) && rows' == rows + [HtmlRow(endpoint, org, release, Details(release, md))]
      ensures !localRun ==> notes == old(notes) + MarkdownRow(endpoint, org, release, Details(release, md)) && rows' == rows
    {
      var details := Details(release, md);
      rows' := rows;
      if localRun {
        rows' := rows + [HtmlRow(endpoint, org, release, details)];
      } else {
        notes := notes + MarkdownRow(endpoint, org, release, details);
      }
    }

    /**
     * What the loop of `build_notes` has built after the releases `rs`,
     * starting from the notes `notes0`: a remote run has appended their
     * Markdown rows to the notes; a local run has collected their blocks.
     */
    ghost predicate Built(notes0: string, rows: seq<string>, rs: seq<Release>, md: string -> string)
      reads this
    {
      if localRun then notes == notes0 && rows == HtmlRows(endpoint, org, rs, md)
      else notes == notes0 + MarkdownRows(endpoint, org, rs, md)
    }

    /** The loop of `build_notes` over the relevant releases, in their order. */
    method AddRows(releases: seq<Release>, md: string -> string) returns (rows: seq<string>)
      modifies this
      ensures html == old(html)
      ensures Built(old(notes), rows, releases, md)
    {
      rows := [];
      for i := 0 to |releases|
        invariant html == old(html)
        invariant Built(old(notes), rows, releases[..i], md)
      {
        var release := releases[i];
        rows := AddRow(release, md, rows);
        if localRun {
          HtmlRowsStep(releases, i, endpoint, org, md);
        } else {
          MarkdownRowsStep(old(notes), releases, i, endpoint, org, md);
        }
      }
      TakeAll(releases);
    }

    /**
     * `build_notes`: parse the window bounds (start first), add the rows of
     * the relevant releases, newest first, and for a local run fill the
     * page with the collected blocks joined by newlines. A remote run leaves
     * `html` alone; see `FormatHtmlAsWritten` for the code as written.
     */
    method BuildNotes(listing: seq<Repo>, md: string -> string) returns (raised: Option<Fault>)
      requires startDate != "" && endDate != ""
      requires localRun ==> html.Some? && html.value.Blank?
      modifies this
      ensures raised.Some? <==> ParseDate(startDate).Failure? || ParseDate(endDate).Failure?
      ensures ParseDate(startDate).Failure? ==> raised == Some(DateFault(ParseDate(startDate).error))
      ensures ParseDate(startDate).Success? && ParseDate(endDate).Failure?
              ==> raised == Some(DateFault(ParseDate(endDate).error))
      ensures raised.Some? ==> notes == old(notes) && html == old(html)
      ensures raised.None? && localRun ==>
                var releases := SortByDate(Gathered(Window(ParseDate(startDate).value, ParseDate(endDate).value), CoreRepos(listing)));
                notes == old(notes)
                && html == Some(Filled(Fill(old(html).value.template, JoinWith("\n", HtmlRows(endpoint, org, releases, md)))))
      ensures raised.None? && !localRun ==>
                var releases := SortByDate(Gathered(Window(ParseDate(startDate).value, ParseDate(endDate).value), CoreRepos(listing)));
                notes == old(notes) + MarkdownRows(endpoint, org, releases, md) && html == old(html)
    {
      var start := ParseDate(startDate);
      if start.Failure? {
        raised := Some(DateFault(start.error));
        return;
      }
      var end := ParseDate(endDate);
      if end.Failure? {
        raised := Some(DateFault(end.error));
        return;
      }
      var releases := RelevantReleases(Window(start.value, end.value), listing);
      var rows := AddRows(releases, md);
      if localRun {
        html := Some(Filled(Fill(html.value.template, JoinWith("\n", rows))));
      }
      raised := None;
    }
  }
}
