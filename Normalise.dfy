/**
 * Release-body normalisation: `pre_markdown_body` cuts a leading date stamp
 * such as "(2023-10-27) " off a body, and `get_html_from_markdown` converts
 * the rest and puts it on one line.
 */
module Normalise {
  import opened Wrappers
  import opened Text
  import opened Dates

  /**
   * Twelve characters that fit the fixed part of the pattern
   * `[(]\d{4}-\d{2}-\d{2}.\s*`: "(", four digits, "-", two digits, "-",
   * two digits, then any character other than a newline. Digits are the
   * ASCII ones.
   */
  predicate IsStamp(p: string) {
    |p| == 12 && p[0] == '(' && AllDigits(p[1..5]) && p[5] == '-'
    && AllDigits(p[6..8]) && p[8] == '-' && AllDigits(p[9..11]) && p[11] != '\n'
  }

  /** The fixed part of the pattern matches at `i`. */
  predicate StampAt(s: string, i: int) {
    0 <= i && i + 12 <= |s| && IsStamp(s[i..i + 12])
  }

  /** The length of the whitespace run that starts `s`; the greedy `\s*`. */
  function SpaceRun(s: string): (n: nat)
    ensures n <= |s| && AllSpace(s[..n]) && (n < |s| ==> !IsSpace(s[n]))
  {
    if s != "" && IsSpace(s[0]) then
      var n := 1 + SpaceRun(s[1..]);
      assert forall k :: 1 <= k < n ==> s[..n][k] == s[1..][..n - 1][k - 1];
      n
    else 0
  }

  /** Where a match of the stamp pattern lies: `s[start..end]`. */
  datatype Span = Span(start: nat, end: nat)

  /** The match that starts at `i`, whitespace tail taken greedily. */
  function MatchAt(s: string, i: nat): Span
    requires StampAt(s, i)
  {
    Span(i, i + 12 + SpaceRun(s[i + 12..]))
  }

  /** `re.search` from index `from`: the leftmost position where the pattern matches. */
  function SearchFrom(s: string, from: nat): (r: Option<Span>)
    requires from <= |s|
    decreases |s| - from
    ensures r.Some? ==> from <= r.value.start && StampAt(s, r.value.start)
                        && r.value == MatchAt(s, r.value.start)
    ensures r.Some? ==> forall j :: from <= j < r.value.start ==> !StampAt(s, j)
    ensures r.None? ==> forall j :: from <= j ==> !StampAt(s, j)
  {
    if from + 12 > |s| then None
    else if StampAt(s, from) then Some(MatchAt(s, from))
    else SearchFrom(s, from + 1)
  }

  /** `re.search(r'[(]\d{4}-\d{2}-\d{2}.\s*', s)`. */
  function Search(s: string): (r: Option<Span>)
    ensures r.Some? ==> StampAt(s, r.value.start) && r.value == MatchAt(s, r.value.start)
    ensures r.Some? ==> forall j :: 0 <= j < r.value.start ==> !StampAt(s, j)
    ensures r.None? ==> forall j :: 0 <= j ==> !StampAt(s, j)
  {
    SearchFrom(s, 0)
  }

  /**
   * `pre_markdown_body`: with no stamp in the body, the body as it is;
   * otherwise the last piece of the body split at the matched text, stripped.
   */
  function PreMarkdownBody(body: string): (r: string)
    ensures Search(body).None? ==> r == body
    ensures Search(body).Some? ==> r == "" || (!IsSpace(r[0]) && !IsSpace(r[|r| - 1]))
  {
    match Search(body)
    case None => body
    case Some(m) => Strip(Last(Split(body, body[m.start..m.end])))
  }

  /** Text equal to a match of the stamp pattern matches the fixed part wherever it occurs. */
  lemma StampOccurrence(s: string, m: Span, j: int)
    requires StampAt(s, m.start) && m == MatchAt(s, m.start)
    requires OccursAt(s, s[m.start..m.end], j)
    ensures StampAt(s, j)
  {
    var stamp := s[m.start..m.end];
    assert s[j..j + 12] == stamp[..12] == s[m.start..m.start + 12];
  }

  /**
   * With a stamp in the body, the result is the stripped text after the last
   * occurrence of the matched text that the split consumes: that cut lies
   * after the stamp, right after an occurrence of the matched text, and the
   * text after it holds no further occurrence.
   */
  lemma PreMarkdownBodyCutsAfterStamp(body: string)
    requires Search(body).Some?
    ensures var m := Search(body).value;
            var stamp := body[m.start..m.end];
            exists k :: m.end <= k <= |body| && OccursAt(body, stamp, k - |stamp|)
                        && !Contains(body[k..], stamp) && PreMarkdownBody(body) == Strip(body[k..])
  {
    var m := Search(body).value;
    var stamp := body[m.start..m.end];
    assert OccursAt(body, stamp, m.start);
    var f := Find(body, stamp);
    assert f.Some? && f.value <= m.start;
    StampOccurrence(body, m, f.value);
    assert f.value == m.start;
    SplitLastPiece(body, stamp);
    var last := Last(Split(body, stamp));
    var k := |body| - |last|;
    assert body[k..] == last;
    assert !Contains(last, stamp);
  }

  lemma StampExample()
    ensures IsStamp("(2023-10-27)")
  {
    var p := "(2023-10-27)";
    assert p[1..5] == "2023" && AllDigits("2023");
    assert p[6..8] == "10" && AllDigits("10");
    assert p[9..11] == "27" && AllDigits("27");
  }

  lemma StampAtStart(stamp: string, rest: string)
    requires IsStamp(stamp)
    ensures StampAt(stamp + rest, 0) && (stamp + rest)[12..] == rest
  {
    assert (stamp + rest)[0..12] == stamp;
  }

  lemma SpaceRunExample()
    ensures SpaceRun(" Fixed a bug") == 1
  {
    var t := " Fixed a bug";
    assert IsSpace(t[0]) && !IsSpace(t[1..][0]);
    assert SpaceRun(t[1..]) == 0;
  }

  lemma ExampleStampFound()
    ensures Search("(2023-10-27) Fixed a bug") == Some(Span(0, 13))
  {
    var body := "(2023-10-27)" + " Fixed a bug";
    assert body == "(2023-10-27) Fixed a bug";
    StampExample();
    StampAtStart("(2023-10-27)", " Fixed a bug");
    SpaceRunExample();
  }

  lemma ExampleSplit()
    ensures Last(Split("(2023-10-27) Fixed a bug", "(2023-10-27) ")) == "Fixed a bug"
  {
    var stamp, rest := "(2023-10-27) ", "Fixed a bug";
    var body := stamp + rest;
    assert body == "(2023-10-27) Fixed a bug";
    PrefixOfConcat(stamp, rest);
    assert Find(body, stamp) == Some(0);
    SplitUnfold(body, stamp, 0);
    SplitNone(rest, stamp);
  }

  lemma StripExample()
    ensures Strip("Fixed a bug") == "Fixed a bug"
  {
    var rest := "Fixed a bug";
    assert StripStart(rest) == rest;
    assert StripEnd(rest) == rest;
  }

  /** A body that opens with a date stamp loses it. */
  lemma PreMarkdownBodyExample()
    ensures PreMarkdownBody("(2023-10-27) Fixed a bug") == "Fixed a bug"
  {
    var stamp, rest := "(2023-10-27) ", "Fixed a bug";
    var body := stamp + rest;
    assert body == "(2023-10-27) Fixed a bug";
    PrefixOfConcat(stamp, rest);
    ExampleStampFound();
    ExampleSplit();
    StripExample();
  }

  /** A body without a date stamp is left as it is. */
  lemma PreMarkdownBodyNoStamp()
    ensures PreMarkdownBody("No date here") == "No date here"
  {
    var body := "No date here";
    assert forall j :: 0 <= j ==> !StampAt(body, j);
  }

  /**
   * `get_html_from_markdown`: the empty body gives the empty text; any other
   * body is cut at its date stamp, converted by `md` (the Markdown library,
   * taken as given) and collapsed onto one line.
   */
  function HtmlFromMarkdown(body: string, md: string -> string): (r: string)
    ensures body == "" ==> r == ""
    ensures Collapsed(r)
  {
    if body == "" then "" else Collapse(md(PreMarkdownBody(body)))
  }

  /**
   * The conversion keeps every non-whitespace character that `md` produced,
   * in order, keeps its words, and collapsing its result again changes
   * nothing.
   */
  lemma HtmlFromMarkdownStable(body: string, md: string -> string)
    requires body != ""
    ensures NonSpace(HtmlFromMarkdown(body, md)) == NonSpace(md(PreMarkdownBody(body)))
    ensures Collapse(HtmlFromMarkdown(body, md)) == HtmlFromMarkdown(body, md)
    ensures Words(HtmlFromMarkdown(body, md)) == Words(md(PreMarkdownBody(body)))
  {
    CollapseKeepsText(md(PreMarkdownBody(body)));
    CollapseIdempotent(md(PreMarkdownBody(body)));
    CollapseWords(md(PreMarkdownBody(body)));
  }
}
