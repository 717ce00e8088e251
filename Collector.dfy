/** `get_relevant_releases`: the loop that gathers and sorts the releases of the digest. */
module Collector {
  import opened Releases
  import opened Ordering
  import opened Text

  /**
   * Visit the "core-team" repositories in listing order, tag each kept
   * release with its repository's name, append them to the accumulator and
   * sort the result newest first.
   */
  method RelevantReleases(w: Window, listing: seq<Repo>) returns (releases: seq<Release>)
    ensures releases == SortByDate(Gathered(w, CoreRepos(listing)))
  {
    var repos := CoreRepos(listing);
    var relevant: seq<Release> := [];
    for i := 0 to |repos|
      invariant relevant == Gathered(w, repos[..i])
    {
      var kept := KeptReleases(w, repos[i].releases);
      var tagged: seq<Release> := [];
      if |kept| > 0 {
        for j := 0 to |kept|
          invariant tagged == TagAll(repos[i].name, kept[..j])
        {
          TagAllStep(repos[i].name, kept, j);
          tagged := tagged + [Tag(repos[i].name, kept[j])];
        }
        TakeAll(kept);
        relevant := relevant + tagged;
      }
      GatheredStep(w, repos, i);
    }
    TakeAll(repos);
    releases := SortByDate(relevant);
  }
}
