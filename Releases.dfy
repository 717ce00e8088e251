/**
 * Repositories and releases as the hosting API lists them, and the selection
 * the digest makes: repositories carrying the "core-team" topic, releases
 * inside the date window that are not dependency bumps, each tagged with the
 * name of its repository and gathered in repository order.
 */
module Releases {
  import opened Text
  import opened Dates

  /** A release as the hosting API lists it; it does not name its repository. */
  datatype Listed = Listed(tag: string, createdAt: Instant, body: string)

  /** A repository: its name, its topics and its releases in listing order. */
  datatype Repo = Repo(name: string, topics: seq<string>, releases: seq<Listed>)

  /** A release kept for the digest, carrying the name of the repository that listed it. */
  datatype Release = Release(repo: string, tag: string, createdAt: Instant, body: string)

  /** The window `[start, end]`; both bounds are included. */
  datatype Window = Window(start: Instant, end: Instant)

  const CoreTeamTopic := "core-team"

  /** The marker of an automated dependency-bump release. */
  const DepsMarker := "**deps:**"

  /** The `repos` property: the listed repositories whose topics include "core-team", in listing order. */
  function CoreRepos(listing: seq<Repo>): (r: seq<Repo>)
    ensures forall p :: p in r <==> p in listing && CoreTeamTopic in p.topics
  {
    if listing == [] then []
    else (if CoreTeamTopic in listing[0].topics then [listing[0]] else []) + CoreRepos(listing[1..])
  }

  /** Filtering a listing made of two parts filters each part, in the same order. */
  lemma {:induction false} CoreReposAppend(a: seq<Repo>, b: seq<Repo>)
    ensures CoreRepos(a + b) == CoreRepos(a) + CoreRepos(b)
  {
    if a != [] {
      assert (a + b)[0] == a[0];
      assert (a + b)[1..] == a[1..] + b;
      CoreReposAppend(a[1..], b);
    } else {
      assert a + b == b;
    }
  }

  predicate InWindow(w: Window, t: Instant) {
    NotAfter(w.start, t) && NotAfter(t, w.end)
  }

  /** The condition of `get_releases_for_repo`: inside the window, and not a dependency bump. */
  predicate Kept(w: Window, x: Listed) {
    InWindow(w, x.createdAt) && !Contains(x.body, DepsMarker)
  }

  /** `get_releases_for_repo`: the releases of a listing that are kept, in listing order. */
  function KeptReleases(w: Window, xs: seq<Listed>): (r: seq<Listed>)
    ensures forall x :: x in r <==> x in xs && Kept(w, x)
    ensures |r| <= |xs|
  {
    if xs == [] then []
    else (if Kept(w, xs[0]) then [xs[0]] else []) + KeptReleases(w, xs[1..])
  }

  /** Filtering keeps listing order: filtering two parts is filtering each part. */
  lemma {:induction false} KeptReleasesAppend(w: Window, a: seq<Listed>, b: seq<Listed>)
    ensures KeptReleases(w, a + b) == KeptReleases(w, a) + KeptReleases(w, b)
  {
    if a != [] {
      assert (a + b)[0] == a[0];
      assert (a + b)[1..] == a[1..] + b;
      KeptReleasesAppend(w, a[1..], b);
    } else {
      assert a + b == b;
    }
  }

  /** The release, tagged with the name of the repository that listed it (`release.repo = repo.name`). */
  function Tag(name: string, x: Listed): Release {
    Release(name, x.tag, x.createdAt, x.body)
  }

  function TagAll(name: string, xs: seq<Listed>): (r: seq<Release>)
    ensures |r| == |xs| && forall i :: 0 <= i < |xs| ==> r[i] == Tag(name, xs[i])
  {
    seq(|xs|, i requires 0 <= i < |xs| => Tag(name, xs[i]))
  }

  /**
   * What `get_relevant_releases` accumulates before sorting: for each
   * repository in turn, its kept releases tagged with its name. Every
   * element is inside the window and is no dependency bump.
   */
  function Gathered(w: Window, repos: seq<Repo>): (r: seq<Release>)
    ensures forall x :: x in r ==> InWindow(w, x.createdAt) && !Contains(x.body, DepsMarker)
  {
    if repos == [] then []
    else
      var head := TagAll(repos[0].name, KeptReleases(w, repos[0].releases));
      assert forall i :: 0 <= i < |head| ==> Kept(w, KeptReleases(w, repos[0].releases)[i]);
      head + Gathered(w, repos[1..])
  }

  /** Every gathered release comes from a listed release of a repository of that name. */
  lemma {:induction false} GatheredSound(w: Window, repos: seq<Repo>, x: Release)
    requires x in Gathered(w, repos)
    ensures exists p :: p in repos && x.repo == p.name && Listed(x.tag, x.createdAt, x.body) in p.releases
  {
    var head := TagAll(repos[0].name, KeptReleases(w, repos[0].releases));
    if x in head {
      var ks := KeptReleases(w, repos[0].releases);
      var i :| 0 <= i < |head| && head[i] == x;
      assert ks[i] in ks;
      assert Listed(x.tag, x.createdAt, x.body) == ks[i];
    } else {
      GatheredSound(w, repos[1..], x);
      var p :| p in repos[1..] && x.repo == p.name && Listed(x.tag, x.createdAt, x.body) in p.releases;
      assert p in repos;
    }
  }

  /** Every kept release of a listed repository is gathered, tagged with that repository's name. */
  lemma {:induction false} GatheredComplete(w: Window, repos: seq<Repo>, p: Repo, y: Listed)
    requires p in repos && y in p.releases && Kept(w, y)
    ensures Tag(p.name, y) in Gathered(w, repos)
  {
    if p == repos[0] {
      var ks := KeptReleases(w, p.releases);
      var head := TagAll(p.name, ks);
      var i :| 0 <= i < |ks| && ks[i] == y;
      assert head[i] == Tag(p.name, y);
      assert Gathered(w, repos) == head + Gathered(w, repos[1..]);
    } else {
      assert p in repos[1..];
      GatheredComplete(w, repos[1..], p, y);
    }
  }

  /** The gathered releases of two runs of repositories are those of each run, in order. */
  lemma {:induction false} GatheredAppend(w: Window, a: seq<Repo>, b: seq<Repo>)
    ensures Gathered(w, a + b) == Gathered(w, a) + Gathered(w, b)
  {
    if a != [] {
      assert (a + b)[0] == a[0];
      assert (a + b)[1..] == a[1..] + b;
      GatheredAppend(w, a[1..], b);
    } else {
      assert a + b == b;
    }
  }

  /** One repository contributes its kept releases, each tagged with its name, in listing order. */
  lemma GatheredSingle(w: Window, p: Repo)
    ensures Gathered(w, [p]) == TagAll(p.name, KeptReleases(w, p.releases))
  {
    assert [p][1..] == [];
  }

  /** One more repository appends its tagged kept releases to what the earlier ones gathered. */
  lemma GatheredStep(w: Window, repos: seq<Repo>, i: nat)
    requires i < |repos|
    ensures Gathered(w, repos[..i + 1])
            == Gathered(w, repos[..i]) + TagAll(repos[i].name, KeptReleases(w, repos[i].releases))
  {
    TakeSnoc(repos, i);
    GatheredAppend(w, repos[..i], [repos[i]]);
    GatheredSingle(w, repos[i]);
  }

  /** Tagging one more release appends its tagged copy. */
  lemma TagAllStep(name: string, xs: seq<Listed>, j: nat)
    requires j < |xs|
    ensures TagAll(name, xs[..j + 1]) == TagAll(name, xs[..j]) + [Tag(name, xs[j])]
  {
  }

  /**
   * A bound of the window parses to midnight, so a release made on the end
   * day after midnight falls outside the window.
   */
  lemma EndDayAfterMidnightExcluded(w: Window, t: Instant)
    requires w.end == Midnight(w.end)
    requires t.year == w.end.year && t.month == w.end.month && t.day == w.end.day
    requires t != Midnight(t)
    ensures !InWindow(w, t)
  {
  }
}
