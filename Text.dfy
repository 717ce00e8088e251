/**
 * The parts of Python's `str` that the digest pipeline relies on: whitespace
 * (`str.isspace`), `sub in s`, `s.split(sep)`, `s.split()`, `sep.join(parts)`
 * and `s.strip()`. Strings are sequences of code points.
 */
module Text {
  import opened Wrappers

  /**
   * Python's notion of whitespace (the table behind `str.isspace`), which
   * `str.split()`, `str.strip()` and the regular-expression class `\s` share.
   */
  predicate IsSpace(c: char) {
    ('\t' <= c <= '\r') || ('\U{1c}' <= c <= ' ') || c == '\U{85}' || c == '\U{a0}'
    || c == '\U{1680}' || ('\U{2000}' <= c <= '\U{200a}') || c == '\U{2028}'
    || c == '\U{2029}' || c == '\U{202f}' || c == '\U{205f}' || c == '\U{3000}'
  }

  predicate AllSpace(s: string) {
    forall i :: 0 <= i < |s| ==> IsSpace(s[i])
  }

  predicate NoSpace(s: string) {
    forall i :: 0 <= i < |s| ==> !IsSpace(s[i])
  }

  /** `sep` occurs in `s` starting at index `i`. */
  predicate OccursAt(s: string, sep: string, i: int) {
    0 <= i && i + |sep| <= |s| && s[i..i + |sep|] == sep
  }

  /** The first occurrence of `sep` in `s` at or after index `from`. */
  function FindFrom(s: string, sep: string, from: nat): (r: Option<nat>)
    requires from <= |s|
    decreases |s| - from
    ensures r.Some? ==> from <= r.value && OccursAt(s, sep, r.value)
    ensures r.Some? ==> forall j :: from <= j < r.value ==> !OccursAt(s, sep, j)
    ensures r.None? ==> forall j :: from <= j ==> !OccursAt(s, sep, j)
  {
    if from + |sep| > |s| then None
    else if s[from..from + |sep|] == sep then Some(from)
    else FindFrom(s, sep, from + 1)
  }

  /** Python's `s.find(sep)`, with `None` for -1. */
  function Find(s: string, sep: string): Option<nat> {
    FindFrom(s, sep, 0)
  }

  /** Python's `sub in s`. */
  function Contains(s: string, sub: string): (b: bool)
    ensures b <==> exists i :: OccursAt(s, sub, i)
  {
    Find(s, sub).Some?
  }

  /** Python's `sep.join(parts)`. */
  function JoinWith(sep: string, parts: seq<string>): string {
    if |parts| == 0 then ""
    else if |parts| == 1 then parts[0]
    else parts[0] + sep + JoinWith(sep, parts[1..])
  }

  lemma OccursInPrefix(s: string, n: nat, sep: string, j: int)
    requires n <= |s| && OccursAt(s[..n], sep, j)
    ensures OccursAt(s, sep, j)
  {
    assert s[..n][j..j + |sep|] == s[j..j + |sep|];
  }

  lemma OccursInSuffix(s: string, n: nat, sep: string, j: int)
    requires n <= |s| && OccursAt(s[n..], sep, j)
    ensures OccursAt(s, sep, n + j)
  {
    assert s[n..][j..j + |sep|] == s[n + j..n + j + |sep|];
  }

  /**
   * Python's `s.split(sep)` for a non-empty separator: `s` is cut at every
   * occurrence of `sep` found scanning left to right, occurrences not
   * overlapping; no piece holds `sep`.
   */
  function Split(s: string, sep: string): (parts: seq<string>)
    requires sep != ""
    decreases |s|
    ensures |parts| >= 1
    ensures forall k :: 0 <= k < |parts| ==> !Contains(parts[k], sep)
  {
    match Find(s, sep)
    case None => [s]
    case Some(i) =>
      var rest := Split(s[i + |sep|..], sep);
      var parts := [s[..i]] + rest;
      assert parts[1..] == rest;
      assert !Contains(s[..i], sep) by {
        forall j | OccursAt(s[..i], sep, j) ensures false {
          OccursInPrefix(s, i, sep, j);
        }
      }
      parts
  }

  /** `sep.join(s.split(sep)) == s`. */
  lemma {:induction false} SplitJoinRoundTrip(s: string, sep: string)
    requires sep != ""
    decreases |s|
    ensures JoinWith(sep, Split(s, sep)) == s
  {
    match Find(s, sep)
    case None =>
    case Some(i) =>
      var t := s[i + |sep|..];
      SplitJoinRoundTrip(t, sep);
      SplitUnfold(s, sep, i);
      var parts := Split(s, sep);
      assert parts[1..] == Split(t, sep);
      assert s == s[..i] + s[i..i + |sep|] + t;
  }

  lemma SplitUnfold(s: string, sep: string, i: nat)
    requires sep != "" && Find(s, sep) == Some(i)
    ensures i + |sep| <= |s| && Split(s, sep) == [s[..i]] + Split(s[i + |sep|..], sep)
  {
  }

  lemma SplitNone(s: string, sep: string)
    requires sep != "" && Find(s, sep).None?
    ensures Split(s, sep) == [s]
  {
  }

  /** Splitting at a one-character separator that `a` lacks cuts exactly after `a`. */
  lemma SplitAtChar(a: string, c: char, b: string)
    requires c !in a
    ensures Split(a + [c] + b, [c]) == [a] + Split(b, [c])
  {
    var s := a + [c] + b;
    assert OccursAt(s, [c], |a|);
    var f := Find(s, [c]);
    forall j | 0 <= j < |a| ensures !OccursAt(s, [c], j) {
      assert s[j] == a[j];
    }
    assert f.value == |a|;
    SplitUnfold(s, [c], |a|);
    assert s[..|a|] == a && s[|a| + 1..] == b;
  }

  function Last<T>(xs: seq<T>): T
    requires xs != []
  {
    xs[|xs| - 1]
  }

  /**
   * `last` is the suffix of `s` after the last separator a left-to-right
   * split consumes: all of `s` when `sep` does not occur, and otherwise a
   * suffix that starts after the first occurrence, right after an occurrence.
   */
  predicate AfterLastCut(s: string, sep: string, last: string) {
    |last| <= |s| && s[|s| - |last|..] == last
    && (Find(s, sep).None? ==> last == s)
    && (Find(s, sep).Some? ==> Find(s, sep).value + |sep| <= |s| - |last|
                               && OccursAt(s, sep, |s| - |last| - |sep|))
  }

  lemma AfterLastCutStep(s: string, sep: string, i: nat, last: string)
    requires sep != "" && Find(s, sep) == Some(i)
    requires i + |sep| <= |s| && AfterLastCut(s[i + |sep|..], sep, last)
    ensures AfterLastCut(s, sep, last)
  {
    var t := s[i + |sep|..];
    var kt := |t| - |last|;
    var k := |s| - |last|;
    assert s[k..] == t[kt..];
    if Find(t, sep).Some? {
      OccursInSuffix(s, i + |sep|, sep, kt - |sep|);
    } else {
      assert k - |sep| == i;
    }
  }

  /** The last piece of `s.split(sep)` is the text after the last separator the split consumed. */
  lemma {:induction false} SplitLastPiece(s: string, sep: string)
    requires sep != ""
    decreases |s|
    ensures AfterLastCut(s, sep, Last(Split(s, sep)))
  {
    match Find(s, sep)
    case None =>
      SplitNone(s, sep);
    case Some(i) =>
      var t := s[i + |sep|..];
      SplitLastPiece(t, sep);
      SplitUnfold(s, sep, i);
      assert Last(Split(s, sep)) == Last(Split(t, sep));
      AfterLastCutStep(s, sep, i, Last(Split(t, sep)));
  }

  /** Python's `s.lstrip()`. */
  function StripStart(s: string): (r: string)
    ensures |r| <= |s| && r == s[|s| - |r|..]
    ensures forall i :: 0 <= i < |s| - |r| ==> IsSpace(s[i])
    ensures r != "" ==> !IsSpace(r[0])
  {
    if s != "" && IsSpace(s[0]) then
      var r := StripStart(s[1..]);
      DropDrop(s, |s| - |r|);
      forall i | 1 <= i < |s| - |r| ensures IsSpace(s[i]) {
        assert s[i] == s[1..][i - 1];
      }
      r
    else s
  }

  /** Python's `s.rstrip()`. */
  function StripEnd(s: string): (r: string)
    ensures |r| <= |s| && r == s[..|r|]
    ensures forall i :: |r| <= i < |s| ==> IsSpace(s[i])
    ensures r != "" ==> !IsSpace(r[|r| - 1])
  {
    if s != "" && IsSpace(s[|s| - 1]) then
      var r := StripEnd(s[..|s| - 1]);
      TakeTake(s, |s| - 1, |r|);
      forall i | |r| <= i < |s| - 1 ensures IsSpace(s[i]) {
        assert s[i] == s[..|s| - 1][i];
      }
      r
    else s
  }

  /**
   * Python's `s.strip()`: the slice of `s` left when the whitespace at both
   * ends is removed; it neither starts nor ends with whitespace.
   */
  function Strip(s: string): (r: string)
    ensures r != "" ==> !IsSpace(r[0]) && !IsSpace(r[|r| - 1])
    ensures exists i :: 0 <= i <= |s| - |r| && AllSpace(s[..i])
                        && r == s[i..i + |r|] && AllSpace(s[i + |r|..])
  {
    var t := StripStart(s);
    var r := StripEnd(t);
    StripPieces(s, t, r);
    r
  }

  /**
   * The three pieces `Strip` cuts `s` into, when `t` is `s` without its
   * leading whitespace and `r` is `t` without its trailing whitespace.
   */
  lemma StripPieces(s: string, t: string, r: string)
    requires |t| <= |s| && t == s[|s| - |t|..] && forall i :: 0 <= i < |s| - |t| ==> IsSpace(s[i])
    requires t != "" ==> !IsSpace(t[0])
    requires |r| <= |t| && r == t[..|r|] && forall i :: |r| <= i < |t| ==> IsSpace(t[i])
    requires r != "" ==> !IsSpace(r[|r| - 1])
    ensures r != "" ==> !IsSpace(r[0]) && !IsSpace(r[|r| - 1])
    ensures exists i :: 0 <= i <= |s| - |r| && AllSpace(s[..i])
                        && r == s[i..i + |r|] && AllSpace(s[i + |r|..])
  {
    var i := |s| - |t|;
    DropTake(s, i, |r|);
    forall k | 0 <= k < i ensures IsSpace(s[..i][k]) {
      assert s[..i][k] == s[k];
    }
    var tail := s[i + |r|..];
    forall k | 0 <= k < |tail| ensures IsSpace(tail[k]) {
      assert tail[k] == t[|r| + k];
    }
    assert r != "" ==> r[0] == t[0];
    assert AllSpace(s[..i]) && r == s[i..i + |r|] && AllSpace(s[i + |r|..]);
  }

  /** Length of the run of non-whitespace characters that starts `s`. */
  function WordLength(s: string): (n: nat)
    requires s != "" && !IsSpace(s[0])
    ensures 1 <= n <= |s| && NoSpace(s[..n]) && (n < |s| ==> IsSpace(s[n]))
  {
    if |s| == 1 || IsSpace(s[1]) then 1
    else
      var n := 1 + WordLength(s[1..]);
      assert forall i :: 1 <= i < n ==> s[..n][i] == s[1..][..n - 1][i - 1];
      n
  }

  /** Python's `s.split()`: the maximal runs of non-whitespace characters, in order. */
  function Words(s: string): (ws: seq<string>)
    decreases |s|
    ensures forall k :: 0 <= k < |ws| ==> ws[k] != "" && NoSpace(ws[k])
  {
    if s == "" then []
    else if IsSpace(s[0]) then Words(s[1..])
    else
      var n := WordLength(s);
      [s[..n]] + Words(s[n..])
  }

  /** A single-line text: its only whitespace is single spaces between other characters. */
  predicate Collapsed(r: string) {
    (forall i :: 0 <= i < |r| ==> IsSpace(r[i]) ==> r[i] == ' ')
    && (r != "" ==> r[0] != ' ' && r[|r| - 1] != ' ')
    && (forall i :: 0 <= i < |r| - 1 ==> !(r[i] == ' ' && r[i + 1] == ' '))
  }

  /** Joining non-empty whitespace-free words with single spaces gives a collapsed text. */
  lemma {:induction false} JoinIsCollapsed(ws: seq<string>)
    requires forall k :: 0 <= k < |ws| ==> ws[k] != "" && NoSpace(ws[k])
    ensures Collapsed(JoinWith(" ", ws))
    ensures ws != [] ==> JoinWith(" ", ws) != "" && JoinWith(" ", ws)[0] == ws[0][0]
  {
    if |ws| > 1 {
      var w := ws[0];
      var j := JoinWith(" ", ws[1..]);
      JoinIsCollapsed(ws[1..]);
      var r := w + " " + j;
      assert r == JoinWith(" ", ws);
      assert j[0] == ws[1][0];
      forall i | 0 <= i < |r| ensures IsSpace(r[i]) ==> r[i] == ' ' {
        if i < |w| {
          assert r[i] == w[i];
        } else if i > |w| {
          assert r[i] == j[i - |w| - 1];
        }
      }
      forall i | 0 <= i < |r| - 1 ensures !(r[i] == ' ' && r[i + 1] == ' ') {
        if i < |w| {
          assert r[i] == w[i];
        } else if i > |w| {
          assert r[i] == j[i - |w| - 1] && r[i + 1] == j[i - |w|];
        } else {
          assert r[i + 1] == j[0];
        }
      }
      assert r[|r| - 1] == j[|j| - 1];
    }
  }

  /** Python's `' '.join(s.split())`: each whitespace run becomes one space, and both ends are trimmed. */
  function Collapse(s: string): (r: string)
    ensures Collapsed(r)
    ensures NoSpace(s) ==> r == s
  {
    JoinIsCollapsed(Words(s));
    if NoSpace(s) && s != "" then
      assert WordLength(s) == |s|;
      assert s[..|s|] == s && s[|s|..] == "";
      assert Words(s) == [s];
      JoinWith(" ", Words(s))
    else
      JoinWith(" ", Words(s))
  }

  lemma {:induction false} WordLengthOfWord(w: string, t: string)
    requires w != "" && NoSpace(w)
    requires t == "" || IsSpace(t[0])
    ensures WordLength(w + t) == |w|
    decreases |w|
  {
    var s := w + t;
    if |w| > 1 {
      assert s[1] == w[1];
      assert s[1..] == w[1..] + t;
      WordLengthOfWord(w[1..], t);
    }
  }

  lemma WordsOfWord(w: string, t: string)
    requires w != "" && NoSpace(w)
    requires t == "" || IsSpace(t[0])
    ensures Words(w + t) == [w] + Words(t)
  {
    var s := w + t;
    WordLengthOfWord(w, t);
    assert s[..|w|] == w;
    assert s[|w|..] == t;
  }

  /** `' '.join(ws).split() == ws` for non-empty whitespace-free words. */
  lemma {:induction false} WordsOfJoin(ws: seq<string>)
    requires forall k :: 0 <= k < |ws| ==> ws[k] != "" && NoSpace(ws[k])
    ensures Words(JoinWith(" ", ws)) == ws
  {
    if |ws| == 1 {
      WordsOfWord(ws[0], "");
      assert ws[0] + "" == ws[0];
    } else if |ws| > 1 {
      var j := JoinWith(" ", ws[1..]);
      WordsOfJoin(ws[1..]);
      WordsOfWord(ws[0], " " + j);
      assert ws[0] + " " + j == ws[0] + (" " + j);
      assert (" " + j)[1..] == j;
    }
  }

  /** Collapsing twice is collapsing once. */
  lemma CollapseIdempotent(s: string)
    ensures Collapse(Collapse(s)) == Collapse(s)
  {
    WordsOfJoin(Words(s));
  }

  /**
   * Collapsing keeps the words: splitting the result at whitespace gives the
   * words of the input, so each whitespace run between two words becomes
   * exactly one space.
   */
  lemma CollapseWords(s: string)
    ensures Words(Collapse(s)) == Words(s)
  {
    WordsOfJoin(Words(s));
  }

  /** The characters of `s` other than whitespace, in order. */
  function NonSpace(s: string): string {
    if s == "" then "" else (if IsSpace(s[0]) then "" else [s[0]]) + NonSpace(s[1..])
  }

  function Concat(ws: seq<string>): string {
    if ws == [] then "" else ws[0] + Concat(ws[1..])
  }

  lemma {:induction false} NonSpaceAppend(a: string, b: string)
    ensures NonSpace(a + b) == NonSpace(a) + NonSpace(b)
  {
    if a != "" {
      assert (a + b)[0] == a[0];
      assert (a + b)[1..] == a[1..] + b;
      NonSpaceAppend(a[1..], b);
    } else {
      assert a + b == b;
    }
  }

  lemma {:induction false} NonSpaceOfWord(w: string)
    requires NoSpace(w)
    ensures NonSpace(w) == w
  {
    if w != "" {
      NonSpaceOfWord(w[1..]);
    }
  }

  lemma {:induction false} NonSpaceOfWords(s: string)
    decreases |s|
    ensures Concat(Words(s)) == NonSpace(s)
  {
    if s != "" {
      if IsSpace(s[0]) {
        NonSpaceOfWords(s[1..]);
      } else {
        var n := WordLength(s);
        NonSpaceOfWords(s[n..]);
        assert s == s[..n] + s[n..];
        NonSpaceAppend(s[..n], s[n..]);
        NonSpaceOfWord(s[..n]);
        assert ([s[..n]] + Words(s[n..]))[1..] == Words(s[n..]);
      }
    }
  }

  lemma {:induction false} NonSpaceOfJoin(ws: seq<string>)
    requires forall k :: 0 <= k < |ws| ==> NoSpace(ws[k])
    ensures NonSpace(JoinWith(" ", ws)) == Concat(ws)
  {
    if |ws| == 1 {
      NonSpaceOfWord(ws[0]);
      assert Concat(ws) == ws[0] + Concat([]);
    } else if |ws| > 1 {
      var j := JoinWith(" ", ws[1..]);
      NonSpaceOfJoin(ws[1..]);
      NonSpaceAppend(ws[0] + " ", j);
      NonSpaceAppend(ws[0], " ");
      NonSpaceOfWord(ws[0]);
      assert NonSpace(" ") == "" + NonSpace("");
    }
  }

  /** Collapsing whitespace keeps every other character, in order. */
  lemma CollapseKeepsText(s: string)
    ensures NonSpace(Collapse(s)) == NonSpace(s)
  {
    NonSpaceOfJoin(Words(s));
    NonSpaceOfWords(s);
  }

  /** Each line followed by a newline, as a text file holds its lines. */
  function Terminated(lines: seq<string>): string {
    if lines == [] then "" else lines[0] + "\n" + Terminated(lines[1..])
  }

  lemma {:induction false} TerminatedAppend(a: seq<string>, b: seq<string>)
    ensures Terminated(a + b) == Terminated(a) + Terminated(b)
  {
    if a != [] {
      assert (a + b)[0] == a[0];
      assert (a + b)[1..] == a[1..] + b;
      TerminatedAppend(a[1..], b);
    } else {
      assert a + b == b;
    }
  }

  /** Splitting newline-terminated lines at newlines gives the lines back, then the empty remainder. */
  lemma {:induction false} SplitTerminated(lines: seq<string>)
    requires forall k :: 0 <= k < |lines| ==> '\n' !in lines[k]
    ensures Split(Terminated(lines), "\n") == lines + [""]
  {
    if lines == [] {
      SplitNone("", "\n");
    } else {
      var rest := Terminated(lines[1..]);
      assert Terminated(lines) == lines[0] + ['\n'] + rest;
      SplitAtChar(lines[0], '\n', rest);
      SplitTerminated(lines[1..]);
      assert lines == [lines[0]] + lines[1..];
    }
  }

  /** Two runs of newline-terminated lines, split at newlines, give all the lines, then the empty remainder. */
  lemma SplitTerminatedAppend(a: seq<string>, b: seq<string>)
    requires forall k :: 0 <= k < |a| ==> '\n' !in a[k]
    requires forall k :: 0 <= k < |b| ==> '\n' !in b[k]
    ensures Split(Terminated(a) + Terminated(b), "\n") == a + b + [""]
  {
    TerminatedAppend(a, b);
    var lines := a + b;
    forall k | 0 <= k < |lines| ensures '\n' !in lines[k] {
      if k < |a| {
        assert lines[k] == a[k];
      } else {
        assert lines[k] == b[k - |a|];
      }
    }
    SplitTerminated(lines);
  }

  lemma {:induction false} JoinWithAppend(sep: string, a: seq<string>, b: seq<string>)
    requires a != [] && b != []
    ensures JoinWith(sep, a + b) == JoinWith(sep, a) + sep + JoinWith(sep, b)
  {
    assert (a + b)[0] == a[0];
    if |a| > 1 {
      assert (a + b)[1..] == a[1..] + b;
      JoinWithAppend(sep, a[1..], b);
    } else {
      assert (a + b)[1..] == b;
    }
  }

  /** Splitting lines joined by newlines at newlines gives the lines back. */
  lemma {:induction false} SplitJoinLines(lines: seq<string>)
    requires lines != []
    requires forall k :: 0 <= k < |lines| ==> '\n' !in lines[k]
    ensures Split(JoinWith("\n", lines), "\n") == lines
  {
    if |lines| == 1 {
      assert Find(lines[0], "\n").None? by {
        forall j | 0 <= j < |lines[0]| ensures !OccursAt(lines[0], "\n", j) {
          assert lines[0][j] in lines[0];
        }
      }
      SplitNone(lines[0], "\n");
    } else {
      var rest := JoinWith("\n", lines[1..]);
      assert JoinWith("\n", lines) == lines[0] + ['\n'] + rest;
      SplitAtChar(lines[0], '\n', rest);
      SplitJoinLines(lines[1..]);
      assert lines == [lines[0]] + lines[1..];
    }
  }

  /** The elements of the sequences of `xss`, one sequence after another. */
  function Flatten<T>(xss: seq<seq<T>>): seq<T> {
    if xss == [] then [] else xss[0] + Flatten(xss[1..])
  }

  /** Each block of lines joined with `sep`. */
  function JoinEach(sep: string, blocks: seq<seq<string>>): (r: seq<string>)
    ensures |r| == |blocks| && forall i :: 0 <= i < |blocks| ==> r[i] == JoinWith(sep, blocks[i])
  {
    seq(|blocks|, i requires 0 <= i < |blocks| => JoinWith(sep, blocks[i]))
  }

  /** Joining joined blocks of lines with the same separator joins all their lines. */
  lemma {:induction false} JoinFlatten(sep: string, blocks: seq<seq<string>>)
    requires blocks != []
    requires forall i :: 0 <= i < |blocks| ==> blocks[i] != []
    ensures Flatten(blocks) != []
    ensures JoinWith(sep, JoinEach(sep, blocks)) == JoinWith(sep, Flatten(blocks))
  {
    if |blocks| == 1 {
      assert blocks[1..] == [];
      assert Flatten(blocks) == blocks[0] + [] == blocks[0];
      assert JoinEach(sep, blocks) == [JoinWith(sep, blocks[0])];
    } else {
      JoinFlatten(sep, blocks[1..]);
      JoinWithAppend(sep, blocks[0], Flatten(blocks[1..]));
      assert JoinEach(sep, blocks)[1..] == JoinEach(sep, blocks[1..]);
    }
  }

  /**
   * Splitting at newlines the newline-joined blocks of newline-free lines
   * gives all their lines, block after block.
   */
  lemma SplitJoinBlocks(blocks: seq<seq<string>>)
    requires blocks != []
    requires forall i :: 0 <= i < |blocks| ==> blocks[i] != []
    requires forall i, k :: 0 <= i < |blocks| && 0 <= k < |blocks[i]| ==> '\n' !in blocks[i][k]
    ensures Split(JoinWith("\n", JoinEach("\n", blocks)), "\n") == Flatten(blocks)
  {
    JoinFlatten("\n", blocks);
    FlattenLines(blocks);
    SplitJoinLines(Flatten(blocks));
  }

  lemma {:induction false} FlattenLines(blocks: seq<seq<string>>)
    requires forall i, k :: 0 <= i < |blocks| && 0 <= k < |blocks[i]| ==> '\n' !in blocks[i][k]
    ensures forall k :: 0 <= k < |Flatten(blocks)| ==> '\n' !in Flatten(blocks)[k]
  {
    if blocks != [] {
      FlattenLines(blocks[1..]);
      var f := Flatten(blocks);
      forall k | 0 <= k < |f| ensures '\n' !in f[k] {
        if k < |blocks[0]| {
          assert f[k] == blocks[0][k];
        } else {
          assert f[k] == Flatten(blocks[1..])[k - |blocks[0]|];
        }
      }
    }
  }

  lemma {:induction false} FlattenUniform<T>(xss: seq<seq<T>>, n: nat)
    requires forall i :: 0 <= i < |xss| ==> |xss[i]| == n
    ensures |Flatten(xss)| == n * |xss|
  {
    if xss != [] {
      FlattenUniform(xss[1..], n);
      assert n * |xss| == n + n * (|xss| - 1);
    }
  }

  /** `[f(x) for x in xs]`. */
  function Map<A, B>(f: A -> B, xs: seq<A>): (ys: seq<B>)
    ensures |ys| == |xs| && forall i :: 0 <= i < |xs| ==> ys[i] == f(xs[i])
  {
    if xs == [] then [] else [f(xs[0])] + Map(f, xs[1..])
  }

  lemma {:induction false} MapAppend<A, B>(f: A -> B, xs: seq<A>, x: A)
    ensures Map(f, xs + [x]) == Map(f, xs) + [f(x)]
  {
    if xs != [] {
      assert (xs + [x])[1..] == xs[1..] + [x];
      MapAppend(f, xs[1..], x);
    } else {
      assert ([x])[1..] == [];
    }
  }

  lemma JoinEachAppend(sep: string, blocks: seq<seq<string>>, block: seq<string>)
    ensures JoinEach(sep, blocks + [block]) == JoinEach(sep, blocks) + [JoinWith(sep, block)]
  {
    var a, b := JoinEach(sep, blocks + [block]), JoinEach(sep, blocks) + [JoinWith(sep, block)];
    forall i | 0 <= i < |a| ensures a[i] == b[i] {
      assert (blocks + [block])[i] == if i < |blocks| then blocks[i] else block;
    }
  }

  /** One more line appends itself and a newline. */
  lemma TerminatedSnoc(lines: seq<string>, line: string)
    ensures Terminated(lines + [line]) == Terminated(lines) + line + "\n"
  {
    TerminatedAppend(lines, [line]);
    assert Terminated([line]) == line + "\n" + Terminated([]);
  }

  lemma AppendAssoc(a: string, b: string, c: string)
    ensures a + b + c == a + (b + c)
  {
  }

  lemma TakeSnoc<T>(s: seq<T>, i: nat)
    requires i < |s|
    ensures s[..i + 1] == s[..i] + [s[i]]
  {
  }

  lemma TakeAll<T>(s: seq<T>)
    ensures s[..|s|] == s
  {
  }

  lemma DropDrop<T>(s: seq<T>, k: nat)
    requires 1 <= k <= |s|
    ensures s[1..][k - 1..] == s[k..]
  {
  }

  lemma TakeTake<T>(s: seq<T>, j: nat, k: nat)
    requires k <= j <= |s|
    ensures s[..j][..k] == s[..k]
  {
  }

  lemma DropTake<T>(s: seq<T>, i: nat, n: nat)
    requires i + n <= |s|
    ensures s[i..][..n] == s[i..i + n]
  {
  }

  lemma PrefixOfConcat<T>(a: seq<T>, b: seq<T>)
    ensures (a + b)[0..|a|] == (a + b)[..|a|] == a && (a + b)[|a|..] == b
  {
  }
}
