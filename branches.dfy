/**
 * Listing the local branches (`getBranches` and `parseBranch` in index.js).
 *
 * git prints one line per branch under refs/heads/ in the format
 * `"%(HEAD)#%(refname:short)#%(committerdate:relative)#%(committerdate:iso8601)"`;
 * the format argument reaches git without a shell, so the double quotes are
 * printed too. The tool finds the current branch with a regular expression
 * over the whole text and turns every line into a prompt choice.
 */
module Branches {
  import opened Wrappers
  import opened JsText
  import opened Process
  import opened GitCli

  /** The arguments of the listing query. */
  const ListingArgs: seq<string> := ["for-each-ref", "refs/heads/", "--sort=committerdate",
    "--format=\"%(HEAD)#%(refname:short)#%(committerdate:relative)#%(committerdate:iso8601)\""]

  /** A prompt choice: the label shown, the value returned when it is picked, and its short form. */
  datatype Choice = Choice(name: string, value: Option<string>, short: Option<string>)

  /** What `getBranches` returns: the current branch (undefined when none is found) and every branch. */
  datatype Listed = Listed(current: Option<string>, all: seq<Choice>)

  /** The order in which `Array.prototype.sort` leaves the lines; see README. */
  type Sorter = seq<string> -> seq<string>

  /** `xs[k]` of a JavaScript array: undefined past the end. */
  function At(xs: seq<string>, k: nat): (r: Option<string>)
    ensures r.Some? <==> k < |xs|
    ensures r.Some? ==> r.value == xs[k]
  {
    if k < |xs| then Some(xs[k]) else None
  }

  /** A value converted to text by `+` or a template literal. */
  function Show(v: Option<string>): string
  {
    match v
    case Some(s) => s
    case None => "undefined"
  }

  /** `parseBranch(line)`: the second `#`-separated column is the branch name (the colouring of the label is dropped). */
  function ParseBranch(line: string): (c: Choice)
    ensures c.value == c.short == At(Split(line, '#'), 1)
  {
    var columns := Split(line, '#');
    Choice(Show(At(columns, 1)) + " (" + Show(At(columns, 2)) + ")", At(columns, 1), At(columns, 1))
  }

  function ParseAll(lines: seq<string>): (all: seq<Choice>)
    ensures |all| == |lines|
    ensures forall k :: 0 <= k < |lines| ==> all[k] == ParseBranch(lines[k])
  {
    seq(|lines|, k requires 0 <= k < |lines| => ParseBranch(lines[k]))
  }

  // ---------------------------------------------------------------------------
  // The current branch: `branches.match(/\*#(.+)#/)?.at(1).split('#').at(0)`

  /**
   * The regular expression matches s[i..j+1]: `*#`, then at least one
   * character that is not a line terminator (what `.` accepts), then `#`.
   * Its capture group is s[i+2..j].
   */
  predicate MatchesAt(s: string, i: int, j: int)
  {
    0 <= i && i + 3 <= j < |s| && s[i] == '*' && s[i + 1] == '#' && s[j] == '#'
    && forall t :: i + 2 <= t < j ==> !IsLineTerminator(s[t])
  }

  /** The first line terminator at or after p, or the end of the text. */
  function LineEnd(s: string, p: nat): (q: nat)
    requires p <= |s|
    ensures p <= q <= |s| && (q < |s| ==> IsLineTerminator(s[q]))
    ensures forall t :: p <= t < q ==> !IsLineTerminator(s[t])
    decreases |s| - p
  {
    if p == |s| || IsLineTerminator(s[p]) then p else LineEnd(s, p + 1)
  }

  /** The last `#` in s[lo..hi], if any. */
  function LastHash(s: string, lo: nat, hi: nat): (r: Option<nat>)
    requires hi <= |s|
    ensures r.Some? ==> lo <= r.value < hi && s[r.value] == '#'
    ensures r.Some? ==> forall t :: r.value < t < hi ==> s[t] != '#'
    ensures r.None? ==> forall t :: lo <= t < hi ==> s[t] != '#'
    decreases hi
  {
    if hi <= lo then None
    else if s[hi - 1] == '#' then Some(hi - 1)
    else LastHash(s, lo, hi - 1)
  }

  /**
   * The match a backtracking regular-expression engine finds starting its
   * search at i: the leftmost start, and for it the longest `.+`.
   */
  function MatchFrom(s: string, i: nat): (r: Option<(nat, nat)>)
    ensures r.Some? ==> i <= r.value.0 && MatchesAt(s, r.value.0, r.value.1)
    ensures r.Some? ==> forall i', j' :: i <= i' < r.value.0 ==> !MatchesAt(s, i', j')
    ensures r.Some? ==> forall j' :: MatchesAt(s, r.value.0, j') ==> j' <= r.value.1
    ensures r.None? ==> forall i', j' :: i <= i' ==> !MatchesAt(s, i', j')
    decreases |s| - i
  {
    if |s| < i + 2 then None
    else if s[i] == '*' && s[i + 1] == '#' then
      var e := LineEnd(s, i + 2);
      match LastHash(s, i + 3, e)
      case Some(j) =>
        assert forall j' :: MatchesAt(s, i, j') ==> j' < e;
        Some((i, j))
      case None =>
        assert forall j' :: !MatchesAt(s, i, j');
        MatchFrom(s, i + 1)
    else MatchFrom(s, i + 1)
  }

  /** The name of the current branch as `getBranches` extracts it. */
  function CurrentBranch(s: string): (r: Option<string>)
    ensures r.None? <==> MatchFrom(s, 0).None?
    ensures r.Some? ==> '#' !in r.value
  {
    match MatchFrom(s, 0)
    case None => None
    case Some((i, j)) => Some(Split(s[i + 2..j], '#')[0])
  }

  /** The current branch is undefined when the listing holds no `*#`. */
  lemma NoMarkerNoCurrent(s: string)
    requires forall t :: 0 <= t < |s| - 1 ==> !(s[t] == '*' && s[t + 1] == '#')
    ensures CurrentBranch(s) == None
  {
    assert forall i', j' :: !MatchesAt(s, i', j');
  }

  /**
   * When the first `*#` of the listing starts a match, the current branch is
   * the text between that `*#` and the next `#`.
   */
  lemma CurrentIsTextToNextHash(s: string, i: nat, j: nat, k: nat)
    requires MatchesAt(s, i, j)
    requires forall t :: 0 <= t < i ==> !(s[t] == '*' && s[t + 1] == '#')
    requires i + 2 <= k <= j && s[k] == '#'
    requires forall t :: i + 2 <= t < k ==> s[t] != '#'
    ensures CurrentBranch(s) == Some(s[i + 2..k])
  {
    var m := MatchFrom(s, 0);
    assert m.Some?;
    var (i', j') := m.value;
    assert MatchesAt(s, i', j');
    assert s[i'] == '*' && s[i' + 1] == '#';
    assert i' == i;
    assert j <= j';
    var group := s[i + 2..j'];
    var n := k - (i + 2);
    assert n <= |group| && (n < |group| ==> group[n] == s[k]);
    SplitHead(group, '#', n);
    assert forall t :: 0 <= t < n ==> group[..n][t] == s[i + 2..k][t];
    assert group[..n] == s[i + 2..k];
  }

  // ---------------------------------------------------------------------------
  // The listing as git renders it

  /** What git knows of one branch. */
  datatype Ref = Ref(isHead: bool, name: string, relative: string, iso: string)

  /** A field git prints that holds no delimiter, no `*` and no line break. */
  predicate PlainField(f: string)
  {
    forall t :: 0 <= t < |f| ==> f[t] != '#' && f[t] != '*' && !IsLineTerminator(f[t])
  }

  predicate PlainRef(r: Ref)
  {
    PlainField(r.name) && PlainField(r.relative) && PlainField(r.iso)
  }

  /** One line of the listing, quotes included. */
  function FormatLine(r: Ref): string
  {
    "\"" + [if r.isHead then '*' else ' '] + "#" + r.name + "#" + r.relative + "#" + r.iso + "\""
  }

  function Lines(refs: seq<Ref>): (lines: seq<string>)
    ensures |lines| == |refs|
    ensures forall k :: 0 <= k < |refs| ==> lines[k] == FormatLine(refs[k])
  {
    seq(|refs|, k requires 0 <= k < |refs| => FormatLine(refs[k]))
  }

  /** The listing text after `git()` has trimmed it. */
  function Render(refs: seq<Ref>): string
  {
    Join(Lines(refs), '\n')
  }

  /** Every line of the listing ends with the closing quote of its format. */
  lemma FormatLineEndsWithQuote(r: Ref)
    ensures |FormatLine(r)| > 0 && FormatLine(r)[|FormatLine(r)| - 1] == '"'
  {
  }

  /** git ends its listing with a newline; `git()` removes just that newline. */
  lemma RawListing(repo: Oracle, refs: seq<Ref>)
    requires |refs| >= 1
    requires repo(ListingArgs) == Render(refs) + "\n"
    ensures Git(repo, ListingArgs) == Render(refs)
  {
    var lines := Lines(refs);
    var n := |lines| - 1;
    JoinAt(lines, '\n', n);
    assert lines[n..] == [lines[n]];
    var text := Render(refs);
    assert text == Terminated(lines[..n], '\n') + lines[n];
    FormatLineEndsWithQuote(refs[n]);
    assert text[|text| - 1] == lines[n][|lines[n]| - 1] == '"';
    TrimEndDropsNewline(text);
  }

  /** The choice a well-formed line turns into. */
  function Entry(r: Ref): Choice
  {
    Choice(r.name + " (" + r.relative + ")", Some(r.name), Some(r.name))
  }

  /** The columns of a rendered line: the quote and HEAD marker, the name, the relative date, the rest. */
  lemma {:induction false} FormatLineColumns(r: Ref)
    requires '#' !in r.name && '#' !in r.relative
    ensures |Split(FormatLine(r), '#')| >= 3
    ensures Split(FormatLine(r), '#')[1] == r.name && Split(FormatLine(r), '#')[2] == r.relative
  {
    var lead := "\"" + [if r.isHead then '*' else ' '];
    var tail := r.iso + "\"";
    assert FormatLine(r) == lead + "#" + (r.name + "#" + (r.relative + "#" + tail));
    SplitAtSeparator(lead, r.name + "#" + (r.relative + "#" + tail), '#');
    SplitAtSeparator(r.name, r.relative + "#" + tail, '#');
    SplitAtSeparator(r.relative, tail, '#');
  }

  /** `parseBranch` recovers a branch's name and date label from its line. */
  lemma ParseFormattedLine(r: Ref)
    requires '#' !in r.name && '#' !in r.relative
    ensures ParseBranch(FormatLine(r)) == Entry(r)
  {
    FormatLineColumns(r);
  }

  /** A name holding `#` comes back cut at its first `#`. */
  lemma ParseCutsNameAtHash(r: Ref, before: string, after: string)
    requires r.name == before + "#" + after && '#' !in before
    ensures ParseBranch(FormatLine(r)).value == Some(before)
  {
    var lead := "\"" + [if r.isHead then '*' else ' '];
    var rest := after + "#" + r.relative + "#" + r.iso + "\"";
    assert FormatLine(r) == lead + "#" + (before + "#" + rest);
    SplitAtSeparator(lead, before + "#" + rest, '#');
    SplitAtSeparator(before, rest, '#');
  }

  lemma PlainFieldAvoids(f: string, c: char)
    requires PlainField(f) && (c == '#' || c == '*' || IsLineTerminator(c))
    ensures c !in f
  {
    assert forall t :: 0 <= t < |f| ==> f[t] != c;
  }

  /** Where the columns of a marked line sit once it follows some text. */
  lemma {:induction false} MarkedLineLayout(a: string, r: Ref, rest: string)
    requires PlainRef(r)
    ensures var s := a + (r.name + ("#" + (r.relative + ("#" + (r.iso + "\"" + rest)))));
      && s[..|a|] == a
      && s[|a| + |r.name|] == '#' && s[|a| + |r.name| + 1 + |r.relative|] == '#'
      && (forall t :: |a| <= t < |a| + |r.name| ==> s[t] != '#' && !IsLineTerminator(s[t]))
      && (forall t :: |a| + |r.name| < t < |a| + |r.name| + 1 + |r.relative| ==> !IsLineTerminator(s[t]))
  {
    var c := r.relative + ("#" + (r.iso + "\"" + rest));
    var b := r.name + ("#" + c);
    var s := a + b;
    assert forall t :: 0 <= t < |b| ==> s[|a| + t] == b[t];
    assert forall t :: 0 <= t < |c| ==> b[|r.name| + 1 + t] == c[t];
    assert forall t :: 0 <= t < |r.name| ==> b[t] == r.name[t];
    assert forall t :: 0 <= t < |r.relative| ==> c[t] == r.relative[t];
    forall t | |a| <= t < |a| + |r.name| ensures s[t] != '#' && !IsLineTerminator(s[t]) {
      assert s[t] == r.name[t - |a|];
    }
    forall t | |a| + |r.name| < t < |a| + |r.name| + 1 + |r.relative| ensures !IsLineTerminator(s[t]) {
      assert s[t] == r.relative[t - |a| - |r.name| - 1];
    }
  }

  lemma MarkedLineShape(pre: string, r: Ref, rest: string)
    requires r.isHead
    ensures pre + FormatLine(r) + rest
         == (pre + "\"*#") + (r.name + ("#" + (r.relative + ("#" + (r.iso + "\"" + rest)))))
  {
    var q, h := "\"", "#";
    var b := q + ['*'] + h;
    assert b == "\"*#";
    assert FormatLine(r) == b + r.name + h + r.relative + h + r.iso + q;
    Regroup(pre, b, r.name, h, r.relative, r.iso + q, rest);
    assert r.iso + q + rest == r.iso + "\"" + rest;
  }

  /** Moving the brackets of a concatenation of seven parts. */
  lemma Regroup(a: string, b: string, c: string, d: string, e: string, f: string, g: string)
    ensures a + (b + c + d + e + d + f) + g == (a + b) + (c + (d + (e + (d + (f + g)))))
  {
  }

  /** A line marked `*` after text without `*` makes its name the current branch. */
  lemma {:induction false} CurrentOfMarkedLine(pre: string, r: Ref, rest: string)
    requires '*' !in pre
    requires r.isHead && PlainRef(r)
    ensures CurrentBranch(pre + FormatLine(r) + rest) == Some(r.name)
  {
    var a := pre + "\"*#";
    var s := a + (r.name + ("#" + (r.relative + ("#" + (r.iso + "\"" + rest)))));
    MarkedLineShape(pre, r, rest);
    MarkedLineLayout(a, r, rest);
    var i := |pre| + 1;
    var hash := |a| + |r.name|;
    var j := hash + 1 + |r.relative|;
    assert s[i] == a[i] == '*' && s[i + 1] == a[i + 1] == '#';
    forall t | 0 <= t < i ensures s[t] != '*' {
      assert s[t] == a[t];
      if t < |pre| {
        assert a[t] == pre[t];
      }
    }
    assert MatchesAt(s, i, j);
    CurrentIsTextToNextHash(s, i, j, hash);
    assert s[i + 2..hash] == r.name;
  }

  /** No line of plain fields holds a `*` unless it is marked. */
  lemma UnmarkedLineHasNoStar(r: Ref)
    requires PlainRef(r) && !r.isHead
    ensures '*' !in FormatLine(r)
  {
    PlainFieldAvoids(r.name, '*');
    PlainFieldAvoids(r.relative, '*');
    PlainFieldAvoids(r.iso, '*');
  }

  /** The current branch of a rendered listing is the name on the first line marked `*`. */
  lemma CurrentOfRendered(refs: seq<Ref>, k: nat)
    requires k < |refs| && refs[k].isHead
    requires forall m :: 0 <= m < |refs| ==> PlainRef(refs[m])
    requires forall m :: 0 <= m < k ==> !refs[m].isHead
    ensures CurrentBranch(Render(refs)) == Some(refs[k].name)
  {
    var lines := Lines(refs);
    JoinAt(lines, '\n', k);
    JoinStartsWithFirst(lines[k..], '\n');
    var pre := Terminated(lines[..k], '\n');
    var after := Join(lines[k..], '\n');
    forall m | 0 <= m < k ensures '*' !in lines[..k][m] {
      UnmarkedLineHasNoStar(refs[m]);
    }
    TerminatedAvoids(lines[..k], '\n', '*');
    assert after == lines[k] + after[|lines[k]|..];
    assert Render(refs) == pre + FormatLine(refs[k]) + after[|lines[k]|..];
    CurrentOfMarkedLine(pre, refs[k], after[|lines[k]|..]);
  }

  /** With no branch checked out (a detached HEAD) no line is marked, and the current branch is undefined. */
  lemma CurrentOfDetached(refs: seq<Ref>)
    requires forall m :: 0 <= m < |refs| ==> PlainRef(refs[m]) && !refs[m].isHead
    ensures CurrentBranch(Render(refs)) == None
  {
    var lines := Lines(refs);
    forall m | 0 <= m < |lines| ensures '*' !in lines[m] {
      UnmarkedLineHasNoStar(refs[m]);
    }
    if |lines| > 0 {
      JoinAt(lines, '\n', |lines| - 1);
      TerminatedAvoids(lines[..|lines| - 1], '\n', '*');
      assert lines[|lines| - 1..] == [lines[|lines| - 1]];
    }
    var s := Render(refs);
    assert '*' !in s;
    NoMarkerNoCurrent(s);
  }

  // ---------------------------------------------------------------------------

  /**
   * `getBranches(compare)`: an empty listing ends the run with status 1;
   * otherwise the current branch and one choice per line, in sorted order.
   */
  function GetBranches(listing: string, sort: Sorter): (r: Step<Listed>)
    ensures r.Stop? <==> listing == ""
    ensures r.Stop? ==> r.end == Exited(1)
    ensures r.Continue? ==> r.value.current == CurrentBranch(listing)
    ensures r.Continue? ==> |r.value.all| == |sort(Split(listing, '\n'))|
  {
    if listing == "" then Stop(Exited(1))
    else Continue(Listed(CurrentBranch(listing), ParseAll(sort(Split(listing, '\n')))))
  }

  /** A rendered listing is not empty and splits back into its lines. */
  lemma RenderSplitsIntoLines(refs: seq<Ref>)
    requires |refs| >= 1
    requires forall m :: 0 <= m < |refs| ==> PlainRef(refs[m])
    ensures Render(refs) != ""
    ensures Split(Render(refs), '\n') == Lines(refs)
  {
    var lines := Lines(refs);
    forall m | 0 <= m < |lines| ensures '\n' !in lines[m] {
      PlainFieldAvoids(refs[m].name, '\n');
      PlainFieldAvoids(refs[m].relative, '\n');
      PlainFieldAvoids(refs[m].iso, '\n');
    }
    SplitJoin(lines, '\n');
    JoinStartsWithFirst(lines, '\n');
    assert |lines[0]| > 0;
  }

  /** The entry of every ref is parsed from its line. */
  lemma ParsedLines(refs: seq<Ref>)
    requires forall m :: 0 <= m < |refs| ==> PlainRef(refs[m])
    ensures forall m :: 0 <= m < |refs| ==> ParseBranch(Lines(refs)[m]) == Entry(refs[m])
  {
    forall m | 0 <= m < |refs| ensures ParseBranch(Lines(refs)[m]) == Entry(refs[m]) {
      PlainFieldAvoids(refs[m].name, '#');
      PlainFieldAvoids(refs[m].relative, '#');
      ParseFormattedLine(refs[m]);
    }
  }

  /**
   * For a listing rendered from refs, and a sort that permutes the lines,
   * the choices are exactly the refs' entries.
   */
  lemma ListedOfRendered(refs: seq<Ref>, sort: Sorter)
    requires |refs| >= 1
    requires forall m :: 0 <= m < |refs| ==> PlainRef(refs[m])
    requires multiset(sort(Lines(refs))) == multiset(Lines(refs))
    ensures GetBranches(Render(refs), sort).Continue?
    ensures forall c :: c in GetBranches(Render(refs), sort).value.all <==> exists r :: r in refs && c == Entry(r)
  {
    RenderSplitsIntoLines(refs);
    ParsedLines(refs);
    var lines := Lines(refs);
    var sorted := sort(lines);
    var all := ParseAll(sorted);
    assert GetBranches(Render(refs), sort).value.all == all;
    forall c | c in all ensures exists r :: r in refs && c == Entry(r) {
      var k :| 0 <= k < |all| && all[k] == c;
      assert sorted[k] in multiset(lines);
      var m :| 0 <= m < |lines| && lines[m] == sorted[k];
      assert refs[m] in refs && c == Entry(refs[m]);
    }
    forall r | r in refs ensures Entry(r) in all {
      var m :| 0 <= m < |refs| && refs[m] == r;
      assert lines[m] in multiset(sorted);
      var k :| 0 <= k < |sorted| && sorted[k] == lines[m];
      assert all[k] == Entry(r);
    }
  }
}
