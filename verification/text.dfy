/** String operations the parser borrows from JavaScript's String API — `trim`,
    `toLowerCase`, `indexOf`, `split`, `join`, `startsWith` — restricted to ASCII,
    and the `//` comment-line filter that both parsers apply first
    (js/bibtex-parser.js:29-31 and 168-170). */
module Text {
  import opened Options

  // ---------------------------------------------------------------------------
  // Characters
  // ---------------------------------------------------------------------------

  /** ASCII whitespace: what `trim` removes and what `\s` matches (space, tab,
      line feed, carriage return, vertical tab, form feed). */
  predicate IsSpace(c: char) {
    c == ' ' || c == '\t' || c == '\n' || c == '\r' || c == '\U{000B}' || c == '\U{000C}'
  }

  /** The characters the regular-expression `.` refuses to match. */
  predicate IsLineTerminator(c: char) {
    c == '\n' || c == '\r'
  }

  predicate AllSpace(s: string) {
    forall i :: 0 <= i < |s| ==> IsSpace(s[i])
  }

  predicate NoLineTerminator(s: string) {
    forall i :: 0 <= i < |s| ==> !IsLineTerminator(s[i])
  }

  /** `s` has no whitespace at either end. */
  predicate IsTrimmed(s: string) {
    s == [] || (!IsSpace(s[0]) && !IsSpace(s[|s| - 1]))
  }

  /** End of the whitespace run that starts at `i` (what a greedy `\s*` consumes). */
  function SpaceEnd(s: string, i: nat): (j: nat)
    requires i <= |s|
    ensures i <= j <= |s|
    ensures forall k :: i <= k < j ==> IsSpace(s[k])
    ensures j == |s| || !IsSpace(s[j])
    decreases |s| - i
  {
    if i < |s| && IsSpace(s[i]) then SpaceEnd(s, i + 1) else i
  }

  /** The run that starts at `i` ends at `j` when `s[i..j]` is whitespace and `s[j]` is not. */
  lemma SpaceEndIs(s: string, i: nat, j: nat)
    requires i <= j <= |s|
    requires forall k :: i <= k < j ==> IsSpace(s[k])
    requires j == |s| || !IsSpace(s[j])
    ensures SpaceEnd(s, i) == j
    decreases j - i
  {
    if i < j {
      SpaceEndIs(s, i + 1, j);
    }
  }

  // ---------------------------------------------------------------------------
  // trim
  // ---------------------------------------------------------------------------

  /** Start of the whitespace run that ends at `j` and does not reach below `lo`. */
  function SpaceStart(s: string, lo: nat, j: nat): (e: nat)
    requires lo <= j <= |s|
    ensures lo <= e <= j
    ensures forall k :: e <= k < j ==> IsSpace(s[k])
    ensures e == lo || !IsSpace(s[e - 1])
    decreases j
  {
    if j > lo && IsSpace(s[j - 1]) then SpaceStart(s, lo, j - 1) else j
  }

  /** `r` is `s` with the whitespace run `s[..lo]` and the whitespace run after `r` cut off. */
  predicate TrimmedSlice(s: string, r: string, lo: int) {
    && 0 <= lo && lo + |r| <= |s| && s[lo..lo + |r|] == r
    && (forall k :: 0 <= k < lo ==> IsSpace(s[k]))
    && (forall k :: lo + |r| <= k < |s| ==> IsSpace(s[k]))
  }

  /** JavaScript's `String.prototype.trim` over ASCII whitespace. */
  function Trim(s: string): (r: string)
    ensures IsTrimmed(r) && |r| <= |s|
  {
    var lo := SpaceEnd(s, 0);
    s[lo..SpaceStart(s, lo, |s|)]
  }

  /** What trimming removes: a whitespace run on each side, and nothing else. */
  lemma TrimSlice(s: string)
    ensures TrimmedSlice(s, Trim(s), SpaceEnd(s, 0))
  {
  }

  /** Trimming keeps every non-blank string that has no blank ends, and only those. */
  lemma TrimFixesTrimmed(s: string)
    ensures Trim(s) == s <==> IsTrimmed(s)
  {
    if IsTrimmed(s) && s != [] {
      assert SpaceEnd(s, 0) == 0;
      assert SpaceStart(s, 0, |s|) == |s|;
    }
  }

  /** The run that ends at `j` starts at `e` when `s[e..j]` is whitespace and `s[e - 1]` is not. */
  lemma SpaceStartIs(s: string, lo: nat, j: nat, e: nat)
    requires lo <= e <= j <= |s|
    requires forall k :: e <= k < j ==> IsSpace(s[k])
    requires e == lo || !IsSpace(s[e - 1])
    ensures SpaceStart(s, lo, j) == e
    decreases j - e
  {
    if e < j {
      SpaceStartIs(s, lo, j - 1, e);
    }
  }

  /** Trimming a trimmed string padded with whitespace gives the string back. */
  lemma TrimPadded(w: string, x: string, v: string)
    requires AllSpace(w) && AllSpace(v) && IsTrimmed(x)
    ensures Trim(w + x + v) == x
  {
    var s := w + x + v;
    if x == [] {
      assert AllSpace(s) by {
        forall k | 0 <= k < |s| ensures IsSpace(s[k]) {
          if k < |w| { assert s[k] == w[k]; } else { assert s[k] == v[k - |w|]; }
        }
      }
      SpaceEndIs(s, 0, |s|);
    } else {
      var e := |w| + |x|;
      assert s[|w|] == x[0] && s[e - 1] == x[|x| - 1];
      assert forall k :: 0 <= k < |w| ==> IsSpace(s[k]) by {
        assert forall k :: 0 <= k < |w| ==> s[k] == w[k];
      }
      assert forall k :: e <= k < |s| ==> IsSpace(s[k]) by {
        assert forall k :: e <= k < |s| ==> s[k] == v[k - e];
      }
      SpaceEndIs(s, 0, |w|);
      SpaceStartIs(s, |w|, |s|, e);
      assert s[|w|..e] == x;
    }
  }

  // ---------------------------------------------------------------------------
  // toLowerCase, startsWith, endsWith
  // ---------------------------------------------------------------------------

  function LowerChar(c: char): char {
    if 'A' <= c <= 'Z' then (c as int + 32) as char else c
  }

  /** `toLowerCase` on ASCII letters; every other character is kept. */
  function Lower(s: string): (r: string)
    ensures |r| == |s|
    ensures forall i :: 0 <= i < |s| ==> r[i] == LowerChar(s[i])
  {
    if s == [] then [] else [LowerChar(s[0])] + Lower(s[1..])
  }

  predicate IsLower(s: string) {
    Lower(s) == s
  }

  lemma LowerIsLower(s: string)
    ensures IsLower(Lower(s))
  {
    assert Lower(Lower(s)) == Lower(s);
  }

  predicate StartsWith(s: string, prefix: string) {
    |prefix| <= |s| && s[..|prefix|] == prefix
  }

  predicate EndsWith(s: string, suffix: string) {
    |suffix| <= |s| && s[|s| - |suffix|..] == suffix
  }

  // ---------------------------------------------------------------------------
  // indexOf
  // ---------------------------------------------------------------------------

  /** `s.indexOf(c, from)`: the first position at or after `from` holding `c`. */
  function IndexOfFrom(s: string, c: char, from: nat): (r: Option<nat>)
    requires from <= |s|
    ensures r.Some? ==> from <= r.value < |s| && s[r.value] == c
    decreases |s| - from
  {
    if from == |s| then None
    else if s[from] == c then Some(from)
    else IndexOfFrom(s, c, from + 1)
  }

  /** The scan stops at the first `c` from `from` on, and finds none only when there is none. */
  lemma {:induction false} IndexOfFromFirst(s: string, c: char, from: nat)
    requires from <= |s|
    ensures IndexOfFrom(s, c, from).Some? ==> forall j :: from <= j < IndexOfFrom(s, c, from).value ==> s[j] != c
    ensures IndexOfFrom(s, c, from).None? <==> forall j :: from <= j < |s| ==> s[j] != c
    decreases |s| - from
  {
    if from < |s| && s[from] != c {
      IndexOfFromFirst(s, c, from + 1);
    }
  }

  /** `s.indexOf(c)`. */
  function IndexOf(s: string, c: char): (r: Option<nat>)
    ensures r.Some? ==> r.value < |s| && s[r.value] == c
    ensures r.Some? ==> forall j :: 0 <= j < r.value ==> s[j] != c
    ensures r.None? <==> c !in s
  {
    var r := IndexOfFrom(s, c, 0);
    IndexOfFromFirst(s, c, 0);
    if r.None? then
      assert forall j :: 0 <= j < |s| ==> s[j] != c;
      r
    else
      r
  }

  /** The position `indexOf` reports: the first one holding `c`. */
  lemma IndexOfIs(s: string, c: char, i: nat)
    requires i < |s| && s[i] == c
    requires forall j :: 0 <= j < i ==> s[j] != c
    ensures IndexOf(s, c) == Some(i)
  {
    var r := IndexOf(s, c);
    assert r.Some? by {
      assert c in s;
    }
  }

  /** The first `c` from `from` on is where the scan stops. */
  lemma {:induction false} IndexOfFromIs(s: string, c: char, from: nat, i: nat)
    requires from <= i < |s| && s[i] == c
    requires forall j :: from <= j < i ==> s[j] != c
    ensures IndexOfFrom(s, c, from) == Some(i)
    decreases i - from
  {
    if from < i {
      IndexOfFromIs(s, c, from + 1, i);
    }
  }

  // ---------------------------------------------------------------------------
  // Substring search
  // ---------------------------------------------------------------------------

  predicate OccursAt(s: string, pat: string, i: int) {
    0 <= i && i + |pat| <= |s| && s[i..i + |pat|] == pat
  }

  predicate Contains(s: string, pat: string) {
    exists i :: 0 <= i <= |s| && OccursAt(s, pat, i)
  }

  /** A window that ends inside a prefix is seen the same in the prefix and in the whole. */
  lemma OccursInPrefix(s: string, k: int, pat: string, j: int)
    requires 0 <= j && j + |pat| <= k <= |s|
    ensures OccursAt(s[..k], pat, j) <==> OccursAt(s, pat, j)
  {
    assert s[..k][j..j + |pat|] == s[j..j + |pat|];
  }

  /** The first occurrence of `pat` in `s` at or after `from`. */
  function FindFrom(s: string, pat: string, from: nat): (r: Option<nat>)
    requires |pat| > 0 && from <= |s|
    ensures r.Some? ==> from <= r.value && OccursAt(s, pat, r.value)
    ensures r.Some? ==> forall j :: from <= j < r.value ==> !OccursAt(s, pat, j)
    ensures r.None? ==> forall j :: from <= j ==> !OccursAt(s, pat, j)
    decreases |s| - from
  {
    if from + |pat| > |s| then None
    else if s[from..from + |pat|] == pat then Some(from)
    else FindFrom(s, pat, from + 1)
  }

  /** The first occurrence of `pat` in `s`. */
  function Find(s: string, pat: string): (r: Option<nat>)
    requires |pat| > 0
    ensures r.Some? ==> OccursAt(s, pat, r.value) && forall j :: 0 <= j < r.value ==> !OccursAt(s, pat, j)
    ensures r.None? <==> !Contains(s, pat)
  {
    FindFrom(s, pat, 0)
  }

  /** An occurrence with nothing before it is what `Find` reports. */
  lemma FindFirst(s: string, pat: string, i: nat)
    requires |pat| > 0 && OccursAt(s, pat, i)
    requires forall j :: 0 <= j < i ==> !OccursAt(s, pat, j)
    ensures Find(s, pat) == Some(i)
  {
  }

  // ---------------------------------------------------------------------------
  // split and join
  // ---------------------------------------------------------------------------

  /** `xs.join(sep)`. */
  function JoinWith(xs: seq<string>, sep: string): string {
    if |xs| == 0 then []
    else if |xs| == 1 then xs[0]
    else xs[0] + sep + JoinWith(xs[1..], sep)
  }

  /** A join ends with its last piece. */
  lemma {:induction false} JoinEndsWith(xs: seq<string>, sep: string)
    requires |xs| >= 1
    ensures |xs[|xs| - 1]| <= |JoinWith(xs, sep)|
    ensures JoinWith(xs, sep)[|JoinWith(xs, sep)| - |xs[|xs| - 1]|..] == xs[|xs| - 1]
    decreases |xs|
  {
    if |xs| > 1 {
      JoinEndsWith(xs[1..], sep);
      var j, t, last := JoinWith(xs, sep), JoinWith(xs[1..], sep), xs[|xs| - 1];
      assert xs[1..][|xs[1..]| - 1] == last;
      assert j == (xs[0] + sep) + t;
      assert j[|j| - |last|..] == t[|t| - |last|..];
    }
  }

  /** A character found in neither the pieces nor the separator is not in their join. */
  lemma {:induction false} CharNotInJoin(xs: seq<string>, sep: string, c: char)
    requires c !in sep
    requires forall k :: 0 <= k < |xs| ==> c !in xs[k]
    ensures c !in JoinWith(xs, sep)
    decreases |xs|
  {
    if |xs| > 1 {
      CharNotInJoin(xs[1..], sep, c);
    }
  }

  /** Searching `piece + sep` finds `sep` first at the end: `piece` followed by
      `sep` is cut exactly there by a left-to-right split. */
  predicate SepFirstAfter(piece: string, sep: string) {
    forall j :: 0 <= j < |piece| ==> !OccursAt(piece + sep, sep, j)
  }

  /** `xs` are pieces that splitting their join on `sep` gives back: `sep`
      first shows up right after each piece but the last, and never inside it. */
  predicate SplitsBackTo(xs: seq<string>, sep: string) {
    && |xs| >= 1
    && (forall k :: 0 <= k < |xs| - 1 ==> SepFirstAfter(xs[k], sep))
    && !Contains(xs[|xs| - 1], sep)
  }

  lemma ConcatAssoc(a: string, b: string, c: string)
    ensures a + b + c == a + (b + c)
  {
  }

  /** `s.split(sep)` for a non-empty separator string: cuts at the leftmost
      occurrence, then continues after it. */
  function SplitOn(s: string, sep: string): (r: seq<string>)
    requires |sep| > 0
    ensures |r| >= 1
    decreases |s|
  {
    match Find(s, sep)
    case None => [s]
    case Some(i) => [s[..i]] + SplitOn(s[i + |sep|..], sep)
  }

  /** The pieces of a split join back to the text. */
  lemma {:induction false} SplitOnJoins(s: string, sep: string)
    requires |sep| > 0
    ensures JoinWith(SplitOn(s, sep), sep) == s
    decreases |s|
  {
    match Find(s, sep)
    case None =>
    case Some(i) =>
      var tail := s[i + |sep|..];
      SplitOnJoins(tail, sep);
      JoinCons(s[..i], SplitOn(tail, sep), sep);
      CutAround(s, i, |sep|);
  }

  lemma JoinCons(x: string, xs: seq<string>, sep: string)
    requires |xs| >= 1
    ensures JoinWith([x] + xs, sep) == x + sep + JoinWith(xs, sep)
  {
    assert ([x] + xs)[1..] == xs;
  }

  lemma CutAround(s: string, i: nat, n: nat)
    requires i + n <= |s|
    ensures s == s[..i] + s[i..i + n] + s[i + n..]
  {
  }

  /** The piece a split leaves after the last separator. */
  function LastPiece(s: string, sep: string): string
    requires |sep| > 0
    decreases |s|
  {
    match Find(s, sep)
    case None => s
    case Some(i) => LastPiece(s[i + |sep|..], sep)
  }

  lemma {:induction false} LastPieceIsLast(s: string, sep: string)
    requires |sep| > 0
    ensures SplitOn(s, sep)[|SplitOn(s, sep)| - 1] == LastPiece(s, sep)
    decreases |s|
  {
    match Find(s, sep)
    case None =>
    case Some(i) =>
      var tail := SplitOn(s[i + |sep|..], sep);
      LastPieceIsLast(s[i + |sep|..], sep);
      var r := SplitOn(s, sep);
      assert r == [s[..i]] + tail;
      assert r[|tail|] == tail[|tail| - 1];
  }

  lemma {:induction false} LastPieceHasNoSep(s: string, sep: string)
    requires |sep| > 0
    ensures !Contains(LastPiece(s, sep), sep)
    decreases |s|
  {
    match Find(s, sep)
    case None =>
    case Some(i) =>
      LastPieceHasNoSep(s[i + |sep|..], sep);
  }

  /** The last piece of a split holds no separator. */
  lemma SplitOnLast(s: string, sep: string)
    requires |sep| > 0
    ensures !Contains(SplitOn(s, sep)[|SplitOn(s, sep)| - 1], sep)
  {
    LastPieceIsLast(s, sep);
    LastPieceHasNoSep(s, sep);
  }

  /** Every piece of a split but the last is cut at the first separator after it. */
  lemma {:induction false} SplitOnCuts(s: string, sep: string)
    requires |sep| > 0
    ensures forall k :: 0 <= k < |SplitOn(s, sep)| - 1 ==> SepFirstAfter(SplitOn(s, sep)[k], sep)
    decreases |s|
  {
    match Find(s, sep)
    case None =>
    case Some(i) =>
      var head := s[..i];
      var tail := s[i + |sep|..];
      SplitOnCuts(tail, sep);
      assert SepFirstAfter(head, sep) by {
        assert head + sep == s[..i + |sep|];
        forall j | 0 <= j < |head|
          ensures !OccursAt(head + sep, sep, j)
        {
          OccursInPrefix(s, i + |sep|, sep, j);
        }
      }
      var r := SplitOn(s, sep);
      assert r[1..] == SplitOn(tail, sep);
  }

  /** Splitting a joined list gives the list back, provided each piece is cut
      exactly at the separator that follows it. */
  lemma {:induction false} SplitJoin(xs: seq<string>, sep: string)
    requires |sep| > 0 && |xs| >= 1
    requires forall k :: 0 <= k < |xs| - 1 ==> SepFirstAfter(xs[k], sep)
    requires !Contains(xs[|xs| - 1], sep)
    ensures SplitOn(JoinWith(xs, sep), sep) == xs
    decreases |xs|
  {
    if |xs| > 1 {
      var x := xs[0];
      var tail := JoinWith(xs[1..], sep);
      var s := x + sep + tail;
      assert JoinWith(xs, sep) == s;
      assert s[..|x| + |sep|] == x + sep;
      forall j | 0 <= j < |x|
        ensures !OccursAt(s, sep, j)
      {
        OccursInPrefix(s, |x| + |sep|, sep, j);
      }
      assert s[|x|..|x| + |sep|] == sep;
      FindFirst(s, sep, |x|);
      assert s[..|x|] == x;
      assert s[|x| + |sep|..] == tail;
      SplitJoin(xs[1..], sep);
    }
  }

  /** For a one-character separator the split condition is only "no separator inside". */
  lemma SepFirstAfterChar(piece: string, c: char)
    requires c !in piece
    ensures SepFirstAfter(piece, [c])
  {
    forall j | 0 <= j < |piece|
      ensures !OccursAt(piece + [c], [c], j)
    {
      assert (piece + [c])[j] == piece[j];
    }
  }

  lemma NotContainsChar(s: string, c: char)
    requires c !in s
    ensures !Contains(s, [c])
  {
    forall i | 0 <= i <= |s|
      ensures !OccursAt(s, [c], i)
    {
      if i + 1 <= |s| {
        assert s[i..i + 1][0] == s[i];
      }
    }
  }

  /** Splitting on one character undoes joining on it, when no piece holds it. */
  lemma SplitJoinChar(xs: seq<string>, c: char)
    requires |xs| >= 1
    requires forall k :: 0 <= k < |xs| ==> c !in xs[k]
    ensures SplitOn(JoinWith(xs, [c]), [c]) == xs
  {
    forall k | 0 <= k < |xs| - 1
      ensures SepFirstAfter(xs[k], [c])
    {
      SepFirstAfterChar(xs[k], c);
    }
    NotContainsChar(xs[|xs| - 1], c);
    SplitJoin(xs, [c]);
  }

  /** No piece of a one-character split holds that character. */
  lemma SplitCharPieces(s: string, c: char)
    ensures forall k :: 0 <= k < |SplitOn(s, [c])| ==> c !in SplitOn(s, [c])[k]
  {
    var r := SplitOn(s, [c]);
    SplitOnCuts(s, [c]);
    SplitOnLast(s, [c]);
    forall k | 0 <= k < |r|
      ensures c !in r[k]
    {
      if c in r[k] {
        var j :| 0 <= j < |r[k]| && r[k][j] == c;
        if k < |r| - 1 {
          assert (r[k] + [c])[j..j + 1] == [c];
          assert OccursAt(r[k] + [c], [c], j);
        } else {
          assert r[k][j..j + 1] == [c];
          assert OccursAt(r[k], [c], j);
        }
      }
    }
  }

  // ---------------------------------------------------------------------------
  // Comment lines
  // ---------------------------------------------------------------------------

  /** A line whose trimmed text starts with `//`. */
  predicate IsCommentLine(line: string) {
    StartsWith(Trim(line), "//")
  }

  /** `lines.filter(line => !line.trim().startsWith('//'))`. */
  function DropComments(lines: seq<string>): (r: seq<string>)
    ensures |r| <= |lines|
    ensures forall k :: 0 <= k < |r| ==> !IsCommentLine(r[k]) && r[k] in lines
    ensures (forall k :: 0 <= k < |lines| ==> !IsCommentLine(lines[k])) ==> r == lines
  {
    if lines == [] then []
    else if IsCommentLine(lines[|lines| - 1]) then DropComments(lines[..|lines| - 1])
    else DropComments(lines[..|lines| - 1]) + [lines[|lines| - 1]]
  }

  /** `s.split('\n').filter(...).join('\n')`: the text with its comment lines removed. */
  function StripComments(s: string): (r: string)
    ensures forall k :: 0 <= k < |SplitOn(r, "\n")| ==> !IsCommentLine(SplitOn(r, "\n")[k])
  {
    var lines := SplitOn(s, "\n");
    var kept := DropComments(lines);
    SplitCharPieces(s, '\n');
    StrippedLines(kept);
    JoinWith(kept, "\n")
  }

  /** The lines of a joined list of comment-free lines are that list (or the one
      empty line when the list is empty). */
  lemma StrippedLines(kept: seq<string>)
    requires forall k :: 0 <= k < |kept| ==> !IsCommentLine(kept[k]) && '\n' !in kept[k]
    ensures forall k :: 0 <= k < |SplitOn(JoinWith(kept, "\n"), "\n")| ==> !IsCommentLine(SplitOn(JoinWith(kept, "\n"), "\n")[k])
  {
    if kept == [] {
      assert !Contains([], "\n");
      assert Find([], "\n") == None;
      assert SplitOn([], "\n") == [[]];
      assert Trim([]) == [];
    } else {
      SplitJoinChar(kept, '\n');
    }
  }

  /** Removing comment lines twice removes nothing more. */
  lemma StripCommentsIdempotent(s: string)
    ensures StripComments(StripComments(s)) == StripComments(s)
  {
    var r := StripComments(s);
    var lines := SplitOn(r, "\n");
    SplitOnJoins(r, "\n");
    assert DropComments(lines) == lines;
  }

  /** The filter works line by line: filtering a concatenation filters each part. */
  lemma {:induction false} DropCommentsAppend(a: seq<string>, b: seq<string>)
    ensures DropComments(a + b) == DropComments(a) + DropComments(b)
    decreases |b|
  {
    if b == [] {
      assert a + b == a;
    } else {
      var init, x := b[..|b| - 1], b[|b| - 1];
      assert b == init + [x];
      assert a + b == (a + init) + [x];
      DropCommentsSnoc(a + init, x);
      DropCommentsSnoc(init, x);
      DropCommentsAppend(a, init);
      var p, q, keep := DropComments(a), DropComments(init), if IsCommentLine(x) then [] else [x];
      assert (p + q) + keep == p + (q + keep);
    }
  }

  /** Appending one line appends it to the result unless it is a comment line. */
  lemma DropCommentsSnoc(xs: seq<string>, x: string)
    ensures DropComments(xs + [x]) == DropComments(xs) + (if IsCommentLine(x) then [] else [x])
  {
    var ys := xs + [x];
    assert ys[..|ys| - 1] == xs && ys[|ys| - 1] == x;
  }

  /** One line is dropped exactly when it is a comment line, and kept as it is otherwise. */
  lemma DropCommentsOne(x: string)
    ensures DropComments([x]) == if IsCommentLine(x) then [] else [x]
  {
    assert [x][..0] == [];
  }

  /** Comment removal on text made of lines without line feeds joins, with line
      feeds, exactly the lines that are not comments, in their order. */
  lemma StripCommentsJoin(xs: seq<string>)
    requires forall k :: 0 <= k < |xs| ==> '\n' !in xs[k]
    ensures StripComments(JoinWith(xs, "\n")) == JoinWith(DropComments(xs), "\n")
  {
    if xs == [] {
      assert !Contains([], "\n");
      assert Find([], "\n") == None;
      assert SplitOn([], "\n") == [[]];
      assert Trim([]) == [];
      DropCommentsOne([]);
    } else {
      SplitJoinChar(xs, '\n');
    }
  }
}
