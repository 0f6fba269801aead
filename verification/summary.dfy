/** `BibtexParser.parseSummary` (js/bibtex-parser.js:162-258): a markdown summary
    read line by line into a title, named sections and a list of resource links.
    The four regular expressions of the constructor (js/bibtex-parser.js:9-12) are
    written out as scans. */
module Summary {
  import opened Options
  import opened Text
  import opened Search

  // ---------------------------------------------------------------------------
  // The line patterns: /^#+\s+(.*?)$/, /^##\s+(.*?)$/, /^-\s+(.*?)$/
  // ---------------------------------------------------------------------------

  /** What `\s+(.*?)$` captures from `line[k..]`. The whitespace run is greedy and
      giving any of it back only moves whitespace into the capture, which then
      still has to reach the end of the line without a line terminator; so the
      match exists exactly when the text after the whole run has none, and that
      text is the capture. */
  function AfterMarker(line: string, k: nat): Option<string>
    requires k <= |line|
  {
    var w := SpaceEnd(line, k);
    if w > k && NoLineTerminator(line[w..]) then Some(line[w..]) else None
  }

  /** A marker, a non-empty whitespace gap and a text that starts with no
      whitespace and holds no line terminator: the text is what is captured. */
  lemma AfterMarkerIs(marker: string, gap: string, t: string)
    requires |gap| > 0 && AllSpace(gap)
    requires t == [] || !IsSpace(t[0])
    requires NoLineTerminator(t)
    ensures AfterMarker(marker + gap + t, |marker|) == Some(t)
  {
    var line := marker + gap + t;
    var w := |marker| + |gap|;
    forall k | |marker| <= k < w
      ensures IsSpace(line[k])
    {
      assert line[k] == gap[k - |marker|];
    }
    if t != [] {
      assert line[w] == t[0];
    }
    SpaceEndIs(line, |marker|, w);
    assert line[w..] == t;
  }

  /** A capture is the end of the line, after a non-empty whitespace gap; it
      holds no line terminator and does not start with whitespace. */
  lemma AfterMarkerSound(line: string, k: nat)
    requires k <= |line| && AfterMarker(line, k).Some?
    ensures var t := AfterMarker(line, k).value;
      && k < |line| - |t| && t == line[|line| - |t|..]
      && (forall j :: k <= j < |line| - |t| ==> IsSpace(line[j]))
      && NoLineTerminator(t) && (t == [] || !IsSpace(t[0]))
  {
  }

  /** End of the run of `#` that starts at `i`. */
  function HashEnd(line: string, i: nat): (j: nat)
    requires i <= |line|
    ensures i <= j <= |line|
    ensures forall k :: i <= k < j ==> line[k] == '#'
    ensures j == |line| || line[j] != '#'
    decreases |line| - i
  {
    if i < |line| && line[i] == '#' then HashEnd(line, i + 1) else i
  }

  /** `line.match(/^#+\s+(.*?)$/)`, the header pattern: its capture. */
  function HeaderText(line: string): Option<string> {
    var h := HashEnd(line, 0);
    if h == 0 then None else AfterMarker(line, h)
  }

  /** `line.match(/^##\s+(.*?)$/)`, the section pattern: its capture. */
  function SubHeaderText(line: string): Option<string> {
    if StartsWith(line, "##") then AfterMarker(line, 2) else None
  }

  /** `line.match(/^-\s+(.*?)$/)`, the list-item pattern: its capture. */
  function ListItemText(line: string): Option<string> {
    if StartsWith(line, "-") then AfterMarker(line, 1) else None
  }

  /** Every section line is also a header line, with the same capture: while no
      title has been found, a `## ...` line becomes the title. */
  lemma SubHeaderIsHeader(line: string)
    requires SubHeaderText(line).Some?
    ensures HeaderText(line) == SubHeaderText(line)
  {
    assert line[0] == '#' && line[1] == '#';
    assert HashEnd(line, 0) == 2;
  }

  /** On a trimmed line the captures are never empty: the line does not end in
      the whitespace the pattern needs before the capture. */
  lemma CaptureNotEmpty(line: string, k: nat)
    requires k <= |line| && IsTrimmed(line) && AfterMarker(line, k).Some?
    ensures AfterMarker(line, k).value != []
  {
    AfterMarkerSound(line, k);
  }

  /** The run of `#` that starts at `i` ends at `j` when `line[i..j]` is all `#`
      and `line[j]` is not. */
  lemma HashEndIs(line: string, i: nat, j: nat)
    requires i <= j <= |line|
    requires forall k :: i <= k < j ==> line[k] == '#'
    requires j == |line| || line[j] != '#'
    ensures HashEnd(line, i) == j
    decreases j - i
  {
    if i < j {
      HashEndIs(line, i + 1, j);
    }
  }

  /** `t` is what a pattern captures after a marker ending at `k`: the end of the
      line, after a non-empty whitespace gap, with no line terminator and no
      leading whitespace. */
  ghost predicate CapturedAfter(line: string, k: nat, t: string) {
    && k < |line| - |t| && t == line[|line| - |t|..]
    && (forall j :: k <= j < |line| - |t| ==> IsSpace(line[j]))
    && NoLineTerminator(t) && (t == [] || !IsSpace(t[0]))
  }

  /** One or more `#`, a whitespace gap and a text: the header pattern captures the text. */
  lemma HeaderTextIs(hashes: string, gap: string, t: string)
    requires |hashes| > 0 && forall k :: 0 <= k < |hashes| ==> hashes[k] == '#'
    requires |gap| > 0 && AllSpace(gap)
    requires t == [] || !IsSpace(t[0])
    requires NoLineTerminator(t)
    ensures HeaderText(hashes + gap + t) == Some(t)
  {
    var line := hashes + gap + t;
    assert line[|hashes|] == gap[0];
    HashEndIs(line, 0, |hashes|);
    AfterMarkerIs(hashes, gap, t);
  }

  /** What the header pattern captures follows a run of `#` that opens the line. */
  lemma HeaderTextSound(line: string)
    requires HeaderText(line).Some?
    ensures 0 < HashEnd(line, 0) && forall j :: 0 <= j < HashEnd(line, 0) ==> line[j] == '#'
    ensures CapturedAfter(line, HashEnd(line, 0), HeaderText(line).value)
  {
    AfterMarkerSound(line, HashEnd(line, 0));
  }

  /** `##`, a whitespace gap and a text: the section pattern captures the text. */
  lemma SubHeaderTextIs(gap: string, t: string)
    requires |gap| > 0 && AllSpace(gap)
    requires t == [] || !IsSpace(t[0])
    requires NoLineTerminator(t)
    ensures SubHeaderText("##" + gap + t) == Some(t)
  {
    var line := "##" + gap + t;
    assert line[..2] == "##";
    AfterMarkerIs("##", gap, t);
  }

  /** What the section pattern captures follows `##` at the start of the line. */
  lemma SubHeaderTextSound(line: string)
    requires SubHeaderText(line).Some?
    ensures StartsWith(line, "##") && CapturedAfter(line, 2, SubHeaderText(line).value)
  {
    AfterMarkerSound(line, 2);
  }

  /** `-`, a whitespace gap and a text: the list-item pattern captures the text. */
  lemma ListItemTextIs(gap: string, t: string)
    requires |gap| > 0 && AllSpace(gap)
    requires t == [] || !IsSpace(t[0])
    requires NoLineTerminator(t)
    ensures ListItemText("-" + gap + t) == Some(t)
  {
    var line := "-" + gap + t;
    assert line[..1] == "-";
    AfterMarkerIs("-", gap, t);
  }

  /** What the list-item pattern captures follows `-` at the start of the line. */
  lemma ListItemTextSound(line: string)
    requires ListItemText(line).Some?
    ensures StartsWith(line, "-") && CapturedAfter(line, 1, ListItemText(line).value)
  {
    AfterMarkerSound(line, 1);
  }

  // ---------------------------------------------------------------------------
  // The link pattern: /\[(.*?)\]\((.*?)\)/
  // ---------------------------------------------------------------------------

  datatype Resource = Resource(title: string, url: string)

  /** The lazy `(.*?)\)`: the first `)` at or after `j`, provided no line
      terminator comes before it. */
  function CloseParen(s: string, j: nat): (r: Option<nat>)
    requires j <= |s|
    ensures r.Some? ==> j <= r.value < |s| && s[r.value] == ')'
    decreases |s| - j
  {
    if j == |s| || IsLineTerminator(s[j]) then None
    else if s[j] == ')' then Some(j)
    else CloseParen(s, j + 1)
  }

  /** The lazy `(.*?)\]\(` of the title, tried with the title ending at `e` and
      then at every later position: the first end that is followed by `](` and
      then by a url closed on the same line gives the match. */
  function LinkFrom(s: string, p: nat, e: nat): (r: Option<Resource>)
    requires p < e <= |s|
    decreases |s| - e
  {
    if e + 1 >= |s| || IsLineTerminator(s[e]) then None
    else if s[e] == ']' && s[e + 1] == '(' && CloseParen(s, e + 2).Some? then
      Some(Resource(s[p + 1..e], s[e + 2..CloseParen(s, e + 2).value]))
    else LinkFrom(s, p, e + 1)
  }

  /** The link pattern anchored at `p`. */
  function LinkAt(s: string, p: nat): Option<Resource> {
    if p < |s| && s[p] == '[' then LinkFrom(s, p, p + 1) else None
  }

  function LinkMatcher(s: string): nat -> Option<Resource> {
    (p: nat) => LinkAt(s, p)
  }

  /** `exec` of the link pattern: the leftmost position where it matches, with
      the captures there. */
  function FindLinkAt(s: string): (r: Option<(nat, Resource)>)
    ensures r.Some? ==> r.value.0 < |s| && LinkAt(s, r.value.0) == Some(r.value.1)
  {
    FirstMatch(LinkMatcher(s), 0, |s|)
  }

  /** `item.match(/\[(.*?)\]\((.*?)\)/)`: the title and url of the first link.
      There is none exactly when the pattern matches at no position. */
  function LinkIn(s: string): (r: Option<Resource>)
    ensures r.None? <==> forall p :: 0 <= p <= |s| ==> LinkAt(s, p).None?
  {
    match FindLinkAt(s)
    case Some((_, x)) => Some(x)
    case None => LinkNowhere(s); None
  }

  /** When the search reports nothing, the pattern matches at no position. */
  lemma LinkNowhere(s: string)
    requires FindLinkAt(s).None?
    ensures forall p :: 0 <= p <= |s| ==> LinkAt(s, p).None?
  {
    var f := LinkMatcher(s);
    FirstMatchLeftmost(f, 0, |s|);
    forall p | 0 <= p <= |s|
      ensures LinkAt(s, p).None?
    {
      assert f(p) == LinkAt(s, p);
    }
  }

  /** The link text `[title](url)`. */
  function LinkText(r: Resource): string {
    "[" + r.title + "](" + r.url + ")"
  }

  /** The lazy `(.*?)\)` of the url, started at `j`, stops at `c`: the first `)`
      from `j` on, with no line terminator before it. */
  ghost predicate UrlClosesAt(s: string, j: nat, c: nat) {
    j <= c < |s| && s[c] == ')' && forall m :: j <= m < c ==> s[m] != ')' && !IsLineTerminator(s[m])
  }

  /** A url started at `j` is closed on its line. */
  ghost predicate UrlCloses(s: string, j: nat) {
    exists c :: UrlClosesAt(s, j, c)
  }

  /** A title may end at `e`: `](` follows, and then a url closed on the same line. */
  ghost predicate TitleEndsAt(s: string, e: nat) {
    e + 1 < |s| && s[e] == ']' && s[e + 1] == '(' && UrlCloses(s, e + 2)
  }

  /** The match of the link pattern at `p` has its title end at `e` and its url
      end at `c`: `[` at `p`; a title with no line terminator that ends at the
      first position where a title may end; `](`; and the url up to its first `)`. */
  ghost predicate LinkShape(s: string, p: nat, e: nat, c: nat) {
    && p < e && e + 1 < |s| && s[p] == '['
    && s[e] == ']' && s[e + 1] == '('
    && UrlClosesAt(s, e + 2, c)
    && (forall m :: p < m < e ==> !IsLineTerminator(s[m]))
    && (forall m :: p < m < e ==> !TitleEndsAt(s, m))
  }

  lemma CloseParenIs(s: string, j: nat, c: nat)
    requires UrlClosesAt(s, j, c)
    ensures CloseParen(s, j) == Some(c)
    decreases c - j
  {
    if j < c {
      CloseParenIs(s, j + 1, c);
    }
  }

  lemma {:induction false} CloseParenSound(s: string, j: nat)
    requires j <= |s| && CloseParen(s, j).Some?
    ensures UrlClosesAt(s, j, CloseParen(s, j).value)
    decreases |s| - j
  {
    if s[j] != ')' {
      CloseParenSound(s, j + 1);
    }
  }

  /** A title can end at `e` exactly when the scan finds the url's `)` after `](`. */
  lemma TitleEndsAtScan(s: string, e: nat)
    requires e + 1 < |s|
    ensures TitleEndsAt(s, e) <==> s[e] == ']' && s[e + 1] == '(' && CloseParen(s, e + 2).Some?
  {
    if TitleEndsAt(s, e) {
      assert UrlCloses(s, e + 2);
      var c :| UrlClosesAt(s, e + 2, c);
      CloseParenIs(s, e + 2, c);
    }
    if s[e] == ']' && s[e + 1] == '(' && CloseParen(s, e + 2).Some? {
      CloseParenSound(s, e + 2);
      assert UrlCloses(s, e + 2);
    }
  }

  lemma {:induction false} LinkFromIs(s: string, p: nat, e0: nat, e: nat, c: nat)
    requires p < e0 <= e && e + 1 < |s| && s[e] == ']' && s[e + 1] == '('
    requires UrlClosesAt(s, e + 2, c)
    requires forall m :: e0 <= m < e ==> !IsLineTerminator(s[m]) && !TitleEndsAt(s, m)
    ensures LinkFrom(s, p, e0) == Some(Resource(s[p + 1..e], s[e + 2..c]))
    decreases e - e0
  {
    CloseParenIs(s, e + 2, c);
    if e0 < e {
      TitleEndsAtScan(s, e0);
      LinkFromIs(s, p, e0 + 1, e, c);
    }
  }

  /** Where the title scan started at `e0` stops, and that it passed over no
      earlier end. */
  lemma {:induction false} LinkFromStops(s: string, p: nat, e0: nat)
    requires p < e0 <= |s| && LinkFrom(s, p, e0).Some?
    ensures var r := LinkFrom(s, p, e0).value;
      var e := p + 1 + |r.title|;
      var c := e + 2 + |r.url|;
      && e0 <= e && e + 1 < |s| && s[e] == ']' && s[e + 1] == '('
      && UrlClosesAt(s, e + 2, c) && r == Resource(s[p + 1..e], s[e + 2..c])
      && (forall m :: e0 <= m < e ==> !IsLineTerminator(s[m]) && !TitleEndsAt(s, m))
    decreases |s| - e0
  {
    TitleEndsAtScan(s, e0);
    if s[e0] == ']' && s[e0 + 1] == '(' && CloseParen(s, e0 + 2).Some? {
      CloseParenSound(s, e0 + 2);
    } else {
      LinkFromStops(s, p, e0 + 1);
    }
  }

  /** With the link's shape at `p`, the pattern anchored at `p` captures its title and url. */
  lemma LinkAtComplete(s: string, p: nat, e: nat, c: nat)
    requires LinkShape(s, p, e, c)
    ensures LinkAt(s, p) == Some(Resource(s[p + 1..e], s[e + 2..c]))
  {
    LinkFromIs(s, p, p + 1, e, c);
  }

  /** What the pattern anchored at `p` captures has the link's shape there. */
  lemma LinkAtSound(s: string, p: nat)
    requires LinkAt(s, p).Some?
    ensures var r := LinkAt(s, p).value;
      var e := p + 1 + |r.title|;
      LinkShape(s, p, e, e + 2 + |r.url|) && r == Resource(s[p + 1..e], s[e + 2..e + 2 + |r.url|])
  {
    LinkFromStops(s, p, p + 1);
  }

  /** The link the item reports is the leftmost match: the pattern matches at no
      earlier position, and at none at all when nothing is reported. */
  lemma LinkInLeftmost(s: string)
    ensures LinkIn(s).Some? ==> FindLinkAt(s).Some? && LinkIn(s).value == FindLinkAt(s).value.1
    ensures LinkIn(s).Some? ==> forall j :: 0 <= j < FindLinkAt(s).value.0 ==> LinkAt(s, j).None?
  {
    var f := LinkMatcher(s);
    FirstMatchLeftmost(f, 0, |s|);
    if FindLinkAt(s).Some? {
      forall j | 0 <= j < FindLinkAt(s).value.0
        ensures LinkAt(s, j).None?
      {
        assert f(j) == LinkAt(s, j);
      }
    }
  }

  /** A match at `p` with none before it is the link the item reports. */
  lemma LinkInIs(s: string, p: nat, r: Resource)
    requires LinkAt(s, p) == Some(r)
    requires forall j :: 0 <= j < p ==> LinkAt(s, j).None?
    ensures LinkIn(s) == Some(r)
  {
    assert p < |s|;
    FirstMatchIs(LinkMatcher(s), 0, |s|, p, r);
  }

  /** The title is lazy: in `[PDF] [S](u)` it runs from the first `[` to the
      first `](`, so it takes in the second `[`. */
  lemma LazyTitle()
    ensures LinkIn("[PDF] [S](u)") == Some(Resource("PDF] [S", "u"))
  {
    var s := "[PDF] [S](u)";
    assert UrlClosesAt(s, 10, 11);
    forall m | 0 < m < 8
      ensures !TitleEndsAt(s, m)
    {
      assert s[m] != ']' || s[m + 1] != '(';
    }
    LinkAtComplete(s, 0, 8, 11);
    assert s[1..8] == "PDF] [S" && s[10..11] == "u";
    LinkInIs(s, 0, Resource("PDF] [S", "u"));
  }

  /** The positions of the pieces of `pre + [title](url) + post`. */
  lemma LinkLayout(pre: string, r: Resource, post: string)
    ensures var s := pre + LinkText(r) + post;
      var p := |pre|;
      var e := p + 1 + |r.title|;
      var c := e + 2 + |r.url|;
      && c < |s| && s[p] == '[' && s[e] == ']' && s[e + 1] == '(' && s[c] == ')'
      && s[p + 1..e] == r.title && s[e + 2..c] == r.url
      && (forall j :: 0 <= j < p ==> s[j] == pre[j])
      && (forall m :: p + 1 <= m < e ==> s[m] == r.title[m - p - 1])
      && (forall m :: e + 2 <= m < c ==> s[m] == r.url[m - e - 2])
  {
    var s := pre + LinkText(r) + post;
    assert s == pre + "[" + r.title + "](" + r.url + ")" + post;
  }

  /** A link written `[title](url)` after text with no `[` is found, with its
      title and url, whatever follows it, when the title holds no `]`, the url
      no `)`, and neither a line terminator. */
  lemma LinkInFinds(pre: string, r: Resource, post: string)
    requires '[' !in pre
    requires ']' !in r.title && NoLineTerminator(r.title)
    requires ')' !in r.url && NoLineTerminator(r.url)
    ensures LinkIn(pre + LinkText(r) + post) == Some(r)
  {
    var s := pre + LinkText(r) + post;
    var p := |pre|;
    var e := p + 1 + |r.title|;
    var c := e + 2 + |r.url|;
    LinkLayout(pre, r, post);
    assert UrlClosesAt(s, e + 2, c);
    LinkFromIs(s, p, p + 1, e, c);
    forall j | 0 <= j < p
      ensures LinkAt(s, j).None?
    {
      assert s[j] == pre[j];
    }
    LinkInIs(s, p, r);
  }

  /** What the link pattern reports occurs in the item as `[title](url)`, with
      no line terminator in either part and no `)` in the url. */
  lemma LinkInSound(s: string)
    requires LinkIn(s).Some?
    ensures Contains(s, LinkText(LinkIn(s).value))
    ensures NoLineTerminator(LinkIn(s).value.title)
    ensures NoLineTerminator(LinkIn(s).value.url) && ')' !in LinkIn(s).value.url
  {
    LinkInLeftmost(s);
    var p := FindLinkAt(s).value.0;
    var r := LinkIn(s).value;
    LinkAtSound(s, p);
    var e := p + 1 + |r.title|;
    LinkTextAt(s, p, e, e + 2 + |r.url|);
  }

  /** The text of a match is `[title](url)`. */
  lemma LinkTextAt(s: string, p: nat, e: nat, c: nat)
    requires p < e && e + 2 <= c < |s|
    requires s[p] == '[' && s[e] == ']' && s[e + 1] == '(' && s[c] == ')'
    ensures OccursAt(s, LinkText(Resource(s[p + 1..e], s[e + 2..c])), p)
  {
    assert s[p..c + 1] == [s[p]] + s[p + 1..e] + s[e..e + 2] + s[e + 2..c] + [s[c]];
    assert s[e..e + 2] == "](";
  }

  // ---------------------------------------------------------------------------
  // The walk over the lines
  // ---------------------------------------------------------------------------

  /** The parsed summary: `{ title, sections, resources }`. */
  datatype Outline = Outline(title: string, sections: map<string, seq<string>>, resources: seq<Resource>)

  /** The loop state: the result so far, `currentSection` and `sectionContent`. */
  datatype Walk = Walk(out: Outline, current: Option<string>, content: seq<string>)

  /** JavaScript truthiness of `currentSection`: set and not the empty string. */
  predicate Active(current: Option<string>) {
    current.Some? && current.value != ""
  }

  /** Saving the open section: only when one is active and it has content; a
      later section with the same lower-cased name replaces an earlier one. */
  function Commit(w: Walk): map<string, seq<string>> {
    if Active(w.current) && |w.content| > 0 then w.out.sections[Lower(w.current.value) := w.content]
    else w.out.sections
  }

  /** The section is the resources section (compared lower-cased). */
  predicate InResources(w: Walk) {
    Active(w.current) && Lower(w.current.value) == "resources"
  }

  /** One pass of the loop body (js/bibtex-parser.js:186-244). */
  function Step(w: Walk, line: string): (r: Walk)
    ensures w.out.title != "" ==> r.out.title == w.out.title
    ensures w.out.resources <= r.out.resources
  {
    if HeaderText(line).Some? && w.out.title == "" then
      w.(out := w.out.(title := HeaderText(line).value))
    else if SubHeaderText(line).Some? then
      Walk(w.out.(sections := Commit(w)), Some(SubHeaderText(line).value), [])
    else if ListItemText(line).Some? then
      var item := ListItemText(line).value;
      if InResources(w) && LinkIn(item).Some? then
        w.(out := w.out.(resources := w.out.resources + [LinkIn(item).value]))
      else w.(content := w.content + [item])
    else if Active(w.current) then w.(content := w.content + [line])
    else w
  }

  /** The loop over the remaining lines. */
  function Run(w: Walk, lines: seq<string>): Walk
    decreases |lines|
  {
    if lines == [] then w else Run(Step(w, lines[0]), lines[1..])
  }

  /** After the loop: the last section is saved. */
  function Finish(w: Walk): Outline {
    w.out.(sections := Commit(w))
  }

  const Start := Walk(Outline("", map[], []), None, [])

  /** `split('\n').map(line => line.trim()).filter(Boolean)`. */
  function NonBlank(lines: seq<string>): (r: seq<string>)
    ensures |r| <= |lines|
    ensures forall k :: 0 <= k < |r| ==> r[k] != [] && IsTrimmed(r[k])
  {
    if lines == [] then []
    else
      var t := Trim(lines[0]);
      if t == [] then NonBlank(lines[1..]) else [t] + NonBlank(lines[1..])
  }

  /** Blank lines are dropped one line at a time: the lines of a concatenation are
      those of each part, in order. */
  lemma {:induction false} NonBlankAppend(a: seq<string>, b: seq<string>)
    ensures NonBlank(a + b) == NonBlank(a) + NonBlank(b)
  {
    if a == [] {
      assert a + b == b;
    } else {
      assert (a + b)[0] == a[0] && (a + b)[1..] == a[1..] + b;
      NonBlankAppend(a[1..], b);
      var t := Trim(a[0]);
      if t != [] {
        var p, q := NonBlank(a[1..]), NonBlank(b);
        assert ([t] + p) + q == [t] + (p + q);
      }
    }
  }

  /** One line is dropped exactly when it is blank, and kept trimmed otherwise. */
  lemma NonBlankOne(x: string)
    ensures NonBlank([x]) == if Trim(x) == [] then [] else [Trim(x)]
  {
    assert [x][1..] == [];
  }

  /** `parseSummary`: nothing for empty input (the source returns `{}`); otherwise
      the comment lines are dropped and the trimmed, non-blank lines walked. */
  function ParseSummary(text: string): (r: Option<Outline>)
    ensures r.None? <==> text == []
    ensures r.Some? ==> SectionsWellFormed(r.value.sections)
  {
    if text == [] then None
    else
      var lines := NonBlank(SplitOn(StripComments(text), "\n"));
      RunKeepsSections(Start, lines);
      Some(Finish(Run(Start, lines)))
  }

  // ---------------------------------------------------------------------------
  // Properties of the walk
  // ---------------------------------------------------------------------------

  /** Section names are stored lower-cased and never with empty content. */
  predicate SectionsWellFormed(m: map<string, seq<string>>) {
    forall k :: k in m ==> IsLower(k) && |m[k]| > 0
  }

  lemma CommitKeepsSections(w: Walk)
    requires SectionsWellFormed(w.out.sections)
    ensures SectionsWellFormed(Commit(w))
  {
    if Active(w.current) && |w.content| > 0 {
      LowerIsLower(w.current.value);
    }
  }

  /** The walk and the final save keep section names lower-cased and contents
      non-empty. */
  lemma {:induction false} RunKeepsSections(w: Walk, lines: seq<string>)
    requires SectionsWellFormed(w.out.sections)
    ensures SectionsWellFormed(Run(w, lines).out.sections)
    ensures SectionsWellFormed(Finish(Run(w, lines)).sections)
    decreases |lines|
  {
    if lines == [] {
      CommitKeepsSections(w);
    } else {
      CommitKeepsSections(w);
      RunKeepsSections(Step(w, lines[0]), lines[1..]);
    }
  }

  /** The first non-empty header capture among the lines, or the empty string. */
  function FirstTitle(lines: seq<string>): string
    decreases |lines|
  {
    if lines == [] then ""
    else match HeaderText(lines[0])
      case Some(t) => if t != "" then t else FirstTitle(lines[1..])
      case None => FirstTitle(lines[1..])
  }

  /** Once set the title never changes; until then every header line is tried,
      so the title is the first header line's capture. */
  lemma {:induction false} RunTitle(w: Walk, lines: seq<string>)
    ensures Run(w, lines).out.title == if w.out.title != "" then w.out.title else FirstTitle(lines)
    decreases |lines|
  {
    if lines != [] {
      RunTitle(Step(w, lines[0]), lines[1..]);
    }
  }

  /** The title of a summary is the capture of its first header line, `##`
      lines included. */
  lemma SummaryTitle(text: string)
    requires text != []
    ensures ParseSummary(text).value.title == FirstTitle(NonBlank(SplitOn(StripComments(text), "\n")))
  {
    RunTitle(Start, NonBlank(SplitOn(StripComments(text), "\n")));
  }

  /** A resource comes from a list item of the walked lines whose first link it is. */
  predicate FromItem(r: Resource, line: string) {
    ListItemText(line).Some? && LinkIn(ListItemText(line).value) == Some(r)
  }

  /** Resources are only ever appended, and each one appended is the first link
      of one of the walked list items. */
  lemma {:induction false} RunResources(w: Walk, lines: seq<string>)
    ensures |w.out.resources| <= |Run(w, lines).out.resources|
    ensures Run(w, lines).out.resources[..|w.out.resources|] == w.out.resources
    ensures forall n :: |w.out.resources| <= n < |Run(w, lines).out.resources| ==>
      exists i :: 0 <= i < |lines| && FromItem(Run(w, lines).out.resources[n], lines[i])
    decreases |lines|
  {
    if lines != [] {
      var w' := Step(w, lines[0]);
      RunResources(w', lines[1..]);
      var out := Run(w, lines).out.resources;
      assert out == Run(w', lines[1..]).out.resources;
      assert out[..|w.out.resources|] == w.out.resources by {
        assert w'.out.resources[..|w.out.resources|] == w.out.resources;
        assert out[..|w'.out.resources|][..|w.out.resources|] == out[..|w.out.resources|];
      }
      forall n | |w.out.resources| <= n < |out|
        ensures exists i :: 0 <= i < |lines| && FromItem(out[n], lines[i])
      {
        if n < |w'.out.resources| {
          assert n == |w.out.resources|;
          assert out[n] == w'.out.resources[n];
          assert FromItem(out[n], lines[0]);
        } else {
          var i :| 0 <= i < |lines[1..]| && FromItem(out[n], lines[1..][i]);
          assert lines[1..][i] == lines[i + 1];
        }
      }
    }
  }

  /** While no section is open, what has piled up in `sectionContent` is never
      saved: the outcome does not depend on it. */
  lemma {:induction false} ContentBeforeSectionDiscarded(w: Walk, other: seq<string>, lines: seq<string>)
    requires !Active(w.current)
    ensures Finish(Run(w, lines)) == Finish(Run(w.(content := other), lines))
    decreases |lines|
  {
    if lines != [] {
      var v := w.(content := other);
      var a := Step(w, lines[0]);
      var b := Step(v, lines[0]);
      if a.current == w.current {
        assert b == a.(content := b.content);
        ContentBeforeSectionDiscarded(a, b.content, lines[1..]);
      } else {
        assert a == b;
      }
    }
  }

  // ---------------------------------------------------------------------------
  // What one line does
  // ---------------------------------------------------------------------------

  /** A header line starts with `#`, a list item with `-`: no line is both. */
  lemma HeaderNotItem(line: string)
    requires HeaderText(line).Some?
    ensures ListItemText(line).None?
  {
    assert line[0] == '#';
  }

  /** A list item is neither a header nor a section line. */
  lemma ItemNotHeader(line: string)
    requires ListItemText(line).Some?
    ensures HeaderText(line).None? && SubHeaderText(line).None?
  {
    assert line[0] == '-';
    assert HashEnd(line, 0) == 0;
  }

  /** Once the title is set, a `#` line that is not a `##` line is ordinary
      content of the open section, and is dropped when none is open. */
  lemma StepLaterHeader(w: Walk, line: string)
    requires w.out.title != "" && HeaderText(line).Some? && SubHeaderText(line).None?
    ensures Step(w, line) == if Active(w.current) then w.(content := w.content + [line]) else w
  {
    HeaderNotItem(line);
  }

  /** Once the title is set, a `##` line saves the open section and opens a new,
      empty one under its capture. */
  lemma StepOpensSection(w: Walk, line: string)
    requires w.out.title != "" && SubHeaderText(line).Some?
    ensures Step(w, line) == Walk(w.out.(sections := Commit(w)), SubHeaderText(line), [])
  {
    SubHeaderIsHeader(line);
  }

  /** In the resources section, a list item holding a link adds that link to the
      resources and leaves the section content as it was. */
  lemma StepResourceLink(w: Walk, line: string, r: Resource)
    requires InResources(w) && ListItemText(line).Some? && LinkIn(ListItemText(line).value) == Some(r)
    ensures Step(w, line) == w.(out := w.out.(resources := w.out.resources + [r]))
  {
    ItemNotHeader(line);
  }

  /** Any other list item goes, without its marker, to the end of the section content. */
  lemma StepOtherItem(w: Walk, line: string)
    requires ListItemText(line).Some? && !(InResources(w) && LinkIn(ListItemText(line).value).Some?)
    ensures Step(w, line) == w.(content := w.content + [ListItemText(line).value])
  {
    ItemNotHeader(line);
  }

  /** A plain line (no title taken, no `##` header, no list item) leaves the outline
      alone: it is added to the open section's content, or dropped when no section is open. */
  lemma StepPlainLine(w: Walk, line: string)
    requires HeaderText(line).None? || w.out.title != ""
    requires SubHeaderText(line).None? && ListItemText(line).None?
    ensures Step(w, line).out == w.out && Step(w, line).current == w.current
    ensures Step(w, line).content == if Active(w.current) then w.content + [line] else w.content
  {
  }

  /** Saving a section files its content under the lower-cased name, replacing
      what an earlier section of that name left, and touches no other name. */
  lemma CommitOverwrites(w: Walk)
    requires Active(w.current) && |w.content| > 0
    ensures Lower(w.current.value) in Commit(w) && Commit(w)[Lower(w.current.value)] == w.content
    ensures forall k :: k != Lower(w.current.value) ==>
      (k in Commit(w) <==> k in w.out.sections) && (k in w.out.sections ==> Commit(w)[k] == w.out.sections[k])
  {
  }

  // ---------------------------------------------------------------------------
  // The lines before the first section
  // ---------------------------------------------------------------------------

  /** Walking `a` and then `b` is walking `a + b`. */
  lemma {:induction false} RunAppend(w: Walk, a: seq<string>, b: seq<string>)
    ensures Run(w, a + b) == Run(Run(w, a), b)
    decreases |a|
  {
    if a == [] {
      assert a + b == b;
    } else {
      assert (a + b)[0] == a[0] && (a + b)[1..] == a[1..] + b;
      RunAppend(Step(w, a[0]), a[1..], b);
    }
  }

  /** No line of `lines` is a section line. */
  predicate NoSubHeader(lines: seq<string>) {
    forall i :: 0 <= i < |lines| ==> SubHeaderText(lines[i]).None?
  }

  /** Without an open section and without `##` lines, the walk changes neither
      the sections, nor the resources, nor the open section. */
  lemma {:induction false} PreambleKeeps(w: Walk, pre: seq<string>)
    requires !Active(w.current) && NoSubHeader(pre)
    ensures Run(w, pre).current == w.current
    ensures Run(w, pre).out.sections == w.out.sections && Run(w, pre).out.resources == w.out.resources
    decreases |pre|
  {
    if pre != [] {
      assert SubHeaderText(pre[0]).None?;
      assert NoSubHeader(pre[1..]) by {
        forall i | 0 <= i < |pre[1..]|
          ensures SubHeaderText(pre[1..][i]).None?
        {
          assert pre[1..][i] == pre[i + 1];
        }
      }
      PreambleKeeps(Step(w, pre[0]), pre[1..]);
    }
  }

  /** Nothing seen before the first `##` line reaches the sections or the
      resources: the outcome is that of walking the rest from the state before,
      with only the title taken from the lines skipped. */
  lemma PreambleNeverSaved(w: Walk, pre: seq<string>, post: seq<string>)
    requires !Active(w.current) && NoSubHeader(pre)
    ensures Finish(Run(w, pre + post)) == Finish(Run(Walk(w.out.(title := Run(w, pre).out.title), w.current, []), post))
  {
    var v := Run(w, pre);
    RunAppend(w, pre, post);
    PreambleKeeps(w, pre);
    assert v.(content := []) == Walk(w.out.(title := v.out.title), w.current, []);
    ContentBeforeSectionDiscarded(v, [], post);
  }
}
