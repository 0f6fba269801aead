/** The display helpers of the parser: author lists for the publication page
    (`formatAuthors`, js/bibtex-parser.js:265-279), the abbreviated author list
    of a citation (`formatAuthorsForCitation` and `formatSingleAuthor`,
    303-336) and the APA-style citation line itself (`generateCitation`,
    286-296). */
module Citation {
  import opened Options
  import opened Text

  // ---------------------------------------------------------------------------
  // Whitespace normal form: `.trim().replace(/\s+/g, ' ')`
  // ---------------------------------------------------------------------------

  /** Every whitespace character is a plain space. */
  ghost predicate OnlyPlainSpace(s: string) {
    forall i :: 0 <= i < |s| && IsSpace(s[i]) ==> s[i] == ' '
  }

  /** No two neighbouring characters are both whitespace. */
  ghost predicate NoDoubleSpace(s: string) {
    forall i, j :: 0 <= i < j < |s| && j == i + 1 ==> !(IsSpace(s[i]) && IsSpace(s[j]))
  }

  /** Trimmed, with single plain spaces between words: what a citation looks like. */
  ghost predicate Normal(s: string) {
    IsTrimmed(s) && OnlyPlainSpace(s) && NoDoubleSpace(s)
  }

  /** `s.replace(/\s+/g, ' ')`: each maximal whitespace run becomes one space. */
  function CollapseSpace(s: string): (r: string)
    ensures |r| <= |s|
    ensures r == [] <==> s == []
    ensures r != [] ==> (IsSpace(r[0]) <==> IsSpace(s[0]))
    ensures r != [] ==> (IsSpace(r[|r| - 1]) <==> IsSpace(s[|s| - 1]))
    ensures OnlyPlainSpace(r) && NoDoubleSpace(r)
    decreases |s|
  {
    if s == [] then []
    else if IsSpace(s[0]) then [' '] + CollapseSpace(s[SpaceEnd(s, 0)..])
    else [s[0]] + CollapseSpace(s[1..])
  }

  /** The non-whitespace characters of `s`, in order. */
  function Visible(s: string): (r: string)
    ensures |r| <= |s|
    ensures forall i :: 0 <= i < |r| ==> !IsSpace(r[i])
  {
    if s == [] then [] else (if IsSpace(s[0]) then [] else [s[0]]) + Visible(s[1..])
  }

  lemma {:induction false} VisibleAppend(a: string, b: string)
    ensures Visible(a + b) == Visible(a) + Visible(b)
    decreases |a|
  {
    if a != [] {
      assert (a + b)[0] == a[0];
      assert (a + b)[1..] == a[1..] + b;
      VisibleAppend(a[1..], b);
      var h := if IsSpace(a[0]) then [] else [a[0]];
      assert Visible(a + b) == h + Visible(a[1..] + b);
      assert Visible(a) == h + Visible(a[1..]);
    } else {
      assert a + b == b;
    }
  }

  lemma {:induction false} VisibleOfSpace(w: string)
    requires AllSpace(w)
    ensures Visible(w) == []
    decreases |w|
  {
    if w != [] {
      VisibleOfSpace(w[1..]);
    }
  }

  /** Collapsing whitespace keeps every other character, in order. */
  lemma {:induction false} CollapseKeepsVisible(s: string)
    ensures Visible(CollapseSpace(s)) == Visible(s)
    decreases |s|
  {
    if s != [] {
      var r := CollapseSpace(s);
      if IsSpace(s[0]) {
        var e := SpaceEnd(s, 0);
        assert s == s[..e] + s[e..];
        VisibleAppend(s[..e], s[e..]);
        VisibleOfSpace(s[..e]);
        CollapseKeepsVisible(s[e..]);
        assert r[1..] == CollapseSpace(s[e..]);
      } else {
        CollapseKeepsVisible(s[1..]);
        assert r[1..] == CollapseSpace(s[1..]);
      }
    }
  }

  /** A whitespace run between two words becomes exactly one space, and the text on
      either side is collapsed on its own. */
  lemma {:induction false} CollapseSplit(x: string, w: string, y: string)
    requires |w| > 0 && AllSpace(w)
    requires x == [] || !IsSpace(x[|x| - 1])
    requires y == [] || !IsSpace(y[0])
    ensures CollapseSpace(x + w + y) == CollapseSpace(x) + " " + CollapseSpace(y)
    decreases |x|
  {
    if x == [] {
      CollapseSplitEmpty(w, y);
    } else if IsSpace(x[0]) {
      var e := SpaceEnd(x, 0);
      CollapseSplit(x[e..], w, y);
      CollapseSplitSpace(x, w, y);
    } else {
      CollapseSplit(x[1..], w, y);
      CollapseSplitWord(x, w, y);
    }
  }

  lemma CollapseSplitEmpty(w: string, y: string)
    requires |w| > 0 && AllSpace(w)
    requires y == [] || !IsSpace(y[0])
    ensures CollapseSpace([] + w + y) == CollapseSpace([]) + " " + CollapseSpace(y)
  {
    var s := [] + w + y;
    assert s == w + y;
    SpaceEndIs(s, 0, |w|);
    assert s[|w|..] == y;
  }

  /** The step of `CollapseSplit` when `x` starts with a whitespace run. */
  lemma CollapseSplitSpace(x: string, w: string, y: string)
    requires x != [] && IsSpace(x[0]) && !IsSpace(x[|x| - 1])
    requires CollapseSpace(x[SpaceEnd(x, 0)..] + w + y) == CollapseSpace(x[SpaceEnd(x, 0)..]) + " " + CollapseSpace(y)
    ensures CollapseSpace(x + w + y) == CollapseSpace(x) + " " + CollapseSpace(y)
  {
    SpaceRunParts(x, w, y);
    CollapseSpaceStep(x + w + y);
    CollapseSpaceStep(x);
    SpaceBetween([' '], CollapseSpace(x[SpaceEnd(x, 0)..]), CollapseSpace(y));
  }

  lemma CollapseSpaceStep(s: string)
    requires s != [] && IsSpace(s[0])
    ensures CollapseSpace(s) == [' '] + CollapseSpace(s[SpaceEnd(s, 0)..])
  {
  }

  /** A leading whitespace run that stops inside `x` is not lengthened by what follows. */
  lemma SpaceRunParts(x: string, w: string, y: string)
    requires x != [] && !IsSpace(x[|x| - 1])
    ensures SpaceEnd(x + w + y, 0) == SpaceEnd(x, 0)
    ensures (x + w + y)[SpaceEnd(x, 0)..] == x[SpaceEnd(x, 0)..] + w + y
  {
    var s, e := x + w + y, SpaceEnd(x, 0);
    assert e < |x|;
    assert forall k :: 0 <= k < e ==> s[k] == x[k];
    SpaceEndIs(s, 0, e);
  }

  /** The step of `CollapseSplit` when `x` starts with a visible character. */
  lemma CollapseSplitWord(x: string, w: string, y: string)
    requires x != [] && !IsSpace(x[0])
    requires CollapseSpace(x[1..] + w + y) == CollapseSpace(x[1..]) + " " + CollapseSpace(y)
    ensures CollapseSpace(x + w + y) == CollapseSpace(x) + " " + CollapseSpace(y)
  {
    ConsParts(x, w, y);
    CollapseWordStep(x + w + y);
    CollapseWordStep(x);
    SpaceBetween([x[0]], CollapseSpace(x[1..]), CollapseSpace(y));
  }

  lemma CollapseWordStep(s: string)
    requires s != [] && !IsSpace(s[0])
    ensures CollapseSpace(s) == [s[0]] + CollapseSpace(s[1..])
  {
  }

  lemma ConsParts(x: string, w: string, y: string)
    requires x != []
    ensures (x + w + y)[0] == x[0] && (x + w + y)[1..] == x[1..] + w + y
  {
  }

  lemma SpaceBetween(h: string, p: string, q: string)
    ensures h + (p + " " + q) == h + p + " " + q
  {
  }

  /** Trimming only removes whitespace. */
  lemma TrimKeepsVisible(s: string)
    ensures Visible(Trim(s)) == Visible(s)
  {
    var r := Trim(s);
    var lo := SpaceEnd(s, 0);
    var hi := lo + |r|;
    assert lo <= hi <= |s| && AllSpace(s[..lo]) && AllSpace(s[hi..]) && s == s[..lo] + r + s[hi..] by {
      TrimSlice(s);
    }
    VisibleAppend(s[..lo] + r, s[hi..]);
    VisibleAppend(s[..lo], r);
    VisibleOfSpace(s[..lo]);
    VisibleOfSpace(s[hi..]);
  }

  /** Text already in normal form is left alone. */
  lemma CollapseFixes(s: string)
    requires OnlyPlainSpace(s) && NoDoubleSpace(s)
    ensures CollapseSpace(s) == s
  {
    CollapseFixesFrom(s, 0);
    assert s[0..] == s;
  }

  lemma {:induction false} CollapseFixesFrom(s: string, i: nat)
    requires OnlyPlainSpace(s) && NoDoubleSpace(s) && i <= |s|
    ensures CollapseSpace(s[i..]) == s[i..]
    decreases |s| - i
  {
    if i < |s| {
      var t := s[i..];
      CollapseFixesFrom(s, i + 1);
      assert t[1..] == s[i + 1..];
      if IsSpace(s[i]) {
        assert i + 1 < |s| ==> !IsSpace(s[i + 1]);
        SpaceEndIs(t, 0, 1);
      }
    }
  }

  lemma CollapseIdempotent(s: string)
    ensures CollapseSpace(CollapseSpace(s)) == CollapseSpace(s)
  {
    CollapseFixes(CollapseSpace(s));
  }

  /** Joining two normal texts directly, or with one space, keeps the normal form. */
  lemma NormalCat(x: string, y: string)
    requires Normal(x) && Normal(y) && x != [] && y != []
    ensures Normal(x + y)
  {
    var s := x + y;
    assert forall i :: 0 <= i < |x| ==> s[i] == x[i];
    assert forall i :: |x| <= i < |s| ==> s[i] == y[i - |x|];
    forall i, j | 0 <= i < j < |s| && j == i + 1
      ensures !(IsSpace(s[i]) && IsSpace(s[j]))
    {
      if j < |x| {
        assert s[i] == x[i] && s[j] == x[j];
      } else if i >= |x| {
        assert s[i] == y[i - |x|] && s[j] == y[j - |x|];
      }
    }
  }

  lemma NormalSpaced(x: string, y: string)
    requires Normal(x) && Normal(y) && x != [] && y != []
    ensures Normal(x + " " + y)
  {
    var s := x + " " + y;
    assert forall i :: 0 <= i < |x| ==> s[i] == x[i];
    assert s[|x|] == ' ';
    assert forall i :: |x| < i < |s| ==> s[i] == y[i - |x| - 1];
    forall i, j | 0 <= i < j < |s| && j == i + 1
      ensures !(IsSpace(s[i]) && IsSpace(s[j]))
    {
      if j < |x| {
        assert s[i] == x[i] && s[j] == x[j];
      } else if i > |x| {
        assert s[i] == y[i - |x| - 1] && s[j] == y[j - |x| - 1];
      }
    }
  }

  // ---------------------------------------------------------------------------
  // formatAuthors: "Last, First and ..." -> "First Last, ..."
  // ---------------------------------------------------------------------------

  /** One author of `formatAuthors`: "Last, First" is turned round, anything
      without a comma is only trimmed. */
  function DisplayName(author: string): string {
    var parts := SplitOn(author, ",");
    if |parts| > 1 then Trim(parts[1]) + " " + Trim(parts[0]) else Trim(author)
  }

  function DisplayNames(names: seq<string>): (r: seq<string>)
    ensures |r| == |names|
    ensures forall i :: 0 <= i < |names| ==> r[i] == DisplayName(names[i])
  {
    seq(|names|, i requires 0 <= i < |names| => DisplayName(names[i]))
  }

  /** `formatAuthors`: the names separated by " and " are shown one by one,
      separated by ", "; no authors give the empty string. */
  function FormatAuthors(authors: string): (r: string)
    ensures authors == [] ==> r == []
  {
    if authors == [] then []
    else JoinWith(DisplayNames(SplitOn(authors, " and ")), ", ")
  }

  /** `a + "," + b` splits on commas into `[a, b]` when neither holds one. */
  lemma SplitOnComma(a: string, b: string)
    requires ',' !in a && ',' !in b
    ensures SplitOn(a + "," + b, ",") == [a, b]
  {
    assert JoinWith([a, b], [',']) == a + "," + b;
    SplitJoinChar([a, b], ',');
  }

  /** Text without a comma is a single piece of a comma split. */
  lemma NoCommaOnePiece(s: string)
    requires ',' !in s
    ensures SplitOn(s, ",") == [s]
  {
    NotContainsChar(s, ',');
  }

  /** "Last, First" is shown as "First Last", each half trimmed. */
  lemma DisplayNameTurnsRound(last: string, first: string)
    requires ',' !in last && ',' !in first
    ensures DisplayName(last + "," + first) == Trim(first) + " " + Trim(last)
  {
    SplitOnComma(last, first);
  }

  /** A name without a comma is shown trimmed and otherwise as written. */
  lemma DisplayNameKeepsPlain(author: string)
    requires ',' !in author
    ensures DisplayName(author) == Trim(author)
  {
    NoCommaOnePiece(author);
  }

  /** Author lists that " and " splits back into their names are displayed
      name by name, in order. */
  lemma FormatAuthorsByName(names: seq<string>)
    requires SplitsBackTo(names, " and ")
    requires JoinWith(names, " and ") != []
    ensures FormatAuthors(JoinWith(names, " and ")) == JoinWith(DisplayNames(names), ", ")
  {
    SplitJoin(names, " and ");
  }

  // ---------------------------------------------------------------------------
  // formatSingleAuthor: "Last, F. M."
  // ---------------------------------------------------------------------------

  /** `p.charAt(0) + "."`: the first letter and a full stop, or a lone full
      stop for an empty part. */
  function Initial(p: string): (r: string)
    ensures 1 <= |r| <= 2 && (|r| == 2 <==> p != [])
    ensures p != [] ==> r[0] == p[0]
    ensures r[|r| - 1] == '.'
  {
    (if p == [] then [] else [p[0]]) + "."
  }

  /** The initials of the given names, separated by single spaces. */
  function Initials(ps: seq<string>): string {
    JoinWith(seq(|ps|, i requires 0 <= i < |ps| => Initial(ps[i])), " ")
  }

  /** A name part with no whitespace and no comma in it. */
  predicate IsWord(p: string) {
    p != [] && forall i :: 0 <= i < |p| ==> !IsSpace(p[i]) && p[i] != ','
  }

  /** Words separated by single spaces. */
  predicate AllWords(ps: seq<string>) {
    forall k :: 0 <= k < |ps| ==> IsWord(ps[k])
  }

  /** `formatSingleAuthor`: a "Last, First Middle" name keeps its last name
      and abbreviates the given names; any other name takes its last
      space-separated part as the last name and abbreviates the rest. */
  function FormatSingleAuthor(author: string): string {
    var parts := SplitOn(author, ",");
    if |parts| > 1 then LastNameFirst(parts[0], parts[1])
    else GivenNamesFirst(SplitOn(Trim(author), " "))
  }

  /** "Last, Given Names": the trimmed last name, then the initials of the
      space-separated given names. */
  function LastNameFirst(last: string, given: string): string {
    Trim(last) + ", " + Initials(SplitOn(Trim(given), " "))
  }

  /** "Given Names Last": the last part is the last name, the parts before it
      give the initials. */
  function GivenNamesFirst(names: seq<string>): string
    requires |names| >= 1
  {
    names[|names| - 1] + ", " + Initials(names[..|names| - 1])
  }

  /** The initials of one or more name parts end with a full stop. */
  lemma InitialsEndWithDot(ps: seq<string>)
    requires |ps| >= 1
    ensures Initials(ps) != [] && Initials(ps)[|Initials(ps)| - 1] == '.'
  {
    var xs := seq(|ps|, i requires 0 <= i < |ps| => Initial(ps[i]));
    JoinEndsWith(xs, " ");
    var last := xs[|xs| - 1];
    assert last[|last| - 1] == '.';
  }

  /** How a citation name ends: with the full stop of an initial whenever the
      name has a comma or more than one space-separated part, and with `, `
      after the trimmed name when it is a single word. */
  lemma FormatSingleAuthorEnding(author: string)
    ensures |SplitOn(author, ",")| > 1 || |SplitOn(Trim(author), " ")| > 1 ==>
      FormatSingleAuthor(author) != [] && FormatSingleAuthor(author)[|FormatSingleAuthor(author)| - 1] == '.'
    ensures |SplitOn(author, ",")| == 1 && |SplitOn(Trim(author), " ")| == 1 ==>
      FormatSingleAuthor(author) == Trim(author) + ", "
  {
    if |SplitOn(author, ",")| > 1 {
      InvertedEnding(author);
    } else if |SplitOn(Trim(author), " ")| > 1 {
      NaturalEnding(author);
    } else {
      OneWordEnding(author);
    }
  }

  lemma InvertedEnding(author: string)
    requires |SplitOn(author, ",")| > 1
    ensures FormatSingleAuthor(author) != [] && FormatSingleAuthor(author)[|FormatSingleAuthor(author)| - 1] == '.'
  {
    var parts := SplitOn(author, ",");
    var ini := Initials(SplitOn(Trim(parts[1]), " "));
    InitialsEndWithDot(SplitOn(Trim(parts[1]), " "));
    assert FormatSingleAuthor(author) == Trim(parts[0]) + ", " + ini;
  }

  lemma NaturalEnding(author: string)
    requires |SplitOn(author, ",")| == 1 && |SplitOn(Trim(author), " ")| > 1
    ensures FormatSingleAuthor(author) != [] && FormatSingleAuthor(author)[|FormatSingleAuthor(author)| - 1] == '.'
  {
    var names := SplitOn(Trim(author), " ");
    var ini := Initials(names[..|names| - 1]);
    InitialsEndWithDot(names[..|names| - 1]);
    assert FormatSingleAuthor(author) == names[|names| - 1] + ", " + ini;
  }

  lemma OneWordEnding(author: string)
    requires |SplitOn(author, ",")| == 1 && |SplitOn(Trim(author), " ")| == 1
    ensures FormatSingleAuthor(author) == Trim(author) + ", "
  {
    var names := SplitOn(Trim(author), " ");
    SplitOnJoins(Trim(author), " ");
    assert names == [Trim(author)];
    assert Initials([]) == [];
    assert FormatSingleAuthor(author) == names[0] + ", " + Initials([]);
  }

  /** Words joined by single spaces form a trimmed string without commas. */
  lemma {:induction false} JoinWordsTrimmed(ps: seq<string>)
    requires |ps| >= 1 && AllWords(ps)
    ensures IsTrimmed(JoinWith(ps, " "))
    ensures ',' !in JoinWith(ps, " ")
    ensures JoinWith(ps, " ")[0] == ps[0][0]
    decreases |ps|
  {
    forall k | 0 <= k < |ps|
      ensures ',' !in ps[k]
    {
      assert IsWord(ps[k]);
    }
    CharNotInJoin(ps, " ", ',');
    if |ps| > 1 {
      JoinWordsTrimmed(ps[1..]);
      var j := JoinWith(ps, " ");
      assert j == ps[0] + " " + JoinWith(ps[1..], " ");
      assert j[0] == ps[0][0];
      assert j[|j| - 1] == JoinWith(ps[1..], " ")[|JoinWith(ps[1..], " ")| - 1];
    } else {
      assert IsWord(ps[0]);
    }
  }

  /** Splitting words joined by single spaces on a space gives the words back. */
  lemma SplitWords(ps: seq<string>)
    requires |ps| >= 1 && AllWords(ps)
    ensures SplitOn(JoinWith(ps, " "), " ") == ps
  {
    forall k | 0 <= k < |ps|
      ensures ' ' !in ps[k]
    {
      assert IsWord(ps[k]);
    }
    SplitJoinChar(ps, ' ');
  }

  lemma CommaSpace(a: string, b: string)
    ensures a + ", " + b == a + "," + (" " + b)
  {
    assert ", " == "," + " ";
  }

  /** "Last, Given Names" becomes "Last, G. N.". */
  lemma SingleAuthorInverted(last: string, given: seq<string>)
    requires ',' !in last
    requires |given| >= 1 && AllWords(given)
    ensures FormatSingleAuthor(last + ", " + JoinWith(given, " ")) == Trim(last) + ", " + Initials(given)
  {
    var j := JoinWith(given, " ");
    var author := last + ", " + j;
    assert SplitOn(author, ",") == [last, " " + j] by {
      JoinWordsTrimmed(given);
      CommaSpace(last, j);
      SplitOnComma(last, " " + j);
    }
    assert SplitOn(Trim(" " + j), " ") == given by {
      JoinWordsTrimmed(given);
      TrimPadded(" ", j, "");
      assert " " + j + "" == " " + j;
      SplitWords(given);
    }
    assert FormatSingleAuthor(author) == LastNameFirst(last, " " + j);
  }

  /** "Given Names Last" becomes "Last, G. N.": the last word is the last name. */
  lemma SingleAuthorNatural(names: seq<string>)
    requires |names| >= 1 && AllWords(names)
    ensures FormatSingleAuthor(JoinWith(names, " ")) == names[|names| - 1] + ", " + Initials(names[..|names| - 1])
  {
    var j := JoinWith(names, " ");
    assert SplitOn(j, ",") == [j] by {
      JoinWordsTrimmed(names);
      NoCommaOnePiece(j);
    }
    assert SplitOn(Trim(j), " ") == names by {
      JoinWordsTrimmed(names);
      TrimFixesTrimmed(j);
      SplitWords(names);
    }
    assert FormatSingleAuthor(j) == GivenNamesFirst(names);
  }

  /** A single word is taken as a last name with no initials after it. */
  lemma SingleWordAuthor(name: string)
    requires IsWord(name)
    ensures FormatSingleAuthor(name) == name + ", "
  {
    assert JoinWith([name], " ") == name;
    SingleAuthorNatural([name]);
    assert Initials([]) == [];
  }

  /** An empty given name still leaves its full stop: "Doe," becomes "Doe, .". */
  lemma EmptyGivenName(last: string)
    requires ',' !in last
    ensures FormatSingleAuthor(last + ",") == Trim(last) + ", ."
  {
    assert last + "," == last + "," + [];
    SplitOnComma(last, []);
    TrimFixesTrimmed([]);
    NotContainsChar([], ' ');
    assert SplitOn([], " ") == [[]];
    assert Initials([[]]) == ".";
  }

  /** "Doe, Jane" is cited as "Doe, J.". */
  lemma DoeJane()
    ensures FormatSingleAuthor("Doe, Jane") == "Doe, J."
  {
    assert IsWord("Jane");
    assert JoinWith(["Jane"], " ") == "Jane";
    assert "Doe" + ", " + "Jane" == "Doe, Jane";
    SingleAuthorInverted("Doe", ["Jane"]);
    assert Trim("Doe") == "Doe" by {
      TrimFixesTrimmed("Doe");
    }
    assert Initials(["Jane"]) == "J.";
    assert "Doe" + ", " + "J." == "Doe, J.";
  }

  // ---------------------------------------------------------------------------
  // formatAuthorsForCitation
  // ---------------------------------------------------------------------------

  /** `formatAuthorsForCitation`: one author in full, two joined by " & ",
      three or more cut to the first and "et al."; no authors give the empty string. */
  function FormatAuthorsForCitation(authors: string): (r: string)
    ensures authors == [] ==> r == []
  {
    if authors == [] then []
    else
      var list := SplitOn(authors, " and ");
      if |list| == 1 then FormatSingleAuthor(list[0])
      else if |list| == 2 then FormatSingleAuthor(list[0]) + " & " + FormatSingleAuthor(list[1])
      else FormatSingleAuthor(list[0]) + " et al."
  }

  /** The citation's author list by the number of names " and " separates. */
  lemma CitationAuthorsByCount(names: seq<string>)
    requires SplitsBackTo(names, " and ")
    requires JoinWith(names, " and ") != []
    ensures var r := FormatAuthorsForCitation(JoinWith(names, " and "));
      && (|names| == 1 ==> r == FormatSingleAuthor(names[0]))
      && (|names| == 2 ==> r == FormatSingleAuthor(names[0]) + " & " + FormatSingleAuthor(names[1]))
      && (|names| >= 3 ==> r == FormatSingleAuthor(names[0]) + " et al.")
  {
    SplitJoin(names, " and ");
  }

  // ---------------------------------------------------------------------------
  // generateCitation
  // ---------------------------------------------------------------------------

  /** A publication field as JavaScript's `publication.key || ''` reads it:
      a missing field is the empty string. */
  function FieldOr(pub: map<string, string>, key: string): (r: string)
    ensures key in pub ==> r == pub[key]
    ensures key !in pub ==> r == []
  {
    if key in pub then pub[key] else []
  }

  /** The title as interpolated: a missing title prints as "undefined". */
  function TitleOf(pub: map<string, string>): string {
    if "title" in pub then pub["title"] else "undefined"
  }

  /** `journal || booktitle || publisher || ''`: the first of them that is set and non-empty. */
  function Venue(pub: map<string, string>): (r: string)
    ensures r == [] <==> FieldOr(pub, "journal") == [] && FieldOr(pub, "booktitle") == [] && FieldOr(pub, "publisher") == []
    ensures r != [] ==> r == FieldOr(pub, "journal") || r == FieldOr(pub, "booktitle") || r == FieldOr(pub, "publisher")
    ensures FieldOr(pub, "journal") != [] ==> r == FieldOr(pub, "journal")
    ensures FieldOr(pub, "journal") == [] && FieldOr(pub, "booktitle") != [] ==> r == FieldOr(pub, "booktitle")
    ensures FieldOr(pub, "journal") == [] && FieldOr(pub, "booktitle") == [] ==> r == FieldOr(pub, "publisher")
  {
    if FieldOr(pub, "journal") != [] then FieldOr(pub, "journal")
    else if FieldOr(pub, "booktitle") != [] then FieldOr(pub, "booktitle")
    else FieldOr(pub, "publisher")
  }

  /** `prefix + value + suffix` when the field is set and non-empty, else nothing. */
  function Labelled(pub: map<string, string>, key: string, prefix: string, suffix: string): (r: string)
    ensures FieldOr(pub, key) == [] <==> r == []
  {
    if FieldOr(pub, key) == [] then [] else prefix + FieldOr(pub, key) + suffix
  }

  /** The citation template before whitespace is normalised:
      `${authors} (${year}). ${title}. ${journal} ${volume} ${number} ${pages}`. */
  function Assemble(a: string, y: string, t: string, j: string, v: string, n: string, p: string): string {
    a + " (" + y + "). " + t + ". " + j + " " + v + " " + n + " " + p
  }

  function Template(pub: map<string, string>): string {
    Assemble(FormatAuthorsForCitation(FieldOr(pub, "author")), FieldOr(pub, "year"), TitleOf(pub), Venue(pub),
      Labelled(pub, "volume", "Volume ", ""), Labelled(pub, "number", "(", ")"), Labelled(pub, "pages", "pp. ", ""))
  }

  /** `generateCitation`: the template, trimmed, with every whitespace run made one space. */
  function GenerateCitation(pub: map<string, string>): (r: string)
    ensures Normal(r)
  {
    CollapseSpace(Trim(Template(pub)))
  }

  /** The citation differs from its template in whitespace only. */
  lemma CitationKeepsText(pub: map<string, string>)
    ensures Visible(GenerateCitation(pub)) == Visible(Template(pub))
  {
    TrimKeepsVisible(Template(pub));
    CollapseKeepsVisible(Trim(Template(pub)));
  }

  /** Normalising text already in normal form changes nothing. */
  lemma NormalFixed(s: string)
    requires Normal(s)
    ensures CollapseSpace(Trim(s)) == s
  {
    TrimFixesTrimmed(s);
    CollapseFixes(s);
  }

  /** A piece the template can hold unchanged: non-empty and in normal form. */
  ghost predicate Clean(s: string) {
    s != [] && Normal(s)
  }

  /** The publication has the field, and its value is clean. */
  ghost predicate CleanField(pub: map<string, string>, key: string) {
    key in pub && Clean(pub[key])
  }

  lemma NormalLiterals()
    ensures Normal("(") && Normal(").") && Normal(".") && Normal("Volume") && Normal(")")
    ensures Normal("pp.")
  {
  }

  /** The pieces "(year)." and "title." of clean year and title are clean. */
  lemma CleanYearTitle(y: string, t: string)
    requires Clean(y) && Clean(t)
    ensures Clean("(" + y + ").") && Clean(t + ".")
  {
    NormalLiterals();
    NormalCat("(", y);
    NormalCat("(" + y, ").");
    NormalCat(t, ".");
  }

  /** The head "Authors (year). Title. Venue" of clean pieces is clean. */
  lemma CleanHead(a: string, y: string, t: string, j: string)
    requires Clean(a) && Clean(y) && Clean(t) && Clean(j)
    ensures Clean(a + " " + ("(" + y + ").") + " " + (t + ".") + " " + j)
  {
    CleanYearTitle(y, t);
    NormalSpaced(a, "(" + y + ").");
    NormalSpaced(a + " " + ("(" + y + ")."), t + ".");
    NormalSpaced(a + " " + ("(" + y + ").") + " " + (t + "."), j);
  }

  lemma FullLayout(a: string, y: string, t: string, j: string, v: string, n: string, p: string)
    ensures Assemble(a, y, t, j, "Volume " + v, "(" + n + ")", "pp. " + p)
      == a + " " + ("(" + y + ").") + " " + (t + ".") + " " + j + " " + ("Volume" + " " + v) + " " + ("(" + n + ")") + " " + ("pp." + " " + p)
    ensures a + " " + ("(" + y + ").") + " " + (t + ".") + " " + j + " " + ("Volume" + " " + v) + " " + ("(" + n + ")") + " " + ("pp." + " " + p)
      == a + " (" + y + "). " + t + ". " + j + " Volume " + v + " (" + n + ") pp. " + p
  {
  }

  /** Clean volume, number and pages keep a clean head clean. */
  lemma CleanTail(h: string, v: string, n: string, p: string)
    requires Clean(h) && Clean(v) && Clean(n) && Clean(p)
    ensures Clean(h + " " + ("Volume" + " " + v) + " " + ("(" + n + ")") + " " + ("pp." + " " + p))
  {
    NormalLiterals();
    NormalSpaced("Volume", v);
    NormalCat("(", n);
    NormalCat("(" + n, ")");
    NormalSpaced("pp.", p);
    NormalSpaced(h, "Volume" + " " + v);
    NormalSpaced(h + " " + ("Volume" + " " + v), "(" + n + ")");
    NormalSpaced(h + " " + ("Volume" + " " + v) + " " + ("(" + n + ")"), "pp." + " " + p);
  }

  /** With every piece clean, the template is cited as it stands:
      "Authors (year). Title. Venue Volume v (n) pp. p". */
  lemma AssembleFull(a: string, y: string, t: string, j: string, v: string, n: string, p: string)
    requires Clean(a) && Clean(y) && Clean(t) && Clean(j) && Clean(v) && Clean(n) && Clean(p)
    ensures CollapseSpace(Trim(Assemble(a, y, t, j, "Volume " + v, "(" + n + ")", "pp. " + p)))
      == a + " (" + y + "). " + t + ". " + j + " Volume " + v + " (" + n + ") pp. " + p
  {
    var h := a + " " + ("(" + y + ").") + " " + (t + ".") + " " + j;
    var whole := h + " " + ("Volume" + " " + v) + " " + ("(" + n + ")") + " " + ("pp." + " " + p);
    assert Normal(whole) by {
      CleanHead(a, y, t, j);
      CleanTail(h, v, n, p);
    }
    FullLayout(a, y, t, j, v, n, p);
    NormalFixed(whole);
  }

  lemma BareLayout(a: string, y: string, t: string, j: string)
    ensures Assemble(a, y, t, j, [], [], []) == [] + (a + " " + ("(" + y + ").") + " " + (t + ".") + " " + j) + "   "
    ensures a + " " + ("(" + y + ").") + " " + (t + ".") + " " + j == a + " (" + y + "). " + t + ". " + j
  {
  }

  /** With volume, number and pages empty, the trailing blanks are trimmed:
      "Authors (year). Title. Venue". */
  lemma AssembleBare(a: string, y: string, t: string, j: string)
    requires Clean(a) && Clean(y) && Clean(t) && Clean(j)
    ensures CollapseSpace(Trim(Assemble(a, y, t, j, [], [], []))) == a + " (" + y + "). " + t + ". " + j
  {
    var h := a + " " + ("(" + y + ").") + " " + (t + ".") + " " + j;
    CleanHead(a, y, t, j);
    BareLayout(a, y, t, j);
    assert Trim(Assemble(a, y, t, j, [], [], [])) == h by {
      TrimPadded([], h, "   ");
    }
    CollapseFixes(h);
  }

  /** A publication whose author list, year, title, journal, volume, number
      and pages are all set and clean is cited as
      "Authors (year). Title. Journal Volume v (n) pp. p". */
  lemma CitationOfFullRecord(pub: map<string, string>)
    requires Clean(FormatAuthorsForCitation(FieldOr(pub, "author")))
    requires CleanField(pub, "year") && CleanField(pub, "title") && CleanField(pub, "journal")
    requires CleanField(pub, "volume") && CleanField(pub, "number") && CleanField(pub, "pages")
    ensures GenerateCitation(pub)
      == FormatAuthorsForCitation(FieldOr(pub, "author")) + " (" + pub["year"] + "). " + pub["title"] + ". "
         + pub["journal"] + " Volume " + pub["volume"] + " (" + pub["number"] + ") pp. " + pub["pages"]
  {
    var a := FormatAuthorsForCitation(FieldOr(pub, "author"));
    var y, t, j := pub["year"], pub["title"], pub["journal"];
    var v, n, p := pub["volume"], pub["number"], pub["pages"];
    assert Template(pub) == Assemble(a, y, t, j, "Volume " + v, "(" + n + ")", "pp. " + p) by {
      assert Labelled(pub, "volume", "Volume ", "") == "Volume " + v;
      assert Labelled(pub, "number", "(", ")") == "(" + n + ")";
      assert Labelled(pub, "pages", "pp. ", "") == "pp. " + p;
    }
    AssembleFull(a, y, t, j, v, n, p);
  }

  /** A publication without volume, number and pages is cited as
      "Authors (year). Title. Venue", the venue being the journal, book
      title or publisher, whichever comes first. */
  lemma CitationWithoutDetails(pub: map<string, string>)
    requires Clean(FormatAuthorsForCitation(FieldOr(pub, "author")))
    requires CleanField(pub, "year") && CleanField(pub, "title")
    requires Clean(Venue(pub))
    requires "volume" !in pub && "number" !in pub && "pages" !in pub
    ensures GenerateCitation(pub)
      == FormatAuthorsForCitation(FieldOr(pub, "author")) + " (" + pub["year"] + "). " + pub["title"] + ". " + Venue(pub)
  {
    var a := FormatAuthorsForCitation(FieldOr(pub, "author"));
    assert Template(pub) == Assemble(a, pub["year"], pub["title"], Venue(pub), [], [], []);
    AssembleBare(a, pub["year"], pub["title"], Venue(pub));
  }
}
