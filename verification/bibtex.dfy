/** `BibtexParser.parse` (js/bibtex-parser.js:23-155): one BibTeX entry in, zero or
    one publication record out. The regular expressions of the source are written
    out as scans that reproduce what the JavaScript engine matches. */
module Bibtex {
  import opened Options
  import opened Text
  import opened Assoc
  import opened Search

  // ---------------------------------------------------------------------------
  // The entry header: /@(\w+)\s*\{([^,]*),/
  // ---------------------------------------------------------------------------

  /** `\w`: ASCII letters, digits and the underscore. */
  predicate IsWordChar(c: char) {
    'a' <= c <= 'z' || 'A' <= c <= 'Z' || '0' <= c <= '9' || c == '_'
  }

  predicate AllWord(s: string) {
    forall i :: 0 <= i < |s| ==> IsWordChar(s[i])
  }

  /** End of the run of word characters that starts at `i`. */
  function WordEnd(s: string, i: nat): (j: nat)
    requires i <= |s|
    ensures i <= j <= |s|
    decreases |s| - i
  {
    if i < |s| && IsWordChar(s[i]) then WordEnd(s, i + 1) else i
  }

  /** The run `WordEnd` reports is made of word characters. */
  lemma {:induction false} WordEndRun(s: string, i: nat)
    requires i <= |s|
    ensures forall k :: i <= k < WordEnd(s, i) ==> IsWordChar(s[k])
    decreases |s| - i
  {
    if i < |s| && IsWordChar(s[i]) {
      WordEndRun(s, i + 1);
    }
  }

  lemma WordEndIs(s: string, i: nat, j: nat)
    requires i <= j <= |s|
    requires forall k :: i <= k < j ==> IsWordChar(s[k])
    requires j == |s| || !IsWordChar(s[j])
    ensures WordEnd(s, i) == j
    decreases j - i
  {
    if i < j {
      WordEndIs(s, i + 1, j);
    }
  }

  /** The two capture groups of the header pattern: the entry type and the key. */
  datatype Header = Header(word: string, key: string)

  /** The header pattern, read declaratively: at `i`, `s` holds `@`, then `word`
      (one or more word characters), then `gap` whitespace characters, then `{`,
      then `key` (no comma in it), then a comma. */
  predicate HeaderShape(s: string, i: int, word: string, gap: nat, key: string) {
    var open := i + 1 + |word| + gap;
    && 0 <= i && open + 1 + |key| < |s|
    && s[i] == '@'
    && |word| > 0 && AllWord(word) && s[i + 1..i + 1 + |word|] == word
    && (forall k :: i + 1 + |word| <= k < open ==> IsSpace(s[k]))
    && s[open] == '{'
    && s[open + 1..open + 1 + |key|] == key && ',' !in key
    && s[open + 1 + |key|] == ','
  }

  /** The header pattern anchored at `i`. Every quantifier in it is greedy and
      no shorter choice can let the match go on (a shorter `\w+` leaves a word
      character where `\s` or `{` is needed, and so on), so one scan per group
      decides the match. */
  function HeaderAt(s: string, i: nat): (r: Option<Header>) {
    if i >= |s| || s[i] != '@' then None
    else
      var w := WordEnd(s, i + 1);
      if w == i + 1 then None
      else
        var open := SpaceEnd(s, w);
        if open == |s| || s[open] != '{' then None
        else match IndexOfFrom(s, ',', open + 1)
          case None => None
          case Some(comma) => Some(Header(s[i + 1..w], s[open + 1..comma]))
  }

  /** Text with the header's shape at `i` is matched there, with that shape's
      word and key as the captures. */
  lemma HeaderAtComplete(s: string, i: nat, word: string, gap: nat, key: string)
    requires HeaderShape(s, i, word, gap, key)
    ensures HeaderAt(s, i) == Some(Header(word, key))
  {
    var w := i + 1 + |word|;
    var open := w + gap;
    var comma := open + 1 + |key|;
    assert WordEnd(s, i + 1) == w by {
      forall k | i + 1 <= k < w
        ensures IsWordChar(s[k])
      {
        assert s[k] == word[k - i - 1];
      }
      if gap > 0 {
        assert IsSpace(s[w]);
      } else {
        assert s[w] == '{';
      }
      WordEndIs(s, i + 1, w);
    }
    assert SpaceEnd(s, w) == open by {
      assert s[open] == '{';
      SpaceEndIs(s, w, open);
    }
    assert IndexOfFrom(s, ',', open + 1) == Some(comma) by {
      forall j | open + 1 <= j < comma
        ensures s[j] != ','
      {
        assert s[j] == key[j - open - 1];
      }
      IndexOfFromIs(s, ',', open + 1, comma);
    }
    HeaderAtIs(s, i, w, open, comma);
    assert s[i + 1..w] == word && s[open + 1..comma] == key;
  }

  /** The header scan at `i` once its three runs are known. */
  lemma HeaderAtIs(s: string, i: nat, w: nat, open: nat, comma: nat)
    requires i < |s| && s[i] == '@' && i + 1 < w <= |s| && WordEnd(s, i + 1) == w
    requires SpaceEnd(s, w) == open && open < |s| && s[open] == '{'
    requires IndexOfFrom(s, ',', open + 1) == Some(comma)
    ensures HeaderAt(s, i) == Some(Header(s[i + 1..w], s[open + 1..comma]))
  {
  }


  /** What the header scan captures at `i` has the header's shape there. */
  lemma HeaderAtSound(s: string, i: nat)
    requires HeaderAt(s, i).Some?
    ensures exists g :: HeaderShape(s, i, HeaderAt(s, i).value.word, g, HeaderAt(s, i).value.key)
  {
    var h := HeaderAt(s, i).value;
    var w := WordEnd(s, i + 1);
    var open := SpaceEnd(s, w);
    var comma := IndexOfFrom(s, ',', open + 1).value;
    assert h == Header(s[i + 1..w], s[open + 1..comma]);
    assert AllWord(h.word) by {
      WordEndRun(s, i + 1);
      assert forall k :: 0 <= k < |h.word| ==> h.word[k] == s[i + 1 + k];
    }
    assert ',' !in h.key by {
      IndexOfFromFirst(s, ',', open + 1);
      assert forall k :: 0 <= k < |h.key| ==> h.key[k] == s[open + 1 + k];
    }
    assert HeaderShape(s, i, h.word, open - w, h.key);
  }

  /** The header pattern as a matcher over positions of `s`. */
  function HeaderMatcher(s: string): nat -> Option<Header> {
    (i: nat) => HeaderAt(s, i)
  }

  /** `exec` of the header pattern: the leftmost position of `s` where it
      matches, with the captures there. */
  function FindHeader(s: string): (r: Option<(nat, Header)>)
    ensures r.Some? ==> r.value.0 < |s| && HeaderAt(s, r.value.0) == Some(r.value.1)
  {
    FirstMatch(HeaderMatcher(s), 0, |s|)
  }

  /** The match `exec` reports is the leftmost one: the pattern matches nowhere
      before it, and nowhere at all when nothing is reported. */
  lemma FindHeaderLeftmost(s: string)
    ensures FindHeader(s).Some? ==> forall j :: 0 <= j < FindHeader(s).value.0 ==> HeaderAt(s, j).None?
    ensures FindHeader(s).None? ==> forall j :: 0 <= j ==> HeaderAt(s, j).None?
  {
    var f := HeaderMatcher(s);
    FirstMatchLeftmost(f, 0, |s|);
    forall j: nat | FindHeader(s).None? || j < FindHeader(s).value.0
      ensures HeaderAt(s, j).None?
    {
      if j <= |s| {
        assert f(j) == HeaderAt(s, j);
      }
    }
  }

  /** Some position of `s` has the header's shape. */
  ghost predicate ContainsHeader(s: string) {
    exists i, word, gap, key :: HeaderShape(s, i, word, gap, key)
  }

  lemma FindHeaderFindsShape(s: string)
    ensures FindHeader(s).Some? <==> ContainsHeader(s)
  {
    if FindHeader(s).Some? {
      var (i, h) := FindHeader(s).value;
      HeaderAtSound(s, i);
    }
    if ContainsHeader(s) {
      var i, word, gap, key :| HeaderShape(s, i, word, gap, key);
      HeaderAtComplete(s, i, word, gap, key);
      FindHeaderLeftmost(s);
    }
  }

  // ---------------------------------------------------------------------------
  // The field separator: content.split(/,\s*\n\s*/)
  // ---------------------------------------------------------------------------

  /** `s[q..e]` is a comma followed by whitespace holding a line feed: text the
      separator pattern `,\s*\n\s*` can match. */
  predicate DelimSpan(s: string, q: int, e: int) {
    && 0 <= q < e <= |s| && s[q] == ','
    && (forall k :: q < k < e ==> IsSpace(s[k]))
    && (exists k :: q < k < e && s[k] == '\n')
  }

  /** The separator pattern anchored at `q`, with the position where the match
      ends. The first `\s*` backs off to the last line feed of the whitespace
      run after the comma and the second `\s*` takes the rest of the run, so a
      match covers the comma and its whole whitespace run, provided that run
      holds a line feed. */
  function DelimAt(s: string, q: nat): (r: Option<nat>)
    requires q <= |s|
    ensures r.Some? ==> DelimSpan(s, q, r.value)
    ensures r.Some? ==> r.value == |s| || !IsSpace(s[r.value])
    ensures r.None? ==> forall e :: !DelimSpan(s, q, e)
  {
    if q < |s| && s[q] == ',' then
      var e := SpaceEnd(s, q + 1);
      if exists k :: q < k < e && s[k] == '\n' then Some(e)
      else
        None
    else None
  }

  /** The leftmost separator at or after `from`: its start and its end. */
  function FirstDelim(s: string, from: nat): (r: Option<(nat, nat)>)
    requires from <= |s|
    ensures r.Some? ==> from <= r.value.0 <= |s| && DelimAt(s, r.value.0) == Some(r.value.1)
    decreases |s| - from
  {
    match DelimAt(s, from)
    case Some(e) => Some((from, e))
    case None => if from == |s| then None else FirstDelim(s, from + 1)
  }

  /** No separator starts between `from` and the one found, and none at all when
      nothing is found: the cut is the leftmost match. */
  lemma {:induction false} FirstDelimLeftmost(s: string, from: nat)
    requires from <= |s|
    ensures FirstDelim(s, from).Some? ==>
      forall q :: from <= q < FirstDelim(s, from).value.0 ==> DelimAt(s, q).None?
    ensures FirstDelim(s, from).None? ==> forall q :: from <= q <= |s| ==> DelimAt(s, q).None?
    decreases |s| - from
  {
    if DelimAt(s, from).None? && from < |s| {
      FirstDelimLeftmost(s, from + 1);
    }
  }

  /** `String.prototype.split` with the separator pattern: cut before each
      leftmost match and resume after it. */
  function SplitFields(s: string): (r: seq<string>)
    ensures |r| >= 1
    ensures '\n' !in s ==> r == [s]
    decreases |s|
  {
    match FirstDelim(s, 0)
    case None => [s]
    case Some((q, e)) =>
      assert '\n' in s by {
        var k :| q < k < e && s[k] == '\n';
      }
      [s[..q]] + SplitFields(s[e..])
  }

  // ---------------------------------------------------------------------------
  // Field values: the brace-depth scan
  // ---------------------------------------------------------------------------

  function Delta(c: char): int {
    if c == '{' then 1 else if c == '}' then -1 else 0
  }

  /** Opening braces minus closing braces in `t`. */
  function Balance(t: string): int {
    if t == [] then 0 else Balance(t[..|t| - 1]) + Delta(t[|t| - 1])
  }

  /** The scan's counter once it has looked at `line[k]`: it starts at one for the
      brace at `open` and follows every brace after it. */
  function DepthAt(line: string, open: nat, k: nat): int
    requires open < k < |line|
  {
    1 + Balance(line[open + 1..k + 1])
  }

  /** The loop at js/bibtex-parser.js:88-96 from index `i` on, with the counter at `depth`. */
  function CloseFrom(line: string, i: nat, depth: int): (r: Option<nat>)
    requires i <= |line|
    ensures r.Some? ==> i <= r.value < |line|
    decreases |line| - i
  {
    if i == |line| then None
    else
      var d := depth + Delta(line[i]);
      if d == 0 then Some(i) else CloseFrom(line, i + 1, d)
  }

  /** The index of the `}` that brings the brace depth opened at `open` back to
      zero, if any. */
  function MatchingClose(line: string, open: nat): (r: Option<nat>)
    requires open < |line|
    ensures r.Some? ==> open < r.value < |line|
  {
    CloseFrom(line, open + 1, 1)
  }

  lemma {:induction false} CloseFromFirstZero(line: string, open: nat, i: nat, depth: int)
    requires open < i <= |line|
    requires depth == 1 + Balance(line[open + 1..i])
    requires forall k :: open < k < i ==> DepthAt(line, open, k) != 0
    ensures CloseFrom(line, i, depth).Some? ==> DepthAt(line, open, CloseFrom(line, i, depth).value) == 0
    ensures CloseFrom(line, i, depth).Some? ==>
      forall k :: open < k < CloseFrom(line, i, depth).value ==> DepthAt(line, open, k) != 0
    ensures CloseFrom(line, i, depth).None? ==> forall k :: open < k < |line| ==> DepthAt(line, open, k) != 0
    decreases |line| - i
  {
    if i < |line| {
      var d := depth + Delta(line[i]);
      assert line[open + 1..i + 1][..i - open - 1] == line[open + 1..i];
      assert d == DepthAt(line, open, i);
      if d != 0 {
        CloseFromFirstZero(line, open, i + 1, d);
      }
    }
  }

  /** The scan stops at the first index after `open` where the counter, started
      at one and moved by every brace, reaches zero; it finds nothing exactly
      when the counter never reaches zero on the line. */
  lemma MatchingCloseFirstZero(line: string, open: nat)
    requires open < |line|
    ensures MatchingClose(line, open).Some? ==> DepthAt(line, open, MatchingClose(line, open).value) == 0
    ensures MatchingClose(line, open).Some? ==>
      forall k :: open < k < MatchingClose(line, open).value ==> DepthAt(line, open, k) != 0
    ensures MatchingClose(line, open).None? <==> forall k :: open < k < |line| ==> DepthAt(line, open, k) != 0
  {
    assert line[open + 1..open + 1] == [];
    CloseFromFirstZero(line, open, open + 1, 1);
  }

  /** The balance of the first `k` characters of `t`. */
  function PrefixBalance(t: string, k: nat): int
    requires k <= |t|
  {
    Balance(t[..k])
  }

  /** Every prefix of `t` closes no more braces than it has opened, and `t` closes
      all it opens. */
  predicate Balanced(t: string) {
    Balance(t) == 0 && forall k :: 0 <= k <= |t| ==> PrefixBalance(t, k) >= 0
  }

  /** Nested braces do not end the value early: after `{`, a balanced text and
      then `}`, the scan stops at that `}`. */
  lemma MatchingCloseBalanced(line: string, open: nat, inner: string)
    requires open + 1 + |inner| < |line|
    requires line[open + 1..open + 1 + |inner|] == inner && line[open + 1 + |inner|] == '}'
    requires Balanced(inner)
    ensures MatchingClose(line, open) == Some(open + 1 + |inner|)
  {
    var close := open + 1 + |inner|;
    forall k | open < k < close
      ensures DepthAt(line, open, k) != 0
    {
      assert line[open + 1..k + 1] == inner[..k - open] by {
        assert line[open + 1..k + 1] == line[open + 1..close][..k - open];
      }
      assert PrefixBalance(inner, k - open) >= 0;
    }
    assert line[open + 1..close + 1][..|inner|] == inner;
    assert DepthAt(line, open, close) == 0;
    MatchingCloseFirstZero(line, open);
  }

  // ---------------------------------------------------------------------------
  // One field
  // ---------------------------------------------------------------------------

  datatype Field = Field(name: string, value: string)

  /** `if (fieldValue.endsWith('}')) fieldValue = fieldValue.substring(0, length - 1)`. */
  function DropClosingBrace(v: string): (r: string)
    ensures EndsWith(v, "}") ==> r + "}" == v
    ensures !EndsWith(v, "}") ==> r == v
  {
    if EndsWith(v, "}") then v[..|v| - 1] else v
  }

  /** The trimmed piece is skipped: it is empty, it is the closing brace, it has
      no `=`, or no `{` comes after its first `=`. */
  predicate Skipped(line: string) {
    || line == []
    || line == "}"
    || '=' !in line
    || forall k, j :: 0 <= k < j < |line| && line[k] == '=' ==> line[j] != '{'
  }

  /** The body of the `forEach` at js/bibtex-parser.js:70-109: a field name and
      value from one piece of the field body, or nothing. */
  function ExtractField(piece: string): (r: Option<Field>)
    ensures r.Some? ==> IsLower(r.value.name)
  {
    var line := Trim(piece);
    if line == [] || line == "}" then None
    else match IndexOf(line, '=')
      case None => None
      case Some(eq) =>
        match IndexOfFrom(line, '{', eq)
        case None => None
        case Some(open) =>
          assert line[..open + 1][eq] == '=';
          var name := Lower(Trim(line[..eq]));
          LowerIsLower(Trim(line[..eq]));
          Some(Field(name, ValueFrom(line, open)))
  }

  /** The field value after the `{` at `open`: up to the matching `}` when the
      scan finds one, else the rest of the piece less one trailing `}`. */
  function ValueFrom(line: string, open: nat): string
    requires open < |line|
  {
    match MatchingClose(line, open)
    case Some(close) => Trim(line[open + 1..close])
    case None => DropClosingBrace(Trim(line[open + 1..]))
  }

  /** A piece yields no field exactly when its trimmed text is skipped. */
  lemma ExtractFieldSkips(piece: string)
    ensures ExtractField(piece).None? <==> Skipped(Trim(piece))
  {
    var line := Trim(piece);
    if line != [] && line != "}" && IndexOf(line, '=').Some? {
      var eq := IndexOf(line, '=').value;
      IndexOfFromFirst(line, '{', eq);
      if IndexOfFrom(line, '{', eq).Some? {
        var open := IndexOfFrom(line, '{', eq).value;
        assert line[eq] == '=' && line[open] == '{' && eq < open;
      }
    }
  }

  /** `ExtractField` on a trimmed piece, once its `=` and its `{` are known. */
  lemma ExtractFieldAt(line: string, name: string, open: nat)
    requires Trim(line) == line && line != [] && line != "}"
    requires IndexOf(line, '=') == Some(|name|) && line[..|name|] == name
    requires IndexOfFrom(line, '{', |name|) == Some(open)
    ensures ExtractField(line) == Some(Field(Lower(Trim(name)), ValueFrom(line, open)))
  {
  }

  /** The first `=` of the trimmed piece is at `eq` and the first `{` after it at `open`. */
  ghost predicate FieldMarks(line: string, eq: nat, open: nat) {
    && eq < open < |line| && line[eq] == '=' && line[open] == '{'
    && (forall k :: 0 <= k < eq ==> line[k] != '=')
    && (forall k :: eq <= k < open ==> line[k] != '{')
  }

  /** With its `=` and `{` known, a piece is read as a field named by the trimmed,
      lower-cased text before the `=`, with the value read from that `{`. */
  lemma ExtractFieldMarks(piece: string, eq: nat, open: nat)
    requires FieldMarks(Trim(piece), eq, open)
    ensures ExtractField(piece) == Some(Field(Lower(Trim(Trim(piece)[..eq])), ValueFrom(Trim(piece), open)))
  {
    var line := Trim(piece);
    assert line != "}" by {
      assert line[eq] == '=';
    }
    IndexOfIs(line, '=', eq);
    IndexOfFromIs(line, '{', eq, open);
  }

  /** A piece whose value's braces balance at `close`: the value is the trimmed
      text strictly between the `{` and that `}`, whatever gap surrounds the `=`
      and whatever follows the `}`. */
  lemma ExtractFieldClosed(piece: string, eq: nat, open: nat, close: nat)
    requires FieldMarks(Trim(piece), eq, open) && open < close < |Trim(piece)|
    requires DepthAt(Trim(piece), open, close) == 0
    requires forall k :: open < k < close ==> DepthAt(Trim(piece), open, k) != 0
    ensures ExtractField(piece) ==
      Some(Field(Lower(Trim(Trim(piece)[..eq])), Trim(Trim(piece)[open + 1..close])))
  {
    ExtractFieldMarks(piece, eq, open);
    MatchingCloseIs(Trim(piece), open, close);
  }

  /** The first index after `open` where the brace counter reaches zero is what
      the scan reports. */
  lemma MatchingCloseIs(line: string, open: nat, close: nat)
    requires open < close < |line| && DepthAt(line, open, close) == 0
    requires forall k :: open < k < close ==> DepthAt(line, open, k) != 0
    ensures MatchingClose(line, open) == Some(close)
  {
    MatchingCloseFirstZero(line, open);
  }

  /** A piece whose value's braces never balance: the value is the trimmed rest
      of the piece less one trailing `}`. */
  lemma ExtractFieldOpen(piece: string, eq: nat, open: nat)
    requires FieldMarks(Trim(piece), eq, open)
    requires forall k :: open < k < |Trim(piece)| ==> DepthAt(Trim(piece), open, k) != 0
    ensures ExtractField(piece) ==
      Some(Field(Lower(Trim(Trim(piece)[..eq])), DropClosingBrace(Trim(Trim(piece)[open + 1..]))))
  {
    ExtractFieldMarks(piece, eq, open);
    MatchingCloseFirstZero(Trim(piece), open);
  }

  lemma ValueFromClosed(line: string, open: nat, close: nat)
    requires open < close < |line| && MatchingClose(line, open) == Some(close)
    ensures ValueFrom(line, open) == Trim(line[open + 1..close])
  {
  }

  lemma ValueFromUnclosed(line: string, open: nat)
    requires open < |line| && MatchingClose(line, open).None?
    ensures ValueFrom(line, open) == DropClosingBrace(Trim(line[open + 1..]))
  {
  }

  lemma LayoutTrimmed(name: string, rest: string)
    requires name == [] || !IsSpace(name[0])
    requires rest == [] || !IsSpace(rest[|rest| - 1])
    ensures var piece := name + "={" + rest; Trim(piece) == piece
  {
    var piece := name + "={" + rest;
    assert !IsSpace(piece[0]) by {
      if name != [] {
        assert piece[0] == name[0];
      }
    }
    assert !IsSpace(piece[|piece| - 1]) by {
      if rest != [] {
        assert piece[|piece| - 1] == rest[|rest| - 1];
      }
    }
    TrimFixesTrimmed(piece);
  }

  lemma LayoutIndices(name: string, rest: string)
    requires '=' !in name
    ensures var piece := name + "={" + rest;
      && IndexOf(piece, '=') == Some(|name|)
      && IndexOfFrom(piece, '{', |name|) == Some(|name| + 1)
      && piece[..|name|] == name
      && piece[|name| + 2..] == rest
  {
    var piece := name + "={" + rest;
    assert piece[..|name|] == name;
    assert piece[|name| + 2..] == rest;
    assert forall j :: 0 <= j < |name| ==> piece[j] == name[j];
    IndexOfIs(piece, '=', |name|);
    IndexOfFromIs(piece, '{', |name|, |name| + 1);
  }

  lemma NestedAssoc(name: string, inner: string)
    ensures name + "={" + inner + "}" == name + "={" + (inner + "}")
  {
    ConcatAssoc(name + "={", inner, "}");
  }

  lemma NestedLayout(name: string, inner: string)
    requires name == [] || !IsSpace(name[0])
    requires '=' !in name
    ensures var piece := name + "={" + inner + "}";
      && Trim(piece) == piece && piece != [] && piece != "}"
      && IndexOf(piece, '=') == Some(|name|) && piece[..|name|] == name
      && IndexOfFrom(piece, '{', |name|) == Some(|name| + 1)
      && piece[|name| + 2..|name| + 2 + |inner|] == inner && piece[|name| + 2 + |inner|] == '}'
  {
    NestedAssoc(name, inner);
    LayoutTrimmed(name, inner + "}");
    LayoutIndices(name, inner + "}");
    NestedClose(name, inner);
  }

  lemma NestedClose(name: string, inner: string)
    ensures var piece := name + "={" + inner + "}";
      piece[|name| + 2..|name| + 2 + |inner|] == inner && piece[|name| + 2 + |inner|] == '}'
  {
    var piece := name + "={" + inner + "}";
    assert piece[|name| + 2..|name| + 2 + |inner|] == inner;
  }

  /** A field written `name={value}` with braces nested inside the value yields
      the whole value, trimmed, under the lower-cased name. */
  lemma ExtractNested(name: string, inner: string)
    requires name == [] || !IsSpace(name[0])
    requires '=' !in name
    requires Balanced(inner)
    ensures ExtractField(name + "={" + inner + "}") == Some(Field(Lower(Trim(name)), Trim(inner)))
  {
    var piece := name + "={" + inner + "}";
    var open := |name| + 1;
    NestedLayout(name, inner);
    MatchingCloseBalanced(piece, open, inner);
    ValueFromClosed(piece, open, open + 1 + |inner|);
    ExtractFieldAt(piece, name, open);
  }

  /** Past the `{` of `name={rest`, the scan's counter is one plus the balance
      of the part of `rest` it has read. */
  lemma UnclosedDepth(name: string, rest: string, k: nat)
    requires |name| + 1 < k < |name| + 2 + |rest|
    ensures DepthAt(name + "={" + rest, |name| + 1, k) == 1 + PrefixBalance(rest, k - |name| - 1)
  {
    var piece := name + "={" + rest;
    assert piece[|name| + 2..k + 1] == rest[..k - |name| - 1];
  }

  /** A value whose braces never close on its piece is the rest of the piece,
      trimmed, with one trailing `}` dropped. */
  lemma ExtractUnclosed(name: string, rest: string)
    requires name == [] || !IsSpace(name[0])
    requires '=' !in name
    requires rest == [] || !IsSpace(rest[|rest| - 1])
    requires forall k :: 0 < k <= |rest| ==> 1 + PrefixBalance(rest, k) != 0
    ensures ExtractField(name + "={" + rest) == Some(Field(Lower(Trim(name)), DropClosingBrace(Trim(rest))))
  {
    var piece := name + "={" + rest;
    var open := |name| + 1;
    LayoutTrimmed(name, rest);
    LayoutIndices(name, rest);
    forall k | open < k < |piece|
      ensures DepthAt(piece, open, k) != 0
    {
      UnclosedDepth(name, rest, k);
    }
    MatchingCloseFirstZero(piece, open);
    ValueFromUnclosed(piece, open);
    ExtractFieldAt(piece, name, open);
  }

  // ---------------------------------------------------------------------------
  // The links field and the url field
  // ---------------------------------------------------------------------------

  /** One `label:url` part of a `links` value, split at its first colon; a part
      whose colon is missing or comes first is dropped. */
  function LinkPair(part: string): Option<(string, string)> {
    var t := Trim(part);
    match IndexOf(t, ':')
    case Some(colon) => if colon > 0 then Some((Trim(t[..colon]), Trim(t[colon + 1..]))) else None
    case None => None
  }

  /** A part is kept exactly when, once trimmed, it holds a colon that is not its
      first character. */
  lemma LinkPairKept(part: string)
    ensures LinkPair(part).Some? <==> ':' in Trim(part) && Trim(part)[0] != ':'
  {
  }

  /** The label is everything before the first colon and the url everything
      after it, each trimmed; later colons stay in the url. */
  lemma LinkPairSplitsAtFirstColon(linkType: string, url: string)
    requires linkType != [] && !IsSpace(linkType[0]) && ':' !in linkType
    requires url == [] || !IsSpace(url[|url| - 1])
    ensures LinkPair(linkType + ":" + url) == Some((Trim(linkType), Trim(url)))
  {
    var part := linkType + ":" + url;
    assert !IsSpace(part[|part| - 1]) by {
      if url != [] {
        assert part[|part| - 1] == url[|url| - 1];
      }
    }
    TrimFixesTrimmed(part);
    assert forall j :: 0 <= j < |linkType| ==> part[j] == linkType[j];
    IndexOfIs(part, ':', |linkType|);
    assert part[..|linkType|] == linkType;
    assert part[|linkType| + 1..] == url;
  }

  function LinkWrites(parts: seq<string>): (ws: seq<Option<(string, string)>>)
    ensures |ws| == |parts|
    ensures forall i :: 0 <= i < |parts| ==> ws[i] == LinkPair(parts[i])
  {
    if parts == [] then [] else LinkWrites(parts[..|parts| - 1]) + [LinkPair(parts[|parts| - 1])]
  }

  /** The map built from the `label:url` parts, a later label replacing an
      earlier one. */
  function LinksOf(parts: seq<string>): map<string, string> {
    Collect(LinkWrites(parts))
  }

  /** The `links` branch (js/bibtex-parser.js:114-128): a fresh map built from
      the comma-separated parts of the value. */
  function ParseLinks(value: string): map<string, string> {
    LinksOf(SplitOn(value, ","))
  }

  /** The links map of a `links` value: a label is in it exactly when some
      comma-separated part of the value carries it, with the url of the last such part. */
  lemma ParseLinksMeaning(value: string, linkType: string)
    ensures linkType in ParseLinks(value) ==>
      exists i :: 0 <= i < |SplitOn(value, ",")| && Writes(LinkPair(SplitOn(value, ",")[i]), linkType)
    ensures forall i :: 0 <= i < |SplitOn(value, ",")| && Writes(LinkPair(SplitOn(value, ",")[i]), linkType) ==>
      linkType in ParseLinks(value)
    ensures forall i :: LastWrite(LinkWrites(SplitOn(value, ",")), i, linkType) ==>
      ParseLinks(value)[linkType] == LinkPair(SplitOn(value, ",")[i]).value.1
  {
    var parts := SplitOn(value, ",");
    LinksOfMeaning(parts, linkType);
    if linkType in ParseLinks(value) {
      var i :| 0 <= i < |parts| && Writes(LinkPair(parts[i]), linkType);
    }
  }

  /** A label is in the links map exactly when some part carries it, and its url
      is the one from the last such part. */
  lemma LinksOfMeaning(parts: seq<string>, linkType: string)
    ensures linkType in LinksOf(parts) <==> exists i :: 0 <= i < |parts| && Writes(LinkPair(parts[i]), linkType)
    ensures forall i :: LastWrite(LinkWrites(parts), i, linkType) ==>
      LinksOf(parts)[linkType] == LinkPair(parts[i]).value.1
  {
    CollectDomain(LinkWrites(parts), linkType);
    forall i | LastWrite(LinkWrites(parts), i, linkType)
      ensures LinksOf(parts)[linkType] == LinkPair(parts[i]).value.1
    {
      CollectLastWins(LinkWrites(parts), i, linkType);
    }
  }

  /** JavaScript falsiness of `links[key]`: absent or empty. */
  predicate Unset(links: map<string, string>, key: string) {
    key !in links || links[key] == ""
  }

  /** The `url` branch (js/bibtex-parser.js:131-139): `links.url` becomes the url,
      and `links.journal` and `links.pdf` take it only while they are unset. */
  function ApplyUrl(links: Option<map<string, string>>, url: string): (r: map<string, string>)
    ensures var before := links.GetOr(map[]);
      && r.Keys == before.Keys + {"url", "journal", "pdf"}
      && r["url"] == url
      && (forall key :: key in {"journal", "pdf"} ==>
            r[key] == (if Unset(before, key) then url else before[key]))
      && (forall key :: key in before && key !in {"url", "journal", "pdf"} ==> r[key] == before[key])
  {
    var m := links.GetOr(map[])["url" := url];
    var m := if Unset(m, "journal") then m["journal" := url] else m;
    if Unset(m, "pdf") then m["pdf" := url] else m
  }

  // ---------------------------------------------------------------------------
  // The record
  // ---------------------------------------------------------------------------

  /** What the field loop has built so far: the plain fields and, once a `links`
      or `url` field has been seen, the links map. */
  datatype Acc = Acc(fields: map<string, string>, links: Option<map<string, string>>)

  /** Routes one field: `links` replaces the links map, `url` goes into it, and
      any other name is stored verbatim. */
  function AbsorbField(acc: Acc, f: Field): Acc {
    if f.name == "links" then acc.(links := Some(ParseLinks(f.value)))
    else if f.name == "url" then acc.(links := Some(ApplyUrl(acc.links, f.value)))
    else acc.(fields := acc.fields[f.name := f.value])
  }

  /** One turn of the `forEach`: a piece that yields no field changes nothing. */
  function AbsorbOne(acc: Acc, f: Option<Field>): Acc {
    match f
    case None => acc
    case Some(field) => AbsorbField(acc, field)
  }

  /** The `forEach` over what the pieces yielded, one after the other. */
  function AbsorbAll(fs: seq<Option<Field>>): Acc {
    if fs == [] then Acc(map[], None)
    else AbsorbOne(AbsorbAll(fs[..|fs| - 1]), fs[|fs| - 1])
  }

  /** What each piece of the field body yields. */
  function Extracted(pieces: seq<string>): (fs: seq<Option<Field>>)
    ensures |fs| == |pieces|
    ensures forall i :: 0 <= i < |pieces| ==> fs[i] == ExtractField(pieces[i])
  {
    seq(|pieces|, i requires 0 <= i < |pieces| => ExtractField(pieces[i]))
  }

  /** The whole field loop of js/bibtex-parser.js:70-140. */
  function Absorb(pieces: seq<string>): Acc {
    AbsorbAll(Extracted(pieces))
  }

  /** The write a field makes to the plain fields, if any. */
  function FieldWrite(f: Option<Field>): Option<(string, string)> {
    match f
    case Some(field) => if field.name == "links" || field.name == "url" then None else Some((field.name, field.value))
    case None => None
  }

  function FieldWrites(fs: seq<Option<Field>>): (ws: seq<Option<(string, string)>>)
    ensures |ws| == |fs|
    ensures forall i :: 0 <= i < |fs| ==> ws[i] == FieldWrite(fs[i])
  {
    if fs == [] then [] else FieldWrites(fs[..|fs| - 1]) + [FieldWrite(fs[|fs| - 1])]
  }

  /** The plain fields are exactly the last-writer-wins map of the fields' writes:
      `links` and `url` fields never touch them. */
  lemma {:induction false} AbsorbFields(fs: seq<Option<Field>>)
    ensures AbsorbAll(fs).fields == Collect(FieldWrites(fs))
  {
    if fs != [] {
      var prefix := fs[..|fs| - 1];
      AbsorbFields(prefix);
      assert FieldWrites(fs)[..|fs| - 1] == FieldWrites(prefix);
    }
  }

  /** A field that routes into the links map. */
  predicate IsLinkField(f: Option<Field>) {
    f.Some? && f.value.name in {"links", "url"}
  }

  /** The record has a links map exactly when some field is a `links` or `url` field. */
  lemma {:induction false} AbsorbLinksPresent(fs: seq<Option<Field>>)
    ensures AbsorbAll(fs).links.Some? <==> exists i :: 0 <= i < |fs| && IsLinkField(fs[i])
  {
    if fs != [] {
      var prefix := fs[..|fs| - 1];
      AbsorbLinksPresent(prefix);
      if AbsorbAll(fs).links.Some? && !IsLinkField(fs[|fs| - 1]) {
        var i :| 0 <= i < |prefix| && IsLinkField(prefix[i]);
        assert prefix[i] == fs[i];
      }
      if exists i :: 0 <= i < |fs| && IsLinkField(fs[i]) {
        var i :| 0 <= i < |fs| && IsLinkField(fs[i]);
        if i < |prefix| {
          assert prefix[i] == fs[i];
        }
      }
    }
  }

  /** A `links` field with no `links` or `url` field after it decides the links
      map on its own: whatever came before is thrown away. */
  lemma {:induction false} AbsorbLastLinks(fs: seq<Option<Field>>, i: nat)
    requires i < |fs| && fs[i].Some? && fs[i].value.name == "links"
    requires forall j :: i < j < |fs| ==> !IsLinkField(fs[j])
    ensures AbsorbAll(fs).links == Some(ParseLinks(fs[i].value.value))
  {
    var prefix := fs[..|fs| - 1];
    if i < |fs| - 1 {
      assert prefix[i] == fs[i];
      AbsorbLastLinks(prefix, i);
    }
  }

  /** The `type` derived from the entry type (js/bibtex-parser.js:147-150). */
  function Classify(entryType: string): (r: string)
    ensures r in {"journal", "conference", "preprint", "other"}
    ensures r == "journal" <==> entryType == "article"
    ensures r == "conference" <==> entryType == "inproceedings" || entryType == "conference"
    ensures r == "preprint" <==> entryType == "techreport" || entryType == "unpublished"
  {
    if entryType == "article" then "journal"
    else if entryType == "inproceedings" || entryType == "conference" then "conference"
    else if entryType == "techreport" || entryType == "unpublished" then "preprint"
    else "other"
  }

  /** The record's final `type`: an explicit non-empty `type` field wins, else
      the entry type decides. */
  function ResolveKind(fields: map<string, string>, entryType: string): (r: string)
    ensures r != ""
    ensures "type" in fields && fields["type"] != "" ==> r == fields["type"]
    ensures !("type" in fields && fields["type"] != "") ==> r == Classify(entryType)
  {
    if "type" in fields && fields["type"] != "" then fields["type"] else Classify(entryType)
  }

  /** A parsed publication. The source keeps the fields, `type` and the links on
      one object; here the parsed fields (which may hold a `type` field) and the
      resolved `kind` are kept apart. */
  datatype Entry = Entry(
    entryType: string,
    citationKey: string,
    rawBibtex: string,
    fields: map<string, string>,
    links: Option<map<string, string>>,
    kind: string)

  /** The field body: everything after the first comma of the text. */
  function Body(s: string): (r: string)
    ensures |r| <= |s| && r == s[|s| - |r|..]
    ensures ',' !in s ==> r == s
    ensures ',' in s ==> |r| < |s| && s[|s| - |r| - 1] == ',' && ',' !in s[..|s| - |r| - 1]
  {
    match IndexOf(s, ',')
    case Some(comma) => s[comma + 1..]
    case None => s
  }

  /** The record built once the header has matched with captures `h`. */
  function EntryOf(s: string, h: Header): (e: Entry)
    ensures IsLower(e.entryType) && IsTrimmed(e.citationKey) && e.kind != ""
  {
    var entryType := Lower(h.word);
    LowerIsLower(h.word);
    var acc := Absorb(SplitFields(Body(s)));
    Entry(entryType, Trim(h.key), s, acc.fields, acc.links, ResolveKind(acc.fields, entryType))
  }

  /** `parse` after the comment lines are gone: no `@` or no header match gives
      nothing, otherwise the record of the first match. */
  function ParseStripped(s: string): (r: seq<Entry>)
    ensures |r| <= 1
    ensures |r| == 1 ==> r[0].rawBibtex == s
  {
    if '@' !in s then []
    else match FindHeader(s)
      case None => []
      case Some((_, h)) => [EntryOf(s, h)]
  }

  /** `BibtexParser.parse`: empty input gives nothing; otherwise the comment
      lines are removed and the first entry is parsed. */
  function Parse(text: string): (r: seq<Entry>)
    ensures |r| <= 1
    ensures |r| == 1 ==> r[0].rawBibtex == StripComments(text)
    ensures |r| == 1 ==> r[0].kind != "" && IsLower(r[0].entryType) && IsTrimmed(r[0].citationKey)
  {
    if text == [] then [] else ParseStripped(StripComments(text))
  }

  /** Text without `@` holds no header match. */
  lemma NoAtNoHeader(s: string)
    requires '@' !in s
    ensures FindHeader(s).None?
  {
    FirstMatchNone(HeaderMatcher(s), 0, |s|);
  }

  /** With the pattern matching nowhere before `i` and matching at `i`, `exec`
      reports the match at `i`. */
  lemma FindHeaderIs(s: string, i: nat, h: Header)
    requires HeaderAt(s, i) == Some(h)
    requires forall j :: 0 <= j < i ==> HeaderAt(s, j).None?
    ensures FindHeader(s) == Some((i, h))
  {
    FirstMatchIs(HeaderMatcher(s), 0, |s|, i, h);
  }


  /** `parse` fails exactly on empty input and on input whose comment-free text
      holds no header. */
  lemma ParseFailsIffNoHeader(text: string)
    ensures Parse(text) == [] <==> text == [] || !ContainsHeader(StripComments(text))
  {
    if text != [] {
      var s := StripComments(text);
      FindHeaderFindsShape(s);
      if '@' !in s {
        NoAtNoHeader(s);
      }
    }
  }

  /** With the header's shape at `i` and nowhere before it, `parse` yields one
      record whose entry type is the header word lower-cased and whose key is
      the header key trimmed. */
  lemma ParseHeader(text: string, i: nat, word: string, gap: nat, key: string)
    requires text != []
    requires HeaderShape(StripComments(text), i, word, gap, key)
    requires forall j, w, g, k :: 0 <= j < i ==> !HeaderShape(StripComments(text), j, w, g, k)
    ensures Parse(text) == [EntryOf(StripComments(text), Header(word, key))]
    ensures Parse(text)[0].entryType == Lower(word)
    ensures Parse(text)[0].citationKey == Trim(key)
  {
    var s := StripComments(text);
    var h := Header(word, key);
    assert ParseStripped(s) == [EntryOf(s, h)] by {
      FirstHeader(s, i, word, gap, key);
      assert s[i] == '@';
    }
    EntryOfHeader(s, h);
  }

  /** A record takes its entry type and key from its header. */
  lemma EntryOfHeader(s: string, h: Header)
    ensures EntryOf(s, h).entryType == Lower(h.word) && EntryOf(s, h).citationKey == Trim(h.key)
  {
  }

  /** The first position with the header's shape is the match `exec` reports. */
  lemma FirstHeader(s: string, i: nat, word: string, gap: nat, key: string)
    requires HeaderShape(s, i, word, gap, key)
    requires forall j, w, g, k :: 0 <= j < i ==> !HeaderShape(s, j, w, g, k)
    ensures FindHeader(s) == Some((i, Header(word, key)))
  {
    HeaderAtComplete(s, i, word, gap, key);
    forall j | 0 <= j < i
      ensures HeaderAt(s, j).None?
    {
      if HeaderAt(s, j).Some? {
        HeaderAtSound(s, j);
      }
    }
    FindHeaderIs(s, i, Header(word, key));
  }


  /** Parsing the kept text of a record gives the record back. */
  lemma ParseIdempotent(text: string)
    ensures Parse(text) != [] ==> Parse(Parse(text)[0].rawBibtex) == Parse(text)
  {
    if Parse(text) != [] {
      var s := StripComments(text);
      assert s != [] by {
        assert '@' in s;
      }
      StripCommentsIdempotent(text);
    }
  }

  /** The type rule: a non-empty `type` field is kept, otherwise `article` is a
      journal paper, `inproceedings` and `conference` are conference papers,
      `techreport` and `unpublished` are preprints, and anything else is other. */
  lemma ParseKind(text: string)
    ensures Parse(text) != [] ==> var e := Parse(text)[0];
      e.kind == if "type" in e.fields && e.fields["type"] != "" then e.fields["type"] else Classify(e.entryType)
  {
  }

  /** At most one field, and then no links map, when the fold sees one piece. */
  lemma AbsorbSingle(f: Option<Field>)
    ensures |AbsorbAll([f]).fields| <= 1
    ensures |AbsorbAll([f]).fields| == 1 ==> AbsorbAll([f]).links.None?
  {
    var none: seq<Option<Field>> := [];
    assert [f][..0] == none;
  }

  /** A record built from text without line feeds has at most one field, and
      then no links map. */
  lemma EntryOfSingleLine(s: string, h: Header)
    requires '\n' !in s
    ensures |EntryOf(s, h).fields| <= 1
    ensures |EntryOf(s, h).fields| == 1 ==> EntryOf(s, h).links.None?
  {
    var body := Body(s);
    assert '\n' !in body by {
      assert forall k :: 0 <= k < |body| ==> body[k] == s[|s| - |body| + k];
    }
    assert SplitFields(body) == [body];
    assert Extracted([body]) == [ExtractField(body)];
    AbsorbSingle(ExtractField(body));
  }

  /** An entry written on one line, its fields separated by `, ` without line
      feeds, is cut into a single piece: only its first field is read. */
  lemma ParseSingleLine(text: string)
    ensures Parse(text) != [] && '\n' !in Parse(text)[0].rawBibtex ==>
      && |Parse(text)[0].fields| <= 1
      && (|Parse(text)[0].fields| == 1 ==> Parse(text)[0].links.None?)
  {
    if Parse(text) != [] && '\n' !in Parse(text)[0].rawBibtex {
      var s := StripComments(text);
      var h := FindHeader(s).value.1;
      assert Parse(text) == [EntryOf(s, h)];
      EntryOfSingleLine(s, h);
    }
  }
}
