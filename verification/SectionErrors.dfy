/** How any patch file is read: which of its lines count, where sections end, and exactly when errors are reported. */
module SectionErrors {
  import opened Wrappers
  import opened PatchSides
  import opened SectionSplitter
  import opened SectionRoundTrip

  // ------------------------------------------------------------------ single lines

  predicate Spaces(s: string) {
    forall k | 0 <= k < |s| :: IsSpace(s[k])
  }

  /** A comment line has nothing but spaces before its '#'. */
  lemma {:induction false} CommentsBeginWithHash(s: string)
    ensures IsComment(s) <==> exists i: nat :: i < |s| && s[i] == '#' && Spaces(s[..i])
  {
    TrimLeftCuts(s);
    var m := |s| - |TrimLeft(s)|;
    assert !IsSpace('#');
    assert forall k | 0 <= k < m :: s[..m][k] == s[k];
    if i: nat :| i < |s| && s[i] == '#' && Spaces(s[..i]) {
      assert forall k | 0 <= k < i :: s[..i][k] == s[k];
      assert i == m;
    }
  }

  lemma {:induction false} TrimLeftIs(s: string, m: nat)
    requires m <= |s| && Spaces(s[..m]) && (m < |s| ==> !IsSpace(s[m]))
    ensures TrimLeft(s) == s[m..]
  {
    hide IsSpace;
    if m > 0 {
      assert IsSpace(s[..m][0]);
      var front := s[1..][..m - 1];
      forall k | 0 <= k < m - 1 ensures IsSpace(front[k]) { assert s[..m][k + 1] == front[k]; }
      TrimLeftIs(s[1..], m - 1);
    }
  }

  lemma {:induction false} TrimRightIs(s: string, m: nat)
    requires m <= |s| && Spaces(s[m..]) && (m > 0 ==> !IsSpace(s[m - 1]))
    ensures TrimRight(s) == s[..m]
    decreases |s|
  {
    hide IsSpace;
    if m < |s| {
      var n := |s| - 1;
      assert IsSpace(s[m..][n - m]);
      var back := s[..n][m..];
      forall k | 0 <= k < n - m ensures IsSpace(back[k]) { assert s[m..][k] == back[k]; }
      TrimRightIs(s[..n], m);
    }
  }

  lemma {:induction false} TrimRightLeaves(s: string)
    ensures var m := |TrimRight(s)|; m <= |s| && TrimRight(s) == s[..m] && Spaces(s[m..])
  {
    if s != "" && IsSpace(s[|s| - 1]) {
      var n := |s| - 1;
      TrimRightLeaves(s[..n]);
      var m := |TrimRight(s)|;
      forall k | 0 <= k < |s| - m ensures IsSpace(s[m..][k]) { assert k < n - m ==> s[..n][m..][k] == s[m..][k]; }
    }
  }

  /** The line can be the header of a change. */
  predicate Framed(text: string) {
    text == "@@" || (|text| > 2 && text[0] == '@' && text[|text| - 1] == '@')
  }

  predicate ValidName(abc: Alphabet, name: string) {
    forall k | 0 <= k < |name| :: Allowed(abc, name[k], k)
  }

  predicate NameStands(text: string, name: string, i: nat, j: nat) {
    1 <= i <= j < |text| && text[i..j] == name && Spaces(text[1..i]) && Spaces(text[j..|text| - 1])
  }

  /** The line is a header with this name: the name stands between two '@', with any spaces around it. */
  ghost predicate Names(abc: Alphabet, text: string, name: string) {
    && ValidName(abc, name)
    && if text == "@@" then name == ""
       else Framed(text) && exists i, j :: NameStands(text, name, i, j)
  }

  lemma {:induction false} NotSpace(abc: Alphabet, c: char, i: nat)
    requires Allowed(abc, c, i)
    ensures !IsSpace(c)
  {
  }

  lemma {:induction false} ValidHasNoSpace(abc: Alphabet, name: string)
    requires ValidName(abc, name)
    ensures forall k | 0 <= k < |name| :: !IsSpace(name[k])
  {
    hide IsSpace;
    forall k | 0 <= k < |name| ensures !IsSpace(name[k]) { NotSpace(abc, name[k], k); }
  }

  lemma {:induction false} OnlySpaces(text: string, i: nat)
    requires |text| > 2 && NameStands(text, "", i, i)
    ensures TrimRight(TrimLeft(text[1..|text| - 1])) == ""
  {
    hide TrimLeft, TrimRight, IsSpace;
    var inner := text[1..|text| - 1];
    forall k | 0 <= k < |inner| ensures IsSpace(inner[k]) {
      if k < i - 1 { assert text[1..i][k] == inner[k]; } else { assert text[i..|text| - 1][k - (i - 1)] == inner[k]; }
    }
    assert inner[..|inner|] == inner;
    TrimLeftIs(inner, |inner|);
    TrimRightIs("", 0);
  }

  lemma {:induction false} NameIsCutOut(abc: Alphabet, text: string, name: string, i: nat, j: nat)
    requires |text| > 2 && NameStands(text, name, i, j) && ValidName(abc, name)
    ensures TrimRight(TrimLeft(text[1..|text| - 1])) == name
  {
    hide TrimLeft, TrimRight, IsSpace, ValidName;
    ValidHasNoSpace(abc, name);
    if name == "" {
      OnlySpaces(text, i);
    } else {
      var inner, left := text[1..|text| - 1], text[i..|text| - 1];
      assert inner[..i - 1] == text[1..i] && inner[i - 1..] == left;
      assert inner[i - 1] == name[0] by { assert text[i..j][0] == text[i]; }
      TrimLeftIs(inner, i - 1);
      assert left[j - i..] == text[j..|text| - 1] && left[..j - i] == name;
      TrimRightIs(left, j - i);
    }
  }

  lemma {:induction false} NameFound(text: string, name: string)
    requires |text| > 2 && name == TrimRight(TrimLeft(text[1..|text| - 1]))
    ensures exists i, j :: NameStands(text, name, i, j)
  {
    hide TrimLeft, TrimRight, IsSpace;
    var inner := text[1..|text| - 1];
    var left := TrimLeft(inner);
    TrimLeftCuts(inner);
    TrimRightLeaves(left);
    var i := 1 + |inner| - |left|;
    var j := i + |name|;
    assert left == inner[i - 1..] == text[i..|text| - 1];
    assert text[i..j] == left[..|name|];
    assert text[1..i] == inner[..i - 1];
    assert text[j..|text| - 1] == left[|name|..];
    assert NameStands(text, name, i, j);
  }

  lemma {:induction false} ValidHasNoInvalid(abc: Alphabet, name: string)
    ensures FirstInvalid(abc, name, 0).None? <==> ValidName(abc, name)
  {
    hide Allowed;
  }

  /** A header is accepted exactly when it names a change, with that name. */
  lemma {:induction false} HeadersAreExact(abc: Alphabet, text: string, start: nat, name: string)
    ensures Header(abc, text, start) == (name, None) <==> Names(abc, text, name)
  {
    hide TrimLeft, TrimRight, FirstInvalid, ValidName, NameStands;
    ValidHasNoInvalid(abc, name);
    if text != "@@" && Framed(text) {
      var found := TrimRight(TrimLeft(text[1..|text| - 1]));
      NameFound(text, found);
      ValidHasNoInvalid(abc, found);
      if Names(abc, text, name) {
        var i, j :| NameStands(text, name, i, j);
        NameIsCutOut(abc, text, name, i, j);
      }
    }
  }

  // ------------------------------------------------------------------ lines and tokens

  /** The line that starts at this offset. */
  function LineAt(content: string, off: nat): string
    requires off <= |content|
  {
    content[off..EndOfLine(content, off)]
  }

  lemma {:induction false} TokensAreLines(content: string, off: nat, comments: seq<string>, t: Token)
    requires t in Tokens(content, off, comments)
    ensures off <= t.start < |content| && t.text == LineAt(content, t.start) && !IsComment(t.text)
    decreases |content| - off
  {
    hide IsComment, CommentText, Tokens;
    TokensStep(content, off, comments);
    var e := EndOfLine(content, off);
    if IsComment(content[off..e]) {
      TokensAreLines(content, e + 1, comments + [CommentText(content[off..e])], t);
    } else if t != Token(content[off..e], off, comments) {
      TokensAreLines(content, e + 1, [], t);
    }
  }

  lemma {:induction false} EndsAtBreak(content: string, off: nat, at: nat)
    requires off <= at < |content| && content[at] == '\n'
    ensures EndOfLine(content, off) <= at
    decreases |content| - off
  {
    if content[off] != '\n' {
      EndsAtBreak(content, off + 1, at);
    }
  }

  /** Every line of the file that is no comment counts. */
  lemma {:induction false} EveryLineCounts(content: string, off: nat, comments: seq<string>, start: nat)
    requires LineStarts(content, off) && LineStarts(content, start) && off <= start < |content|
    requires !IsComment(LineAt(content, start))
    ensures exists t :: t in Tokens(content, off, comments) && t.start == start
    decreases |content| - off
  {
    hide IsComment, CommentText, Tokens;
    TokensStep(content, off, comments);
    var e := EndOfLine(content, off);
    if off == start {
      assert Token(content[off..e], off, comments) in Tokens(content, off, comments);
    } else {
      EndsAtBreak(content, off, start - 1);
      if IsComment(content[off..e]) {
        EveryLineCounts(content, e + 1, comments + [CommentText(content[off..e])], start);
      } else {
        EveryLineCounts(content, e + 1, [], start);
      }
    }
  }

  /** The tokens stand in the order of the file. */
  ghost predicate InFileOrder(tokens: seq<Token>) {
    forall i, j | 0 <= i < j < |tokens| :: tokens[i].start < tokens[j].start
  }

  lemma {:induction false} TokensAreInOrder(content: string, off: nat, comments: seq<string>)
    ensures InFileOrder(Tokens(content, off, comments))
    decreases |content| - off
  {
    hide IsComment, CommentText, Tokens, EndOfLine;
    TokensStep(content, off, comments);
    if off < |content| {
      var e := EndOfLine(content, off);
      if IsComment(content[off..e]) {
        TokensAreInOrder(content, e + 1, comments + [CommentText(content[off..e])]);
      } else {
        TokensAreInOrder(content, e + 1, []);
        var tail := Tokens(content, e + 1, []);
        forall j | 0 <= j < |tail| ensures off < tail[j].start { TokensAreLines(content, e + 1, [], tail[j]); }
      }
    }
  }

  // ------------------------------------------------------------------ where sections end

  /** The metavariables end at the first "@@" behind the header. */
  lemma {:induction false} MetaEndsAtMarker(tokens: seq<Token>, k: nat)
    requires k <= |tokens|
    ensures MetaLength(tokens) == k <==>
      (forall i | 0 <= i < k :: tokens[i].text != "@@") && (k < |tokens| ==> tokens[k].text == "@@")
    decreases |tokens|
  {
    if tokens != [] && tokens[0].text != "@@" && k > 0 {
      MetaEndsAtMarker(tokens[1..], k - 1);
      assert forall i | 1 <= i < |tokens| :: tokens[i] == tokens[1..][i - 1];
      assert forall i | 0 <= i < |tokens| - 1 :: tokens[1..][i] == tokens[i + 1];
    }
  }

  predicate BeginsWithAt(t: Token) {
    t.text != "" && t.text[0] == '@'
  }

  /** The patch ends at the next line that begins with '@'. */
  lemma {:induction false} PatchEndsAtHeader(tokens: seq<Token>, n: nat)
    requires n <= |tokens|
    ensures PatchLength(tokens) == n <==>
      (forall i | 0 <= i < n :: !BeginsWithAt(tokens[i])) && (n < |tokens| ==> BeginsWithAt(tokens[n]))
    decreases |tokens|
  {
    if tokens != [] && !BeginsWithAt(tokens[0]) && n > 0 {
      PatchEndsAtHeader(tokens[1..], n - 1);
      assert forall i | 1 <= i < |tokens| :: tokens[i] == tokens[1..][i - 1];
      assert forall i | 0 <= i < |tokens| - 1 :: tokens[1..][i] == tokens[i + 1];
    }
  }

  // ------------------------------------------------------------------ errors

  /** The change begins at this offset, with a line that is no header. */
  ghost predicate BadHeader(content: string, base: nat, c: Change, off: nat) {
    c.headerPos == base + off && off <= |content| && !Framed(LineAt(content, off))
  }

  lemma {:induction false} HeaderRejects(abc: Alphabet, text: string, start: nat, off: nat)
    ensures NotAHeader(off) in Errors(Header(abc, text, start).1) <==> !Framed(text) && off == start
  {
    hide TrimLeft, TrimRight, FirstInvalid;
  }

  lemma {:induction false} FirstHeader(abc: Alphabet, content: string, base: nat, tokens: seq<Token>, off: nat)
    requires tokens != [] && Among(tokens, content)
    ensures var (c, _, es) := ReadChange(abc, tokens, base); NotAHeader(off) in es <==> BadHeader(content, base, c, off)
  {
    hide Tokens, LineAt;
    assert tokens[0] in tokens;
    TokensAreLines(content, 0, [], tokens[0]);
    ReadParts(abc, tokens, base);
    HeaderRejects(abc, tokens[0].text, tokens[0].start, off);
    hide ReadChange, Header, LinesOf, MetaLength, PatchLength;
  }

  lemma {:induction false} ReadBadHeaders(abc: Alphabet, content: string, base: nat, tokens: seq<Token>, off: nat)
    requires Among(tokens, content)
    ensures NotAHeader(off) in ReadAll(abc, tokens, base).1 <==>
      exists c :: c in ReadAll(abc, tokens, base).0 && BadHeader(content, base, c, off)
    decreases |tokens|
  {
    hide Among, BadHeader, ReadChange;
    if tokens != [] {
      var (first, rest, es) := ReadChange(abc, tokens, base);
      FirstHeader(abc, content, base, tokens, off);
      FirstChangeIsCut(abc, content, base, tokens);
      ReadBadHeaders(abc, content, base, rest, off);
      var (cs, more) := ReadAll(abc, rest, base);
      assert ReadAll(abc, tokens, base) == ([first] + cs, es + more);
      hide ReadAll;
      assert first in [first] + cs && forall c | c in cs :: c in [first] + cs;
    }
  }

  /** Whatever the file holds: a header is rejected exactly where a change begins with a line that is none. */
  lemma {:induction false} BadHeadersAreReported(abc: Alphabet, content: string, base: nat, off: nat)
    ensures NotAHeader(off) in SplitProgram(abc, content, base).1 <==>
      exists c :: c in SplitProgram(abc, content, base).0 && BadHeader(content, base, c, off)
  {
    hide BadHeader, Tokens, ReadAll;
    ReadBadHeaders(abc, content, base, Tokens(content, 0, []), off);
  }

  /** The change has the name that its first line gives it, and none if that is no valid header. */
  ghost predicate NamedByHeader(abc: Alphabet, content: string, base: nat, c: Change) {
    && base <= c.headerPos <= base + |content|
    && var text := LineAt(content, c.headerPos - base);
      && (forall name :: Names(abc, text, name) ==> c.name == name)
      && ((forall name :: !Names(abc, text, name)) ==> c.name == "")
  }

  lemma {:induction false} FirstIsNamed(abc: Alphabet, content: string, base: nat, tokens: seq<Token>)
    requires tokens != [] && Among(tokens, content)
    ensures NamedByHeader(abc, content, base, ReadChange(abc, tokens, base).0)
  {
    hide Tokens, LineAt, Names;
    assert tokens[0] in tokens;
    var t := tokens[0];
    TokensAreLines(content, 0, [], t);
    ReadParts(abc, tokens, base);
    forall name ensures Header(abc, t.text, t.start) == (name, None) <==> Names(abc, t.text, name) {
      HeadersAreExact(abc, t.text, t.start, name);
    }
    assert Header(abc, t.text, t.start).1.Some? ==> Header(abc, t.text, t.start).0 == "" by {
      hide TrimLeft, TrimRight, FirstInvalid;
    }
    hide ReadChange, Header, LinesOf, MetaLength, PatchLength;
    var (name, e) := Header(abc, t.text, t.start);
    assert e.None? ==> Names(abc, t.text, name);
  }

  lemma {:induction false} ReadNames(abc: Alphabet, content: string, base: nat, tokens: seq<Token>, c: Change)
    requires Among(tokens, content) && c in ReadAll(abc, tokens, base).0
    ensures NamedByHeader(abc, content, base, c)
    decreases |tokens|
  {
    hide Among, NamedByHeader, ReadChange;
    var (first, rest, _) := ReadChange(abc, tokens, base);
    FirstIsNamed(abc, content, base, tokens);
    FirstChangeIsCut(abc, content, base, tokens);
    if c != first {
      ReadNames(abc, content, base, rest, c);
    }
  }

  /** Whatever the file holds: a change has the name in its header, if that is one. */
  lemma {:induction false} ChangesAreNamed(abc: Alphabet, content: string, base: nat, c: Change)
    requires c in SplitProgram(abc, content, base).0
    ensures NamedByHeader(abc, content, base, c)
  {
    hide NamedByHeader, Tokens, ReadAll;
    ReadNames(abc, content, base, Tokens(content, 0, []), c);
  }

  /** No line "@@" stands behind the first line of the change. */
  ghost predicate Unfinished(tokens: seq<Token>, base: nat, c: Change) {
    forall t | t in tokens && base + t.start > c.headerPos :: t.text != "@@"
  }

  lemma {:induction false} RestInOrder(tokens: seq<Token>, k: nat)
    requires InFileOrder(tokens) && k <= |tokens|
    ensures InFileOrder(tokens[k..])
  {
  }

  /** What a change leaves is a part of the lines, behind its header and its marker. */
  lemma {:induction false} RestIsBehind(abc: Alphabet, tokens: seq<Token>, base: nat) returns (n: nat)
    requires tokens != []
    ensures 1 <= n <= |tokens| && ReadChange(abc, tokens, base).1 == tokens[n..]
    ensures NoMetaEnd in ReadChange(abc, tokens, base).2 <==> MetaLength(tokens[1..]) == |tokens| - 1
    ensures NoMetaEnd in ReadChange(abc, tokens, base).2 ==> n == |tokens|
    ensures ReadChange(abc, tokens, base).0.headerPos == base + tokens[0].start
  {
    ReadParts(abc, tokens, base);
    assert NoMetaEnd !in Errors(Header(abc, tokens[0].text, tokens[0].start).1) by { hide TrimLeft, TrimRight, FirstInvalid; }
    hide Header, LinesOf;
    var body, k := tokens[1..], MetaLength(tokens[1..]);
    if k == |body| {
      n := |tokens|;
    } else {
      var patch := body[k + 1..];
      n := k + 2 + PatchLength(patch);
      assert patch[PatchLength(patch)..] == tokens[n..];
    }
  }

  lemma {:induction false} LastIsBehind(abc: Alphabet, tokens: seq<Token>, base: nat)
    requires tokens != [] && InFileOrder(tokens)
    ensures var cs := ReadAll(abc, tokens, base).0;
      cs != [] && cs[|cs| - 1].headerPos >= base + tokens[0].start
    decreases |tokens|
  {
    hide ReadChange;
    var n := RestIsBehind(abc, tokens, base);
    if n < |tokens| {
      RestInOrder(tokens, n);
      LastIsBehind(abc, tokens[n..], base);
    }
  }

  lemma {:induction false} MarkerBehind(tokens: seq<Token>, base: nat, c: Change)
    requires tokens != [] && InFileOrder(tokens) && c.headerPos == base + tokens[0].start
    ensures MetaLength(tokens[1..]) == |tokens| - 1 <==> Unfinished(tokens, base, c)
  {
    var body := tokens[1..];
    var k := MetaLength(body);
    MetaEndsAtMarker(body, k);
    hide MetaLength;
    if k < |body| {
      assert body[k] == tokens[k + 1] && tokens[k + 1] in tokens;
    } else {
      forall t | t in tokens && base + t.start > c.headerPos ensures t.text != "@@" {
        var i :| 0 <= i < |tokens| && tokens[i] == t;
        assert body[i - 1] == t;
      }
    }
  }

  lemma {:induction false} SkippedLines(tokens: seq<Token>, base: nat, n: nat, c: Change)
    requires InFileOrder(tokens) && n < |tokens| && c.headerPos >= base + tokens[n].start
    ensures Unfinished(tokens, base, c) <==> Unfinished(tokens[n..], base, c)
  {
    assert forall t | t in tokens[n..] :: t in tokens;
    forall t | t in tokens && base + t.start > c.headerPos ensures t in tokens[n..] {
      var i :| 0 <= i < |tokens| && tokens[i] == t;
      assert i >= n;
      assert tokens[n..][i - n] == t;
    }
  }

  lemma {:induction false} ReadUnfinished(abc: Alphabet, tokens: seq<Token>, base: nat)
    requires InFileOrder(tokens)
    ensures var (cs, es) := ReadAll(abc, tokens, base);
      (tokens != [] ==> cs != []) && (NoMetaEnd in es <==> cs != [] && Unfinished(tokens, base, cs[|cs| - 1]))
    decreases |tokens|
  {
    hide ReadChange, Unfinished, MetaLength, InFileOrder;
    if tokens != [] {
      var n := RestIsBehind(abc, tokens, base);
      var (first, rest, es) := ReadChange(abc, tokens, base);
      var (cs, more) := ReadAll(abc, rest, base);
      assert ReadAll(abc, tokens, base) == ([first] + cs, es + more);
      MarkerBehind(tokens, base, first);
      if n < |tokens| {
        RestInOrder(tokens, n);
        ReadUnfinished(abc, rest, base);
        LastIsBehind(abc, rest, base);
        SkippedLines(tokens, base, n, cs[|cs| - 1]);
        assert !(MetaLength(tokens[1..]) == |tokens| - 1);
      } else {
        NothingToRead(abc, base);
      }
    }
  }

  /** Whatever the file holds: the end of the metavariables is missed exactly when no "@@" stands behind the last header. */
  lemma {:induction false} MissingMarkersAreReported(abc: Alphabet, content: string, base: nat)
    ensures var (cs, es) := SplitProgram(abc, content, base);
      NoMetaEnd in es <==> cs != [] && Unfinished(Tokens(content, 0, []), base, cs[|cs| - 1])
  {
    hide Tokens, ReadAll, Unfinished, InFileOrder;
    TokensAreInOrder(content, 0, []);
    ReadUnfinished(abc, Tokens(content, 0, []), base);
  }

  lemma {:induction false} NoChangeInOne(abc: Alphabet, tokens: seq<Token>, base: nat)
    requires tokens != []
    ensures NoChange !in ReadChange(abc, tokens, base).2
  {
    ReadParts(abc, tokens, base);
    assert NoChange !in Errors(Header(abc, tokens[0].text, tokens[0].start).1) by { hide TrimLeft, TrimRight, FirstInvalid; }
    hide ReadChange, Header, LinesOf, MetaLength, PatchLength;
  }

  lemma {:induction false} NoChangeWhileReading(abc: Alphabet, tokens: seq<Token>, base: nat)
    ensures NoChange !in ReadAll(abc, tokens, base).1
    decreases |tokens|
  {
    hide ReadChange;
    if tokens != [] {
      NoChangeInOne(abc, tokens, base);
      NoChangeWhileReading(abc, ReadChange(abc, tokens, base).1, base);
    }
  }

  /** A file without any line that counts holds no change. */
  lemma {:induction false} NoChangeIsReported(abc: Alphabet, content: string, base: nat)
    ensures NoChange in SplitProgram(abc, content, base).1 <==>
      forall start: nat | start < |content| && LineStarts(content, start) :: IsComment(LineAt(content, start))
  {
    hide IsComment, EndOfLine, InFileOrder;
    var tokens := Tokens(content, 0, []);
    TokensAreInOrder(content, 0, []);
    ReadUnfinished(abc, tokens, base);
    NoChangeWhileReading(abc, tokens, base);
    assert LineStarts(content, 0);
    if tokens == [] {
      NothingToRead(abc, base);
      forall start: nat | start < |content| && LineStarts(content, start) ensures IsComment(LineAt(content, start)) {
        if !IsComment(LineAt(content, start)) { EveryLineCounts(content, 0, [], start); }
      }
    } else {
      TokensAreLines(content, 0, [], tokens[0]);
      TokensStartLines(content, 0, [], tokens[0]);
    }
  }
}
