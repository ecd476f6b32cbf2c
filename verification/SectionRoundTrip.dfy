/** Splitting a printed program gives the program back, with positions that point at the printed text. */
module SectionRoundTrip {
  import opened Wrappers
  import opened PatchSides
  import opened SectionSplitter

  /** A line as its author writes it, with comment lines above it that are skipped. */
  datatype Written = Written(above: seq<string>, text: string)

  /** A change as its author writes it. */
  datatype Source = Source(comments: seq<string>, name: string, meta: seq<Written>, aboveAt: seq<string>, patch: seq<Written>)

  predicate OneLine(s: string) {
    '\n' !in s
  }

  ghost predicate Comments(lines: seq<string>) {
    forall s | s in lines :: OneLine(s) && IsComment(s)
  }

  /** The change can be written down: no part of it would be taken for another one. */
  ghost predicate Printable(abc: Alphabet, c: Source) {
    && (forall s | s in c.comments :: OneLine(s) && TrimRight(TrimLeft(s)) == s)
    && FirstInvalid(abc, c.name, 0).None?
    && (forall w | w in c.meta :: Comments(w.above) && OneLine(w.text) && !IsComment(w.text) && w.text != "@@")
    && Comments(c.aboveAt)
    && forall w | w in c.patch ::
         Comments(w.above) && OneLine(w.text) && !IsComment(w.text) && (w.text == "" || w.text[0] != '@')
  }

  ghost predicate PrintableAll(abc: Alphabet, prog: seq<Source>) {
    forall c | c in prog :: Printable(abc, c)
  }

  function HeaderLine(name: string): string {
    if name == "" then "@@" else "@ " + name + " @"
  }

  function CommentLines(comments: seq<string>): (r: seq<string>)
    ensures |r| == |comments|
  {
    if comments == [] then [] else ["# " + comments[0]] + CommentLines(comments[1..])
  }

  function LinesOfWritten(ws: seq<Written>): seq<string> {
    if ws == [] then [] else ws[0].above + ([ws[0].text] + LinesOfWritten(ws[1..]))
  }

  function ChangeLines(c: Source): seq<string> {
    CommentLines(c.comments) + ([HeaderLine(c.name)] + (LinesOfWritten(c.meta) + (c.aboveAt + (["@@"] + LinesOfWritten(c.patch)))))
  }

  /** The changes, and comment lines at the end of the file. */
  function ProgramLines(prog: seq<Source>, last: seq<string>): seq<string> {
    if prog == [] then last else ChangeLines(prog[0]) + ProgramLines(prog[1..], last)
  }

  function Text(lines: seq<string>): string {
    if lines == [] then "" else lines[0] + "\n" + Text(lines[1..])
  }

  /** The content is the text of the lines, possibly without the last line break. */
  predicate Prints(content: string, lines: seq<string>) {
    content == Text(lines) || (lines != [] && lines[|lines| - 1] != "" && content + "\n" == Text(lines))
  }

  // ------------------------------------------------------------------ expectation

  function Width(lines: seq<string>): nat {
    if lines == [] then 0 else |lines[0]| + 1 + Width(lines[1..])
  }

  /** The lines with the positions that they have when they are printed from offset `off` on. */
  function LinesAt(ws: seq<Written>, off: nat, base: nat): seq<LineValue> {
    if ws == [] then []
    else
      var start := off + Width(ws[0].above);
      [LineValue(base + start, ws[0].text)] + LinesAt(ws[1..], start + |ws[0].text| + 1, base)
  }

  /** Where the parts of a change stand when it is printed from offset `off` on: header, metavariables, "@@", patch. */
  function Offsets(c: Source, off: nat): (nat, nat, nat, nat) {
    var header := off + Width(CommentLines(c.comments));
    var meta := header + |HeaderLine(c.name)| + 1;
    var at := meta + Width(LinesOfWritten(c.meta)) + Width(c.aboveAt);
    (header, meta, at, at + 3)
  }

  function ExpectedChange(c: Source, off: nat, base: nat): Change {
    var (header, meta, at, patch) := Offsets(c, off);
    Change(base + header, c.name, LinesAt(c.meta, meta, base), base + at, LinesAt(c.patch, patch, base), c.comments)
  }

  function Expected(prog: seq<Source>, off: nat, base: nat): seq<Change> {
    if prog == [] then []
    else [ExpectedChange(prog[0], off, base)] + Expected(prog[1..], off + Width(ChangeLines(prog[0])), base)
  }

  // ------------------------------------------------------------------------ tokens

  /** The tokens of lines that start at offset `off`. */
  function TokensOf(lines: seq<string>, off: nat, comments: seq<string>): seq<Token> {
    if lines == [] then []
    else
      var next := off + |lines[0]| + 1;
      if IsComment(lines[0]) then
        TokensOf(lines[1..], next, comments + [CommentText(lines[0])])
      else
        [Token(lines[0], off, comments)] + TokensOf(lines[1..], next, [])
  }

  function Texts(comments: seq<string>): seq<string>
  {
    seq(|comments|, i requires 0 <= i < |comments| => CommentText(comments[i]))
  }

  /** The tokens of written lines. */
  function TokensAt(ws: seq<Written>, off: nat): (r: seq<Token>)
    ensures |r| == |ws|
  {
    if ws == [] then []
    else
      var start := off + Width(ws[0].above);
      [Token(ws[0].text, start, Texts(ws[0].above))] + TokensAt(ws[1..], start + |ws[0].text| + 1)
  }

  lemma {:induction false} EndOfFirstLine(content: string, off: nat, e: nat)
    requires off <= e < |content| && content[e] == '\n' && '\n' !in content[off..e]
    ensures EndOfLine(content, off) == e
    decreases e - off
  {
    if off < e {
      assert content[off..e][0] == content[off];
      assert content[off..e] == [content[off]] + content[off + 1..e];
      EndOfFirstLine(content, off + 1, e);
    }
  }

  lemma {:induction false} WithoutLastBreak(text: string, s: string, tail: string)
    requires text + "\n" == s + ("\n" + tail)
    ensures tail == "" ==> text == s
    ensures tail != "" ==>
      |s| + 1 <= |text| && text[..|s|] == s && text[|s|] == '\n' && text[|s| + 1..] + "\n" == tail
  {
    var all := text + "\n";
    assert all[..|text|] == text;
    if tail != "" {
      assert all[|s|] == '\n' && all[|s| + 1..] == tail && all[..|s|] == s;
      assert all[|s| + 1..] == text[|s| + 1..] + "\n";
    } else {
      assert s + ("\n" + tail) == s + "\n" && (s + "\n")[..|s|] == s;
    }
  }

  lemma {:induction false} TextIsEmpty(lines: seq<string>)
    requires Text(lines) == ""
    ensures lines == []
  {
  }

  lemma {:induction false} EndOfContent(content: string, off: nat)
    requires off <= |content| && OneLine(content[off..])
    ensures EndOfLine(content, off) == |content|
    decreases |content| - off
  {
    if off < |content| {
      assert content[off..][0] == content[off] && content[off..][1..] == content[off + 1..];
      EndOfContent(content, off + 1);
    }
  }

  lemma {:induction false} Parts<T>(a: seq<T>, b: seq<T>)
    ensures (a + b)[..|a|] == a && (a + b)[|a|..] == b
    ensures b != [] ==> (a + b)[|a|] == b[0]
  {
  }

  /** The first line of a printed text, and what follows it. */
  lemma {:induction false} SplitAt(content: string, off: nat, s: string, rest: string)
    requires off <= |content| && content[off..] == s + rest
    ensures off + |s| <= |content| && content[off..off + |s|] == s && content[off + |s|..] == rest
    ensures rest != "" ==> off + |s| < |content| && content[off + |s|] == rest[0] && content[off + |s| + 1..] == rest[1..]
  {
    Parts(s, rest);
    assert content[off..off + |s|] == content[off..][..|s|];
    assert content[off + |s|..] == content[off..][|s|..];
  }

  /** The content from off on is a line, and more lines behind its break. */
  lemma {:induction false} LineThenRest(content: string, off: nat, s: string, rest: string)
    requires off <= |content| && OneLine(s) && content[off..] == s + rest && rest != "" && rest[0] == '\n'
    ensures var e := off + |s|;
      e < |content| && content[off..e] == s && EndOfLine(content, off) == e && content[e + 1..] == rest[1..]
  {
    hide EndOfLine;
    SplitAt(content, off, s, rest);
    EndOfFirstLine(content, off, off + |s|);
  }

  lemma {:induction false} LastLine(content: string, off: nat, s: string)
    requires off <= |content| && OneLine(s) && content[off..] == s
    ensures off + |s| == |content| && content[off..off + |s|] == s && EndOfLine(content, off) == off + |s|
  {
    hide EndOfLine;
    assert content[off..|content|] == content[off..];
    EndOfContent(content, off);
  }

  lemma {:induction false} LineWithoutLastBreak(content: string, off: nat, s: string, tail: string)
    requires off <= |content| && OneLine(s) && content[off..] + "\n" == s + ("\n" + tail)
    ensures var e := off + |s|;
      && e <= |content| && content[off..e] == s && EndOfLine(content, off) == e
      && (if tail == "" then e == |content| else e < |content| && content[e + 1..] + "\n" == tail)
  {
    hide EndOfLine;
    var text := content[off..];
    WithoutLastBreak(text, s, tail);
    if tail == "" {
      LastLine(content, off, s);
    } else {
      var rest := text[|s|..];
      assert text == s + rest && rest[1..] == text[|s| + 1..];
      LineThenRest(content, off, s, rest);
    }
  }

  /** Without the break at the end of the file, the other lines are printed without it, too. */
  lemma {:induction false} RestWithoutBreak(lines: seq<string>, rest: string)
    requires lines != [] && lines[1..] != [] && rest + "\n" == Text(lines[1..])
    requires lines[|lines| - 1] != ""
    ensures Prints(rest, lines[1..])
  {
    assert lines[1..][|lines[1..]| - 1] == lines[|lines| - 1];
  }

  lemma {:induction false} FirstLine(content: string, off: nat, lines: seq<string>)
    requires off <= |content| && lines != [] && OneLine(lines[0]) && Prints(content[off..], lines)
    ensures var e := off + |lines[0]|;
      && e <= |content| && content[off..e] == lines[0] && EndOfLine(content, off) == e
      && (if e < |content| then Prints(content[e + 1..], lines[1..]) else lines[1..] == [])
    ensures off < |content|
  {
    hide EndOfLine;
    var s, tail := lines[0], Text(lines[1..]);
    assert Text(lines) == s + ("\n" + tail);
    hide Text;
    if content[off..] == Text(lines) {
      LineThenRest(content, off, s, "\n" + tail);
    } else {
      LineWithoutLastBreak(content, off, s, tail);
      if tail == "" {
        TextIsEmpty(lines[1..]);
      } else {
        RestWithoutBreak(lines, content[off + |s| + 1..]);
      }
    }
  }

  lemma {:induction false} NothingPrinted(content: string)
    ensures Prints(content, []) ==> content == ""
  {
  }

  lemma {:induction false} PrintedTokens(content: string, off: nat, lines: seq<string>, comments: seq<string>)
    requires off <= |content| && Prints(content[off..], lines)
    requires forall s | s in lines :: OneLine(s)
    ensures Tokens(content, off, comments) == TokensOf(lines, off, comments)
    decreases |lines|
  {
    hide IsComment, CommentText, Tokens, EndOfLine, Prints;
    TokensStep(content, off, comments);
    if lines != [] {
      var s := lines[0];
      assert s in lines && forall x | x in lines[1..] :: x in lines;
      FirstLine(content, off, lines);
      var more := if IsComment(s) then comments + [CommentText(s)] else [];
      if off + |s| < |content| {
        PrintedTokens(content, off + |s| + 1, lines[1..], more);
      } else {
        TokensStep(content, off + |s| + 1, more);
      }
    } else {
      NothingPrinted(content[off..]);
    }
  }

  lemma {:induction false} CommentLineIsComment(s: string)
    ensures IsComment("# " + s)
    ensures CommentText("# " + s) == TrimRight(TrimLeft(s))
  {
    var line := "# " + s;
    assert TrimLeft(line) == line;
    assert line[1..] == " " + s && (" " + s)[1..] == s;
  }

  /** Comment lines are collected for the line below them. */
  lemma {:induction false} CommentTokens(lines: seq<string>, rest: seq<string>, off: nat, before: seq<string>)
    requires forall s | s in lines :: IsComment(s)
    ensures TokensOf(lines + rest, off, before) == TokensOf(rest, off + Width(lines), before + Texts(lines))
    decreases |lines|
  {
    hide IsComment, CommentText;
    if lines == [] {
      assert lines + rest == rest && before + Texts(lines) == before;
    } else {
      assert lines[0] in lines && forall s | s in lines[1..] :: s in lines;
      assert (lines + rest)[0] == lines[0] && (lines + rest)[1..] == lines[1..] + rest;
      CommentTokens(lines[1..], rest, off + |lines[0]| + 1, before + [CommentText(lines[0])]);
      assert before + [CommentText(lines[0])] + Texts(lines[1..]) == before + Texts(lines);
    }
  }

  lemma {:induction false} HeaderComments(comments: seq<string>)
    requires forall s | s in comments :: OneLine(s) && TrimRight(TrimLeft(s)) == s
    ensures Comments(CommentLines(comments))
    ensures Texts(CommentLines(comments)) == comments
    decreases |comments|
  {
    hide IsComment, CommentText, TrimLeft, TrimRight;
    if comments != [] {
      assert comments[0] in comments && forall s | s in comments[1..] :: s in comments;
      CommentLineIsComment(comments[0]);
      HeaderComments(comments[1..]);
    }
  }

  ghost predicate WellWritten(w: Written) {
    Comments(w.above) && OneLine(w.text) && !IsComment(w.text)
  }

  lemma {:induction false} FirstToken(s: string, rest: seq<string>, off: nat, comments: seq<string>)
    requires !IsComment(s)
    ensures TokensOf([s] + rest, off, comments) == [Token(s, off, comments)] + TokensOf(rest, off + |s| + 1, [])
  {
    assert ([s] + rest)[1..] == rest;
  }

  /** A written line, its comments in front of it. */
  lemma {:induction false} WrittenToken(w: Written, rest: seq<string>, off: nat)
    requires WellWritten(w)
    ensures var start := off + Width(w.above);
      TokensOf(w.above + ([w.text] + rest), off, []) ==
        [Token(w.text, start, Texts(w.above))] + TokensOf(rest, start + |w.text| + 1, [])
  {
    hide IsComment, CommentText, TokensOf;
    CommentTokens(w.above, [w.text] + rest, off, []);
    assert [] + Texts(w.above) == Texts(w.above);
    FirstToken(w.text, rest, off + Width(w.above), Texts(w.above));
  }

  lemma {:induction false} FirstThen<T>(x: T, a: seq<T>, b: seq<T>)
    ensures ([x] + a) + b == [x] + (a + b) && ([x] + (a + b))[1..] == a + b
  {
  }

  lemma {:induction false} TokensTail(ws: seq<Written>, off: nat, rest: seq<Token>)
    requires ws != []
    ensures var (start, tokens) := (off + Width(ws[0].above), TokensAt(ws, off) + rest);
      && tokens == [Token(ws[0].text, start, Texts(ws[0].above))] + (TokensAt(ws[1..], start + |ws[0].text| + 1) + rest)
      && tokens[1..] == TokensAt(ws[1..], start + |ws[0].text| + 1) + rest
      && tokens != [] && tokens[0].text == ws[0].text
    ensures ws[0] in ws && forall w | w in ws[1..] :: w in ws
  {
    var start := off + Width(ws[0].above);
    FirstThen(Token(ws[0].text, start, Texts(ws[0].above)), TokensAt(ws[1..], start + |ws[0].text| + 1), rest);
  }

  lemma {:induction false} NoTokensAt(off: nat)
    ensures TokensAt([], off) == []
  {
  }

  lemma {:induction false} InThree(a: seq<string>, x: string, b: seq<string>, c: seq<string>)
    ensures (a + ([x] + b)) + c == a + ([x] + (b + c))
  {
  }

  lemma {:induction false} WidthConcat(a: seq<string>, b: seq<string>)
    ensures Width(a + b) == Width(a) + Width(b)
    decreases |a|
  {
    if a == [] {
      assert a + b == b;
    } else {
      assert (a + b)[1..] == a[1..] + b;
      WidthConcat(a[1..], b);
    }
  }

  lemma {:induction false} WrittenTokens(ws: seq<Written>, rest: seq<string>, off: nat)
    requires forall w | w in ws :: WellWritten(w)
    ensures TokensOf(LinesOfWritten(ws) + rest, off, []) ==
      TokensAt(ws, off) + TokensOf(rest, off + Width(LinesOfWritten(ws)), [])
    decreases |ws|
  {
    hide WellWritten, TokensOf, TokensAt, Texts;
    if ws == [] {
      assert TokensAt(ws, off) == [] by { NoTokensAt(off); }
      assert LinesOfWritten(ws) + rest == rest;
    } else {
      var w, more := ws[0], LinesOfWritten(ws[1..]);
      var next := off + Width(w.above) + |w.text| + 1;
      TokensTail(ws, off, TokensOf(rest, off + Width(LinesOfWritten(ws)), []));
      WrittenToken(w, more + rest, off);
      WrittenTokens(ws[1..], rest, next);
      WidthConcat(w.above, [w.text] + more);
      assert ([w.text] + more)[1..] == more;
      InThree(w.above, w.text, more, rest);
    }
  }

  // ----------------------------------------------------------------------- headers

  lemma {:induction false} ValidNameHasNoSpace(abc: Alphabet, name: string)
    requires FirstInvalid(abc, name, 0).None?
    ensures forall k | 0 <= k < |name| :: !IsSpace(name[k]) && name[k] != '\n'
  {
    forall k | 0 <= k < |name| ensures !IsSpace(name[k]) && name[k] != '\n' { assert Allowed(abc, name[k], k); }
  }

  lemma {:induction false} HeaderIsOneLine(abc: Alphabet, name: string)
    requires FirstInvalid(abc, name, 0).None?
    ensures OneLine(HeaderLine(name)) && !IsComment(HeaderLine(name)) && HeaderLine(name)[0] == '@'
  {
    ValidNameHasNoSpace(abc, name);
    hide FirstInvalid;
    assert TrimLeft(HeaderLine(name)) == HeaderLine(name);
  }

  lemma {:induction false} NameIsTrimmed(name: string)
    requires name != "" && !IsSpace(name[0]) && !IsSpace(name[|name| - 1])
    ensures TrimRight(TrimLeft(" " + name + " ")) == name
  {
    assert (" " + name + " ")[1..] == name + " ";
    assert TrimLeft(" " + name + " ") == TrimLeft(name + " ") == name + " ";
    assert (name + " ")[..|name|] == name;
    assert TrimRight(name + " ") == TrimRight(name) == name;
  }

  lemma {:induction false} HeaderRoundTrip(abc: Alphabet, name: string, start: nat)
    requires FirstInvalid(abc, name, 0).None?
    ensures Header(abc, HeaderLine(name), start) == (name, None)
    ensures OneLine(HeaderLine(name)) && !IsComment(HeaderLine(name)) && HeaderLine(name)[0] == '@'
  {
    hide TrimLeft, TrimRight, FirstInvalid, IsSpace, IsComment, OneLine;
    HeaderIsOneLine(abc, name);
    if name != "" {
      ValidNameHasNoSpace(abc, name);
      NameIsTrimmed(name);
      var line := HeaderLine(name);
      assert line[1..|line| - 1] == " " + name + " ";
    }
  }

  // ------------------------------------------------------------------ whole changes

  lemma {:induction false} NoCommentAt()
    ensures !IsComment("@@")
  {
    assert TrimLeft("@@") == "@@";
  }

  lemma {:induction false} ChangeWidth(c: Source, off: nat)
    ensures off + Width(ChangeLines(c)) == Offsets(c, off).3 + Width(LinesOfWritten(c.patch))
  {
    hide CommentLines, HeaderLine, LinesOfWritten;
    var tail := ["@@"] + LinesOfWritten(c.patch);
    WidthConcat(CommentLines(c.comments), [HeaderLine(c.name)] + (LinesOfWritten(c.meta) + (c.aboveAt + tail)));
    WidthConcat([HeaderLine(c.name)], LinesOfWritten(c.meta) + (c.aboveAt + tail));
    WidthConcat(LinesOfWritten(c.meta), c.aboveAt + tail);
    WidthConcat(c.aboveAt, tail);
    WidthConcat(["@@"], LinesOfWritten(c.patch));
  }

  /** The tokens that a printed change has in front of the tokens of what follows it. */
  ghost function ChangeTokens(c: Source, off: nat, rest: seq<Token>): seq<Token> {
    var (header, meta, at, patch) := Offsets(c, off);
    [Token(HeaderLine(c.name), header, c.comments)]
    + (TokensAt(c.meta, meta) + ([Token("@@", at, Texts(c.aboveAt))] + (TokensAt(c.patch, patch) + rest)))
  }

  lemma {:induction false} Regroup<T>(a: seq<T>, b: seq<T>, c: seq<T>, d: seq<T>, e: seq<T>, f: seq<T>, g: seq<T>)
    ensures (a + (b + (c + (d + (e + f))))) + g == a + (b + (c + (d + (e + (f + g)))))
  {
  }

  lemma {:induction false} PrintableParts(abc: Alphabet, c: Source)
    requires Printable(abc, c)
    ensures (forall w | w in c.meta :: WellWritten(w)) && (forall w | w in c.patch :: WellWritten(w)) && Comments(c.aboveAt)
    ensures forall s | s in c.comments :: OneLine(s) && TrimRight(TrimLeft(s)) == s
    ensures FirstInvalid(abc, c.name, 0).None?
  {
    hide IsComment, OneLine, TrimLeft, TrimRight, FirstInvalid;
  }

  lemma {:induction false} ChangeIsTokens(abc: Alphabet, c: Source, rest: seq<string>, off: nat)
    requires Printable(abc, c)
    ensures TokensOf(ChangeLines(c) + rest, off, []) ==
      ChangeTokens(c, off, TokensOf(rest, Offsets(c, off).3 + Width(LinesOfWritten(c.patch)), []))
  {
    hide IsComment, TrimLeft, TrimRight, CommentText, FirstInvalid, Header, TokensOf, TokensAt, CommentLines, Width, HeaderLine;
    hide Printable, LinesOfWritten, WellWritten, Texts;
    var (header, meta, at, patch) := Offsets(c, off);
    var h, ms, ps := HeaderLine(c.name), LinesOfWritten(c.meta), LinesOfWritten(c.patch);
    PrintableParts(abc, c);
    HeaderComments(c.comments);
    HeaderRoundTrip(abc, c.name, 0);
    NoCommentAt();
    Regroup(CommentLines(c.comments), [h], ms, c.aboveAt, ["@@"], ps, rest);
    CommentTokens(CommentLines(c.comments), [h] + (ms + (c.aboveAt + (["@@"] + (ps + rest)))), off, []);
    assert [] + c.comments == c.comments;
    FirstToken(h, ms + (c.aboveAt + (["@@"] + (ps + rest))), header, c.comments);
    WrittenTokens(c.meta, c.aboveAt + (["@@"] + (ps + rest)), meta);
    CommentTokens(c.aboveAt, ["@@"] + (ps + rest), meta + Width(ms), []);
    assert [] + Texts(c.aboveAt) == Texts(c.aboveAt);
    FirstToken("@@", ps + rest, at, Texts(c.aboveAt));
    WrittenTokens(c.patch, rest, patch);
  }

  lemma {:induction false} MetaEnds(ws: seq<Written>, off: nat, rest: seq<Token>)
    requires (forall w | w in ws :: w.text != "@@") && rest != [] && rest[0].text == "@@"
    ensures MetaLength(TokensAt(ws, off) + rest) == |ws|
    decreases |ws|
  {
    hide TokensAt, Texts;
    NoTokensAt(off);
    if ws == [] {
      assert [] + rest == rest;
    } else {
      TokensTail(ws, off, rest);
      var next := off + Width(ws[0].above) + |ws[0].text| + 1;
      MetaEnds(ws[1..], next, rest);
    }
  }

  /** The next token, if any, is a header. */
  predicate StartsChange(tokens: seq<Token>) {
    tokens == [] || (tokens[0].text != "" && tokens[0].text[0] == '@')
  }

  lemma {:induction false} PatchEnds(ws: seq<Written>, off: nat, rest: seq<Token>)
    requires (forall w | w in ws :: w.text == "" || w.text[0] != '@') && StartsChange(rest)
    ensures PatchLength(TokensAt(ws, off) + rest) == |ws|
    decreases |ws|
  {
    hide TokensAt, Texts;
    NoTokensAt(off);
    if ws == [] {
      assert [] + rest == rest;
    } else {
      TokensTail(ws, off, rest);
      var next := off + Width(ws[0].above) + |ws[0].text| + 1;
      PatchEnds(ws[1..], next, rest);
    }
  }

  lemma {:induction false} WrittenLines(ws: seq<Written>, off: nat, base: nat)
    ensures LinesOf(TokensAt(ws, off), base) == LinesAt(ws, off, base)
    decreases |ws|
  {
    if ws != [] {
      var start := off + Width(ws[0].above);
      WrittenLines(ws[1..], start + |ws[0].text| + 1, base);
      assert LinesOf(TokensAt(ws, off), base) ==
        [LineValue(base + start, ws[0].text)] + LinesOf(TokensAt(ws[1..], start + |ws[0].text| + 1), base);
    }
  }

  /** Reading the tokens of a printed change gives the change and leaves what follows. */
  lemma {:induction false} ChangeIsRead(abc: Alphabet, c: Source, off: nat, base: nat, rest: seq<Token>)
    requires Printable(abc, c) && StartsChange(rest)
    ensures ReadChange(abc, ChangeTokens(c, off, rest), base) == (ExpectedChange(c, off, base), rest, [])
  {
    hide IsComment, TrimLeft, TrimRight, FirstInvalid, Header, MetaLength, PatchLength, LinesOf, ReadChange;
    hide TokensAt, LinesAt, Width, CommentLines, HeaderLine, LinesOfWritten, Texts;
    var (header, meta, at, patch) := Offsets(c, off);
    HeaderRoundTrip(abc, c.name, header);
    var metas, patches := TokensAt(c.meta, meta), TokensAt(c.patch, patch);
    var tail := [Token("@@", at, Texts(c.aboveAt))] + (patches + rest);
    var tokens := [Token(HeaderLine(c.name), header, c.comments)] + (metas + tail);
    assert tokens[1..] == metas + tail;
    MetaEnds(c.meta, meta, tail);
    Parts(metas, tail);
    assert tail[1..] == patches + rest;
    PatchEnds(c.patch, patch, rest);
    Parts(patches, rest);
    WrittenLines(c.meta, meta, base);
    WrittenLines(c.patch, patch, base);
    ReadParts(abc, tokens, base);
  }

  lemma {:induction false} NoTokens(last: seq<string>, off: nat)
    requires Comments(last)
    ensures TokensOf(last, off, []) == []
  {
    CommentTokens(last, [], off, []);
    assert last + [] == last;
  }

  lemma {:induction false} ProgramStartsChange(abc: Alphabet, prog: seq<Source>, last: seq<string>, off: nat)
    requires PrintableAll(abc, prog) && Comments(last)
    ensures StartsChange(TokensOf(ProgramLines(prog, last), off, []))
  {
    hide TokensOf, TokensAt, ChangeLines, HeaderLine, Printable, Texts;
    if prog == [] {
      NoTokens(last, off);
    } else {
      var c := prog[0];
      assert c in prog;
      ChangeIsTokens(abc, c, ProgramLines(prog[1..], last), off);
      assert FirstInvalid(abc, c.name, 0).None? by { PrintableParts(abc, c); }
      HeaderRoundTrip(abc, c.name, 0);
    }
  }

  lemma {:induction false} ChangeTokensNotEmpty(c: Source, off: nat, rest: seq<Token>)
    ensures ChangeTokens(c, off, rest) != []
  {
  }

  lemma {:induction false} ProgramIsRead(abc: Alphabet, prog: seq<Source>, last: seq<string>, off: nat, base: nat)
    requires PrintableAll(abc, prog) && Comments(last)
    ensures ReadAll(abc, TokensOf(ProgramLines(prog, last), off, []), base) == (Expected(prog, off, base), [])
    decreases |prog|
  {
    hide Printable, TokensOf, ChangeLines, ReadChange, ExpectedChange, StartsChange, HeaderLine, ChangeTokens, Offsets, Comments;
    if prog == [] {
      NoTokens(last, off);
    } else {
      var c, next := prog[0], off + Width(ChangeLines(prog[0]));
      var rest := TokensOf(ProgramLines(prog[1..], last), next, []);
      assert c in prog && PrintableAll(abc, prog[1..]);
      ChangeIsTokens(abc, c, ProgramLines(prog[1..], last), off);
      ChangeWidth(c, off);
      ProgramStartsChange(abc, prog[1..], last, next);
      ChangeIsRead(abc, c, off, base, rest);
      ProgramIsRead(abc, prog[1..], last, next, base);
      var tokens := TokensOf(ProgramLines(prog, last), off, []);
      assert tokens != [] by { ChangeTokensNotEmpty(c, off, rest); }
      assert ReadChange(abc, tokens, base) == (ExpectedChange(c, off, base), rest, []);
      assert ReadAll(abc, tokens, base).1 == [] + [];
    }
  }

  lemma {:induction false} WrittenAreLines(ws: seq<Written>)
    requires forall w | w in ws :: WellWritten(w)
    ensures forall s | s in LinesOfWritten(ws) :: OneLine(s)
    decreases |ws|
  {
    if ws != [] {
      assert ws[0] in ws && forall w | w in ws[1..] :: w in ws;
      WrittenAreLines(ws[1..]);
    }
  }

  lemma {:induction false} AtIsOneLine()
    ensures OneLine("@@")
  {
  }

  lemma {:induction false} ProgramIsLines(abc: Alphabet, prog: seq<Source>, last: seq<string>)
    requires PrintableAll(abc, prog) && Comments(last)
    ensures forall s | s in ProgramLines(prog, last) :: OneLine(s)
    decreases |prog|
  {
    hide OneLine, IsComment, Printable, LinesOfWritten, HeaderLine, CommentLines, WellWritten;
    if prog != [] {
      var c := prog[0];
      assert c in prog && forall c | c in prog[1..] :: c in prog;
      ProgramIsLines(abc, prog[1..], last);
      PrintableParts(abc, c);
      HeaderRoundTrip(abc, c.name, 0);
      HeaderComments(c.comments);
      WrittenAreLines(c.meta);
      WrittenAreLines(c.patch);
      assert OneLine("@@") by { AtIsOneLine(); }
    }
  }

  /**
   * Splitting a printed program gives back its changes, without errors: names, the comments above the headers, metavariable
   * and patch lines, each line with the position of its first character in the printed text. Other comment lines may stand
   * anywhere else, and the last line break may be missing.
   */
  lemma {:induction false} SplitOfPrint(abc: Alphabet, prog: seq<Source>, last: seq<string>, content: string, base: nat)
    requires PrintableAll(abc, prog) && Comments(last) && Prints(content, ProgramLines(prog, last))
    ensures SplitProgram(abc, content, base) == (Expected(prog, 0, base), if prog == [] then [NoChange] else [])
  {
    hide Tokens, TokensOf, ReadAll, ProgramLines, Printable, Prints, Comments;
    ProgramIsLines(abc, prog, last);
    assert content[0..] == content;
    PrintedTokens(content, 0, ProgramLines(prog, last), []);
    ProgramIsRead(abc, prog, last, 0, base);
    var (cs, es) := ReadAll(abc, Tokens(content, 0, []), base);
    assert cs == Expected(prog, 0, base) && es == [];
    assert es + (if cs == [] then [NoChange] else []) == if prog == [] then [NoChange] else [];
  }

  // ------------------------------------------------------- positions, for any content

  lemma {:induction false} TokensAreCut(content: string, off: nat, comments: seq<string>, t: Token)
    requires t in Tokens(content, off, comments)
    ensures off <= t.start && t.start + |t.text| <= |content| && content[t.start..t.start + |t.text|] == t.text
    ensures OneLine(t.text)
    decreases |content| - off
  {
    hide IsComment, CommentText;
    TokensStep(content, off, comments);
    var e := EndOfLine(content, off);
    if IsComment(content[off..e]) {
      TokensAreCut(content, e + 1, comments + [CommentText(content[off..e])], t);
    } else if t != Token(content[off..e], off, comments) {
      TokensAreCut(content, e + 1, [], t);
    }
  }

  ghost predicate CutAll(lines: seq<LineValue>, content: string, base: nat) {
    forall l | l in lines :: CutFrom(l, content, base) && OneLine(l.text)
  }

  ghost predicate Among(tokens: seq<Token>, content: string) {
    forall t | t in tokens :: t in Tokens(content, 0, [])
  }

  lemma {:induction false} LinesAreCut(content: string, base: nat, tokens: seq<Token>)
    requires Among(tokens, content)
    ensures CutAll(LinesOf(tokens, base), content, base)
  {
    hide Tokens;
    forall l | l in LinesOf(tokens, base) ensures CutFrom(l, content, base) && OneLine(l.text) {
      var i :| 0 <= i < |tokens| && LinesOf(tokens, base)[i] == l;
      assert tokens[i] in tokens;
      TokensAreCut(content, 0, [], tokens[i]);
    }
  }

  lemma {:induction false} PartsAreAmong(tokens: seq<Token>, content: string, i: nat, j: nat)
    requires Among(tokens, content) && i <= j <= |tokens|
    ensures Among(tokens[i..j], content) && Among(tokens[i..], content)
  {
    hide Tokens;
    assert forall t | t in tokens[i..j] :: t in tokens;
    assert forall t | t in tokens[i..] :: t in tokens;
  }

  lemma {:induction false} NothingIsCut(content: string, base: nat)
    ensures CutAll([], content, base)
  {
  }

  lemma {:induction false} FirstChangeIsCut(abc: Alphabet, content: string, base: nat, tokens: seq<Token>)
    requires tokens != [] && Among(tokens, content)
    ensures var (c, rest, _) := ReadChange(abc, tokens, base);
      CutAll(c.meta, content, base) && CutAll(c.patch, content, base) && Among(rest, content)
  {
    hide Tokens, MetaLength, PatchLength, Header, LinesOf, CutAll, ReadChange, Among;
    var body, k := tokens[1..], MetaLength(tokens[1..]);
    var patch := if body[k..] == [] then [] else body[k..][1..];
    ReadParts(abc, tokens, base);
    PartsAreAmong(tokens, content, 1, |tokens|);
    PartsAreAmong(body, content, 0, k);
    PartsAreAmong(body, content, k, |body|);
    if body[k..] != [] {
      PartsAreAmong(body[k..], content, 1, |body[k..]|);
    }
    PartsAreAmong(patch, content, 0, PatchLength(patch));
    PartsAreAmong(patch, content, PatchLength(patch), |patch|);
    NoLines(base);
    assert body[0..k] == body[..k] && patch[0..PatchLength(patch)] == patch[..PatchLength(patch)];
    LinesAreCut(content, base, body[..k]);
    LinesAreCut(content, base, patch[..PatchLength(patch)]);
    NothingIsCut(content, base);
  }

  lemma {:induction false} ReadLinesAreCut(abc: Alphabet, content: string, base: nat, tokens: seq<Token>, c: Change)
    requires Among(tokens, content) && c in ReadAll(abc, tokens, base).0
    ensures CutAll(c.meta, content, base) && CutAll(c.patch, content, base)
    decreases |tokens|
  {
    hide Among, CutAll, ReadChange;
    var (first, rest, _) := ReadChange(abc, tokens, base);
    FirstChangeIsCut(abc, content, base, tokens);
    if c != first {
      ReadLinesAreCut(abc, content, base, rest, c);
    }
  }

  /** Whatever the file holds: every line that the splitter returns is the text at its own position. */
  lemma {:induction false} SplitLinesPointAtTheirText(abc: Alphabet, content: string, base: nat, c: Change)
    requires c in SplitProgram(abc, content, base).0
    ensures CutAll(c.meta, content, base) && CutAll(c.patch, content, base)
  {
    ReadLinesAreCut(abc, content, base, Tokens(content, 0, []), c);
  }

  // -------------------------------------------------------- comments, for any content

  /** A line starts at offset `start`. */
  ghost predicate LineStarts(content: string, start: nat) {
    start == 0 || (start <= |content| && content[start - 1] == '\n')
  }

  /** The line that starts at `prev` ends right before `start` and is a comment. */
  ghost predicate CommentBefore(content: string, prev: nat, start: nat) {
    && prev < start <= |content| && LineStarts(content, prev) && EndOfLine(content, prev) + 1 == start
    && IsComment(content[prev..start - 1])
  }

  /** The comments are all the comment lines directly above the line that starts at offset `start`. */
  ghost predicate DirectlyAbove(content: string, start: nat, comments: seq<string>)
    decreases |comments|
  {
    if comments == [] then
      forall prev: nat :: !CommentBefore(content, prev, start)
    else
      var last := |comments| - 1;
      exists prev: nat ::
        && CommentBefore(content, prev, start) && comments[last] == CommentText(content[prev..start - 1])
        && DirectlyAbove(content, prev, comments[..last])
  }

  /** Only one line ends right before a given offset. */
  lemma {:induction false} OneLineBefore(content: string, a: nat, b: nat, start: nat)
    requires a < start <= |content| && LineStarts(content, a) && EndOfLine(content, a) + 1 == start
    requires b < start && LineStarts(content, b) && EndOfLine(content, b) + 1 == start
    ensures a == b
  {
    hide EndOfLine;
  }

  lemma {:induction false} NoCommentBefore(content: string, off: nat, start: nat)
    requires off < start <= |content| && LineStarts(content, off) && EndOfLine(content, off) + 1 == start
    requires !IsComment(content[off..start - 1])
    ensures forall prev: nat :: !CommentBefore(content, prev, start)
  {
    hide EndOfLine, IsComment;
    forall prev: nat | CommentBefore(content, prev, start) ensures prev == off { OneLineBefore(content, off, prev, start); }
  }

  lemma {:induction false} CommentsAreAbove(content: string, off: nat, comments: seq<string>, t: Token)
    requires t in Tokens(content, off, comments) && LineStarts(content, off) && DirectlyAbove(content, off, comments)
    ensures DirectlyAbove(content, t.start, t.comments)
    decreases |content| - off
  {
    hide IsComment, CommentText, Tokens, EndOfLine;
    TokensStep(content, off, comments);
    var e := EndOfLine(content, off);
    var text := content[off..e];
    if e < |content| {
      if IsComment(text) {
        var more := comments + [CommentText(text)];
        assert more[..|comments|] == comments;
        assert CommentBefore(content, off, e + 1);
        CommentsAreAbove(content, e + 1, more, t);
      } else if t != Token(text, off, comments) {
        NoCommentBefore(content, off, e + 1);
        CommentsAreAbove(content, e + 1, [], t);
      }
    } else {
      TokensStep(content, e + 1, comments + [CommentText(text)]);
      TokensStep(content, e + 1, []);
    }
  }

  /** The change starts at a token of the file and has its comments. */
  ghost predicate Heads(t: Token, c: Change, base: nat) {
    c.headerPos == base + t.start && c.comments == t.comments
  }

  lemma {:induction false} ReadHeaders(abc: Alphabet, content: string, base: nat, tokens: seq<Token>, c: Change) returns (t: Token)
    requires Among(tokens, content) && c in ReadAll(abc, tokens, base).0
    ensures t in Tokens(content, 0, []) && Heads(t, c, base)
    decreases |tokens|
  {
    hide Tokens, ReadChange, LinesOf, MetaLength, PatchLength, Header;
    var (first, rest, _) := ReadChange(abc, tokens, base);
    ReadParts(abc, tokens, base);
    FirstChangeIsCut(abc, content, base, tokens);
    if c == first {
      t := tokens[0];
      assert t in tokens;
    } else {
      t := ReadHeaders(abc, content, base, rest, c);
    }
  }

  lemma {:induction false} NothingAbove(content: string)
    ensures DirectlyAbove(content, 0, [])
  {
  }

  /** Whatever the file holds: the comments of a change are exactly the comment lines directly above its header. */
  lemma {:induction false} CommentsAreDirectlyAbove(abc: Alphabet, content: string, base: nat, c: Change)
    requires c in SplitProgram(abc, content, base).0
    ensures base <= c.headerPos && DirectlyAbove(content, c.headerPos - base, c.comments)
  {
    hide Tokens, ReadAll, DirectlyAbove;
    var t := ReadHeaders(abc, content, base, Tokens(content, 0, []), c);
    assert DirectlyAbove(content, 0, []) by { NothingAbove(content); }
    CommentsAreAbove(content, 0, [], t);
  }

  // ------------------------------------------------------ invalid names, for any content

  lemma {:induction false} TrimLeftCuts(s: string)
    ensures var m := |s| - |TrimLeft(s)|;
      TrimLeft(s) == s[m..] && (forall k | 0 <= k < m :: IsSpace(s[k])) && (m < |s| ==> !IsSpace(s[m]))
  {
    if s != "" && IsSpace(s[0]) {
      TrimLeftCuts(s[1..]);
      var m := |s| - |TrimLeft(s)|;
      assert s[1..][m - 1..] == s[m..];
      assert forall k | 1 <= k < m :: s[k] == s[1..][k - 1];
    }
  }

  lemma {:induction false} TrimRightCuts(s: string)
    ensures |TrimRight(s)| <= |s| && TrimRight(s) == s[..|TrimRight(s)|]
  {
    if s != "" && IsSpace(s[|s| - 1]) {
      TrimRightCuts(s[..|s| - 1]);
    }
  }

  /**
   * In a text: an '@' at `at`, spaces up to `n`, from there a run of characters that a name may have, and at `off` the first
   * one that it may not have there.
   */
  ghost predicate NameFails(abc: Alphabet, text: string, at: nat, n: nat, off: nat) {
    && at < n <= off < |text| && text[at] == '@'
    && (forall k | at < k < n :: IsSpace(text[k])) && !IsSpace(text[n])
    && (forall k | n <= k < off :: Allowed(abc, text[k], k - n)) && !Allowed(abc, text[off], off - n)
  }

  ghost predicate FirstDisallowed(abc: Alphabet, text: string, at: nat, off: nat) {
    exists n :: NameFails(abc, text, at, n, off)
  }

  lemma {:induction false} NameFailsAt(abc: Alphabet, text: string, inner: string, left: string, name: string)
    requires |text| > 2 && text[0] == '@' && inner == text[1..|text| - 1]
    requires left == TrimLeft(inner) && name == TrimRight(left) && FirstInvalid(abc, name, 0).Some?
    ensures var n := 1 + |inner| - |left|; NameFails(abc, text, 0, n, n + FirstInvalid(abc, name, 0).value)
  {
    hide TrimLeft, TrimRight, FirstInvalid, Allowed, IsSpace;
    TrimLeftCuts(inner);
    TrimRightCuts(left);
    var m, i := |inner| - |left|, FirstInvalid(abc, name, 0).value;
    var n := 1 + m;
    forall k | 0 <= k < |name| ensures name[k] == text[n + k] { assert name[k] == left[k] == inner[m + k]; }
    forall k | 0 < k < n ensures IsSpace(text[k]) { assert IsSpace(inner[k - 1]); }
    assert text[n] == inner[m];
    forall k | n <= k < n + i ensures Allowed(abc, text[k], k - n) { assert Allowed(abc, name[k - n], k - n); }
  }

  lemma {:induction false} HeaderErrors(abc: Alphabet, text: string, start: nat, off: nat)
    requires Header(abc, text, start).1 == Some(InvalidName(off))
    ensures start <= off && FirstDisallowed(abc, text, 0, off - start)
  {
    hide TrimLeft, TrimRight, NameFails, FirstInvalid;
    var inner := text[1..|text| - 1];
    var left := TrimLeft(inner);
    var name := TrimRight(left);
    NameFailsAt(abc, text, inner, left, name);
    assert left != "" by { TrimRightCuts(left); }
  }

  lemma {:induction false} FirstErrors(abc: Alphabet, tokens: seq<Token>, base: nat, off: nat)
    requires tokens != [] && InvalidName(off) in ReadChange(abc, tokens, base).2
    ensures Header(abc, tokens[0].text, tokens[0].start).1 == Some(InvalidName(off))
  {
    hide Header, LinesOf, MetaLength, PatchLength;
  }

  lemma {:induction false} AmongFirst(tokens: seq<Token>, content: string)
    requires tokens != [] && Among(tokens, content)
    ensures tokens[0] in Tokens(content, 0, [])
  {
    hide Tokens;
    assert tokens[0] in tokens;
  }

  lemma {:induction false} ReadErrors(abc: Alphabet, content: string, base: nat, tokens: seq<Token>, off: nat) returns (t: Token)
    requires Among(tokens, content) && InvalidName(off) in ReadAll(abc, tokens, base).1
    ensures t in Tokens(content, 0, []) && Header(abc, t.text, t.start).1 == Some(InvalidName(off))
    decreases |tokens|
  {
    hide Tokens, ReadChange, LinesOf, Header, Among;
    var (_, rest, es) := ReadChange(abc, tokens, base);
    FirstChangeIsCut(abc, content, base, tokens);
    if InvalidName(off) in es {
      FirstErrors(abc, tokens, base, off);
      t := tokens[0];
      AmongFirst(tokens, content);
      assert t in tokens;
    } else {
      t := ReadErrors(abc, content, base, rest, off);
    }
  }

  lemma {:induction false} ContentStarts(content: string)
    ensures LineStarts(content, 0)
  {
  }

  lemma {:induction false} TokensStartLines(content: string, off: nat, comments: seq<string>, t: Token)
    requires t in Tokens(content, off, comments) && LineStarts(content, off)
    ensures LineStarts(content, t.start)
    decreases |content| - off
  {
    hide IsComment, CommentText, Tokens, EndOfLine;
    TokensStep(content, off, comments);
    var e := EndOfLine(content, off);
    var more := comments + [CommentText(content[off..e])];
    if e < |content| {
      if IsComment(content[off..e]) {
        TokensStartLines(content, e + 1, more, t);
      } else if t != Token(content[off..e], off, comments) {
        TokensStartLines(content, e + 1, [], t);
      }
    } else {
      TokensStep(content, e + 1, more);
      TokensStep(content, e + 1, []);
    }
  }

  lemma {:induction false} DisallowedInContent(abc: Alphabet, content: string, text: string, start: nat, off: nat)
    requires start + |text| <= |content| && content[start..start + |text|] == text
    requires start <= off && FirstDisallowed(abc, text, 0, off - start)
    ensures FirstDisallowed(abc, content, start, off)
  {
    hide Allowed, IsSpace;
    var n :| NameFails(abc, text, 0, n, off - start);
    forall k | 0 <= k < |text| ensures text[k] == content[start + k] { assert content[start..start + |text|][k] == text[k]; }
    forall k | start < k < start + n ensures IsSpace(content[k]) { assert IsSpace(text[k - start]); }
    forall k | start + n <= k < off ensures Allowed(abc, content[k], k - (start + n)) {
      assert Allowed(abc, text[k - start], k - start - n);
    }
    assert NameFails(abc, content, start, start + n, off);
  }

  /**
   * Whatever the file holds: an invalid name is reported at the offset of the first character of it that is not allowed
   * where it stands.
   */
  lemma {:induction false} InvalidNamesAreLocated(abc: Alphabet, content: string, base: nat, off: nat)
    requires InvalidName(off) in SplitProgram(abc, content, base).1
    ensures exists at :: LineStarts(content, at) && FirstDisallowed(abc, content, at, off)
  {
    hide Tokens, ReadAll, Header, FirstDisallowed, LineStarts;
    var t := ReadErrors(abc, content, base, Tokens(content, 0, []), off);
    TokensAreCut(content, 0, [], t);
    assert LineStarts(content, 0) by { ContentStarts(content); }
    TokensStartLines(content, 0, [], t);
    HeaderErrors(abc, t.text, t.start, off);
    DisallowedInContent(abc, content, t.text, t.start, off);
  }
}
