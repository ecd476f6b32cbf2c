/** Model of internal/parse/section/section.go: splitting a patch file into its changes. */
module SectionSplitter {
  import opened Wrappers
  import opened PatchSides

  // ------------------------------------------------------------------ characters

  /** unicode.IsSpace */
  predicate IsSpace(c: char) {
    var n := c as int;
    9 <= n <= 13 || n == 32 || n == 0x85 || n == 0xA0 || n == 0x1680 || 0x2000 <= n <= 0x200a
    || n == 0x2028 || n == 0x2029 || n == 0x202f || n == 0x205f || n == 0x3000
  }

  /** What unicode.IsLetter and unicode.IsDigit accept. */
  datatype Classes = Classes(letters: set<char>, digits: set<char>)

  /** No space is a letter or a digit. */
  type Alphabet = abc: Classes | forall c | c in abc.letters || c in abc.digits :: !IsSpace(c) witness Classes({}, {})

  function TrimLeft(s: string): (r: string)
    ensures |r| <= |s|
  {
    if s != "" && IsSpace(s[0]) then TrimLeft(s[1..]) else s
  }

  function TrimRight(s: string): string {
    if s != "" && IsSpace(s[|s| - 1]) then TrimRight(s[..|s| - 1]) else s
  }

  /** Comments are supported only on their own lines. */
  predicate IsComment(s: string) {
    TrimLeft(s) != "" && TrimLeft(s)[0] == '#'
  }

  /** What is kept of a comment line: all but its first character, which may be a space. */
  function CommentText(line: string): string {
    if line == "" then "" else TrimRight(TrimLeft(line[1..]))
  }

  // ----------------------------------------------------------------------- lines

  /** A line that is not a comment, where it starts, and the comment lines right above it. */
  datatype Token = Token(text: string, start: nat, comments: seq<string>)

  /** The offset of the end of the line that holds offset `off`. */
  function EndOfLine(content: string, off: nat): (e: nat)
    requires off <= |content|
    ensures off <= e <= |content|
    ensures e < |content| ==> content[e] == '\n'
    ensures '\n' !in content[off..e]
    decreases |content| - off
  {
    if off == |content| || content[off] == '\n' then
      off
    else
      var e := EndOfLine(content, off + 1);
      assert content[off..e] == [content[off]] + content[off + 1..e];
      e
  }

  function Tokens(content: string, off: nat, comments: seq<string>): seq<Token>
    decreases |content| - off
  {
    if off >= |content| then []
    else
      var e := EndOfLine(content, off);
      var text := content[off..e];
      if IsComment(text) then Tokens(content, e + 1, comments + [CommentText(text)])
      else [Token(text, off, comments)] + Tokens(content, e + 1, [])
  }

  /** One step of Tokens. */
  lemma {:induction false} TokensStep(content: string, off: nat, comments: seq<string>)
    ensures off >= |content| ==> Tokens(content, off, comments) == []
    ensures off < |content| ==>
      var e := EndOfLine(content, off);
      Tokens(content, off, comments) ==
      if IsComment(content[off..e]) then Tokens(content, e + 1, comments + [CommentText(content[off..e])])
      else [Token(content[off..e], off, comments)] + Tokens(content, e + 1, [])
  {
  }

  // --------------------------------------------------------------------- headers

  datatype Error = InvalidName(offset: nat) | NotAHeader(offset: nat) | NoMetaEnd | NoChange

  /** The character may stand at index i of a name. */
  predicate Allowed(abc: Alphabet, c: char, i: nat) {
    c in abc.letters || c == '_' || (i > 0 && c in abc.digits)
  }

  /** The first character that is not allowed in a name. */
  function FirstInvalid(abc: Alphabet, name: string, i: nat): (r: Option<nat>)
    requires i <= |name|
    ensures r.Some? ==> i <= r.value < |name| && !Allowed(abc, name[r.value], r.value)
    ensures forall k | i <= k < |name| && (r.Some? ==> k < r.value) :: Allowed(abc, name[k], k)
    decreases |name| - i
  {
    if i == |name| then None
    else if Allowed(abc, name[i], i) then FirstInvalid(abc, name, i + 1)
    else Some(i)
  }

  /** The name in a header, or what is wrong with the header. */
  function Header(abc: Alphabet, text: string, start: nat): (string, Option<Error>) {
    if text == "@@" then ("", None)
    else if |text| > 2 && text[0] == '@' && text[|text| - 1] == '@' then
      var inner := text[1..|text| - 1];
      var left := TrimLeft(inner);
      var name := TrimRight(left);
      var shift := if left == "" then 0 else |inner| - |left|;
      match FirstInvalid(abc, name, 0)
      case None => (name, None)
      case Some(i) => ("", Some(InvalidName(start + 1 + shift + i)))
    else ("", Some(NotAHeader(start)))
  }

  // --------------------------------------------------------------------- changes

  datatype Change = Change(
    headerPos: nat, name: string, meta: seq<LineValue>, atPos: nat, patch: seq<LineValue>, comments: seq<string>)

  function LinesOf(tokens: seq<Token>, base: nat): (r: seq<LineValue>)
    ensures |r| == |tokens|
  {
    seq(|tokens|, i requires 0 <= i < |tokens| => LineValue(base + tokens[i].start, tokens[i].text))
  }

  lemma {:induction false} LinesGrow(tokens: seq<Token>, i: nat, base: nat)
    requires i < |tokens|
    ensures LinesOf(tokens[..i + 1], base) == LinesOf(tokens[..i], base) + [LineValue(base + tokens[i].start, tokens[i].text)]
    ensures tokens[i..] == [tokens[i]] + tokens[i + 1..] && tokens[i..][1..] == tokens[i + 1..]
  {
  }

  lemma {:induction false} NoLines(base: nat)
    ensures LinesOf([], base) == []
  {
  }

  /** The number of tokens before the line that ends the metavariables section. */
  function MetaLength(tokens: seq<Token>): (k: nat)
    ensures k <= |tokens|
  {
    if tokens == [] || tokens[0].text == "@@" then 0 else 1 + MetaLength(tokens[1..])
  }

  /** The number of tokens before the next header. */
  function PatchLength(tokens: seq<Token>): (k: nat)
    ensures k <= |tokens|
  {
    if tokens == [] || (tokens[0].text != "" && tokens[0].text[0] == '@') then 0 else 1 + PatchLength(tokens[1..])
  }

  function Errors(e: Option<Error>): seq<Error> {
    match e case Some(e) => [e] case None => []
  }

  /** What one change reads: the change, the tokens behind it, and the errors. */
  function ReadChange(abc: Alphabet, tokens: seq<Token>, base: nat): (r: (Change, seq<Token>, seq<Error>))
    requires tokens != []
    ensures |r.1| < |tokens|
  {
    var head := tokens[0];
    var (name, e) := Header(abc, head.text, head.start);
    var body := tokens[1..];
    var k := MetaLength(body);
    if k == |body| then
      (Change(base + head.start, name, [], 0, [], head.comments), [], Errors(e) + [NoMetaEnd])
    else
      var patch := body[k + 1..];
      var n := PatchLength(patch);
      (Change(base + head.start, name, LinesOf(body[..k], base), base + body[k].start, LinesOf(patch[..n], base), head.comments),
       patch[n..], Errors(e))
  }

  /** ReadChange, part by part. */
  lemma {:induction false} ReadParts(abc: Alphabet, tokens: seq<Token>, base: nat)
    requires tokens != []
    ensures var (body, k, (name, e)) := (tokens[1..], MetaLength(tokens[1..]), Header(abc, tokens[0].text, tokens[0].start));
      var patch := if body[k..] == [] then [] else body[k..][1..];
      var (c, rest, es) := ReadChange(abc, tokens, base);
      && c.headerPos == base + tokens[0].start && c.name == name && c.comments == tokens[0].comments
      && c.meta == (if k < |body| then LinesOf(body[..k], base) else [])
      && c.atPos == (if k < |body| then base + body[k].start else 0)
      && c.patch == LinesOf(patch[..PatchLength(patch)], base)
      && rest == patch[PatchLength(patch)..]
      && es == Errors(e) + if k < |body| then [] else [NoMetaEnd]
  {
    var body, k := tokens[1..], MetaLength(tokens[1..]);
    if k < |body| {
      assert body[k..][1..] == body[k + 1..];
    }
  }

  lemma {:induction false} OneByOne<T>(a: seq<T>, b: seq<T>, c: seq<T>)
    ensures a + b + c == a + (b + c)
  {
  }

  function ReadAll(abc: Alphabet, tokens: seq<Token>, base: nat): (seq<Change>, seq<Error>)
    decreases |tokens|
  {
    if tokens == [] then ([], [])
    else
      var (c, rest, e) := ReadChange(abc, tokens, base);
      var (cs, es) := ReadAll(abc, rest, base);
      ([c] + cs, e + es)
  }

  lemma {:induction false} ReadAllStep(abc: Alphabet, tokens: seq<Token>, base: nat, prog: seq<Change>, errors: seq<Error>)
    requires tokens != []
    ensures var (c, rest, e) := ReadChange(abc, tokens, base);
      && prog + ReadAll(abc, tokens, base).0 == prog + [c] + ReadAll(abc, rest, base).0
      && errors + ReadAll(abc, tokens, base).1 == errors + e + ReadAll(abc, rest, base).1
  {
    hide ReadChange;
  }

  lemma {:induction false} NothingToRead(abc: Alphabet, base: nat)
    ensures ReadAll(abc, [], base) == ([], [])
  {
  }

  function SplitProgram(abc: Alphabet, content: string, base: nat): (seq<Change>, seq<Error>) {
    var (cs, es) := ReadAll(abc, Tokens(content, 0, []), base);
    (cs, es + if cs == [] then [NoChange] else [])
  }

  // -------------------------------------------------------------------- splitter

  class ProgramSplitter {
    const abc: Alphabet
    const content: string
    const base: nat
    var text: string
    var pos: nat
    var lastComments: seq<string>
    var eof: bool
    var startOffset: nat
    var offset: nat
    var errors: seq<Error>

    /** The current line is a part of the content, and the next one starts behind it. */
    ghost predicate Valid()
      reads this
    {
      if eof then
        offset >= |content| && pos == 0 && text == ""
      else
        && startOffset + |text| <= |content| && text == content[startOffset..startOffset + |text|]
        && pos == base + startOffset
    }

    /** The tokens from the current line on. */
    ghost function Rest(): seq<Token>
      reads this
    {
      if eof then [] else [Token(text, startOffset, lastComments)] + Tokens(content, offset, [])
    }

    /** The current line is the next token. */
    lemma {:induction false} Current()
      requires Valid()
      ensures eof <==> Rest() == []
      ensures eof ==> pos == 0
      ensures !eof ==> Rest()[0] == Token(text, startOffset, lastComments) && pos == base + startOffset
    {
    }

    constructor (abc: Alphabet, content: string, base: nat)
      ensures this.abc == abc && this.content == content && this.base == base && offset == 0 && !eof && errors == []
    {
      this.abc, this.content, this.base := abc, content, base;
      text, pos, lastComments, eof, startOffset, offset, errors := "", 0, [], false, 0, 0, [];
    }

    method Errf(e: Error)
      modifies this`errors
      ensures errors == old(errors) + [e]
      ensures Valid() == old(Valid()) && Rest() == old(Rest())
    {
      errors := errors + [e];
    }

    method SkipUntilEOL()
      requires offset <= |content|
      modifies this`offset
      ensures offset == EndOfLine(content, old(offset))
    {
      while offset < |content|
        invariant offset <= |content| && EndOfLine(content, offset) == EndOfLine(content, old(offset))
      {
        if content[offset] == '\n' {
          return;
        }
        offset := offset + 1;
      }
    }

    /** Advances to the next line that is not a comment, collecting the comments on the way. */
    method Next()
      requires eof ==> offset >= |content|
      modifies this`text, this`pos, this`lastComments, this`eof, this`startOffset, this`offset
      ensures Valid() && Rest() == Tokens(content, old(offset), [])
    {
      hide Tokens, IsComment, EndOfLine, CommentText;
      lastComments := [];
      while offset < |content|
        invariant Tokens(content, offset, lastComments) == Tokens(content, old(offset), [])
        invariant eof == old(eof)
        decreases |content| - offset
      {
        TokensStep(content, offset, lastComments);
        startOffset := offset;
        SkipUntilEOL();
        text := content[startOffset..offset];
        pos := base + startOffset;
        if !IsComment(text) {
          offset := offset + 1;
          return;
        }
        lastComments := lastComments + [CommentText(text)];
        offset := offset + 1;
      }
      TokensStep(content, offset, lastComments);
      pos := 0;
      text := "";
      eof := true;
    }

    /** Next, from a line on. */
    method Advance()
      requires Valid()
      modifies this`text, this`pos, this`lastComments, this`eof, this`startOffset, this`offset
      ensures Valid() && Rest() == if old(Rest()) == [] then [] else old(Rest())[1..]
    {
      hide Tokens;
      TokensStep(content, offset, []);
      Next();
    }

    method ReadName() returns (name: string)
      requires Valid() && !eof
      modifies this
      ensures Valid() && Rest() == old(Rest())[1..]
      ensures var (n, e) := Header(abc, old(text), old(startOffset)); name == n && errors == old(errors) + Errors(e)
    {
      hide Tokens, TrimLeft, TrimRight, FirstInvalid, ProgramSplitter.Rest, ProgramSplitter.Valid;
      Current();
      name := "";
      if text == "@@" {
      } else if |text| > 2 && text[0] == '@' && text[|text| - 1] == '@' {
        var inner := text[1..|text| - 1];
        var left := TrimLeft(inner);
        var trimmed := TrimRight(left);
        var shift := 1 + if left == "" then 0 else |inner| - |left|;
        match FirstInvalid(abc, trimmed, 0) {
          case None => name := trimmed;
          case Some(i) => Errf(InvalidName(startOffset + shift + i));
        }
      } else {
        Errf(NotAHeader(startOffset));
      }
      Advance();
    }

    method ReadMeta() returns (s: seq<LineValue>)
      requires Valid()
      modifies this
      ensures Valid()
      ensures var (tokens, k) := (old(Rest()), MetaLength(old(Rest())));
        && s == (if k < |tokens| then LinesOf(tokens[..k], base) else [])
        && Rest() == tokens[k..]
        && errors == old(errors) + if k < |tokens| then [] else [NoMetaEnd]
    {
      hide Tokens, LinesOf, ProgramSplitter.Rest, ProgramSplitter.Valid;
      ghost var tokens := Rest();
      ghost var i := 0;
      s := [];
      NoLines(base);
      while !eof
        invariant Valid() && i <= |tokens| && Rest() == tokens[i..] && errors == old(errors)
        invariant s == LinesOf(tokens[..i], base)
        invariant MetaLength(tokens) == i + MetaLength(tokens[i..])
        decreases |Rest()|
      {
        Current();
        if |text| == 2 && text[0] == '@' && text[1] == '@' {
          return;
        }
        LinesGrow(tokens, i, base);
        s := s + [LineValue(pos, text)];
        Advance();
        i := i + 1;
      }
      Current();
      Errf(NoMetaEnd);
      s := [];
    }

    /** Reads the patch section, whose first line is the one behind "@@". */
    method ReadPatch() returns (s: seq<LineValue>)
      requires Valid()
      modifies this
      ensures Valid() && errors == old(errors)
      ensures var patch := if old(Rest()) == [] then [] else old(Rest())[1..];
        s == LinesOf(patch[..PatchLength(patch)], base) && Rest() == patch[PatchLength(patch)..]
    {
      hide Tokens, LinesOf, PatchLength;
      Advance();
      s := ReadPatchLines();
    }

    method ReadPatchLines() returns (s: seq<LineValue>)
      requires Valid()
      modifies this
      ensures Valid() && errors == old(errors)
      ensures var patch := old(Rest()); s == LinesOf(patch[..PatchLength(patch)], base) && Rest() == patch[PatchLength(patch)..]
    {
      hide Tokens, LinesOf, ProgramSplitter.Rest, ProgramSplitter.Valid;
      ghost var tokens := Rest();
      ghost var i := 0;
      s := [];
      NoLines(base);
      while !eof
        invariant Valid() && i <= |tokens| && Rest() == tokens[i..] && errors == old(errors)
        invariant s == LinesOf(tokens[..i], base)
        invariant PatchLength(tokens) == i + PatchLength(tokens[i..])
        decreases |Rest()|
      {
        Current();
        if |text| > 0 && text[0] == '@' {
          break;
        }
        LinesGrow(tokens, i, base);
        s := s + [LineValue(pos, text)];
        Advance();
        i := i + 1;
      }
      Current();
    }

    method ReadOne() returns (c: Change)
      requires Valid() && !eof
      modifies this
      ensures Valid()
      ensures var (change, rest, es) := ReadChange(abc, old(Rest()), base);
        c == change && Rest() == rest && errors == old(errors) + es
    {
      hide Tokens, MetaLength, PatchLength, Header, LinesOf, ReadChange, ProgramSplitter.Rest, ProgramSplitter.Valid;
      Current();
      ghost var tokens, before := Rest(), errors;
      var comments := lastComments;
      var headerPos := pos;
      var name := ReadName();
      var meta := ReadMeta();
      Current();
      var atPos := pos;
      var patch := ReadPatch();
      c := Change(headerPos, name, meta, atPos, patch, comments);
      ReadParts(abc, tokens, base);
      OneByOne(before, Errors(Header(abc, tokens[0].text, tokens[0].start).1),
               if MetaLength(tokens[1..]) < |tokens[1..]| then [] else [NoMetaEnd]);
    }

    method ReadProgram() returns (prog: seq<Change>)
      requires Valid()
      modifies this
      ensures var (cs, es) := ReadAll(abc, old(Rest()), base);
        prog == cs && errors == old(errors) + es + if cs == [] then [NoChange] else []
    {
      hide Tokens, ReadChange, ReadAll, ProgramSplitter.Rest, ProgramSplitter.Valid;
      prog := [];
      while !eof
        invariant Valid()
        invariant ReadAll(abc, old(Rest()), base).0 == prog + ReadAll(abc, Rest(), base).0
        invariant old(errors) + ReadAll(abc, old(Rest()), base).1 == errors + ReadAll(abc, Rest(), base).1
        decreases |Rest()|
      {
        Current();
        ReadAllStep(abc, Rest(), base, prog, errors);
        var c := ReadOne();
        prog := prog + [c];
      }
      Current();
      NothingToRead(abc, base);
      if |prog| == 0 {
        Errf(NoChange);
      }
    }
  }

  method Split(abc: Alphabet, content: string, base: nat) returns (prog: seq<Change>, errors: seq<Error>)
    ensures (prog, errors) == SplitProgram(abc, content, base)
  {
    hide Tokens, ReadAll;
    var splitter := new ProgramSplitter(abc, content, base);
    splitter.Next();
    prog := splitter.ReadProgram();
    errors := splitter.errors;
    assert [] + ReadAll(abc, Tokens(content, 0, []), base).1 == ReadAll(abc, Tokens(content, 0, []), base).1;
  }
}
