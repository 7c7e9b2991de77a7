/** Where in the text a decoding error is reported: line and position of a stream offset. */
module RjErrorLine {
  import opened Wrappers
  import opened RjLexical
  import opened Strings
  import opened RjReader
  import opened RjStream
  import opened RjLayout

  /** Newline bytes, of either kind, among the first `n` bytes. */
  function NewLines(buf: Text, n: nat): nat
    requires n <= |buf|
  {
    if n == 0 then 0 else NewLines(buf, n - 1) + if IsNewLine(buf[n - 1]) then 1 else 0
  }

  /** Bytes behind the last newline among the first `n`. */
  function Column(buf: Text, n: nat): (c: nat)
    requires n <= |buf|
    ensures c <= n && (c < n ==> IsNewLine(buf[n - c - 1]))
  {
    if n == 0 || IsNewLine(buf[n - 1]) then 0 else 1 + Column(buf, n - 1)
  }

  const LF: Byte := '\n'
  const CR: Byte := '\r'

  // ----- delivered bytes, counted from the text

  /** A significant byte, and whether a comment stands between it and the one before. */
  datatype Mark = Mark(b: Byte, quoted: bool, commented: bool)

  /** The significant bytes from position `n` on; comments close where they should. */
  function MarksFrom(buf: Text, n: nat, inString: bool, commented: bool): seq<Mark>
    requires n <= |buf|
    decreases |buf| - n
  {
    if n == |buf| then []
    else if inString then [Mark(buf[n], true, false)] + MarksFrom(buf, n + 1, buf[n] != '"', false)
    else if IsWhiteSpace(buf[n]) then MarksFrom(buf, n + 1, false, commented)
    else if SlashPair(buf, n, '/') then MarksFrom(buf, LineFrom(buf, n), false, true)
    else if SlashPair(buf, n, '*') then
      match BlockFrom(buf, n + PEEK_OFFSET)
      case None => []
      case Some(e) => MarksFrom(buf, e, false, true)
    else [Mark(buf[n], buf[n] == '"', commented)] + MarksFrom(buf, n + 1, buf[n] == '"', false)
  }

  predicate IsComma(m: Mark) {
    m.b == ',' && !m.quoted
  }

  predicate IsBracket(m: Mark) {
    IsCloser(m.b) && !m.quoted
  }

  /** The last byte makes the one before it a dropped comma. */
  predicate EndsInDrop(marks: seq<Mark>) {
    |marks| > 1 && IsComma(marks[|marks| - 2]) && IsBracket(marks[|marks| - 1])
  }

  /** Bytes delivered: all but the commas in front of a bracket. */
  function DeliveredCount(marks: seq<Mark>): int {
    if marks == [] then 0
    else DeliveredCount(marks[..|marks| - 1]) + if EndsInDrop(marks) then 0 else 1
  }

  /** Dropped commas that a comment separates from their bracket. */
  function CommentedDrops(marks: seq<Mark>): nat {
    if marks == [] then 0
    else
      CommentedDrops(marks[..|marks| - 1])
      + if EndsInDrop(marks) && marks[|marks| - 1].commented then 1 else 0
  }

  class Locator {
    const buf: Text
    var indx: nat
    var line: nat
    var character: nat
    /** Delivered bytes counted so far; it is taken back for comments and dropped commas. */
    var i: int
    /** The significant bytes passed, and the state of the scan behind them. */
    ghost var marks: seq<Mark>
    ghost var inString: bool
    ghost var commented: bool

    constructor (b: Text)
      ensures buf == b && indx == 0 && i == 0 && marks == [] && !inString && !commented
      ensures Located() && Tracked()
    {
      buf, indx, line, character, i := b, 0, 1, 0, 0;
      marks, inString, commented := [], false, false;
    }

    ghost predicate Located()
      reads this
    {
      && indx <= |buf|
      && line == 1 + NewLines(buf, indx)
      && character == Column(buf, indx)
    }

    /** The bytes passed and those still ahead make up the text; dropped commas behind comments are counted. */
    ghost predicate Tracked()
      reads this
    {
      && indx <= |buf|
      && MarksFrom(buf, 0, false, false) == marks + MarksFrom(buf, indx, inString, commented)
      && i == DeliveredCount(marks) + CommentedDrops(marks)
    }

    /** The index stands right behind the last significant byte passed. */
    ghost predicate RightBehindLast()
      reads this
    {
      marks != [] && 0 < indx <= |buf| && buf[indx - 1] == marks[|marks| - 1].b
    }

    /** Moves over one byte. */
    method Advance() returns (b: Byte)
      requires Located() && indx < |buf|
      modifies this`indx, this`line, this`character
      ensures Located() && indx == old(indx) + 1 && b == buf[indx - 1]
    {
      b := buf[indx];
      indx := indx + 1;
      if IsNewLine(b) {
        line, character := line + 1, 0;
      } else {
        character := character + 1;
      }
    }

    /** The rest of a string, its bytes counted. */
    method ReadString(offset: nat) returns (eof: bool)
      requires Located() && Tracked() && inString && i <= offset
      requires marks != [] && !IsComma(marks[|marks| - 1]) && RightBehindLast()
      modifies this
      ensures Located() && Tracked() && indx >= old(indx) && i <= offset && RightBehindLast()
      ensures marks != [] && !IsComma(marks[|marks| - 1]) && !commented
      ensures eof ==> indx == |buf|
      ensures !eof && i < offset ==> !inString
    {
      hide NewLines, Column, MarksFrom, DeliveredCount, CommentedDrops;
      InString(buf, indx, commented);
      commented := false;
      while i < offset
        invariant Located() && Tracked() && indx >= old(indx) && i <= offset && inString && !commented
        invariant marks != [] && !IsComma(marks[|marks| - 1]) && RightBehindLast()
        decreases |buf| - indx
      {
        if indx >= |buf| {
          return true;
        }
        PassMark(buf, marks, indx, true, false);
        var b := Advance();
        i := i + 1;
        marks, inString := marks + [Mark(b, true, false)], b != '"';
        if b == '"' {
          return false;
        }
      }
      return false;
    }

    /** The rest of a line comment, nothing counted. */
    method ReadLineComment(offset: nat) returns (eof: bool)
      requires Located() && i < offset
      modifies this`indx, this`line, this`character
      ensures Located() && indx == LineFrom(buf, old(indx))
      ensures eof ==> indx == |buf|
    {
      hide NewLines, Column;
      while i < offset
        invariant Located() && LineFrom(buf, old(indx)) == LineFrom(buf, indx)
        decreases |buf| - indx
      {
        if indx >= |buf| {
          return true;
        }
        var b := Advance();
        if IsNewLine(b) {
          return false;
        }
      }
      assert false;
    }

    /** The rest of a block comment, nothing counted; a star's successor is read and put back. */
    method ReadComment(offset: nat) returns (eof: bool)
      requires Located() && i < offset && indx > 0
      modifies this`indx, this`line, this`character
      ensures Located()
      ensures eof ==> indx == |buf| && BlockFrom(buf, old(indx) + 1) == None
      ensures !eof ==> BlockFrom(buf, old(indx) + 1) == Some(indx)
    {
      hide NewLines, Column;
      while i < offset
        invariant Located() && indx >= old(indx)
        invariant BlockFrom(buf, old(indx) + 1) == BlockFrom(buf, indx + 1)
        decreases |buf| - indx
      {
        if indx >= |buf| {
          return true;
        }
        var b := Advance();
        if b == '*' {
          if indx >= |buf| {
            return true;
          }
          var c := buf[indx];
          indx := indx + 1;
          if c == '/' {
            character := character + 1;
            CountSlash(buf, indx);
            return false;
          }
          indx := indx - 1;
        }
      }
      assert false;
    }

    /**
     Walks until `offset` delivered bytes are counted or the text ends.  It terminates
     although the count is taken back: every turn moves the index.
     */
    method FindOffset(offset: nat)
      requires Located() && Tracked() && indx == 0 && i == 0 && marks == [] && !inString && !commented
      modifies this
      ensures Located() && Tracked()
      ensures i == offset || indx == |buf|
      ensures i == offset && offset > 0 ==> RightBehindLast()
    {
      hide NewLines, Column, MarksFrom, DeliveredCount, CommentedDrops, LineFrom, BlockFrom;
      var lastChar: Byte := '\0';
      while i < offset
        invariant Located() && Tracked() && i <= offset
        invariant i < offset ==> !inString
        invariant i == offset && offset > 0 ==> RightBehindLast()
        invariant !inString ==>
                    (lastChar == ',' <==> marks != [] && IsComma(marks[|marks| - 1]) && !commented)
        decreases |buf| - indx
      {
        if indx >= |buf| {
          return;
        }
        ghost var start := indx;
        var b;
        b, lastChar := CountByte(offset, lastChar);
        if b == '"' {
          var eof := ReadString(offset);
          if eof {
            break;
          }
        }
        if b == '/' {
          var over := PassSlash(offset, start);
          if over {
            return;
          }
        }
      }
    }

    /** One byte outside strings: it is counted unless it is whitespace, and a dropped comma is taken back. */
    method CountByte(offset: nat, lastChar: Byte) returns (b: Byte, last: Byte)
      requires Located() && Tracked() && !inString && i < offset && indx < |buf|
      requires lastChar == ',' <==> marks != [] && IsComma(marks[|marks| - 1]) && !commented
      modifies this
      ensures Located() && indx == old(indx) + 1 && b == buf[indx - 1] && i <= offset
      ensures last == if IsWhiteSpace(b) then lastChar else b
      ensures SlashPair(buf, old(indx), '/') || SlashPair(buf, old(indx), '*') ==>
                && marks == old(marks) && !inString && commented == old(commented)
                && MarksFrom(buf, 0, false, false) == marks + MarksFrom(buf, old(indx), false, commented)
                && i == DeliveredCount(marks) + CommentedDrops(marks) + 1
      ensures !(SlashPair(buf, old(indx), '/') || SlashPair(buf, old(indx), '*')) ==>
                && Tracked() && inString == (b == '"')
                && if IsWhiteSpace(b) then i == old(i) && marks == old(marks) && commented == old(commented)
                   else RightBehindLast() && !commented && marks[|marks| - 1].quoted == (b == '"')
    {
      hide NewLines, Column, MarksFrom, DeliveredCount, CommentedDrops, LineFrom, BlockFrom;
      ghost var start := indx;
      b := Advance();
      last := lastChar;
      if IsCloser(b) && lastChar == ',' {
        i := i - 1;
      }
      if !IsWhiteSpace(b) {
        i := i + 1;
        last := b;
      }
      PassByte(buf, marks, start, commented);
      if !IsWhiteSpace(b) && !(SlashPair(buf, start, '/') || SlashPair(buf, start, '*')) {
        marks, inString, commented := marks + [Mark(b, b == '"', commented)], b == '"', false;
      }
    }

    /** Behind a slash: a comment, or nothing special. */
    method PassSlash(offset: nat, ghost start: nat) returns (over: bool)
      requires Located() && indx == start + 1 && buf[start] == '/' && !inString && i <= offset
      requires
        if SlashPair(buf, start, '/') || SlashPair(buf, start, '*')
        then
          && MarksFrom(buf, 0, false, false) == marks + MarksFrom(buf, start, false, commented)
          && i == DeliveredCount(marks) + CommentedDrops(marks) + 1
        else Tracked() && RightBehindLast()
      modifies this`indx, this`line, this`character, this`i, this`commented
      ensures Located() && Tracked() && indx > start && i <= offset
      ensures i == offset ==> RightBehindLast()
      ensures over ==> indx == |buf|
      ensures commented == (old(commented) || SlashPair(buf, start, '/') || SlashPair(buf, start, '*'))
    {
      hide NewLines, Column, MarksFrom, DeliveredCount, CommentedDrops, LineFrom, BlockFrom;
      if indx >= |buf| {
        return true;
      }
      PassByte(buf, marks, start, commented);
      var c := buf[indx];
      indx := indx + 1;
      over := false;
      if c == '/' {
        CountSlash(buf, indx);
        character, i := character + 1, i - 1;
        LineFromSlashes(buf, start);
        over := ReadLineComment(offset);
        commented := true;
      } else if c == '*' {
        CountSlash(buf, indx);
        character, i := character + 1, i - 1;
        over := ReadComment(offset);
        commented := true;
        if over {
          NothingLeft(buf, commented);
        }
      } else {
        indx := indx - 1;
      }
    }
  }

  /** A star or slash moves the column on. */
  lemma CountSlash(buf: Text, n: nat)
    requires 0 < n <= |buf| && (buf[n - 1] == '/' || buf[n - 1] == '*')
    ensures NewLines(buf, n) == NewLines(buf, n - 1) && Column(buf, n) == Column(buf, n - 1) + 1
  {
  }

  lemma LineFromSlashes(buf: Text, n: nat)
    requires SlashPair(buf, n, '/')
    ensures LineFrom(buf, n) == LineFrom(buf, n + 2)
  {
    assert LineFrom(buf, n) == LineFrom(buf, n + 1);
  }

  lemma NothingLeft(buf: Text, commented: bool)
    ensures MarksFrom(buf, |buf|, false, commented) == []
  {
  }

  lemma InString(buf: Text, n: nat, commented: bool)
    requires n <= |buf|
    ensures MarksFrom(buf, n, true, commented) == MarksFrom(buf, n, true, false)
  {
  }

  /** The count after one more byte. */
  lemma CountMark(marks: seq<Mark>, m: Mark)
    ensures var all := marks + [m];
            DeliveredCount(all) + CommentedDrops(all) ==
            DeliveredCount(marks) + CommentedDrops(marks)
            + if marks != [] && IsComma(marks[|marks| - 1]) && IsBracket(m) && !m.commented then 0 else 1
  {
    var all := marks + [m];
    assert all[..|all| - 1] == marks;
  }

  /** Passing one significant byte. */
  lemma PassMark(buf: Text, marks: seq<Mark>, n: nat, inString: bool, commented: bool)
    requires n < |buf|
    requires inString || (!IsWhiteSpace(buf[n]) && !SlashPair(buf, n, '/') && !SlashPair(buf, n, '*'))
    requires inString ==> !commented
    ensures var m := if inString then Mark(buf[n], true, false) else Mark(buf[n], buf[n] == '"', commented);
            var inString' := if inString then buf[n] != '"' else buf[n] == '"';
            && marks + MarksFrom(buf, n, inString, commented) == marks + [m] + MarksFrom(buf, n + 1, inString', false)
            && DeliveredCount(marks + [m]) + CommentedDrops(marks + [m]) ==
               DeliveredCount(marks) + CommentedDrops(marks)
               + if marks != [] && IsComma(marks[|marks| - 1]) && IsBracket(m) && !m.commented then 0 else 1
  {
    hide LineFrom, BlockFrom, DeliveredCount, CommentedDrops;
    var m := if inString then Mark(buf[n], true, false) else Mark(buf[n], buf[n] == '"', commented);
    var inString' := if inString then buf[n] != '"' else buf[n] == '"';
    CountMark(marks, m);
    assert MarksFrom(buf, n, inString, commented) == [m] + MarksFrom(buf, n + 1, inString', false);
    assert marks + ([m] + MarksFrom(buf, n + 1, inString', false)) == marks + [m] + MarksFrom(buf, n + 1, inString', false);
  }

  /** Passing one byte outside strings, whatever it is. */
  lemma PassByte(buf: Text, marks: seq<Mark>, n: nat, commented: bool)
    requires n < |buf|
    ensures IsWhiteSpace(buf[n]) ==> MarksFrom(buf, n, false, commented) == MarksFrom(buf, n + 1, false, commented)
    ensures SlashPair(buf, n, '/') ==> MarksFrom(buf, n, false, commented) == MarksFrom(buf, LineFrom(buf, n), false, true)
    ensures SlashPair(buf, n, '*') ==>
              MarksFrom(buf, n, false, commented) ==
              match BlockFrom(buf, n + 3) case None => [] case Some(e) => MarksFrom(buf, e, false, true)
    ensures !IsWhiteSpace(buf[n]) && !SlashPair(buf, n, '/') && !SlashPair(buf, n, '*') ==>
              var m := Mark(buf[n], buf[n] == '"', commented);
              && marks + MarksFrom(buf, n, false, commented) ==
                 marks + [m] + MarksFrom(buf, n + 1, buf[n] == '"', false)
              && DeliveredCount(marks + [m]) + CommentedDrops(marks + [m]) ==
                 DeliveredCount(marks) + CommentedDrops(marks)
                 + if marks != [] && IsComma(marks[|marks| - 1]) && IsBracket(m) && !m.commented then 0 else 1
  {
    hide LineFrom, BlockFrom, DeliveredCount, CommentedDrops;
    if !IsWhiteSpace(buf[n]) && !SlashPair(buf, n, '/') && !SlashPair(buf, n, '*') {
      PassMark(buf, marks, n, false, commented);
    }
  }

  /** A newline count is a count of line feeds and carriage returns. */
  lemma {:induction false} NewLinesAreCounted(buf: Text, n: nat)
    requires n <= |buf|
    ensures NewLines(buf, n) == Count(buf[..n], LF) + Count(buf[..n], CR)
  {
    if n > 0 {
      NewLinesAreCounted(buf, n - 1);
      assert buf[..n] == buf[..n - 1] + [buf[n - 1]];
      CountConcat(buf[..n - 1], [buf[n - 1]], LF);
      CountConcat(buf[..n - 1], [buf[n - 1]], CR);
    }
  }

  /** Lines and columns behind the first newline, seen from there. */
  lemma {:induction false} BehindNewLine(buf: Text, i: nat, n: nat)
    requires i < n <= |buf| && IsNewLine(buf[i])
    requires forall j :: 0 <= j < i ==> !IsNewLine(buf[j])
    ensures NewLines(buf, n) == 1 + NewLines(buf[i + 1..], n - i - 1)
    ensures Column(buf, n) == Column(buf[i + 1..], n - i - 1)
    decreases n
  {
    if n == i + 1 {
      BeforeNewLine(buf, i);
    } else {
      BehindNewLine(buf, i, n - 1);
    }
  }

  lemma {:induction false} BeforeNewLine(buf: Text, n: nat)
    requires n <= |buf| && forall j :: 0 <= j < n ==> !IsNewLine(buf[j])
    ensures NewLines(buf, n) == 0 && Column(buf, n) == n
  {
    if n > 0 {
      BeforeNewLine(buf, n - 1);
    }
  }

  /** In a text without carriage returns, line number `line` is the line that position `n` is on. */
  lemma {:induction false} LineOfPosition(buf: Text, n: nat)
    requires n <= |buf| && CR !in buf
    ensures NewLines(buf, n) < |Split(buf, LF)|
    ensures Split(buf, LF)[NewLines(buf, n)] == buf[n - Column(buf, n)..n + IndexOf(buf[n..], LF)]
    decreases |buf|
  {
    hide IndexOf, Split, NewLines, Column;
    SplitStep(buf, LF);
    var i := IndexOf(buf, LF);
    assert forall j :: 0 <= j < i ==> buf[j] == buf[..i][j];
    if n <= i {
      BeforeNewLine(buf, n);
      IndexFrom(buf, n);
    } else {
      BehindNewLine(buf, i, n);
      var t, m := buf[i + 1..], n - i - 1;
      LineOfPosition(t, m);
      assert t[m..] == buf[n..];
      var c, e := Column(t, m), IndexOf(t[m..], LF);
      assert t[m - c..m + e] == buf[n - c..n + e];
      assert Split(buf, LF)[1 + NewLines(t, m)] == Split(t, LF)[NewLines(t, m)];
    }
  }

  lemma {:induction false} IndexFrom(buf: Text, n: nat)
    requires n <= IndexOf(buf, LF)
    ensures n + IndexOf(buf[n..], LF) == IndexOf(buf, LF)
    decreases n
  {
    if n == 0 {
      assert buf[0..] == buf;
    } else {
      IndexFrom(buf[1..], n - 1);
      assert buf[1..][n - 1..] == buf[n..];
    }
  }

  /** The lines counted up to `n` are an index into the lines of the text. */
  lemma LineIsAnIndex(buf: Text, n: nat)
    requires n <= |buf|
    ensures NewLines(buf, n) < |Split(buf, LF)| <==> Count(buf[..n], CR) <= Count(buf[n..], LF)
  {
    hide NewLines, Split, Count;
    NewLinesAreCounted(buf, n);
    SplitCount(buf, LF);
    CountConcat(buf[..n], buf[n..], LF);
    assert buf[..n] + buf[n..] == buf;
  }

  datatype Report =
    | AtStart
    | Around(line: nat, character: nat, text: Text)
    | Crash  // the line number is no index into the lines of the text

  /** The significant bytes, without the comment marks, are the tokens of the text. */
  lemma {:induction false} MarksAreTokens(buf: Text, n: nat, inString: bool, commented: bool)
    requires n <= |buf|
    ensures Unmarked(MarksFrom(buf, n, inString, commented)) == Lex(buf[n..], inString, PEEK_OFFSET, PEEK_OFFSET).toks
    decreases |buf| - n
  {
    hide Lex, LineFrom, BlockFrom, LineEnd, BlockEnd;
    var s := buf[n..];
    LexStep(s, inString, PEEK_OFFSET, PEEK_OFFSET);
    LineFromIsLineEnd(buf, n);
    BlockFromIsBlockEnd(buf, n, PEEK_OFFSET);
    if n < |buf| {
      assert s[1..] == buf[n + 1..];
      if !inString && SlashPair(buf, n, '/') {
        var e := LineFrom(buf, n);
        assert s[LineEnd(s)..] == buf[e..];
        MarksAreTokens(buf, e, false, true);
      } else if !inString && SlashPair(buf, n, '*') {
        var e := BlockFrom(buf, n + PEEK_OFFSET);
        if e.Some? {
          assert s[BlockEnd(s, PEEK_OFFSET).value..] == buf[e.value..];
          MarksAreTokens(buf, e.value, false, true);
        } else {
          UnclosedHasNoTokens(s);
        }
      } else if !inString && IsWhiteSpace(buf[n]) {
        MarksAreTokens(buf, n + 1, false, commented);
      } else {
        MarksAreTokens(buf, n + 1, if inString then buf[n] != '"' else buf[n] == '"', false);
        UnmarkedStep(MarksFrom(buf, n, inString, commented));
      }
    }
  }

  /** What one more token adds to the delivered bytes. */
  lemma {:induction false} DropSnoc(toks: seq<Token>, t: Token)
    ensures var comma := toks != [] && toks[|toks| - 1] == Token(',', false);
            |Drop(toks + [t])| ==
            |Drop(toks)| + (if comma && !(IsCloser(t.b) && !t.quoted) then 1 else 0)
            + (if t == Token(',', false) then 0 else 1)
    decreases |toks|
  {
    var all := toks + [t];
    if toks == [] {
      assert all == [t] && all[1..] == [];
    } else {
      assert all[1..] == toks[1..] + [t];
      DropSnoc(toks[1..], t);
    }
  }

  lemma {:induction false} UnmarkedSnoc(marks: seq<Mark>, m: Mark)
    ensures Unmarked(marks + [m]) == Unmarked(marks) + [Token(m.b, m.quoted)]
    decreases |marks|
  {
    if marks != [] {
      assert (marks + [m])[1..] == marks[1..] + [m];
      UnmarkedSnoc(marks[1..], m);
    }
  }

  /** The count is that of the delivered stream, but for a comma that is still undecided at the end. */
  lemma {:induction false} CountIsStream(marks: seq<Mark>)
    ensures DeliveredCount(marks) ==
            |Drop(Unmarked(marks))| + if marks != [] && IsComma(marks[|marks| - 1]) then 1 else 0
    decreases |marks|
  {
    hide Drop;
    if marks == [] {
      NoTokens();
    } else {
      var init, m := marks[..|marks| - 1], marks[|marks| - 1];
      assert marks == init + [m];
      CountIsStream(init);
      UnmarkedSnoc(init, m);
      DropSnoc(Unmarked(init), Token(m.b, m.quoted));
      if init != [] {
        var init', m' := init[..|init| - 1], init[|init| - 1];
        assert init == init' + [m'];
        UnmarkedSnoc(init', m');
      }
    }
  }

  lemma NoTokens()
    ensures Drop([]) == []
  {
  }

  lemma NothingPassed(buf: Text)
    ensures MarksFrom(buf, 0, false, false) == [] + MarksFrom(buf, 0, false, false)
    ensures DeliveredCount([]) + CommentedDrops([]) == 0
  {
  }

  function Unmarked(marks: seq<Mark>): seq<Token> {
    if marks == [] then [] else [Token(marks[0].b, marks[0].quoted)] + Unmarked(marks[1..])
  }

  lemma UnmarkedStep(marks: seq<Mark>)
    requires marks != []
    ensures Unmarked(marks) == [Token(marks[0].b, marks[0].quoted)] + Unmarked(marks[1..])
  {
  }

  lemma UnclosedHasNoTokens(s: Text)
    requires OpensBlockComment(s) && BlockEnd(s, PEEK_OFFSET).None?
    ensures Lex(s, false, PEEK_OFFSET, PEEK_OFFSET).toks == []
  {
    hide LineEnd, BlockEnd;
  }

  // ----- the position in the delivered stream

  /** A comma passed last is followed by something that keeps it. */
  predicate CommaIsKept(passed: seq<Mark>, ahead: seq<Mark>) {
    passed != [] && IsComma(passed[|passed| - 1]) ==> ahead != [] && !IsBracket(ahead[0])
  }

  /** Dropping commas, the last one taken as kept. */
  function DropKept(toks: seq<Token>): seq<Token> {
    Drop(toks) + if toks != [] && toks[|toks| - 1] == Token(',', false) then [Token(',', false)] else []
  }

  lemma {:induction false} DropConcat(a: seq<Token>, b: seq<Token>)
    requires a != [] && a[|a| - 1] == Token(',', false) ==> b != [] && !(IsCloser(b[0].b) && !b[0].quoted)
    ensures Drop(a + b) == DropKept(a) + Drop(b)
    decreases |a|
  {
    if a == [] {
      assert a + b == b;
    } else {
      hide TrailingComma;
      assert (a + b)[1..] == a[1..] + b;
      DropConcat(a[1..], b);
      TrailingInFront(a, b);
      var comma := Token(',', false);
      if |a| == 1 {
        assert a[1..] == [] && DropKept([]) + Drop(b) == Drop(b);
        assert Drop(a + b) == [a[0]] + Drop(b);
        assert Drop(a) == if a[0] == comma then [] else [a[0]];
      } else {
        assert a[1..][|a| - 2] == a[|a| - 1];
        if !TrailingComma(a) {
          assert [a[0]] + (DropKept(a[1..]) + Drop(b)) == ([a[0]] + DropKept(a[1..])) + Drop(b);
          var kept := if a[|a| - 1] == comma then [comma] else [];
          assert [a[0]] + (Drop(a[1..]) + kept) == ([a[0]] + Drop(a[1..])) + kept;
        }
      }
    }
  }

  /** Whether the first token is dropped, with more tokens behind. */
  lemma TrailingInFront(a: seq<Token>, b: seq<Token>)
    requires a != []
    requires a[|a| - 1] == Token(',', false) ==> b != [] && !(IsCloser(b[0].b) && !b[0].quoted)
    ensures |a| > 1 ==> TrailingComma(a + b) == TrailingComma(a)
    ensures |a| == 1 ==> !TrailingComma(a + b) && (TrailingComma(a) <==> a[0] == Token(',', false))
  {
  }

  /** The last byte is delivered last. */
  lemma {:induction false} DropKeptLast(a: seq<Token>)
    requires a != []
    ensures DropKept(a) != [] && DropKept(a)[|DropKept(a)| - 1] == a[|a| - 1]
    decreases |a|
  {
    if |a| == 1 {
      assert a[1..] == [];
    } else {
      DropKeptLast(a[1..]);
    }
  }

  lemma {:induction false} UnmarkedConcat(a: seq<Mark>, b: seq<Mark>)
    ensures Unmarked(a + b) == Unmarked(a) + Unmarked(b)
    decreases |a|
  {
    if a == [] {
      assert a + b == b;
    } else {
      assert (a + b)[1..] == a[1..] + b;
      UnmarkedConcat(a[1..], b);
    }
  }

  lemma {:induction false} BytesConcat(a: seq<Token>, b: seq<Token>)
    ensures Bytes(a + b) == Bytes(a) + Bytes(b)
    decreases |a|
  {
    if a == [] {
      assert a + b == b;
    } else {
      assert (a + b)[1..] == a[1..] + b;
      BytesConcat(a[1..], b);
    }
  }

  lemma {:induction false} BytesLast(a: seq<Token>)
    requires a != []
    ensures Bytes(a)[|a| - 1] == a[|a| - 1].b
    decreases |a|
  {
    if |a| > 1 {
      BytesLast(a[1..]);
    }
  }

  lemma UnmarkedLast(marks: seq<Mark>)
    requires marks != []
    ensures Unmarked(marks) != []
    ensures var toks, m := Unmarked(marks), marks[|marks| - 1]; toks[|toks| - 1] == Token(m.b, m.quoted)
  {
    hide Unmarked;
    var init, m := marks[..|marks| - 1], marks[|marks| - 1];
    assert marks == init + [m];
    UnmarkedSnoc(init, m);
  }

  lemma UnmarkedFirst(marks: seq<Mark>)
    ensures marks == [] <==> Unmarked(marks) == []
    ensures marks != [] ==> Unmarked(marks)[0] == Token(marks[0].b, marks[0].quoted)
  {
  }

  /** What is delivered in all, seen from the bytes passed and those ahead. */
  lemma StreamSplit(passed: seq<Mark>, ahead: seq<Mark>)
    requires passed != [] && CommaIsKept(passed, ahead)
    ensures var out, n := Bytes(Drop(Unmarked(passed + ahead))), DeliveredCount(passed);
            && 0 < n <= |out| && out[n - 1] == passed[|passed| - 1].b
            && out[n..] == Bytes(Drop(Unmarked(ahead)))
  {
    hide Drop, Unmarked, Bytes, DeliveredCount;
    var a, b := Unmarked(passed), Unmarked(ahead);
    UnmarkedConcat(passed, ahead);
    UnmarkedLast(passed);
    UnmarkedFirst(ahead);
    DropConcat(a, b);
    DropKeptLast(a);
    BytesConcat(DropKept(a), Drop(b));
    BytesLast(DropKept(a));
    CountIsStream(passed);
  }

  /**
   In a text whose comments close where they should: the position behind `passed` stands
   right behind a byte of the stream, and the rest of the stream is what lies ahead.
   */
  lemma PositionInStream(buf: Text, passed: seq<Mark>, pos: nat, inString: bool, commented: bool)
    requires pos <= |buf| && MarksFrom(buf, 0, false, false) == passed + MarksFrom(buf, pos, inString, commented)
    requires EmptyCommentsFollowCommas(buf, false, false)
    requires passed != [] && CommaIsKept(passed, MarksFrom(buf, pos, inString, commented))
    ensures var out, n := Strip(buf, false).out, DeliveredCount(passed);
            && 0 < n <= |out| && out[n - 1] == passed[|passed| - 1].b
            && out[n..] == Bytes(Drop(Unmarked(MarksFrom(buf, pos, inString, commented))))
  {
    hide Drop, Unmarked, Bytes, DeliveredCount, MarksFrom, Lex, Strip;
    StripIsTwoPass(buf, false);
    CorrectCommentsLex(buf, false, false);
    MarksAreTokens(buf, 0, false, false);
    assert buf[0..] == buf;
    SameTokens(buf);
    StreamSplit(passed, MarksFrom(buf, pos, inString, commented));
  }

  lemma SameTokens(buf: Text)
    requires Lex(buf, false, READ_OFFSET, READ_OFFSET) == Lex(buf, false, PEEK_OFFSET, PEEK_OFFSET)
    ensures Lex(buf, false, READ_OFFSET, READ_OFFSET).toks == Lex(buf, false, PEEK_OFFSET, PEEK_OFFSET).toks
  {
  }

  /** The position stands right behind byte number `offset` of the stream that the text delivers. */
  ghost predicate StandsAt(buf: Text, pos: nat, offset: nat) {
    var out := Strip(buf, false).out;
    0 < offset <= |out| && 0 < pos <= |buf| && out[offset - 1] == buf[pos - 1]
  }

  /**
   The report for an error at stream offset `offset`, and the position it was made at.
   Carriage returns count as lines although lines are split at line feeds only: the
   report crashes exactly when more of them precede the position than line feeds follow.
   Unless the text ends first, the bytes delivered up to the position and the dropped
   commas that a comment separates from their bracket add up to the offset.
   */
  method HandleJsonError(buf: Text, offset: nat)
    returns (r: Report, pos: nat, ghost passed: seq<Mark>, ghost inString: bool, ghost commented: bool)
    ensures pos <= |buf|
    ensures MarksFrom(buf, 0, false, false) == passed + MarksFrom(buf, pos, inString, commented)
    ensures DeliveredCount(passed) + CommentedDrops(passed) == offset || pos == |buf|
    ensures EmptyCommentsFollowCommas(buf, false, false) && offset > 0 && DeliveredCount(passed) == offset ==>
              CommentedDrops(passed) == 0 && CommaIsKept(passed, MarksFrom(buf, pos, inString, commented)) ==>
                && StandsAt(buf, pos, offset)
                && Strip(buf, false).out[offset..] == Bytes(Drop(Unmarked(MarksFrom(buf, pos, inString, commented))))
    ensures offset == 0 <==> r == AtStart
    ensures r == Crash <==> offset != 0 && Count(buf[..pos], CR) > Count(buf[pos..], LF)
    ensures r.Around? ==>
              && r.line == 1 + NewLines(buf, pos) && r.character == Column(buf, pos)
              && r.line - 1 < |Split(buf, LF)| && r.text == Split(buf, LF)[r.line - 1]
    ensures CR !in buf && offset != 0 ==>
              && r.Around?
              && r.text == buf[pos - Column(buf, pos)..pos + IndexOf(buf[pos..], LF)]
  {
    hide NewLines, Column, Split, IndexOf, Count, MarksFrom, DeliveredCount, CommentedDrops;
    hide Strip, Bytes, Drop, Unmarked, EmptyCommentsFollowCommas, CommaIsKept;
    if offset == 0 {
      NothingPassed(buf);
      return AtStart, 0, [], false, false;
    }
    var locator := new Locator(buf);
    locator.FindOffset(offset);
    pos, passed, inString, commented := locator.indx, locator.marks, locator.inString, locator.commented;
    if EmptyCommentsFollowCommas(buf, false, false) && DeliveredCount(passed) == offset && CommentedDrops(passed) == 0
       && CommaIsKept(passed, MarksFrom(buf, pos, inString, commented)) {
      PositionInStream(buf, passed, pos, inString, commented);
    }
    LineIsAnIndex(buf, pos);
    if CR !in buf {
      LineOfPosition(buf, pos);
    }
    var parts := Split(buf, LF);
    if locator.line - 1 < |parts| {
      r := Around(locator.line, locator.character, parts[locator.line - 1]);
    } else {
      r := Crash;
    }
  }
}
