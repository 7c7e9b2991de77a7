/**
 What a whole run of reads delivers: independence of the chunk sizes, and the
 streaming reader as a two-pass function (lexing, then dropping commas).
 */
module RjStream {
  import opened Wrappers
  import opened RjLexical

  // ----- chunking

  /** Reads of the given sizes, one after the other, until one of them fails. */
  function ReadChunks(env: Environment, s: Text, inString: bool, sizes: seq<nat>): Delivered
    decreases sizes
  {
    if sizes == [] then Delivered([], s, inString, None)
    else
      var d := Run(env, s, inString, sizes[0]);
      if d.error.Some? then d
      else
        After(d.out, ReadChunks(env, d.rest, d.inString, sizes[1..]))
  }

  function Sum(sizes: seq<nat>): nat {
    if sizes == [] then 0 else sizes[0] + Sum(sizes[1..])
  }

  /** Reading m + n bytes is reading m and then n. */
  lemma {:induction false} RunSplit(env: Environment, s: Text, inString: bool, m: nat, n: nat)
    ensures var d := Run(env, s, inString, m);
            Run(env, s, inString, m + n) ==
            if d.error.Some? then d else After(d.out, Run(env, d.rest, d.inString, n))
    decreases m
  {
    hide Step, Run;
    RunStep(env, s, inString, m);
    RunStep(env, s, inString, m + n);
    if m > 0 && Step(env, s, inString).Got? {
      var Got(b, rest, inStr) := Step(env, s, inString);
      RunSplit(env, rest, inStr, m - 1, n);
      var d' := Run(env, rest, inStr, m - 1);
      if d'.error.None? {
        var later := Run(env, d'.rest, d'.inString, n);
        assert [b] + (d'.out + later.out) == ([b] + d'.out) + later.out;
      }
    }
  }

  /** Any sequence of reads delivers what one read of the total size delivers. */
  lemma {:induction false} ChunkIndependence(env: Environment, s: Text, inString: bool, sizes: seq<nat>)
    ensures ReadChunks(env, s, inString, sizes) == Run(env, s, inString, Sum(sizes))
    decreases sizes
  {
    if sizes != [] {
      hide Step;
      RunSplit(env, s, inString, sizes[0], Sum(sizes[1..]));
      var d := Run(env, s, inString, sizes[0]);
      if d.error.None? {
        ChunkIndependence(env, d.rest, d.inString, sizes[1..]);
      }
    }
  }

  // ----- two passes

  /** A significant byte; the bytes of a string, its quotes included, are quoted. */
  datatype Token = Token(b: Byte, quoted: bool)

  datatype Tokens = Tokens(toks: seq<Token>, error: Error)

  /** The close offset that applies behind the unquoted byte `b`; `r` is that of the reading path. */
  function OffsetAfter(b: Byte, r: nat): nat {
    if b == ',' then PEEK_OFFSET else r
  }

  /** First pass: layout and comments outside strings vanish, nothing else does. */
  function Lex(s: Text, inString: bool, k: nat, r: nat): Tokens
    requires k >= 3 && r >= 3
    decreases |s|
  {
    if inString then
      if s == [] then Tokens([], Eof)
      else
        var tail := Lex(s[1..], s[0] != '"', r, r);
        Tokens([Token(s[0], true)] + tail.toks, tail.error)
    else
      match Skip(s, k)
      case Done(e) => Tokens([], e)
      case More(t) =>
        var tail := Lex(t[1..], t[0] == '"', OffsetAfter(t[0], r), r);
        Tokens([Token(t[0], t[0] == '"')] + tail.toks, tail.error)
  }

  /** Is the first token a comma before a closing bracket or the end? */
  predicate TrailingComma(toks: seq<Token>) {
    && toks != [] && toks[0] == Token(',', false)
    && (|toks| == 1 || toks[1] == Token(']', false) || toks[1] == Token('}', false))
  }

  /** Second pass: trailing commas vanish, nothing else does. */
  function Drop(toks: seq<Token>): seq<Token> {
    if toks == [] then []
    else if TrailingComma(toks) then Drop(toks[1..])
    else [toks[0]] + Drop(toks[1..])
  }

  function Bytes(toks: seq<Token>): (t: Text)
    ensures |t| == |toks|
  {
    if toks == [] then [] else [toks[0].b] + Bytes(toks[1..])
  }

  /** Where skipping has stopped, every offset stops. */
  lemma {:induction false} SkipStays(s: Text, k: nat, k': nat)
    requires k >= 3 && k' >= 3
    ensures Skip(s, k).More? ==>
              var t := Skip(s, k).rest;
              t != [] && !IsWhiteSpace(t[0]) && !OpensComment(t) && Skip(t, k') == More(t)
    decreases |s|
  {
    hide Skip, LineEnd, BlockEnd;
    SkipStep(s, k);
    SkipStep(s, k');
    if s != [] {
      if IsWhiteSpace(s[0]) {
        SkipStays(s[1..], k, k');
      } else if OpensLineComment(s) {
        SkipStays(s[LineEnd(s)..], k, k');
      } else if OpensBlockComment(s) {
        var e := BlockEnd(s, k);
        if e.Some? {
          SkipStays(s[e.value..], k, k');
        }
      }
    }
  }

  /** A token list that starts where skipping has stopped does not depend on the offset. */
  lemma LexStays(s: Text, k: nat, k': nat, r: nat)
    requires k >= 3 && k' >= 3 && r >= 3 && Skip(s, k).More?
    ensures var t := Skip(s, k).rest;
            Lex(s, false, k, r) == Lex(t, false, k', r)
  {
    SkipStays(s, k, k');
    var t := Skip(s, k).rest;
    assert Skip(t, k') == More(t);
  }

  /** The streaming reader delivers exactly the two passes. */
  lemma {:induction false} StripIsTwoPass(s: Text, inString: bool)
    ensures var lx := Lex(s, inString, READ_OFFSET, READ_OFFSET);
            Strip(s, inString) == Stream(Bytes(Drop(lx.toks)), lx.error)
    decreases |s|
  {
    hide Skip;
    if inString {
      if s != [] {
        StripIsTwoPass(s[1..], s[0] != '"');
      }
    } else {
      var first := Skip(s, READ_OFFSET);
      if first.More? {
        var t := first.rest;
        if t[0] != ',' {
          StripIsTwoPass(t[1..], t[0] == '"');
        } else {
          CommaCase(s, t);
          var second := Skip(t[1..], PEEK_OFFSET);
          if second.More? {
            var u := second.rest;
            StripIsTwoPass(if IsCloser(u[0]) then u[1..] else u, false);
          }
        }
      }
    }
  }

  /** The token list behind an unquoted comma, seen from the byte the comma's look-ahead stops at. */
  lemma CommaCase(s: Text, t: Text)
    requires Skip(s, READ_OFFSET) == More(t) && t != [] && t[0] == ','
    ensures var lx := Lex(s, false, READ_OFFSET, READ_OFFSET);
            match Skip(t[1..], PEEK_OFFSET)
            case Done(e) => lx == Tokens([Token(',', false)], e)
            case More(u) =>
              var behind := Lex(u, false, READ_OFFSET, READ_OFFSET);
              && lx == Tokens([Token(',', false)] + behind.toks, behind.error)
              && (IsCloser(u[0]) ==>
                    var tail := Lex(u[1..], false, READ_OFFSET, READ_OFFSET);
                    behind == Tokens([Token(u[0], false)] + tail.toks, tail.error))
              && behind.toks != [] && behind.toks[0] == Token(u[0], u[0] == '"')
  {
    hide Skip;
    var second := Skip(t[1..], PEEK_OFFSET);
    if second.More? {
      SkipStays(t[1..], PEEK_OFFSET, READ_OFFSET);
      LexStays(t[1..], PEEK_OFFSET, READ_OFFSET, READ_OFFSET);
    }
  }

  // ----- comments that close where they should

  /** A close found from one byte further on is the same one, unless the comment is empty. */
  lemma OffsetsAgree(s: Text)
    requires OpensBlockComment(s)
    ensures BlockEnd(s, READ_OFFSET) == BlockEnd(s, PEEK_OFFSET) <==>
            !(|s| > 3 && s[2] == '*' && s[3] == '/')
  {
  }

  /** Scanning the layout in front of `s` on the reading path, is an empty block comment met? */
  predicate MeetsEmptyComment(s: Text)
    decreases |s|
  {
    if s == [] then false
    else if IsWhiteSpace(s[0]) then MeetsEmptyComment(s[1..])
    else if OpensLineComment(s) then MeetsEmptyComment(s[LineEnd(s)..])
    else if OpensBlockComment(s) then
      || (|s| > 3 && s[2] == '*' && s[3] == '/')
      || (BlockEnd(s, PEEK_OFFSET).Some? && MeetsEmptyComment(s[BlockEnd(s, PEEK_OFFSET).value..]))
    else false
  }

  /** Every empty block comment outside strings follows a comma, up to layout. */
  predicate EmptyCommentsFollowCommas(s: Text, inString: bool, afterComma: bool)
    decreases |s|
  {
    if inString then s == [] || EmptyCommentsFollowCommas(s[1..], s[0] != '"', false)
    else
      && (afterComma || !MeetsEmptyComment(s))
      && match Skip(s, PEEK_OFFSET)
         case Done(_) => true
         case More(t) => EmptyCommentsFollowCommas(t[1..], t[0] == '"', t[0] == ',')
  }

  lemma {:induction false} SkipOffsetsAgree(s: Text)
    requires !MeetsEmptyComment(s)
    ensures Skip(s, READ_OFFSET) == Skip(s, PEEK_OFFSET)
    decreases |s|
  {
    hide Skip, LineEnd, BlockEnd;
    SkipStep(s, READ_OFFSET);
    SkipStep(s, PEEK_OFFSET);
    if s != [] {
      if IsWhiteSpace(s[0]) {
        SkipOffsetsAgree(s[1..]);
      } else if OpensLineComment(s) {
        SkipOffsetsAgree(s[LineEnd(s)..]);
      } else if OpensBlockComment(s) {
        OffsetsAgree(s);
        if BlockEnd(s, PEEK_OFFSET).Some? {
          SkipOffsetsAgree(s[BlockEnd(s, PEEK_OFFSET).value..]);
        }
      }
    }
  }

  /** Every block comment in front of `s`, closed with offset `k`, ends at the first star-slash behind its opening. */
  predicate LayoutClosesRight(s: Text, k: nat)
    requires k >= 3
    decreases |s|
  {
    if s == [] then true
    else if IsWhiteSpace(s[0]) then LayoutClosesRight(s[1..], k)
    else if OpensLineComment(s) then LayoutClosesRight(s[LineEnd(s)..], k)
    else if OpensBlockComment(s) then
      && BlockEnd(s, k) == BlockEnd(s, PEEK_OFFSET)
      && (BlockEnd(s, k).Some? ==> LayoutClosesRight(s[BlockEnd(s, k).value..], k))
    else true
  }

  /** Every block comment that the reader meets ends at the first star-slash behind its opening. */
  predicate CommentsCloseRight(s: Text, inString: bool, k: nat)
    requires k >= 3
    decreases |s|
  {
    if inString then s == [] || CommentsCloseRight(s[1..], s[0] != '"', READ_OFFSET)
    else
      && LayoutClosesRight(s, k)
      && match Skip(s, k)
         case Done(_) => true
         case More(t) => CommentsCloseRight(t[1..], t[0] == '"', OffsetAfter(t[0], READ_OFFSET))
  }

  lemma {:induction false} LayoutClosesExactly(s: Text)
    ensures LayoutClosesRight(s, READ_OFFSET) <==> !MeetsEmptyComment(s)
    ensures LayoutClosesRight(s, PEEK_OFFSET)
    decreases |s|
  {
    hide LineEnd, BlockEnd;
    if s != [] {
      if IsWhiteSpace(s[0]) {
        LayoutClosesExactly(s[1..]);
      } else if OpensLineComment(s) {
        LayoutClosesExactly(s[LineEnd(s)..]);
      } else if OpensBlockComment(s) {
        OffsetsAgree(s);
        if BlockEnd(s, PEEK_OFFSET).Some? {
          LayoutClosesExactly(s[BlockEnd(s, PEEK_OFFSET).value..]);
        }
      }
    }
  }

  /**
   Every block comment the reader meets ends at the first star-slash behind its opening if
   and only if empty block comments stand behind commas only.
   */
  lemma {:induction false} CommentsCloseCorrectly(s: Text, inString: bool, afterComma: bool)
    ensures CommentsCloseRight(s, inString, if afterComma then PEEK_OFFSET else READ_OFFSET) <==>
            EmptyCommentsFollowCommas(s, inString, afterComma)
    decreases |s|
  {
    hide Skip, MeetsEmptyComment, LayoutClosesRight;
    if inString {
      if s != [] {
        CommentsCloseCorrectly(s[1..], s[0] != '"', false);
      }
    } else {
      LayoutClosesExactly(s);
      if afterComma || !MeetsEmptyComment(s) {
        if !afterComma {
          SkipOffsetsAgree(s);
        }
        match Skip(s, PEEK_OFFSET)
        case Done(_) =>
        case More(t) => CommentsCloseCorrectly(t[1..], t[0] == '"', t[0] == ',');
      }
    }
  }

  /** Then the tokens are those of a reader that always looks for the first star-slash. */
  lemma {:induction false} CorrectCommentsLex(s: Text, inString: bool, afterComma: bool)
    requires EmptyCommentsFollowCommas(s, inString, afterComma)
    ensures Lex(s, inString, if afterComma then PEEK_OFFSET else READ_OFFSET, READ_OFFSET) ==
            Lex(s, inString, PEEK_OFFSET, PEEK_OFFSET)
    decreases |s|
  {
    hide Skip, MeetsEmptyComment;
    if inString {
      if s != [] {
        CorrectCommentsLex(s[1..], s[0] != '"', false);
      }
    } else {
      if !afterComma {
        SkipOffsetsAgree(s);
      }
      match Skip(s, PEEK_OFFSET)
      case Done(_) =>
      case More(t) => CorrectCommentsLex(t[1..], t[0] == '"', t[0] == ',');
    }
  }

  /** The reading path runs over the end of an empty comment: the rest of the text is lost. */
  lemma EmptyCommentSwallowsText()
    ensures var s: Text := ['/', '*', '*', '/', '1'];
            && Lex(s, false, PEEK_OFFSET, PEEK_OFFSET) == Tokens([Token('1', false)], Eof)
            && Strip(s, false) == Stream([], IncompleteComment)
  {
    var s: Text := ['/', '*', '*', '/', '1'];
    assert BlockEnd(s, 4) == BlockEnd(s, 5);
    assert BlockEnd(s, 3) == Some(4);
    assert s[4..] == ['1'];
    assert Lex([], false, PEEK_OFFSET, PEEK_OFFSET) == Tokens([], Eof);
  }
}
