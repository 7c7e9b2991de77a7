/**
 Layout does not matter, and when a second reading changes nothing: two laws of the
 delivered stream, for every text.
 */
module RjLayout {
  import opened Wrappers
  import opened RjLexical
  import opened RjComments
  import opened RjStream

  // ----- inserting layout

  /** Whitespace, newline-terminated line comments and closed non-empty block comments. */
  predicate IsLayout(w: Text)
    decreases |w|
  {
    if w == [] then true
    else if IsWhiteSpace(w[0]) then IsLayout(w[1..])
    else if OpensLineComment(w) then IsNewLine(w[LineEnd(w) - 1]) && IsLayout(w[LineEnd(w)..])
    else
      && OpensBlockComment(w)
      && BlockEnd(w, PEEK_OFFSET).Some?
      && BlockEnd(w, PEEK_OFFSET).value > 4
      && IsLayout(w[BlockEnd(w, PEEK_OFFSET).value..])
  }

  predicate IsOffset(k: nat) {
    k == READ_OFFSET || k == PEEK_OFFSET
  }

  /** A closed line comment in front of a text. */
  lemma LineInFront(w: Text, x: Text)
    requires OpensLineComment(w) && IsNewLine(w[LineEnd(w) - 1])
    ensures OpensLineComment(w + x) && LineEnd(w + x) == LineEnd(w)
    ensures (w + x)[LineEnd(w)..] == w[LineEnd(w)..] + x
  {
    hide LineEnd;
    var e, t := LineEnd(w), w + x;
    assert e == |w| ==> IsNewLine(w[|w| - 1]);
    LineEndPrefix(w, w[e..] + x);
    assert t == w[..e] + (w[e..] + x);
    assert t[e..] == w[e..] + x;
  }

  lemma BlockInFront(w: Text, x: Text, k: nat)
    requires k >= 3 && OpensBlockComment(w) && BlockEnd(w, k).Some?
    ensures OpensBlockComment(w + x) && BlockEnd(w + x, k) == BlockEnd(w, k)
    ensures (w + x)[BlockEnd(w, k).value..] == w[BlockEnd(w, k).value..] + x
  {
    hide BlockEnd;
    var e, t := BlockEnd(w, k).value, w + x;
    BlockEndPrefix(w, k, w[e..] + x);
    assert t == w[..e] + (w[e..] + x);
    assert t[e..] == w[e..] + x;
  }

  lemma {:induction false} LayoutIsSkipped(w: Text, x: Text, k: nat)
    requires IsLayout(w) && IsOffset(k)
    ensures Skip(w + x, k) == Skip(x, k)
    decreases |w|
  {
    hide Skip, LineEnd, BlockEnd;
    SkipStep(w + x, k);
    if w == [] {
      assert w + x == x;
    } else if IsWhiteSpace(w[0]) {
      assert (w + x)[1..] == w[1..] + x;
      LayoutIsSkipped(w[1..], x, k);
    } else if OpensLineComment(w) {
      LineInFront(w, x);
      LayoutIsSkipped(w[LineEnd(w)..], x, k);
    } else {
      SameOffset(w, k);
      BlockInFront(w, x, k);
      LayoutIsSkipped(w[BlockEnd(w, k).value..], x, k);
    }
  }

  lemma SameOffset(w: Text, k: nat)
    requires OpensBlockComment(w) && IsOffset(k) && BlockEnd(w, PEEK_OFFSET).Some?
    requires BlockEnd(w, PEEK_OFFSET).value > 4
    ensures BlockEnd(w, k) == BlockEnd(w, PEEK_OFFSET)
  {
    OffsetsAgree(w);
  }

  /** One unfolding of Lex, byte by byte rather than token by token. */
  lemma LexStep(s: Text, inString: bool, k: nat, r: nat)
    requires k >= 3 && r >= 3
    ensures inString && s != [] ==>
              var tail := Lex(s[1..], s[0] != '"', r, r);
              Lex(s, inString, k, r) == Tokens([Token(s[0], true)] + tail.toks, tail.error)
    ensures s == [] ==> Lex(s, inString, k, r) == Tokens([], Eof)
    ensures !inString && s != [] && IsWhiteSpace(s[0]) ==> Lex(s, inString, k, r) == Lex(s[1..], false, k, r)
    ensures !inString && OpensLineComment(s) ==> Lex(s, inString, k, r) == Lex(s[LineEnd(s)..], false, k, r)
    ensures !inString && OpensBlockComment(s) && BlockEnd(s, k).Some? ==>
              Lex(s, inString, k, r) == Lex(s[BlockEnd(s, k).value..], false, k, r)
    ensures !inString && s != [] && !IsWhiteSpace(s[0]) && !OpensComment(s) ==>
              var tail := Lex(s[1..], s[0] == '"', OffsetAfter(s[0], r), r);
              Lex(s, inString, k, r) == Tokens([Token(s[0], s[0] == '"')] + tail.toks, tail.error)
  {
    hide Skip, LineEnd, BlockEnd;
    SkipStep(s, k);
  }

  /** Scanning `s`, position `i` is outside strings and comments, and not behind a bare slash. */
  predicate Boundary(s: Text, inString: bool, k: nat, r: nat, i: nat)
    requires k >= 3 && r >= 3
    decreases |s|
  {
    if i == 0 then !inString
    else if s == [] then false
    else if inString then Boundary(s[1..], s[0] != '"', r, r, i - 1)
    else if IsWhiteSpace(s[0]) then Boundary(s[1..], false, k, r, i - 1)
    else if OpensLineComment(s) then
      && LineEnd(s) <= i && IsNewLine(s[LineEnd(s) - 1])
      && Boundary(s[LineEnd(s)..], false, k, r, i - LineEnd(s))
    else if OpensBlockComment(s) then
      && BlockEnd(s, k).Some? && BlockEnd(s, k).value <= i
      && Boundary(s[BlockEnd(s, k).value..], false, k, r, i - BlockEnd(s, k).value)
    else
      && !(s[0] == '/' && i == 1)
      && Boundary(s[1..], s[0] == '"', OffsetAfter(s[0], r), r, i - 1)
  }

  lemma {:induction false} BoundaryInRange(s: Text, inString: bool, k: nat, r: nat, i: nat)
    requires k >= 3 && r >= 3 && Boundary(s, inString, k, r, i)
    ensures i <= |s|
    decreases |s|
  {
    hide LineEnd, BlockEnd;
    if i > 0 {
      if inString {
        BoundaryInRange(s[1..], s[0] != '"', r, r, i - 1);
      } else if IsWhiteSpace(s[0]) {
        BoundaryInRange(s[1..], false, k, r, i - 1);
      } else if OpensLineComment(s) {
        BoundaryInRange(s[LineEnd(s)..], false, k, r, i - LineEnd(s));
      } else if OpensBlockComment(s) {
        BoundaryInRange(s[BlockEnd(s, k).value..], false, k, r, i - BlockEnd(s, k).value);
      } else {
        BoundaryInRange(s[1..], s[0] == '"', OffsetAfter(s[0], r), r, i - 1);
      }
    }
  }

  function Insert(s: Text, i: nat, w: Text): Text
    requires i <= |s|
  {
    s[..i] + w + s[i..]
  }

  /** An insertion behind the first `e` bytes leaves those bytes alone. */
  lemma InsertBehind(s: Text, i: nat, w: Text, e: nat)
    requires e <= i <= |s|
    ensures Insert(s, i, w) == s[..e] + Insert(s[e..], i - e, w)
    ensures Insert(s, i, w)[e..] == Insert(s[e..], i - e, w)
  {
    assert s[..i] == s[..e] + s[e..][..i - e];
    assert s[i..] == s[e..][i - e..];
  }

  /** Layout inserted at a boundary changes no token. */
  lemma {:induction false} InsertLayout(s: Text, inString: bool, k: nat, r: nat, i: nat, w: Text)
    requires IsOffset(k) && IsOffset(r) && IsLayout(w)
    requires Boundary(s, inString, k, r, i) && i <= |s|
    ensures Lex(Insert(s, i, w), inString, k, r) == Lex(s, inString, k, r)
    decreases |s|
  {
    hide Lex, LineEnd, BlockEnd, IsLayout, Insert;
    var t := Insert(s, i, w);
    LexStep(s, inString, k, r);
    LexStep(t, inString, k, r);
    if i == 0 {
      InsertInFront(s, k, r, w);
    } else if inString {
      InsertBehind(s, i, w, 1);
      BoundaryInRange(s[1..], s[0] != '"', r, r, i - 1);
      InsertLayout(s[1..], s[0] != '"', r, r, i - 1, w);
    } else if IsWhiteSpace(s[0]) {
      InsertBehind(s, i, w, 1);
      InsertLayout(s[1..], false, k, r, i - 1, w);
    } else if OpensLineComment(s) {
      var e := LineEnd(s);
      InsertBehind(s, i, w, e);
      var y := Insert(s[e..], i - e, w);
      LineEndIsNewLine(s);
      LineEndPrefix(s, y);
      assert t[0] == '/' && t[1] == '/';
      InsertLayout(s[e..], false, k, r, i - e, w);
    } else if OpensBlockComment(s) {
      var e := BlockEnd(s, k).value;
      InsertBehind(s, i, w, e);
      var y := Insert(s[e..], i - e, w);
      BlockEndPrefix(s, k, y);
      assert t[0] == '/' && t[1] == '*';
      InsertLayout(s[e..], false, k, r, i - e, w);
    } else {
      InsertBehind(s, i, w, 1);
      if s[0] == '/' {
        InsertBehind(s, i, w, 2);
      }
      InsertLayout(s[1..], s[0] == '"', OffsetAfter(s[0], r), r, i - 1, w);
    }
  }

  lemma InsertInFront(s: Text, k: nat, r: nat, w: Text)
    requires IsOffset(k) && IsOffset(r) && IsLayout(w)
    ensures Lex(Insert(s, 0, w), false, k, r) == Lex(s, false, k, r)
  {
    hide Skip, IsLayout;
    assert Insert(s, 0, w) == w + s;
    LayoutIsSkipped(w, s, k);
  }

  /** Layout inserted at any boundary of a text leaves the delivered stream unchanged. */
  lemma LayoutInsensitive(s: Text, i: nat, w: Text)
    requires IsLayout(w) && Boundary(s, false, READ_OFFSET, READ_OFFSET, i)
    ensures i <= |s| && Strip(Insert(s, i, w), false) == Strip(s, false)
  {
    BoundaryInRange(s, false, READ_OFFSET, READ_OFFSET, i);
    InsertLayout(s, false, READ_OFFSET, READ_OFFSET, i, w);
    StripIsTwoPass(s, false);
    StripIsTwoPass(Insert(s, i, w), false);
  }

  // ----- reading the output again

  /** The quoted marks are those that scanning the bytes would give. */
  predicate WellQuoted(toks: seq<Token>, inString: bool) {
    toks == [] ||
    if inString then toks[0].quoted && WellQuoted(toks[1..], toks[0].b != '"')
    else
      && toks[0].quoted == (toks[0].b == '"') && !IsWhiteSpace(toks[0].b)
      && WellQuoted(toks[1..], toks[0].b == '"')
  }

  /** Two slashes, or a slash and a star, that the output brings together. */
  predicate GluedHead(toks: seq<Token>) {
    && |toks| > 1 && toks[0] == Token('/', false)
    && (toks[1] == Token('/', false) || toks[1] == Token('*', false))
  }

  predicate HasGluedSlash(toks: seq<Token>) {
    toks != [] && (GluedHead(toks) || HasGluedSlash(toks[1..]))
  }

  predicate HasTrailingComma(toks: seq<Token>) {
    toks != [] && (TrailingComma(toks) || HasTrailingComma(toks[1..]))
  }

  /** A comma directly in front of a trailing comma: it becomes a trailing one itself. */
  predicate HasDoubledComma(toks: seq<Token>) {
    toks != [] && ((toks[0] == Token(',', false) && TrailingComma(toks[1..])) || HasDoubledComma(toks[1..]))
  }

  lemma {:induction false} LexIsWellQuoted(s: Text, inString: bool, k: nat, r: nat)
    requires k >= 3 && r >= 3
    ensures WellQuoted(Lex(s, inString, k, r).toks, inString)
    decreases |s|
  {
    hide Skip;
    if inString {
      if s != [] {
        LexIsWellQuoted(s[1..], s[0] != '"', r, r);
      }
    } else {
      SkipStays(s, k, k);
      match Skip(s, k)
      case Done(_) =>
      case More(t) => LexIsWellQuoted(t[1..], t[0] == '"', OffsetAfter(t[0], r), r);
    }
  }

  lemma {:induction false} DropIsWellQuoted(toks: seq<Token>, inString: bool)
    requires WellQuoted(toks, inString)
    ensures WellQuoted(Drop(toks), inString)
  {
    if toks != [] {
      DropIsWellQuoted(toks[1..], if inString then toks[0].b != '"' else toks[0].b == '"');
    }
  }

  /** Bytes that nothing glues together lex back into the same tokens. */
  lemma {:induction false} Relex(toks: seq<Token>, inString: bool, k: nat, r: nat)
    requires k >= 3 && r >= 3 && WellQuoted(toks, inString) && !HasGluedSlash(toks)
    ensures Lex(Bytes(toks), inString, k, r) == Tokens(toks, Eof)
    decreases |toks|
  {
    hide Lex, LineEnd, BlockEnd;
    var s := Bytes(toks);
    LexStep(s, inString, k, r);
    if toks != [] {
      assert s[1..] == Bytes(toks[1..]);
      if inString {
        Relex(toks[1..], s[0] != '"', r, r);
      } else {
        NotGlued(toks);
        Relex(toks[1..], s[0] == '"', OffsetAfter(s[0], r), r);
      }
      assert [toks[0]] + toks[1..] == toks;
    }
  }

  lemma NotGlued(toks: seq<Token>)
    requires toks != [] && WellQuoted(toks, false)
    ensures OpensComment(Bytes(toks)) <==> GluedHead(toks)
  {
    if |toks| > 1 {
      assert Bytes(toks)[1] == Bytes(toks[1..])[0] == toks[1].b;
    }
  }

  lemma {:induction false} LexShrinks(s: Text, inString: bool, k: nat, r: nat)
    requires k >= 3 && r >= 3
    ensures |Lex(s, inString, k, r).toks| <= |s|
    decreases |s|
  {
    hide Skip;
    if inString {
      if s != [] {
        LexShrinks(s[1..], s[0] != '"', r, r);
      }
    } else {
      match Skip(s, k)
      case Done(_) =>
      case More(t) => LexShrinks(t[1..], t[0] == '"', OffsetAfter(t[0], r), r);
    }
  }

  lemma CommentShrinks(s: Text, k: nat, r: nat)
    requires k >= 3 && r >= 3 && OpensComment(s)
    ensures |Lex(s, false, k, r).toks| < |s|
  {
    hide Skip, LineEnd, BlockEnd;
    SkipStep(s, k);
    LexStep(s, false, k, r);
    if OpensLineComment(s) {
      LexShrinks(s[LineEnd(s)..], false, k, r);
    } else if BlockEnd(s, k).Some? {
      LexShrinks(s[BlockEnd(s, k).value..], false, k, r);
    }
  }

  /** A glued slash opens a comment when the bytes are read again, so bytes are lost. */
  lemma {:induction false} GluedSlashLosesBytes(toks: seq<Token>, inString: bool, k: nat, r: nat)
    requires k >= 3 && r >= 3 && WellQuoted(toks, inString) && HasGluedSlash(toks)
    ensures |Lex(Bytes(toks), inString, k, r).toks| < |toks|
    decreases |toks|
  {
    hide Lex, LineEnd, BlockEnd;
    var s := Bytes(toks);
    LexStep(s, inString, k, r);
    assert s[1..] == Bytes(toks[1..]);
    if inString {
      GluedSlashLosesBytes(toks[1..], s[0] != '"', r, r);
    } else {
      NotGlued(toks);
      if GluedHead(toks) {
        CommentShrinks(s, k, r);
      } else {
        GluedSlashLosesBytes(toks[1..], s[0] == '"', OffsetAfter(s[0], r), r);
      }
    }
  }

  lemma {:induction false} DropShrinks(toks: seq<Token>)
    ensures |Drop(toks)| <= |toks|
    ensures HasTrailingComma(toks) ==> |Drop(toks)| < |toks|
    ensures !HasTrailingComma(toks) ==> Drop(toks) == toks
  {
    if toks != [] {
      DropShrinks(toks[1..]);
    }
  }

  /** The token that ends up behind a kept first token. */
  lemma DropHead(toks: seq<Token>)
    ensures toks != [] && !TrailingComma(toks) ==> Drop(toks) != [] && Drop(toks)[0] == toks[0]
    ensures TrailingComma(toks) ==>
              if |toks| == 1 then Drop(toks) == []
              else Drop(toks) != [] && Drop(toks)[0] == toks[1]
  {
    if TrailingComma(toks) && |toks| > 1 {
      assert !TrailingComma(toks[1..]);
    }
  }

  /** Dropping commas neither makes nor hides a glued slash. */
  lemma {:induction false} DropKeepsGlue(toks: seq<Token>)
    ensures HasGluedSlash(Drop(toks)) <==> HasGluedSlash(toks)
  {
    if toks != [] {
      DropKeepsGlue(toks[1..]);
      DropHead(toks[1..]);
      if !TrailingComma(toks) {
        var d := [toks[0]] + Drop(toks[1..]);
        assert d[1..] == Drop(toks[1..]);
        assert GluedHead(d) <==> GluedHead(toks);
      }
    }
  }

  /** A trailing comma is left exactly where two commas stood before a bracket or the end. */
  lemma {:induction false} DropLeavesTrailing(toks: seq<Token>)
    ensures HasTrailingComma(Drop(toks)) <==> HasDoubledComma(toks)
  {
    if toks != [] {
      DropLeavesTrailing(toks[1..]);
      DropHead(toks[1..]);
      if !TrailingComma(toks) {
        var d := [toks[0]] + Drop(toks[1..]);
        assert d[1..] == Drop(toks[1..]);
        assert TrailingComma(d) <==> toks[0] == Token(',', false) && TrailingComma(toks[1..]);
      }
    }
  }

  /**
   Reading the output again changes nothing if and only if the text has no doubled
   comma before a bracket or the end, and no two bytes that open a comment once the
   layout between them is gone.
   */
  lemma SecondReading(s: Text)
    ensures var toks := Lex(s, false, READ_OFFSET, READ_OFFSET).toks;
            var out := Strip(s, false).out;
            Strip(out, false).out == out <==> !HasDoubledComma(toks) && !HasGluedSlash(toks)
  {
    hide Lex, Strip, Drop;
    var toks := Lex(s, false, READ_OFFSET, READ_OFFSET).toks;
    var kept := Drop(toks);
    var out := Bytes(kept);
    StripIsTwoPass(s, false);
    LexIsWellQuoted(s, false, READ_OFFSET, READ_OFFSET);
    DropIsWellQuoted(toks, false);
    DropKeepsGlue(toks);
    DropLeavesTrailing(toks);
    StripIsTwoPass(out, false);
    var again := Lex(out, false, READ_OFFSET, READ_OFFSET).toks;
    DropShrinks(again);
    if HasGluedSlash(kept) {
      GluedSlashLosesBytes(kept, false, READ_OFFSET, READ_OFFSET);
    } else {
      Relex(kept, false, READ_OFFSET, READ_OFFSET);
    }
  }
}
