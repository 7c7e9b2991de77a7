/**
 The delivered stream by equations, with every character written out: what vanishes, what is
 kept, and what is reported, for each way in which a text can begin.
 */
module RjLaws {
  import opened Wrappers
  import opened RjLexical
  import opened RjComments
  import opened RjStream
  import opened RjLayout

  predicate IsBlank(b: Byte) {
    b == ' ' || b == '\t' || b == '\n' || b == '\r' || b == '\0'
  }

  /** One piece of layout: a blank, a line comment with its newline, or a block comment with a body. */
  datatype Piece = Blank(b: Byte) | Line(body: Text, newLine: Byte) | Block(body: Text)

  predicate StarSlashAt(s: Text, i: nat) {
    i + 1 < |s| && s[i] == '*' && s[i + 1] == '/'
  }

  /** The body of a block comment: not empty, and closed by nothing before its own end. */
  ghost predicate IsBlockBody(body: Text) {
    body != [] && forall i :: 0 <= i < |body| ==> !StarSlashAt(body + ['*', '/'], i)
  }

  ghost predicate IsPiece(p: Piece) {
    match p
    case Blank(b) => IsBlank(b)
    case Line(body, newLine) =>
      (newLine == '\n' || newLine == '\r') && forall i :: 0 <= i < |body| ==> body[i] != '\n' && body[i] != '\r'
    case Block(body) => IsBlockBody(body)
  }

  function PieceText(p: Piece): Text {
    match p
    case Blank(b) => [b]
    case Line(body, newLine) => ['/', '/'] + body + [newLine]
    case Block(body) => ['/', '*'] + body + ['*', '/']
  }

  function LayoutText(pieces: seq<Piece>): Text {
    if pieces == [] then [] else PieceText(pieces[0]) + LayoutText(pieces[1..])
  }

  lemma {:induction false} LineBody(body: Text, rest: Text)
    requires forall i :: 0 <= i < |body| ==> body[i] != '\n' && body[i] != '\r'
    requires rest == [] || rest[0] == '\n' || rest[0] == '\r'
    ensures LineEnd(body + rest) == |body| + if rest == [] then 0 else 1
    decreases |body|
  {
    if body == [] {
      assert body + rest == rest;
    } else {
      assert (body + rest)[1..] == body[1..] + rest;
      LineBody(body[1..], rest);
    }
  }

  lemma LineComment(body: Text, rest: Text)
    requires forall i :: 0 <= i < |body| ==> body[i] != '\n' && body[i] != '\r'
    requires rest == [] || rest[0] == '\n' || rest[0] == '\r'
    ensures var s := ['/', '/'] + body + rest;
            OpensLineComment(s) && LineEnd(s) == |body| + 2 + if rest == [] then 0 else 1
  {
    var all := ['/', '/'] + body;
    assert all + rest == ['/', '/'] + body + rest;
    LineBody(all, rest);
  }

  /** The first close is found from any later start before it. */
  lemma {:induction false} FirstClose(s: Text, j: nat, e: nat)
    requires 1 <= j < e <= |s| && StarSlashAt(s, e - 2)
    requires forall i :: j - 1 <= i < e - 2 ==> !StarSlashAt(s, i)
    ensures BlockEnd(s, j) == Some(e)
    decreases e - j
  {
    assert j < e - 1 ==> !StarSlashAt(s, j - 1);
    if j < e - 1 {
      FirstClose(s, j + 1, e);
    }
  }

  lemma {:induction false} NoClose(s: Text, j: nat)
    requires 1 <= j && forall i :: j - 1 <= i < |s| ==> !StarSlashAt(s, i)
    ensures BlockEnd(s, j) == None
    decreases |s| - j
  {
    if j < |s| {
      assert !StarSlashAt(s, j - 1);
      NoClose(s, j + 1);
    }
  }

  lemma BlockComment(body: Text, rest: Text)
    requires IsBlockBody(body)
    ensures var s := ['/', '*'] + body + ['*', '/'] + rest;
            && OpensBlockComment(s)
            && BlockEnd(s, READ_OFFSET) == Some(|body| + 4) && BlockEnd(s, PEEK_OFFSET) == Some(|body| + 4)
  {
    hide BlockEnd;
    var s, t := ['/', '*'] + body + ['*', '/'] + rest, body + ['*', '/'];
    var e := |body| + 4;
    forall i | 2 <= i < e - 2 ensures !StarSlashAt(s, i) {
      assert !StarSlashAt(t, i - 2);
      assert s[i] == t[i - 2] && s[i + 1] == t[i - 1];
    }
    assert StarSlashAt(s, e - 2);
    FirstClose(s, 3, e);
    FirstClose(s, 4, e);
  }

  /** Written-out layout is layout. */
  lemma {:induction false} LayoutIsLayout(pieces: seq<Piece>)
    requires forall p :: p in pieces ==> IsPiece(p)
    ensures IsLayout(LayoutText(pieces))
    decreases |pieces|
  {
    hide IsLayout, PieceText, IsPiece;
    if pieces == [] {
      NoLayout();
    } else {
      assert pieces[0] in pieces;
      LayoutIsLayout(pieces[1..]);
      PieceInFront(pieces[0], LayoutText(pieces[1..]));
    }
  }

  lemma NoLayout()
    ensures IsLayout([])
  {
  }

  lemma PieceInFront(p: Piece, rest: Text)
    requires IsPiece(p) && IsLayout(rest)
    ensures IsLayout(PieceText(p) + rest)
  {
    hide LineEnd, BlockEnd, IsBlockBody, IsLayout;
    match p {
      case Blank(b) => BlankInFront(b, rest);
      case Line(body, newLine) => LinePieceInFront(body, newLine, rest);
      case Block(body) => BlockPieceInFront(body, rest);
    }
  }

  /** One unfolding of IsLayout. */
  lemma LayoutStep(w: Text)
    requires w != []
    ensures IsWhiteSpace(w[0]) ==> IsLayout(w) == IsLayout(w[1..])
    ensures OpensLineComment(w) ==> (IsLayout(w) <==> IsNewLine(w[LineEnd(w) - 1]) && IsLayout(w[LineEnd(w)..]))
    ensures OpensBlockComment(w) && BlockEnd(w, PEEK_OFFSET).Some? && BlockEnd(w, PEEK_OFFSET).value > 4 ==>
              IsLayout(w) == IsLayout(w[BlockEnd(w, PEEK_OFFSET).value..])
  {
    hide LineEnd, BlockEnd;
  }

  lemma BlankInFront(b: Byte, rest: Text)
    requires IsBlank(b) && IsLayout(rest)
    ensures IsLayout([b] + rest)
  {
    hide LineEnd, BlockEnd, IsLayout;
    LayoutStep([b] + rest);
    assert ([b] + rest)[1..] == rest;
  }

  lemma LinePieceInFront(body: Text, newLine: Byte, rest: Text)
    requires IsPiece(Line(body, newLine)) && IsLayout(rest)
    ensures IsLayout(['/', '/'] + body + [newLine] + rest)
  {
    hide LineEnd, BlockEnd, IsLayout;
    var w := ['/', '/'] + body + [newLine] + rest;
    LineComment(body, [newLine] + rest);
    assert w == ['/', '/'] + body + ([newLine] + rest);
    assert w[|body| + 3..] == rest && w[|body| + 2] == newLine;
    LayoutStep(w);
  }

  lemma BlockPieceInFront(body: Text, rest: Text)
    requires IsBlockBody(body) && IsLayout(rest)
    ensures IsLayout(['/', '*'] + body + ['*', '/'] + rest)
  {
    hide LineEnd, BlockEnd, IsLayout, IsBlockBody;
    var w := ['/', '*'] + body + ['*', '/'] + rest;
    BlockComment(body, rest);
    BodyIsNotEmpty(body);
    assert w[|body| + 4..] == rest;
    LayoutStep(w);
  }

  lemma BodyIsNotEmpty(body: Text)
    requires IsBlockBody(body)
    ensures body != []
  {
  }

  /** A text delivers the byte `b` and then what `rest` delivers. */
  function Behind(b: Text, rest: Stream): Stream {
    Stream(b + rest.out, rest.error)
  }

  /** What a text delivers is decided by what skipping finds first. */
  lemma SameSkip(s: Text, t: Text)
    requires Skip(s, READ_OFFSET) == Skip(t, READ_OFFSET)
    ensures Strip(s, false) == Strip(t, false)
  {
    hide Skip;
  }

  /** Nothing is delivered from an empty text. */
  lemma EmptyText(inString: bool)
    ensures Strip([], inString) == Stream([], Eof)
  {
  }

  /** Layout vanishes. */
  lemma LayoutVanishes(pieces: seq<Piece>, rest: Text)
    requires forall p :: p in pieces ==> IsPiece(p)
    ensures Strip(LayoutText(pieces) + rest, false) == Strip(rest, false)
  {
    hide Skip, Strip, IsLayout, LayoutText, IsPiece;
    LayoutIsLayout(pieces);
    LayoutIsSkipped(LayoutText(pieces), rest, READ_OFFSET);
    SameSkip(LayoutText(pieces) + rest, rest);
  }

  /** A line comment that ends with the text vanishes. */
  lemma LastLineVanishes(body: Text)
    requires forall i :: 0 <= i < |body| ==> body[i] != '\n' && body[i] != '\r'
    ensures Strip(['/', '/'] + body, false) == Stream([], Eof)
  {
    hide Skip, LineEnd;
    var s := ['/', '/'] + body;
    LineComment(body, []);
    assert s + [] == s;
    SkipStep(s, READ_OFFSET);
    assert s[LineEnd(s)..] == [];
    SkipStep([], READ_OFFSET);
  }

  /** A block comment without a close, apart from one right behind its opening, is reported. */
  lemma UnclosedBlock(body: Text)
    requires forall i :: 1 <= i < |body| ==> !StarSlashAt(body, i)
    ensures Strip(['/', '*'] + body, false) == Stream([], IncompleteComment)
  {
    hide Skip, BlockEnd;
    var s := ['/', '*'] + body;
    forall i | 3 <= i < |s| ensures !StarSlashAt(s, i) {
      assert !StarSlashAt(body, i - 2);
      assert s[i] == body[i - 2];
    }
    NoClose(s, READ_OFFSET);
    SkipStep(s, READ_OFFSET);
  }

  /** Outside the look-ahead a block comment runs on over a close right behind its opening. */
  lemma BlockRunsOn(body: Text, rest: Text)
    requires body != [] && forall i :: 1 <= i < |body| ==> !StarSlashAt(body + ['*', '/'], i)
    ensures Strip(['/', '*'] + body + ['*', '/'] + rest, false) == Strip(rest, false)
  {
    hide Skip, BlockEnd, Strip;
    var s, t, e := ['/', '*'] + body + ['*', '/'] + rest, body + ['*', '/'], |body| + 4;
    forall i | 3 <= i < e - 2 ensures !StarSlashAt(s, i) {
      assert !StarSlashAt(t, i - 2);
      assert s[i] == t[i - 2] && s[i + 1] == t[i - 1];
    }
    assert StarSlashAt(s, e - 2);
    FirstClose(s, READ_OFFSET, e);
    SkipStep(s, READ_OFFSET);
    assert s[e..] == rest;
    SameSkip(s, rest);
  }

  /** Inside a string bytes are delivered as they are. */
  lemma {:induction false} StringBody(body: Text, rest: Text)
    requires '"' !in body
    ensures Strip(body + rest, true) == Behind(body, Strip(rest, true))
    decreases |body|
  {
    if body == [] {
      assert body + rest == rest && body + Strip(rest, true).out == Strip(rest, true).out;
    } else {
      var s := body + rest;
      assert s[1..] == body[1..] + rest;
      StringBody(body[1..], rest);
      assert [body[0]] + (body[1..] + Strip(rest, true).out) == body + Strip(rest, true).out;
    }
  }

  /** A string is delivered as it is, its quotes included, and what follows it is read as any text. */
  lemma StringIsKept(body: Text, rest: Text)
    requires '"' !in body
    ensures Strip(['"'] + body + ['"'] + rest, false) == Behind(['"'] + body + ['"'], Strip(rest, false))
  {
    hide Skip;
    var s, tail := ['"'] + body + ['"'] + rest, ['"'] + rest;
    SkipStep(s, READ_OFFSET);
    assert s[1..] == body + tail && tail[1..] == rest;
    StringBody(body, tail);
    var out := Strip(rest, false).out;
    assert ['"'] + (body + (['"'] + out)) == ['"'] + body + ['"'] + out;
  }

  /** A string without an end is delivered to the end. */
  lemma LastStringIsKept(body: Text)
    requires '"' !in body
    ensures Strip(['"'] + body, false) == Stream(['"'] + body, Eof)
  {
    hide Skip;
    var s := ['"'] + body;
    SkipStep(s, READ_OFFSET);
    assert s[1..] == body;
    StringBody(body, []);
    assert body + [] == body;
  }

  predicate StartsComment(b: Byte, rest: Text) {
    b == '/' && rest != [] && (rest[0] == '/' || rest[0] == '*')
  }

  /** Any other byte is delivered. */
  lemma ByteIsKept(b: Byte, rest: Text)
    requires !IsBlank(b) && b != '"' && b != ',' && !StartsComment(b, rest)
    ensures Strip([b] + rest, false) == Behind([b], Strip(rest, false))
  {
    hide Skip;
    var s := [b] + rest;
    assert s[1..] == rest;
    SkipStep(s, READ_OFFSET);
  }

  /** A comma before a closing bracket or brace vanishes, whatever layout stands between them. */
  lemma CommaVanishes(pieces: seq<Piece>, closer: Byte, rest: Text)
    requires (forall p :: p in pieces ==> IsPiece(p)) && (closer == ']' || closer == '}')
    ensures Strip([','] + LayoutText(pieces) + [closer] + rest, false) == Strip([closer] + rest, false)
  {
    hide Skip;
    var s, tail := [','] + LayoutText(pieces) + [closer] + rest, [closer] + rest;
    CommaLooksAhead(s, pieces, tail);
    SkipStep(tail, PEEK_OFFSET);
    SkipStep(tail, READ_OFFSET);
  }

  /** So does a comma with nothing behind it. */
  lemma LastCommaVanishes(pieces: seq<Piece>)
    requires forall p :: p in pieces ==> IsPiece(p)
    ensures Strip([','] + LayoutText(pieces), false) == Stream([], Eof)
  {
    hide Skip;
    var s := [','] + LayoutText(pieces);
    assert s + [] == s;
    CommaLooksAhead(s, pieces, []);
    SkipStep([], PEEK_OFFSET);
  }

  /** Before any other byte the comma is kept, and only the layout vanishes. */
  lemma CommaIsKept(pieces: seq<Piece>, b: Byte, rest: Text)
    requires forall p :: p in pieces ==> IsPiece(p)
    requires !IsBlank(b) && b != ']' && b != '}' && !StartsComment(b, rest)
    ensures Strip([','] + LayoutText(pieces) + [b] + rest, false) == Behind([','], Strip([b] + rest, false))
  {
    hide Skip;
    var s, tail := [','] + LayoutText(pieces) + [b] + rest, [b] + rest;
    CommaLooksAhead(s, pieces, tail);
    assert tail[1..] == rest;
    SkipStep(tail, PEEK_OFFSET);
  }

  /** The look-ahead behind a comma passes over layout. */
  lemma CommaLooksAhead(s: Text, pieces: seq<Piece>, tail: Text)
    requires (forall p :: p in pieces ==> IsPiece(p)) && s == [','] + LayoutText(pieces) + tail
    ensures Skip(s, READ_OFFSET) == More(s) && s[0] == ',' && Skip(s[1..], PEEK_OFFSET) == Skip(tail, PEEK_OFFSET)
  {
    hide Skip, IsLayout, LayoutText, IsPiece;
    assert s[1..] == LayoutText(pieces) + tail;
    LayoutIsLayout(pieces);
    LayoutIsSkipped(LayoutText(pieces), tail, PEEK_OFFSET);
    SkipStep(s, READ_OFFSET);
  }
}
