/**
 The reader itself: a buffer, an index that only these methods move, and the
 in-string flag.  The methods are verified against functions of positions in the
 buffer, and SkipFromIsSkip carries the result over to the text functions of RjLexical.
 */
module RjReader {
  import opened Wrappers
  import opened RjLexical

  /** Position behind the first newline at or after `i`, or the end of the buffer. */
  function LineFrom(buf: Text, i: nat): (e: nat)
    ensures i <= e
    ensures i < |buf| ==> i < e <= |buf|
    decreases |buf| - i
  {
    if i >= |buf| then i
    else if IsNewLine(buf[i]) then i + 1
    else LineFrom(buf, i + 1)
  }

  /** Position behind the first star-slash whose slash is at or after `j`. */
  function BlockFrom(buf: Text, j: nat): (e: Option<nat>)
    requires j >= 1
    ensures e.Some? ==> j < e.value <= |buf|
    decreases |buf| - j
  {
    if j >= |buf| then None
    else if buf[j] == '/' && buf[j - 1] == '*' then Some(j + 1)
    else BlockFrom(buf, j + 1)
  }

  predicate SlashPair(buf: Text, i: nat, c: Byte) {
    i + 1 < |buf| && buf[i] == '/' && buf[i + 1] == c
  }

  datatype Place = At(pos: nat) | Nowhere(error: Error)

  /** Position of the next significant byte at or after `i`. */
  function SkipFrom(buf: Text, i: nat, k: nat): (p: Place)
    requires k >= 3
    ensures p.At? ==> i <= p.pos < |buf|
    decreases |buf| - i
  {
    if i >= |buf| then Nowhere(Eof)
    else if IsWhiteSpace(buf[i]) then SkipFrom(buf, i + 1, k)
    else if SlashPair(buf, i, '/') then SkipFrom(buf, LineFrom(buf, i), k)
    else if SlashPair(buf, i, '*') then
      match BlockFrom(buf, i + k)
      case None => Nowhere(IncompleteComment)
      case Some(e) => SkipFrom(buf, e, k)
    else At(i)
  }

  ghost function Suffix(buf: Text, i: nat): Text {
    if i <= |buf| then buf[i..] else []
  }

  lemma {:induction false} LineFromIsLineEnd(buf: Text, i: nat)
    requires i <= |buf|
    ensures LineFrom(buf, i) == i + LineEnd(buf[i..])
    decreases |buf| - i
  {
    if i < |buf| {
      assert buf[i..][1..] == buf[i + 1..];
      LineFromIsLineEnd(buf, i + 1);
    }
  }

  lemma {:induction false} BlockFromIsBlockEnd(buf: Text, i: nat, j: nat)
    requires i <= |buf| && j >= 1
    ensures BlockFrom(buf, i + j) ==
            match BlockEnd(buf[i..], j) case None => None case Some(e) => Some(i + e)
    decreases |buf| - i - j
  {
    if i + j < |buf| {
      BlockFromIsBlockEnd(buf, i, j + 1);
    }
  }

  /** Skipping by position is skipping on the unread text. */
  lemma {:induction false} SkipFromIsSkip(buf: Text, i: nat, k: nat)
    requires k >= 3
    ensures Skip(Suffix(buf, i), k) ==
            match SkipFrom(buf, i, k) case At(p) => More(buf[p..]) case Nowhere(e) => Done(e)
    decreases |buf| - i
  {
    hide Skip, LineFrom, BlockFrom, LineEnd, BlockEnd;
    var s := Suffix(buf, i);
    SkipStep(s, k);
    if i < |buf| {
      if IsWhiteSpace(buf[i]) {
        assert s[1..] == Suffix(buf, i + 1);
        SkipFromIsSkip(buf, i + 1, k);
      } else if SlashPair(buf, i, '/') {
        LineFromIsLineEnd(buf, i);
        var e := LineFrom(buf, i);
        assert s[LineEnd(s)..] == Suffix(buf, e);
        SkipFromIsSkip(buf, e, k);
      } else if SlashPair(buf, i, '*') {
        BlockFromIsBlockEnd(buf, i, k);
        var e := BlockFrom(buf, i + k);
        if e.Some? {
          assert s[e.value - i..] == Suffix(buf, e.value);
          SkipFromIsSkip(buf, e.value, k);
        }
      }
    }
  }

  /** Skipping stops at once where it stopped before. */
  lemma {:induction false} SkipFromStays(buf: Text, i: nat, k: nat, k': nat)
    requires k >= 3 && k' >= 3
    ensures SkipFrom(buf, i, k).At? ==> var p := SkipFrom(buf, i, k).pos; SkipFrom(buf, p, k') == At(p)
    decreases |buf| - i
  {
    if i < |buf| {
      if IsWhiteSpace(buf[i]) {
        SkipFromStays(buf, i + 1, k, k');
      } else if SlashPair(buf, i, '/') {
        SkipFromStays(buf, LineFrom(buf, i), k, k');
      } else if SlashPair(buf, i, '*') {
        var e := BlockFrom(buf, i + k);
        if e.Some? {
          SkipFromStays(buf, e.value, k, k');
        }
      }
    }
  }

  lemma SkipFromEnd(buf: Text, i: nat, k: nat)
    requires k >= 3 && i >= |buf|
    ensures SkipFrom(buf, i, k) == Nowhere(Eof)
  {
  }

  /** What the reading path finds at a byte that is not whitespace, once the index is behind it. */
  lemma SkipFromByte(buf: Text, i: nat)
    requires i < |buf| && !IsWhiteSpace(buf[i])
    ensures buf[i] != '/' || i + 1 == |buf| ==> SkipFrom(buf, i, READ_OFFSET) == At(i)
    ensures SlashPair(buf, i, '/') ==>
              SkipFrom(buf, i, READ_OFFSET) == SkipFrom(buf, LineFrom(buf, i + 1), READ_OFFSET)
    ensures SlashPair(buf, i, '*') ==>
              SkipFrom(buf, i, READ_OFFSET) ==
              match BlockFrom(buf, i + 1 + 3)
              case None => Nowhere(IncompleteComment)
              case Some(e) => SkipFrom(buf, e, READ_OFFSET)
    ensures i + 1 < |buf| && buf[i + 1] != '/' && buf[i + 1] != '*' ==> SkipFrom(buf, i, READ_OFFSET) == At(i)
  {
    assert LineFrom(buf, i) == LineFrom(buf, i + 1);
  }

  /** One unfolding of NextByte outside strings. */
  lemma NextByteStep(s: Text)
    ensures match Skip(s, READ_OFFSET)
            case Done(e) => NextByte(s, false) == Fail(e)
            case More(t) =>
              if t[0] != ',' then NextByte(s, false) == Got(t[0], t[1..], t[0] == '"')
              else
                match Skip(t[1..], PEEK_OFFSET)
                case Done(e) => NextByte(s, false) == Fail(e)
                case More(u) =>
                  NextByte(s, false) == if IsCloser(u[0]) then Got(u[0], u[1..], false) else Got(',', u, false)
  {
    hide Skip;
  }

  lemma SuffixTail(buf: Text, p: nat)
    requires p < |buf|
    ensures Suffix(buf, p) == buf[p..] && buf[p..][1..] == Suffix(buf, p + 1) && buf[p..][0] == buf[p]
  {
  }

  /** The next byte outside a string, by position. */
  lemma NextByteByPosition(buf: Text, i: nat)
    ensures NextByte(Suffix(buf, i), false) ==
            match SkipFrom(buf, i, READ_OFFSET)
            case Nowhere(e) => Fail(e)
            case At(p) =>
              if buf[p] != ',' then Got(buf[p], Suffix(buf, p + 1), buf[p] == '"')
              else
                match SkipFrom(buf, p + 1, PEEK_OFFSET)
                case Nowhere(e) => Fail(e)
                case At(q) =>
                  if IsCloser(buf[q]) then Got(buf[q], Suffix(buf, q + 1), false)
                  else Got(',', Suffix(buf, q), false)
  {
    hide Skip, SkipFrom, NextByte, Suffix;
    var s := Suffix(buf, i);
    NextByteStep(s);
    SkipFromIsSkip(buf, i, READ_OFFSET);
    var first := SkipFrom(buf, i, READ_OFFSET);
    if first.At? {
      var p := first.pos;
      SuffixTail(buf, p);
      SkipFromIsSkip(buf, p + 1, PEEK_OFFSET);
      var second := SkipFrom(buf, p + 1, PEEK_OFFSET);
      if second.At? {
        SuffixTail(buf, second.pos);
      }
    }
  }

  /** Step adds nothing to a byte that opens no reference. */
  lemma StepIsNextByte(env: Environment, s: Text, inString: bool)
    ensures var r := NextByte(s, inString);
            if r.Got? && r.b == '*' && OpensReference(r.rest) then
              var name := RefName(r.rest);
              Step(env, s, inString) ==
              if Resolves(env, name)
              then Got(env[name][0], env[name][1..] + AfterRef(r.rest), r.inString)
              else Fail(EnvNotFound(name))
            else Step(env, s, inString) == r
  {
  }

  /** Splicing a value over a reference leaves the value's tail and the text behind it unread. */
  lemma AfterSplice(env: Environment, buf: Text, i: nat)
    requires 0 < i <= |buf| && OpensReference(buf[i..])
    ensures var n := NameLength(buf[i + 4..]);
            var name := buf[i + 4..i + 4 + n];
            && name == RefName(buf[i..])
            && (Resolves(env, name) ==>
                  var spliced := buf[..i - 1] + env[name] + buf[i + 4 + n..];
                  && |spliced| >= i && spliced[i - 1] == env[name][0]
                  && Suffix(spliced, i) == env[name][1..] + AfterRef(buf[i..]))
  {
    hide NameLength;
    assert buf[i..][4..] == buf[i + 4..];
    var n := NameLength(buf[i + 4..]);
    assert buf[i..][4 + n..] == buf[i + 4 + n..];
  }

  class Reader {
    var buf: Text
    var isInString: bool
    var indx: nat

    /** The unread bytes; the index lies beyond the buffer after some unclosed comments. */
    ghost function Rest(): Text
      reads this
    {
      Suffix(buf, indx)
    }

    constructor (b: Text)
      ensures buf == b && !isInString && indx == 0
      ensures Rest() == b
    {
      buf, isInString, indx := b, false, 0;
    }

    predicate IsEndOfFile()
      reads this
    {
      indx >= |buf|
    }

    /** Consumes a comment whose second byte is `pkbit`, wherever the index stands. */
    method ConsumeComment(pkbit: Byte) returns (isComment: bool, err: Option<Error>)
      modifies this`indx
      ensures isComment <==> pkbit == '/' || pkbit == '*'
      ensures !isComment ==> indx == old(indx) && err == None
      ensures pkbit == '/' ==> indx == LineFrom(buf, old(indx))
      ensures pkbit == '/' ==> err == None || (err == Some(Eof) && indx >= |buf|)
      ensures pkbit == '/' ==> (err == None <==> exists j :: old(indx) <= j < |buf| && IsNewLine(buf[j]))
      ensures pkbit == '*' ==>
                match BlockFrom(buf, old(indx) + 3)
                case None => err == Some(IncompleteComment)
                case Some(e) => err == None && indx == e
    {
      if pkbit == '/' {
        while !IsEndOfFile()
          invariant LineFrom(buf, old(indx)) == LineFrom(buf, indx)
          invariant forall j :: old(indx) <= j < indx && j < |buf| ==> !IsNewLine(buf[j])
          invariant old(indx) <= indx
          decreases |buf| - indx
        {
          var bit := buf[indx];
          indx := indx + 1;
          if IsNewLine(bit) {
            return true, None;
          }
        }
        return true, Some(Eof);
      } else if pkbit == '*' {
        indx := indx + 3;
        while !IsEndOfFile()
          invariant indx >= 3
          invariant BlockFrom(buf, old(indx) + 3) == BlockFrom(buf, indx)
          decreases |buf| - indx
        {
          if buf[indx] == '/' && buf[indx - 1] == '*' {
            indx := indx + 1;
            return true, None;
          }
          indx := indx + 1;
        }
        return true, Some(IncompleteComment);
      }
      return false, None;
    }

    /** Reads the first byte that is not whitespace. */
    method ReadFirstNonWhiteSpace() returns (bit: Byte, err: Option<Error>)
      modifies this`indx
      ensures err == None ==>
                && old(indx) < indx <= |buf| && buf[indx - 1] == bit && !IsWhiteSpace(bit)
                && SkipFrom(buf, old(indx), READ_OFFSET) == SkipFrom(buf, indx - 1, READ_OFFSET)
      ensures err == None ==> forall j :: old(indx) <= j < indx - 1 ==> IsWhiteSpace(buf[j])
      ensures err != None ==>
                && err == Some(Eof) && bit == '\0'
                && forall j :: old(indx) <= j < |buf| ==> IsWhiteSpace(buf[j])
      ensures err != None ==> SkipFrom(buf, old(indx), READ_OFFSET) == Nowhere(Eof)
    {
      while !IsEndOfFile()
        invariant indx >= old(indx)
        invariant forall j :: old(indx) <= j < indx && j < |buf| ==> IsWhiteSpace(buf[j])
        invariant SkipFrom(buf, old(indx), READ_OFFSET) == SkipFrom(buf, indx, READ_OFFSET)
        decreases |buf| - indx
      {
        bit := buf[indx];
        indx := indx + 1;
        if !IsWhiteSpace(bit) {
          return bit, None;
        }
      }
      return '\0', Some(Eof);
    }

    /** Reads the next byte, skipping comments. */
    method ReadByteWC() returns (bit: Byte, err: Option<Error>)
      modifies this`indx, this`isInString
      ensures old(isInString) ==>
                if old(indx) >= |buf| then err == Some(Eof)
                else err == None && indx == old(indx) + 1 && isInString == (bit != '"')
      ensures !old(isInString) ==>
                match SkipFrom(buf, old(indx), READ_OFFSET)
                case Nowhere(e) => err == Some(e)
                case At(p) => err == None && indx == p + 1 && isInString == (bit == '"')
      ensures err == None ==> 0 < indx <= |buf| && buf[indx - 1] == bit
      ensures err != None ==> isInString == old(isInString) && bit != '*'
      decreases |buf| - indx
    {
      hide SkipFrom, LineFrom, BlockFrom;
      if IsEndOfFile() {
        SkipFromEnd(buf, indx, READ_OFFSET);
        return '\0', Some(Eof);
      }
      if isInString {
        bit := buf[indx];
        indx := indx + 1;
      } else {
        bit, err := ReadFirstNonWhiteSpace();
        if err != None {
          return;
        }
        SkipFromByte(buf, indx - 1);
      }
      err := None;
      if bit == '"' {
        isInString := !isInString;
        return;
      }
      if !isInString && !IsEndOfFile() && bit == '/' {
        var pkbit := buf[indx];
        var isComment;
        isComment, err := ConsumeComment(pkbit);
        if err != None && err != Some(Eof) {
          return;
        }
        if isComment {
          bit, err := ReadByteWC();
          return;
        }
      }
    }

    /** Moves to the next significant byte and returns it without consuming it. */
    method PeekByteWC() returns (bit: Byte, err: Option<Error>)
      modifies this`indx
      ensures !isInString ==>
                match SkipFrom(buf, old(indx), PEEK_OFFSET)
                case Nowhere(e) => err == Some(e)
                case At(p) => err == None && indx == p && bit == buf[p]
      ensures isInString && err == None ==>
                && old(indx) <= indx < |buf| && bit == buf[indx] && !IsWhiteSpace(bit)
                && forall j :: old(indx) <= j < indx ==> IsWhiteSpace(buf[j])
      ensures isInString && err != None ==>
                err == Some(Eof) && forall j :: old(indx) <= j < |buf| ==> IsWhiteSpace(buf[j])
      decreases |buf| - indx
    {
      while !IsEndOfFile()
        invariant old(indx) <= indx
        invariant forall j :: old(indx) <= j < indx && j < |buf| ==> IsWhiteSpace(buf[j])
        invariant SkipFrom(buf, old(indx), PEEK_OFFSET) == SkipFrom(buf, indx, PEEK_OFFSET)
        decreases |buf| - indx
      {
        bit := buf[indx];
        if !isInString && indx + 1 < |buf| && bit == '/' {
          var pkbit := buf[indx + 1];
          var isComment;
          isComment, err := ConsumeComment(pkbit);
          if err != None {
            return;
          }
          if isComment {
            bit, err := PeekByteWC();
            return;
          }
          return;
        }
        if !IsWhiteSpace(bit) {
          return bit, None;
        }
        indx := indx + 1;
      }
      return '\0', Some(Eof);
    }

    /** One byte with layout removed and a comma dropped before a closing bracket. */
    method ReadByte() returns (bit: Byte, err: Option<Error>)
      modifies this`indx, this`isInString
      ensures match NextByte(old(Rest()), old(isInString))
              case Fail(e) => err == Some(e)
              case Got(b, rest, inStr) => err == None && bit == b && Rest() == rest && isInString == inStr
      ensures err == None && bit != ',' ==> 0 < indx <= |buf| && buf[indx - 1] == bit
      ensures err == None ==> indx <= |buf|
      ensures err != None ==> isInString == old(isInString) && bit != '*'
    {
      hide SkipFrom, Skip;
      if isInString {
        ghost var s := Rest();
        bit, err := ReadByteWC();
        assert err == None ==> s[1..] == Rest();
        return;
      }
      NextByteByPosition(buf, indx);
      bit, err := ReadByteWC();
      if err != None {
        return;
      }
      if bit == ',' {
        SkipFromStays(buf, indx, PEEK_OFFSET, READ_OFFSET);
        var bit2;
        bit2, err := PeekByteWC();
        if err != None {
          return;
        }
        if IsCloser(bit2) {
          bit, err := ReadByteWC();
          return;
        }
      }
    }

    /** With the index behind a star, does the whole prefix of a reference stand there? */
    predicate CheckMeta()
      requires 0 < indx <= |buf|
      reads this
      ensures buf[indx - 1] == '*' ==> (CheckMeta() <==> OpensReference(Rest()))
    {
      assert indx + 4 < |buf| ==> Rest()[..4] == buf[indx..indx + 4];
      assert indx + 4 < |buf| ==> buf[indx - 1..indx - 1 + 5] == [buf[indx - 1]] + buf[indx..indx + 4];
      assert (['*'] + META_TAIL)[1..] == META_TAIL;
      indx - 1 + 5 < |buf| && buf[indx - 1..indx - 1 + 5] == ['*'] + META_TAIL
    }

    /** The name that starts at `start`, and the position behind it. */
    method ReadEnvName(start: nat) returns (name: Text, end: nat)
      requires start <= |buf|
      ensures end == start + NameLength(buf[start..]) && end <= |buf|
      ensures name == buf[start..end]
    {
      name, end := [], start;
      while end < |buf|
        invariant start <= end <= |buf|
        invariant name == buf[start..end]
        invariant end + NameLength(buf[end..]) == start + NameLength(buf[start..])
      {
        var bit := buf[end];
        assert buf[end..][1..] == buf[end + 1..];
        if !IsAlfanum(bit) && bit != '_' {
          return;
        }
        name := name + [bit];
        end := end + 1;
      }
    }

    /** Splices the value of the referenced variable over the reference that starts at `startEnv`. */
    method ReplaceEnv(env: Environment, startEnv: nat) returns (err: Option<Error>)
      requires startEnv + 5 <= |buf|
      modifies this`buf
      ensures var n := NameLength(old(buf)[startEnv + 5..]);
              var name := old(buf)[startEnv + 5..startEnv + 5 + n];
              if Resolves(env, name)
              then err == None && buf == old(buf)[..startEnv] + env[name] + old(buf)[startEnv + 5 + n..]
              else err == Some(EnvNotFound(name)) && buf == old(buf)
    {
      var key, endEnv := ReadEnvName(startEnv + 5);
      if !Resolves(env, key) {
        return Some(EnvNotFound(key));
      }
      buf := buf[..startEnv] + env[key] + buf[endEnv..];
      return None;
    }

    /** The body of the Read loop: one byte, with a reference replaced by its value. */
    method ReadExpanded(env: Environment) returns (bit: Byte, err: Option<Error>)
      modifies this
      ensures match Step(env, old(Rest()), old(isInString))
              case Fail(e) => err == Some(e)
              case Got(b, rest, inStr) => err == None && bit == b && Rest() == rest && isInString == inStr
    {
      hide NextByte, Step, NameLength, AfterRef, RefName;
      StepIsNextByte(env, Rest(), isInString);
      bit, err := ReadByte();
      if bit == '*' && CheckMeta() {
        AfterSplice(env, buf, indx);
        err := ReplaceEnv(env, indx - 1);
        if err != None {
          return;
        }
        bit := buf[indx - 1];
      }
    }

    /**
     Fills `p`.  What is delivered is a function of the unread text alone, up to the
     first error; an empty `p` is reported as one byte read.
     */
    method Read(env: Environment, p: array<Byte>) returns (n: nat, err: Option<Error>)
      modifies this, p
      ensures p.Length == 0 ==> n == 1 && err == None && Rest() == old(Rest()) && isInString == old(isInString)
      ensures p.Length > 0 ==>
                var d := Run(env, old(Rest()), old(isInString), p.Length);
                && n == |d.out| && p[..n] == d.out && err == d.error
                && (err == None ==> Rest() == d.rest && isInString == d.inString)
    {
      hide Step;
      n, err := 0, None;
      ghost var goal := Run(env, Rest(), isInString, p.Length);
      var next := 0;
      while next < p.Length
        invariant next <= p.Length && n == (if next == 0 then 0 else next - 1) && err == None
        invariant goal == After(p[..next], Run(env, Rest(), isInString, p.Length - next))
      {
        n := next;
        ghost var done := p[..next];
        p[n], err := ReadExpanded(env);
        assert p[..next] == done;
        if err != None {
          return;
        }
        next := next + 1;
        assert p[..next] == done + [p[n]];
        AfterAppend(done, p[n], Run(env, Rest(), isInString, p.Length - next));
      }
      n := n + 1;
    }
  }
}
