/**
 The relaxed-JSON text that the configuration reader accepts, as pure functions of
 the unread part of the buffer.  Nothing here mentions an index: what the reader
 delivers next depends only on the unread bytes and on whether it is inside a string.
 */
module RjLexical {
  import opened Wrappers

  /** A byte, written as the character with the same code. */
  type Byte = c: char | c as int < 256 witness 'a'

  type Text = seq<Byte>

  datatype Error = Eof | IncompleteComment | EnvNotFound(name: Text)

  predicate IsNewLine(c: Byte) {
    c == '\n' || c == '\r'
  }

  predicate IsWhiteSpace(c: Byte) {
    c == ' ' || c == '\t' || IsNewLine(c) || c == '\0'
  }

  predicate IsAlfanum(c: Byte) {
    'a' <= c <= 'z' || 'A' <= c <= 'Z' || '0' <= c <= '9'
  }

  predicate IsCloser(c: Byte) {
    c == ']' || c == '}'
  }

  predicate OpensLineComment(s: Text) {
    |s| > 1 && s[0] == '/' && s[1] == '/'
  }

  predicate OpensBlockComment(s: Text) {
    |s| > 1 && s[0] == '/' && s[1] == '*'
  }

  predicate OpensComment(s: Text) {
    OpensLineComment(s) || OpensBlockComment(s)
  }

  /** Number of bytes up to and including the first newline, or all of them. */
  function LineEnd(s: Text): (e: nat)
    ensures e <= |s|
    ensures s != [] ==> e > 0
  {
    if s == [] then 0
    else if IsNewLine(s[0]) then 1
    else 1 + LineEnd(s[1..])
  }

  /** The position after the first star-slash whose slash is at `j` or later. */
  function BlockEnd(s: Text, j: nat): (e: Option<nat>)
    requires j >= 1
    ensures e.Some? ==> j < e.value <= |s| && s[e.value - 2] == '*' && s[e.value - 1] == '/'
    decreases |s| - j
  {
    if j >= |s| then None
    else if s[j - 1] == '*' && s[j] == '/' then Some(j + 1)
    else BlockEnd(s, j + 1)
  }

  datatype Skipped = More(rest: Text) | Done(error: Error)

  /**
   Skips whitespace and comments.  `k` is how far behind the opening slash the
   closing slash of a block comment is first looked for.
   */
  function Skip(s: Text, k: nat): (r: Skipped)
    requires k >= 3
    ensures r.More? ==> 0 < |r.rest| <= |s|
    decreases |s|
  {
    if s == [] then Done(Eof)
    else if IsWhiteSpace(s[0]) then Skip(s[1..], k)
    else if OpensLineComment(s) then Skip(s[LineEnd(s)..], k)
    else if OpensBlockComment(s) then
      match BlockEnd(s, k)
      case None => Done(IncompleteComment)
      case Some(e) => Skip(s[e..], k)
    else More(s)
  }

  /** One unfolding of Skip, for proofs that hide its body. */
  lemma SkipStep(s: Text, k: nat)
    requires k >= 3
    ensures s == [] ==> Skip(s, k) == Done(Eof)
    ensures s != [] && IsWhiteSpace(s[0]) ==> Skip(s, k) == Skip(s[1..], k)
    ensures OpensLineComment(s) ==> Skip(s, k) == Skip(s[LineEnd(s)..], k)
    ensures OpensBlockComment(s) && BlockEnd(s, k).None? ==> Skip(s, k) == Done(IncompleteComment)
    ensures OpensBlockComment(s) && BlockEnd(s, k).Some? ==> Skip(s, k) == Skip(s[BlockEnd(s, k).value..], k)
    ensures s != [] && !IsWhiteSpace(s[0]) && !OpensComment(s) ==> Skip(s, k) == More(s)
  {
  }

  /** Close offset on the path that reads a byte, and on the path that peeks behind a comma. */
  const READ_OFFSET: nat := 4
  const PEEK_OFFSET: nat := 3

  datatype Next = Got(b: Byte, rest: Text, inString: bool) | Fail(error: Error)

  /** The next byte with layout and trailing commas removed. */
  function NextByte(s: Text, inString: bool): (r: Next)
    ensures r.Got? ==> |r.rest| < |s|
  {
    if inString then
      if s == [] then Fail(Eof) else Got(s[0], s[1..], s[0] != '"')
    else
      match Skip(s, READ_OFFSET)
      case Done(e) => Fail(e)
      case More(t) =>
        if t[0] != ',' then Got(t[0], t[1..], t[0] == '"')
        else
          match Skip(t[1..], PEEK_OFFSET)
          case Done(e) => Fail(e)
          case More(u) =>
            if IsCloser(u[0]) then Got(u[0], u[1..], false) else Got(',', u, false)
  }

  datatype Stream = Stream(out: Text, error: Error)

  /** Everything delivered before the first error, and that error. */
  function Strip(s: Text, inString: bool): Stream
    decreases |s|
  {
    match NextByte(s, inString)
    case Fail(e) => Stream([], e)
    case Got(b, rest, inStr) =>
      var tail := Strip(rest, inStr);
      Stream([b] + tail.out, tail.error)
  }

  // ----- environment references

  type Environment = map<Text, Text>

  const META_TAIL: Text := ['e', 'n', 'v', ':']

  /** With a star just read, does a reference follow?  At least one more byte must be there. */
  predicate OpensReference(rest: Text) {
    |rest| > 4 && rest[..4] == META_TAIL
  }

  /** Length of the longest run of name bytes at the front of `s`. */
  function NameLength(s: Text): (n: nat)
    ensures n <= |s|
  {
    if s == [] || !(IsAlfanum(s[0]) || s[0] == '_') then 0 else 1 + NameLength(s[1..])
  }

  function RefName(rest: Text): Text
    requires OpensReference(rest)
  {
    rest[4..4 + NameLength(rest[4..])]
  }

  function AfterRef(rest: Text): (t: Text)
    requires OpensReference(rest)
    ensures |t| < |rest|
  {
    rest[4 + NameLength(rest[4..])..]
  }

  /** An unset variable and one set to the empty string are both missing. */
  predicate Resolves(env: Environment, name: Text) {
    name in env && env[name] != []
  }

  /** One delivered byte, environment references included. */
  function Step(env: Environment, s: Text, inString: bool): (r: Next) {
    var r := NextByte(s, inString);
    if r.Got? && r.b == '*' && OpensReference(r.rest) then
      var name := RefName(r.rest);
      if Resolves(env, name)
      then Got(env[name][0], env[name][1..] + AfterRef(r.rest), r.inString)
      else Fail(EnvNotFound(name))
    else r
  }

  datatype Delivered = Delivered(out: Text, rest: Text, inString: bool, error: Option<Error>)

  /** Up to `n` bytes, fewer only when an error comes first. */
  function Run(env: Environment, s: Text, inString: bool, n: nat): (d: Delivered)
    ensures |d.out| <= n
    ensures d.error.None? <==> |d.out| == n
    decreases n
  {
    if n == 0 then Delivered([], s, inString, None)
    else
      match Step(env, s, inString)
      case Fail(e) => Delivered([], s, inString, Some(e))
      case Got(b, rest, inStr) =>
        After([b], Run(env, rest, inStr, n - 1))
  }

  /** The bytes `out` followed by a later delivery. */
  function After(out: Text, d: Delivered): Delivered {
    d.(out := out + d.out)
  }

  lemma AfterAppend(out: Text, b: Byte, d: Delivered)
    ensures After(out + [b], d) == After(out, After([b], d))
  {
    assert out + [b] + d.out == out + ([b] + d.out);
  }

  /** One unfolding of Run, for proofs that hide its body. */
  lemma RunStep(env: Environment, s: Text, inString: bool, n: nat)
    ensures n == 0 ==> Run(env, s, inString, n) == Delivered([], s, inString, None)
    ensures n > 0 ==>
              Run(env, s, inString, n) ==
              match Step(env, s, inString)
              case Fail(e) => Delivered([], s, inString, Some(e))
              case Got(b, rest, inStr) => After([b], Run(env, rest, inStr, n - 1))
  {
  }
}
