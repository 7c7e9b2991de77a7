/**
 Environment references: splicing values into the buffer while it is read delivers
 the same bytes as substituting them in the text first and reading the result, as long
 as the first byte of a value, which is delivered without being lexed, needs no lexing.
 */
module RjEnv {
  import opened Wrappers
  import opened RjLexical
  import opened RjComments

  predicate IsReference(s: Text) {
    s != [] && s[0] == '*' && OpensReference(s[1..])
  }

  function NextInString(b: Byte, inString: bool): bool {
    if inString then b != '"' else b == '"'
  }

  function NextOffset(b: Byte, inString: bool, k: nat): nat {
    if inString then READ_OFFSET
    else if IsWhiteSpace(b) then k
    else if b == ',' then PEEK_OFFSET
    else READ_OFFSET
  }

  /**
   The text with every reference outside comments replaced by its value, where it has one.
   Strings and comments that a value opens or closes go on into the text behind it.  Only the
   last `free` bytes are searched for references: those before them come from a value.
   */
  function Expand(env: Environment, s: Text, free: nat, inString: bool, k: nat): (t: Text)
    requires k >= 3
    decreases if free < |s| then free else |s|, |s|
  {
    if s == [] then []
    else if !inString && OpensLineComment(s) then
      s[..LineEnd(s)] + Expand(env, s[LineEnd(s)..], free, false, k)
    else if !inString && OpensBlockComment(s) then
      match BlockEnd(s, k)
      case None => s
      case Some(e) => s[..e] + Expand(env, s[e..], free, false, k)
    else if |s| <= free && HasValue(env, s) then
      Expand(env, ValueAt(env, s) + AfterRef(s[1..]), |AfterRef(s[1..])|, inString, k)
    else
      [s[0]] + Expand(env, s[1..], free, NextInString(s[0], inString), NextOffset(s[0], inString, k))
  }

  /** A reference whose variable is set. */
  predicate HasValue(env: Environment, s: Text) {
    IsReference(s) && Resolves(env, RefName(s[1..]))
  }

  function ValueAt(env: Environment, s: Text): (v: Text)
    requires HasValue(env, s)
    ensures v != []
  {
    env[RefName(s[1..])]
  }

  /** What is left unread once the first byte of a value is delivered. */
  function Spliced(env: Environment, s: Text): Text
    requires HasValue(env, s)
  {
    ValueAt(env, s)[1..] + AfterRef(s[1..])
  }

  /** A byte that keeps a comma stands right behind it. */
  predicate KeepsComma(rest: Text) {
    rest != [] && !IsWhiteSpace(rest[0]) && !OpensComment(rest) && !IsCloser(rest[0])
  }

  /** The offset behind the first byte of a value. */
  function FirstOffset(b: Byte, inString: bool): nat {
    if !inString && b == ',' then PEEK_OFFSET else READ_OFFSET
  }

  /** The lexer passes the first byte of a value on unchanged, in front of what follows it. */
  predicate FirstFits(value: Text, behind: Text, inString: bool, k: nat)
    requires value != []
  {
    && value[0] != '"'
    && (!inString ==>
          && !IsWhiteSpace(value[0])
          && !OpensComment(value + behind)
          && (value[0] == ',' ==> KeepsComma(value[1..] + behind))
          && (k == PEEK_OFFSET ==> !IsCloser(value[0])))
  }

  /** The first byte of every value substituted by Expand fits, and no value opens a reference that has a value. */
  predicate Fits(env: Environment, s: Text, free: nat, inString: bool, k: nat)
    requires k >= 3
    decreases if free < |s| then free else |s|, |s|
  {
    if s == [] then true
    else if !inString && OpensLineComment(s) then Fits(env, s[LineEnd(s)..], free, false, k)
    else if !inString && OpensBlockComment(s) then
      BlockEnd(s, k).Some? ==> Fits(env, s[BlockEnd(s, k).value..], free, false, k)
    else if HasValue(env, s) then
      && |s| <= free
      && FirstFits(ValueAt(env, s), AfterRef(s[1..]), inString, k)
      && Fits(env, Spliced(env, s), |AfterRef(s[1..])|, inString, FirstOffset(ValueAt(env, s)[0], inString))
    else
      Fits(env, s[1..], free, NextInString(s[0], inString), NextOffset(s[0], inString, k))
  }

  /** First bytes that fit wherever the value is substituted. */
  predicate PlainByte(b: Byte) {
    b != '"' && !IsWhiteSpace(b) && b != '/' && b != ',' && !IsCloser(b)
  }

  /** A value that starts with a plain byte and has no star behind it. */
  predicate PlainValue(value: Text) {
    value != [] ==> PlainByte(value[0]) && '*' !in value[1..]
  }

  /** No reference opens in front of the last `free` bytes. */
  ghost predicate NoStarBefore(s: Text, free: nat) {
    forall i :: 0 <= i < |s| - free ==> s[i] != '*'
  }

  lemma NoStarBehind(s: Text, free: nat, e: nat)
    requires NoStarBefore(s, free) && e <= |s|
    ensures NoStarBefore(s[e..], free)
  {
    forall i | 0 <= i < |s[e..]| - free ensures s[e..][i] != '*' {
      assert s[e..][i] == s[e + i];
    }
  }

  /** An environment of plain values, such as alphanumeric ones or `*syslog`, fits every text. */
  lemma {:induction false} PlainEnvironmentFits(env: Environment, s: Text, free: nat, inString: bool, k: nat)
    requires k >= 3 && NoStarBefore(s, free)
    requires forall name :: name in env ==> PlainValue(env[name])
    ensures Fits(env, s, free, inString, k)
    decreases if free < |s| then free else |s|, |s|
  {
    hide LineEnd, BlockEnd, RefName, AfterRef, Fits, NoStarBefore;
    FitsStep(env, s, free, inString, k);
    if s != [] {
      if !inString && OpensLineComment(s) {
        NoStarBehind(s, free, LineEnd(s));
        PlainEnvironmentFits(env, s[LineEnd(s)..], free, false, k);
      } else if !inString && OpensBlockComment(s) {
        if BlockEnd(s, k).Some? {
          NoStarBehind(s, free, BlockEnd(s, k).value);
          PlainEnvironmentFits(env, s[BlockEnd(s, k).value..], free, false, k);
        }
      } else if HasValue(env, s) {
        StarIsFree(s, free);
        var value, behind := ValueAt(env, s), AfterRef(s[1..]);
        assert PlainValue(value);
        StarFreeTail(value, behind);
        PlainEnvironmentFits(env, Spliced(env, s), |behind|, inString, READ_OFFSET);
      } else {
        NoStarBehind(s, free, 1);
        PlainEnvironmentFits(env, s[1..], free, NextInString(s[0], inString), NextOffset(s[0], inString, k));
      }
    }
  }

  lemma StarIsFree(s: Text, free: nat)
    requires NoStarBefore(s, free) && s != [] && s[0] == '*'
    ensures |s| <= free
  {
  }

  lemma StarFreeTail(value: Text, behind: Text)
    requires value != [] && '*' !in value[1..]
    ensures NoStarBefore(value[1..] + behind, |behind|)
  {
  }

  // ----- one unfolding each, for proofs that hide the bodies

  lemma ExpandStep(env: Environment, s: Text, free: nat, inString: bool, k: nat)
    requires k >= 3
    ensures s == [] ==> Expand(env, s, free, inString, k) == []
    ensures !inString && OpensLineComment(s) ==>
              Expand(env, s, free, inString, k) == s[..LineEnd(s)] + Expand(env, s[LineEnd(s)..], free, false, k)
    ensures !inString && OpensBlockComment(s) && BlockEnd(s, k).None? ==> Expand(env, s, free, inString, k) == s
    ensures !inString && OpensBlockComment(s) && BlockEnd(s, k).Some? ==>
              var e := BlockEnd(s, k).value;
              Expand(env, s, free, inString, k) == s[..e] + Expand(env, s[e..], free, false, k)
    ensures HasValue(env, s) && |s| <= free ==>
              Expand(env, s, free, inString, k) ==
              Expand(env, ValueAt(env, s) + AfterRef(s[1..]), |AfterRef(s[1..])|, inString, k)
    ensures s != [] && (inString || !OpensComment(s)) && !(HasValue(env, s) && |s| <= free) ==>
              Expand(env, s, free, inString, k) ==
              [s[0]] + Expand(env, s[1..], free, NextInString(s[0], inString), NextOffset(s[0], inString, k))
  {
  }

  lemma FitsStep(env: Environment, s: Text, free: nat, inString: bool, k: nat)
    requires k >= 3
    ensures s == [] || (!inString && OpensBlockComment(s) && BlockEnd(s, k).None?) ==> Fits(env, s, free, inString, k)
    ensures !inString && OpensLineComment(s) ==>
              Fits(env, s, free, inString, k) == Fits(env, s[LineEnd(s)..], free, false, k)
    ensures !inString && OpensBlockComment(s) && BlockEnd(s, k).Some? ==>
              Fits(env, s, free, inString, k) == Fits(env, s[BlockEnd(s, k).value..], free, false, k)
    ensures HasValue(env, s) ==>
              (Fits(env, s, free, inString, k) <==>
               && |s| <= free
               && FirstFits(ValueAt(env, s), AfterRef(s[1..]), inString, k)
               && Fits(env, Spliced(env, s), |AfterRef(s[1..])|, inString, FirstOffset(ValueAt(env, s)[0], inString)))
    ensures s != [] && (inString || !OpensComment(s)) && !HasValue(env, s) ==>
              Fits(env, s, free, inString, k) ==
              Fits(env, s[1..], free, NextInString(s[0], inString), NextOffset(s[0], inString, k))
  {
  }

  /** The text behind the first byte of a value that fits. */
  lemma SpliceStep(env: Environment, s: Text, free: nat, inString: bool, k: nat)
    requires k >= 3 && HasValue(env, s) && Fits(env, s, free, inString, k)
    ensures var b := ValueAt(env, s)[0];
            && Fits(env, Spliced(env, s), |AfterRef(s[1..])|, inString, FirstOffset(b, inString))
            && Expand(env, s, free, inString, k) ==
               [b] + Expand(env, Spliced(env, s), |AfterRef(s[1..])|, inString, FirstOffset(b, inString))
  {
    hide Expand, Fits, LineEnd, BlockEnd, RefName, AfterRef;
    FitsStep(env, s, free, inString, k);
    ExpandStep(env, s, free, inString, k);
    var value, behind := ValueAt(env, s), AfterRef(s[1..]);
    var all := value + behind;
    assert all[0] == value[0] && all[1..] == Spliced(env, s);
    ExpandStep(env, all, |behind|, inString, k);
  }

  /** At a significant byte the offset does not matter. */
  lemma OffsetIrrelevant(env: Environment, s: Text, free: nat)
    requires s != [] && !IsWhiteSpace(s[0]) && !OpensComment(s) && Fits(env, s, free, false, PEEK_OFFSET)
    ensures Expand(env, s, free, false, READ_OFFSET) == Expand(env, s, free, false, PEEK_OFFSET)
    ensures Fits(env, s, free, false, READ_OFFSET)
  {
    hide Expand, Fits, LineEnd, BlockEnd, RefName, AfterRef;
    FitsStep(env, s, free, false, PEEK_OFFSET);
    FitsStep(env, s, free, false, READ_OFFSET);
    if HasValue(env, s) {
      SpliceStep(env, s, free, false, PEEK_OFFSET);
      SpliceStep(env, s, free, false, READ_OFFSET);
    } else {
      ExpandStep(env, s, free, false, PEEK_OFFSET);
      ExpandStep(env, s, free, false, READ_OFFSET);
    }
  }

  /** Substitution keeps the first byte, unless a reference stands there. */
  lemma ExpandHead(env: Environment, s: Text, free: nat, inString: bool, k: nat)
    requires k >= 3 && s != [] && s[0] != '*'
    ensures var t := Expand(env, s, free, inString, k); t != [] && t[0] == s[0]
  {
    hide Expand, LineEnd, BlockEnd, RefName, AfterRef;
    ExpandStep(env, s, free, inString, k);
  }

  /** A slash that opens no comment opens none once the text behind it is substituted. */
  lemma SlashStays(env: Environment, b: Byte, s: Text, free: nat, inString: bool, k: nat)
    requires k >= 3 && !OpensComment([b] + s)
    ensures !OpensComment([b] + Expand(env, s, free, inString, k))
  {
    hide Expand;
    if s == [] {
      ExpandStep(env, s, free, inString, k);
    } else if s[0] != '*' {
      ExpandHead(env, s, free, inString, k);
    }
  }

  /** Substitution turns a significant byte into a significant byte, and opens no comment. */
  lemma ExpandSignificant(env: Environment, s: Text, free: nat, k: nat)
    requires k >= 3 && Fits(env, s, free, false, k)
    requires s != [] && !IsWhiteSpace(s[0]) && !OpensComment(s)
    ensures var t := Expand(env, s, free, false, k);
            && t != [] && !IsWhiteSpace(t[0]) && !OpensComment(t)
            && (!HasValue(env, s) ==> (t[0] == ',' <==> s[0] == ','))
            && (k == PEEK_OFFSET ==> (IsCloser(t[0]) <==> IsCloser(s[0])))
  {
    hide Expand, Fits, LineEnd, BlockEnd, RefName, AfterRef;
    ExpandStep(env, s, free, false, k);
    FitsStep(env, s, free, false, k);
    if HasValue(env, s) {
      SpliceStep(env, s, free, false, k);
      var value, behind := ValueAt(env, s), AfterRef(s[1..]);
      assert [value[0]] + Spliced(env, s) == value + behind;
      SlashStays(env, value[0], Spliced(env, s), |behind|, false, FirstOffset(value[0], false));
    } else {
      assert [s[0]] + s[1..] == s;
      SlashStays(env, s[0], s[1..], free, NextInString(s[0], false), NextOffset(s[0], false, k));
    }
  }

  lemma SkipExpandLine(env: Environment, s: Text, free: nat, k: nat)
    requires k >= 3 && OpensLineComment(s)
    ensures var e := LineEnd(s);
            && Skip(Expand(env, s, free, false, k), k) == Skip(Expand(env, s[e..], free, false, k), k)
            && Skip(s, k) == Skip(s[e..], k)
            && Fits(env, s, free, false, k) == Fits(env, s[e..], free, false, k)
  {
    hide Skip, Expand, Fits, LineEnd, BlockEnd;
    SkipStep(s, k);
    ExpandStep(env, s, free, false, k);
    FitsStep(env, s, free, false, k);
    var e := LineEnd(s);
    var x, y := Expand(env, s, free, false, k), Expand(env, s[e..], free, false, k);
    if e == |s| {
      assert s[e..] == [];
      ExpandStep(env, s[e..], free, false, k);
    }
    LineEndPrefix(s, y);
    assert x[0] == '/' && x[1] == '/';
    assert x[e..] == y;
    SkipStep(x, k);
  }

  lemma SkipExpandBlock(env: Environment, s: Text, free: nat, k: nat)
    requires k >= 3 && OpensBlockComment(s) && BlockEnd(s, k).Some?
    ensures var e := BlockEnd(s, k).value;
            && Skip(Expand(env, s, free, false, k), k) == Skip(Expand(env, s[e..], free, false, k), k)
            && Skip(s, k) == Skip(s[e..], k)
            && Fits(env, s, free, false, k) == Fits(env, s[e..], free, false, k)
  {
    hide Skip, Expand, Fits, LineEnd, BlockEnd;
    SkipStep(s, k);
    ExpandStep(env, s, free, false, k);
    FitsStep(env, s, free, false, k);
    var e := BlockEnd(s, k).value;
    var x, y := Expand(env, s, free, false, k), Expand(env, s[e..], free, false, k);
    BlockEndPrefix(s, k, y);
    assert x[0] == '/' && x[1] == '*';
    assert x[e..] == y;
    SkipStep(x, k);
  }

  /** Skipping layout and substituting commute. */
  lemma {:induction false} SkipExpand(env: Environment, s: Text, free: nat, k: nat)
    requires k >= 3 && Fits(env, s, free, false, k)
    ensures match Skip(s, k)
            case Done(e) => Skip(Expand(env, s, free, false, k), k) == Done(e)
            case More(t) =>
              && !IsWhiteSpace(t[0]) && !OpensComment(t)
              && Fits(env, t, free, false, k)
              && Skip(Expand(env, s, free, false, k), k) == More(Expand(env, t, free, false, k))
    decreases |s|
  {
    hide Skip, Expand, Fits, LineEnd, BlockEnd, RefName, AfterRef;
    if OpensLineComment(s) {
      SkipExpandLine(env, s, free, k);
      SkipExpand(env, s[LineEnd(s)..], free, k);
    } else if OpensBlockComment(s) && BlockEnd(s, k).Some? {
      SkipExpandBlock(env, s, free, k);
      SkipExpand(env, s[BlockEnd(s, k).value..], free, k);
    } else {
      SkipStep(s, k);
      ExpandStep(env, s, free, false, k);
      var x := Expand(env, s, free, false, k);
      SkipStep(x, k);
      if s != [] && IsWhiteSpace(s[0]) {
        FitsStep(env, s, free, false, k);
        SkipExpand(env, s[1..], free, k);
        assert x[1..] == Expand(env, s[1..], free, false, k);
      } else if s != [] && !OpensComment(s) {
        ExpandSignificant(env, s, free, k);
      }
    }
  }

  // ----- the simulation

  /** The number of bytes behind a step that are still searched for references. */
  function FreeAfter(env: Environment, s: Text, free: nat, inString: bool): nat {
    var r := NextByte(s, inString);
    if r.Got? && r.b == '*' && OpensReference(r.rest) && Resolves(env, RefName(r.rest)) then |AfterRef(r.rest)|
    else free
  }

  /** One delivered byte against one byte of the substituted text. */
  ghost predicate Simulates(env: Environment, s: Text, free: nat, inString: bool) {
    var x := NextByte(Expand(env, s, free, inString, READ_OFFSET), inString);
    var free' := FreeAfter(env, s, free, inString);
    match Step(env, s, inString)
    case Fail(EnvNotFound(_)) => x.Got? && x.b == '*'
    case Fail(e) => x == Fail(e)
    case Got(b, rest, inStr) =>
      && Fits(env, rest, free', inStr, READ_OFFSET)
      && x == Got(b, Expand(env, rest, free', inStr, READ_OFFSET), inStr)
  }

  lemma StepInString(env: Environment, s: Text, free: nat)
    requires Fits(env, s, free, true, READ_OFFSET)
    ensures Simulates(env, s, free, true)
  {
    hide Expand, Fits, RefName, AfterRef;
    ExpandStep(env, s, free, true, READ_OFFSET);
    FitsStep(env, s, free, true, READ_OFFSET);
    if HasValue(env, s) {
      SpliceStep(env, s, free, true, READ_OFFSET);
    }
  }

  /** The look-ahead behind a comma, on the text and on the substituted text. */
  lemma PeekExpand(env: Environment, s: Text, free: nat)
    requires Fits(env, s, free, false, PEEK_OFFSET)
    ensures var y := Skip(Expand(env, s, free, false, PEEK_OFFSET), PEEK_OFFSET);
            match Skip(s, PEEK_OFFSET)
            case Done(e) => y == Done(e)
            case More(u) =>
              && y == More(Expand(env, u, free, false, READ_OFFSET))
              && Fits(env, u, free, false, READ_OFFSET)
              && (IsCloser(y.rest[0]) <==> IsCloser(u[0]))
              && (IsCloser(u[0]) ==>
                    && Fits(env, u[1..], free, false, READ_OFFSET)
                    && y.rest == [u[0]] + Expand(env, u[1..], free, false, READ_OFFSET))
  {
    hide Skip, Expand, Fits, RefName, AfterRef;
    SkipExpand(env, s, free, PEEK_OFFSET);
    var second := Skip(s, PEEK_OFFSET);
    if second.More? {
      var u := second.rest;
      ExpandSignificant(env, u, free, PEEK_OFFSET);
      OffsetIrrelevant(env, u, free);
      ExpandStep(env, u, free, false, READ_OFFSET);
      FitsStep(env, u, free, false, READ_OFFSET);
    }
  }

  /** The first byte of a value, as it would be delivered from the substituted text. */
  lemma FirstByteStep(env: Environment, t: Text, free: nat)
    requires HasValue(env, t) && Fits(env, t, free, false, READ_OFFSET)
    ensures var b, rest, free' := ValueAt(env, t)[0], Spliced(env, t), |AfterRef(t[1..])|;
            && Fits(env, rest, free', false, READ_OFFSET)
            && NextByte(Expand(env, t, free, false, READ_OFFSET), false) ==
               Got(b, Expand(env, rest, free', false, READ_OFFSET), false)
  {
    hide Skip, Expand, Fits, RefName, AfterRef;
    FitsStep(env, t, free, false, READ_OFFSET);
    SpliceStep(env, t, free, false, READ_OFFSET);
    ExpandSignificant(env, t, free, READ_OFFSET);
    var b, rest, free' := ValueAt(env, t)[0], Spliced(env, t), |AfterRef(t[1..])|;
    var all, x := Expand(env, t, free, false, READ_OFFSET), Expand(env, rest, free', false, FirstOffset(b, false));
    assert all[1..] == x;
    SkipStep(all, READ_OFFSET);
    if b == ',' {
      ExpandSignificant(env, rest, free', PEEK_OFFSET);
      OffsetIrrelevant(env, rest, free');
      SkipStep(x, PEEK_OFFSET);
    }
  }

  /** Layout in front of a byte does not matter. */
  lemma NextByteBehindLayout(s: Text, t: Text)
    requires Skip(s, READ_OFFSET) == More(t) && !IsWhiteSpace(t[0]) && !OpensComment(t)
    ensures NextByte(s, false) == NextByte(t, false)
  {
    hide Skip;
    SkipStep(t, READ_OFFSET);
  }

  lemma StepOutside(env: Environment, s: Text, free: nat)
    requires Fits(env, s, free, false, READ_OFFSET)
    ensures Simulates(env, s, free, false)
  {
    hide Skip, Expand, Fits, RefName, AfterRef;
    SkipExpand(env, s, free, READ_OFFSET);
    SkipHasNoReference(s, READ_OFFSET);
    var first := Skip(s, READ_OFFSET);
    if first.More? {
      var t := first.rest;
      ExpandSignificant(env, t, free, READ_OFFSET);
      ExpandStep(env, t, free, false, READ_OFFSET);
      FitsStep(env, t, free, false, READ_OFFSET);
      if HasValue(env, t) {
        NextByteBehindLayout(Expand(env, s, free, false, READ_OFFSET), Expand(env, t, free, false, READ_OFFSET));
        FirstByteStep(env, t, free);
      } else if t[0] == ',' {
        PeekExpand(env, t[1..], free);
        SkipHasNoReference(t[1..], PEEK_OFFSET);
        assert Expand(env, t, free, false, READ_OFFSET)[1..] == Expand(env, t[1..], free, false, PEEK_OFFSET);
      }
    }
  }

  /**
   A read of `n` bytes delivers a prefix of the stream `whole`, stops with the same error, and
   stops short only at a reference that has no value.
   */
  predicate Agrees(d: Delivered, n: nat, whole: Stream) {
    && d.out <= whole.out
    && match d.error
       case None => |d.out| == n
       case Some(EnvNotFound(_)) => |d.out| < |whole.out| && whole.out[|d.out|] == '*'
       case Some(e) => d.out == whole.out && e == whole.error
  }

  /**
   For every number of bytes asked for, splicing while reading delivers what the
   substituted text delivers, up to a reference that has no value.
   */
  lemma {:induction false} EnvironmentSplicing(env: Environment, s: Text, free: nat, inString: bool, n: nat)
    requires Fits(env, s, free, inString, READ_OFFSET)
    ensures Agrees(Run(env, s, inString, n), n, Strip(Expand(env, s, free, inString, READ_OFFSET), inString))
    decreases n
  {
    hide Step, NextByte, Expand, Fits, Run, FreeAfter;
    RunStep(env, s, inString, n);
    if n > 0 {
      if inString { StepInString(env, s, free); } else { StepOutside(env, s, free); }
      assert Simulates(env, s, free, inString);
      match Step(env, s, inString)
      case Fail(e) =>
      case Got(b, rest, inStr) => EnvironmentSplicing(env, rest, FreeAfter(env, s, free, inString), inStr, n - 1);
    }
  }

  // ----- text without references

  ghost predicate ReferenceFree(s: Text) {
    forall i :: 0 <= i < |s| ==> !IsReference(s[i..])
  }

  /** A text is free of references if it follows on from one that is. */
  lemma ReferenceFreeTail(s: Text, j: nat)
    requires ReferenceFree(s) && j <= |s|
    ensures ReferenceFree(s[j..]) && !IsReference(s[j..])
  {
    forall i | 0 <= i < |s[j..]| ensures !IsReference(s[j..][i..]) {
      assert s[j..][i..] == s[j + i..];
    }
  }

  lemma ReferenceFreeHead(env: Environment, s: Text)
    requires ReferenceFree(s)
    ensures !HasValue(env, s)
  {
    if s != [] {
      assert s[0..] == s;
    }
  }

  lemma {:induction false} ReferenceFreeExpand(env: Environment, s: Text, free: nat, inString: bool, k: nat)
    requires k >= 3 && ReferenceFree(s)
    ensures Expand(env, s, free, inString, k) == s && Fits(env, s, free, inString, k)
    decreases |s|
  {
    hide Expand, Fits, LineEnd, BlockEnd, RefName, AfterRef, ReferenceFree, HasValue;
    ExpandStep(env, s, free, inString, k);
    FitsStep(env, s, free, inString, k);
    ReferenceFreeHead(env, s);
    if s != [] {
      if !inString && OpensLineComment(s) {
        ReferenceFreeTail(s, LineEnd(s));
        ReferenceFreeExpand(env, s[LineEnd(s)..], free, false, k);
      } else if !inString && OpensBlockComment(s) {
        if BlockEnd(s, k).Some? {
          ReferenceFreeTail(s, BlockEnd(s, k).value);
          ReferenceFreeExpand(env, s[BlockEnd(s, k).value..], free, false, k);
        }
      } else {
        ReferenceFreeTail(s, 1);
        ReferenceFreeExpand(env, s[1..], free, NextInString(s[0], inString), NextOffset(s[0], inString, k));
      }
    }
  }

  /** Without references every read of n bytes delivers the first n bytes of one fixed stream. */
  lemma PlainDelivery(env: Environment, s: Text, inString: bool, n: nat)
    requires ReferenceFree(s)
    ensures var d := Run(env, s, inString, n);
            var whole := Strip(s, inString);
            if n <= |whole.out| then d.error == None && d.out == whole.out[..n]
            else d.error == Some(whole.error) && d.out == whole.out
  {
    hide Step, NextByte, Expand, Fits, Run, Strip;
    ReferenceFreeExpand(env, s, |s|, inString, READ_OFFSET);
    EnvironmentSplicing(env, s, |s|, inString, n);
    NoEnvironmentError(env, s, inString, n);
  }

  lemma {:induction false} SkipIsTail(s: Text, k: nat) returns (j: nat)
    requires k >= 3
    ensures Skip(s, k).More? ==> j < |s| && Skip(s, k).rest == s[j..]
    decreases |s|
  {
    hide Skip, LineEnd, BlockEnd;
    SkipStep(s, k);
    j := 0;
    if s != [] {
      var d := if IsWhiteSpace(s[0]) then 1
               else if OpensLineComment(s) then LineEnd(s)
               else if OpensBlockComment(s) && BlockEnd(s, k).Some? then BlockEnd(s, k).value
               else 0;
      if d > 0 {
        j := SkipIsTail(s[d..], k);
        if Skip(s, k).More? {
          assert s[d..][j..] == s[d + j..];
        }
        j := d + j;
      } else {
        assert s[0..] == s;
      }
    }
  }

  /** What remains is a tail of the text, and a byte other than a comma stands right before it. */
  lemma NextByteIsTail(s: Text, inString: bool) returns (j: nat)
    ensures var r := NextByte(s, inString);
            r.Got? ==> j <= |s| && r.rest == s[j..] && (r.b != ',' ==> j > 0 && s[j - 1] == r.b)
  {
    hide Skip;
    j := 1;
    if !inString {
      var p := SkipIsTail(s, READ_OFFSET);
      var first := Skip(s, READ_OFFSET);
      if first.More? {
        j := p + 1;
        assert first.rest[1..] == s[j..];
        if first.rest[0] == ',' {
          var q := SkipIsTail(s[j..], PEEK_OFFSET);
          var second := Skip(s[j..], PEEK_OFFSET);
          if second.More? {
            assert s[j..][q..] == s[j + q..];
            assert second.rest[1..] == s[j + q + 1..];
            j := if IsCloser(second.rest[0]) then j + q + 1 else j + q;
          }
        }
      }
    }
  }

  lemma {:induction false} NoEnvironmentError(env: Environment, s: Text, inString: bool, n: nat)
    requires ReferenceFree(s)
    ensures match Run(env, s, inString, n).error
            case Some(EnvNotFound(_)) => false
            case _ => true
    decreases n
  {
    hide NextByte, Run, ReferenceFree;
    RunStep(env, s, inString, n);
    NextByteHasNoReference(s, inString);
    var r := NextByte(s, inString);
    if r.Got? {
      var j := NextByteIsTail(s, inString);
      ReferenceFreeTail(s, j);
      if r.b != ',' {
        assert s[j - 1..][1..] == s[j..];
        ReferenceFreeTail(s, j - 1);
      }
      if n > 0 {
        NoEnvironmentError(env, r.rest, r.inString, n - 1);
      }
    }
  }

  lemma NextByteHasNoReference(s: Text, inString: bool)
    ensures match NextByte(s, inString)
            case Fail(EnvNotFound(_)) => false
            case _ => true
  {
    hide LineEnd, BlockEnd;
    SkipHasNoReference(s, READ_OFFSET);
    var first := Skip(s, READ_OFFSET);
    if first.More? {
      SkipHasNoReference(first.rest[1..], PEEK_OFFSET);
    }
  }

  // ----- values that do not fit

  const A: Text := ['A']
  const B: Text := ['B']
  const REFERENCE_A: Text := ['*', 'e', 'n', 'v', ':', 'A']
  const REFERENCE_B: Text := ['*', 'e', 'n', 'v', ':', 'B']

  /** The environment in which one variable is set, to a single byte. */
  function OneByte(b: Byte): Environment {
    map[A := [b]]
  }

  /** The text delivers, read with splicing, what it delivers once substituted. */
  ghost predicate SplicingIsSubstituting(env: Environment, s: Text) {
    forall n :: Agrees(Run(env, s, false, n), n, Strip(Expand(env, s, |s|, false, READ_OFFSET), false))
  }

  /** A reference at the front of a text. */
  lemma ReferenceInFront(ref: Text, name: Text, behind: Text)
    requires (ref == REFERENCE_A && name == A) || (ref == REFERENCE_B && name == B)
    requires behind != [] ==> !IsAlfanum(behind[0]) && behind[0] != '_'
    ensures IsReference(ref + behind) && RefName((ref + behind)[1..]) == name && AfterRef((ref + behind)[1..]) == behind
    ensures forall k :: k >= 3 ==> Skip(ref + behind, k) == More(ref + behind)
    ensures NextByte(ref + behind, false) == Got('*', (ref + behind)[1..], false)
  {
    hide Skip;
    var s := ref + behind;
    var rest := s[1..];
    assert rest[..4] == META_TAIL;
    assert rest[4..] == name + behind;
    assert (name + behind)[1..] == behind;
    assert NameLength(behind) == 0;
    assert NameLength(rest[4..]) == 1;
    forall k | k >= 3 ensures Skip(s, k) == More(s) {
      SkipStep(s, k);
    }
  }

  /** The first byte that is spliced in is delivered as it is. */
  lemma SplicedFirst(env: Environment, s: Text)
    requires HasValue(env, s)
    ensures Step(env, s, false) == Got(ValueAt(env, s)[0], Spliced(env, s), false)
  {
    hide Skip, RefName, AfterRef;
    SkipStep(s, READ_OFFSET);
  }

  lemma RunOne(env: Environment, s: Text)
    requires Step(env, s, false).Got?
    ensures Run(env, s, false, 1).out == [Step(env, s, false).b]
  {
    hide Run, Step;
    RunStep(env, s, false, 1);
    var Got(b, rest, inStr) := Step(env, s, false);
    RunStep(env, rest, inStr, 0);
  }

  lemma ShortIsReferenceFree(s: Text)
    requires |s| <= 5
    ensures ReferenceFree(s)
  {
  }

  /** Outside strings no whitespace is ever delivered. */
  lemma NoSpaceDelivered(s: Text)
    ensures Strip(s, false).out != [] ==> !IsWhiteSpace(Strip(s, false).out[0])
  {
    hide Skip;
    SkipStopsAtByte(s, READ_OFFSET);
    var first := Skip(s, READ_OFFSET);
    if first.More? {
      SkipStopsAtByte(first.rest[1..], PEEK_OFFSET);
    }
  }

  lemma {:induction false} SkipStopsAtByte(s: Text, k: nat)
    requires k >= 3
    ensures Skip(s, k).More? ==> !IsWhiteSpace(Skip(s, k).rest[0])
    decreases |s|
  {
    hide Skip, LineEnd, BlockEnd;
    SkipStep(s, k);
    if s != [] {
      if IsWhiteSpace(s[0]) {
        SkipStopsAtByte(s[1..], k);
      } else if OpensLineComment(s) {
        SkipStopsAtByte(s[LineEnd(s)..], k);
      } else if OpensBlockComment(s) && BlockEnd(s, k).Some? {
        SkipStopsAtByte(s[BlockEnd(s, k).value..], k);
      }
    }
  }

  /** A value that starts with whitespace shows: no text delivers it outside strings, substituted or not. */
  lemma SpaceShows(env: Environment, s: Text, t: Text)
    requires HasValue(env, s) && IsWhiteSpace(ValueAt(env, s)[0])
    ensures !Agrees(Run(env, s, false, 1), 1, Strip(t, false))
  {
    hide Strip, Step, Run, RefName, AfterRef, IsWhiteSpace;
    SplicedFirst(env, s);
    RunOne(env, s);
    NoSpaceDelivered(t);
  }

  /** A bracket from a value closes nothing: the comma before it has been delivered. */
  lemma CommaShows(env: Environment, s: Text)
    requires HasValue(env, s) && IsCloser(ValueAt(env, s)[0])
    ensures !SplicingIsSubstituting(env, [','] + s)
  {
    hide Strip, Run, RefName, AfterRef, Expand;
    var all := [','] + s;
    assert all[1..] == s;
    CommaDelivered(env, s);
    RunOne(env, all);
    ExpandStep(env, all, |all|, false, READ_OFFSET);
    ExpandStep(env, s, |all|, false, PEEK_OFFSET);
    var value, behind := ValueAt(env, s), AfterRef(s[1..]);
    ExpandHead(env, value + behind, |behind|, false, PEEK_OFFSET);
    CommaDropped(Expand(env, all, |all|, false, READ_OFFSET));
    assert !Agrees(Run(env, all, false, 1), 1, Strip(Expand(env, all, |all|, false, READ_OFFSET), false));
  }

  lemma CommaDelivered(env: Environment, s: Text)
    requires s != [] && s[0] == '*'
    ensures Step(env, [','] + s, false) == Got(',', s, false)
  {
    hide Skip;
    var all := [','] + s;
    assert all[1..] == s;
    SkipStep(all, READ_OFFSET);
    SkipStep(s, PEEK_OFFSET);
  }

  lemma CommaDropped(s: Text)
    requires |s| > 1 && s[0] == ',' && IsCloser(s[1])
    ensures Strip(s, false).out != [] && Strip(s, false).out[0] == s[1]
  {
    hide Skip;
    SkipStep(s, READ_OFFSET);
    SkipStep(s[1..], PEEK_OFFSET);
  }

  /** The one-byte value in a text that is a reference and at most one byte more. */
  lemma OneByteText(b: Byte, behind: Text)
    requires |behind| <= 1 && (behind != [] ==> !IsAlfanum(behind[0]) && behind[0] != '_')
    ensures var s := REFERENCE_A + behind;
            && HasValue(OneByte(b), s) && ValueAt(OneByte(b), s) == [b]
            && Step(OneByte(b), s, false) == Got(b, behind, false)
            && Expand(OneByte(b), s, |s|, false, READ_OFFSET) == [b] + behind
  {
    hide Step, Expand, RefName, AfterRef;
    var env, s := OneByte(b), REFERENCE_A + behind;
    ReferenceInFront(REFERENCE_A, A, behind);
    SplicedFirst(env, s);
    assert [b][1..] + behind == behind;
    ExpandStep(env, s, |s|, false, READ_OFFSET);
    ShortIsReferenceFree([b] + behind);
    ReferenceFreeExpand(env, [b] + behind, |behind|, false, READ_OFFSET);
  }

  /** A byte that the lexer would not deliver is delivered. */
  lemma ByteShows(b: Byte, behind: Text)
    requires |behind| <= 1 && (behind != [] ==> !IsAlfanum(behind[0]) && behind[0] != '_')
    requires Strip([b] + behind, false).out == []
    ensures !SplicingIsSubstituting(OneByte(b), REFERENCE_A + behind)
  {
    hide Strip, Run, Step, Expand;
    var env, s := OneByte(b), REFERENCE_A + behind;
    OneByteText(b, behind);
    RunOne(env, s);
    assert !Agrees(Run(env, s, false, 1), 1, Strip(Expand(env, s, |s|, false, READ_OFFSET), false));
  }

  /** A quote from a value opens no string: whitespace behind it is lost. */
  lemma QuoteShows()
    ensures !SplicingIsSubstituting(OneByte('"'), REFERENCE_A + [' '])
  {
    hide Strip, Run, Step, Expand;
    var env, s := OneByte('"'), REFERENCE_A + [' '];
    OneByteText('"', [' ']);
    RunStep(env, s, false, 2);
    RunStep(env, [' '], false, 1);
    BlankText(env);
    assert !Agrees(Run(env, s, false, 2), 2, Strip(Expand(env, s, |s|, false, READ_OFFSET), false));
  }

  /** Inside a string it closes none: whitespace behind it is kept. */
  lemma QuoteInStringShows()
    ensures var env, s := OneByte('"'), REFERENCE_A + [' '];
            !Agrees(Run(env, s, true, 2), 2, Strip(Expand(env, s, |s|, true, READ_OFFSET), true))
  {
    hide Strip, Run, Expand, RefName, AfterRef;
    var env, s := OneByte('"'), REFERENCE_A + [' '];
    ReferenceInFront(REFERENCE_A, A, [' ']);
    assert ['"'][1..] + [' '] == [' '];
    assert Step(env, s, true) == Got('"', [' '], true);
    RunStep(env, s, true, 2);
    RunStep(env, [' '], true, 1);
    RunStep(env, [' '][1..], true, 0);
    ExpandStep(env, s, |s|, true, READ_OFFSET);
    ShortIsReferenceFree(['"'] + [' ']);
    ReferenceFreeExpand(env, ['"'] + [' '], 1, true, READ_OFFSET);
    ClosedText();
  }

  lemma ClosedText()
    ensures Strip(['"'] + [' '], true).out == ['"']
  {
    var x: Text := ['"'] + [' '];
    assert x[1..] == [' '] && [' '][1..] == [];
    assert Skip([' '], READ_OFFSET) == Done(Eof);
    assert Strip([' '], false).out == [];
  }

  lemma BlankText(env: Environment)
    ensures Step(env, [' '], false) == Fail(Eof)
    ensures Strip(['"', ' '], false) == Stream(['"', ' '], Eof) && ['"'] + [' '] == ['"', ' ']
  {
    assert [' '][1..] == [];
    assert Skip([' '], READ_OFFSET) == Done(Eof);
    var x: Text := ['"', ' '];
    assert x[1..] == [' '];
    assert Skip(x, READ_OFFSET) == More(x);
    assert Strip([], true) == Stream([], Eof);
    assert Strip([' '], true) == Stream([' '], Eof);
  }

  lemma NothingDelivered()
    ensures Strip([','], false).out == [] && Strip(['/', '/'], false).out == []
  {
    hide Skip;
    SkipStep([','], READ_OFFSET);
    assert [','][1..] == [];
    SkipStep([], PEEK_OFFSET);
    var s: Text := ['/', '/'];
    SkipStep(s, READ_OFFSET);
    assert LineEnd(s) == 2 by {
      assert s[1..] == ['/'] && ['/'][1..] == [];
    }
    assert s[2..] == [];
    SkipStep([], READ_OFFSET);
  }

  /**
   A value of one byte is spliced as it would be substituted, in every text, if and only if
   its byte needs no lexing.
   */
  lemma FirstByteExactly(b: Byte)
    ensures PlainByte(b) <==> forall s :: SplicingIsSubstituting(OneByte(b), s)
  {
    hide Agrees, Run, Strip, Expand, Fits;
    var env := OneByte(b);
    if PlainByte(b) {
      forall s, n | n >= 0
        ensures Agrees(Run(env, s, false, n), n, Strip(Expand(env, s, |s|, false, READ_OFFSET), false))
      {
        PlainEnvironmentFits(env, s, |s|, false, READ_OFFSET);
        EnvironmentSplicing(env, s, |s|, false, n);
      }
    } else {
      var s := BadText(b);
    }
  }

  lemma BadText(b: Byte) returns (s: Text)
    requires !PlainByte(b)
    ensures !SplicingIsSubstituting(OneByte(b), s)
  {
    hide Agrees, Run, Strip, Expand, SplicingIsSubstituting;
    s := REFERENCE_A;
    assert REFERENCE_A + [] == REFERENCE_A && [b] + [] == [b] && [b] + ['/'] == [b, '/'];
    NothingDelivered();
    OneByteText(b, []);
    if b == '"' {
      QuoteShows();
      s := REFERENCE_A + [' '];
    } else if IsWhiteSpace(b) {
      SpaceDiffers(OneByte(b), s);
    } else if b == ',' {
      ByteShows(b, []);
    } else if b == '/' {
      ByteShows(b, ['/']);
      s := REFERENCE_A + ['/'];
    } else {
      CommaShows(OneByte(b), s);
      s := [','] + s;
    }
  }

  lemma SpaceDiffers(env: Environment, s: Text)
    requires HasValue(env, s) && IsWhiteSpace(ValueAt(env, s)[0])
    ensures !SplicingIsSubstituting(env, s)
  {
    hide Agrees, Run, Strip, Expand, HasValue, ValueAt;
    SpaceShows(env, s, Expand(env, s, |s|, false, READ_OFFSET));
  }

  /** A reference inside a value is resolved in its turn, which substitution does not do. */
  lemma TailReferenceShows(p: Byte, q: Byte)
    requires PlainByte(p) && q != '*'
    ensures !SplicingIsSubstituting(map[A := [p] + REFERENCE_B, B := [q]], REFERENCE_A)
  {
    hide Run, Strip, Step, Expand, RefName, AfterRef;
    var env: Environment, s := map[A := [p] + REFERENCE_B, B := [q]], REFERENCE_A;
    assert REFERENCE_A + [] == REFERENCE_A && REFERENCE_B + [] == REFERENCE_B;
    ReferenceInFront(REFERENCE_A, A, []);
    ReferenceInFront(REFERENCE_B, B, []);
    SplicedFirst(env, s);
    var v := [p] + REFERENCE_B;
    assert v[1..] + [] == REFERENCE_B && v + [] == v;
    SplicedFirst(env, REFERENCE_B);
    RunStep(env, s, false, 2);
    RunOne(env, REFERENCE_B);
    ExpandStep(env, s, |s|, false, READ_OFFSET);
    ExpandStep(env, v, 0, false, READ_OFFSET);
    ExpandStep(env, REFERENCE_B, 0, false, READ_OFFSET);
    SecondByte(Expand(env, v, 0, false, READ_OFFSET));
    assert !Agrees(Run(env, s, false, 2), 2, Strip(Expand(env, s, |s|, false, READ_OFFSET), false));
  }

  lemma SecondByte(t: Text)
    requires |t| > 1 && PlainByte(t[0]) && t[1] == '*'
    ensures var out := Strip(t, false).out; |out| > 1 && out[1] == '*'
  {
    hide Skip;
    SkipStep(t, READ_OFFSET);
    SkipStep(t[1..], READ_OFFSET);
  }
}
