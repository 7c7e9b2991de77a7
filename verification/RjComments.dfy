/** A comment that is closed stays as it is, whatever text comes behind it. */
module RjComments {
  import opened Wrappers
  import opened RjLexical

  /** Only the bytes up to the newline decide where a line ends. */
  lemma {:induction false} LineEndPrefix(s: Text, x: Text)
    requires LineEnd(s) < |s| || (s != [] && IsNewLine(s[|s| - 1])) || x == []
    ensures LineEnd(s[..LineEnd(s)] + x) == LineEnd(s)
    ensures OpensLineComment(s) ==> LineEnd(s) >= 2
  {
    var e := LineEnd(s);
    if s == [] {
      assert s[..e] + x == [];
    } else if IsNewLine(s[0]) {
    } else {
      if |s| == 1 {
        assert s[..e] + x == s;
      } else {
        LineEndPrefix(s[1..], x);
        assert (s[..e] + x)[1..] == s[1..][..LineEnd(s[1..])] + x;
      }
    }
  }

  lemma {:induction false} BlockEndPrefix(s: Text, k: nat, x: Text)
    requires k >= 1 && BlockEnd(s, k).Some?
    ensures BlockEnd(s[..BlockEnd(s, k).value] + x, k) == BlockEnd(s, k)
    decreases |s| - k
  {
    if !(s[k - 1] == '*' && s[k] == '/') {
      BlockEndPrefix(s, k + 1, x);
    }
  }

  /** A line that ends before the end of the text ends in a newline. */
  lemma {:induction false} LineEndIsNewLine(s: Text)
    ensures LineEnd(s) < |s| ==> IsNewLine(s[LineEnd(s) - 1])
  {
    if s != [] && !IsNewLine(s[0]) {
      LineEndIsNewLine(s[1..]);
    }
  }

  /** Skipping layout never fails for want of a variable. */
  lemma {:induction false} SkipHasNoReference(s: Text, k: nat)
    requires k >= 3
    ensures Skip(s, k).Done? ==> !Skip(s, k).error.EnvNotFound?
    decreases |s|
  {
    hide Skip, LineEnd, BlockEnd;
    SkipStep(s, k);
    if s != [] {
      if IsWhiteSpace(s[0]) {
        SkipHasNoReference(s[1..], k);
      } else if OpensLineComment(s) {
        SkipHasNoReference(s[LineEnd(s)..], k);
      } else if OpensBlockComment(s) && BlockEnd(s, k).Some? {
        SkipHasNoReference(s[BlockEnd(s, k).value..], k);
      }
    }
  }
}
