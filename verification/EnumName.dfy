/** Telephone numbers as ENUM domain names: the digits reversed, dotted, in front of an e164 domain. */
module EnumName {
  import opened Wrappers

  const MARK := ".e164."

  predicate StartsWith(s: string, p: string) {
    |p| <= |s| && s[..|p|] == p
  }

  /** First index at which `p` stands, or the length plus one when it does not. */
  function Index(s: string, p: string): (i: nat)
    ensures i <= |s| ==> StartsWith(s[i..], p)
    ensures forall j :: 0 <= j < i && j <= |s| ==> !StartsWith(s[j..], p)
    ensures i <= |s| + 1
    decreases |s|
  {
    if StartsWith(s, p) then assert s[0..] == s; 0
    else if s == "" then 1
    else
      var i := Index(s[1..], p);
      assert forall j :: 1 <= j <= |s| ==> s[1..][j - 1..] == s[j..];
      assert s[0..] == s;
      1 + i
  }

  function Without(s: string, c: char): string {
    if s == "" then "" else (if s[0] == c then "" else [s[0]]) + Without(s[1..], c)
  }

  function Reversed(s: string): string {
    if s == "" then "" else Reversed(s[1..]) + [s[0]]
  }

  function TrimLeft(s: string, c: char): string {
    if s != "" && s[0] == c then TrimLeft(s[1..], c) else s
  }

  function TrimRight(s: string, c: char): string {
    if s != "" && s[|s| - 1] == c then TrimRight(s[..|s| - 1], c) else s
  }

  /** The number, or nothing when the name has no e164 label. */
  function E164FromNaptr(name: string): Option<string> {
    var i := Index(name, MARK);
    if i > |name| then None else Some(Reversed(Without(name[..i], '.')))
  }

  /** The domain from the e164 label on, without outer dots. */
  function DomainNameFromNaptr(name: string): string {
    var i := Index(name, MARK);
    var dName := if i > |name| then name else name[i..];
    TrimRight(TrimLeft(dName, '.'), '.')
  }

  /** The digits with a dot between any two. */
  function Dotted(digits: string): string {
    if |digits| <= 1 then digits else [digits[0], '.'] + Dotted(digits[1..])
  }

  /** The ENUM name of a number under a domain. */
  function EnumName(number: string, domain: string): string {
    Dotted(Reversed(number)) + "." + domain
  }

  predicate IsNumber(s: string) {
    s != "" && forall i :: 0 <= i < |s| ==> '0' <= s[i] <= '9'
  }

  lemma {:induction false} ReversedConcat(s: string, t: string)
    ensures Reversed(s + t) == Reversed(t) + Reversed(s)
    decreases |s|
  {
    if s == "" {
      assert s + t == t;
    } else {
      assert (s + t)[1..] == s[1..] + t;
      ReversedConcat(s[1..], t);
    }
  }

  lemma {:induction false} ReversedTwice(s: string)
    ensures Reversed(Reversed(s)) == s
  {
    if s != "" {
      ReversedTwice(s[1..]);
      ReversedConcat(Reversed(s[1..]), [s[0]]);
      assert [s[0]][1..] == "";
      assert [s[0]] + s[1..] == s;
    }
  }

  lemma {:induction false} ReversedNumber(s: string)
    requires forall i :: 0 <= i < |s| ==> '0' <= s[i] <= '9'
    ensures |Reversed(s)| == |s| && forall i :: 0 <= i < |s| ==> '0' <= Reversed(s)[i] <= '9'
  {
    if s != "" {
      ReversedNumber(s[1..]);
    }
  }

  lemma {:induction false} DottedWithout(digits: string)
    requires IsNumber(digits)
    ensures Without(Dotted(digits), '.') == digits
    decreases |digits|
  {
    var d := Dotted(digits);
    if |digits| == 1 {
      assert d[1..] == "";
    } else {
      DottedWithout(digits[1..]);
      assert d[1..] == ['.'] + Dotted(digits[1..]);
      assert d[1..][1..] == Dotted(digits[1..]);
      assert [digits[0]] + digits[1..] == digits;
    }
  }

  /** Digits and dots, ending in a digit, no two dots together. */
  lemma {:induction false} DottedShape(digits: string)
    requires IsNumber(digits)
    ensures var d := Dotted(digits);
            && d != "" && d[|d| - 1] != '.'
            && forall i :: 0 <= i < |d| ==> d[i] == '.' || '0' <= d[i] <= '9'
    decreases |digits|
  {
    if |digits| > 1 {
      DottedShape(digits[1..]);
    }
  }

  lemma MarkHead(t: string)
    ensures StartsWith(t, MARK) ==> |t| > 1 && t[0] == '.' && t[1] == 'e'
  {
    if StartsWith(t, MARK) {
      assert t[..6][0] == '.' && t[..6][1] == 'e';
    }
  }

  /** The first e164 label of an ENUM name is that of its domain. */
  lemma MarkStandsBehindDigits(number: string, suffix: string)
    requires IsNumber(number) && StartsWith(suffix, "e164.")
    ensures Index(EnumName(number, suffix), MARK) == |Dotted(Reversed(number))|
  {
    ReversedNumber(number);
    var d := Dotted(Reversed(number));
    DottedShape(Reversed(number));
    var name := EnumName(number, suffix);
    assert name[|d|..] == "." + suffix;
    assert ("." + suffix)[..6] == "." + suffix[..5] == MARK;
    assert StartsWith(name[|d|..], MARK);
    forall j | 0 <= j < |d| ensures !StartsWith(name[j..], MARK) {
      var t := name[j..];
      assert t[0] == d[j] && (j + 1 < |d| ==> t[1] == d[j + 1]);
      MarkHead(t);
    }
  }

  /** Decoding an ENUM name gives back the number and the domain. */
  lemma EnumRoundTrip(number: string, suffix: string)
    requires IsNumber(number) && StartsWith(suffix, "e164.")
    ensures var name := EnumName(number, suffix);
            E164FromNaptr(name) == Some(number) && DomainNameFromNaptr(name) == TrimRight(suffix, '.')
  {
    hide Index, Dotted, TrimRight;
    MarkStandsBehindDigits(number, suffix);
    var r := Reversed(number);
    ReversedNumber(number);
    var name, d := EnumName(number, suffix), Dotted(r);
    assert name[..|d|] == d && name[|d|..] == ['.'] + suffix;
    DottedWithout(r);
    ReversedTwice(number);
    assert (['.'] + suffix)[1..] == suffix;
    assert suffix[0] == suffix[..5][0] == 'e';
    assert TrimLeft(suffix, '.') == suffix;
    assert TrimLeft(['.'] + suffix, '.') == TrimLeft(suffix, '.');
  }

  lemma {:induction false} TrimRightBehind(s: string, t: string, c: char)
    requires TrimRight(t, c) != ""
    ensures TrimRight(s + t, c) == s + TrimRight(t, c)
    decreases |t|
  {
    var all := s + t;
    assert all[|all| - 1] == t[|t| - 1];
    if t[|t| - 1] == c {
      TrimRightBehind(s, t[..|t| - 1], c);
      assert all[..|all| - 1] == s + t[..|t| - 1];
    }
  }

  lemma {:induction false} TrimRightKeeps(s: string, c: char, i: nat)
    requires i < |s| && s[i] != c
    ensures TrimRight(s, c) != ""
    decreases |s|
  {
    if s[|s| - 1] == c {
      TrimRightKeeps(s[..|s| - 1], c, i);
    }
  }

  /** Encoding the two decoded parts rebuilds the name, up to its trailing dots. */
  lemma EnumRebuilds(number: string, suffix: string)
    requires IsNumber(number) && StartsWith(suffix, "e164.")
    ensures var name := EnumName(number, suffix);
            E164FromNaptr(name).Some? &&
            EnumName(E164FromNaptr(name).value, DomainNameFromNaptr(name)) == TrimRight(name, '.')
  {
    hide E164FromNaptr, DomainNameFromNaptr, TrimRight;
    EnumRoundTrip(number, suffix);
    assert suffix[0] == suffix[..5][0] == 'e';
    TrimRightKeeps(suffix, '.', 0);
    TrimRightBehind(Dotted(Reversed(number)) + ".", suffix, '.');
  }

  // ----- the name, character by character

  lemma {:induction false} ReversedAt(s: string, i: nat)
    requires i < |s|
    ensures |Reversed(s)| == |s| && Reversed(s)[i] == s[|s| - 1 - i]
  {
    if |s| > 1 {
      ReversedAt(s[1..], if i < |s| - 1 then i else 0);
    }
  }

  lemma {:induction false} DottedAt(digits: string, i: nat)
    requires i < |digits|
    ensures |Dotted(digits)| == 2 * |digits| - 1 && Dotted(digits)[2 * i] == digits[i]
    ensures i > 0 ==> Dotted(digits)[2 * i - 1] == '.'
    decreases |digits|
  {
    if |digits| > 1 {
      DottedAt(digits[1..], if i > 0 then i - 1 else 0);
    }
  }

  /** An ENUM name: the digits of the number from the last to the first, each followed by a dot, and the domain. */
  lemma EnumNameAt(number: string, domain: string, i: nat)
    requires i < |number|
    ensures var name := EnumName(number, domain);
            && |name| == 2 * |number| + |domain|
            && name[2 * i] == number[|number| - 1 - i] && name[2 * i + 1] == '.'
            && name[2 * |number|..] == domain
  {
    var r := Reversed(number);
    ReversedAt(number, i);
    DottedAt(r, i);
    if i + 1 < |number| {
      DottedAt(r, i + 1);
    }
  }

  /** A name without an e164 label has no number, and its domain is the name without outer dots. */
  lemma NoLabel(name: string)
    ensures E164FromNaptr(name) == None <==>
            forall j :: 0 <= j <= |name| ==> !StartsWith(name[j..], ".e164.")
    ensures E164FromNaptr(name) == None ==> DomainNameFromNaptr(name) == TrimRight(TrimLeft(name, '.'), '.')
  {
  }

  /** Trimming takes away outer dots and nothing else. */
  lemma {:induction false} TrimRightIs(s: string, c: char)
    ensures var t := TrimRight(s, c);
            && t <= s && (t != "" ==> t[|t| - 1] != c)
            && forall i :: |t| <= i < |s| ==> s[i] == c
    decreases |s|
  {
    if s != "" && s[|s| - 1] == c {
      TrimRightIs(s[..|s| - 1], c);
    }
  }

  lemma {:induction false} TrimLeftIs(s: string, c: char)
    ensures var t := TrimLeft(s, c);
            && |t| <= |s| && t == s[|s| - |t|..] && (t != "" ==> t[0] != c)
            && forall i :: 0 <= i < |s| - |t| ==> s[i] == c
    decreases |s|
  {
    if s != "" && s[0] == c {
      TrimLeftIs(s[1..], c);
      assert forall i :: 0 < i < |s| ==> s[i] == s[1..][i - 1];
    }
  }
}
