/**
 Lists of parsing rules in one string: rules are separated by semicolons, and a
 back-quoted section keeps the semicolons inside it.
 */
module RsrRules {
  import opened Wrappers
  import opened Strings

  datatype Outcome = Rules(parts: seq<string>) | Unclosed | Crash

  function AppendToLast(parts: seq<string>, x: string): seq<string>
    requires parts != []
  {
    parts[|parts| - 1 := parts[|parts| - 1] + x]
  }

  /** The text before a back-quote does not end in a separator: the quote continues a rule. */
  predicate InsideRule(head: string) {
    head == "" || head[|head| - 1] != ';'
  }

  function HeadParts(head: string): (parts: seq<string>)
    ensures parts != []
  {
    if InsideRule(head) then Split(head, ';') else Split(head[..|head| - 1], ';')
  }

  /** One turn of the splitting loop fails, ends it, or leaves the parts and the text still to split. */
  datatype Turn = Slip | Stop(parts: seq<string>) | Go(parts: seq<string>, rest: string)

  /** What follows the closing back-quote. */
  function AfterQuote(parts: seq<string>, s: string, count: int): (t: Turn)
    requires parts != []
    ensures t.Go? ==> |t.rest| < |s|
  {
    if s == "" then Stop(parts)
    else
      var k := if s[0] != ';' then IndexOf(s, ';') else 0;
      if k == |s| then Stop(AppendToLast(parts, s))
      else
        var parts' := if s[0] != ';' then AppendToLast(parts, s[..k]) else parts;
        var rest := s[k + 1..];
        if rest == "" then Stop(parts')
        else if count == 0 then Stop(parts' + Split(rest, ';'))
        else Go(parts', rest)
  }

  /** The text up to the opening back-quote, and the section between the quotes. */
  function WithQuoted(parts: seq<string>, head: string, quoted: string): (r: seq<string>)
    ensures r != []
  {
    if InsideRule(head) then AppendToLast(parts + HeadParts(head), quoted)
    else parts + HeadParts(head) + [quoted]
  }

  /** A turn on a text with a back-quote; one without a partner makes the slicing fail. */
  function QuoteTurn(parts: seq<string>, s: string, count: int): (t: Turn)
    requires IndexOf(s, '`') < |s|
    ensures t.Go? ==> |t.rest| < |s|
  {
    var idx := IndexOf(s, '`');
    var tail := s[idx + 1..];
    var e := IndexOf(tail, '`');
    if e == |tail| then Slip
    else AfterQuote(WithQuoted(parts, s[..idx], tail[..e]), tail[e + 1..], count - 2)
  }

  /** The splitting loop. */
  function QuoteLoop(parts: seq<string>, s: string, count: int): Outcome
    decreases |s|
  {
    if IndexOf(s, '`') == |s| then Rules(parts)
    else
      match QuoteTurn(parts, s, count)
      case Slip => Crash
      case Stop(all) => Rules(all)
      case Go(parts', rest) => QuoteLoop(parts', rest, count - 2)
  }

  function SplitRules(s: string, separator: char): Outcome {
    if s == "" then Rules([])
    else if Count(s, '`') % 2 != 0 then Unclosed
    else if Count(s, '`') != 0 then QuoteLoop([], s, Count(s, '`'))
    else Rules(Split(s, separator))
  }

  datatype Error = UnclosedQuote | EmptyRule | BadRule(rule: string) | Panic

  /** Compiles every rule; the compiled parser keeps its rule as it was written. */
  method NewRSRParsersFromSlice(rules: seq<string>, compiles: string -> bool) returns (r: Result<seq<string>, Error>)
    ensures r.Ok? <==> forall rule :: rule in rules ==> rule != "" && compiles(rule)
    ensures r.Ok? ==> r.value == rules
    ensures r.Err? ==>
              exists i :: 0 <= i < |rules|
                          && r.error == (if rules[i] == "" then EmptyRule else BadRule(rules[i]))
                          && (rules[i] == "" || !compiles(rules[i]))
                          && forall j :: 0 <= j < i ==> rules[j] != "" && compiles(rules[j])
  {
    var parsers: seq<string> := [];
    for i := 0 to |rules|
      invariant parsers == rules[..i]
      invariant forall rule :: rule in rules[..i] ==> rule != "" && compiles(rule)
    {
      assert rules[i] in rules;
      assert forall j :: 0 <= j < i ==> rules[j] in rules[..i];
      if rules[i] == "" {
        return Err(EmptyRule);
      }
      if !compiles(rules[i]) {
        return Err(BadRule(rules[i]));
      }
      parsers := parsers + [rules[i]];
    }
    assert rules[..|rules|] == rules;
    return Ok(parsers);
  }

  /** The loop body, from the opening back-quote at `start` on. */
  method SplitTurn(parts: seq<string>, parsersRules: string, start: nat, quotes: int) returns (t: Turn)
    requires start == IndexOf(parsersRules, '`') < |parsersRules|
    ensures t == QuoteTurn(parts, parsersRules, quotes)
  {
    hide IndexOf, Split, AfterQuote;
    var s, idx, splitedRule, count := parsersRules, start, parts, quotes;
    ghost var head := s[..idx];
    var insideARulePrefix := idx == 0 || s[idx - 1] != ';';
    assert insideARulePrefix == InsideRule(head);
    if insideARulePrefix {
      splitedRule := splitedRule + Split(s[..idx], ';');
    } else {
      splitedRule := splitedRule + Split(s[..idx - 1], ';');
      assert s[..idx - 1] == s[..idx][..idx - 1];
    }
    s := s[idx + 1..];
    idx := IndexOf(s, '`');
    if idx == |s| {
      return Slip;
    }
    if insideARulePrefix {
      splitedRule := AppendToLast(splitedRule, s[..idx]);
    } else {
      splitedRule := splitedRule + [s[..idx]];
    }
    assert splitedRule == WithQuoted(parts, head, s[..idx]);
    t := SplitAfterQuote(splitedRule, s[idx + 1..], count - 2);
  }

  method SplitAfterQuote(parts: seq<string>, parsersRules: string, count: int) returns (t: Turn)
    requires parts != []
    ensures t == AfterQuote(parts, parsersRules, count)
  {
    hide IndexOf, Split;
    var s, splitedRule, idx := parsersRules, parts, 0;
    if s == "" {
      return Stop(splitedRule);
    }
    var insideARuleSufix := s[0] != ';';
    if insideARuleSufix {
      idx := IndexOf(s, ';');
      if idx == |s| {
        return Stop(AppendToLast(splitedRule, s));
      }
      splitedRule := AppendToLast(splitedRule, s[..idx]);
    }
    s := s[idx + 1..];
    if s == "" {
      return Stop(splitedRule);
    }
    if count == 0 {
      return Stop(splitedRule + Split(s, ';'));
    }
    return Go(splitedRule, s);
  }

  method SplitQuoted(parsersRules: string, quotes: nat) returns (o: Outcome)
    ensures o == QuoteLoop([], parsersRules, quotes)
    ensures o != Unclosed
  {
    hide IndexOf, QuoteTurn;
    var s, count: int := parsersRules, quotes;
    var splitedRule: seq<string> := [];
    var idx := IndexOf(s, '`');
    while idx != |s|
      invariant idx == IndexOf(s, '`')
      invariant QuoteLoop([], parsersRules, quotes) == QuoteLoop(splitedRule, s, count)
      decreases |s|
    {
      var t := SplitTurn(splitedRule, s, idx, count);
      match t {
        case Slip => return Crash;
        case Stop(all) => return Rules(all);
        case Go(more, rest) => splitedRule, s := more, rest;
      }
      count := count - 2;
      idx := IndexOf(s, '`');
    }
    return Rules(splitedRule);
  }

  /** Splits the string and compiles the parts. */
  method NewRSRParsers(parsersRules: string, compiles: string -> bool, separator: char)
    returns (r: Result<seq<string>, Error>)
    ensures match SplitRules(parsersRules, separator)
            case Unclosed => r == Err(UnclosedQuote)
            case Crash => r == Err(Panic)
            case Rules(parts) =>
              && (r.Ok? <==> forall rule :: rule in parts ==> rule != "" && compiles(rule))
              && (r.Ok? ==> r.value == parts)
              && (r.Err? ==> (r.error == EmptyRule && "" in parts) ||
                             exists rule :: rule in parts && !compiles(rule) && r.error == BadRule(rule))
  {
    if parsersRules == "" {
      return Ok([]);
    }
    var count := Count(parsersRules, '`');
    var parts;
    if count % 2 != 0 {
      return Err(UnclosedQuote);
    } else if count != 0 {
      var o := SplitQuoted(parsersRules, count);
      if o == Crash {
        return Err(Panic);
      }
      parts := o.parts;
    } else {
      parts := Split(parsersRules, separator);
    }
    r := NewRSRParsersFromSlice(parts, compiles);
  }

  // ----- the rule-list grammar and its round trip

  /** Text without quotes, or some of it, a quoted section, and the rest of the rule. */
  datatype Rule = Bare(text: string) | Quoted(pre: string, section: string, suf: Rule)

  predicate IsClean(s: string) {
    '`' !in s && ';' !in s
  }

  /** Back-quotes around sections only, and no separator outside them. */
  predicate IsRule(r: Rule) {
    match r
    case Bare(text) => IsClean(text)
    case Quoted(pre, section, suf) => IsClean(pre) && '`' !in section && IsRule(suf)
  }

  /** At most one quoted section. */
  predicate IsSingle(r: Rule) {
    r.Bare? || r.suf.Bare?
  }

  function Print(r: Rule): string {
    match r
    case Bare(text) => text
    case Quoted(pre, section, suf) => pre + ['`'] + section + ['`'] + Print(suf)
  }

  /** The rule with its quotes removed. */
  function Meaning(r: Rule): string {
    match r
    case Bare(text) => text
    case Quoted(pre, section, suf) => pre + section + Meaning(suf)
  }

  function Prints(rs: seq<Rule>): (t: seq<string>)
    ensures |t| == |rs|
  {
    if rs == [] then [] else [Print(rs[0])] + Prints(rs[1..])
  }

  function Meanings(rs: seq<Rule>): (t: seq<string>)
    ensures |t| == |rs|
  {
    if rs == [] then [] else [Meaning(rs[0])] + Meanings(rs[1..])
  }

  function PrintAll(rs: seq<Rule>): string {
    Join(Prints(rs), ';')
  }

  /** Number of quoted sections in a rule, and in a list of rules. */
  function SectionsIn(r: Rule): nat {
    match r
    case Bare(_) => 0
    case Quoted(_, _, suf) => 1 + SectionsIn(suf)
  }

  function Sections(rs: seq<Rule>): nat {
    if rs == [] then 0 else SectionsIn(rs[0]) + Sections(rs[1..])
  }

  /** An empty rule at the end, right behind a quoted one: its separator ends the loop. */
  predicate LosesLast(rs: seq<Rule>) {
    |rs| > 1 && rs[|rs| - 1] == Bare("") && rs[|rs| - 2].Quoted?
  }

  function Expected(rs: seq<Rule>): seq<string> {
    if LosesLast(rs) then Meanings(rs)[..|rs| - 1] else Meanings(rs)
  }

  /** The pieces before another one, each with its separator. */
  function Front(parts: seq<string>): string {
    if parts == [] then "" else Join(parts, ';') + [';']
  }

  function Tail(parts: seq<string>): string {
    if parts == [] then "" else [';'] + Join(parts, ';')
  }

  lemma FrontStep(a: seq<string>)
    requires a != []
    ensures Front(a) == a[0] + [';'] + Front(a[1..])
  {
    if |a| > 1 {
      var rest := Join(a[1..], ';');
      assert a[0] + [';'] + rest + [';'] == a[0] + [';'] + (rest + [';']);
    }
  }

  lemma JoinStep(x: string, b: seq<string>)
    ensures Join([x] + b, ';') == x + Tail(b)
  {
    assert ([x] + b)[1..] == b;
  }

  lemma {:induction false} JoinCut(a: seq<string>, x: string, b: seq<string>)
    ensures Join(a + [x] + b, ';') == Front(a) + x + Tail(b)
    decreases |a|
  {
    hide Join;
    if a == [] {
      assert a + [x] + b == [x] + b;
      JoinStep(x, b);
      assert Front(a) + x == x;
    } else {
      var all := a[1..] + [x] + b;
      assert a + [x] + b == [a[0]] + all;
      JoinStep(a[0], all);
      JoinCut(a[1..], x, b);
      FrontStep(a);
      var f, t := Front(a[1..]), Tail(b);
      assert a[0] + ([';'] + (f + x + t)) == a[0] + [';'] + f + x + t;
    }
  }

  lemma {:induction false} JoinIsClean(parts: seq<string>, c: char)
    requires c != ';' && forall p :: p in parts ==> c !in p
    ensures c !in Join(parts, ';')
    decreases |parts|
  {
    if |parts| > 1 {
      assert parts[0] in parts;
      JoinIsClean(parts[1..], c);
    }
  }

  /** The text before an opening quote: whole rules, and the beginning of the quoted one. */
  lemma HeadBecomesParts(acc: seq<string>, bares: seq<string>, pre: string, section: string)
    requires IsClean(pre) && forall p :: p in bares ==> IsClean(p)
    ensures WithQuoted(acc, Front(bares) + pre, section) == acc + bares + [pre + section]
  {
    hide Split, Join;
    var head := Front(bares) + pre;
    if bares == [] {
      SplitBehind(pre, ';', "");
      assert head == pre;
      assert InsideRule(head);
      assert acc + [pre] == acc + bares + [pre];
      assert WithQuoted(acc, head, section) == AppendToLast(acc + [pre], section);
    } else {
      SplitJoinClean(bares, ';');
      if pre == "" {
        assert head == Join(bares, ';') + [';'];
        assert head[..|head| - 1] == Join(bares, ';');
        assert pre + section == section;
      } else {
        assert pre[|pre| - 1] != ';';
        assert head[|head| - 1] == pre[|pre| - 1];
        var parts := bares + [pre];
        JoinCut(bares, pre, []);
        assert bares + [pre] + [] == parts && Front(bares) + pre + "" == head;
        SplitJoinClean(parts, ';');
        assert acc + (bares + [pre]) == acc + bares + [pre];
      }
    }
  }

  /** The text behind a closing quote: the end of the rule, and the other rules. */
  lemma TailBecomesParts(acc: seq<string>, x: string, suf: string, rest: seq<string>, count: int)
    requires IsClean(suf)
    ensures var parts, more := acc + [x + suf], Join(rest, ';');
            AfterQuote(acc + [x], suf + Tail(rest), count) ==
            if rest == [] || more == "" then Stop(parts)
            else if count == 0 then Stop(parts + Split(more, ';'))
            else Go(parts, more)
  {
    hide Split, Join, IndexOf;
    var s := suf + Tail(rest);
    var parts, more := acc + [x + suf], Join(rest, ';');
    assert AppendToLast(acc + [x], suf) == parts;
    assert suf == "" ==> x + suf == x;
    if rest == [] {
      assert s == suf;
      IndexBehind(suf, ';', "");
    } else {
      assert s == suf + [';'] + more;
      IndexBehind(suf, ';', more);
      assert s[..|suf|] == suf && s[|suf| + 1..] == more;
    }
  }

  lemma SingleSection(pre: string, section: string, suf: string)
    ensures var r := Quoted(pre, section, Bare(suf));
            && Print(r) == pre + ['`'] + section + ['`'] + suf
            && Meaning(r) == pre + section + suf
            && (IsRule(r) <==> IsClean(pre) && '`' !in section && IsClean(suf))
  {
  }

  /** One turn of the loop on a printed rule list takes everything up to the first quoted rule. */
  lemma TurnOnRules(acc: seq<string>, bares: seq<string>, r: Rule, rest: seq<string>, count: int)
    requires r.Quoted? && IsSingle(r) && IsRule(r) && forall p :: p in bares ==> IsClean(p)
    ensures var s := Front(bares) + Print(r) + Tail(rest);
            var parts, more := acc + bares + [Meaning(r)], Join(rest, ';');
            && IndexOf(s, '`') < |s|
            && QuoteTurn(acc, s, count) ==
               if rest == [] || more == "" then Stop(parts)
               else if count == 2 then Stop(parts + Split(more, ';'))
               else Go(parts, more)
  {
    hide Split, Join, IndexOf, AfterQuote, WithQuoted, Tail, Print, Meaning, IsRule;
    var pre, section, suf := r.pre, r.section, r.suf.text;
    SingleSection(pre, section, suf);
    assert r == Quoted(pre, section, Bare(suf));
    var s := Front(bares) + Print(r) + Tail(rest);
    var head := Front(bares) + pre;
    var behind := suf + Tail(rest);
    var tail := section + ['`'] + behind;
    FrontIsClean(bares);
    assert s == head + ['`'] + tail;
    IndexBehind(head, '`', tail);
    IndexBehind(section, '`', behind);
    assert s[..|head|] == head && s[|head| + 1..] == tail;
    assert tail[..|section|] == section && tail[|section| + 1..] == behind;
    HeadBecomesParts(acc, bares, pre, section);
    TailBecomesParts(acc + bares, pre + section, suf, rest, count - 2);
  }

  lemma FrontIsClean(bares: seq<string>)
    requires forall p :: p in bares ==> IsClean(p)
    ensures '`' !in Front(bares)
  {
    JoinIsClean(bares, '`');
  }

  function FirstQuoted(rs: seq<Rule>): (j: nat)
    requires Sections(rs) > 0
    ensures j < |rs| && rs[j].Quoted? && forall i :: 0 <= i < j ==> rs[i].Bare?
  {
    if rs[0].Quoted? then 0 else 1 + FirstQuoted(rs[1..])
  }

  /** What a rule list is made of, seen from its first quoted rule. */
  lemma {:induction false} CutRules(rs: seq<Rule>, j: nat)
    requires j < |rs| && rs[j].Quoted? && forall i :: 0 <= i < j ==> rs[i].Bare? && IsRule(rs[i])
    ensures var bares := Meanings(rs[..j]);
            && Prints(rs) == bares + [Print(rs[j])] + Prints(rs[j + 1..])
            && Meanings(rs) == bares + [Meaning(rs[j])] + Meanings(rs[j + 1..])
            && Sections(rs) == SectionsIn(rs[j]) + Sections(rs[j + 1..])
            && forall p :: p in bares ==> IsClean(p)
    decreases j
  {
    if j > 0 {
      CutRules(rs[1..], j - 1);
      assert rs[..j][1..] == rs[1..][..j - 1];
      assert rs[1..][j..] == rs[j + 1..];
    }
  }

  lemma {:induction false} AllBare(rs: seq<Rule>)
    requires Sections(rs) == 0 && forall r :: r in rs ==> IsRule(r)
    ensures Prints(rs) == Meanings(rs) && forall p :: p in Prints(rs) ==> IsClean(p)
  {
    if rs != [] {
      assert rs[0] in rs;
      AllBare(rs[1..]);
    }
  }

  /** A list prints as nothing only if it is one empty rule. */
  lemma PrintsEmpty(rs: seq<Rule>)
    requires rs != []
    ensures PrintAll(rs) == "" <==> rs == [Bare("")]
  {
    var t := Prints(rs);
    assert t[0] == Print(rs[0]);
    if |rs| > 1 {
      assert ';' in t[0] + [';'] + Join(t[1..], ';');
    }
  }

  /** The splitting loop on a printed rule list. */
  lemma {:induction false} LoopOnRules(acc: seq<string>, rs: seq<Rule>)
    requires Sections(rs) > 0 && forall r :: r in rs ==> IsRule(r) && IsSingle(r)
    ensures QuoteLoop(acc, PrintAll(rs), 2 * Sections(rs)) == Rules(acc + Expected(rs))
    decreases |rs|
  {
    hide IndexOf, Split, Join, QuoteTurn, QuoteLoop, Prints, Meanings, Print, Meaning, IsRule, Front, Tail, Sections, SectionsIn;
    var j := FirstQuoted(rs);
    assert rs[j] in rs;
    CutRules(rs, j);
    SingleHasOne(rs[j]);
    var bares, rest := Meanings(rs[..j]), rs[j + 1..];
    var t := Prints(rest);
    JoinCut(bares, Print(rs[j]), t);
    TurnOnRules(acc, bares, rs[j], t, 2 * Sections(rs));
    QuoteTurnLoops(acc, PrintAll(rs), 2 * Sections(rs));
    var parts := acc + bares + [Meaning(rs[j])];
    if rest == [] {
      assert Meanings(rest) == [];
      assert bares + [Meaning(rs[j])] + [] == bares + [Meaning(rs[j])];
      assert parts == acc + (bares + [Meaning(rs[j])]);
    } else {
      PrintsEmpty(rest);
      if rest == [Bare("")] {
        assert LosesLast(rs);
        assert Meanings(rs)[..|rs| - 1] == bares + [Meaning(rs[j])];
        assert parts == acc + (bares + [Meaning(rs[j])]);
      } else if Sections(rest) == 0 {
        AllBare(rest);
        SplitJoinClean(t, ';');
        assert !LosesLast(rs) by { BareBehind(rs, j); }
        assert parts + Meanings(rest) == acc + (bares + [Meaning(rs[j])] + Meanings(rest));
      } else {
        LoopOnRules(parts, rest);
        LosesLastBehind(rs, j);
        ExpectedBehind(acc, bares, rs, j);
      }
    }
  }

  lemma SingleHasOne(r: Rule)
    requires r.Quoted? && IsSingle(r)
    ensures SectionsIn(r) == 1
  {
  }

  lemma BareBehind(rs: seq<Rule>, j: nat)
    requires j + 1 < |rs| && Sections(rs[j + 1..]) == 0 && rs[j + 1..] != [Bare("")]
    ensures !LosesLast(rs)
  {
    var rest := rs[j + 1..];
    if |rest| > 1 {
      NoQuoted(rest, |rest| - 2);
    } else {
      assert rest == [rs[|rs| - 1]];
    }
  }

  lemma {:induction false} NoQuoted(rs: seq<Rule>, i: nat)
    requires Sections(rs) == 0 && i < |rs|
    ensures rs[i].Bare?
  {
    if i > 0 {
      NoQuoted(rs[1..], i - 1);
    }
  }

  lemma LosesLastBehind(rs: seq<Rule>, j: nat)
    requires j + 1 < |rs| && Sections(rs[j + 1..]) > 0
    ensures LosesLast(rs) <==> LosesLast(rs[j + 1..])
  {
    var rest := rs[j + 1..];
    if |rest| == 1 {
      assert rest[1..] == [];
      assert rest[0] == rs[|rs| - 1];
    }
  }

  lemma ExpectedBehind(acc: seq<string>, bares: seq<string>, rs: seq<Rule>, j: nat)
    requires j + 1 < |rs| && |bares| == j
    requires Meanings(rs) == bares + [Meaning(rs[j])] + Meanings(rs[j + 1..])
    requires LosesLast(rs) <==> LosesLast(rs[j + 1..])
    ensures acc + bares + [Meaning(rs[j])] + Expected(rs[j + 1..]) == acc + Expected(rs)
  {
    hide Meanings, Meaning, Sections, LosesLast;
    var x, m, e := Meaning(rs[j]), Meanings(rs[j + 1..]), Expected(rs[j + 1..]);
    DropLastBehind(bares, x, m);
    RegroupParts(acc, bares, x, e);
  }

  lemma DropLastBehind(b: seq<string>, x: string, m: seq<string>)
    requires m != []
    ensures (b + [x] + m)[..|b| + |m|] == b + [x] + m[..|m| - 1]
  {
  }

  lemma RegroupParts(acc: seq<string>, b: seq<string>, x: string, e: seq<string>)
    ensures acc + b + [x] + e == acc + (b + [x] + e)
  {
  }

  /** Back-quotes come in pairs, one pair for every quoted rule. */
  lemma {:induction false} QuotesArePaired(rs: seq<Rule>)
    requires forall r :: r in rs ==> IsRule(r)
    ensures Count(PrintAll(rs), '`') == 2 * Sections(rs)
    decreases |rs|
  {
    hide Join, Count, Print, IsRule, Tail;
    EmptyJoin();
    if rs != [] {
      assert rs[0] in rs;
      QuotesInRule(rs[0]);
      QuotesArePaired(rs[1..]);
      var x, t := Print(rs[0]), Prints(rs[1..]);
      assert Prints(rs) == [x] + t;
      JoinStep(x, t);
      CountConcat(x, Tail(t), '`');
      QuotesInTail(t);
    }
  }

  lemma QuotesInTail(t: seq<string>)
    ensures Count(Tail(t), '`') == Count(Join(t, ';'), '`')
  {
    hide Join;
    EmptyJoin();
    CountConcat([';'], Join(t, ';'), '`');
  }

  lemma EmptyJoin()
    ensures Join<char>([], ';') == "" && Count<char>("", '`') == 0
  {
  }

  lemma {:induction false} QuotesInRule(r: Rule)
    requires IsRule(r)
    ensures Count(Print(r), '`') == 2 * SectionsIn(r)
  {
    hide Count;
    match r
    case Bare(text) => NoneCounted(text, '`');
    case Quoted(pre, section, suf) =>
      NoneCounted(pre, '`');
      NoneCounted(section, '`');
      QuotesInRule(suf);
      OneQuote();
      CountConcat(pre + ['`'] + section + ['`'], Print(suf), '`');
      CountConcat(pre + ['`'] + section, ['`'], '`');
      CountConcat(pre + ['`'], section, '`');
      CountConcat(pre, ['`'], '`');
  }

  lemma OneQuote()
    ensures Count(['`'], '`') == 1
  {
  }

  lemma NoneCounted(s: string, c: char)
    requires c !in s
    ensures Count(s, c) == 0
  {
    CountBefore(s, c, |s|);
  }

  // ----- rules with more than one section

  /** A part that still holds a back-quote. */
  predicate Tainted(parts: seq<string>) {
    exists p :: p in parts && '`' in p
  }

  /** The splitting failed or left a back-quote in a part. */
  predicate Spoilt(o: Outcome) {
    o == Crash || (o.Rules? && Tainted(o.parts))
  }

  lemma AppendKeepsTaint(parts: seq<string>, x: string)
    requires parts != []
    ensures Tainted(parts) || '`' in x ==> Tainted(AppendToLast(parts, x))
  {
    var all := AppendToLast(parts, x);
    var last := all[|parts| - 1];
    assert last in all && last == parts[|parts| - 1] + x;
    if Tainted(parts) {
      var i :| 0 <= i < |parts| && '`' in parts[i];
      if i < |parts| - 1 {
        assert all[i] == parts[i] && all[i] in all;
      }
    }
  }

  lemma ConcatKeepsTaint(a: seq<string>, b: seq<string>)
    requires Tainted(a)
    ensures Tainted(a + b)
  {
    var p :| p in a && '`' in p;
    assert p in a + b;
  }

  lemma AfterQuoteKeepsTaint(parts: seq<string>, s: string, count: int)
    requires parts != [] && Tainted(parts)
    ensures var t := AfterQuote(parts, s, count);
            (t.Stop? || t.Go?) && Tainted(t.parts)
  {
    hide IndexOf, Split, Tainted, AppendToLast;
    if s != "" {
      AppendKeepsTaint(parts, s);
      var k := if s[0] != ';' then IndexOf(s, ';') else 0;
      if k < |s| {
        AppendKeepsTaint(parts, s[..k]);
        var parts' := if s[0] != ';' then AppendToLast(parts, s[..k]) else parts;
        ConcatKeepsTaint(parts', Split(s[k + 1..], ';'));
      }
    }
  }

  lemma TurnKeepsTaint(parts: seq<string>, s: string, count: int)
    requires Tainted(parts) && IndexOf(s, '`') < |s|
    ensures var t := QuoteTurn(parts, s, count);
            t.Slip? || Tainted(t.parts)
  {
    hide IndexOf, Tainted, AfterQuote, AppendToLast, HeadParts;
    var idx := IndexOf(s, '`');
    var head, tail := s[..idx], s[idx + 1..];
    var e := IndexOf(tail, '`');
    if e < |tail| {
      var quoted := tail[..e];
      ConcatKeepsTaint(parts, HeadParts(head));
      AppendKeepsTaint(parts + HeadParts(head), quoted);
      ConcatKeepsTaint(parts + HeadParts(head), [quoted]);
      AfterQuoteKeepsTaint(WithQuoted(parts, head, quoted), tail[e + 1..], count - 2);
    }
  }

  /** A back-quote that has got into a part stays there. */
  lemma {:induction false} TaintStays(parts: seq<string>, s: string, count: int)
    requires Tainted(parts)
    ensures Spoilt(QuoteLoop(parts, s, count))
    decreases |s|
  {
    hide IndexOf, QuoteTurn, Tainted;
    if IndexOf(s, '`') < |s| {
      TurnKeepsTaint(parts, s, count);
      var t := QuoteTurn(parts, s, count);
      if t.Go? {
        TaintStays(t.parts, t.rest, count - 2);
      }
    }
  }

  /** The text behind the first section of a rule with more: its next back-quote comes before any separator. */
  lemma SecondQuoteTaints(parts: seq<string>, r: Rule, behind: string, count: int)
    requires parts != [] && r.Quoted? && IsRule(r)
    ensures var t := AfterQuote(parts, Print(r) + behind, count);
            (t.Stop? || t.Go?) && Tainted(t.parts)
  {
    hide IndexOf, Split, Tainted, AppendToLast, AfterQuote;
    var tail := r.section + ['`'] + Print(r.suf) + behind;
    var s := Print(r) + behind;
    assert s == r.pre + ['`'] + tail;
    CutBehindQuote(r.pre, tail);
    var k := if s[0] != ';' then IndexOf(s, ';') else 0;
    assert s[0] != ';';
    AppendKeepsTaint(parts, s[..k]);
    AfterQuoteCut(parts, s, count);
  }

  lemma CutBehindQuote(pre: string, tail: string)
    requires ';' !in pre
    ensures var s := pre + ['`'] + tail;
            && s[0] != ';' && '`' in s[..IndexOf(s, ';')]
  {
    hide IndexOf;
    var s := pre + ['`'] + tail;
    var k := IndexOf(s, ';');
    assert forall i :: 0 <= i <= |pre| ==> s[i] != ';';
    assert k > |pre|;
    assert s[..k][|pre|] == '`';
  }

  lemma AfterQuoteCut(parts: seq<string>, s: string, count: int)
    requires parts != [] && s != "" && s[0] != ';' && Tainted(AppendToLast(parts, s[..IndexOf(s, ';')]))
    ensures var t := AfterQuote(parts, s, count);
            (t.Stop? || t.Go?) && Tainted(t.parts)
  {
    hide IndexOf, Split, Tainted, AppendToLast;
    var k := IndexOf(s, ';');
    var parts' := AppendToLast(parts, s[..k]);
    if k == |s| {
      assert s[..k] == s;
    } else {
      ConcatKeepsTaint(parts', Split(s[k + 1..], ';'));
    }
  }

  /** The loop on a text that starts with bare rules and a rule of two or more sections. */
  lemma ManySectionsSpoil(acc: seq<string>, bares: seq<string>, r: Rule, rest: seq<string>, count: int)
    requires !IsSingle(r) && IsRule(r) && forall p :: p in bares ==> IsClean(p)
    ensures Spoilt(QuoteLoop(acc, Front(bares) + Print(r) + Tail(rest), count))
  {
    hide Split, IndexOf, AfterQuote, WithQuoted, Tail, Tainted;
    var s := Front(bares) + Print(r) + Tail(rest);
    var head := Front(bares) + r.pre;
    var behind := Print(r.suf) + Tail(rest);
    var tail := r.section + ['`'] + behind;
    FrontIsClean(bares);
    assert s == head + ['`'] + tail;
    IndexBehind(head, '`', tail);
    IndexBehind(r.section, '`', behind);
    assert s[..|head|] == head && s[|head| + 1..] == tail;
    assert tail[..|r.section|] == r.section && tail[|r.section| + 1..] == behind;
    var parts := WithQuoted(acc, head, r.section);
    SecondQuoteTaints(parts, r.suf, Tail(rest), count - 2);
    var t := AfterQuote(parts, behind, count - 2);
    assert QuoteTurn(acc, s, count) == t;
    if t.Go? {
      TaintStays(t.parts, t.rest, count - 2);
    }
  }

  lemma {:induction false} LoopOnManySections(acc: seq<string>, rs: seq<Rule>)
    requires (forall r :: r in rs ==> IsRule(r)) && exists r :: r in rs && !IsSingle(r)
    ensures Spoilt(QuoteLoop(acc, PrintAll(rs), 2 * Sections(rs)))
    decreases |rs|
  {
    hide IndexOf, Split, Join, QuoteTurn, Prints, Meanings, Print, Meaning, IsRule, Front, Tail, Spoilt;
    SomeSections(rs);
    var j := FirstQuoted(rs);
    assert rs[j] in rs;
    CutRules(rs, j);
    var bares, rest := Meanings(rs[..j]), rs[j + 1..];
    var t := Prints(rest);
    JoinCut(bares, Print(rs[j]), t);
    if !IsSingle(rs[j]) {
      ManySectionsSpoil(acc, bares, rs[j], t, 2 * Sections(rs));
    } else {
      var r :| r in rs && !IsSingle(r);
      var i :| 0 <= i < |rs| && rs[i] == r;
      assert i > j && rest[i - j - 1] == r;
      assert r in rest;
      SomeSections(rest);
      TurnOnRules(acc, bares, rs[j], t, 2 * Sections(rs));
      PrintsEmpty(rest);
      LoopOnManySections(acc + bares + [Meaning(rs[j])], rest);
    }
  }

  lemma {:induction false} SomeSections(rs: seq<Rule>)
    requires exists r :: r in rs && r.Quoted?
    ensures Sections(rs) > 0 && rs != [Bare("")]
    decreases |rs|
  {
    if rs[0].Bare? {
      SomeSections(rs[1..]);
    }
  }

  lemma {:induction false} MeaningsAreClean(rs: seq<Rule>)
    requires forall r :: r in rs ==> IsRule(r)
    ensures !Tainted(Meanings(rs))
  {
    if rs != [] {
      assert rs[0] in rs;
      MeaningIsClean(rs[0]);
      MeaningsAreClean(rs[1..]);
    }
  }

  lemma {:induction false} MeaningIsClean(r: Rule)
    requires IsRule(r)
    ensures '`' !in Meaning(r)
  {
    if r.Quoted? {
      MeaningIsClean(r.suf);
    }
  }

  /**
   A printed rule list is split back into its rules, quotes removed and quoted separators
   kept, if and only if no rule has more than one quoted section, it is not a single empty
   rule and does not end in an empty rule right behind a quoted one.
   */
  lemma RuleListRoundTrip(rs: seq<Rule>)
    requires rs != [] && forall r :: r in rs ==> IsRule(r)
    ensures SplitRules(PrintAll(rs), ';') == Rules(Meanings(rs)) <==>
            (forall r :: r in rs ==> IsSingle(r)) && rs != [Bare("")] && !LosesLast(rs)
  {
    hide IndexOf, Split, QuoteLoop, Count, PrintAll, Meanings, IsRule, Tainted, Sections;
    QuotesArePaired(rs);
    PrintsEmpty(rs);
    if exists r :: r in rs && !IsSingle(r) {
      SomeSections(rs);
      LoopOnManySections([], rs);
      MeaningsAreClean(rs);
    } else if Sections(rs) > 0 {
      LoopOnRules([], rs);
      assert [] + Expected(rs) == Expected(rs);
    } else {
      BareRoundTrip(rs);
    }
  }

  lemma BareRoundTrip(rs: seq<Rule>)
    requires rs != [] && Sections(rs) == 0 && forall r :: r in rs ==> IsRule(r)
    ensures Split(PrintAll(rs), ';') == Meanings(rs) && !LosesLast(rs)
    ensures rs == [Bare("")] ==> Meanings(rs) != []
  {
    hide Split, Join, Prints, Meanings, IsRule;
    AllBare(rs);
    SplitJoinClean(Prints(rs), ';');
    if |rs| > 1 {
      NoQuoted(rs, |rs| - 2);
    }
  }

  /**
   One rule with two sections: it fails exactly when the second section holds a separator,
   and otherwise keeps the quotes around the second section.
   */
  lemma TwoSections(pre: string, a: string, mid: string, b: string, suf: string)
    requires IsClean(pre) && '`' !in a && IsClean(mid) && '`' !in b && IsClean(suf)
    ensures var r := Quoted(pre, a, Quoted(mid, b, Bare(suf)));
            SplitRules(Print(r), ';') ==
            if ';' in b then Crash else Rules([pre + a + mid + ['`'] + b + ['`'] + suf])
  {
    hide IndexOf, Split, Count, AfterQuote, WithQuoted, Print, IsRule, QuoteLoop, HeadParts, SectionsIn, Meaning, Front;
    FrontOfNothing();
    var second := Quoted(mid, b, Bare(suf));
    var r := Quoted(pre, a, second);
    SingleSection(mid, b, suf);
    NextSection(pre, a, second);
    QuotesInRule(r);
    var s, behind := Print(r), Print(second);
    var tail := a + ['`'] + behind;
    assert s == pre + ['`'] + tail;
    IndexBehind(pre, '`', tail);
    IndexBehind(a, '`', behind);
    assert s[..|pre|] == pre && s[|pre| + 1..] == tail;
    assert tail[..|a|] == a && tail[|a| + 1..] == behind;
    var parts := [pre + a];
    HeadBecomesParts([], [], pre, a);
    assert Front([]) + pre == pre && [] + [] + parts == parts;
    assert QuoteTurn([], s, 4) == AfterQuote(parts, behind, 2);
    QuoteTurnLoops([], s, 4);
    if ';' in b {
      SecondSectionCut(parts, mid, b, suf);
    } else {
      SecondSectionWhole(parts, mid, b, suf);
      assert pre + a + behind == pre + a + mid + ['`'] + b + ['`'] + suf;
    }
  }

  lemma FrontOfNothing()
    ensures Front([]) == ""
  {
  }

  lemma NextSection(pre: string, section: string, suf: Rule)
    ensures var r := Quoted(pre, section, suf);
            && Print(r) == pre + ['`'] + section + ['`'] + Print(suf)
            && (IsRule(r) <==> IsClean(pre) && '`' !in section && IsRule(suf))
            && SectionsIn(r) == 1 + SectionsIn(suf) && (suf.Quoted? && suf.suf.Bare? ==> SectionsIn(r) == 2)
  {
  }

  lemma QuoteTurnLoops(parts: seq<string>, s: string, count: int)
    requires IndexOf(s, '`') < |s|
    ensures QuoteLoop(parts, s, count) ==
            match QuoteTurn(parts, s, count)
            case Slip => Crash
            case Stop(all) => Rules(all)
            case Go(parts', rest) => QuoteLoop(parts', rest, count - 2)
  {
    hide QuoteTurn;
  }

  lemma SecondSectionWhole(parts: seq<string>, mid: string, b: string, suf: string)
    requires parts != [] && IsClean(mid) && ';' !in b && IsClean(suf)
    ensures var behind := Print(Quoted(mid, b, Bare(suf)));
            AfterQuote(parts, behind, 2) == Stop(AppendToLast(parts, behind))
  {
    hide IndexOf, Split, Print;
    SingleSection(mid, b, suf);
    var behind := Print(Quoted(mid, b, Bare(suf)));
    assert ';' !in behind;
    IndexBehind(behind, ';', "");
  }

  lemma SecondSectionCut(parts: seq<string>, mid: string, b: string, suf: string)
    requires parts != [] && IsClean(mid) && '`' !in b && ';' in b && IsClean(suf)
    ensures var t := AfterQuote(parts, Print(Quoted(mid, b, Bare(suf))), 2);
            t.Go? && QuoteLoop(t.parts, t.rest, 2) == Crash
  {
    hide IndexOf, Split, Print;
    SingleSection(mid, b, suf);
    var k := IndexOf(b, ';');
    MustBeFound(b, ';');
    var c, d := b[..k], b[k + 1..];
    var u, last := mid + ['`'] + c, d + ['`'] + suf;
    var behind := Print(Quoted(mid, b, Bare(suf)));
    assert b == c + [';'] + d;
    assert behind == u + [';'] + last;
    IndexBehind(u, ';', last);
    assert behind[0] == u[0] && behind[|u| + 1..] == last;
    IndexBehind(d, '`', suf);
    IndexBehind(suf, '`', "");
    assert last[|d| + 1..] == suf;
  }

  lemma MustBeFound(s: string, c: char)
    requires c in s
    ensures IndexOf(s, c) < |s|
  {
    assert s[..|s|] == s;
  }

  // ----- every string is a rule list

  /** Index of the first separator or back-quote, or the length. */
  function FirstSpecial(s: string): (i: nat)
    ensures i <= |s| && IsClean(s[..i])
    ensures i < |s| ==> s[i] == ';' || s[i] == '`'
  {
    if s == "" || s[0] == ';' || s[0] == '`' then 0
    else
      var i := FirstSpecial(s[1..]);
      assert s[..1 + i] == [s[0]] + s[1..][..i];
      1 + i
  }

  lemma CountStep(t: string)
    requires t != ""
    ensures Count(t, '`') == Count(t[1..], '`') + if t[0] == '`' then 1 else 0
  {
  }

  lemma Cut(s: string, i: nat)
    requires i < |s|
    ensures s == s[..i] + [s[i]] + s[i + 1..] && s[i..][1..] == s[i + 1..]
  {
  }

  /** The text before a special character has no back-quotes. */
  lemma CountFrom(s: string, i: nat)
    requires i < |s| && '`' !in s[..i]
    ensures Count(s, '`') == Count(s[i + 1..], '`') + if s[i] == '`' then 1 else 0
    ensures s == s[..i] + [s[i]] + s[i + 1..]
  {
    hide Count;
    Cut(s, i);
    CountBefore(s, '`', i);
    CountStep(s[i..]);
  }

  /** The closing partner of a back-quote, in a string with an odd number of them left. */
  lemma ClosingQuote(t: string) returns (j: nat)
    requires Count(t, '`') % 2 == 1
    ensures j < |t| && '`' !in t[..j] && t == t[..j] + ['`'] + t[j + 1..]
    ensures Count(t, '`') == 1 + Count(t[j + 1..], '`')
  {
    hide IndexOf, Count;
    j := IndexOf(t, '`');
    assert t[..|t|] == t;
    if j == |t| {
      NoneCounted(t, '`');
    } else {
      CountFrom(t, j);
    }
  }

  /** A string whose back-quotes come in pairs is the print of a rule list. */
  lemma {:induction false} EveryStringIsAList(s: string) returns (rs: seq<Rule>)
    requires Count(s, '`') % 2 == 0
    ensures rs != [] && (forall r :: r in rs ==> IsRule(r)) && PrintAll(rs) == s
    decreases |s|
  {
    hide IndexOf, Count, PrintAll, IsRule, FirstSpecial, IsClean;
    var i := FirstSpecial(s);
    var head := s[..i];
    if i == |s| {
      rs := [Bare(s)] + [];
      assert head == s && s + "" == s;
      BareFirst(s, []);
    } else {
      CleanHasNoQuote(head);
      CountFrom(s, i);
      var rest := s[i + 1..];
      if s[i] == ';' {
        var more := EveryStringIsAList(rest);
        rs := [Bare(head)] + more;
        BareFirst(head, more);
        assert head + ([';'] + rest) == head + [';'] + rest;
      } else {
        var j := ClosingQuote(rest);
        var section, behind := rest[..j], rest[j + 1..];
        var more := EveryStringIsAList(behind);
        rs := [Quoted(head, section, more[0])] + more[1..];
        QuotedFirst(head, section, more);
        assert head + ['`'] + (section + ['`'] + behind) == head + ['`'] + section + ['`'] + behind;
      }
    }
  }

  lemma CleanHasNoQuote(s: string)
    requires IsClean(s)
    ensures '`' !in s
  {
  }

  lemma BareFirst(text: string, more: seq<Rule>)
    requires IsClean(text) && forall r :: r in more ==> IsRule(r)
    ensures forall r :: r in [Bare(text)] + more ==> IsRule(r)
    ensures PrintAll([Bare(text)] + more) == text + if more == [] then "" else [';'] + PrintAll(more)
  {
    var all := [Bare(text)] + more;
    assert all[1..] == more;
    assert Prints(all) == [text] + Prints(more);
    JoinStep(text, Prints(more));
  }

  lemma QuotedFirst(pre: string, section: string, more: seq<Rule>)
    requires IsClean(pre) && '`' !in section && more != [] && forall r :: r in more ==> IsRule(r)
    ensures forall r :: r in [Quoted(pre, section, more[0])] + more[1..] ==> IsRule(r)
    ensures PrintAll([Quoted(pre, section, more[0])] + more[1..]) == pre + ['`'] + section + ['`'] + PrintAll(more)
  {
    hide Join;
    assert more[0] in more;
    var first, rest := Quoted(pre, section, more[0]), more[1..];
    var all := [first] + rest;
    assert all[1..] == rest && more == [more[0]] + rest;
    assert Prints(all) == [Print(first)] + Prints(rest) && Prints(more) == [Print(more[0])] + Prints(rest);
    JoinStep(Print(first), Prints(rest));
    JoinStep(Print(more[0]), Prints(rest));
    NextSection(pre, section, more[0]);
    var t := Tail(Prints(rest));
    assert pre + ['`'] + section + ['`'] + Print(more[0]) + t == pre + ['`'] + section + ['`'] + (Print(more[0]) + t);
  }

  /**
   The outcome for every string: back-quotes without a partner are refused; any other string
   is the print of some rules, and is split into exactly these rules under the condition of
   RuleListRoundTrip.
   */
  lemma EveryString(s: string) returns (rs: seq<Rule>)
    ensures SplitRules(s, ';') == Unclosed <==> Count(s, '`') % 2 != 0
    ensures Count(s, '`') % 2 == 0 ==>
              && rs != [] && PrintAll(rs) == s
              && (SplitRules(s, ';') == Rules(Meanings(rs)) <==>
                  (forall r :: r in rs ==> IsSingle(r)) && rs != [Bare("")] && !LosesLast(rs))
  {
    hide IndexOf, Split, Count, Prints, Meanings, IsRule, QuoteTurn, Join, PrintAll;
    rs := [];
    NeverUnclosed([], s, Count(s, '`'));
    EmptyJoin();
    if Count(s, '`') % 2 == 0 {
      rs := EveryStringIsAList(s);
      RuleListRoundTrip(rs);
    }
  }

  lemma {:induction false} NeverUnclosed(parts: seq<string>, s: string, count: int)
    ensures QuoteLoop(parts, s, count) != Unclosed
    decreases |s|
  {
    hide IndexOf, QuoteTurn;
    if IndexOf(s, '`') < |s| {
      var t := QuoteTurn(parts, s, count);
      if t.Go? {
        NeverUnclosed(t.parts, t.rest, count - 2);
      }
    }
  }

  /** A list that ends in an empty rule right behind a quoted one loses that rule, and the empty string has no rules. */
  lemma LostRule(rs: seq<Rule>)
    requires (forall r :: r in rs ==> IsRule(r) && IsSingle(r)) && LosesLast(rs)
    ensures SplitRules(PrintAll(rs), ';') == Rules(Meanings(rs)[..|rs| - 1])
    ensures SplitRules("", ';') == Rules([])
  {
    hide SplitRules, QuoteLoop, Count, PrintAll, Meanings, IsRule, Sections;
    var q := rs[|rs| - 2];
    assert q in rs && q.Quoted?;
    SomeSections(rs);
    QuotesArePaired(rs);
    SplitsByLoop(PrintAll(rs), Sections(rs));
    LoopOnRules([], rs);
    assert [] + Expected(rs) == Expected(rs);
    NothingToSplit();
  }

  lemma SplitsByLoop(s: string, n: nat)
    requires Count(s, '`') == 2 * n && n > 0
    ensures SplitRules(s, ';') == QuoteLoop([], s, 2 * n)
  {
    hide QuoteLoop, Split;
    EmptyJoin();
  }

  lemma NothingToSplit()
    ensures SplitRules("", ';') == Rules([])
  {
  }

  /** The separator of the caller matters only where nothing is quoted. */
  lemma SeparatorIsForUnquoted(s: string, separator: char)
    ensures '`' in s ==> SplitRules(s, separator) == SplitRules(s, ';')
    ensures '`' !in s && s != "" ==> SplitRules(s, separator) == Rules(Split(s, separator))
  {
    hide Split, QuoteLoop, Count;
    if '`' in s {
      SomeCounted(s, '`');
    } else {
      NoneCounted(s, '`');
    }
  }

  lemma {:induction false} SomeCounted(s: string, c: char)
    requires c in s
    ensures Count(s, c) > 0
  {
    if s[0] != c {
      SomeCounted(s[1..], c);
    }
  }

  // ----- printing a template's value

  /** The value of a field template: its rules with separators between them, if it has any. */
  method PrintValue(rules: seq<string>, separator: char) returns (value: Option<string>)
    ensures rules == [] ==> value == None
    ensures rules != [] ==> value == Some(Join(rules, separator))
  {
    value := None;
    for i := 0 to |rules|
      invariant i == 0 ==> value == None
      invariant i > 0 ==> value == Some(Join(rules[..i], separator))
    {
      if i != 0 {
        value := Some(value.value + [separator]);
      }
      JoinSnoc(rules[..i], rules[i], separator);
      assert rules[..i + 1] == rules[..i] + [rules[i]];
      if value == None {
        value := Some(rules[i]);
      } else {
        value := Some(value.value + rules[i]);
      }
    }
    assert rules[..|rules|] == rules;
  }

  lemma {:induction false} JoinSnoc<T>(parts: seq<seq<T>>, x: seq<T>, c: T)
    ensures Join(parts + [x], c) == if parts == [] then x else Join(parts, c) + [c] + x
    decreases |parts|
  {
    if parts == [] {
      assert parts + [x] == [x];
    } else {
      assert (parts + [x])[1..] == parts[1..] + [x];
      JoinSnoc(parts[1..], x, c);
      if |parts| > 1 {
        assert parts[0] + [c] + (Join(parts[1..], c) + [c] + x) == parts[0] + [c] + Join(parts[1..], c) + [c] + x;
      }
    }
  }

  /** A printed value parses back into the same rules exactly when no rule holds the separator. */
  lemma ValueRoundTrip(rules: seq<string>, separator: char)
    requires rules != [] && separator != '`' && forall r :: r in rules ==> '`' !in r
    ensures SplitRules(Join(rules, separator), separator) == Rules(rules) <==>
            rules != [""] && forall r :: r in rules ==> separator !in r
  {
    hide Split, Count, Join;
    NoQuotePrinted(rules, separator);
    SplitJoin(rules, separator);
    NoneCounted(Join(rules, separator), '`');
    EmptyPrinted(rules, separator);
  }

  lemma {:induction false} NoQuotePrinted(rules: seq<string>, separator: char)
    requires separator != '`' && forall r :: r in rules ==> '`' !in r
    ensures '`' !in Join(rules, separator)
    decreases |rules|
  {
    if rules != [] {
      assert rules[0] in rules;
      if |rules| > 1 {
        NoQuotePrinted(rules[1..], separator);
      }
    }
  }

  lemma EmptyPrinted(rules: seq<string>, separator: char)
    requires rules != []
    ensures Join(rules, separator) == "" <==> rules == [""]
  {
  }
}
