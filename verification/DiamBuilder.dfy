/**
 Setting a value at a dotted path of a Diameter message: share the deepest group that is
 there, overwrite a single pair, or open a new branch, with the header length kept.
 */
module DiamBuilder {
  import opened Wrappers
  import opened DiamTree

  /** A dictionary entry; a scalar type is named by its number. */
  datatype DictAvp = DictAvp(code: nat, vendor: nat, kind: Kind)
  datatype Kind = Grouped | Scalar(typeId: nat)

  type Dictionary = map<string, DictAvp>

  /** Encodes a value string for a scalar type, if the type accepts it. */
  type Encoder = (nat, string) -> Option<seq<Octet>>

  datatype Error = EmptyPath | UnknownAvp(name: string) | LastIsGroup | BadValue

  function Codes(entries: seq<DictAvp>): (p: Path)
    ensures |p| == |entries|
  {
    if entries == [] then [] else [entries[0].code] + Codes(entries[1..])
  }

  lemma {:induction false} CodesSlice(entries: seq<DictAvp>, i: nat)
    requires i <= |entries|
    ensures Codes(entries[..i]) == Codes(entries)[..i] && Codes(entries[i..]) == Codes(entries)[i..]
  {
    if i == 0 {
      assert entries[0..] == entries;
    } else {
      CodesSlice(entries[1..], i - 1);
      assert entries[..i][1..] == entries[1..][..i - 1];
      assert entries[i..] == entries[1..][i - 1..];
      assert Codes(entries)[1..] == Codes(entries[1..]);
    }
  }

  lemma {:induction false} CodesAt(entries: seq<DictAvp>, i: nat)
    requires i < |entries|
    ensures Codes(entries)[i] == entries[i].code
  {
    if i > 0 {
      CodesAt(entries[1..], i - 1);
    }
  }

  /** The vendor bit follows the vendor. */
  function NewLeaf(entry: DictAvp, payload: seq<Octet>): Avp {
    Leaf(entry.code, entry.vendor > 0, entry.vendor, payload)
  }

  function NewGroup(entry: DictAvp, avps: seq<Avp>): Avp {
    Group(entry.code, entry.vendor > 0, entry.vendor, avps)
  }

  /** A leaf wrapped in one fresh group for every entry before the last. */
  function Chain(entries: seq<DictAvp>, payload: seq<Octet>): Avp
    requires entries != []
  {
    if |entries| == 1 then NewLeaf(entries[0], payload)
    else NewGroup(entries[0], [Chain(entries[1..], payload)])
  }

  function TheLeaf(entries: seq<DictAvp>, payload: seq<Octet>): Avp
    requires entries != []
  {
    NewLeaf(Last(entries), payload)
  }

  predicate IsShareable(avps: seq<Avp>, path: Path) {
    var found := Find(avps, path);
    path != [] && found != [] && Last(found).Group?
  }

  /** Length of the longest proper prefix, of length at most `i`, that can be shared; 0 if none. */
  function Deepest(avps: seq<Avp>, path: Path, i: nat): (d: nat)
    requires i < |path|
    ensures d <= i
    decreases i
  {
    if i == 0 then 0
    else if IsShareable(avps, path[..i]) then i
    else Deepest(avps, path, i - 1)
  }

  lemma {:induction false} DeepestIsDeepest(avps: seq<Avp>, path: Path, i: nat)
    requires i < |path|
    ensures var d := Deepest(avps, path, i);
            && (d > 0 ==> IsShareable(avps, path[..d]))
            && forall j :: d < j <= i ==> !IsShareable(avps, path[..j])
    decreases i
  {
    hide IsShareable;
    if i > 0 && !IsShareable(avps, path[..i]) {
      DeepestIsDeepest(avps, path, i - 1);
    }
  }

  datatype Outcome = Shared(depth: nat) | Overwritten | NewTop

  /** Which of the three edits is made. */
  function Decide(avps: seq<Avp>, path: Path, newBranch: bool): (o: Outcome)
    requires path != []
    ensures newBranch ==> o == NewTop
    ensures o.Shared? ==>
              && 0 < o.depth < |path| && IsShareable(avps, path[..o.depth])
              && forall j :: o.depth < j < |path| ==> !IsShareable(avps, path[..j])
    ensures !newBranch && !o.Shared? ==>
              && (forall j :: 0 < j < |path| ==> !IsShareable(avps, path[..j]))
              && (o.Overwritten? <==> Find(avps, path) != [])
  {
    DeepestIsDeepest(avps, path, |path| - 1);
    if newBranch then NewTop
    else if Deepest(avps, path, |path| - 1) > 0 then Shared(Deepest(avps, path, |path| - 1))
    else if Find(avps, path) != [] then Overwritten
    else NewTop
  }

  /** The pairs after a successful call. */
  function Placed(avps: seq<Avp>, entries: seq<DictAvp>, payload: seq<Octet>, newBranch: bool): seq<Avp>
    requires entries != []
  {
    match Decide(avps, Codes(entries), newBranch)
    case Shared(d) => AppendAt(avps, Codes(entries)[..d], Chain(entries[d..], payload))
    case Overwritten => ReplaceLast(avps, Codes(entries), Chain(entries, payload))
    case NewTop => avps + [Chain(entries, payload)]
  }

  /** A pair would be overwritten by a whole branch: it is there, but no group on the way to it can be shared. */
  ghost predicate Misplaces(avps: seq<Avp>, path: Path, newBranch: bool) {
    && !newBranch && |path| > 1 && Find(avps, path) != []
    && forall i :: 0 < i < |path| ==> !IsShareable(avps, path[..i])
  }

  lemma MisplacesIsOverwrite(avps: seq<Avp>, path: Path, newBranch: bool)
    requires path != []
    ensures Misplaces(avps, path, newBranch) <==> |path| > 1 && Decide(avps, path, newBranch).Overwritten?
  {
    hide Find, IsShareable;
    var d := Deepest(avps, path, |path| - 1);
    DeepestIsDeepest(avps, path, |path| - 1);
    if d > 0 {
      assert IsShareable(avps, path[..d]);
    }
  }

  // ----- length

  const HEADER_LENGTH := 20
  const UINT32 := 0x1_0000_0000

  ghost predicate LengthMatches(messageLength: nat, avps: seq<Avp>) {
    messageLength == (HEADER_LENGTH + LenAll(avps)) % UINT32
  }

  /** Header length after a successful call, in 32-bit arithmetic. */
  function PlacedLength(messageLength: nat, avps: seq<Avp>, entries: seq<DictAvp>, payload: seq<Octet>,
                        newBranch: bool): nat
    requires entries != []
  {
    match Decide(avps, Codes(entries), newBranch)
    case Shared(d) => (messageLength + Len(Chain(entries[d..], payload))) % UINT32
    case Overwritten =>
      ((messageLength - Len(Last(Find(avps, Codes(entries))))) % UINT32 + Len(Chain(entries, payload))) % UINT32
    case NewTop => (messageLength + Len(Chain(entries, payload))) % UINT32
  }

  lemma ModAdd(a: nat, b: nat)
    ensures (a % UINT32 + b) % UINT32 == (a + b) % UINT32
  {
  }

  lemma ModSub(a: nat, b: nat, c: nat)
    ensures ((a % UINT32 - b) % UINT32 + c) % UINT32 == (a - b + c) % UINT32
  {
  }

  /** On every path through the builder the header keeps the length of the message. */
  lemma LengthIsKept(messageLength: nat, avps: seq<Avp>, entries: seq<DictAvp>, payload: seq<Octet>, newBranch: bool)
    requires entries != [] && LengthMatches(messageLength, avps)
    ensures LengthMatches(PlacedLength(messageLength, avps, entries, payload, newBranch),
                          Placed(avps, entries, payload, newBranch))
    ensures PlacedLength(messageLength, avps, entries, payload, newBranch) ==
            (20 + LenAll(Placed(avps, entries, payload, newBranch))) % 0x1_0000_0000
  {
    hide Find, ReplaceLast, Len, LenAll, Chain;
    var total := HEADER_LENGTH + LenAll(avps);
    match Decide(avps, Codes(entries), newBranch) {
      case Shared(d) =>
        var p, x := Codes(entries)[..d], Chain(entries[d..], payload);
        var g := Last(Find(avps, p));
        ReplaceLength(avps, p, g.(avps := g.avps + [x]));
        GroupLength(g, x);
        ModAdd(total, Len(x));
      case Overwritten =>
        var g, x := Last(Find(avps, Codes(entries))), Chain(entries, payload);
        ReplaceLength(avps, Codes(entries), x);
        ModSub(total, Len(g), Len(x));
      case NewTop =>
        var x := Chain(entries, payload);
        LenAllSnoc(avps, x);
        ModAdd(total, Len(x));
    }
  }

  lemma GroupLength(g: Avp, x: Avp)
    requires g.Group?
    ensures Len(g.(avps := g.avps + [x])) == Len(g) + Len(x)
  {
    LenAllSnoc(g.avps, x);
  }

  // ----- read-back and frame

  /** A chain holds its leaf at its own path and nothing at paths that are not prefixes of it. */
  lemma {:induction false} ChainFind(entries: seq<DictAvp>, payload: seq<Octet>, q: Path)
    requires entries != [] && q != []
    ensures FindIn(Chain(entries, payload), Codes(entries)) == [TheLeaf(entries, payload)]
    ensures !(q <= Codes(entries)) ==> FindIn(Chain(entries, payload), q) == []
    decreases |entries|
  {
    var c, p := Chain(entries, payload), Codes(entries);
    if |entries| > 1 {
      var k := Chain(entries[1..], payload);
      ChainFind(entries[1..], payload, if |q| > 1 then q[1..] else q);
      FindOne(k, p[1..]);
      assert p[1..] == Codes(entries[1..]);
      assert Last(entries) == Last(entries[1..]);
      if q[0] == p[0] && |q| > 1 {
        FindOne(k, q[1..]);
        assert q[1..] <= p[1..] ==> q <= p;
      }
    }
  }

  /** Adding x to the last group at p, seen along p + r. */
  lemma AppendReadBack(avps: seq<Avp>, p: Path, x: Avp, r: Path)
    requires IsShareable(avps, p) && r != []
    ensures Find(AppendAt(avps, p, x), p + r) == Find(avps, p + r) + FindIn(x, r)
  {
    hide Find, ReplaceLast, KidsAll, FindIn;
    var found := Find(avps, p);
    var g := Last(found);
    var y := g.(avps := g.avps + [x]);
    FoundCode(avps, p);
    ReplaceReadBack(avps, p, y);
    FindThrough(avps, p, r);
    FindThrough(AppendAt(avps, p, x), p, r);
    KidsAllConcat(Init(found), [y], r);
    KidsAllConcat(Init(found), [g], r);
    assert found == Init(found) + [g];
    KidsOne(g, r);
    KidsOne(y, r);
    FindConcat(g.avps, [x], r);
    FindOne(x, r);
    var before := KidsAll(Init(found), r);
    assert before + (Find(g.avps, r) + FindIn(x, r)) == (before + Find(g.avps, r)) + FindIn(x, r);
  }

  lemma KidsOne(a: Avp, r: Path)
    ensures KidsAll([a], r) == Kids(a, r)
  {
    hide Kids;
    assert [a][1..] == [];
  }

  /** Pairs found at a path carry its last code. */
  lemma {:induction false} FoundCode(avps: seq<Avp>, p: Path)
    requires p != []
    ensures forall a :: a in Find(avps, p) ==> a.code == Last(p)
    decreases |p|, |avps|
  {
    if avps != [] {
      FoundCode(avps[1..], p);
      var a := avps[0];
      if a.code == p[0] && |p| > 1 && a.Group? {
        FoundCode(a.avps, p[1..]);
      }
    }
  }

  lemma SharedReadBack(avps: seq<Avp>, entries: seq<DictAvp>, payload: seq<Octet>, d: nat)
    requires 0 < d < |entries| && IsShareable(avps, Codes(entries)[..d])
    ensures Find(AppendAt(avps, Codes(entries)[..d], Chain(entries[d..], payload)), Codes(entries)) ==
            Find(avps, Codes(entries)) + [TheLeaf(entries, payload)]
  {
    hide Find, AppendAt, Chain, FindIn, Codes;
    var p := Codes(entries);
    CodesSlice(entries, d);
    assert p == p[..d] + p[d..];
    ChainFind(entries[d..], payload, p[d..]);
    assert Last(entries[d..]) == Last(entries);
    AppendReadBack(avps, p[..d], Chain(entries[d..], payload), p[d..]);
  }

  /** What a successful call is meant to leave at its own path. */
  ghost predicate ReadsBack(avps: seq<Avp>, entries: seq<DictAvp>, payload: seq<Octet>, newBranch: bool)
    requires entries != []
  {
    var p := Codes(entries);
    var before, after := Find(avps, p), Find(Placed(avps, entries, payload, newBranch), p);
    && after != [] && HoldsValue(Last(after), Last(entries), payload)
    && Init(after) == if |p| == 1 && !newBranch && before != [] then Init(before) else before
  }

  /** The pair is a leaf with the value, under the code and the vendor of its dictionary entry. */
  predicate HoldsValue(a: Avp, entry: DictAvp, payload: seq<Octet>) {
    && a.Leaf? && a.payload == payload
    && a.code == entry.code && a.vendor == entry.vendor && (a.vbit <==> entry.vendor > 0)
  }

  /** A pair that holds the value is the leaf that is built for it. */
  lemma HoldsOnlyLeaf(a: Avp, entries: seq<DictAvp>, payload: seq<Octet>)
    requires entries != []
    ensures HoldsValue(a, Last(entries), payload) <==> a == TheLeaf(entries, payload)
  {
  }

  /** The groups that a new branch opens: one for every entry before the last, with one member each. */
  lemma {:induction false} ChainGroups(entries: seq<DictAvp>, payload: seq<Octet>, i: nat)
    requires 0 < i < |entries|
    ensures var found := Find([Chain(entries, payload)], Codes(entries)[..i]);
            && |found| == 1 && found[0].Group? && |found[0].avps| == 1
            && found[0].code == entries[i - 1].code && found[0].vendor == entries[i - 1].vendor
            && (found[0].vbit <==> entries[i - 1].vendor > 0)
    decreases i
  {
    var c, p := Chain(entries, payload), Codes(entries);
    FindOne(c, p[..i]);
    if i > 1 {
      ChainGroups(entries[1..], payload, i - 1);
      assert p[..i][1..] == Codes(entries[1..])[..i - 1];
    }
  }

  /**
   The new leaf is read back as the last one at its path, or in the place of the one it
   overwrites, exactly when no pair is overwritten by a whole branch.
   */
  lemma ReadBack(avps: seq<Avp>, entries: seq<DictAvp>, payload: seq<Octet>, newBranch: bool)
    requires entries != []
    ensures ReadsBack(avps, entries, payload, newBranch) <==> !Misplaces(avps, Codes(entries), newBranch)
  {
    hide Find, ReplaceLast, Chain, Deepest, ReplaceIn, FindIn, AppendAt, IsShareable, Misplaces, HoldsValue, NewLeaf;
    MisplacesIsOverwrite(avps, Codes(entries), newBranch);
    var p, leaf := Codes(entries), TheLeaf(entries, payload);
    ChainFind(entries, payload, p);
    HoldsOnlyLeaf(leaf, entries, payload);
    match Decide(avps, p, newBranch) {
      case Shared(d) =>
        SharedReadBack(avps, entries, payload, d);
      case Overwritten =>
        if |p| == 1 {
          SingleChain(entries, payload);
          ReplaceReadBack(avps, p, leaf);
        } else {
          MisplacedCount(avps, entries, payload);
        }
      case NewTop =>
        FindConcat(avps, [Chain(entries, payload)], p);
        FindOne(Chain(entries, payload), p);
    }
  }

  lemma SingleChain(entries: seq<DictAvp>, payload: seq<Octet>)
    requires |entries| == 1
    ensures Chain(entries, payload) == TheLeaf(entries, payload)
    ensures TheLeaf(entries, payload).code == Last(Codes(entries))
  {
  }

  /** A branch in the place of a leaf does not read back: the list does not grow. */
  lemma MisplacedCount(avps: seq<Avp>, entries: seq<DictAvp>, payload: seq<Octet>)
    requires |entries| > 1 && Find(avps, Codes(entries)) != []
    ensures var p := Codes(entries);
            |Find(ReplaceLast(avps, p, Chain(entries, payload)), p)| <= |Find(avps, p)|
  {
    hide Find, ReplaceLast;
    ReplaceCount(avps, Codes(entries), Chain(entries, payload));
  }

  lemma {:induction false} ReplaceCount(avps: seq<Avp>, path: Path, y: Avp)
    requires path != [] && Find(avps, path) != []
    ensures |Find(ReplaceLast(avps, path, y), path)| <= |Find(avps, path)|
    decreases |path|, |avps|
  {
    hide Find;
    FindSnoc(avps, path);
    var init, last := Init(avps), Last(avps);
    if FindIn(last, path) != [] {
      var last' := ReplaceIn(last, path, y);
      ReplaceInCount(last, path, y);
      FindSnoc(init + [last'], path);
      assert Init(init + [last']) == init;
    } else {
      ReplaceCount(init, path, y);
      var init' := ReplaceLast(init, path, y);
      FindSnoc(init' + [last], path);
      assert Init(init' + [last]) == init';
    }
  }

  lemma {:induction false} ReplaceInCount(a: Avp, path: Path, y: Avp)
    requires path != [] && FindIn(a, path) != []
    ensures |FindIn(ReplaceIn(a, path, y), path)| <= |FindIn(a, path)|
    decreases |path|, 0
  {
    hide Find, ReplaceLast;
    if |path| > 1 {
      ReplaceCount(a.avps, path[1..], y);
    }
  }

  /**
   Frame: a search along a path that is not a prefix of the one set finds what it found
   before, except below a group that a single-segment call has overwritten.
   */
  lemma Frame(avps: seq<Avp>, entries: seq<DictAvp>, payload: seq<Octet>, newBranch: bool, q: Path)
    requires entries != [] && q != [] && !(q <= Codes(entries))
    requires !Misplaces(avps, Codes(entries), newBranch)
    ensures var p := Codes(entries);
            var after := Find(Placed(avps, entries, payload, newBranch), q);
            if Decide(avps, p, newBranch).Overwritten? && p <= q
            then Find(avps, q) == after + Kids(Last(Find(avps, p)), q[|p|..])
            else Find(avps, q) == after
  {
    hide Find, ReplaceLast, Chain, Deepest, FindIn, AppendAt, IsShareable, Kids, Misplaces;
    MisplacesIsOverwrite(avps, Codes(entries), newBranch);
    var p := Codes(entries);
    match Decide(avps, p, newBranch) {
      case Shared(d) =>
        SharedFrame(avps, entries, payload, d, q);
      case Overwritten =>
        SingleChain(entries, payload);
        OverwrittenFrame(avps, p, TheLeaf(entries, payload), q);
      case NewTop =>
        FindConcat(avps, [Chain(entries, payload)], q);
        FindOne(Chain(entries, payload), q);
        ChainFind(entries, payload, q);
    }
  }

  lemma SharedFrame(avps: seq<Avp>, entries: seq<DictAvp>, payload: seq<Octet>, d: nat, q: Path)
    requires 0 < d < |entries| && IsShareable(avps, Codes(entries)[..d])
    requires q != [] && !(q <= Codes(entries))
    ensures Find(AppendAt(avps, Codes(entries)[..d], Chain(entries[d..], payload)), q) == Find(avps, q)
  {
    hide Find, ReplaceLast, Chain, FindIn, Codes;
    var p := Codes(entries);
    CodesSlice(entries, d);
    var s, r, x := p[..d], p[d..], Chain(entries[d..], payload);
    assert p == s + r;
    if s <= q {
      var t := q[d..];
      assert q == s + t;
      assert t <= r ==> q <= p;
      AppendReadBack(avps, s, x, t);
      ChainFind(entries[d..], payload, t);
    } else {
      assert q <= s ==> q <= p;
      var g := Last(Find(avps, s));
      FoundCode(avps, s);
      ReplaceFrame(avps, s, g.(avps := g.avps + [x]), q);
    }
  }

  lemma OverwrittenFrame(avps: seq<Avp>, p: Path, leaf: Avp, q: Path)
    requires p != [] && Find(avps, p) != [] && leaf.Leaf? && leaf.code == Last(p)
    requires q != [] && !(q <= p)
    ensures var after := Find(ReplaceLast(avps, p, leaf), q);
            if p <= q then Find(avps, q) == after + Kids(Last(Find(avps, p)), q[|p|..])
            else Find(avps, q) == after
  {
    hide Find, ReplaceLast, KidsAll;
    if p <= q {
      var r := q[|p|..];
      assert q == p + r;
      var found := Find(avps, p);
      var g := Last(found);
      ReplaceReadBack(avps, p, leaf);
      FindThrough(avps, p, r);
      FindThrough(ReplaceLast(avps, p, leaf), p, r);
      KidsAllConcat(Init(found), [leaf], r);
      KidsAllConcat(Init(found), [g], r);
      assert found == Init(found) + [g];
      KidsOne(g, r);
      KidsOne(leaf, r);
    } else {
      ReplaceFrame(avps, p, leaf, q);
    }
  }

  /** A message that misplaces: a group and behind it a plain pair with the same code. */
  lemma MisplacingMessage()
    ensures var avps: seq<Avp> := [Group(1, false, 0, [Leaf(2, false, 0, [])]), Leaf(1, false, 0, [])];
            Misplaces(avps, [1, 2], false)
  {
    hide Find;
    var member := Leaf(2, false, 0, []);
    var first, second := Group(1, false, 0, [member]), Leaf(1, false, 0, []);
    assert [] + [member] == [member] && [] + [first] == [first] && [first] + [second] == [first, second];
    assert [1] + [2] == [1, 2] && [1, 2][..1] == [1];
    FindByCode([], member, 2);
    FindInside([], first, 1, [2]);
    FindInside([first], second, 1, [2]);
    FindByCode([], first, 1);
    FindByCode([first], second, 1);
  }
}
